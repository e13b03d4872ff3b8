# FunctionalJavaTuples: the fixed-arity function combinators, in Dafny

This project models the combinator library `org.javatuples.functional`. It covers
the base interface `Fn`, its arity-1, 2 and 3 specialisations `UnitFn`, `PairFn` and
`TripletFn`, and their bulk helpers. It proves the laws the library is built on:

- the curried, uncurried, partial and tuple forms of a function agree;
- the static `curry` and `uncurry` converters are inverse to each other;
- the generic default `applyTuple` agrees with the per-arity overrides;
- `zip` truncates to the shortest input, and `zip` and `unzip` undo each other;
- the composition operators `point`, `pipe` and `andThen` compose as expected.

Module layout, one module per source file:

- `Fn` (`fn.dfy`, from `Fn.java`) defines the two failure outcomes of generic
  application: `ArityMismatch` and `NotApplicable`.
  - The curried chain is `Stage<V> = Done(v) | Step(f)`. Tuple elements and the plain
    values a chain yields have the one value type `V`. Each stage of the chain, and so
    the result of the default `applyTuple`, is a `Stage<V>`: a further function or a
    plain value. In the source all of these are `Object` once generics are erased.
  - A function is `Fn<V>(arity, curry)`: its arity and the first stage of its curried
    chain.
  - `Run` and `Apply` say what the default `applyTuple` computes. The method
    `Fn.ApplyTuple` performs it with the source's loop.
  - `Point` and `Pipe` receive the receiver's `applyTuple` as a function value. That is
    how the Java default methods reach the per-arity override.
  - `PipeDefault` is `pipe` over the default `applyTuple`. An exception thrown by
    `applyTuple` skips the downstream function and reaches the caller; `Propagate`
    models that.
- `Unit`, `Pair`, `Triplet` (`unit.dfy`, `pair.dfy`, `triplet.dfy`) each wrap one
  Dafny arrow in a datatype, e.g. `PairFn(apply: (A, B) -> R)`.
  - The interface's default methods are member functions of that datatype.
  - The static methods are module-level functions.
  - `zip` and `unzip` are methods with loops. Each is proved against a specification
    function, `Zipped` or `Unzipped`.
  - A `Pair` of the tuple library is the Dafny tuple `(A, B)`, and a `Triplet` is
    `(A, B, C)`. A `Unit` is the datatype `Unit(value0)`.
  - `ToFn` gives the curried chain that the generic default would walk for a function
    over a single value type.
- `Demo` (`demo.dfy`) restates the `check` calls of `FunctionalDemo.java` as lemmas.

Several functions have no contract of their own, because their contract would just
repeat their body: `Curry`, `Uncurry`, the `ApplyTuple` overrides of `UnitFn`, `PairFn`
and `TripletFn`, `Partial`, `Arity`, `AndThen`,
`OfUncurried`, `OfCurried`, `Of`, `OfSupplier`, `With`, `Point`, `Pipe`, `Propagate`,
`PipeDefault` and `ToFn`.
The lemmas in the table below state what they mean.

Notes on the code as written:
- `UnitFn.applyArray` is marked `@Override`, yet the `Fn` interface in these files
  declares no `applyArray`. It is modelled on `UnitFn` alone.
- The generalised `zip` only accepts a zipper that returns a `Pair` (or `Triplet`) of
  the two (three) element types. It is not generic in the result shape.
- A broken curried chain raises an `IllegalArgumentException` with the message "Tuple
  not applicable to this function.". It is modelled as `NotApplicable`.
- `UnitFn.applyArray` refuses an array whose length is not 1 with the message "Length of
  array must be 1". This is not the message of the arity check in the default
  `applyTuple`, but both are modelled as `ArityMismatch`.

## Model

| member | source | states |
|---|---|---|
| `Fn.ApplyTuple` | src/org/javatuples/functional/Fn.java:37-50 | When the arity differs from the tuple size, the result is `ArityMismatch`, whatever the curried chain. Otherwise the result is the elements threaded left to right through `curry()` (`Run`), failing with `NotApplicable` if a stage is not a function while elements remain. |
| `Fn.RunConcat` | src/org/javatuples/functional/Fn.java:43-46 | Threading `xs + ys` equals threading `xs` and then, if that succeeded, `ys`. So elements are consumed one per stage, strictly left to right. |
| `Fn.ChainRun` | src/org/javatuples/functional/Fn.java:43-48 | On a chain of depth `n`: fewer than `n` elements leave a function, exactly `n` give a plain value, and more than `n` fail with "not applicable". |
| `Fn.ApplyOnChain` | src/org/javatuples/functional/Fn.java:37-49 | Default `applyTuple` on a chain of depth `k`. A size different from `arity()` gives an arity mismatch. A matching size gives a value when `k` equals it, an unchecked function when `k` is larger, and "not applicable" when `k` is smaller. |
| `Fn.WellFormedApply` | src/org/javatuples/functional/Fn.java:28-50 | If `curry()` has depth `arity()`, the default succeeds exactly when the tuple size equals the arity, and then gives a plain value. Otherwise it fails with an arity mismatch. The "not applicable" branch is unreachable for such functions. |
| `Fn.PointOnWellFormed` | src/org/javatuples/functional/Fn.java:97-100 | `point(f)` through the default `applyTuple` gives a value exactly when `f` produces a tuple of the function's arity. Otherwise it reports an arity mismatch. |
| `Fn.PipePropagates` | src/org/javatuples/functional/Fn.java:110-113 | For any chain, when the default `applyTuple` fails, `pipe(k)` fails with the same error and its result does not depend on `k`. When it succeeds, `pipe(k)` gives `k` of the stage returned. |
| `Fn.PipeOnWellFormed` | src/org/javatuples/functional/Fn.java:110-113 | On a well-formed function, `pipe(k)` over the default fails with an arity mismatch for a wrong-size tuple, whatever `k` is. For a right-size tuple, `applyTuple` gives a plain value and `pipe(k)` gives `k` of that value. |
| `Unit.UnitFn.ApplyArray` | src/org/javatuples/functional/UnitFn.java:79-86 | Succeeds if and only if the array has length 1, and then gives `apply(array[0])`. Otherwise it fails with an arity mismatch. |
| `Unit.UnitFn.Seq` | src/org/javatuples/functional/UnitFn.java:108-110 | `seq(collection)` has the collection's length, and its i-th element is `apply` of the i-th element, in iteration order. |
| `Unit.ApplicationsAgree` | src/org/javatuples/functional/UnitFn.java:64-77 | `curry().apply(a)`, `uncurry().apply(Unit(a))` and `applyTuple(Unit(a))` all equal `apply(a)`. |
| `Unit.PointPipeCompose` | src/org/javatuples/functional/Fn.java:97-113 | For a unit function, `point(h).apply(x)` is `apply` of the value in `h(x)`, and `pipe(k).apply(u)` is `k(apply(u.getValue0()))`. |
| `Unit.PartialIsApply` | src/org/javatuples/functional/UnitFn.java:116-121 | `partial(a)` is the result `apply(a)` itself, not a further function. |
| `Unit.StaticConversions` | src/org/javatuples/functional/UnitFn.java:17-53 | Static `uncurry(curry(f))` agrees with `f` on every unit, and `curry(uncurry(g))` agrees with `g`. `ofUncurried(f)` applies `f` to the wrapped argument, `ofCurried(g)` agrees with `g`, and `with()` wraps its argument. |
| `Unit.OfSupplierIgnoresInput` | src/org/javatuples/functional/UnitFn.java:37-40 | `ofSupplier(s).apply(x)` is the supplier's value for every `x`, so any two inputs give the same result. |
| `Unit.AndThenComposes` | src/org/javatuples/functional/UnitFn.java:123-132 | `andThen(after).apply(a) == after(apply(a))`. Arity stays 1. Chaining two `andThen`s equals one `andThen` of the composite. |
| `Unit.ApplyArrayAgreesWithDefault` | src/org/javatuples/functional/UnitFn.java:79-86 | `applyArray` accepts exactly the sequences that the generic default `applyTuple` accepts on `curry()`, with the same value, and fails on the same sequences with the same `ArityMismatch` outcome. |
| `Unit.DefaultApplyTupleAgrees` | src/org/javatuples/functional/UnitFn.java:74-77 | The generic default, walking `curry()`, gives the override's `apply(u.getValue0())` on one-element tuples, and an arity mismatch on every other size. |
| `Unit.SeqAppend` | src/org/javatuples/functional/UnitFn.java:100-110 | `seq` of a concatenation is the concatenation of the two `seq`s, so order is preserved. |
| `Unit.SeqAndThen` | src/org/javatuples/functional/UnitFn.java:108-132 | Mapping `andThen(after)` over a collection equals mapping the function and then mapping `after`. |
| `Pair.Zipped` | src/org/javatuples/functional/PairFn.java:94-98 | The zip of two lists has length `min(|a|, |b|)`, and its i-th element is `zipper.apply(a[i], b[i])`. |
| `Pair.Unzipped` | src/org/javatuples/functional/PairFn.java:105-117 | Two lists, each as long as the input, holding the first and the second components position by position. |
| `Pair.ZipWith` | src/org/javatuples/functional/PairFn.java:88-100 | The result is the supplier's list followed by the zipper applied to corresponding elements, for as long as both inputs have elements. The excess of the longer input is dropped without error. |
| `Pair.Zip` | src/org/javatuples/functional/PairFn.java:72-83 | A fresh list of length `min(|a|, |b|)` whose i-th element is the pair `(a[i], b[i])`. |
| `Pair.Unzip` | src/org/javatuples/functional/PairFn.java:102-117 | Two lists of the input's length whose i-th elements are `ps[i].getValue0()` and `ps[i].getValue1()`. |
| `Pair.UnzipZip` | src/org/javatuples/functional/PairFn.java:76-117 | `unzip(zip(a, b)) == (a[..m], b[..m])` with `m = min(|a|, |b|)`. |
| `Pair.ZipUnzip` | src/org/javatuples/functional/PairFn.java:88-117 | Zipping the two lists of `unzip(ps)` with the pair constructor gives back `ps`. |
| `Pair.ApplicationsAgree` | src/org/javatuples/functional/PairFn.java:119-132 | `curry().apply(a).apply(b)`, `applyTuple((a, b))` and `uncurry().apply((a, b))` all equal `apply(a, b)`. |
| `Pair.PartialAgrees` | src/org/javatuples/functional/PairFn.java:158-161 | `partial(a)` is a function of `b`. Applied to `b` it gives `apply(a, b)`, as the curried chain does. |
| `Pair.StaticConversions` | src/org/javatuples/functional/PairFn.java:34-70 | Static `uncurry(curry(f))` agrees with `f` on every pair, and `curry(uncurry(g))` agrees with `g` on every `a`, `b`. `ofUncurried`, `ofCurried` and `of` apply their argument in the matching form. `with()` builds the pair. |
| `Pair.AndThenComposes` | src/org/javatuples/functional/PairFn.java:163-172 | `andThen(after).apply(a, b) == after(apply(a, b))`. Arity stays 2. |
| `Pair.PointPipeCompose` | src/org/javatuples/functional/Fn.java:97-113 | For a pair function, `point(f).apply(x)` is `apply` on the components of `f(x)`, and `pipe(k).apply(p)` is `k(apply(p))`. |
| `Pair.DefaultApplyTupleAgrees` | src/org/javatuples/functional/PairFn.java:119-132 | Run on the pair function's `curry()`, the generic default gives the override's result on two-element tuples, and an arity mismatch on every other size. The chain has depth 2. |
| `Triplet.Zipped` | src/org/javatuples/functional/TripletFn.java:85-90 | The zip of three lists has length `min(|a|, |b|, |c|)`, and its i-th element is `zipper.apply(a[i], b[i], c[i])`. |
| `Triplet.Unzipped` | src/org/javatuples/functional/TripletFn.java:97-111 | Three lists, each as long as the input, with the positional components in order. |
| `Triplet.ZipWith` | src/org/javatuples/functional/TripletFn.java:77-91 | The supplier's list followed by the zipper's results on corresponding elements, for as long as all three inputs have elements. |
| `Triplet.Zip` | src/org/javatuples/functional/TripletFn.java:58-72 | A fresh list of length `min(|a|, |b|, |c|)` of the triplets `(a[i], b[i], c[i])`. There is no error on unequal lengths. |
| `Triplet.Unzip` | src/org/javatuples/functional/TripletFn.java:94-111 | Three lists of the input's length holding `getValue0`, `getValue1` and `getValue2` of each triplet, in order. |
| `Triplet.UnzipZip` | src/org/javatuples/functional/TripletFn.java:62-111 | `unzip(zip(a, b, c))` recovers the three inputs cut to the shortest length. |
| `Triplet.ZipUnzip` | src/org/javatuples/functional/TripletFn.java:77-111 | Zipping the three lists of `unzip(ts)` with the triplet constructor gives back `ts`. |
| `Triplet.ApplicationsAgree` | src/org/javatuples/functional/TripletFn.java:113-131 | `curry()` applied three times, `partial(a)` applied twice, `applyTuple` and `uncurry()` all equal `apply(a, b, c)`. |
| `Triplet.StaticConversions` | src/org/javatuples/functional/TripletFn.java:30-56 | Static `uncurry(curry(f))` agrees with `f` on every triplet, and `curry(uncurry(g))` agrees with `g` applied three times. `ofUncurried` and `ofCurried` apply their argument in the matching form. `with()` builds the triplet. |
| `Triplet.AndThenComposes` | src/org/javatuples/functional/TripletFn.java:133-142 | `andThen(after).apply(a, b, c) == after(apply(a, b, c))`. Arity stays 3. |
| `Triplet.PointPipeCompose` | src/org/javatuples/functional/Fn.java:97-113 | For a triplet function, `point(f).apply(x)` is `apply` on the components of `f(x)`, and `pipe(k).apply(t)` is `k(apply(t))`. |
| `Triplet.DefaultApplyTupleAgrees` | src/org/javatuples/functional/TripletFn.java:113-126 | Run on the triplet function's `curry()`, the generic default gives the override's result on three-element tuples, and an arity mismatch otherwise. The chain has depth 3. |
| `Demo.Concat3Agrees` | src/org/javatuples/functional/FunctionalDemo.java:29-42 | For `concat3`, the five forms of application all give `"HelloWorld!"`. |
| `Demo.PointExamples` | src/org/javatuples/functional/FunctionalDemo.java:75-91 | `sum.point(x -> (x, 42))` maps 8 to 50, through the override and through the generic default alike. `((a, b, c) -> c).point(x -> (1, 2, x))` maps 8 to 8. |
| `Demo.PipeExample` | src/org/javatuples/functional/FunctionalDemo.java:93-96 | `f.pipe(g.uncurry())` maps `Unit(8)` to 50. Beyond the demo's checks, it also states that through the generic default, piping the sum into a constant function fails with an arity mismatch on a one-element tuple. |

## Left out

- `UnitFn.par` and `PairFn.par`: their point is parallel execution of a stream, and the model has no concurrency.
- `PairFn.seq(Map)`: the entry-set order of a Java map is unspecified, so no order could be stated.
- `UnitFn.ofConsumer` and `PairFn.ofBiConsumer`: the consumer's side effect is foreign code. Their only result, an empty `Optional<Void>`, carries no information.
- `FunctionalDemo.main`: its printing and the floating-point `quadEq` function are not modelled. Its `check` calls appear only as the `Demo` lemmas. The loop over `multiply`, `sum` and `quadEq` is covered by three lemmas: `Pair.PartialAgrees` for `pair.partial(t).apply(f)`, `Triplet.ApplicationsAgree` for `fn3.applyTuple(triplet)`, and `Pair.ApplicationsAgree` for the pair applications.
- The tuple classes `Unit`, `Pair`, `Triplet` and `Tuple` are an external library. Only their `with` factories, positional getters, `getSize` and `toList` are used: as Dafny tuples and a datatype, and as `seq<V>` for the generic default.
- Arities 4 to 10: their interfaces are not part of this model.
- `requireNonNull` checks: Dafny values are never null, so every operand already satisfies them and no precondition is needed.
- Fn.ApplyTuple: the source's `catch` also turns any `ClassCastException` raised inside the user's own functions into "Tuple not applicable". It also covers element values of the wrong runtime type. The model has one value type `V` and total functions, so its only "not applicable" cause is a stage that is not a function.
- Fn.ApplyTuple: the final unchecked cast `(R) curry` checks nothing under erasure. The model returns the last stage as is (a `Stage<V>`), so a too-deep chain yields a function value.
- Unit.UnitFn.Seq: Java returns a lazy, single-pass `Stream`. The model returns the materialised sequence of its elements.
- Pair.ZipWith and Triplet.ZipWith: the supplier is called once, and its list is taken as the given value `supplied`. Sharing of that list with other code, and the `ArrayList` capacity hint in the canonical `zip`, are not modelled.
- Pair.Unzip and Triplet.Unzip: the source builds the result tuple before filling the lists it holds. That ordering is invisible once the method returns, and the model builds the lists first.
- Unit.OfSupplierIgnoresInput: the supplier is modelled as a pure zero-argument function. A supplier that returns different values on different calls is not modelled.
- Integer overflow in the demo's `Integer::sum` and `a * b * c` is not modelled. The demo values stay far inside the 32-bit range.
- Unit.UnitFn.ApplyArray: the source refuses an array whose length is not 1 with an `IllegalArgumentException` whose message is "Length of array must be 1". The default `applyTuple` uses a different message for its arity check. Both are the same exception class, and the model reports both as `ArityMismatch`, so the two messages are not told apart.
