/** Functions of one argument (UnitFn.java). At arity 1 the curried and the uncurried
    forms differ only by wrapping the argument in a one-element tuple. */
module Unit {
  import opened Fn

  /** The one-element tuple `org.javatuples.Unit`, of which only `getValue0` is used. */
  datatype Unit<A> = Unit(value0: A)

  /** A `UnitFn<A, R>`: its single abstract method `apply`. The default methods of the
      interface are the member functions. */
  datatype UnitFn<!A, R> = UnitFn(apply: A -> R) {

    /** `curry()`: the method reference `this::apply`. */
    function Curry(): A -> R {
      apply
    }

    /** `uncurry()`: unwrap the unit, then apply. */
    function Uncurry(): Unit<A> -> R {
      (u: Unit<A>) => apply(u.value0)
    }

    /** The `applyTuple` override. */
    function ApplyTuple(u: Unit<A>): R {
      apply(u.value0)
    }

    /** `applyArray`: an array of any length other than one is refused. */
    function ApplyArray(arr: seq<A>): (r: Result<R>)
      ensures r.Ok? <==> |arr| == 1
      ensures r.Ok? ==> r.value == apply(arr[0])
      ensures r.Err? ==> r.error == ArityMismatch
    {
      if |arr| != 1 then Err(ArityMismatch) else Ok(apply(arr[0]))
    }

    /** `seq(collection)`: the results of applying this function to every element, in the
        collection's iteration order. */
    function Seq(collection: seq<A>): (r: seq<R>)
      ensures |r| == |collection|
      ensures forall i :: 0 <= i < |collection| ==> r[i] == apply(collection[i])
    {
      if collection == [] then [] else [apply(collection[0])] + Seq(collection[1..])
    }

    /** `partial(a)`: at arity 1 this is complete application and gives the result. */
    function Partial(a: A): R {
      apply(a)
    }

    function Arity(): int {
      1
    }

    /** `andThen(after)`: a one-argument function that feeds this one's result to `after`. */
    function AndThen<R2>(after: R -> R2): UnitFn<A, R2> {
      UnitFn(a => after(apply(a)))
    }
  }

  /** Static `curry`: from a function on units to a plain function. */
  function Curry<A, R>(f: Unit<A> -> R): A -> R {
    a => f(Unit(a))
  }

  /** Static `uncurry`: from a plain function to a function on units. */
  function Uncurry<A, R>(f: A -> R): Unit<A> -> R {
    (u: Unit<A>) => f(u.value0)
  }

  function OfUncurried<A, R>(f: Unit<A> -> R): UnitFn<A, R> {
    UnitFn(a => f(Unit(a)))
  }

  function OfCurried<A, R>(f: A -> R): UnitFn<A, R> {
    UnitFn(a => f(a))
  }

  /** `ofSupplier`: the (side-effect free) supplier is consulted on every call and the
      input is ignored. */
  function OfSupplier<A, R>(supplier: () -> R): UnitFn<A, R> {
    UnitFn(x => supplier())
  }

  /** `Unit::with`. */
  function With<A>(): UnitFn<A, Unit<A>> {
    UnitFn(a => Unit(a))
  }

  /** The curried chain the generic default `applyTuple` would walk for `f`. */
  function ToFn<V>(f: UnitFn<V, V>): Fn<V> {
    Fn(f.Arity(), a => Done(f.Curry()(a)))
  }

  /** Curried, uncurried and tuple application all agree with `apply`. */
  lemma ApplicationsAgree<A, R>(f: UnitFn<A, R>, a: A)
    ensures f.Curry()(a) == f.apply(a)
    ensures f.Uncurry()(Unit(a)) == f.apply(a)
    ensures f.ApplyTuple(Unit(a)) == f.apply(a)
  {
  }

  /** At arity 1 partial application is complete: it gives the result itself, the same
      value as curried application. */
  lemma PartialIsApply<A, R>(f: UnitFn<A, R>, a: A)
    ensures f.Partial(a) == f.apply(a)
    ensures f.Partial(a) == f.Curry()(a)
  {
  }

  /** The static converters are mutually inverse, and the adapters behave as their argument. */
  lemma StaticConversions<A, R>(f: Unit<A> -> R, g: A -> R, a: A, u: Unit<A>)
    ensures Uncurry(Curry(f))(u) == f(u)
    ensures Curry(Uncurry(g))(a) == g(a)
    ensures OfUncurried(f).apply(a) == f(Unit(a))
    ensures OfCurried(g).apply(a) == g(a)
    ensures With<A>().apply(a).value0 == a
  {
  }

  /** A function made from a supplier returns the supplier's value whatever its input. */
  lemma OfSupplierIgnoresInput<A, R>(supplier: () -> R, x: A, y: A)
    ensures OfSupplier(supplier).apply(x) == supplier()
    ensures OfSupplier(supplier).apply(x) == OfSupplier(supplier).apply(y)
  {
  }

  /** `andThen` composes on the output side, keeps arity 1, and is associative. */
  lemma AndThenComposes<A, R, R2, R3>(f: UnitFn<A, R>, after: R -> R2, last: R2 -> R3, a: A)
    ensures f.AndThen(after).apply(a) == after(f.apply(a))
    ensures f.AndThen(after).Arity() == f.Arity() == 1
    ensures f.AndThen(after).AndThen(last).apply(a) == f.AndThen(x => last(after(x))).apply(a)
  {
  }

  /** `applyArray` accepts exactly the arrays the default `applyTuple` accepts, with the
      same result and the same error. */
  lemma ApplyArrayAgreesWithDefault<V(!new)>(f: UnitFn<V, V>, arr: seq<V>)
    ensures WellFormed(ToFn(f))
    ensures f.ApplyArray(arr).Ok? <==> Apply(ToFn(f), arr).Ok?
    ensures f.ApplyArray(arr).Ok? ==> Apply(ToFn(f), arr) == Ok(Done(f.ApplyArray(arr).value))
    ensures f.ApplyArray(arr).Err? ==> Apply(ToFn(f), arr) == Err(f.ApplyArray(arr).error)
  {
    assert forall x :: Chain(ToFn(f).curry(x), 0);
    if |arr| == 1 {
      assert arr[1..] == [];
      assert ToFn(f).curry(arr[0]) == Done(f.Curry()(arr[0]));
      assert Apply(ToFn(f), arr) == Run(ToFn(f).curry(arr[0]), arr[1..]);
    }
  }

  /** The generic default `applyTuple`, walking `curry()`, agrees with the override. */
  lemma DefaultApplyTupleAgrees<V>(f: UnitFn<V, V>, t: seq<V>)
    ensures |t| == 1 ==> Apply(ToFn(f), t) == Ok(Done(f.ApplyTuple(Unit(t[0]))))
    ensures |t| != 1 ==> Apply(ToFn(f), t) == Err(ArityMismatch)
  {
    if |t| == 1 {
      assert t[1..] == [];
      assert ToFn(f).curry(t[0]) == Done(f.Curry()(t[0]));
      assert Apply(ToFn(f), t) == Run(ToFn(f).curry(t[0]), t[1..]);
    }
  }

  /** `point` and `pipe`, dispatched to this arity's `applyTuple`: composition through
      the unit boundary. */
  lemma PointPipeCompose<A, R, P, Q>(f: UnitFn<A, R>, h: P -> Unit<A>, k: R -> Q, x: P, u: Unit<A>)
    ensures Point(f.ApplyTuple, h)(x) == f.apply(h(x).value0)
    ensures Pipe(f.ApplyTuple, k)(u) == k(f.apply(u.value0))
  {
    assert f.ApplyTuple(u) == f.apply(u.value0);
  }

  /** `seq` maps a concatenation to the concatenation of the results. */
  lemma SeqAppend<A, R>(f: UnitFn<A, R>, xs: seq<A>, ys: seq<A>)
    ensures f.Seq(xs + ys) == f.Seq(xs) + f.Seq(ys)
  {
    assert forall i :: 0 <= i < |xs + ys| ==> f.Seq(xs + ys)[i] == (f.Seq(xs) + f.Seq(ys))[i];
  }

  /** Mapping `andThen(after)` over a collection is mapping this function, then `after`. */
  lemma SeqAndThen<A, R, R2>(f: UnitFn<A, R>, after: R -> R2, xs: seq<A>)
    ensures f.AndThen(after).Seq(xs) == UnitFn(after).Seq(f.Seq(xs))
  {
    assert forall i :: 0 <= i < |xs| ==> f.AndThen(after).Seq(xs)[i] == UnitFn(after).Seq(f.Seq(xs))[i];
  }
}
