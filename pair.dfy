/** Functions of two arguments (PairFn.java), with the bulk helpers `zip` and `unzip`.
    A `Pair<A, B>` of the tuple library is the Dafny tuple `(A, B)`: `getValue0` is `.0`,
    `getValue1` is `.1`. */
module Pair {
  import opened Fn

  /** A `PairFn<A, B, R>`: its single abstract method `apply(a, b)`. */
  datatype PairFn<!A, !B, R> = PairFn(apply: (A, B) -> R) {

    /** `curry()`: a function of `a` returning a function of `b`. */
    function Curry(): A -> B -> R {
      a => b => apply(a, b)
    }

    /** `uncurry()`: a function on pairs. */
    function Uncurry(): ((A, B)) -> R {
      (p: (A, B)) => apply(p.0, p.1)
    }

    /** The `applyTuple` override. */
    function ApplyTuple(p: (A, B)): R {
      apply(p.0, p.1)
    }

    /** `partial(a)`: the function of the remaining argument. */
    function Partial(a: A): B -> R {
      b => apply(a, b)
    }

    function Arity(): int {
      2
    }

    /** `andThen(after)`: a two-argument function that feeds this one's result to `after`. */
    function AndThen<R2>(after: R -> R2): PairFn<A, B, R2> {
      PairFn((a, b) => after(apply(a, b)))
    }
  }

  /** Static `curry`: from a function on pairs to a curried function. */
  function Curry<A, B, R>(f: ((A, B)) -> R): A -> B -> R {
    a => b => f((a, b))
  }

  /** Static `uncurry`: from a curried function to a function on pairs. */
  function Uncurry<A, B, R>(f: A -> B -> R): ((A, B)) -> R {
    (p: (A, B)) => f(p.0)(p.1)
  }

  function OfUncurried<A, B, R>(f: ((A, B)) -> R): PairFn<A, B, R> {
    PairFn((a, b) => f((a, b)))
  }

  function OfCurried<A, B, R>(f: A -> B -> R): PairFn<A, B, R> {
    PairFn((a, b) => f(a)(b))
  }

  /** `of(BiFunction)`. */
  function Of<A, B, R>(f: (A, B) -> R): PairFn<A, B, R> {
    PairFn((a, b) => f(a, b))
  }

  /** `Pair::with`, the canonical pair constructor. */
  function With<A, B>(): PairFn<A, B, (A, B)> {
    PairFn((a, b) => (a, b))
  }

  /** The list `zip` appends: the zipper applied to corresponding elements, as long as
      both inputs have elements. */
  function Zipped<A, B>(zipper: PairFn<A, B, (A, B)>, a: seq<A>, b: seq<B>): (r: seq<(A, B)>)
    ensures |r| == Min(|a|, |b|)
    ensures forall i :: 0 <= i < |r| ==> r[i] == zipper.apply(a[i], b[i])
  {
    if a == [] || b == [] then [] else [zipper.apply(a[0], b[0])] + Zipped(zipper, a[1..], b[1..])
  }

  /** The two lists `unzip` builds: the first and the second components, in order. */
  function Unzipped<A, B>(pairs: seq<(A, B)>): (r: (seq<A>, seq<B>))
    ensures |r.0| == |pairs| && |r.1| == |pairs|
    ensures forall i :: 0 <= i < |pairs| ==> r.0[i] == pairs[i].0 && r.1[i] == pairs[i].1
  {
    if pairs == [] then ([], [])
    else
      var rest := Unzipped(pairs[1..]);
      ([pairs[0].0] + rest.0, [pairs[0].1] + rest.1)
  }

  /** Generalised `zip`: walks both inputs while both have elements and appends the
      zipper's results to the list the supplier provides (`supplied`). Elements of the
      longer input beyond the shorter one's length are dropped. */
  method ZipWith<A, B>(supplied: seq<(A, B)>, zipper: PairFn<A, B, (A, B)>, a: seq<A>, b: seq<B>)
    returns (result: seq<(A, B)>)
    ensures result == supplied + Zipped(zipper, a, b)
  {
    result := supplied;
    var i := 0;
    while i < |a| && i < |b|
      invariant 0 <= i <= Min(|a|, |b|)
      invariant |result| == |supplied| + i
      invariant result[..|supplied|] == supplied
      invariant forall k :: 0 <= k < i ==> result[|supplied| + k] == zipper.apply(a[k], b[k])
    {
      result := result + [zipper.apply(a[i], b[i])];
      i := i + 1;
    }
    assert forall k :: 0 <= k < |result| ==> result[k] == (supplied + Zipped(zipper, a, b))[k];
  }

  /** Canonical `zip`: a fresh list of the pairs of corresponding elements. */
  method Zip<A, B>(a: seq<A>, b: seq<B>) returns (result: seq<(A, B)>)
    ensures |result| == Min(|a|, |b|)
    ensures forall i :: 0 <= i < |result| ==> result[i] == (a[i], b[i])
    ensures result == Zipped(With<A, B>(), a, b)
  {
    result := ZipWith([], With<A, B>(), a, b);
  }

  /** `unzip`: appends each pair's components to two fresh lists, in order; the two
      lists are the two components of the returned pair. */
  method Unzip<A, B>(pairs: seq<(A, B)>) returns (firsts: seq<A>, seconds: seq<B>)
    ensures |firsts| == |pairs| && |seconds| == |pairs|
    ensures (firsts, seconds) == Unzipped(pairs)
  {
    firsts, seconds := [], [];
    var i := 0;
    while i < |pairs|
      invariant 0 <= i <= |pairs|
      invariant |firsts| == i && |seconds| == i
      invariant forall k :: 0 <= k < i ==> firsts[k] == pairs[k].0 && seconds[k] == pairs[k].1
    {
      firsts := firsts + [pairs[i].0];
      seconds := seconds + [pairs[i].1];
      i := i + 1;
    }
    assert firsts == Unzipped(pairs).0;
    assert seconds == Unzipped(pairs).1;
  }

  /** Zipping and then unzipping recovers both inputs, cut to the shorter length. */
  lemma UnzipZip<A, B>(a: seq<A>, b: seq<B>)
    ensures Unzipped(Zipped(With<A, B>(), a, b)).0 == a[..Min(|a|, |b|)]
    ensures Unzipped(Zipped(With<A, B>(), a, b)).1 == b[..Min(|a|, |b|)]
  {
    var m := Min(|a|, |b|);
    var u := Unzipped(Zipped(With<A, B>(), a, b));
    assert u.0 == a[..m];
    assert u.1 == b[..m];
  }

  /** Unzipping and then zipping the two lists gives back the pairs. */
  lemma ZipUnzip<A, B>(pairs: seq<(A, B)>)
    ensures Zipped(With<A, B>(), Unzipped(pairs).0, Unzipped(pairs).1) == pairs
  {
    var u := Unzipped(pairs);
    assert forall i :: 0 <= i < |pairs| ==> Zipped(With<A, B>(), u.0, u.1)[i] == pairs[i];
  }

  /** Curried, tuple and uncurried application all agree with `apply`. */
  lemma ApplicationsAgree<A, B, R>(g: PairFn<A, B, R>, a: A, b: B)
    ensures g.Curry()(a)(b) == g.apply(a, b)
    ensures g.ApplyTuple((a, b)) == g.apply(a, b)
    ensures g.Uncurry()((a, b)) == g.apply(a, b)
  {
  }

  /** `partial(a)` is the curried chain's next stage: a function of `b` that completes
      the application. */
  lemma PartialAgrees<A, B, R>(g: PairFn<A, B, R>, a: A, b: B)
    ensures g.Partial(a)(b) == g.apply(a, b)
    ensures g.Partial(a)(b) == g.Curry()(a)(b)
  {
  }

  /** The static converters are mutually inverse, and the adapters behave as their argument. */
  lemma StaticConversions<A, B, R>(f: ((A, B)) -> R, g: A -> B -> R, h: (A, B) -> R, p: (A, B), a: A, b: B)
    ensures Uncurry(Curry(f))(p) == f(p)
    ensures Curry(Uncurry(g))(a)(b) == g(a)(b)
    ensures OfUncurried(f).apply(a, b) == f((a, b))
    ensures OfCurried(g).apply(a, b) == g(a)(b)
    ensures Of(h).apply(a, b) == h(a, b)
    ensures With<A, B>().apply(a, b) == (a, b)
  {
  }

  /** `andThen` composes on the output side and keeps arity 2. */
  lemma AndThenComposes<A, B, R, R2>(g: PairFn<A, B, R>, after: R -> R2, a: A, b: B)
    ensures g.AndThen(after).apply(a, b) == after(g.apply(a, b))
    ensures g.AndThen(after).Arity() == g.Arity() == 2
  {
  }

  /** `point` and `pipe`, dispatched to this arity's `applyTuple`: composition through
      the pair boundary. */
  lemma PointPipeCompose<A, B, R, P, Q>(g: PairFn<A, B, R>, f: P -> (A, B), k: R -> Q, x: P, p: (A, B))
    ensures Point(g.ApplyTuple, f)(x) == g.apply(f(x).0, f(x).1)
    ensures Pipe(g.ApplyTuple, k)(p) == k(g.apply(p.0, p.1))
  {
    assert g.ApplyTuple(p) == g.apply(p.0, p.1);
  }

  /** The curried chain the generic default `applyTuple` would walk for `g`. */
  function ToFn<V>(g: PairFn<V, V, V>): Fn<V> {
    Fn(g.Arity(), a => Step(b => Done(g.Curry()(a)(b))))
  }

  /** The generic default `applyTuple`, run on `curry()`, agrees with the override and
      reports an arity mismatch for any other tuple size. */
  lemma DefaultApplyTupleAgrees<V(!new)>(g: PairFn<V, V, V>, t: seq<V>)
    ensures WellFormed(ToFn(g))
    ensures |t| == 2 ==> Apply(ToFn(g), t) == Ok(Done(g.ApplyTuple((t[0], t[1]))))
    ensures |t| != 2 ==> Apply(ToFn(g), t) == Err(ArityMismatch)
  {
    forall a ensures Chain(ToFn(g).curry(a), 1) {
      assert forall b :: ToFn(g).curry(a).f(b) == Done(g.Curry()(a)(b));
    }
    if |t| == 2 {
      assert ToFn(g).curry(t[0]).f(t[1]) == Done(g.Curry()(t[0])(t[1]));
      assert Apply(ToFn(g), t) == Run(ToFn(g).curry(t[0]), t[1..]);
      assert t[1..][1..] == [];
    }
  }
}
