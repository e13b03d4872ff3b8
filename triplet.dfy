/** Functions of three arguments (TripletFn.java), with `zip` and `unzip` over three lists.
    A `Triplet<A, B, C>` of the tuple library is the Dafny tuple `(A, B, C)`. */
module Triplet {
  import opened Fn

  /** A `TripletFn<A, B, C, R>`: its single abstract method `apply(a, b, c)`. */
  datatype TripletFn<!A, !B, !C, R> = TripletFn(apply: (A, B, C) -> R) {

    /** `curry()`: three nested single-argument functions. */
    function Curry(): A -> B -> C -> R {
      a => b => c => apply(a, b, c)
    }

    /** `uncurry()`: a function on triplets. */
    function Uncurry(): ((A, B, C)) -> R {
      (t: (A, B, C)) => apply(t.0, t.1, t.2)
    }

    /** The `applyTuple` override. */
    function ApplyTuple(t: (A, B, C)): R {
      apply(t.0, t.1, t.2)
    }

    /** `partial(a)`: the curried function of the two remaining arguments. */
    function Partial(a: A): B -> C -> R {
      b => c => apply(a, b, c)
    }

    function Arity(): int {
      3
    }

    /** `andThen(after)`: a three-argument function that feeds this one's result to `after`. */
    function AndThen<R2>(after: R -> R2): TripletFn<A, B, C, R2> {
      TripletFn((a, b, c) => after(apply(a, b, c)))
    }
  }

  /** Static `curry`: from a function on triplets to a curried function. */
  function Curry<A, B, C, R>(f: ((A, B, C)) -> R): A -> B -> C -> R {
    a => b => c => f((a, b, c))
  }

  /** Static `uncurry`: from a curried function to a function on triplets. */
  function Uncurry<A, B, C, R>(f: A -> B -> C -> R): ((A, B, C)) -> R {
    (t: (A, B, C)) => f(t.0)(t.1)(t.2)
  }

  function OfUncurried<A, B, C, R>(f: ((A, B, C)) -> R): TripletFn<A, B, C, R> {
    TripletFn((a, b, c) => f((a, b, c)))
  }

  function OfCurried<A, B, C, R>(f: A -> B -> C -> R): TripletFn<A, B, C, R> {
    TripletFn((a, b, c) => f(a)(b)(c))
  }

  /** `Triplet::with`, the canonical triplet constructor. */
  function With<A, B, C>(): TripletFn<A, B, C, (A, B, C)> {
    TripletFn((a, b, c) => (a, b, c))
  }

  /** The list `zip` appends: the zipper applied to corresponding elements, as long as
      all three inputs have elements. */
  function Zipped<A, B, C>(zipper: TripletFn<A, B, C, (A, B, C)>, a: seq<A>, b: seq<B>, c: seq<C>)
    : (r: seq<(A, B, C)>)
    ensures |r| == Min(|a|, Min(|b|, |c|))
    ensures forall i :: 0 <= i < |r| ==> r[i] == zipper.apply(a[i], b[i], c[i])
  {
    if a == [] || b == [] || c == [] then []
    else [zipper.apply(a[0], b[0], c[0])] + Zipped(zipper, a[1..], b[1..], c[1..])
  }

  /** The three lists `unzip` builds: the components at each position, in order. */
  function Unzipped<A, B, C>(triplets: seq<(A, B, C)>): (r: (seq<A>, seq<B>, seq<C>))
    ensures |r.0| == |triplets| && |r.1| == |triplets| && |r.2| == |triplets|
    ensures forall i :: 0 <= i < |triplets| ==>
      r.0[i] == triplets[i].0 && r.1[i] == triplets[i].1 && r.2[i] == triplets[i].2
  {
    if triplets == [] then ([], [], [])
    else
      var rest := Unzipped(triplets[1..]);
      ([triplets[0].0] + rest.0, [triplets[0].1] + rest.1, [triplets[0].2] + rest.2)
  }

  /** Generalised `zip`: walks the three inputs while all have elements and appends the
      zipper's results to the list the supplier provides (`supplied`). */
  method ZipWith<A, B, C>(supplied: seq<(A, B, C)>, zipper: TripletFn<A, B, C, (A, B, C)>,
                          a: seq<A>, b: seq<B>, c: seq<C>)
    returns (result: seq<(A, B, C)>)
    ensures result == supplied + Zipped(zipper, a, b, c)
  {
    result := supplied;
    var i := 0;
    while i < |a| && i < |b| && i < |c|
      invariant 0 <= i <= Min(|a|, Min(|b|, |c|))
      invariant |result| == |supplied| + i
      invariant result[..|supplied|] == supplied
      invariant forall k :: 0 <= k < i ==> result[|supplied| + k] == zipper.apply(a[k], b[k], c[k])
    {
      result := result + [zipper.apply(a[i], b[i], c[i])];
      i := i + 1;
    }
    assert forall k :: 0 <= k < |result| ==> result[k] == (supplied + Zipped(zipper, a, b, c))[k];
  }

  /** Canonical `zip`: a fresh list of the triplets of corresponding elements. */
  method Zip<A, B, C>(a: seq<A>, b: seq<B>, c: seq<C>) returns (result: seq<(A, B, C)>)
    ensures |result| == Min(|a|, Min(|b|, |c|))
    ensures forall i :: 0 <= i < |result| ==> result[i] == (a[i], b[i], c[i])
    ensures result == Zipped(With<A, B, C>(), a, b, c)
  {
    result := ZipWith([], With<A, B, C>(), a, b, c);
  }

  /** `unzip`: appends each triplet's components to three fresh lists, in order; the
      lists are the three components of the returned triplet. */
  method Unzip<A, B, C>(triplets: seq<(A, B, C)>) returns (firsts: seq<A>, seconds: seq<B>, thirds: seq<C>)
    ensures |firsts| == |triplets| && |seconds| == |triplets| && |thirds| == |triplets|
    ensures (firsts, seconds, thirds) == Unzipped(triplets)
  {
    firsts, seconds, thirds := [], [], [];
    var i := 0;
    while i < |triplets|
      invariant 0 <= i <= |triplets|
      invariant |firsts| == i && |seconds| == i && |thirds| == i
      invariant forall k :: 0 <= k < i ==>
        firsts[k] == triplets[k].0 && seconds[k] == triplets[k].1 && thirds[k] == triplets[k].2
    {
      firsts := firsts + [triplets[i].0];
      seconds := seconds + [triplets[i].1];
      thirds := thirds + [triplets[i].2];
      i := i + 1;
    }
    assert firsts == Unzipped(triplets).0;
    assert seconds == Unzipped(triplets).1;
    assert thirds == Unzipped(triplets).2;
  }

  /** Zipping and then unzipping recovers the three inputs, cut to the shortest length. */
  lemma UnzipZip<A, B, C>(a: seq<A>, b: seq<B>, c: seq<C>)
    ensures Unzipped(Zipped(With<A, B, C>(), a, b, c)).0 == a[..Min(|a|, Min(|b|, |c|))]
    ensures Unzipped(Zipped(With<A, B, C>(), a, b, c)).1 == b[..Min(|a|, Min(|b|, |c|))]
    ensures Unzipped(Zipped(With<A, B, C>(), a, b, c)).2 == c[..Min(|a|, Min(|b|, |c|))]
  {
    var m := Min(|a|, Min(|b|, |c|));
    var u := Unzipped(Zipped(With<A, B, C>(), a, b, c));
    assert u.0 == a[..m];
    assert u.1 == b[..m];
    assert u.2 == c[..m];
  }

  /** Unzipping and then zipping the three lists gives back the triplets. */
  lemma ZipUnzip<A, B, C>(triplets: seq<(A, B, C)>)
    ensures var u := Unzipped(triplets); Zipped(With<A, B, C>(), u.0, u.1, u.2) == triplets
  {
    var u := Unzipped(triplets);
    assert forall i :: 0 <= i < |triplets| ==> Zipped(With<A, B, C>(), u.0, u.1, u.2)[i] == triplets[i];
  }

  /** Curried, partial, tuple and uncurried application all agree with `apply`. */
  lemma ApplicationsAgree<A, B, C, R>(g: TripletFn<A, B, C, R>, a: A, b: B, c: C)
    ensures g.Curry()(a)(b)(c) == g.apply(a, b, c)
    ensures g.Partial(a)(b)(c) == g.apply(a, b, c)
    ensures g.ApplyTuple((a, b, c)) == g.apply(a, b, c)
    ensures g.Uncurry()((a, b, c)) == g.apply(a, b, c)
  {
  }

  /** The static converters are mutually inverse, and the adapters behave as their argument. */
  lemma StaticConversions<A, B, C, R>(f: ((A, B, C)) -> R, g: A -> B -> C -> R, t: (A, B, C), a: A, b: B, c: C)
    ensures Uncurry(Curry(f))(t) == f(t)
    ensures Curry(Uncurry(g))(a)(b)(c) == g(a)(b)(c)
    ensures OfUncurried(f).apply(a, b, c) == f((a, b, c))
    ensures OfCurried(g).apply(a, b, c) == g(a)(b)(c)
    ensures With<A, B, C>().apply(a, b, c) == (a, b, c)
  {
  }

  /** `andThen` composes on the output side and keeps arity 3. */
  lemma AndThenComposes<A, B, C, R, R2>(g: TripletFn<A, B, C, R>, after: R -> R2, a: A, b: B, c: C)
    ensures g.AndThen(after).apply(a, b, c) == after(g.apply(a, b, c))
    ensures g.AndThen(after).Arity() == g.Arity() == 3
  {
  }

  /** `point` and `pipe`, dispatched to this arity's `applyTuple`: composition through
      the triplet boundary. */
  lemma PointPipeCompose<A, B, C, R, P, Q>(g: TripletFn<A, B, C, R>, f: P -> (A, B, C), k: R -> Q,
                                           x: P, t: (A, B, C))
    ensures Point(g.ApplyTuple, f)(x) == g.apply(f(x).0, f(x).1, f(x).2)
    ensures Pipe(g.ApplyTuple, k)(t) == k(g.apply(t.0, t.1, t.2))
  {
    assert g.ApplyTuple(t) == g.apply(t.0, t.1, t.2);
  }

  /** The curried chain the generic default `applyTuple` would walk for `g`. */
  function ToFn<V>(g: TripletFn<V, V, V, V>): Fn<V> {
    Fn(g.Arity(), a => Step(b => Step(c => Done(g.Curry()(a)(b)(c)))))
  }

  /** The generic default `applyTuple`, run on `curry()`, agrees with the override and
      reports an arity mismatch for any other tuple size. */
  lemma DefaultApplyTupleAgrees<V(!new)>(g: TripletFn<V, V, V, V>, t: seq<V>)
    ensures WellFormed(ToFn(g))
    ensures |t| == 3 ==> Apply(ToFn(g), t) == Ok(Done(g.ApplyTuple((t[0], t[1], t[2]))))
    ensures |t| != 3 ==> Apply(ToFn(g), t) == Err(ArityMismatch)
  {
    forall a ensures Chain(ToFn(g).curry(a), 2) {
      forall b ensures Chain(ToFn(g).curry(a).f(b), 1) {
        assert forall c :: ToFn(g).curry(a).f(b).f(c) == Done(g.Curry()(a)(b)(c));
      }
    }
    if |t| == 3 {
      assert ToFn(g).curry(t[0]).f(t[1]).f(t[2]) == Done(g.Curry()(t[0])(t[1])(t[2]));
      assert Apply(ToFn(g), t) == Run(ToFn(g).curry(t[0]), t[1..]);
      assert t[1..][1..] == t[2..];
      assert Run(ToFn(g).curry(t[0]), t[1..]) == Run(ToFn(g).curry(t[0]).f(t[1]), t[2..]);
      assert t[2..][1..] == [];
    }
  }
}
