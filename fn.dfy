/** The base abstraction every fixed-arity function type implements (Fn.java).
    The generic default `applyTuple` is modelled over a small value universe: every
    tuple element and every plain value a curried chain yields has the one type `V`, and
    a stage of the chain (a further function or a plain value) is a `Stage<V>`; in the
    source all of them are `Object` once Java generics are erased. */
module Fn {

  /** The two ways application can fail; both surface as an IllegalArgumentException
      in the source, told apart by their message. `ArityMismatch` also stands for the
      "Length of array must be 1" refusal of `UnitFn.applyArray`. */
  datatype Error =
    | ArityMismatch  // "Arity of this function does not match the size of the given tuple."
    | NotApplicable  // "Tuple not applicable to this function." (a failed cast to Function)

  datatype Result<T> = Ok(value: T) | Err(error: Error)

  /** What a curried chain yields after some of its arguments: either a plain value
      or a further single-argument function. */
  datatype Stage<!V> = Done(v: V) | Step(f: V -> Stage<V>)

  /** An arity-N function as seen by the generic default: its `arity()` and the first
      stage of its `curry()` chain (always a function). */
  datatype Fn<!V> = Fn(arity: int, curry: V -> Stage<V>)

  /** `Math.min`. */
  function Min(x: int, y: int): int {
    if x <= y then x else y
  }

  /** Threads `xs`, in order, through the chain starting at `s`: each element is passed
      to the current stage, which must be a function while elements remain. */
  function Run<V>(s: Stage<V>, xs: seq<V>): Result<Stage<V>>
    decreases |xs|
  {
    if xs == [] then Ok(s)
    else match s
      case Done(_) => Err(NotApplicable)
      case Step(f) => Run(f(xs[0]), xs[1..])
  }

  /** The value the default `applyTuple` computes for tuple `t` (given as `t.toList()`). */
  function Apply<V>(g: Fn<V>, t: seq<V>): Result<Stage<V>> {
    if g.arity != |t| then Err(ArityMismatch) else Run(Step(g.curry), t)
  }

  /** `s` is a chain of exactly `n` single-argument functions on every input path:
      after any `n` arguments it is a plain value, and before that it is a function. */
  ghost predicate Chain<V(!new)>(s: Stage<V>, n: nat)
    decreases n
  {
    if n == 0 then s.Done? else s.Step? && forall x :: Chain(s.f(x), n - 1)
  }

  /** A function whose `curry()` is consistent with its `arity()`. */
  ghost predicate WellFormed<V(!new)>(g: Fn<V>) {
    g.arity >= 0 && Chain(Step(g.curry), g.arity)
  }

  /** Default `applyTuple`: the arity check comes first; then the elements are fed to
      the curried chain one at a time, and a stage that is not a function while elements
      remain is reported as not applicable. The final stage is returned unchecked. */
  method ApplyTuple<V>(g: Fn<V>, t: seq<V>) returns (r: Result<Stage<V>>)
    ensures g.arity != |t| ==> r == Err(ArityMismatch)
    ensures g.arity == |t| ==> r == Run(Step(g.curry), t)
  {
    if g.arity != |t| {
      return Err(ArityMismatch);
    }
    var stage := Step(g.curry);
    var i := 0;
    while i < |t|
      invariant 0 <= i <= |t|
      invariant Run(stage, t[i..]) == Run(Step(g.curry), t)
    {
      if stage.Done? {
        return Err(NotApplicable);
      }
      assert t[i..][1..] == t[i + 1..];
      stage := stage.f(t[i]);
      i := i + 1;
    }
    return Ok(stage);
  }

  /** Feeding `xs + ys` is feeding `xs` and then, if that succeeded, `ys`: application
      proceeds strictly left to right, one element per stage. */
  lemma {:induction false} RunConcat<V>(s: Stage<V>, xs: seq<V>, ys: seq<V>)
    decreases |xs|
    ensures Run(s, xs + ys) == match Run(s, xs)
                               case Ok(s') => Run(s', ys)
                               case Err(e) => Err(e)
  {
    if xs == [] {
      assert xs + ys == ys;
    } else {
      assert (xs + ys)[0] == xs[0];
      assert (xs + ys)[1..] == xs[1..] + ys;
      match s
      case Done(_) =>
      case Step(f) => RunConcat(f(xs[0]), xs[1..], ys);
    }
  }

  /** On a chain of depth `n`: fewer than `n` elements leave a function, exactly `n`
      give a plain value, and more than `n` fail as not applicable. */
  lemma {:induction false} ChainRun<V(!new)>(s: Stage<V>, n: nat, xs: seq<V>)
    requires Chain(s, n)
    decreases n
    ensures |xs| < n ==> Run(s, xs).Ok? && Run(s, xs).value.Step?
    ensures |xs| == n ==> Run(s, xs).Ok? && Run(s, xs).value.Done?
    ensures |xs| > n ==> Run(s, xs) == Err(NotApplicable)
  {
    if xs != [] && n > 0 {
      ChainRun(s.f(xs[0]), n - 1, xs[1..]);
    }
  }

  /** The default `applyTuple` on a function whose curried chain has depth `k`: an arity
      mismatch is reported whatever the chain; otherwise the outcome depends only on how
      `k` compares with the tuple size. */
  lemma ApplyOnChain<V(!new)>(g: Fn<V>, k: nat, t: seq<V>)
    requires Chain(Step(g.curry), k)
    ensures g.arity != |t| ==> Apply(g, t) == Err(ArityMismatch)
    ensures g.arity == |t| == k ==> Apply(g, t).Ok? && Apply(g, t).value.Done?
    ensures g.arity == |t| < k ==> Apply(g, t).Ok? && Apply(g, t).value.Step?
    ensures k < |t| == g.arity ==> Apply(g, t) == Err(NotApplicable)
  {
    ChainRun(Step(g.curry), k, t);
  }

  /** For a function whose `curry()` matches its `arity()`, the default `applyTuple` yields
      a plain value exactly when the tuple size equals the arity and fails with an arity
      mismatch otherwise: the "not applicable" branch is unreachable. */
  lemma WellFormedApply<V(!new)>(g: Fn<V>, t: seq<V>)
    requires WellFormed(g)
    ensures Apply(g, t).Ok? <==> |t| == g.arity
    ensures Apply(g, t).Ok? ==> Apply(g, t).value.Done?
    ensures Apply(g, t).Err? ==> Apply(g, t).error == ArityMismatch
  {
    ApplyOnChain(g, g.arity, t);
  }

  /** `point(f)`: compose on the input side, `x -> this.applyTuple(f.apply(x))`.
      `applyTuple` is the receiver's own (possibly overridden) tuple application. */
  function Point<T, P, R>(applyTuple: T -> R, f: P -> T): P -> R {
    x => applyTuple(f(x))
  }

  /** `pipe(f)`: compose on the output side, `x -> f.apply(this.applyTuple(x))`.
      Used as is with an `applyTuple` that cannot fail (the per-arity overrides). */
  function Pipe<T, R, P>(applyTuple: T -> R, f: R -> P): T -> P {
    x => f(applyTuple(x))
  }

  /** A Java call `f.apply(r)` made on the outcome `r` of a call that may throw: an
      exception skips `f` and reaches the caller unchanged. */
  function Propagate<T, P>(r: Result<T>, f: T -> P): Result<P> {
    match r
    case Err(e) => Err(e)
    case Ok(v) => Ok(f(v))
  }

  /** `pipe(f)` on the default `applyTuple`, whose exceptions propagate past `f`. */
  function PipeDefault<V, P>(g: Fn<V>, f: Stage<V> -> P): seq<V> -> Result<P> {
    Pipe((t: seq<V>) => Apply(g, t), (r: Result<Stage<V>>) => Propagate(r, f))
  }

  /** `point` on a well-formed function through the default `applyTuple`: the composite
      yields a plain value exactly when the upstream function produces a tuple of the
      right size, and reports an arity mismatch otherwise. */
  lemma PointOnWellFormed<V(!new), P>(g: Fn<V>, f: P -> seq<V>, x: P)
    requires WellFormed(g)
    ensures Point(t => Apply(g, t), f)(x).Ok? <==> |f(x)| == g.arity
    ensures Point(t => Apply(g, t), f)(x).Ok? ==> Point(t => Apply(g, t), f)(x).value.Done?
    ensures Point(t => Apply(g, t), f)(x).Err? ==> Point(t => Apply(g, t), f)(x).error == ArityMismatch
  {
    WellFormedApply(g, f(x));
  }

  /** `pipe` on the default `applyTuple`, whatever the chain: a failure of `applyTuple`
      (either error) is the composite's failure and the downstream function is never
      consulted; a success hands the downstream function the stage `applyTuple` returned. */
  lemma PipePropagates<V, P>(g: Fn<V>, k: Stage<V> -> P, k': Stage<V> -> P, t: seq<V>)
    ensures Apply(g, t).Err? ==> PipeDefault(g, k)(t) == Err(Apply(g, t).error)
    ensures Apply(g, t).Err? ==> PipeDefault(g, k)(t) == PipeDefault(g, k')(t)
    ensures Apply(g, t).Ok? ==> PipeDefault(g, k)(t) == Ok(k(Apply(g, t).value))
  {
  }

  /** `pipe` on a well-formed function through the default `applyTuple`: a wrong-size
      tuple fails with an arity mismatch whatever the downstream function, and a
      right-size tuple gives the downstream function applied to the plain value the
      chain computes. */
  lemma PipeOnWellFormed<V(!new), P>(g: Fn<V>, k: Stage<V> -> P, t: seq<V>)
    requires WellFormed(g)
    ensures |t| != g.arity ==> PipeDefault(g, k)(t) == Err(ArityMismatch)
    ensures |t| == g.arity ==> Apply(g, t).Ok? && Apply(g, t).value.Done?
    ensures |t| == g.arity ==> PipeDefault(g, k)(t) == Ok(k(Apply(g, t).value))
  {
    WellFormedApply(g, t);
  }
}
