/** The `check` calls of FunctionalDemo.java, stated as lemmas about the model (plus one
    model fact about `pipe`, marked as such). The integer functions of the demo are stated
    on unbounded integers; none of the demo's values come near the 32-bit range. */
module Demo {
  import opened Fn
  import Unit
  import Pair
  import Triplet

  /** `concat3`: direct, curried, partial, tuple and uncurried application give the
      same string. */
  lemma Concat3Agrees()
    ensures var concat3 := Triplet.TripletFn((a: string, b: string, c: string) => a + b + c);
            && concat3.apply("Hello", "World", "!") == "HelloWorld!"
            && concat3.Curry()("Hello")("World")("!") == "HelloWorld!"
            && concat3.Partial("Hello")("World")("!") == "HelloWorld!"
            && concat3.ApplyTuple(("Hello", "World", "!")) == "HelloWorld!"
            && concat3.Uncurry()(("Hello", "World", "!")) == "HelloWorld!"
  {
  }

  /** `g.point(f)` with `g(a, b) = a + b` and `f(x) = (x, 42)` maps 8 to 50, both through
      the pair override of `applyTuple` and through the generic default on `curry()`;
      `g3.point(f3)` with `g3(a, b, c) = c` and `f3(x) = (1, 2, x)` maps 8 back to 8. */
  lemma PointExamples()
    ensures var g := Pair.Of((a: int, b: int) => a + b);
            var f := Unit.OfCurried((x: int) => (x, 42));
            && g.apply(7, 13) == 20
            && f.apply(5) == (5, 42)
            && Point(g.ApplyTuple, f.apply)(8) == 50
            && Point((t: seq<int>) => Apply(Pair.ToFn(g), t), (x: int) => [f.apply(x).0, f.apply(x).1])(8)
               == Ok(Done(50))
    ensures var g3 := Triplet.TripletFn((a: int, b: int, c: int) => c);
            var f3 := Unit.UnitFn((x: int) => (1, 2, x));
            Point(g3.ApplyTuple, f3.apply)(8) == 8
  {
    var g := Pair.Of((a: int, b: int) => a + b);
    var f := Unit.OfCurried((x: int) => (x, 42));
    Pair.DefaultApplyTupleAgrees(g, [8, 42]);
    var g3 := Triplet.TripletFn((a: int, b: int, c: int) => c);
    var f3 := Unit.UnitFn((x: int) => (1, 2, x));
    assert f3.apply(8) == (1, 2, 8);
    assert g3.ApplyTuple((1, 2, 8)) == 8;
  }

  /** `f.pipe(g.uncurry())` maps `Unit(8)` to 50. The second postcondition is not one of
      the demo's checks but a fact of the model: through the generic default, a
      one-element tuple given to the sum fails with an arity mismatch before the
      downstream function is reached. */
  lemma PipeExample()
    ensures var g := Pair.Of((a: int, b: int) => a + b);
            var f := Unit.OfCurried((x: int) => (x, 42));
            Pipe(f.ApplyTuple, g.Uncurry())(Unit.Unit(8)) == 50
    ensures var g := Pair.Of((a: int, b: int) => a + b);
            PipeDefault(Pair.ToFn(g), (s: Stage<int>) => 0)([7]) == Err(ArityMismatch)
  {
    var g := Pair.Of((a: int, b: int) => a + b);
    var f := Unit.OfCurried((x: int) => (x, 42));
    Pair.DefaultApplyTupleAgrees(g, [7]);
    assert f.ApplyTuple(Unit.Unit(8)) == (8, 42);
    assert g.Uncurry()((8, 42)) == 50;
  }
}
