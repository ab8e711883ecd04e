/** `compare_models_dependency`, the three-way comparator that
    `get_sorted_models_dependency` hands to `sorted`. The sort itself is not
    part of this model: the comparator is not transitive (see
    `NotTransitive`), so the order `sorted` returns is not pinned down. */
module DepOrder {
  import opened Wrappers
  import opened ModelDeps

  /** An item of the dependency dictionary: a model and its dependencies. */
  datatype Entry = Entry(model: ModelId, deps: Deps)

  /** The ValueError raised for two models that require each other. */
  datatype CircularDependency = CircularDependency(x: ModelId, y: ModelId)

  /** `y` needs `x` through a required field. */
  predicate RequiredBy(x: Entry, y: Entry) {
    x.model in y.deps.required
  }

  /** `y` refers to `x` through a blank field. */
  predicate ReferencedBy(x: Entry, y: Entry) {
    x.model in y.deps.notRequired
  }

  /** The plain three-way comparison of two numbers. */
  function Cmp(a: int, b: int): (r: int)
    ensures r == -1 || r == 0 || r == 1
    ensures (r < 0 <==> a < b) && (r > 0 <==> a > b)
  {
    if a < b then -1 else if a > b then 1 else 0
  }

  /** Less dependent first: a required edge decides, then a blank-field edge,
      then the size of the required sets, then the size of the not-required
      sets; two models that require each other are an error. */
  function Compare(x: Entry, y: Entry): (r: Result<int, CircularDependency>)
    ensures r.Failure? <==> RequiredBy(x, y) && RequiredBy(y, x)
    ensures r.Failure? ==> r.error == CircularDependency(x.model, y.model)
    ensures r.Success? ==> r.value == -1 || r.value == 0 || r.value == 1
    ensures r.Success? && RequiredBy(x, y) ==> r.value == -1
    ensures r.Success? && RequiredBy(y, x) ==> r.value == 1
  {
    if RequiredBy(x, y) && RequiredBy(y, x) then
      Failure(CircularDependency(x.model, y.model))
    else if RequiredBy(x, y) && !RequiredBy(y, x) then Success(-1)
    else if !RequiredBy(x, y) && RequiredBy(y, x) then Success(1)
    else if ReferencedBy(x, y) && !ReferencedBy(y, x) then Success(-1)
    else if !ReferencedBy(x, y) && ReferencedBy(y, x) then Success(1)
    else if |x.deps.required| < |y.deps.required| then Success(-1)
    else if |x.deps.required| > |y.deps.required| then Success(1)
    else if |x.deps.notRequired| < |y.deps.notRequired| then Success(-1)
    else if |x.deps.notRequired| > |y.deps.notRequired| then Success(1)
    else Success(0)
  }

  /** Swapping the arguments negates the answer, and raises exactly when the
      original call raises. */
  lemma {:induction false} Antisymmetric(x: Entry, y: Entry)
    ensures Compare(x, y).Failure? <==> Compare(y, x).Failure?
    ensures Compare(x, y).Success? ==> Compare(y, x).value == -Compare(x, y).value
  {
  }

  /** The answer is 0 exactly when no rule fires: no required edge either way,
      blank-field edges both ways or neither, and equally large sets. */
  lemma {:induction false} ZeroIffNoRule(x: Entry, y: Entry)
    ensures Compare(x, y) == Success(0) <==>
      && !RequiredBy(x, y) && !RequiredBy(y, x)
      && (ReferencedBy(x, y) <==> ReferencedBy(y, x))
      && |x.deps.required| == |y.deps.required|
      && |x.deps.notRequired| == |y.deps.notRequired|
  {
  }

  /** Without edges between the two models, the comparison is the
      lexicographic one of (required-set size, not-required-set size). */
  lemma {:induction false} FallsBackToSizes(x: Entry, y: Entry)
    requires !RequiredBy(x, y) && !RequiredBy(y, x)
    requires ReferencedBy(x, y) <==> ReferencedBy(y, x)
    ensures Compare(x, y).Success?
    ensures Compare(x, y).value ==
      if |x.deps.required| != |y.deps.required| then Cmp(|x.deps.required|, |y.deps.required|)
      else Cmp(|x.deps.notRequired|, |y.deps.notRequired|)
  {
  }

  /** A blank-field edge in one direction decides when no required edge does. */
  lemma {:induction false} BlankEdgeDecides(x: Entry, y: Entry)
    requires !RequiredBy(x, y) && !RequiredBy(y, x)
    requires ReferencedBy(x, y) && !ReferencedBy(y, x)
    ensures Compare(x, y) == Success(-1)
  {
  }

  /** Three models the comparator orders in a cycle: `a` before `b` by size,
      `b` before `c` by size, yet `c` before `a` because `a` requires `c`. */
  lemma NotTransitive()
    ensures var a := Entry("app.a", Deps({"app.c"}, {}));
            var b := Entry("app.b", Deps({"app.p", "app.q"}, {}));
            var c := Entry("app.c", Deps({"app.p", "app.q", "app.s"}, {}));
            Compare(a, b) == Success(-1) && Compare(b, c) == Success(-1) && Compare(a, c) == Success(1)
  {
    var a := Entry("app.a", Deps({"app.c"}, {}));
    var b := Entry("app.b", Deps({"app.p", "app.q"}, {}));
    var c := Entry("app.c", Deps({"app.p", "app.q", "app.s"}, {}));
    assert "app.p" != "app.q" && "app.p" != "app.s" && "app.q" != "app.s" by {
      assert "app.p"[4] != "app.q"[4];
      assert "app.p"[4] != "app.s"[4];
      assert "app.q"[4] != "app.s"[4];
    }
    assert "app.a" != "app.c" by { assert "app.a"[4] != "app.c"[4]; }
    assert "app.b" != "app.p" && "app.b" != "app.q" && "app.c" != "app.p" && "app.c" != "app.q" by {
      assert "app.b"[4] != "app.p"[4] && "app.b"[4] != "app.q"[4];
      assert "app.c"[4] != "app.p"[4] && "app.c"[4] != "app.q"[4];
    }
    assert "app.c" != "app.s" && "app.a" != "app.p" && "app.a" != "app.q" && "app.a" != "app.s" by {
      assert "app.c"[4] != "app.s"[4];
      assert "app.a"[4] != "app.p"[4] && "app.a"[4] != "app.q"[4] && "app.a"[4] != "app.s"[4];
    }
    assert |b.deps.required| == 2;
    assert |c.deps.required| == 3;
  }
}
