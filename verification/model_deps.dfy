/** `get_models_dependency`: the graph of which models must exist before
    which, built from the related fields of each model, completed with the
    models referenced but not listed, the manual dependencies, and two passes
    that pull in deeper dependencies. */
module ModelDeps {
  import opened Wrappers
  import Strings

  /** A model, identified by its label (`app_label.ModelName`). */
  type ModelId = string

  /** A field of a model as the graph sees it: the model a related field points
      to (`None` for a field that is not a `RelatedField`), and its `blank`,
      `concrete` and `auto_created` flags. */
  datatype Field = Field(relatedModel: Option<ModelId>, blank: bool, concrete: bool, autoCreated: bool)

  /** `_meta.get_fields()` for every model. */
  type Schema = map<ModelId, seq<Field>>

  /** The models a model needs (through non-blank related fields) and the
      models it merely refers to (through blank ones). */
  datatype Deps = Deps(required: set<ModelId>, notRequired: set<ModelId>)

  type DepMap = map<ModelId, Deps>

  /** The ordered dictionary the source builds: its key order and its values. */
  datatype Graph = Graph(order: seq<ModelId>, deps: DepMap)

  datatype DepError = KeyError(model: ModelId)

  predicate Distinct<T(==)>(s: seq<T>) {
    forall i, j :: 0 <= i < j < |s| ==> s[i] != s[j]
  }

  lemma {:induction false} DistinctConcat(a: seq<ModelId>, b: seq<ModelId>)
    requires Distinct(a) && Distinct(b)
    requires forall x :: x in a ==> x !in b
    ensures Distinct(a + b)
  {
    forall i, j | 0 <= i < j < |a + b| ensures (a + b)[i] != (a + b)[j] {
      if j >= |a| && i < |a| {
        assert (a + b)[i] in a && (a + b)[j] in b;
      } else if i >= |a| {
        assert (a + b)[i] == b[i - |a|] && (a + b)[j] == b[j - |a|];
      }
    }
  }

  /** The key order lists every key exactly once. */
  predicate ValidGraph(g: Graph) {
    Distinct(g.order) && (forall m :: m in g.order ==> m in g.deps) && (forall m :: m in g.deps ==> m in g.order)
  }

  /** Every model a field of the schema refers to has fields of its own. */
  predicate Closed(schema: Schema) {
    forall m, f :: m in schema && f in schema[m] && f.relatedModel.Some? ==> f.relatedModel.value in schema
  }

  /** A concrete, not auto-created related field that may not be blank. */
  predicate RequiredEdge(f: Field) {
    f.relatedModel.Some? && !f.blank && f.concrete && !f.autoCreated
  }

  /** A concrete, not auto-created related field that may be blank. */
  predicate OptionalEdge(f: Field) {
    f.relatedModel.Some? && f.blank && f.concrete && !f.autoCreated
  }

  /** The direct dependencies of a model; the not-required set is left empty
      when only required dependencies are asked for. */
  function DirectDeps(fields: seq<Field>, requiredOnly: bool): Deps {
    Deps(set f | f in fields && RequiredEdge(f) :: f.relatedModel.value,
         if requiredOnly then {} else set f | f in fields && OptionalEdge(f) :: f.relatedModel.value)
  }

  /** A model is directly required exactly when some required edge points to
      it, and directly (not) required exactly when some blank edge does,
      unless only required dependencies were asked for. */
  lemma {:induction false} DirectDepsSpec(fields: seq<Field>, requiredOnly: bool, m: ModelId)
    ensures m in DirectDeps(fields, requiredOnly).required <==>
      exists f :: f in fields && RequiredEdge(f) && f.relatedModel == Some(m)
    ensures requiredOnly ==> DirectDeps(fields, requiredOnly).notRequired == {}
    ensures !requiredOnly ==> (m in DirectDeps(fields, requiredOnly).notRequired <==>
      exists f :: f in fields && OptionalEdge(f) && f.relatedModel == Some(m))
    ensures DirectDeps(fields, requiredOnly).required == DirectDeps(fields, true).required
  {
    if exists f :: f in fields && RequiredEdge(f) && f.relatedModel == Some(m) {
      var f :| f in fields && RequiredEdge(f) && f.relatedModel == Some(m);
      assert m == f.relatedModel.value;
    }
    if !requiredOnly && exists f :: f in fields && OptionalEdge(f) && f.relatedModel == Some(m) {
      var f :| f in fields && OptionalEdge(f) && f.relatedModel == Some(m);
      assert m == f.relatedModel.value;
    }
  }

  /** `r` lists the models of `s` once each, in the order of their first
      occurrences in `s`; a list without repetition is kept as it is. */
  ghost predicate FirstOccurrences(s: seq<ModelId>, r: seq<ModelId>) {
    && Distinct(r)
    && (forall x :: x in r <==> x in s)
    && (forall i, j :: 0 <= i < j < |r| ==> Strings.FirstIndex(s, r[i]) < Strings.FirstIndex(s, r[j]))
    && (Distinct(s) ==> r == s)
  }

  /** The keys of an ordered dictionary built from `s`: first occurrences, in
      the order of those first occurrences; a list without repetition is kept
      as it is. */
  function Dedup(s: seq<ModelId>): (r: seq<ModelId>)
    ensures FirstOccurrences(s, r)
  {
    if |s| == 0 then []
    else
      var init, x := s[..|s| - 1], s[|s| - 1];
      assert init + [x] == s;
      var r := Dedup(init);
      DedupSnoc(init, x, r);
      if x in r then r else r + [x]
  }

  /** Appending a model to a list extends its first occurrences by that model
      exactly when it is new. */
  lemma {:induction false} DedupSnoc(init: seq<ModelId>, x: ModelId, r: seq<ModelId>)
    requires FirstOccurrences(init, r)
    ensures FirstOccurrences(init + [x], if x in r then r else r + [x])
  {
    var s := init + [x];
    assert s[..|s| - 1] == init;
    FirstIndexPrefix(s, |s| - 1);
    assert forall y :: y in s <==> y in init || y == x;
    if x in r {
      DedupSnocSeen(init, x, r);
    } else {
      DedupSnocNew(init, x, r);
    }
  }

  /** A model seen before leaves the first occurrences as they are. */
  lemma {:induction false} DedupSnocSeen(init: seq<ModelId>, x: ModelId, r: seq<ModelId>)
    requires FirstOccurrences(init, r) && x in r
    requires forall y :: y in init ==> Strings.FirstIndex(init + [x], y) == Strings.FirstIndex(init, y)
    requires forall y :: y in init + [x] <==> y in init || y == x
    ensures FirstOccurrences(init + [x], r)
  {
    var k :| 0 <= k < |init| && init[k] == x;
    assert (init + [x])[k] == (init + [x])[|init|];
  }

  /** A new model goes after every earlier first occurrence. */
  lemma {:induction false} DedupSnocNew(init: seq<ModelId>, x: ModelId, r: seq<ModelId>)
    requires FirstOccurrences(init, r) && x !in r
    requires forall y :: y in init ==> Strings.FirstIndex(init + [x], y) == Strings.FirstIndex(init, y)
    requires forall y :: y in init + [x] <==> y in init || y == x
    ensures FirstOccurrences(init + [x], r + [x])
  {
    assert forall y :: y in r + [x] <==> y in r || y == x;
    SnocDistinct(r, x);
    SnocOrder(init, x, r);
    if Distinct(init + [x]) {
      assert forall i :: 0 <= i < |init| ==> init[i] == (init + [x])[i];
    }
  }

  /** A new element keeps a list free of repetition. */
  lemma {:induction false} SnocDistinct(r: seq<ModelId>, x: ModelId)
    requires Distinct(r) && x !in r
    ensures Distinct(r + [x])
  {
    assert forall i :: 0 <= i < |r| ==> (r + [x])[i] == r[i];
  }

  /** A new element has its first occurrence after every earlier one. */
  lemma {:induction false} SnocOrder(init: seq<ModelId>, x: ModelId, r: seq<ModelId>)
    requires x !in init
    requires forall y :: y in r ==> y in init
    requires forall i, j :: 0 <= i < j < |r| ==> Strings.FirstIndex(init, r[i]) < Strings.FirstIndex(init, r[j])
    requires forall y :: y in init ==> Strings.FirstIndex(init + [x], y) == Strings.FirstIndex(init, y)
    ensures forall i, j :: 0 <= i < j < |r + [x]| ==>
      Strings.FirstIndex(init + [x], (r + [x])[i]) < Strings.FirstIndex(init + [x], (r + [x])[j])
  {
    var s, r' := init + [x], r + [x];
    Strings.FirstIndexAt(s, x, |init|);
    forall i, j | 0 <= i < j < |r'| ensures Strings.FirstIndex(s, r'[i]) < Strings.FirstIndex(s, r'[j]) {
      assert r'[i] == r[i] && r[i] in init;
      if j < |r| {
        assert r'[j] == r[j];
      }
    }
  }

  /** A model's first position in a prefix that holds it is its first
      position in the whole list. */
  lemma {:induction false} FirstIndexPrefix(s: seq<ModelId>, m: nat)
    requires m <= |s|
    ensures forall x :: x in s[..m] ==> Strings.FirstIndex(s, x) == Strings.FirstIndex(s[..m], x)
  {
    forall x | x in s[..m] ensures Strings.FirstIndex(s, x) == Strings.FirstIndex(s[..m], x) {
      var b := Strings.FirstIndex(s[..m], x);
      assert s[..b] == s[..m][..b];
      Strings.FirstIndexAt(s, x, b);
    }
  }

  /** The direct dependencies of every listed model. */
  function Initial(schema: Schema, models: seq<ModelId>, requiredOnly: bool): (d: DepMap)
    requires forall m :: m in models ==> m in schema
    ensures forall m :: m in d <==> m in models
    ensures forall m :: m in d ==> d[m] == DirectDeps(schema[m], requiredOnly)
  {
    map m | m in models :: DirectDeps(schema[m], requiredOnly)
  }

  /** The models some listed model requires that are not listed themselves,
      `ContentType` excepted. */
  function MissingModels(schema: Schema, models: seq<ModelId>, contentType: ModelId): (r: set<ModelId>)
    requires forall m :: m in models ==> m in schema
    ensures forall x :: x in r <==>
      && x !in models && x != contentType
      && exists m :: m in models && x in DirectDeps(schema[m], true).required
  {
    var d := Initial(schema, models, true);
    (set m, x | m in d && x in d[m].required :: x) - (set m | m in models) - {contentType}
  }

  /** `order` lists the set `s`, each member once. */
  predicate Enumerates(order: seq<ModelId>, s: set<ModelId>) {
    Distinct(order) && (forall m :: m in order ==> m in s) && (forall m :: m in s ==> m in order)
  }

  /** The models listed for `m` by the manual dependencies. */
  function ManualFor(manual: seq<(ModelId, set<ModelId>)>, m: ModelId): set<ModelId> {
    set k, x | 0 <= k < |manual| && manual[k].0 == m && x in manual[k].1 :: x
  }

  /** `dependency[model]['required'] |= relations` for every non-empty manual
      entry, in order; an entry for a model that is not a key raises KeyError. */
  function ApplyManual(deps: DepMap, manual: seq<(ModelId, set<ModelId>)>): (r: Result<DepMap, DepError>)
    ensures r.Success? <==> forall k :: 0 <= k < |manual| && manual[k].1 != {} ==> manual[k].0 in deps
    ensures r.Failure? ==> r.error.model !in deps
    ensures r.Success? ==> r.value.Keys == deps.Keys
    ensures r.Success? ==> forall m :: m in deps ==>
      r.value[m] == Deps(deps[m].required + ManualFor(manual, m), deps[m].notRequired)
    decreases |manual|
  {
    if |manual| == 0 then Success(deps)
    else
      var m := manual[0].0;
      var rel := manual[0].1;
      ManualSplit(manual);
      if rel == {} then
        ApplyManual(deps, manual[1..])
      else if m !in deps then
        Failure(KeyError(m))
      else
        ApplyManual(deps[m := Deps(deps[m].required + rel, deps[m].notRequired)], manual[1..])
  }

  lemma {:induction false} ManualSplit(manual: seq<(ModelId, set<ModelId>)>)
    requires |manual| > 0
    ensures forall m :: (ManualFor(manual, m) ==
      (if manual[0].0 == m then manual[0].1 else {}) + ManualFor(manual[1..], m))
  {
    forall m ensures ManualFor(manual, m) ==
      (if manual[0].0 == m then manual[0].1 else {}) + ManualFor(manual[1..], m)
    {
      var lhs := ManualFor(manual, m);
      var rhs := (if manual[0].0 == m then manual[0].1 else {}) + ManualFor(manual[1..], m);
      forall x | x in lhs ensures x in rhs {
        var k :| 0 <= k < |manual| && manual[k].0 == m && x in manual[k].1;
        if k > 0 { assert manual[1..][k - 1] == manual[k]; }
      }
      forall x | x in rhs ensures x in lhs {
        if !(manual[0].0 == m && x in manual[0].1) {
          var k :| 0 <= k < |manual[1..]| && manual[1..][k].0 == m && x in manual[1..][k].1;
          assert manual[k + 1] == manual[1..][k];
        }
      }
    }
  }

  // ---------------------------------------------------------------------
  // Deepening passes

  /** The models required by the keys among `s`. */
  function Hop(d: DepMap, s: set<ModelId>): set<ModelId> {
    set n, x | n in s && n in d && x in d[n].required :: x
  }

  /** One inner loop: the model's required set absorbs the (current) required
      sets of those of its requirements that are keys. */
  function Step(d: DepMap, m: ModelId): (r: DepMap)
    requires m in d
    ensures r.Keys == d.Keys
    ensures forall n :: n in d && n != m ==> r[n] == d[n]
    ensures r[m].notRequired == d[m].notRequired
    ensures forall y :: y in r[m].required <==>
      y in d[m].required || exists x :: x in d[m].required && x in d && y in d[x].required
  {
    d[m := Deps(d[m].required + Hop(d, d[m].required), d[m].notRequired)]
  }

  /** `d'` has the same keys and not-required sets as `d`, and required sets
      that are at least as large. */
  predicate Grows(d: DepMap, d': DepMap) {
    && d.Keys == d'.Keys
    && (forall m :: m in d ==> d[m].required <= d'[m].required)
    && (forall m :: m in d ==> d'[m].notRequired == d[m].notRequired)
  }

  /** One pass of the outer loop, over the keys in order. */
  function Pass(order: seq<ModelId>, d: DepMap): (r: DepMap)
    requires forall k :: 0 <= k < |order| ==> order[k] in d
    ensures Grows(d, r)
    decreases |order|
  {
    if |order| == 0 then d else Pass(order[1..], Step(d, order[0]))
  }

  /** The two passes of the source. */
  function Deepen(order: seq<ModelId>, d: DepMap): (r: DepMap)
    requires forall k :: 0 <= k < |order| ==> order[k] in d
    ensures Grows(d, r)
  {
    Pass(order, Pass(order, d))
  }

  lemma {:induction false} HopMono(d: DepMap, d': DepMap, s: set<ModelId>, s': set<ModelId>)
    requires Grows(d, d') && s <= s'
    ensures Hop(d, s) <= Hop(d', s')
  {
    forall x | x in Hop(d, s) ensures x in Hop(d', s') {
      var n :| n in s && n in d && x in d[n].required;
      assert n in s' && n in d' && x in d'[n].required;
    }
  }

  lemma {:induction false} GrowsTrans(a: DepMap, b: DepMap, c: DepMap)
    requires Grows(a, b) && Grows(b, c)
    ensures Grows(a, c)
  {
  }

  /** A pass gives every listed model at least the requirements of its
      requirements, as they stood before the pass. */
  lemma {:induction false} PassCovers(order: seq<ModelId>, d: DepMap, m: ModelId)
    requires forall k :: 0 <= k < |order| ==> order[k] in d
    requires m in order
    ensures d[m].required + Hop(d, d[m].required) <= Pass(order, d)[m].required
    decreases |order|
  {
    var d1 := Step(d, order[0]);
    if order[0] == m {
      assert d1[m].required == d[m].required + Hop(d, d[m].required);
    } else {
      assert m in order[1..];
      PassCovers(order[1..], d1, m);
      assert Grows(d, d1);
      HopMono(d, d1, d[m].required, d1[m].required);
    }
  }

  /** Every model reachable from `m` along at most `k` required edges whose
      intermediate models are keys. */
  function Within(d: DepMap, m: ModelId, k: nat): set<ModelId>
    requires m in d && k >= 1
  {
    if k == 1 then d[m].required else Within(d, m, k - 1) + Hop(d, Within(d, m, k - 1))
  }

  lemma {:induction false} HopUnion(d: DepMap, a: set<ModelId>, b: set<ModelId>)
    ensures Hop(d, a + b) == Hop(d, a) + Hop(d, b)
  {
  }

  /** After one pass, every key's required set holds its two-hop reach. */
  lemma {:induction false} PassCoversAll(order: seq<ModelId>, d: DepMap)
    requires forall k :: 0 <= k < |order| ==> order[k] in d
    requires forall x :: x in d ==> x in order
    ensures forall n :: n in d ==> Within(d, n, 2) <= Pass(order, d)[n].required
  {
    forall n | n in d ensures Within(d, n, 2) <= Pass(order, d)[n].required {
      PassCovers(order, d, n);
    }
  }

  /** Two hops through `d` are one hop through a map that already holds every
      key's two-hop reach. */
  lemma {:induction false} HopHop(d: DepMap, p: DepMap, a: set<ModelId>)
    requires Grows(d, p)
    requires forall n :: n in d ==> Within(d, n, 2) <= p[n].required
    ensures Hop(d, Hop(d, a)) <= Hop(p, a)
  {
    forall x | x in Hop(d, Hop(d, a)) ensures x in Hop(p, a) {
      var n :| n in Hop(d, a) && n in d && x in d[n].required;
      var n0 :| n0 in a && n0 in d && n in d[n0].required;
      assert x in Hop(d, d[n0].required);
      assert x in Within(d, n0, 2);
    }
  }

  /** After the two passes every model requires everything reachable from it
      along at most four required edges through keys; in particular the
      required set of each of its direct requirements that is a key. */
  lemma {:induction false} DeepenReachesFourHops(order: seq<ModelId>, d: DepMap, m: ModelId)
    requires forall k :: 0 <= k < |order| ==> order[k] in d
    requires forall x :: x in d ==> x in order
    requires m in d
    ensures Within(d, m, 4) <= Deepen(order, d)[m].required
    ensures forall n :: n in d[m].required && n in d ==> d[n].required <= Deepen(order, d)[m].required
  {
    var p1 := Pass(order, d);
    var a := Within(d, m, 2);
    PassCoversAll(order, d);
    PassCovers(order, p1, m);
    var top := p1[m].required + Hop(p1, p1[m].required);
    assert top <= Deepen(order, d)[m].required;
    assert a <= p1[m].required;
    HopMono(d, p1, a, p1[m].required);
    HopHop(d, p1, a);
    HopMono(p1, p1, a, p1[m].required);
    FourHopsSplit(d, m);
    assert Within(d, m, 4) <= top;
    forall n | n in d[m].required && n in d ensures d[n].required <= Deepen(order, d)[m].required {
      assert d[n].required <= Hop(d, d[m].required);
      assert d[n].required <= a;
    }
  }

  /** Four hops are two hops followed by at most two more. */
  lemma {:induction false} FourHopsSplit(d: DepMap, m: ModelId)
    requires m in d
    ensures Within(d, m, 4) == Within(d, m, 2) + Hop(d, Within(d, m, 2)) + Hop(d, Hop(d, Within(d, m, 2)))
  {
    var a := Within(d, m, 2);
    HopUnion(d, a, Hop(d, a));
  }

  /** A map of required sets that contains `d` and is closed under following
      required edges through keys. */
  predicate TransitiveCover(d: DepMap, cover: DepMap) {
    && (forall m :: m in d ==> m in cover && d[m].required <= cover[m].required)
    && (forall m, n :: m in cover && n in cover[m].required && n in d ==> n in cover && cover[n].required <= cover[m].required)
  }

  /** The passes add nothing that is not reachable: whatever transitively
      closed cover contains the direct requirements also contains the result. */
  lemma {:induction false} PassSound(order: seq<ModelId>, d: DepMap, cover: DepMap)
    requires forall k :: 0 <= k < |order| ==> order[k] in d
    requires TransitiveCover(d, cover)
    ensures TransitiveCover(Pass(order, d), cover)
    decreases |order|
  {
    if |order| > 0 {
      var m := order[0];
      var d1 := Step(d, m);
      forall x | x in Hop(d, d[m].required) ensures x in cover[m].required {
        var n :| n in d[m].required && n in d && x in d[n].required;
      }
      assert TransitiveCover(d1, cover);
      PassSound(order[1..], d1, cover);
    }
  }

  lemma {:induction false} DeepenSound(order: seq<ModelId>, d: DepMap, cover: DepMap, m: ModelId)
    requires forall k :: 0 <= k < |order| ==> order[k] in d
    requires TransitiveCover(d, cover)
    requires m in d
    ensures Deepen(order, d)[m].required <= cover[m].required
  {
    PassSound(order, d, cover);
    PassSound(order, Pass(order, d), cover);
  }

  // ---------------------------------------------------------------------
  // The whole construction

  /** The key order: the listed models, then the missing ones. */
  function Keys(models: seq<ModelId>, missingOrder: seq<ModelId>): seq<ModelId> {
    Dedup(models) + missingOrder
  }

  /** In a closed schema the missing models have fields of their own. */
  lemma {:induction false} MissingInSchema(schema: Schema, models: seq<ModelId>, contentType: ModelId)
    requires Closed(schema)
    requires forall m :: m in models ==> m in schema
    ensures forall m :: m in MissingModels(schema, models, contentType) ==> m in schema
  {
    var d := Initial(schema, models, true);
    forall m | m in MissingModels(schema, models, contentType) ensures m in schema {
      var n :| n in d && m in d[n].required;
      DirectDepsSpec(schema[n], true, m);
      var f :| f in schema[n] && RequiredEdge(f) && f.relatedModel == Some(m);
    }
  }

  /** The direct dependencies of the listed and of the missing models. */
  function Base(schema: Schema, models: seq<ModelId>, requiredOnly: bool, contentType: ModelId): (d: DepMap)
    requires Closed(schema)
    requires forall m :: m in models ==> m in schema
    ensures forall m :: m in d <==> m in models || m in MissingModels(schema, models, contentType)
    ensures forall m :: m in d ==> m in schema && d[m] == DirectDeps(schema[m], requiredOnly)
  {
    MissingInSchema(schema, models, contentType);
    var missing := MissingModels(schema, models, contentType);
    var keys := (set x | x in models) + missing;
    map m | m in keys :: DirectDeps(schema[m], requiredOnly)
  }

  /** The dictionary before the deepening passes: direct dependencies of the
      listed and the missing models, with the manual dependencies added. */
  function Seed(
    schema: Schema, models: seq<ModelId>, requiredOnly: bool, contentType: ModelId,
    manual: seq<(ModelId, set<ModelId>)>): (r: Result<DepMap, DepError>)
    requires Closed(schema)
    requires forall m :: m in models ==> m in schema
    ensures r.Success? ==> forall m :: m in r.value <==> m in models || m in MissingModels(schema, models, contentType)
    ensures r.Success? ==> forall m :: m in r.value ==> (m in schema &&
      r.value[m] == Deps(DirectDeps(schema[m], requiredOnly).required + ManualFor(manual, m),
                         DirectDeps(schema[m], requiredOnly).notRequired))
    ensures r.Success? <==> forall k :: 0 <= k < |manual| && manual[k].1 != {} ==>
      manual[k].0 in models || manual[k].0 in MissingModels(schema, models, contentType)
    ensures r.Failure? ==> r.error.model !in models && r.error.model !in MissingModels(schema, models, contentType)
  {
    ApplyManual(Base(schema, models, requiredOnly, contentType), manual)
  }

  /** `get_models_dependency(required_only)`: the seeded dictionary after the
      two deepening passes. The listed models come first in the key order,
      then the missing ones in `missingOrder` (the iteration order of a
      Python set, which the source leaves unspecified). */
  function ModelsDependency(
    schema: Schema, models: seq<ModelId>, requiredOnly: bool, contentType: ModelId,
    missingOrder: seq<ModelId>, manual: seq<(ModelId, set<ModelId>)>): (r: Result<Graph, DepError>)
    requires Closed(schema)
    requires forall m :: m in models ==> m in schema
    requires Enumerates(missingOrder, MissingModels(schema, models, contentType))
    ensures r.Success? <==> Seed(schema, models, requiredOnly, contentType, manual).Success?
    ensures r.Failure? ==> r.error.model !in models && r.error.model !in missingOrder
    ensures r.Success? ==> ValidGraph(r.value) && r.value.order == Keys(models, missingOrder)
    ensures r.Success? ==> Grows(Seed(schema, models, requiredOnly, contentType, manual).value, r.value.deps)
  {
    var keys := Keys(models, missingOrder);
    DistinctConcat(Dedup(models), missingOrder);
    match Seed(schema, models, requiredOnly, contentType, manual)
    case Failure(e) => Failure(e)
    case Success(d) =>
      assert forall m :: m in keys <==> m in d;
      Success(Graph(keys, Deepen(keys, d)))
  }

  /** The construction fails exactly when a non-empty manual entry names a
      model that is not a key. */
  lemma {:induction false} ModelsDependencyFails(
    schema: Schema, models: seq<ModelId>, requiredOnly: bool, contentType: ModelId,
    missingOrder: seq<ModelId>, manual: seq<(ModelId, set<ModelId>)>)
    requires Closed(schema)
    requires forall m :: m in models ==> m in schema
    requires Enumerates(missingOrder, MissingModels(schema, models, contentType))
    ensures ModelsDependency(schema, models, requiredOnly, contentType, missingOrder, manual).Success?
      <==> forall k :: 0 <= k < |manual| && manual[k].1 != {} ==>
        manual[k].0 in models || manual[k].0 in missingOrder
  {
  }

  /** `get_models` lists every model named by the manual dependencies, so on
      the model lists it produces the `KeyError` cannot happen. */
  lemma {:induction false} ManualModelsListed(
    schema: Schema, models: seq<ModelId>, requiredOnly: bool, contentType: ModelId,
    missingOrder: seq<ModelId>, manual: seq<(ModelId, set<ModelId>)>)
    requires Closed(schema)
    requires forall m :: m in models ==> m in schema
    requires Enumerates(missingOrder, MissingModels(schema, models, contentType))
    requires forall k :: 0 <= k < |manual| ==> manual[k].0 in models
    ensures ModelsDependency(schema, models, requiredOnly, contentType, missingOrder, manual).Success?
  {
    ModelsDependencyFails(schema, models, requiredOnly, contentType, missingOrder, manual);
  }

  /** Every model that a listed model requires is a key, `ContentType`
      excepted. */
  lemma {:induction false} RequiredModelsAreKeys(
    schema: Schema, models: seq<ModelId>, requiredOnly: bool, contentType: ModelId,
    missingOrder: seq<ModelId>, manual: seq<(ModelId, set<ModelId>)>, m: ModelId, x: ModelId)
    requires Closed(schema)
    requires forall m :: m in models ==> m in schema
    requires Enumerates(missingOrder, MissingModels(schema, models, contentType))
    requires m in models && x in DirectDeps(schema[m], true).required && x != contentType
    ensures var r := ModelsDependency(schema, models, requiredOnly, contentType, missingOrder, manual);
      r.Success? ==> x in r.value.order
  {
    var order := Keys(models, missingOrder);
    if x in models {
      assert x in Dedup(models);
    } else {
      RequiredIsMissing(schema, models, contentType, m, x);
      assert x in missingOrder;
    }
  }

  /** A requirement of a listed model that is itself unlisted is missing. */
  lemma {:induction false} RequiredIsMissing(schema: Schema, models: seq<ModelId>, contentType: ModelId, m: ModelId, x: ModelId)
    requires forall m :: m in models ==> m in schema
    requires m in models && x in DirectDeps(schema[m], true).required
    requires x != contentType && x !in models
    ensures x in MissingModels(schema, models, contentType)
  {
    var d0 := Initial(schema, models, true);
    assert m in d0 && x in d0[m].required;
  }

  /** Every key keeps its direct and manual requirements and its direct
      not-required set. */
  lemma {:induction false} KeysKeepDirectAndManual(
    schema: Schema, models: seq<ModelId>, requiredOnly: bool, contentType: ModelId,
    missingOrder: seq<ModelId>, manual: seq<(ModelId, set<ModelId>)>, m: ModelId)
    requires Closed(schema)
    requires forall m :: m in models ==> m in schema
    requires Enumerates(missingOrder, MissingModels(schema, models, contentType))
    ensures var r := ModelsDependency(schema, models, requiredOnly, contentType, missingOrder, manual);
      r.Success? && m in r.value.deps ==>
        && m in schema
        && DirectDeps(schema[m], requiredOnly).required + ManualFor(manual, m) <= r.value.deps[m].required
        && r.value.deps[m].notRequired == DirectDeps(schema[m], requiredOnly).notRequired
  {
  }

  /** On success, every model requires everything reachable from it along at
      most four required edges of the seeded dictionary, and nothing that a
      transitively closed cover of the seeded dictionary does not hold. */
  lemma {:induction false} ModelsDependencyReach(
    schema: Schema, models: seq<ModelId>, requiredOnly: bool, contentType: ModelId,
    missingOrder: seq<ModelId>, manual: seq<(ModelId, set<ModelId>)>, m: ModelId, cover: DepMap)
    requires Closed(schema)
    requires forall m :: m in models ==> m in schema
    requires Enumerates(missingOrder, MissingModels(schema, models, contentType))
    requires Seed(schema, models, requiredOnly, contentType, manual).Success?
    requires m in Seed(schema, models, requiredOnly, contentType, manual).value
    ensures var d := Seed(schema, models, requiredOnly, contentType, manual).value;
      var r := ModelsDependency(schema, models, requiredOnly, contentType, missingOrder, manual);
      && r.Success? && m in r.value.deps
      && Within(d, m, 4) <= r.value.deps[m].required
      && (TransitiveCover(d, cover) ==> r.value.deps[m].required <= cover[m].required)
  {
    var d := Seed(schema, models, requiredOnly, contentType, manual).value;
    var keys := Keys(models, missingOrder);
    assert forall x :: x in keys <==> x in d;
    DeepenReachesFourHops(keys, d, m);
    if TransitiveCover(d, cover) {
      DeepenSound(keys, d, cover, m);
    }
  }
}
