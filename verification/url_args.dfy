/** The argument handling of `prepare_url`: the `<type:name>` arguments of a
    URL pattern, the keyword arguments supplied by a parameter map, the
    cascade that matches an unresolved argument to a model field, and the
    failures reported along the way. */
module UrlArgs {
  import opened Wrappers
  import opened Strings
  import opened Chunks

  // ---------------------------------------------------------------------
  // Arguments of a URL pattern

  /** The run of `[:\w]` characters at the start of `s`. */
  function ArgRun(s: string): (k: nat)
    ensures k <= |s|
    ensures forall j :: 0 <= j < k ==> IsArgChar(s[j])
    ensures k < |s| ==> !IsArgChar(s[k])
  {
    if |s| > 0 && IsArgChar(s[0]) then 1 + ArgRun(s[1..]) else 0
  }

  predicate IsArgChar(ch: char) {
    ch == ':' || IsWordChar(ch)
  }

  /** `p` starts with '<', then a non-empty run of argument characters,
      then '>'. */
  predicate TokenStart(p: string) {
    |p| > 0 && p[0] == '<' && ArgRun(p[1..]) > 0 && 1 + ArgRun(p[1..]) < |p| && p[1 + ArgRun(p[1..])] == '>'
  }

  /** `<t>` occurs in `p` at position `i`, `t` a non-empty run of argument
      characters: one match of the pattern `<([:\w]+)>`. */
  predicate TokenAt(p: string, t: string, i: int) {
    && 0 <= i && i + |t| + 2 <= |p|
    && |t| > 0 && (forall j :: 0 <= j < |t| ==> IsArgChar(t[j]))
    && p[i] == '<' && p[i + 1..i + 1 + |t|] == t && p[i + 1 + |t|] == '>'
  }

  /** The left-to-right scan of `re.findall`: a match at the current position
      is taken whole and the scan resumes after it, otherwise the scan moves on
      by one character. */
  function Scan(p: string): seq<string>
    decreases |p|
  {
    if |p| == 0 then []
    else if TokenStart(p) then [p[1..1 + ArgRun(p[1..])]] + Scan(p[2 + ArgRun(p[1..])..])
    else Scan(p[1..])
  }

  /** `re.findall(r'<([:\w]+)>', pattern)`: the text of every `<...>` group
      made of colons and word characters. */
  function FindArgs(p: string): (r: seq<string>)
    ensures forall k :: 0 <= k < |r| ==> |r[k]| > 0 && forall j :: 0 <= j < |r[k]| ==> IsArgChar(r[k][j])
    ensures forall k :: 0 <= k < |r| ==> Contains(p, "<" + r[k] + ">")
    ensures forall t, i :: TokenAt(p, t, i) ==> t in r
  {
    ScanSound(p);
    ScanComplete(p);
    Scan(p)
  }

  /** Every token the scan returns is a run of argument characters that the
      pattern holds between '<' and '>'. */
  lemma {:induction false} ScanSound(p: string)
    ensures forall k :: 0 <= k < |Scan(p)| ==> |Scan(p)[k]| > 0 && forall j :: 0 <= j < |Scan(p)[k]| ==> IsArgChar(Scan(p)[k][j])
    ensures forall k :: 0 <= k < |Scan(p)| ==> Contains(p, "<" + Scan(p)[k] + ">")
    decreases |p|
  {
    if |p| > 0 {
      var k := ArgRun(p[1..]);
      if TokenStart(p) {
        var tok := p[1..1 + k];
        var rest := Scan(p[2 + k..]);
        ScanSound(p[2 + k..]);
        assert p[..2 + k] == "<" + tok + ">";
        assert StartsWith(p, "<" + tok + ">");
        forall j | 0 <= j < |rest| ensures Contains(p, "<" + rest[j] + ">") {
          ContainsSuffix(p, 2 + k, "<" + rest[j] + ">");
        }
        assert Scan(p) == [tok] + rest;
      } else {
        var rest := Scan(p[1..]);
        ScanSound(p[1..]);
        forall j | 0 <= j < |rest| ensures Contains(p, "<" + rest[j] + ">") {
          ContainsSuffix(p, 1, "<" + rest[j] + ">");
        }
      }
    }
  }

  /** Every match of the pattern is found by the scan. */
  lemma {:induction false} ScanComplete(p: string)
    ensures forall t, i :: TokenAt(p, t, i) ==> t in Scan(p)
    decreases |p|, 1
  {
    if |p| > 0 {
      if TokenStart(p) {
        ScanCompleteToken(p);
      } else {
        ScanCompleteSkip(p);
      }
    }
  }

  /** `ScanComplete` when a match starts at position 0: it is taken, and every
      later match lies in the rest of the scan. */
  lemma {:induction false} ScanCompleteToken(p: string)
    requires TokenStart(p)
    ensures forall t, i :: TokenAt(p, t, i) ==> t in Scan(p)
    decreases |p|, 0
  {
    var k := ArgRun(p[1..]);
    var rest := Scan(p[2 + k..]);
    assert Scan(p) == [p[1..1 + k]] + rest;
    ScanComplete(p[2 + k..]);
    forall t, i | TokenAt(p, t, i) ensures t in Scan(p) {
      TokenAtStart(p, t);
      if i > 0 {
        TokenAfterStart(p, t, i);
        TokenAtSuffix(p, t, i, 2 + k);
        assert t in rest;
      }
    }
  }

  /** `ScanComplete` when no match starts at position 0: every match lies in
      the rest of the scan. */
  lemma {:induction false} ScanCompleteSkip(p: string)
    requires |p| > 0 && !TokenStart(p)
    ensures forall t, i :: TokenAt(p, t, i) ==> t in Scan(p)
    decreases |p|, 0
  {
    assert Scan(p) == Scan(p[1..]);
    ScanComplete(p[1..]);
    forall t, i | TokenAt(p, t, i) ensures t in Scan(p) {
      TokenAtStart(p, t);
      TokenAtSuffix(p, t, i, 1);
    }
  }

  /** A token at the start of `p` is what the scan reads there. */
  lemma {:induction false} TokenAtStart(p: string, t: string)
    ensures TokenAt(p, t, 0) ==> TokenStart(p) && ArgRun(p[1..]) == |t| && p[1..1 + |t|] == t
  {
    if TokenAt(p, t, 0) {
      assert p[1..][|t|] == '>';
      ArgRunPrefix(p[1..], |t| + 1);
      assert p[1..][..|t| + 1] == t + ">";
      ArgRunOf(t, ">");
      assert p[1..1 + |t|] == t;
    }
  }

  /** A token cannot start inside the token the scan reads at position 0. */
  lemma {:induction false} TokenAfterStart(p: string, t: string, i: int)
    requires TokenStart(p) && TokenAt(p, t, i) && i > 0
    ensures i >= 2 + ArgRun(p[1..])
  {
    assert p[1..][i - 1] == p[i];
  }

  /** A token past position `n` is a token of the suffix from `n`. */
  lemma {:induction false} TokenAtSuffix(p: string, t: string, i: int, n: nat)
    requires TokenAt(p, t, i) && n <= i
    ensures TokenAt(p[n..], t, i - n)
  {
    assert p[n..][i - n + 1..i - n + 1 + |t|] == p[i + 1..i + 1 + |t|];
  }

  /** The run of argument characters in a prefix of `s`. */
  lemma {:induction false} ArgRunPrefix(s: string, m: nat)
    requires m <= |s|
    ensures ArgRun(s[..m]) == if ArgRun(s) < m then ArgRun(s) else m
  {
    assert forall j :: 0 <= j < m ==> s[..m][j] == s[j];
  }

  /** Cutting before a '<' that follows the token at position 0 keeps that
      token in the first part. */
  lemma {:induction false} CutAfterToken(p: string, i: nat)
    requires TokenStart(p) && 0 < i <= |p| && (i < |p| ==> p[i] == '<')
    ensures i >= 2 + ArgRun(p[1..])
    ensures Scan(p[..i]) == [p[1..1 + ArgRun(p[1..])]] + Scan(p[2 + ArgRun(p[1..])..][..i - 2 - ArgRun(p[1..])])
  {
    var k := ArgRun(p[1..]);
    var q := p[..i];
    CutKeepsToken(p, i);
    assert Scan(q) == [q[1..1 + k]] + Scan(q[2 + k..]);
    assert q[1..1 + k] == p[1..1 + k];
    assert q[2 + k..] == p[2 + k..][..i - 2 - k];
  }

  /** The token at position 0 ends before the cut, so the cut keeps it. */
  lemma {:induction false} CutKeepsToken(p: string, i: nat)
    requires TokenStart(p) && 0 < i <= |p| && (i < |p| ==> p[i] == '<')
    ensures i >= 2 + ArgRun(p[1..])
    ensures ArgRun(p[..i][1..]) == ArgRun(p[1..]) && TokenStart(p[..i])
  {
    assert i < |p| ==> p[1..][i - 1] == p[i];
    ArgRunPrefix(p[1..], i - 1);
    assert p[..i][1..] == p[1..][..i - 1];
  }

  /** Cutting before a '<' keeps a position-0 non-match a non-match. */
  lemma {:induction false} CutAfterSkip(p: string, i: nat)
    requires |p| > 0 && !TokenStart(p) && 0 < i <= |p| && (i < |p| ==> p[i] == '<')
    ensures Scan(p[..i]) == Scan(p[1..][..i - 1])
  {
    var q := p[..i];
    ArgRunPrefix(p[1..], i - 1);
    assert q[1..] == p[1..][..i - 1];
    assert forall j :: 0 <= j < i ==> q[j] == p[j];
    assert !TokenStart(q);
  }

  /** The scan passes through every position holding '<': what it finds in
      `p` is what it finds before that position followed by what it finds
      from there on. */
  lemma {:induction false} ScanCut(p: string, i: nat)
    requires i <= |p| && (i < |p| ==> p[i] == '<')
    ensures Scan(p) == Scan(p[..i]) + Scan(p[i..])
    decreases i, 1
  {
    if i == 0 {
      assert p[..0] == [] && p[0..] == p;
    } else if TokenStart(p) {
      ScanCutToken(p, i);
    } else {
      ScanCutSkip(p, i);
    }
  }

  /** `ScanCut` when a match starts at position 0. */
  lemma {:induction false} ScanCutToken(p: string, i: nat)
    requires TokenStart(p) && 0 < i <= |p| && (i < |p| ==> p[i] == '<')
    ensures Scan(p) == Scan(p[..i]) + Scan(p[i..])
    decreases i, 0
  {
    var k := ArgRun(p[1..]);
    var p', m := p[2 + k..], i - 2 - k;
    CutAfterToken(p, i);
    assert p'[m..] == p[i..];
    ScanCut(p', m);
    Regroup([p[1..1 + k]], Scan(p), Scan(p'), Scan(p'[..m]), Scan(p[i..]), Scan(p[..i]));
  }

  /** `ScanCut` when no match starts at position 0. */
  lemma {:induction false} ScanCutSkip(p: string, i: nat)
    requires |p| > 0 && !TokenStart(p) && 0 < i <= |p| && (i < |p| ==> p[i] == '<')
    ensures Scan(p) == Scan(p[..i]) + Scan(p[i..])
    decreases i, 0
  {
    assert p[1..][i - 1..] == p[i..];
    ScanCut(p[1..], i - 1);
    CutAfterSkip(p, i);
  }

  /** `x + (a + b)` regrouped as `(x + a) + b`, for named parts. */
  lemma Regroup(x: seq<string>, whole: seq<string>, rest: seq<string>, a: seq<string>, b: seq<string>, front: seq<string>)
    requires whole == x + rest && rest == a + b && front == x + a
    ensures whole == front + b
  {
  }

  /** Each match splits the arguments: those before it, its token, and those
      after it. */
  lemma {:induction false} FindArgsAt(p: string, t: string, i: nat)
    requires TokenAt(p, t, i)
    ensures FindArgs(p) == FindArgs(p[..i]) + [t] + FindArgs(p[i + |t| + 2..])
  {
    ScanCut(p, i);
    var q := p[i..];
    assert TokenAt(q, t, 0);
    TokenAtStart(q, t);
    assert q[2 + |t|..] == p[i + |t| + 2..];
    assert Scan(q) == [t] + Scan(p[i + |t| + 2..]);
  }

  /** Matches are listed in the order they occur. */
  lemma {:induction false} FindArgsOrder(p: string, t: string, i: nat, u: string, j: nat)
    requires TokenAt(p, t, i) && TokenAt(p, u, j) && i < j
    ensures exists a, b :: 0 <= a < b < |FindArgs(p)| && FindArgs(p)[a] == t && FindArgs(p)[b] == u
  {
    var n := i + |t| + 2;
    assert forall m :: i < m < n - 1 ==> p[m] == t[m - i - 1];
    FindArgsAt(p, t, i);
    TokenAtSuffix(p, u, j, n);
    FindArgsAt(p[n..], u, j - n);
    var before := FindArgs(p[..i]);
    var b := |before| + 1 + |FindArgs(p[n..][..j - n])|;
    assert FindArgs(p)[|before|] == t;
    assert FindArgs(p)[b] == u;
  }

  /** What a suffix contains, the whole string contains. */
  lemma {:induction false} ContainsSuffix(p: string, n: nat, sub: string)
    requires n <= |p| && Contains(p[n..], sub)
    ensures Contains(p, sub)
    decreases n
  {
    if n > 0 {
      assert p[1..][n - 1..] == p[n..];
      ContainsSuffix(p[1..], n - 1, sub);
    }
  }

  /** A character other than '<' starts no argument. */
  lemma {:induction false} FindArgsSkip(p: string)
    requires |p| > 0 && p[0] != '<'
    ensures FindArgs(p) == FindArgs(p[1..])
  {
  }

  /** A run of argument characters ends where a non-argument character
      starts. */
  lemma {:induction false} ArgRunOf(t: string, rest: string)
    requires forall j :: 0 <= j < |t| ==> IsArgChar(t[j])
    requires |rest| > 0 && !IsArgChar(rest[0])
    ensures ArgRun(t + rest) == |t|
    decreases |t|
  {
    if |t| > 0 {
      assert (t + rest)[0] == t[0];
      assert (t + rest)[1..] == t[1..] + rest;
      ArgRunOf(t[1..], rest);
    } else {
      assert t + rest == rest;
    }
  }

  /** A pattern that starts with `<token>` yields that token first. */
  lemma {:induction false} FindArgsToken(t: string, rest: string)
    requires |t| > 0 && forall j :: 0 <= j < |t| ==> IsArgChar(t[j])
    ensures FindArgs("<" + t + ">" + rest) == [t] + FindArgs(rest)
  {
    var p := "<" + t + ">" + rest;
    assert p[1..] == t + (">" + rest);
    ArgRunOf(t, ">" + rest);
    assert p[1..1 + |t|] == t;
    assert p[1 + |t|] == '>';
    assert p[2 + |t|..] == rest;
  }

  /** Text without '<' contributes no argument. */
  lemma {:induction false} FindArgsPlain(a: string, q: string)
    requires '<' !in a
    ensures FindArgs(a + q) == FindArgs(q)
    decreases |a|
  {
    if |a| > 0 {
      assert (a + q)[0] == a[0];
      FindArgsSkip(a + q);
      assert (a + q)[1..] == a[1..] + q;
      FindArgsPlain(a[1..], q);
    } else {
      assert a + q == q;
    }
  }

  /** The arguments of a concrete pattern. */
  lemma CarDetailArgs()
    ensures FindArgs("cars/<int:pk>/") == ["int:pk"]
  {
    assert "cars/<int:pk>/" == "cars/" + ("<" + "int:pk" + ">" + "/");
    FindArgsPlain("cars/", "<" + "int:pk" + ">" + "/");
    FindArgsToken("int:pk", "/");
    FindArgsPlain("/", "");
    assert "/" + "" == "/";
  }

  /** `arg.split(':')[1] if ':' in arg else arg`: the name of an argument. */
  function ArgName(arg: string): (r: string)
    ensures ':' !in r
    ensures ':' !in arg ==> r == arg
  {
    if ':' in arg then Split(arg, ':')[1] else arg
  }

  /** The name is the second ':'-separated part, whatever follows it. */
  lemma {:induction false} ArgNameSecond(parts: seq<string>)
    requires |parts| >= 2
    requires forall k :: 0 <= k < |parts| ==> ':' !in parts[k]
    ensures ArgName(Join(parts, ':')) == parts[1]
  {
    SplitJoin(parts, ':');
    var j := Join(parts, ':');
    assert j == parts[0] + [':'] + Join(parts[1..], ':');
    assert j[|parts[0]|] == ':';
  }

  /** Unpacking `arg.split(':')` into two names fails for more than one ':'. */
  datatype Unpack = TooManyValues(arg: string)

  /** `arg.split(':') if ':' in arg else ('int', arg)`: the converter type and
      the name of an argument; the type defaults to `int`. */
  function SplitArg(arg: string): (r: Result<(string, string), Unpack>)
    ensures r.Failure? <==> multiset(arg)[':'] >= 2
    ensures r.Success? ==> r.value.1 == ArgName(arg)
    ensures r.Success? ==> ':' !in r.value.0 && ':' !in r.value.1
    ensures r.Success? && ':' !in arg ==> r.value == ("int", arg)
    ensures r.Success? && ':' in arg ==> arg == r.value.0 + ":" + r.value.1
  {
    if ':' in arg then
      var parts := Split(arg, ':');
      if |parts| == 2 then
        JoinSplit(arg, ':');
        Success((parts[0], parts[1]))
      else Failure(TooManyValues(arg))
    else
      assert multiset(arg)[':'] == 0;
      Success(("int", arg))
  }

  /** An argument is rebuilt from its type and name. */
  lemma {:induction false} SplitArgRoundTrip(t: string, name: string)
    requires ':' !in t && ':' !in name
    ensures SplitArg(t + ":" + name) == Success((t, name))
  {
    SplitJoin([t, name], ':');
    assert Join([t, name], ':') == t + ":" + name;
    assert ':' in t + ":" + name by { assert (t + ":" + name)[|t|] == ':'; }
  }

  /** The converters the generator can produce values for. */
  predicate KnownConverter(t: string) {
    t == "int" || t == "str" || t == "slug"
  }

  /** The primary-key arguments, which are matched without a type check. */
  predicate IsPk(arg: string) {
    arg == "int:pk" || arg == "pk"
  }

  // ---------------------------------------------------------------------
  // Models, fields and views

  /** A URL argument value. */
  datatype Value = IntValue(i: int) | StrValue(s: string) | BoolValue(b: bool)

  /** The field classes matching distinguishes: `IntegerField` and its
      subclasses, `CharField` and its subclasses, `BooleanField`, others. */
  datatype FieldKind = IntegerKind | CharKind | BooleanKind | OtherKind

  /** A model: its label, verbose name, whether it is a proxy, and the names
      of its properties. */
  datatype ModelInfo = ModelInfo(modelLabel: string, verboseName: string, proxy: bool, properties: seq<string>)

  /** A concrete, not auto-created field of a model. */
  datatype FieldInfo = FieldInfo(name: string, kind: FieldKind)

  type FieldOf = (FieldInfo, ModelInfo)

  /** A view's `queryset`: its model, and whether the query returns any row.
      Django evaluates a queryset tested for truth, so an empty one is false. */
  datatype Queryset = Queryset(model: ModelInfo, nonEmpty: bool)

  /** A view class: its `model` and its `queryset`, when set. */
  datatype ViewInfo = ViewInfo(model: Option<ModelInfo>, queryset: Option<Queryset>) {
    /** `getattr(view_class, 'queryset', None)` is true. */
    predicate QuerysetTrue() {
      queryset.Some? && queryset.value.nonEmpty
    }
  }

  /** `s.split(sep)[-1]`. */
  function LastPart(s: string, sep: char): string {
    var parts := Split(s, sep);
    parts[|parts| - 1]
  }

  /** `model._meta.label_lower.split('.')[-1]`. */
  function ShortName(m: ModelInfo): string {
    LastPart(Lower(m.modelLabel), '.')
  }

  /** `model._meta.verbose_name.lower().replace(' ', '_')`. */
  function VerboseKey(m: ModelInfo): string {
    ReplaceChar(Lower(m.verboseName), ' ', '_')
  }

  /** The elements of `s` that satisfy `p`, in order. */
  function Filter<T(==, !new)>(s: seq<T>, p: T -> bool): (r: seq<T>)
    ensures |r| <= |s|
    ensures forall x :: x in r <==> x in s && p(x)
  {
    if |s| == 0 then []
    else
      var rest := Filter(s[1..], p);
      assert forall x :: x in s <==> x == s[0] || x in s[1..];
      if p(s[0]) then [s[0]] + rest else rest
  }

  /** The models whose short name starts the last part of the URL name. */
  function NameMatches(models: seq<ModelInfo>, pathName: string): (r: seq<ModelInfo>)
    ensures forall m :: m in r <==> m in models && StartsWith(LastPart(pathName, ':'), ShortName(m))
  {
    Filter(models, (m: ModelInfo) => StartsWith(LastPart(pathName, ':'), ShortName(m)))
  }

  /** The model of the view: its `model`, else the model of its queryset when
      that queryset is non-empty, else the one model whose short name starts
      the last part of the URL name. */
  function ViewModel(view: ViewInfo, models: seq<ModelInfo>, pathName: string): (r: Option<ModelInfo>)
    ensures view.model.Some? ==> r == view.model
    ensures view.model.None? && view.QuerysetTrue() ==> r == Some(view.queryset.value.model)
    ensures view.model.None? && !view.QuerysetTrue() ==> (r.Some? <==> |NameMatches(models, pathName)| == 1)
    ensures r.Some? && view.model.None? && !view.QuerysetTrue() ==>
      r.value in models && StartsWith(LastPart(pathName, ':'), ShortName(r.value))
      && NameMatches(models, pathName) == [r.value]
  {
    if view.model.Some? then view.model
    else if view.QuerysetTrue() then Some(view.queryset.value.model)
    else
      var matching := NameMatches(models, pathName);
      if |matching| == 1 then
        assert matching[0] in matching;
        Some(matching[0])
      else None
  }

  /** A candidate for an argument: the attribute to read and the model whose
      generated object it is read from. */
  datatype Candidate = Candidate(attr: string, model: Option<ModelInfo>)

  function PkOf(models: seq<ModelInfo>): (r: seq<Candidate>)
    ensures |r| == |models|
    ensures forall k :: 0 <= k < |r| ==> r[k] == Candidate("pk", Some(models[k]))
  {
    seq(|models|, k requires 0 <= k < |models| => Candidate("pk", Some(models[k])))
  }

  function FieldsOf(fs: seq<FieldOf>): (r: seq<Candidate>)
    ensures |r| == |fs|
    ensures forall k :: 0 <= k < |r| ==> r[k] == Candidate(fs[k].0.name, Some(fs[k].1))
  {
    seq(|fs|, k requires 0 <= k < |fs| => Candidate(fs[k].0.name, Some(fs[k].1)))
  }

  /** `isinstance(field, IntegerField if arg_type == 'int' else (CharField, BooleanField))`. */
  predicate KindMatches(kind: FieldKind, argType: string) {
    if argType == "int" then kind == IntegerKind else kind == CharKind || kind == BooleanKind
  }

  /** The properties of the view model whose names start with the argument
      name; none without a view model. */
  function PropertiesOf(viewModel: Option<ModelInfo>, name: string): (r: seq<Candidate>)
    ensures forall c :: c in r ==> (viewModel.Some? && c.model == viewModel
      && c.attr in viewModel.value.properties && StartsWith(c.attr, name))
  {
    if viewModel.None? then []
    else
      var props := Filter(viewModel.value.properties, (p: string) => StartsWith(p, name));
      var r := seq(|props|, k requires 0 <= k < |props| => Candidate(props[k], viewModel));
      assert forall c :: c in r ==> (c.model == viewModel
        && c.attr in viewModel.value.properties && StartsWith(c.attr, name)) by {
        forall c | c in r ensures c.model == viewModel
          && c.attr in viewModel.value.properties && StartsWith(c.attr, name) {
          var k :| 0 <= k < |r| && r[k] == c;
          assert c.attr == props[k] && props[k] in props;
        }
      }
      r
  }

  /** Every candidate names the primary key, a field of its model, or a
      property of the view model. */
  predicate Grounded(c: Candidate, fields: seq<FieldOf>, viewModel: Option<ModelInfo>) {
    || c.attr == "pk"
    || (exists p :: p in fields && p.0.name == c.attr && c.model == Some(p.1))
    || (viewModel.Some? && c.model == viewModel && c.attr in viewModel.value.properties)
  }

  /** Candidates drawn from the given fields are grounded. */
  lemma {:induction false} FieldsOfGrounded(sub: seq<FieldOf>, fields: seq<FieldOf>, viewModel: Option<ModelInfo>)
    requires forall p :: p in sub ==> p in fields
    ensures forall c :: c in FieldsOf(sub) ==> Grounded(c, fields, viewModel)
  {
    var r := FieldsOf(sub);
    forall c | c in r ensures Grounded(c, fields, viewModel) {
      var k :| 0 <= k < |r| && r[k] == c;
      assert sub[k] in fields && sub[k].0.name == c.attr && c.model == Some(sub[k].1);
    }
  }

  /** Candidates drawn from fields that pass `keep` come from such fields. */
  lemma {:induction false} FieldsOfKept(sub: seq<FieldOf>, fields: seq<FieldOf>, keep: FieldOf -> bool)
    requires forall p :: p in sub ==> p in fields && keep(p)
    ensures forall c :: c in FieldsOf(sub) ==>
      exists p :: p in fields && keep(p) && c == Candidate(p.0.name, Some(p.1))
  {
    var r := FieldsOf(sub);
    forall c | c in r ensures exists p :: p in fields && keep(p) && c == Candidate(p.0.name, Some(p.1)) {
      var k :| 0 <= k < |r| && r[k] == c;
      assert sub[k] in sub;
    }
  }

  /** An argument named `<model>_pk`: the models whose short label, or failing
      a unique one, whose verbose name matches. */
  function PkByName(name: string, models: seq<ModelInfo>): (r: seq<Candidate>)
    ensures forall c :: c in r ==> (c.attr == "pk" && c.model.Some? && c.model.value in models
      && (name == ShortName(c.model.value) + "_pk" || name == VerboseKey(c.model.value) + "_pk"))
  {
    var byLabel := Filter(models, (m: ModelInfo) => name == ShortName(m) + "_pk");
    var chosen := if |byLabel| != 1 then Filter(models, (m: ModelInfo) => name == VerboseKey(m) + "_pk")
      else byLabel;
    var r := PkOf(chosen);
    assert forall c :: c in r ==> (c.attr == "pk" && c.model.Some? && c.model.value in chosen) by {
      forall c | c in r ensures c.attr == "pk" && c.model.Some? && c.model.value in chosen {
        var k :| 0 <= k < |r| && r[k] == c;
      }
    }
    r
  }

  /** The fallback steps once no field of the right kind has the argument's
      name: any non-proxy field of that name, then `<model>_<field>`, then a
      property of the view model, then a view-model field containing it. */
  function FallbackMatch(name: string, fields: seq<FieldOf>, viewModel: Option<ModelInfo>): (r: seq<Candidate>)
    ensures forall c :: c in r ==> Grounded(c, fields, viewModel)
    ensures (exists p :: p in fields && p.0.name == name && !p.1.proxy) ==>
      forall c :: c in r ==> c.attr == name && c.model.Some? && !c.model.value.proxy
  {
    var byName := Filter(fields, (p: FieldOf) => p.0.name == name && !p.1.proxy);
    if |byName| > 0 then
      FieldsOfGrounded(byName, fields, viewModel);
      FieldsOfKept(byName, fields, (p: FieldOf) => p.0.name == name && !p.1.proxy);
      FieldsOf(byName)
    else
      var byModelField := Filter(fields, (p: FieldOf) => name == ShortName(p.1) + "_" + p.0.name);
      if |byModelField| > 0 then
        FieldsOfGrounded(byModelField, fields, viewModel);
        FieldsOf(byModelField)
      else
        var props := PropertiesOf(viewModel, name);
        if |props| > 0 then props
        else
          var within := Filter(fields, (p: FieldOf) => Some(p.1) == viewModel && Contains(p.0.name, name));
          FieldsOfGrounded(within, fields, viewModel);
          FieldsOf(within)
  }

  /** An argument matched by field name: the fields of that name and of the
      argument's kind (narrowed to the view model when several), else the
      fallback steps. */
  function FieldMatch(argType: string, name: string, fields: seq<FieldOf>, viewModel: Option<ModelInfo>): (r: seq<Candidate>)
    ensures forall c :: c in r ==> Grounded(c, fields, viewModel)
    ensures (exists p :: p in fields && p.0.name == name && KindMatches(p.0.kind, argType)) ==>
      forall c :: c in r ==>
        exists p :: p in fields && p.0.name == name && KindMatches(p.0.kind, argType) && c == Candidate(name, Some(p.1))
  {
    var keep := (p: FieldOf) => p.0.name == name && KindMatches(p.0.kind, argType);
    var typed := Filter(fields, keep);
    if |typed| > 1 then
      var narrowed := Filter(typed, (p: FieldOf) => Some(p.1) == viewModel);
      FieldsOfGrounded(narrowed, fields, viewModel);
      FieldsOfKept(narrowed, fields, keep);
      FieldsOf(narrowed)
    else if |typed| == 1 then
      FieldsOfGrounded(typed, fields, viewModel);
      FieldsOfKept(typed, fields, keep);
      FieldsOf(typed)
    else
      FallbackMatch(name, fields, viewModel)
  }

  /** The matching cascade for an argument of a known converter, or a
      primary-key argument. */
  function MatchArg(
    arg: string, argType: string, name: string,
    models: seq<ModelInfo>, fields: seq<FieldOf>, viewModel: Option<ModelInfo>): (r: seq<Candidate>)
    ensures IsPk(arg) ==> r == [Candidate("pk", viewModel)]
    ensures forall c :: c in r ==> Grounded(c, fields, viewModel)
    ensures !IsPk(arg) && EndsWith(name, "_pk") ==> forall c :: c in r ==> (c.attr == "pk" && c.model.Some?
      && c.model.value in models
      && (name == ShortName(c.model.value) + "_pk" || name == VerboseKey(c.model.value) + "_pk"))
  {
    if IsPk(arg) then [Candidate("pk", viewModel)]
    else if EndsWith(name, "_pk") then PkByName(name, models)
    else FieldMatch(argType, name, fields, viewModel)
  }

  // ---------------------------------------------------------------------
  // Resolving the arguments

  datatype FailKind = UrlArgType | UrlArgMatch | UrlArgParse

  /** A failure record: one argument that could not be resolved, or the final
      comparison of resolved names against argument names. */
  datatype Fail =
    | ArgFail(kind: FailKind, arg: string)
    | ArgsParsed(args: seq<string>, parsed: map<string, Value>)

  /** The attribute values of the generated objects, by attribute name and
      model label; a missing entry is a missing object or a `None` value. */
  type Objects = map<(string, string), Value>

  /** `if arg_value in [True, False]: arg_value = str(arg_value)`. Python's
      `1 == True` and `0 == False` make the integers 1 and 0 strings too. */
  function Normalize(v: Value): (r: Value)
    ensures !r.BoolValue?
    ensures r.StrValue? <==> v.StrValue? || v.BoolValue? || v == IntValue(0) || v == IntValue(1)
    ensures v.BoolValue? ==> r.s == if v.b then "True" else "False"
    ensures v == IntValue(1) ==> r.s == "1"
    ensures v == IntValue(0) ==> r.s == "0"
    ensures r.IntValue? || v.StrValue? ==> r == v
  {
    match v
    case BoolValue(b) => StrValue(if b then "True" else "False")
    case IntValue(i) => if i == 0 || i == 1 then StrValue(if i == 1 then "1" else "0") else v
    case StrValue(_) => v
  }

  /** What the loop over the arguments has gathered so far. */
  datatype Progress = Progress(kwargs: map<string, Value>, fails: seq<Fail>)

  /** The inputs the loop consults. */
  datatype Env = Env(pathName: string, models: seq<ModelInfo>, fields: seq<FieldOf>,
                     viewModel: Option<ModelInfo>, objects: Objects)

  /** Some argument of `args[i..]` has more than one ':'. */
  predicate Unsplittable(args: seq<string>, i: nat) {
    exists k :: i <= k < |args| && multiset(args[k])[':'] >= 2
  }

  /** A non-pk argument whose converter is not int, str or slug. */
  predicate UnknownConverter(arg: string) {
    SplitArg(arg).Success? && !IsPk(arg) && !KnownConverter(SplitArg(arg).value.0)
  }

  /** The argument names of `args[i..j]`. */
  predicate NameAmong(n: string, args: seq<string>, i: nat, j: nat) {
    exists k :: i <= k < j && k < |args| && ArgName(args[k]) == n
  }

  /** The value the loop binds an argument's name to, if any: the argument
      splits, its converter is handled (or it is a pk), exactly one candidate
      with a model matches, and the generated object has that attribute. */
  function Resolution(arg: string, env: Env): Option<Value> {
    match SplitArg(arg)
    case Failure(_) => None
    case Success(tn) =>
      if !IsPk(arg) && !KnownConverter(tn.0) then None
      else
        var cands := MatchArg(arg, tn.0, tn.1, env.models, env.fields, env.viewModel);
        if |cands| == 1 && cands[0].model.Some? && (cands[0].attr, cands[0].model.value.modelLabel) in env.objects
        then Some(Normalize(env.objects[(cands[0].attr, cands[0].model.value.modelLabel)]))
        else None
  }

  /** The name of `args[k]` is bound in `kw` to the argument's resolution,
      when it has one. */
  predicate Binds(args: seq<string>, k: nat, env: Env, kw: map<string, Value>)
    requires k < |args|
  {
    Resolution(args[k], env).Some? ==>
      ArgName(args[k]) in kw && kw[ArgName(args[k])] == Resolution(args[k], env).value
  }

  /** `args[k]` is reached with its name unbound: not bound in `kw` and not
      the name of an argument in `args[i..k]`. */
  predicate FirstUnbound(args: seq<string>, i: nat, k: nat, kw: map<string, Value>) {
    i <= k < |args| && ArgName(args[k]) !in kw && !NameAmong(ArgName(args[k]), args, i, k)
  }

  /** Some argument of `args[i..]` has name `n` and resolves to `v`. */
  predicate BoundBy(args: seq<string>, i: nat, env: Env, n: string, v: Value) {
    exists k :: i <= k < |args| && ArgName(args[k]) == n && Resolution(args[k], env) == Some(v)
  }

  /** One iteration of the loop for an argument that splits into `t` and
      `name` and is not resolved yet. */
  function ResolveOne(arg: string, t: string, name: string, env: Env, st: Progress): (r: Progress)
    ensures r.kwargs.Keys <= st.kwargs.Keys + {name}
    ensures forall n :: n in st.kwargs ==> n in r.kwargs && r.kwargs[n] == st.kwargs[n]
    ensures name in r.kwargs && name !in st.kwargs ==> r.fails == st.fails
    ensures name !in r.kwargs ==> (|r.fails| == |st.fails| + 1 && r.fails[..|st.fails|] == st.fails
      && r.fails[|st.fails|].ArgFail? && r.fails[|st.fails|].arg == arg)
    ensures |st.fails| <= |r.fails| <= |st.fails| + 1 && r.fails[..|st.fails|] == st.fails
    ensures forall k :: |st.fails| <= k < |r.fails| ==> r.fails[k].ArgFail? && r.fails[k].arg == arg
    ensures !IsPk(arg) && !KnownConverter(t) ==> r == Progress(st.kwargs, st.fails + [ArgFail(UrlArgType, arg)])
    ensures name !in st.kwargs && name in r.kwargs ==> exists c :: (Grounded(c, env.fields, env.viewModel)
      && c.model.Some? && (c.attr, c.model.value.modelLabel) in env.objects
      && r.kwargs[name] == Normalize(env.objects[(c.attr, c.model.value.modelLabel)]))
    ensures IsPk(arg) || KnownConverter(t) ==>
      var cands := MatchArg(arg, t, name, env.models, env.fields, env.viewModel);
      && (|cands| != 1 || cands[0].model.None? ==> r == Progress(st.kwargs, st.fails + [ArgFail(UrlArgMatch, arg)]))
      && (|cands| == 1 && cands[0].model.Some? ==>
            var key := (cands[0].attr, cands[0].model.value.modelLabel);
            && (key !in env.objects ==> r == Progress(st.kwargs, st.fails + [ArgFail(UrlArgParse, arg)]))
            && (key in env.objects && name !in st.kwargs ==>
                  r == Progress(st.kwargs[name := Normalize(env.objects[key])], st.fails)))
  {
    if !IsPk(arg) && !KnownConverter(t) then
      Progress(st.kwargs, st.fails + [ArgFail(UrlArgType, arg)])
    else
      var cands := MatchArg(arg, t, name, env.models, env.fields, env.viewModel);
      if |cands| != 1 || cands[0].model.None? then
        Progress(st.kwargs, st.fails + [ArgFail(UrlArgMatch, arg)])
      else
        var c := cands[0];
        assert c in cands;
        var key := (c.attr, c.model.value.modelLabel);
        if key !in env.objects then
          Progress(st.kwargs, st.fails + [ArgFail(UrlArgParse, arg)])
        else if name in st.kwargs then st
        else Progress(st.kwargs[name := Normalize(env.objects[key])], st.fails)
  }

  /** For an argument that reaches the loop with its name unbound, one
      iteration binds the name exactly when the argument has a resolution,
      and binds it to that resolution. */
  lemma ResolveOneResolution(arg: string, t: string, name: string, env: Env, st: Progress)
    requires SplitArg(arg) == Success((t, name))
    ensures var r := ResolveOne(arg, t, name, env, st);
      name !in st.kwargs ==>
      && (name in r.kwargs <==> Resolution(arg, env).Some?)
      && (name in r.kwargs ==> r.kwargs[name] == Resolution(arg, env).value)
  {
    var r := ResolveOne(arg, t, name, env, st);
    if name !in st.kwargs && (IsPk(arg) || KnownConverter(t)) {
      var cands := MatchArg(arg, t, name, env.models, env.fields, env.viewModel);
      if |cands| == 1 && cands[0].model.Some? {
        var key := (cands[0].attr, cands[0].model.value.modelLabel);
        if key in env.objects {
          assert Resolution(arg, env) == Some(Normalize(env.objects[key]));
          assert r.kwargs == st.kwargs[name := Normalize(env.objects[key])];
        } else {
          assert Resolution(arg, env).None? && r.kwargs == st.kwargs;
        }
      } else {
        assert Resolution(arg, env).None? && r.kwargs == st.kwargs;
      }
    }
  }

  /** The `for arg in args` loop of `prepare_url`, from position `i` on. An
      argument whose name is already resolved is passed over; the unpacking of
      an argument with more than one ':' raises. */
  function ResolveFrom(args: seq<string>, i: nat, env: Env, st: Progress): (r: Result<Progress, Unpack>)
    requires i <= |args|
    ensures r.Failure? <==> Unsplittable(args, i)
    ensures r.Success? ==> forall n :: n in r.value.kwargs ==> n in st.kwargs || NameAmong(n, args, i, |args|)
    ensures r.Success? ==> forall n :: n in st.kwargs ==> n in r.value.kwargs && r.value.kwargs[n] == st.kwargs[n]
    ensures r.Success? ==> st.fails <= r.value.fails
    ensures r.Success? ==> forall k :: (i <= k < |args| && UnknownConverter(args[k])
      && ArgName(args[k]) !in st.kwargs && !NameAmong(ArgName(args[k]), args, i, k)
      ==> ArgFail(UrlArgType, args[k]) in r.value.fails)
    ensures r.Success? ==> forall k :: FirstUnbound(args, i, k, st.kwargs) ==> Binds(args, k, env, r.value.kwargs)
    ensures r.Success? ==> forall n :: n in r.value.kwargs && n !in st.kwargs ==> BoundBy(args, i, env, n, r.value.kwargs[n])
    decreases |args| - i
  {
    if i == |args| then Success(st)
    else
      var arg := args[i];
      match SplitArg(arg)
      case Failure(e) => Failure(e)
      case Success(tn) =>
        var st' := if tn.1 in st.kwargs then st else ResolveOne(arg, tn.0, tn.1, env, st);
        ResolveOneResolution(arg, tn.0, tn.1, env, st);
        StepIsOk(args, i, env, st);
        var r := ResolveFrom(args, i + 1, env, st');
        ResolveFromFacts(args, i, st, st', r);
        if r.Success? then
          assert tn.1 !in st.kwargs ==> Binds(args, i, env, st'.kwargs);
          BindsFromStep(args, i, env, st, st', r.value.kwargs);
          BoundFromStep(args, i, env, st, st', r.value.kwargs);
          r
        else r
  }

  /** Every name the loop binds from `i` on comes from an argument that
      resolves to the bound value. */
  lemma {:induction false} BoundFromStep(args: seq<string>, i: nat, env: Env, st: Progress, st': Progress, kw: map<string, Value>)
    requires i < |args| && SplitArg(args[i]).Success?
    requires StepOk(args, i, st, st')
    requires ArgName(args[i]) !in st.kwargs ==> Binds(args, i, env, st'.kwargs)
    requires ArgName(args[i]) in st'.kwargs && ArgName(args[i]) !in st.kwargs ==> Resolution(args[i], env).Some?
    requires forall n :: n in st'.kwargs ==> n in kw && kw[n] == st'.kwargs[n]
    requires forall n :: n in kw && n !in st'.kwargs ==> BoundBy(args, i + 1, env, n, kw[n])
    ensures forall n :: n in kw && n !in st.kwargs ==> BoundBy(args, i, env, n, kw[n])
  {
    forall n | n in kw && n !in st.kwargs ensures BoundBy(args, i, env, n, kw[n]) {
      if n in st'.kwargs {
        assert n == ArgName(args[i]);
      } else {
        var k :| i + 1 <= k < |args| && ArgName(args[k]) == n && Resolution(args[k], env) == Some(kw[n]);
      }
    }
  }

  /** The bindings of the rest of the loop, together with the step's own,
      cover every argument from `i` on that is reached unbound. */
  lemma {:induction false} BindsFromStep(args: seq<string>, i: nat, env: Env, st: Progress, st': Progress, kw: map<string, Value>)
    requires i < |args| && SplitArg(args[i]).Success?
    requires StepOk(args, i, st, st')
    requires ArgName(args[i]) !in st.kwargs ==> Binds(args, i, env, st'.kwargs)
    requires forall n :: n in st'.kwargs ==> n in kw && kw[n] == st'.kwargs[n]
    requires forall k :: FirstUnbound(args, i + 1, k, st'.kwargs) ==> Binds(args, k, env, kw)
    ensures forall k :: FirstUnbound(args, i, k, st.kwargs) ==> Binds(args, k, env, kw)
  {
    forall k: nat | FirstUnbound(args, i, k, st.kwargs) ensures Binds(args, k, env, kw) {
      if k > i {
        assert ArgName(args[i]) != ArgName(args[k]);
        NameAmongWiden(ArgName(args[k]), args, i, k);
        assert FirstUnbound(args, i + 1, k, st'.kwargs);
      }
    }
  }

  /** What one step of the loop does to the gathered state, as far as the
      loop's contract needs: it binds at most the argument's own name, keeps
      earlier bindings and failures, and reports an unknown converter. */
  predicate StepOk(args: seq<string>, i: nat, st: Progress, st': Progress)
    requires i < |args| && SplitArg(args[i]).Success?
  {
    var tn := SplitArg(args[i]).value;
    && st'.kwargs.Keys <= st.kwargs.Keys + {tn.1}
    && (forall n :: n in st.kwargs ==> n in st'.kwargs && st'.kwargs[n] == st.kwargs[n])
    && st.fails <= st'.fails
    && (tn.1 !in st.kwargs && !IsPk(args[i]) && !KnownConverter(tn.0) ==>
          tn.1 !in st'.kwargs && ArgFail(UrlArgType, args[i]) in st'.fails)
  }

  lemma {:induction false} StepIsOk(args: seq<string>, i: nat, env: Env, st: Progress)
    requires i < |args| && SplitArg(args[i]).Success?
    ensures var tn := SplitArg(args[i]).value;
      StepOk(args, i, st, if tn.1 in st.kwargs then st else ResolveOne(args[i], tn.0, tn.1, env, st))
  {
    var tn := SplitArg(args[i]).value;
    if tn.1 !in st.kwargs {
      var r := ResolveOne(args[i], tn.0, tn.1, env, st);
      assert st.fails <= r.fails by {
        assert r.fails[..|st.fails|] == st.fails;
      }
      if !IsPk(args[i]) && !KnownConverter(tn.0) {
        assert r.fails == st.fails + [ArgFail(UrlArgType, args[i])];
        assert r.fails[|st.fails|] == ArgFail(UrlArgType, args[i]);
      }
      assert StepOk(args, i, st, r);
    }
  }

  lemma {:induction false} ResolveFromFacts(args: seq<string>, i: nat, st: Progress, st': Progress, r: Result<Progress, Unpack>)
    requires i < |args| && SplitArg(args[i]).Success?
    requires StepOk(args, i, st, st')
    requires r.Failure? <==> Unsplittable(args, i + 1)
    requires r.Success? ==> forall n :: n in r.value.kwargs ==> n in st'.kwargs || NameAmong(n, args, i + 1, |args|)
    requires r.Success? ==> forall n :: n in st'.kwargs ==> n in r.value.kwargs && r.value.kwargs[n] == st'.kwargs[n]
    requires r.Success? ==> st'.fails <= r.value.fails
    requires r.Success? ==> forall k :: (i + 1 <= k < |args| && UnknownConverter(args[k])
      && ArgName(args[k]) !in st'.kwargs && !NameAmong(ArgName(args[k]), args, i + 1, k)
      ==> ArgFail(UrlArgType, args[k]) in r.value.fails)
    ensures r.Failure? <==> Unsplittable(args, i)
    ensures r.Success? ==> forall n :: n in r.value.kwargs ==> n in st.kwargs || NameAmong(n, args, i, |args|)
    ensures r.Success? ==> forall n :: n in st.kwargs ==> n in r.value.kwargs && r.value.kwargs[n] == st.kwargs[n]
    ensures r.Success? ==> st.fails <= r.value.fails
    ensures r.Success? ==> forall k :: (i <= k < |args| && UnknownConverter(args[k])
      && ArgName(args[k]) !in st.kwargs && !NameAmong(ArgName(args[k]), args, i, k)
      ==> ArgFail(UrlArgType, args[k]) in r.value.fails)
  {
    assert Unsplittable(args, i) <==> Unsplittable(args, i + 1) by {
      assert multiset(args[i])[':'] < 2;
    }
    if r.Success? {
      KeysFromStep(args, i, st, st', r.value.kwargs);
      TypeFailsFromStep(args, i, st, st', r.value.fails);
    }
  }

  /** A key bound after a step was bound before it or is an argument name
      from position `i` on. */
  lemma {:induction false} KeysFromStep(args: seq<string>, i: nat, st: Progress, st': Progress, kw: map<string, Value>)
    requires i < |args| && SplitArg(args[i]).Success?
    requires StepOk(args, i, st, st')
    requires forall n :: n in kw ==> n in st'.kwargs || NameAmong(n, args, i + 1, |args|)
    ensures forall n :: n in kw ==> n in st.kwargs || NameAmong(n, args, i, |args|)
  {
    var name := SplitArg(args[i]).value.1;
    forall n | n in kw ensures n in st.kwargs || NameAmong(n, args, i, |args|) {
      if n !in st'.kwargs {
        var k :| i + 1 <= k < |args| && k < |args| && ArgName(args[k]) == n;
      } else if n !in st.kwargs {
        assert n == name && ArgName(args[i]) == n;
      }
    }
  }

  /** A name among `args[i+1..j]` is among `args[i..j]`. */
  lemma {:induction false} NameAmongWiden(n: string, args: seq<string>, i: nat, j: nat)
    ensures NameAmong(n, args, i + 1, j) ==> NameAmong(n, args, i, j)
  {
    if NameAmong(n, args, i + 1, j) {
      var k :| i + 1 <= k < j && k < |args| && ArgName(args[k]) == n;
    }
  }

  /** The URL ARG TYPE reports of the rest of the loop, together with the
      step's own, cover every first-seen unknown converter from `i` on. */
  lemma {:induction false} TypeFailsFromStep(args: seq<string>, i: nat, st: Progress, st': Progress, fails: seq<Fail>)
    requires i < |args| && SplitArg(args[i]).Success?
    requires StepOk(args, i, st, st')
    requires st'.fails <= fails
    requires forall k :: (i + 1 <= k < |args| && UnknownConverter(args[k])
      && ArgName(args[k]) !in st'.kwargs && !NameAmong(ArgName(args[k]), args, i + 1, k)
      ==> ArgFail(UrlArgType, args[k]) in fails)
    ensures forall k :: (i <= k < |args| && UnknownConverter(args[k])
      && ArgName(args[k]) !in st.kwargs && !NameAmong(ArgName(args[k]), args, i, k)
      ==> ArgFail(UrlArgType, args[k]) in fails)
  {
    forall k | i <= k < |args| && UnknownConverter(args[k])
      && ArgName(args[k]) !in st.kwargs && !NameAmong(ArgName(args[k]), args, i, k)
      ensures ArgFail(UrlArgType, args[k]) in fails
    {
      if k == i {
        TypeFailHere(args, i, st, st', fails);
      } else {
        assert ArgName(args[i]) != ArgName(args[k]);
        assert ArgName(args[k]) !in st'.kwargs;
        NameAmongWiden(ArgName(args[k]), args, i, k);
      }
    }
  }

  /** The step itself reports an unknown converter on an unbound name. */
  lemma {:induction false} TypeFailHere(args: seq<string>, i: nat, st: Progress, st': Progress, fails: seq<Fail>)
    requires i < |args| && SplitArg(args[i]).Success?
    requires StepOk(args, i, st, st')
    requires st'.fails <= fails
    requires UnknownConverter(args[i]) && ArgName(args[i]) !in st.kwargs
    ensures ArgFail(UrlArgType, args[i]) in fails
  {
    var j :| 0 <= j < |st'.fails| && st'.fails[j] == ArgFail(UrlArgType, args[i]);
    assert fails[j] == st'.fails[j];
  }

  // ---------------------------------------------------------------------
  // prepare_url

  /** The entries of a parameter map `prepare_url` reads: positional `args`
      and keyword `url_kwargs`. */
  datatype ParamsMap = ParamsMap(args: Option<seq<Value>>, urlKwargs: Option<map<string, Value>>)

  /** The set of argument names. */
  function NameSet(args: seq<string>): set<string> {
    set k | 0 <= k < |args| :: ArgName(args[k])
  }

  function Names(args: seq<string>): (r: seq<string>)
    ensures |r| == |args|
    ensures forall k :: 0 <= k < |args| ==> r[k] == ArgName(args[k])
  {
    seq(|args|, k requires 0 <= k < |args| => ArgName(args[k]))
  }

  /** `{arg: value for arg, value in zip(names, values)}`: pairs up to the
      shorter list, a later pair overwriting an earlier one with the same name. */
  function ZipMap(ns: seq<string>, vs: seq<Value>): (m: map<string, Value>)
    ensures forall n :: n in m ==> n in ns[..Min(|ns|, |vs|)]
    ensures forall k :: 0 <= k < Min(|ns|, |vs|) ==> ns[k] in m
  {
    ZipPrefix(ns, vs, Min(|ns|, |vs|))
  }

  /** The dictionary after the first `l` pairs. */
  function ZipPrefix(ns: seq<string>, vs: seq<Value>, l: nat): (m: map<string, Value>)
    requires l <= |ns| && l <= |vs|
    ensures forall n :: n in m ==> n in ns[..l]
    ensures forall k :: 0 <= k < l ==> ns[k] in m
  {
    if l == 0 then map[]
    else
      assert ns[..l] == ns[..l - 1] + [ns[l - 1]];
      ZipPrefix(ns, vs, l - 1)[ns[l - 1] := vs[l - 1]]
  }

  /** A name is bound to the value paired with its last occurrence. */
  lemma {:induction false} ZipMapLast(ns: seq<string>, vs: seq<Value>, k: nat)
    requires k < Min(|ns|, |vs|)
    requires forall j :: k < j < Min(|ns|, |vs|) ==> ns[j] != ns[k]
    ensures ZipMap(ns, vs)[ns[k]] == vs[k]
  {
    ZipPrefixLast(ns, vs, Min(|ns|, |vs|), k);
  }

  /** The same after the first `l` pairs. */
  lemma {:induction false} ZipPrefixLast(ns: seq<string>, vs: seq<Value>, l: nat, k: nat)
    requires l <= |ns| && l <= |vs| && k < l
    requires forall j :: k < j < l ==> ns[j] != ns[k]
    ensures ZipPrefix(ns, vs, l)[ns[k]] == vs[k]
    decreases l
  {
    if k < l - 1 {
      ZipPrefixLast(ns, vs, l - 1, k);
    }
  }

  /** The keyword arguments before any matching: `url_kwargs` restricted to
      the argument names when given, else the positional `args` zipped with
      the names (no positional values when the pattern has no arguments). */
  function InitialKwargs(args: seq<string>, pm: ParamsMap): (kw: map<string, Value>)
    ensures kw.Keys <= NameSet(args)
    ensures pm.urlKwargs.Some? ==> forall n :: n in kw <==> n in pm.urlKwargs.value && n in NameSet(args)
    ensures pm.urlKwargs.Some? ==> forall n :: n in kw ==> kw[n] == pm.urlKwargs.value[n]
    ensures pm.urlKwargs.None? ==> kw == ZipMap(Names(args), if pm.args.None? || |args| == 0 then [] else pm.args.value)
  {
    if pm.urlKwargs.Some? then
      var names := NameSet(args);
      map n | n in pm.urlKwargs.value && n in names :: pm.urlKwargs.value[n]
    else
      var positional := if pm.args.None? || |args| == 0 then [] else pm.args.value;
      var ns := Names(args);
      var kw := ZipMap(ns, positional);
      assert forall n :: n in kw ==> n in NameSet(args) by {
        forall n | n in kw ensures n in NameSet(args) {
          var k :| 0 <= k < |ns| && ns[k] == n;
        }
      }
      kw
  }

  /** Every failure in `fails` is about one of `args`. */
  predicate ArgFailsIn(fails: seq<Fail>, args: seq<string>) {
    forall k :: 0 <= k < |fails| ==> fails[k].ArgFail? && fails[k].arg in args
  }

  /** One step of the loop keeps every failure about an argument. */
  lemma {:induction false} StepArgFails(args: seq<string>, i: nat, env: Env, st: Progress)
    requires i < |args| && SplitArg(args[i]).Success?
    requires ArgFailsIn(st.fails, args)
    ensures var tn := SplitArg(args[i]).value;
      ArgFailsIn((if tn.1 in st.kwargs then st else ResolveOne(args[i], tn.0, tn.1, env, st)).fails, args)
  {
    var tn := SplitArg(args[i]).value;
    if tn.1 !in st.kwargs {
      var fs := ResolveOne(args[i], tn.0, tn.1, env, st).fails;
      var n := |st.fails|;
      assert fs[..n] == st.fails;
      forall k | 0 <= k < |fs| ensures fs[k].ArgFail? && fs[k].arg in args {
        if k < n {
          assert fs[k] == fs[..n][k];
        }
      }
    }
  }

  /** The loop reports only per-argument failures, each about an argument of
      the pattern. */
  lemma {:induction false} ArgFailsOnly(args: seq<string>, i: nat, env: Env, st: Progress)
    requires i <= |args|
    requires ArgFailsIn(st.fails, args)
    requires ResolveFrom(args, i, env, st).Success?
    ensures ArgFailsIn(ResolveFrom(args, i, env, st).value.fails, args)
    decreases |args| - i
  {
    if i < |args| {
      var tn := SplitArg(args[i]).value;
      var st' := if tn.1 in st.kwargs then st else ResolveOne(args[i], tn.0, tn.1, env, st);
      StepArgFails(args, i, env, st);
      ArgFailsOnly(args, i + 1, env, st');
    }
  }

  /** The result of `prepare_url` as far as its arguments go: the resolved
      keyword arguments and the failures reported. */
  datatype Prepared = Prepared(kwargs: map<string, Value>, fails: seq<Fail>)

  /** Whether `prepare_url` enters its matching loop. */
  predicate Matches(args: seq<string>, pm: ParamsMap) {
    |args| > 0 && InitialKwargs(args, pm).Keys != NameSet(args)
  }

  /** The matching loop, entered only when some argument name is not yet
      bound. */
  function Resolved(args: seq<string>, pm: ParamsMap, env: Env): (r: Result<Progress, Unpack>)
    ensures r.Failure? <==> Matches(args, pm) && Unsplittable(args, 0)
    ensures r.Success? ==> r.value.kwargs.Keys <= NameSet(args)
    ensures r.Success? ==> ArgFailsIn(r.value.fails, args)
    ensures r.Success? ==> forall n :: n in InitialKwargs(args, pm) ==>
      n in r.value.kwargs && r.value.kwargs[n] == InitialKwargs(args, pm)[n]
    ensures !Matches(args, pm) ==> r == Success(Progress(InitialKwargs(args, pm), []))
    ensures r.Success? ==> forall k :: FirstUnbound(args, 0, k, InitialKwargs(args, pm)) ==> Binds(args, k, env, r.value.kwargs)
    ensures r.Success? ==> forall n :: n in r.value.kwargs && n !in InitialKwargs(args, pm) ==>
      BoundBy(args, 0, env, n, r.value.kwargs[n])
  {
    var kw := InitialKwargs(args, pm);
    if Matches(args, pm) then
      var r := ResolveFrom(args, 0, env, Progress(kw, []));
      if r.Success? then
        ArgFailsOnly(args, 0, env, Progress(kw, []));
        assert forall n :: n in r.value.kwargs ==> n in NameSet(args) by {
          forall n | n in r.value.kwargs ensures n in NameSet(args) {
            if n !in kw {
              var k :| 0 <= k < |args| && ArgName(args[k]) == n;
            }
          }
        }
        r
      else r
    else
      assert forall k :: 0 <= k < |args| ==> ArgName(args[k]) in NameSet(args);
      Success(Progress(kw, []))
  }

  /** `prepare_url(path_name, ...)` without the final `reverse`: the keyword
      arguments are restricted to the argument names; a name left unresolved
      is reported as URL ARGS PARSED, and only then; supplied keyword
      arguments are kept; an argument with two colons raises. */
  function PrepareUrlArgs(
    pathName: string, args: seq<string>, view: ViewInfo, pm: ParamsMap,
    models: seq<ModelInfo>, fields: seq<FieldOf>, objects: Objects): (r: Result<Prepared, Unpack>)
    ensures r.Failure? <==> Matches(args, pm) && Unsplittable(args, 0)
    ensures r.Success? ==> r.value.kwargs.Keys <= NameSet(args)
    ensures r.Success? ==> ((exists k :: 0 <= k < |r.value.fails| && r.value.fails[k].ArgsParsed?)
                            <==> r.value.kwargs.Keys != NameSet(args))
    ensures r.Success? ==> forall n :: n in InitialKwargs(args, pm) ==>
      n in r.value.kwargs && r.value.kwargs[n] == InitialKwargs(args, pm)[n]
    ensures r.Success? && !Matches(args, pm) ==> r.value == Prepared(InitialKwargs(args, pm), [])
    ensures r.Success? ==> var env := Env(pathName, models, fields, ViewModel(view, models, pathName), objects);
      && (forall k :: FirstUnbound(args, 0, k, InitialKwargs(args, pm)) ==> Binds(args, k, env, r.value.kwargs))
      && (forall n :: n in r.value.kwargs && n !in InitialKwargs(args, pm) ==> BoundBy(args, 0, env, n, r.value.kwargs[n]))
  {
    var env := Env(pathName, models, fields, ViewModel(view, models, pathName), objects);
    var st :- Resolved(args, pm, env);
    if NameSet(args) != st.kwargs.Keys then
      var fails := st.fails + [ArgsParsed(args, st.kwargs)];
      assert fails[|st.fails|].ArgsParsed?;
      Success(Prepared(st.kwargs, fails))
    else
      Success(Prepared(st.kwargs, st.fails))
  }

  /** An argument of an unknown converter is reported as URL ARG TYPE when
      the loop reaches it unresolved: its name was not supplied and no earlier
      argument has the same name. */
  lemma {:induction false} UnknownConverterReported(
    pathName: string, args: seq<string>, view: ViewInfo, pm: ParamsMap,
    models: seq<ModelInfo>, fields: seq<FieldOf>, objects: Objects, k: nat)
    requires Matches(args, pm) && !Unsplittable(args, 0)
    requires k < |args| && UnknownConverter(args[k])
    requires ArgName(args[k]) !in InitialKwargs(args, pm)
    requires forall j :: 0 <= j < k ==> ArgName(args[j]) != ArgName(args[k])
    ensures PrepareUrlArgs(pathName, args, view, pm, models, fields, objects).Success?
    ensures ArgFail(UrlArgType, args[k]) in PrepareUrlArgs(pathName, args, view, pm, models, fields, objects).value.fails
  {
    var env := Env(pathName, models, fields, ViewModel(view, models, pathName), objects);
    var st := ResolveFrom(args, 0, env, Progress(InitialKwargs(args, pm), []));
    assert !NameAmong(ArgName(args[k]), args, 0, k);
    assert ArgFail(UrlArgType, args[k]) in st.value.fails;
  }

  /** An argument the loop reaches unresolved is generated: when it resolves,
      its name is bound to that value. */
  lemma {:induction false} ArgumentGenerated(
    pathName: string, args: seq<string>, view: ViewInfo, pm: ParamsMap,
    models: seq<ModelInfo>, fields: seq<FieldOf>, objects: Objects, k: nat, v: Value)
    requires !Unsplittable(args, 0)
    requires k < |args| && ArgName(args[k]) !in InitialKwargs(args, pm)
    requires forall j :: 0 <= j < k ==> ArgName(args[j]) != ArgName(args[k])
    requires Resolution(args[k], Env(pathName, models, fields, ViewModel(view, models, pathName), objects)) == Some(v)
    ensures var r := PrepareUrlArgs(pathName, args, view, pm, models, fields, objects);
      r.Success? && ArgName(args[k]) in r.value.kwargs && r.value.kwargs[ArgName(args[k])] == v
  {
    var env := Env(pathName, models, fields, ViewModel(view, models, pathName), objects);
    var r := PrepareUrlArgs(pathName, args, view, pm, models, fields, objects);
    assert r.Success?;
    assert !NameAmong(ArgName(args[k]), args, 0, k);
    assert FirstUnbound(args, 0, k, InitialKwargs(args, pm));
    assert Binds(args, k, env, r.value.kwargs);
  }
}
