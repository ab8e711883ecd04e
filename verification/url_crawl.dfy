/** The depth-first walk over a URL configuration (`crawl_urls_with_action`),
    the naming of URL patterns (`get_url_name`), the skip predicate
    (`skip_url`) and the filters `collect_url` applies before it records a URL. */
module UrlCrawl {
  import opened Wrappers
  import opened Strings

  /** How the view of a URL pattern was registered: a class-based view exposes
      `view_class`, a REST framework view set exposes `cls`, and anything else
      (an API root function, say) exposes neither. */
  datatype Callback = ViewClass | ViewSet | PlainFunction

  /** An entry of a URL configuration: a resolver (an `include(...)`) with its
      namespace, application name, pattern prefix and children; a leaf pattern
      with its name, pattern and view; or anything else, which is ignored. */
  datatype Node =
    | Resolver(namespace: Option<string>, appName: Option<string>, pattern: string, children: seq<Node>)
    | Leaf(name: Option<string>, pattern: string, callback: Callback)
    | Other

  /** The four keyword filters of the crawl; `None` switches a filter off. */
  datatype Filters = Filters(
    filterNamespace: Option<string>,
    excludeNamespace: Option<string>,
    filterAppName: Option<string>,
    excludeAppName: Option<string>)

  const NoFilters := Filters(None, None, None, None)

  /** What the crawl has accumulated on its way down: the concatenated pattern
      prefix and the ':'-joined namespaces and application names. */
  datatype Context = Context(pattern: string, namespace: string, appName: string)

  const Top := Context("", "", "")

  /** One call of the action: the leaf, its full pattern and its URL name. */
  datatype Visit = Visit(leaf: Node, pattern: string, urlName: string)

  /** A resolver whose namespace or application name is excluded is pruned
      together with everything below it. */
  predicate Excluded(f: Filters, r: Node)
    requires r.Resolver?
  {
    (f.excludeNamespace.Some? && Some(f.excludeNamespace.value) == r.namespace)
    || (f.excludeAppName.Some? && Some(f.excludeAppName.value) == r.appName)
  }

  /** The context the children of resolver `r` are crawled in; a missing
      namespace or application name contributes an empty segment. */
  function Enter(ctx: Context, r: Node): Context
    requires r.Resolver?
  {
    Context(ctx.pattern + r.pattern,
            ctx.namespace + ":" + r.namespace.GetOr(""),
            ctx.appName + ":" + r.appName.GetOr(""))
  }

  /** A leaf is handed to the action only when the accumulated namespace and
      application name contain the respective filter strings. */
  predicate LeafKept(f: Filters, ctx: Context) {
    (f.filterNamespace.None? || Contains(ctx.namespace, f.filterNamespace.value))
    && (f.filterAppName.None? || Contains(ctx.appName, f.filterAppName.value))
  }

  /** `get_url_name`: the namespace and the leaf name joined by ':', with the
      colons at both ends stripped. */
  function UrlName(name: Option<string>, parentNamespace: string): (r: string)
    ensures Bare(r)
  {
    Strip(parentNamespace + ":" + name.GetOr(""), ':')
  }

  /** The call the action receives for a leaf kept in context `ctx`. */
  function VisitOf(leaf: Node, ctx: Context): Visit
    requires leaf.Leaf?
  {
    Visit(leaf, ctx.pattern + leaf.pattern, UrlName(leaf.name, Strip(ctx.namespace, ':')))
  }

  /** `crawl_urls_with_action` over a list of entries, as the sequence of
      calls the action receives. */
  function CrawlList(nodes: seq<Node>, ctx: Context, f: Filters): (r: seq<Visit>)
    ensures forall k :: 0 <= k < |r| ==> r[k].leaf.Leaf? && Bare(r[k].urlName)
    decreases nodes
  {
    if |nodes| == 0 then []
    else CrawlNode(nodes[0], ctx, f) + CrawlList(nodes[1..], ctx, f)
  }

  /** The calls one entry of the list gives rise to. */
  function CrawlNode(n: Node, ctx: Context, f: Filters): (r: seq<Visit>)
    ensures forall k :: 0 <= k < |r| ==> r[k].leaf.Leaf? && Bare(r[k].urlName)
    ensures n.Other? ==> r == []
    ensures n.Resolver? && Excluded(f, n) ==> r == []
    ensures n.Leaf? ==> |r| <= 1 && (|r| == 1 <==> LeafKept(f, ctx))
    ensures n.Leaf? && |r| == 1 ==> r[0].leaf == n && r[0].pattern == ctx.pattern + n.pattern
    decreases n
  {
    match n
    case Resolver(_, _, _, children) =>
      if Excluded(f, n) then [] else CrawlList(children, Enter(ctx, n), f)
    case Leaf(_, _, _) => CrawlLeaf(n, ctx, f)
    case Other => []
  }

  /** A leaf gives rise to one call when its context passes the filters. */
  function CrawlLeaf(n: Node, ctx: Context, f: Filters): (r: seq<Visit>)
    requires n.Leaf?
    ensures |r| <= 1
    ensures forall k :: 0 <= k < |r| ==> r[k].leaf == n && Bare(r[k].urlName)
  {
    if LeafKept(f, ctx) then [VisitOf(n, ctx)] else []
  }

  /** What the crawl is started on: a resolver (which contributes only its
      children) or a plain list of entries. */
  datatype UrlSource = FromResolver(root: Node) | FromList(entries: seq<Node>)

  /** Entry point of the crawl. A root that is not a resolver cannot be
      iterated, which Python reports as a TypeError. */
  function Crawl(urls: UrlSource, ctx: Context, f: Filters): (r: Result<seq<Visit>, string>)
    ensures urls.FromResolver? && urls.root.Resolver? ==>
      r == Success(Expected(urls.root.children, ctx, f))
    ensures urls.FromList? ==> r == Success(Expected(urls.entries, ctx, f))
    ensures r.Failure? <==> urls.FromResolver? && !urls.root.Resolver?
  {
    match urls
    case FromList(entries) =>
      CrawlMatchesReference(entries, ctx, f);
      Success(CrawlList(entries, ctx, f))
    case FromResolver(root) =>
      if root.Resolver? then
        CrawlMatchesReference(root.children, ctx, f);
        Success(CrawlList(root.children, ctx, f))
      else Failure("TypeError: URL pattern is not iterable")
  }

  // ---------------------------------------------------------------------
  // Reference definition: every leaf together with its enclosing resolvers.

  /** A leaf together with the resolvers that enclose it, outermost first. */
  datatype Located = Located(chain: seq<Node>, leaf: Node)

  /** Every leaf under `nodes`, depth first and left to right, each with its
      chain of enclosing resolvers, no matter what is excluded or filtered. */
  function LeavesList(nodes: seq<Node>, chain: seq<Node>): seq<Located>
    decreases nodes
  {
    if |nodes| == 0 then []
    else LeavesNode(nodes[0], chain) + LeavesList(nodes[1..], chain)
  }

  function LeavesNode(n: Node, chain: seq<Node>): seq<Located>
    decreases n
  {
    match n
    case Resolver(_, _, _, children) => LeavesList(children, chain + [n])
    case Leaf(_, _, _) => [Located(chain, n)]
    case Other => []
  }

  /** Every member of a chain is a resolver and every leaf listed is a leaf. */
  predicate ResolverChain(chain: seq<Node>) {
    forall k :: 0 <= k < |chain| ==> chain[k].Resolver?
  }

  lemma {:induction false} LeavesWellFormed(nodes: seq<Node>, chain: seq<Node>)
    requires ResolverChain(chain)
    ensures forall k :: 0 <= k < |LeavesList(nodes, chain)| ==>
      LeavesList(nodes, chain)[k].leaf.Leaf? && ResolverChain(LeavesList(nodes, chain)[k].chain)
    decreases nodes
  {
    if |nodes| > 0 {
      LeavesNodeWellFormed(nodes[0], chain);
      LeavesWellFormed(nodes[1..], chain);
    }
  }

  lemma {:induction false} LeavesNodeWellFormed(n: Node, chain: seq<Node>)
    requires ResolverChain(chain)
    ensures forall k :: 0 <= k < |LeavesNode(n, chain)| ==>
      LeavesNode(n, chain)[k].leaf.Leaf? && ResolverChain(LeavesNode(n, chain)[k].chain)
    decreases n
  {
    if n.Resolver? {
      LeavesWellFormed(n.children, chain + [n]);
    }
  }

  /** The pattern prefixes of a chain of resolvers, concatenated. */
  function PatternOf(chain: seq<Node>): string
    requires ResolverChain(chain)
  {
    if |chain| == 0 then "" else PatternOf(chain[..|chain| - 1]) + chain[|chain| - 1].pattern
  }

  /** The namespaces of a chain, each preceded by ':'. */
  function NamespacePath(chain: seq<Node>): string
    requires ResolverChain(chain)
  {
    if |chain| == 0 then ""
    else NamespacePath(chain[..|chain| - 1]) + ":" + chain[|chain| - 1].namespace.GetOr("")
  }

  /** The application names of a chain, each preceded by ':'. */
  function AppNamePath(chain: seq<Node>): string
    requires ResolverChain(chain)
  {
    if |chain| == 0 then ""
    else AppNamePath(chain[..|chain| - 1]) + ":" + chain[|chain| - 1].appName.GetOr("")
  }

  /** The context in which a leaf under `chain` is seen, when the crawl starts
      in context `ctx`. */
  function ContextOf(ctx: Context, chain: seq<Node>): Context
    requires ResolverChain(chain)
  {
    Context(ctx.pattern + PatternOf(chain), ctx.namespace + NamespacePath(chain), ctx.appName + AppNamePath(chain))
  }

  /** Some resolver of the chain is excluded. */
  predicate ChainExcluded(f: Filters, chain: seq<Node>)
    requires ResolverChain(chain)
  {
    exists k :: 0 <= k < |chain| && Excluded(f, chain[k])
  }

  /** The call one located leaf gives rise to, if it reaches the action. */
  function SelectOne(l: Located, ctx: Context, f: Filters): seq<Visit>
    requires l.leaf.Leaf? && ResolverChain(l.chain)
  {
    var c := ContextOf(ctx, l.chain);
    if !ChainExcluded(f, l.chain) && LeafKept(f, c) then [VisitOf(l.leaf, c)] else []
  }

  /** The leaves that reach the action, as calls. */
  function Select(leaves: seq<Located>, ctx: Context, f: Filters): seq<Visit>
    requires forall k :: 0 <= k < |leaves| ==> leaves[k].leaf.Leaf? && ResolverChain(leaves[k].chain)
  {
    if |leaves| == 0 then [] else SelectOne(leaves[0], ctx, f) + Select(leaves[1..], ctx, f)
  }

  lemma {:induction false} SelectAppend(a: seq<Located>, b: seq<Located>, ctx: Context, f: Filters)
    requires forall k :: 0 <= k < |a| ==> a[k].leaf.Leaf? && ResolverChain(a[k].chain)
    requires forall k :: 0 <= k < |b| ==> b[k].leaf.Leaf? && ResolverChain(b[k].chain)
    ensures Select(a + b, ctx, f) == Select(a, ctx, f) + Select(b, ctx, f)
  {
    if |a| == 0 {
      assert a + b == b;
    } else {
      var ab := a + b;
      assert ab[0] == a[0];
      assert ab[1..] == a[1..] + b;
      SelectAppend(a[1..], b, ctx, f);
    }
  }

  /** What the action receives according to the reference definition: one
      call per leaf in depth-first left-to-right order, dropping the leaves
      under an excluded resolver and those whose accumulated namespace or
      application name misses its filter. */
  function Expected(nodes: seq<Node>, ctx: Context, f: Filters): seq<Visit>
  {
    LeavesWellFormed(nodes, []);
    Select(LeavesList(nodes, []), ctx, f)
  }

  /** Under a chain with no excluded resolver, the recursive crawl and the
      reference definition agree. */
  lemma {:induction false} CrawlListAgrees(nodes: seq<Node>, ctx: Context, chain: seq<Node>, f: Filters)
    requires ResolverChain(chain) && !ChainExcluded(f, chain)
    ensures forall k :: 0 <= k < |LeavesList(nodes, chain)| ==>
      LeavesList(nodes, chain)[k].leaf.Leaf? && ResolverChain(LeavesList(nodes, chain)[k].chain)
    ensures CrawlList(nodes, ContextOf(ctx, chain), f) == Select(LeavesList(nodes, chain), ctx, f)
    decreases nodes
  {
    LeavesWellFormed(nodes, chain);
    if |nodes| > 0 {
      LeavesNodeWellFormed(nodes[0], chain);
      LeavesWellFormed(nodes[1..], chain);
      CrawlNodeAgrees(nodes[0], ctx, chain, f);
      CrawlListAgrees(nodes[1..], ctx, chain, f);
      SelectAppend(LeavesNode(nodes[0], chain), LeavesList(nodes[1..], chain), ctx, f);
    }
  }

  lemma {:induction false} CrawlNodeAgrees(n: Node, ctx: Context, chain: seq<Node>, f: Filters)
    requires ResolverChain(chain) && !ChainExcluded(f, chain)
    ensures forall k :: 0 <= k < |LeavesNode(n, chain)| ==>
      LeavesNode(n, chain)[k].leaf.Leaf? && ResolverChain(LeavesNode(n, chain)[k].chain)
    ensures CrawlNode(n, ContextOf(ctx, chain), f) == Select(LeavesNode(n, chain), ctx, f)
    decreases n
  {
    LeavesNodeWellFormed(n, chain);
    match n
    case Resolver(_, _, _, children) =>
      EnterChain(ctx, chain, n, f);
      if Excluded(f, n) {
        LeavesWellFormed(children, chain + [n]);
        AllExcluded(children, chain + [n], ctx, f);
      } else {
        CrawlListAgrees(children, ctx, chain + [n], f);
      }
    case Leaf(_, _, _) =>
      LeafAgrees(n, ctx, chain, f);
    case Other =>
  }

  /** Entering a resolver extends the chain by it: the context is the one
      `Enter` computes, and the chain is excluded when it was already or the
      resolver itself is. */
  lemma {:induction false} EnterChain(ctx: Context, chain: seq<Node>, n: Node, f: Filters)
    requires ResolverChain(chain) && n.Resolver?
    ensures ResolverChain(chain + [n])
    ensures ContextOf(ctx, chain + [n]) == Enter(ContextOf(ctx, chain), n)
    ensures ChainExcluded(f, chain + [n]) <==> ChainExcluded(f, chain) || Excluded(f, n)
  {
    var chain' := chain + [n];
    assert chain'[..|chain'| - 1] == chain;
    assert chain'[|chain|] == n;
    if ChainExcluded(f, chain) {
      var k :| 0 <= k < |chain| && Excluded(f, chain[k]);
      assert chain'[k] == chain[k];
    } else if !Excluded(f, n) {
      forall k | 0 <= k < |chain'| ensures !Excluded(f, chain'[k]) {
        if k < |chain| { assert chain'[k] == chain[k]; }
      }
    }
  }

  /** A leaf under a chain that is not excluded: the crawl and the reference
      definition both keep it exactly when its context passes the filters. */
  lemma {:induction false} LeafAgrees(n: Node, ctx: Context, chain: seq<Node>, f: Filters)
    requires n.Leaf? && ResolverChain(chain) && !ChainExcluded(f, chain)
    ensures CrawlNode(n, ContextOf(ctx, chain), f) == Select([Located(chain, n)], ctx, f)
  {
    assert Select([Located(chain, n)], ctx, f) == SelectOne(Located(chain, n), ctx, f) + Select([], ctx, f);
  }

  /** Nothing below an excluded resolver reaches the action. */
  lemma {:induction false} AllExcluded(nodes: seq<Node>, chain: seq<Node>, ctx: Context, f: Filters)
    requires ResolverChain(chain) && ChainExcluded(f, chain)
    requires forall k :: 0 <= k < |LeavesList(nodes, chain)| ==>
      LeavesList(nodes, chain)[k].leaf.Leaf? && ResolverChain(LeavesList(nodes, chain)[k].chain)
    ensures Select(LeavesList(nodes, chain), ctx, f) == []
  {
    var ls := LeavesList(nodes, chain);
    LeavesKeepPrefix(nodes, chain);
    SelectNone(ls, ctx, f, chain);
  }

  lemma {:induction false} SelectNone(ls: seq<Located>, ctx: Context, f: Filters, chain: seq<Node>)
    requires ResolverChain(chain) && ChainExcluded(f, chain)
    requires forall k :: 0 <= k < |ls| ==> ls[k].leaf.Leaf? && ResolverChain(ls[k].chain)
    requires forall k :: 0 <= k < |ls| ==> chain <= ls[k].chain
    ensures Select(ls, ctx, f) == []
  {
    if |ls| > 0 {
      var j :| 0 <= j < |chain| && Excluded(f, chain[j]);
      assert ls[0].chain[j] == chain[j];
      assert ChainExcluded(f, ls[0].chain);
      SelectNone(ls[1..], ctx, f, chain);
    }
  }

  /** Every leaf listed under `chain` has `chain` as a prefix of its own. */
  lemma {:induction false} LeavesKeepPrefix(nodes: seq<Node>, chain: seq<Node>)
    ensures forall k :: 0 <= k < |LeavesList(nodes, chain)| ==> chain <= LeavesList(nodes, chain)[k].chain
    decreases nodes
  {
    if |nodes| > 0 {
      LeavesNodeKeepPrefix(nodes[0], chain);
      LeavesKeepPrefix(nodes[1..], chain);
    }
  }

  lemma {:induction false} LeavesNodeKeepPrefix(n: Node, chain: seq<Node>)
    ensures forall k :: 0 <= k < |LeavesNode(n, chain)| ==> chain <= LeavesNode(n, chain)[k].chain
    decreases n
  {
    if n.Resolver? {
      LeavesKeepPrefix(n.children, chain + [n]);
    }
  }

  /** Without filters the action fires exactly once for every leaf. */
  lemma {:induction false} UnfilteredVisitsEveryLeaf(leaves: seq<Located>, ctx: Context)
    requires forall k :: 0 <= k < |leaves| ==> leaves[k].leaf.Leaf? && ResolverChain(leaves[k].chain)
    ensures |Select(leaves, ctx, NoFilters)| == |leaves|
    ensures forall k :: 0 <= k < |leaves| ==>
      Select(leaves, ctx, NoFilters)[k] == VisitOf(leaves[k].leaf, ContextOf(ctx, leaves[k].chain))
  {
    UnfilteredLength(leaves, ctx);
    forall k | 0 <= k < |leaves|
      ensures Select(leaves, ctx, NoFilters)[k] == VisitOf(leaves[k].leaf, ContextOf(ctx, leaves[k].chain))
    {
      UnfilteredAt(leaves, ctx, k);
    }
  }

  lemma {:induction false} UnfilteredLength(leaves: seq<Located>, ctx: Context)
    requires forall k :: 0 <= k < |leaves| ==> leaves[k].leaf.Leaf? && ResolverChain(leaves[k].chain)
    ensures |Select(leaves, ctx, NoFilters)| == |leaves|
  {
    if |leaves| > 0 {
      SelectOneUnfiltered(leaves[0], ctx);
      UnfilteredLength(leaves[1..], ctx);
    }
  }

  lemma {:induction false} UnfilteredAt(leaves: seq<Located>, ctx: Context, k: nat)
    requires forall j :: 0 <= j < |leaves| ==> leaves[j].leaf.Leaf? && ResolverChain(leaves[j].chain)
    requires k < |leaves|
    ensures k < |Select(leaves, ctx, NoFilters)|
    ensures Select(leaves, ctx, NoFilters)[k] == VisitOf(leaves[k].leaf, ContextOf(ctx, leaves[k].chain))
  {
    var before, after := leaves[..k], leaves[k..];
    assert leaves == before + after;
    SelectAppend(before, after, ctx, NoFilters);
    UnfilteredLength(before, ctx);
    UnfilteredHead(after, ctx);
    assert after[0] == leaves[k];
  }

  /** The first unfiltered call is the first leaf's. */
  lemma {:induction false} UnfilteredHead(leaves: seq<Located>, ctx: Context)
    requires forall j :: 0 <= j < |leaves| ==> leaves[j].leaf.Leaf? && ResolverChain(leaves[j].chain)
    requires 0 < |leaves|
    ensures 0 < |Select(leaves, ctx, NoFilters)|
    ensures Select(leaves, ctx, NoFilters)[0] == VisitOf(leaves[0].leaf, ContextOf(ctx, leaves[0].chain))
  {
    var one := SelectOne(leaves[0], ctx, NoFilters);
    assert Select(leaves, ctx, NoFilters) == one + Select(leaves[1..], ctx, NoFilters);
    SelectOneUnfiltered(leaves[0], ctx);
  }

  /** Without filters every located leaf reaches the action. */
  lemma {:induction false} SelectOneUnfiltered(l: Located, ctx: Context)
    requires l.leaf.Leaf? && ResolverChain(l.chain)
    ensures SelectOne(l, ctx, NoFilters) == [VisitOf(l.leaf, ContextOf(ctx, l.chain))]
  {
    assert !ChainExcluded(NoFilters, l.chain);
    assert LeafKept(NoFilters, ContextOf(ctx, l.chain));
  }

  /** The crawl equals the reference definition on every configuration. */
  lemma {:induction false} CrawlMatchesReference(nodes: seq<Node>, ctx: Context, f: Filters)
    ensures CrawlList(nodes, ctx, f) == Expected(nodes, ctx, f)
  {
    assert ContextOf(ctx, []) == ctx;
    CrawlListAgrees(nodes, ctx, [], f);
  }

  // ---------------------------------------------------------------------
  // URL names

  /** The namespace of each resolver of a chain, empty when it has none. */
  function Namespaces(chain: seq<Node>): (r: seq<string>)
    requires ResolverChain(chain)
    ensures |r| == |chain|
    ensures forall k :: 0 <= k < |chain| ==> r[k] == chain[k].namespace.GetOr("")
  {
    if |chain| == 0 then []
    else Namespaces(chain[..|chain| - 1]) + [chain[|chain| - 1].namespace.GetOr("")]
  }

  /** A namespace or name that can be joined with ':' unambiguously. */
  predicate Segment(s: string) {
    |s| > 0 && ':' !in s
  }

  /** Neither starts nor ends with ':' (vacuously so when empty). */
  predicate Bare(s: string) {
    |s| == 0 || (s[0] != ':' && s[|s| - 1] != ':')
  }

  /** A URL name joins a bare non-empty namespace and a colon-free leaf name
      with a single ':'; under no namespace the name is the leaf name. */
  lemma {:induction false} UrlNameJoins(ns: string, name: string)
    requires Bare(ns) && Segment(name)
    ensures ns != "" ==> UrlName(Some(name), ns) == ns + ":" + name
    ensures ns == "" ==> UrlName(Some(name), ns) == name
  {
    if ns == "" {
      assert ns + ":" + name == [':'] + name;
      StripBare(name, ':');
    } else {
      var full := ns + ":" + name;
      assert full[0] == ns[0];
      assert full[|full| - 1] == name[|name| - 1];
      StripBare(full, ':');
    }
  }

  /** With non-empty, colon-free namespaces, the stripped accumulated
      namespace is the namespaces joined by ':'. */
  lemma {:induction false} StrippedNamespace(chain: seq<Node>)
    requires ResolverChain(chain) && |chain| > 0
    requires forall k :: 0 <= k < |chain| ==> chain[k].namespace.Some? && Segment(chain[k].namespace.value)
    ensures Strip(NamespacePath(chain), ':') == Join(Namespaces(chain), ':')
    ensures Bare(Join(Namespaces(chain), ':')) && Join(Namespaces(chain), ':') != ""
  {
    var ns := Namespaces(chain);
    NamespacePathJoins(chain);
    forall k | 0 <= k < |ns| ensures |ns[k]| > 0 && ':' !in ns[k] {
      assert ns[k] == chain[k].namespace.value;
    }
    JoinEnds(ns, ':');
    var j := Join(ns, ':');
    assert ns[0][0] in ns[0];
    assert ns[|ns| - 1][|ns[|ns| - 1]| - 1] in ns[|ns| - 1];
    StripBare(j, ':');
    assert NamespacePath(chain) == [':'] + j;
  }

  /** With non-empty, colon-free namespaces and leaf name, the URL name is the
      enclosing namespaces followed by the leaf name, joined by ':'. */
  lemma {:induction false} UrlNameQualified(chain: seq<Node>, name: string)
    requires ResolverChain(chain)
    requires forall k :: 0 <= k < |chain| ==> chain[k].namespace.Some? && Segment(chain[k].namespace.value)
    requires Segment(name)
    ensures UrlName(Some(name), Strip(NamespacePath(chain), ':')) == Join(Namespaces(chain) + [name], ':')
  {
    if |chain| == 0 {
      UnqualifiedUrlName(chain, name);
    } else {
      QualifiedUrlName(chain, name);
    }
  }

  /** Under at least one namespace the URL name extends their join. */
  lemma {:induction false} QualifiedUrlName(chain: seq<Node>, name: string)
    requires ResolverChain(chain) && |chain| > 0
    requires forall k :: 0 <= k < |chain| ==> chain[k].namespace.Some? && Segment(chain[k].namespace.value)
    requires Segment(name)
    ensures UrlName(Some(name), Strip(NamespacePath(chain), ':')) == Join(Namespaces(chain) + [name], ':')
  {
    StrippedNamespace(chain);
    JoinedUrlName(Namespaces(chain), name);
  }

  /** Under no namespace the URL name is the leaf name alone. */
  lemma {:induction false} UnqualifiedUrlName(chain: seq<Node>, name: string)
    requires ResolverChain(chain) && |chain| == 0
    requires Segment(name)
    ensures UrlName(Some(name), Strip(NamespacePath(chain), ':')) == Join(Namespaces(chain) + [name], ':')
  {
    assert Namespaces(chain) + [name] == [name];
    assert Strip(NamespacePath(chain), ':') == "";
    UrlNameJoins("", name);
  }

  /** A leaf name under a bare, non-empty joined namespace extends the join. */
  lemma {:induction false} JoinedUrlName(ns: seq<string>, name: string)
    requires |ns| > 0 && Bare(Join(ns, ':')) && Join(ns, ':') != "" && Segment(name)
    ensures UrlName(Some(name), Join(ns, ':')) == Join(ns + [name], ':')
  {
    var j := Join(ns, ':');
    UrlNameJoins(j, name);
    JoinSnoc(ns, name, ':');
    assert ":" == [':'];
  }

  /** The URL name of a leaf named `name` below any chain of resolvers: the
      namespaces joined by ':', a namespace-less resolver giving an empty
      segment, stripped of ':' at both ends, then ':' and the leaf name; just
      the leaf name when that join strips to nothing. */
  lemma {:induction false} UrlNameOfChain(chain: seq<Node>, name: string)
    requires ResolverChain(chain) && Segment(name)
    ensures |chain| == 0 ==> UrlName(Some(name), Strip(NamespacePath(chain), ':')) == name
    ensures |chain| > 0 ==>
      var j := Strip(Join(Namespaces(chain), ':'), ':');
      UrlName(Some(name), Strip(NamespacePath(chain), ':')) == if j == "" then name else j + ":" + name
  {
    if |chain| == 0 {
      assert Strip(NamespacePath(chain), ':') == "";
      UrlNameJoins("", name);
    } else {
      var joined := Join(Namespaces(chain), ':');
      NamespacePathJoins(chain);
      assert NamespacePath(chain) == [':'] + joined;
      StripLeading(joined, ':');
      UrlNameJoins(Strip(joined, ':'), name);
    }
  }

  /** A namespace-less resolver between two namespaced ones leaves an empty
      segment in the URL name: `x`, then none, then `y` name leaf `n`
      `x::y:n`. */
  lemma {:induction false} EmptyNamespaceSegment(chain: seq<Node>, x: string, y: string, n: string)
    requires ResolverChain(chain) && |chain| == 3
    requires chain[0].namespace == Some(x) && chain[1].namespace.None? && chain[2].namespace == Some(y)
    requires Segment(x) && Segment(y) && Segment(n)
    ensures UrlName(Some(n), Strip(NamespacePath(chain), ':')) == x + "::" + y + ":" + n
  {
    var ns := Namespaces(chain);
    assert ns == [x, "", y];
    var j := x + "::" + y;
    assert Join(ns, ':') == j by {
      assert Join(ns[2..], ':') == y;
      assert Join(ns[1..], ':') == "" + [':'] + y;
    }
    assert j[0] == x[0] && j[|j| - 1] == y[|y| - 1];
    assert x[0] in x && y[|y| - 1] in y;
    StripBare(j, ':');
    UrlNameOfChain(chain, n);
  }

  /** A namespace-less resolver last in the chain leaves no trace: `x`, then
      none, name leaf `n` `x:n`. */
  lemma {:induction false} TrailingNamespaceDropped(chain: seq<Node>, x: string, n: string)
    requires ResolverChain(chain) && |chain| == 2
    requires chain[0].namespace == Some(x) && chain[1].namespace.None?
    requires Segment(x) && Segment(n)
    ensures UrlName(Some(n), Strip(NamespacePath(chain), ':')) == x + ":" + n
  {
    var ns := Namespaces(chain);
    assert ns == [x, ""];
    assert Join(ns, ':') == x + [':'];
    assert x[0] in x && x[|x| - 1] in x;
    StripBare(x, ':');
    UrlNameOfChain(chain, n);
  }

  /** The accumulated namespace is ':' followed by the namespaces joined by ':'. */
  lemma {:induction false} NamespacePathJoins(chain: seq<Node>)
    requires ResolverChain(chain) && |chain| > 0
    ensures NamespacePath(chain) == ":" + Join(Namespaces(chain), ':')
    decreases |chain|
  {
    var init := chain[..|chain| - 1];
    var ns := Namespaces(chain);
    if |init| > 0 {
      NamespacePathJoins(init);
      JoinSnoc(Namespaces(init), ns[|ns| - 1], ':');
    }
  }

  /** The example application's list view: leaf `car_list` under namespace
      `cars` is named `cars:car_list`. */
  lemma {:induction false} CarListName(ns: string, name: string)
    requires ns == "cars" && name == "car_list"
    ensures UrlName(Some(name), ns) == "cars:car_list"
  {
    assert Segment(name) && Bare(ns) && ns != "";
    UrlNameJoins(ns, name);
    assert ns + ":" + name == "cars:car_list";
  }

  // ---------------------------------------------------------------------
  // Skipping and collecting

  /** The three class-level lists that restrict which URL names are tested. */
  datatype SkipConfig = SkipConfig(
    runOnlyTheseNames: seq<string>,
    runOnlyNamesContaining: seq<string>,
    ignoreNamesContaining: seq<string>)

  /** Python `any(sub in name for sub in subs)`. */
  predicate AnyContained(name: string, subs: seq<string>)
    decreases |subs|
  {
    |subs| > 0 && (Contains(name, subs[0]) || AnyContained(name, subs[1..]))
  }

  lemma {:induction false} AnyContainedExists(name: string, subs: seq<string>)
    ensures AnyContained(name, subs) <==> exists k :: 0 <= k < |subs| && Contains(name, subs[k])
    decreases |subs|
  {
    if |subs| > 0 {
      AnyContainedExists(name, subs[1..]);
      if AnyContained(name, subs[1..]) {
        var k :| 0 <= k < |subs[1..]| && Contains(name, subs[1..][k]);
        assert subs[k + 1] == subs[1..][k];
      }
      if exists k :: 0 <= k < |subs| && Contains(name, subs[k]) {
        var k :| 0 <= k < |subs| && Contains(name, subs[k]);
        if k > 0 { assert subs[1..][k - 1] == subs[k]; }
      }
    }
  }

  /** `skip_url`: a URL name is skipped when a non-empty run-only list lacks
      it, when a non-empty run-only-containing list has no substring of it, or
      when some ignore substring occurs in it; otherwise it is kept. */
  function SkipUrl(cfg: SkipConfig, name: string): (skip: bool)
    ensures (|cfg.runOnlyTheseNames| == 0 && |cfg.runOnlyNamesContaining| == 0
             && |cfg.ignoreNamesContaining| == 0) ==> !skip
    ensures |cfg.runOnlyTheseNames| > 0 && name !in cfg.runOnlyTheseNames ==> skip
    ensures |cfg.runOnlyNamesContaining| > 0
      && (forall k :: 0 <= k < |cfg.runOnlyNamesContaining| ==> !Contains(name, cfg.runOnlyNamesContaining[k]))
      ==> skip
    ensures (exists k :: 0 <= k < |cfg.ignoreNamesContaining| && Contains(name, cfg.ignoreNamesContaining[k]))
      ==> skip
    ensures skip ==>
      (|cfg.runOnlyTheseNames| > 0 && name !in cfg.runOnlyTheseNames)
      || (|cfg.runOnlyNamesContaining| > 0
          && forall k :: 0 <= k < |cfg.runOnlyNamesContaining| ==> !Contains(name, cfg.runOnlyNamesContaining[k]))
      || (exists k :: 0 <= k < |cfg.ignoreNamesContaining| && Contains(name, cfg.ignoreNamesContaining[k]))
  {
    AnyContainedExists(name, cfg.runOnlyNamesContaining);
    AnyContainedExists(name, cfg.ignoreNamesContaining);
    if |cfg.runOnlyTheseNames| > 0 && name !in cfg.runOnlyTheseNames then true
    else if |cfg.runOnlyNamesContaining| > 0 && !AnyContained(name, cfg.runOnlyNamesContaining) then true
    else if |cfg.ignoreNamesContaining| > 0 && AnyContained(name, cfg.ignoreNamesContaining) then true
    else false
  }

  /** The example project ignores the admin site's URLs. */
  lemma AdminUrlsIgnored()
    ensures SkipUrl(SkipConfig([], [], ["admin:", "rosetta-"]), "admin:index")
  {
    assert StartsWith("admin:index", "admin:");
  }

  /** `collect_url`: a crawled URL is recorded when its view is a class-based
      view or a view set, its name is non-empty and not skipped, and it is not
      one of the names found in the excluded modules. */
  predicate Collectable(v: Visit, cfg: SkipConfig, excludedNames: seq<string>) {
    && v.leaf.Leaf? && v.leaf.callback != PlainFunction
    && v.urlName != ""
    && !SkipUrl(cfg, v.urlName)
    && v.urlName !in excludedNames
  }

  /** The URLs `collect_url` records, in the order the crawl reaches them. */
  function CollectUrls(visits: seq<Visit>, cfg: SkipConfig, excludedNames: seq<string>): (r: seq<Visit>)
    ensures forall v :: v in r <==> v in visits && Collectable(v, cfg, excludedNames)
    ensures |r| <= |visits|
    ensures |visits| == 1 ==> r == if Collectable(visits[0], cfg, excludedNames) then visits else []
  {
    if |visits| == 0 then []
    else
      var rest := CollectUrls(visits[1..], cfg, excludedNames);
      assert forall v :: v in visits <==> v == visits[0] || v in visits[1..];
      if Collectable(visits[0], cfg, excludedNames) then [visits[0]] + rest else rest
  }

  /** Each visit is recorded or dropped on its own, so the recorded URLs of
      consecutive stretches of the crawl follow each other in crawl order. */
  lemma {:induction false} CollectUrlsAppend(a: seq<Visit>, b: seq<Visit>, cfg: SkipConfig, excludedNames: seq<string>)
    ensures CollectUrls(a + b, cfg, excludedNames) == CollectUrls(a, cfg, excludedNames) + CollectUrls(b, cfg, excludedNames)
    decreases |a|
  {
    if |a| == 0 {
      assert a + b == b;
    } else {
      assert (a + b)[0] == a[0];
      assert (a + b)[1..] == a[1..] + b;
      CollectUrlsAppend(a[1..], b, cfg, excludedNames);
    }
  }

  /** `get_urls_from_excluded_modules`: the names of every URL in the excluded
      modules' pattern lists, unfiltered, module by module and in crawl order,
      unnamed URLs included. */
  function ExcludedUrlNames(modules: seq<seq<Node>>): (r: seq<string>)
    ensures forall k :: 0 <= k < |r| ==> Bare(r[k])
    ensures r == ModuleLeafNames(modules)
  {
    if |modules| == 0 then []
    else
      ModuleNamesAgree(modules[0]);
      NamesOf(CrawlList(modules[0], Top, NoFilters)) + ExcludedUrlNames(modules[1..])
  }

  /** The URL name each leaf gets below the top-level context. */
  function LeafNames(leaves: seq<Located>): (r: seq<string>)
    requires forall k :: 0 <= k < |leaves| ==> leaves[k].leaf.Leaf? && ResolverChain(leaves[k].chain)
    ensures |r| == |leaves|
    ensures forall k :: 0 <= k < |leaves| ==> r[k] == VisitOf(leaves[k].leaf, ContextOf(Top, leaves[k].chain)).urlName
  {
    seq(|leaves|, k requires 0 <= k < |leaves| => VisitOf(leaves[k].leaf, ContextOf(Top, leaves[k].chain)).urlName)
  }

  /** The names of all leaves of every module, module by module, each module's
      leaves in depth-first order. */
  function ModuleLeafNames(modules: seq<seq<Node>>): seq<string>
  {
    if |modules| == 0 then []
    else
      LeavesWellFormed(modules[0], []);
      LeafNames(LeavesList(modules[0], [])) + ModuleLeafNames(modules[1..])
  }

  /** The unfiltered crawl of one module names every one of its leaves. */
  lemma {:induction false} ModuleNamesAgree(nodes: seq<Node>)
    ensures forall k :: 0 <= k < |LeavesList(nodes, [])| ==>
      LeavesList(nodes, [])[k].leaf.Leaf? && ResolverChain(LeavesList(nodes, [])[k].chain)
    ensures NamesOf(CrawlList(nodes, Top, NoFilters)) == LeafNames(LeavesList(nodes, []))
  {
    LeavesWellFormed(nodes, []);
    var ls := LeavesList(nodes, []);
    CrawlMatchesReference(nodes, Top, NoFilters);
    UnfilteredVisitsEveryLeaf(ls, Top);
    assert CrawlList(nodes, Top, NoFilters) == Select(ls, Top, NoFilters);
  }

  function NamesOf(visits: seq<Visit>): (r: seq<string>)
    ensures |r| == |visits|
    ensures forall k :: 0 <= k < |r| ==> r[k] == visits[k].urlName
  {
    seq(|visits|, k requires 0 <= k < |visits| => visits[k].urlName)
  }
}
