# kaskader test generators — a Dafny model

kaskader generates Django tests automatically. It walks the project's URL
tree, fills in URL arguments from generated model objects, orders models so
that dependencies are created first, and splits the URL list into chunks that
run as separate tests. This project models the pure decision procedures
inside `kaskader/tests/generators.py` over abstract data and proves their
contracts:

- `wrappers.dfy` (module `Wrappers`) holds `Option` and `Result`, which model
  a missing value and a raised exception.
- `strings.dfy` (module `Strings`) holds the Python string operations the
  code relies on:
  - `str.strip(':')`;
  - `split(':')` and `':'.join`;
  - `sub in s`;
  - `startswith` and `endswith`.
- `url_crawl.dfy` (module `UrlCrawl`) models four things:
  - `crawl_urls_with_action` as a depth-first walk over a tree of resolvers and
    leaf patterns;
  - `get_url_name`;
  - `skip_url`;
  - the filters of `collect_url` and `get_urls_from_excluded_modules`.

  The walk is proved equal to an independent reference: "every leaf with its
  chain of enclosing resolvers, then filtered".
- `chunks.dfy` (module `Chunks`) models `chunkify` with integer ceiling division.
- `model_deps.dfy` (module `ModelDeps`) models `get_models_dependency`. It
  builds direct required and not-required sets and adds missing models and
  manual dependencies. It then makes two in-place deepening passes over the
  ordered keys.
- `dep_order.dfy` (module `DepOrder`) models the comparator
  `compare_models_dependency`.
- `url_args.dfy` (module `UrlArgs`) models the URL-argument handling of
  `prepare_url`:
  - extracting `<type:name>` tokens from a pattern;
  - splitting type from name;
  - the name-matching cascade;
  - resolving values from generated objects;
  - the final "every name resolved" check.
- `mock_values.dfy` (module `MockValues`) models `get_num_field_mock_value`.
  `random.randint` becomes a nondeterministic choice (`:|`) inside the range.

Django is replaced by records:
- models are string labels;
- fields are records holding a related model and the blank, concrete and
  auto-created flags;
- a URL tree is a `Node` datatype;
- generated objects are a map from (attribute, model label) to a value.

Python exceptions that the code can raise become `Failure` results:
- the tuple unpacking of an argument with two or more ':';
- the `KeyError` for a manual dependency whose model is not a key (the model list that `get_models` builds always contains these models, so this cannot happen there; see `ModelDeps.ManualModelsListed`);
- the circular-dependency `ValueError`;
- `randint(1, M)` with `M < 1`.

## Model

| member | source | states |
|---|---|---|
| Strings.Strip | kaskader/tests/generators.py:1343 | `str.strip(':')`: the result is a window `s[i..j]` of the input with only ':' before `i` and after `j`, it has no ':' at either end, and the input is returned unchanged when it holds no ':'. |
| Strings.StripIsWindow | kaskader/tests/generators.py:1343 | What `str.strip(':')` keeps is a contiguous window of its input. |
| Strings.StripLeading | kaskader/tests/generators.py:1323-1343 | One more leading ':' (the one the crawl puts before the first namespace) does not change the stripped string. |
| Strings.StripBare | kaskader/tests/generators.py:1343 | A string that neither starts nor ends with ':' is left alone by `strip(':')`, and so is it with one ':' added at either end. |
| Strings.StripIdempotent | kaskader/tests/generators.py:1336 | Stripping an already stripped namespace (the crawl strips it, then `get_url_name` strips again) changes nothing. |
| Strings.Split | kaskader/tests/generators.py:1481 | `split(':')` yields one more part than there are separators, and no part contains the separator. |
| Strings.JoinSplit | kaskader/tests/generators.py:1481 | Joining the parts of `split(':')` with ':' rebuilds the string. |
| Strings.SplitJoin | kaskader/tests/generators.py:1323-1324 | Splitting a ':'-joined list of separator-free parts returns the parts. |
| Strings.ContainsIsSubstring | kaskader/tests/generators.py:1641-1646 | Python's `sub in s` holds exactly when `sub` occurs at some index of `s`. |
| UrlCrawl.UrlName | kaskader/tests/generators.py:1341-1344 | A URL name never begins or ends with ':'. |
| UrlCrawl.UrlNameJoins | kaskader/tests/generators.py:1341-1344 | Under a stripped non-empty namespace `ns`, the name is `ns:name`. Under an empty one it is the bare name. |
| UrlCrawl.UrlNameQualified | kaskader/tests/generators.py:1323-1344 | When every enclosing resolver has a namespace and none holds ':', a leaf's URL name is those namespaces, then its own name, joined by ':'. |
| UrlCrawl.UrlNameOfChain | kaskader/tests/generators.py:1323-1344 | Below any chain of resolvers (namespaces missing or not), the URL name is the namespaces joined by ':' with a missing one an empty segment, stripped of ':' at both ends, then ':' and the leaf name; the bare leaf name when the join strips to nothing or there is no resolver. |
| UrlCrawl.EmptyNamespaceSegment | kaskader/tests/generators.py:1323-1344 | Namespaces `x`, none, `y` above leaf `n` give the name `x::y:n`: a namespace-less resolver in the middle leaves an empty segment. |
| UrlCrawl.TrailingNamespaceDropped | kaskader/tests/generators.py:1323-1344 | Namespaces `x`, none above leaf `n` give `x:n`: a namespace-less innermost resolver leaves no trace. |
| UrlCrawl.NamespacePathJoins | kaskader/tests/generators.py:1323-1324 | The accumulated namespace is ':' followed by the resolvers' namespaces joined by ':'. |
| UrlCrawl.CarListName | kaskader/tests/generators.py:1341-1344 | Leaf `car_list` under namespace `cars` is named `cars:car_list`. |
| UrlCrawl.Excluded | kaskader/tests/generators.py:1315-1317 | A resolver is pruned when the namespace exclusion is set and equals its namespace, or the app-name exclusion is set and equals its application name; a missing namespace never equals a set filter. |
| UrlCrawl.Enter | kaskader/tests/generators.py:1323-1326 | The children of a resolver see the pattern prefix extended by its pattern and the namespace and application name each extended by ':' and its own value, empty when missing. |
| UrlCrawl.EnterChain | kaskader/tests/generators.py:1314-1326 | Entering a resolver is extending the chain of enclosing resolvers by it: the context is the one of the longer chain, and the longer chain is excluded iff the old one was or the resolver is. |
| UrlCrawl.LeafKept | kaskader/tests/generators.py:1330-1331 | A leaf reaches the action iff each set filter string occurs in the accumulated namespace or application name (a substring test, not equality). |
| UrlCrawl.LeafAgrees | kaskader/tests/generators.py:1328-1338 | Below a non-excluded chain, the walk hands a leaf to the action exactly as the reference selection does. |
| UrlCrawl.CrawlNode | kaskader/tests/generators.py:1313-1338 | An entry that is neither resolver nor pattern, and an excluded resolver, give no call; a pattern gives one call iff its context passes the filters, with the leaf and the full pattern, and never more than one. |
| UrlCrawl.CrawlNodeAgrees | kaskader/tests/generators.py:1313-1338 | One entry below a non-excluded chain gives the reference selection of its leaves. |
| UrlCrawl.CrawlList | kaskader/tests/generators.py:1312-1338 | Every visit is of a leaf pattern, and its URL name is bare. |
| UrlCrawl.Crawl | kaskader/tests/generators.py:1309-1313 | A top-level resolver contributes only its children. A list is walked as is. Both agree with the reference `Expected`. A non-resolver root fails. |
| UrlCrawl.CrawlListAgrees | kaskader/tests/generators.py:1312-1338 | Below a chain of resolvers none of which is excluded, the walk equals the reference: the leaves in depth-first order, each kept iff the namespace/app-name filters accept its accumulated context. |
| UrlCrawl.AllExcluded | kaskader/tests/generators.py:1314-1316 | Below an excluded resolver the reference selects nothing, so the whole subtree is pruned. |
| UrlCrawl.CrawlMatchesReference | kaskader/tests/generators.py:1309-1338 | The walk from the top equals the reference selection of every leaf. |
| UrlCrawl.UnfilteredVisitsEveryLeaf | kaskader/tests/generators.py:1312-1338 | With no filters the action fires exactly once per leaf, in depth-first left-to-right order. The pattern passed is the enclosing resolvers' patterns followed by the leaf's. |
| UrlCrawl.SelectAppend | kaskader/tests/generators.py:1312-1338 | Selecting from a concatenation of leaf lists selects from each part in order. |
| UrlCrawl.AnyContainedExists | kaskader/tests/generators.py:1641-1642 | Python's `any(substr in name ...)` holds iff some listed substring occurs in the name. |
| UrlCrawl.SkipUrl | kaskader/tests/generators.py:1636-1650 | Not skipped when all three lists are empty. Skipped if a non-empty run-only list lacks the name, if a non-empty "containing" list has no substring of it, or if any ignore substring occurs in it. It skips only for one of these reasons. |
| UrlCrawl.AdminUrlsIgnored | kaskader/tests/generators.py:1646-1648 | With the ignore list `admin:`, `rosetta-`, the name `admin:index` is skipped. |
| UrlCrawl.Collectable | kaskader/tests/generators.py:1991-2007 | `collect_url`'s guards: the view is a class-based view or a view set (an API root function is dropped), the name is non-empty, not skipped and not an excluded module's name. |
| UrlCrawl.CollectUrls | kaskader/tests/generators.py:1982-2012 | A visit is collected iff it is collectable; no visit is added, and a single visit is kept or dropped on its own. |
| UrlCrawl.CollectUrlsAppend | kaskader/tests/generators.py:2009-2012 | Appending to the target list: the URLs collected from two consecutive stretches of the crawl are those of the first followed by those of the second, so the crawl order is kept. |
| UrlCrawl.ExcludedUrlNames | kaskader/tests/generators.py:1347-1369 | The names collected from the excluded modules are the URL names of all their leaves, module by module, each in depth-first order, unfiltered and unnamed ones included; every one is bare. |
| UrlCrawl.ModuleNamesAgree | kaskader/tests/generators.py:1360-1369 | The unfiltered crawl of one module's patterns names every one of its leaves, in order. |
| Chunks.FloorDiv | kaskader/tests/generators.py:1963 | Python floor division: the quotient q satisfies `q*b <= a < q*b + b` for positive b, and the mirrored bound for negative b. |
| Chunks.ChunkLength | kaskader/tests/generators.py:1963 | `-(len // -n)` is the ceiling of len/n: n chunks of it cover the list, and n chunks one shorter do not. |
| Chunks.Chunkify | kaskader/tests/generators.py:1959-1971 | Concatenating the chunks gives the list back. There are at most n chunks, and none iff the list is empty. Every chunk is non-empty and at most ceil(len/n) long; all but the last are exactly that long. |
| ModelDeps.DirectDepsSpec | kaskader/tests/generators.py:608-617 | A model is required iff a non-blank, concrete, non-auto-created related field points to it. It is not-required iff a blank one does, and there are none when only required dependencies are asked for. |
| ModelDeps.Dedup | kaskader/tests/generators.py:608-617 | The dict comprehension's key order: no repetition, exactly the listed models, each at the position of its first occurrence (so a repetition-free list is kept as is). |
| ModelDeps.Initial | kaskader/tests/generators.py:608-617 | The initial dictionary has exactly the listed models as keys, each mapped to its direct required and not-required dependencies. |
| ModelDeps.MissingModels | kaskader/tests/generators.py:619-625 | A model is missing iff some listed model directly requires it, it is not listed itself, and it is not ContentType. |
| ModelDeps.Base | kaskader/tests/generators.py:608-637 | The keys are the listed models and the missing models, ContentType excepted. Each key maps to its direct dependencies. |
| ModelDeps.ApplyManual | kaskader/tests/generators.py:639-642 | Manual sets are unioned into the required sets, and the keys are unchanged. A non-empty manual entry for a model that is not a key raises (`KeyError`), and only then. |
| ModelDeps.Seed | kaskader/tests/generators.py:604-642 | The dictionary before deepening: keys, values and the `KeyError` case, stated in terms of the schema. |
| ModelDeps.Step | kaskader/tests/generators.py:647-650 | One inner loop changes only the visited model's required set, to its old set plus the required sets of those of its requirements that are keys. |
| ModelDeps.Pass | kaskader/tests/generators.py:645-650 | A deepening pass only adds to required sets, and it never changes the keys or the not-required sets. |
| ModelDeps.PassCovers | kaskader/tests/generators.py:645-650 | After one pass, a key's required set holds the required sets of its direct requirements, even though the pass updates in place. |
| ModelDeps.Deepen | kaskader/tests/generators.py:644-650 | The two passes keep the keys and not-required sets and only grow required sets. |
| ModelDeps.DeepenReachesFourHops | kaskader/tests/generators.py:644-650 | After the two passes, every key requires everything reachable along at most four required edges. In particular it requires each direct requirement's required set. |
| ModelDeps.DeepenSound | kaskader/tests/generators.py:644-650 | The passes add nothing that a transitively closed cover of the seed lacks. |
| ModelDeps.ModelsDependency | kaskader/tests/generators.py:604-652 | The result fails iff the manual step fails. Otherwise the keys are listed once, in insertion order, and the deepened map only grows the seed. |
| ModelDeps.ManualModelsListed | kaskader/tests/generators.py:584-591 | When every manual dependency's model is in the model list, as `get_models` guarantees by appending them, the construction never meets the `KeyError`. |
| ModelDeps.RequiredModelsAreKeys | kaskader/tests/generators.py:619-637 | When the construction succeeds, every model required by a listed model is a key, ContentType excepted. |
| ModelDeps.KeysKeepDirectAndManual | kaskader/tests/generators.py:606-650 | When the construction succeeds, every key has fields in the schema. Its required set still holds its direct requirements and its manual relations, and its not-required set is exactly its direct one. |
| ModelDeps.ModelsDependencyReach | kaskader/tests/generators.py:604-652 | On success, each key requires everything within four required edges of the seed, and nothing outside its transitive closure. |
| DepOrder.Compare | kaskader/tests/generators.py:656-694 | Raises exactly when x and y require each other. Otherwise it returns -1, 0 or 1, and -1 when y requires x (1 when x requires y). |
| DepOrder.Antisymmetric | kaskader/tests/generators.py:656-694 | compare(x, y) raises iff compare(y, x) does, and otherwise compare(x, y) = -compare(y, x). |
| DepOrder.ZeroIffNoRule | kaskader/tests/generators.py:656-694 | The comparator returns 0 exactly when no rule fires: no one-sided required or not-required edge and equal set sizes. |
| DepOrder.BlankEdgeDecides | kaskader/tests/generators.py:670-676 | Without required edges, a one-sided not-required edge decides the order. |
| DepOrder.FallsBackToSizes | kaskader/tests/generators.py:678-694 | Without deciding edges, the order is by required-set size, then by not-required-set size. |
| DepOrder.NotTransitive | kaskader/tests/generators.py:656-694 | Three models on which the comparator is cyclic, so the sort gets no consistent order. |
| MockValues.MockRange | kaskader/tests/generators.py:1080-1104 | The range is [1, 9] with no validators or a first validator that is neither min nor max. Exactly two min/max validators give the range between the two limits. Otherwise the first validator decides: MinValue m gives [m, m+9]. MaxValue M gives [1, M] and raises when M < 1. |
| MockValues.NumFieldMockValue | kaskader/tests/generators.py:1080-1104 | The drawn value lies in that range. It satisfies a single first validator, and both validators of a MinValue/MaxValue pair whose minimum does not exceed its maximum. It fails exactly when the range is empty. |
| MockValues.InvertedPairFailsBoth | kaskader/tests/generators.py:1082-1086 | A minimum of 5 with a maximum of 3 gives the sorted range [3, 5], so the value 4 can be drawn and it fails both validators. |
| MockValues.SameKindPairIgnoresStricterLimit | kaskader/tests/generators.py:1082-1090 | Two MinValue validators give the range between them, so a value can violate the stricter one. |
| UrlArgs.FindArgs | kaskader/tests/generators.py:1379 | `re.findall(r'<([:\w]+)>')`: every token is a non-empty run of word characters and ':' that appears in the pattern between '<' and '>', and every such bracketed run found scanning from the left is returned. |
| UrlArgs.FindArgsAt | kaskader/tests/generators.py:1379 | At a match `<t>` at index i, the tokens are those before i, then t, then those after the closing '>'. |
| UrlArgs.FindArgsOrder | kaskader/tests/generators.py:1379 | Matches are returned in pattern order: a match starting earlier comes at an earlier index. |
| UrlArgs.FindArgsToken | kaskader/tests/generators.py:1379 | A pattern that starts with `<token>`, the token made of word characters and ':', yields that token followed by the arguments of the rest. |
| UrlArgs.FindArgsPlain | kaskader/tests/generators.py:1379 | Text without '<' in front of the rest contributes no argument. |
| UrlArgs.CarDetailArgs | kaskader/tests/generators.py:1379 | The pattern `cars/<int:pk>/` yields just `int:pk`. |
| UrlArgs.ArgName | kaskader/tests/generators.py:1481 | An argument's name holds no ':', and is the whole argument when it has none. |
| UrlArgs.ArgNameSecond | kaskader/tests/generators.py:1481 | For an argument of two or more ':'-separated parts, the name is the second part, whatever follows. |
| UrlArgs.SplitArg | kaskader/tests/generators.py:1481-1510 | The unpacking raises iff the argument has two or more ':'. Otherwise the name is the part after ':' (the whole token without one), and the type defaults to `int`. |
| UrlArgs.SplitArgRoundTrip | kaskader/tests/generators.py:1510 | Splitting `type:name` gives back the type and the name. |
| UrlArgs.ViewModel | kaskader/tests/generators.py:1497-1507 | The view's model comes first; then the queryset's model when the view has a queryset that is non-empty (the truthiness test runs a query); otherwise a model is found iff exactly one model's short label prefixes the last ':'-part of the URL name, and then it is that model. |
| UrlArgs.PkByName | kaskader/tests/generators.py:1530-1538 | A `<model>_pk` name matches only pk candidates of listed models whose short label or verbose name gives that name. |
| UrlArgs.FieldMatch | kaskader/tests/generators.py:1540-1551 | Every candidate is grounded, and when some field has the argument's name and converter kind, every candidate is such a field (the fallback steps are not consulted). |
| UrlArgs.FallbackMatch | kaskader/tests/generators.py:1551-1571 | Every candidate is grounded, and when some non-proxy model has a field of the argument's name, every candidate is such a field. |
| UrlArgs.MatchArg | kaskader/tests/generators.py:1513-1571 | The pk argument matches the view model. Every candidate is grounded in a listed model, field or property. A `_pk` name matches only pk candidates of listed models. |
| UrlArgs.Resolution | kaskader/tests/generators.py:1513-1612 | Reference definition of what one argument resolves to: nothing for an unsplittable argument or an unknown non-pk converter, otherwise the normalized object value of the single matched candidate, if that value exists. |
| UrlArgs.ResolveOne | kaskader/tests/generators.py:1513-1613 | An unknown converter on a non-pk argument yields a URL ARG TYPE failure and nothing else. Otherwise, unless exactly one candidate with a model is found, a URL ARG MATCH failure is appended; with one, a missing object attribute appends URL ARG PARSE, and a present one binds the name to its normalized value. Existing keys are kept. |
| UrlArgs.ResolveOneResolution | kaskader/tests/generators.py:1513-1612 | For an argument whose name is still unbound, one iteration binds the name iff the argument has a `Resolution`, and binds it to that value. |
| UrlArgs.Normalize | kaskader/tests/generators.py:1598-1599 | Booleans become the strings "True"/"False"; because `1 == True` and `0 == False`, the integers 1 and 0 become "1" and "0"; every other value is kept, and no boolean survives. |
| UrlArgs.ResolveFrom | kaskader/tests/generators.py:1509-1613 | The loop raises iff an argument has two or more ':'. New keys are argument names, earlier keys and failures are kept, and each first-seen unresolved argument with an unknown converter is reported as URL ARG TYPE. Every first-seen argument that reaches the loop unbound and has a `Resolution` gets its name bound to that value (`Binds`). Every new binding comes from such an argument of the same name (`BoundBy`). |
| UrlArgs.ArgFailsOnly | kaskader/tests/generators.py:1509-1613 | The loop reports only per-argument failures, each about an argument of the pattern. |
| UrlArgs.ZipMap | kaskader/tests/generators.py:1489-1490 | `dict(zip(names, values))`: the keys are exactly the names among the first min(len(names), len(values)), each paired with a value. |
| UrlArgs.ZipMapLast | kaskader/tests/generators.py:1489-1490 | A repeated name keeps the value of its last pairing. |
| UrlArgs.InitialKwargs | kaskader/tests/generators.py:1483-1492 | Supplied `url_kwargs` are restricted to the argument names, values unchanged. Without them, positional values are zipped with the argument names; with no positional values, or no arguments, the map is empty. |
| UrlArgs.Resolved | kaskader/tests/generators.py:1494-1613 | The matching loop runs only when some name is unbound. It keeps the supplied keys and binds only argument names. Every first-seen argument that is not supplied and has a `Resolution` is bound to it, and every new binding is the `Resolution` of an argument of that name. |
| UrlArgs.PrepareUrlArgs | kaskader/tests/generators.py:1472-1633 | Raises iff the loop runs and meets a two-colon argument. The resolved keys are argument names, and supplied ones are kept. A URL ARGS PARSED failure is reported iff the resolved keys differ from the set of argument names. With every name supplied, nothing is reported. On success, every first-seen argument that is not supplied and has a `Resolution` is bound to it, and every binding not supplied is such a `Resolution`. |
| UrlArgs.ArgumentGenerated | kaskader/tests/generators.py:1509-1612 | When no argument has two ':', a first-seen, unsupplied argument whose converter is known (or that is `pk`), whose match is a single candidate with a model, and whose object attribute exists, ends up in the URL kwargs with the normalized attribute value. |
| UrlArgs.UnknownConverterReported | kaskader/tests/generators.py:1517-1528 | An unresolved, first-seen, non-pk argument with a converter other than int, str and slug yields a URL ARG TYPE failure. |

## Left out

- Django reflection is replaced by abstract records:
  - `_meta.get_fields`, `get_models`, `apps_to_check`;
  - the field, form-field and field-name maps;
  - `isinstance(f, RelatedField)`, which the field record's `relatedModel` stands for;
  - `inspect.getmembers` for properties, which the model record's property names stand for.
- Object generation and database access are left out: `generate_obj`, `generate_model_objs`, `get_generated_obj`, `next_id`. `prepare_url` reads generated attribute values from a map. An absent entry stands for an attribute that is `None`.
- HTTP test-client driving is left out: `get_url_test`, `post_url_test`, `crawl_test_url`'s request, cookie and permission handling, `RequestFactory`. It is I/O against Django.
- `reverse(path_name, kwargs=...)` and the `request_kwargs` query string at the end of `prepare_url` (lines 1620-1631) call Django's URL resolver and are not modelled. In particular, whether Django resolves a name with an empty namespace segment, such as the `x::y:n` of `UrlCrawl.EmptyNamespaceSegment`, is outside the model. So is the `params_map['parsed']` bookkeeping, which only records the objects used.
- The sort in `get_sorted_models_dependency` and its `move_to_end` reordering (lines 697-706) are left out. The comparator is not transitive (`DepOrder.NotTransitive`), so the sort promises no order.
- Source and module introspection are foreign runtime calls and are left out: `parse_args`, `generate_func_args`, `get_url_views_by_module`, `get_submodule_names`, `import_modules_if_needed`, and the module import in `get_urls_from_excluded_modules`. `UrlCrawl.ExcludedUrlNames` takes the excluded modules' URL lists as input.
- The caching in `collect_urls` computes the excluded names once into a class attribute. It is not modelled: `UrlCrawl.CollectUrls` takes the names as a parameter.
- UrlCrawl.CollectUrls: the target list `_urls` (line 1947) is a class attribute shared by every subclass, and `collect_url` creates a fresh one only when the attribute is missing (lines 1988-1989). `collect_urls` returns the whole list (line 1979), and `collect_urls_in_chunks` chunks it (line 1956), so a second crawl also returns the URLs of earlier crawls. The model gives only what one crawl appends: the returned list is the earlier contents followed by `CollectUrls`, and `CollectUrlsAppend` states how crawls compose. `_exclude_urls` (line 1948) is shared in the same way.
- ModelDeps.ModelsDependency: takes any model list. Its `KeyError` failure is reachable only for lists that `get_models` (lines 584-591) never produces; see `ModelDeps.ManualModelsListed`.
- Python-2-only branches, file mocks (`get_pdf_file_mock`, `get_image_file_mock`) and everything under `example/` are left out.
- Chunks.Chunkify: the float arithmetic of the source is replaced by integers. With a float `chunk_length`, `int(last)` equals the integer value for every list length a test suite can hold. It requires n > 0: the source divides by zero for n = 0 and never terminates for n < 0 on a non-empty list.
- ModelDeps.ModelsDependency: the insertion order of missing models comes from a Python set, so it is a parameter. The requires says it enumerates the missing models once each. The schema must be closed (every related model has fields), as Django's registry guarantees.
- ModelDeps.ModelsDependency: the not-required set is `{}` (an empty dict) in the source when only required dependencies are asked for. It is modelled as the empty set.
- MockValues.NumFieldMockValue: for a MinValue/MaxValue pair whose minimum exceeds its maximum, no validator is promised to pass, because the source sorts the limits and the value may fail both (`MockValues.InvertedPairFailsBoth`).
- MockValues.NumFieldMockValue: limits are integers. The source truncates a MinValue or MaxValue limit with `int()` and keeps a float pair as is; float limits are not modelled.
- UrlArgs.FindArgs: `\w` is modelled as ASCII letters, digits and '_'. Python's Unicode word characters are not modelled, and neither are non-ASCII `lower()` and `replace` in model-name matching.
- UrlArgs.MatchArg: the contract states grounding and the pk cases. The precise order of the fallback steps is stated by its definition only.
- UrlArgs.PkByName: the contract states which candidates may appear; that the short-label step wins when it finds exactly one model is stated by its definition only.
- UrlArgs.FieldMatch: the narrowing to the view model when several typed fields match is stated by its definition only.
- UrlArgs.FallbackMatch: the order of the steps after the first (`<model>_<field>`, view-model properties, view-model fields containing the name) is stated by its definition only.
- UrlArgs.ViewModel: whether a queryset is non-empty needs a database query, so it is an input flag of the view.
