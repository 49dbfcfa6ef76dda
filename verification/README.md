# Menu tree engine

A Dafny model of the menu-tree engine of the `menus` Django app. It covers four parts:

- **Per-item logic of a menu item.**
  - The same-menu parent rule (`clean`).
  - The tolerant JSON decoder for stored route arguments (`_json_or_default`).
  - The URL priority chain (`resolved_url`): named route, then explicit URL, then `"#"`.
- **Tree assembly (`_build_tree`).**
  - A flat list of one menu's items becomes a forest.
  - An item hangs under the item its parent id names when that id is truthy and present. Otherwise it is a root.
  - Roots keep the input order. Every children list is sorted by `(order, id)`.
- **Active-path annotation (`_mark_active_and_expand`).**
  - Every node gets its item's resolved URL.
  - The first node in pre-order whose URL equals the full request path becomes active. Failing that, when the bare path is non-empty, the first node whose URL equals the bare path becomes active.
  - The active node and its ancestors are expanded. Its proper ancestors are marked as ancestors. Its direct children are expanded.
- **The render-scoped fetch cache (`menu_prefetch`, `draw_menu`).** It counts store calls, and it covers how `draw_menu` derives the full and bare request paths.

## Modules

| module | file | contents |
|---|---|---|
| `Wrappers` | wrappers.dfy | `Option` and `Outcome` |
| `Models` | models.dfy | `MenuItem`, `Json`, `Env`, `Clean`, `JsonOrDefault`, `ResolvedUrl` |
| `Ordering` | ordering.dfy | the `(order, id)` key and the sort |
| `Seqs` | seqs.dfy | `Filter`, `Distinct`, `Subsequence` |
| `Tree` | tree.dfy | `Node` and assembly (`BuildTree`) |
| `Placement` | placement.dfy | where assembly puts each item: parent chains and well-formed trees |
| `Paths` | paths.dfy | positions in a forest and the pre-order walk |
| `Shape` | shape.dfy | the assembled forest position by position |
| `Annotate` | annotate.dfy | URL assignment, the two-stage search and the marking |
| `RenderCache` | cache.dfy | prefetch, lookup and store-call counting |
| `Render` | render.dfy | request paths, the drawn-forest predicate `DrawnFor` and `DrawMenu` |

## Modelling choices

- **Positions, not object identity.**
  - The source keeps `id → node` and `id → parent` dictionaries and mutates nodes in place. The model addresses nodes by path: the list of child indices from a root.
  - With distinct ids both address the same nodes.
  - The dictionaries are filled in pre-order (menus/templatetags/menu_tags.py:53-60). Pre-order is the lexicographic order on paths, where a path comes before its extensions (`Paths.PreorderSpec`).
- **Cycles.**
  - Assembly descends from each root through a pool of items not yet used on the way down, so it terminates on any input.
  - The source links every item to its parent first. Members of a parent cycle are then never reached from a root and vanish from its output.
  - The model shows the same: an item is placed iff following its parent links ends (`Placement.PlacedIffChainEnds`).
- **Distinct ids.** Ids are primary keys, so contracts that need them require `DistinctIds`.
- **Collaborators become parameters.**
  - The route resolver and the JSON parser are fields of `Env` and return `Option`. `None` stands for `NoReverseMatch` and for text that does not parse.
  - The store is a `Store` value: a batched query that returns `(slug, item)` rows, and a single-menu query.
  - The request is an optional `Request` whose full path is `None` when `get_full_path()` raises, and whose path is `None` when the request has no `path` attribute.
- **Store calls.** The cache state counts store calls (`Cache.storeCalls`).

### Behaviours worth knowing

- **Root order.**
  - Children are sorted at every depth, but the roots are not: `sort_children` is only called on each root (menus/templatetags/menu_tags.py:39-40).
  - So roots keep the order of the item list, and two orderings of the same items can give different forests.
  - `Shape.RootOrderFollowsInput` shows two roots whose order follows the input.
- **A draw's fallback fetch.**
  - On a miss, `draw_menu` fetches the menu but does not store the result in the cache (menus/templatetags/menu_tags.py:147-154).
  - Two draws of an uncached menu cost two store calls (`RenderCache.DrawsWithoutPrefetch`).
- **Resolver errors.**
  - The `resolved_url` docstring promises `"#"` on any error.
  - Only `NoReverseMatch` is caught (menus/models.py:81). Resolver failure is modelled as `None`. Other exceptions would propagate and are not modelled.

## Model

| member | source | states |
|---|---|---|
| Models.Clean | menus/models.py:54-57 | validation fails exactly when a parent is given and it belongs to a different menu |
| Models.JsonOrDefault | menus/models.py:59-66 | empty text and text that does not parse give the default; otherwise the parsed value |
| Models.UrlOrPlaceholder | menus/models.py:82-83 | `url or "#"` is never empty, is the URL when that is non-empty and `"#"` otherwise |
| Models.ResolvedUrl | menus/models.py:68-83 | a named route that resolves wins even when an explicit URL is set; a failing or absent route falls back to the explicit URL, then `"#"` |
| Models.ResolvedUrlFollowsPriority | menus/models.py:76-83 | the resolved URL is what the first applicable rule of the three-rule priority chain offers, and no earlier rule applies |
| Models.ResolverUnusedWithoutRouteName | menus/models.py:76-83 | without a route name any two resolvers give the same URL, the explicit URL or `"#"` |
| Models.FallbackIsNeverEmpty | menus/models.py:81-83 | when the route is absent or fails the URL is never empty |
| Models.MalformedArgsActAsAbsent | menus/models.py:76-78 | route arguments that do not parse give the same URL as no arguments |
| Ordering.SortByKeySorted | menus/templatetags/menu_tags.py:34-35 | the sort leaves a sequence ascending by `(order, id)` |
| Ordering.SortByKeyPermutes | menus/templatetags/menu_tags.py:34-35 | the sort is a permutation of its input |
| Ordering.SortedArrangementIsUnique | menus/templatetags/menu_tags.py:34-35 | with distinct ids only one arrangement of a multiset is sorted, so any sort by `(order, id)` gives the same children list |
| Tree.ChildrenMembers | menus/templatetags/menu_tags.py:27-32 | the children of an item are exactly the items whose truthy parent id is its id |
| Tree.ChildrenDistinct | menus/templatetags/menu_tags.py:27-30 | no item is listed twice among one node's children |
| Placement.Find | menus/templatetags/menu_tags.py:24-29 | the id lookup finds an input item with that id, and finds nothing exactly when no input item has it |
| Placement.UpIsParent | menus/templatetags/menu_tags.py:28-30 | with distinct ids, the parent lookup finds an item exactly when the item names it as parent |
| Placement.RootIffNoParent | menus/templatetags/menu_tags.py:28-32 | an item is a root exactly when its parent id is falsy or names no input item |
| Placement.RootsProper | menus/templatetags/menu_tags.py:23-41 | the roots are the root items in input order, distinct, and each heads a tree in which every child is found by its item's parent lookup |
| Placement.EachItemAtMostOnce | menus/templatetags/menu_tags.py:23-41 | the forest lists no item twice and only input items |
| Placement.PlacedIffChainEnds | menus/templatetags/menu_tags.py:23-41 | an input item is in the forest exactly when following its parent links ends; members of a parent cycle are dropped without an error |
| Placement.EveryItemExactlyOnce | menus/templatetags/menu_tags.py:23-41 | without parent cycles the forest holds every input item exactly once |
| Shape.RootsKeepInputOrder | menus/templatetags/menu_tags.py:24-32 | the roots are exactly the items with no parent among the input, in input order |
| Shape.RootOrderFollowsInput | menus/templatetags/menu_tags.py:39-41 | two roots come out in the order they went in, in either order |
| Shape.PlacedUnderParent | menus/templatetags/menu_tags.py:27-32 | a node is top-level exactly when its item is a root; any other node's item names the item of the node above it |
| Shape.ChildrenSortedEverywhere | menus/templatetags/menu_tags.py:34-41 | below every node, at every depth, the children are sorted by `(order, id)` |
| Shape.BuiltUnmarked | menus/templatetags/menu_tags.py:13-20 | assembly leaves every node at the placeholder URL with no flag raised |
| Shape.ValidatedTreeStaysInMenu | menus/models.py:54-57 | when every item passes validation, no node hangs under a node of another menu |
| Paths.PreorderSpec | menus/templatetags/menu_tags.py:53-60 | the walk visits every node of the forest and nothing else, in lexicographic path order |
| Annotate.SetUrlsSpec | menus/templatetags/menu_tags.py:62-63 | URL assignment keeps the shape, items and flags and gives every node its item's resolved URL |
| Annotate.SetFlagSpec | menus/templatetags/menu_tags.py:87-91 | raising a flag on one node changes that node's label only |
| Annotate.FindFirst | menus/templatetags/menu_tags.py:68-72 | the scan returns the first index whose node has the target URL, or none when no node has it |
| Annotate.FirstInPreorder | menus/templatetags/menu_tags.py:65-72 | the first match in walk order is the lexicographically least matching node, and no match in the walk means no match in the forest |
| Annotate.Search | menus/templatetags/menu_tags.py:65-80 | a search returns the least matching node, or nothing exactly when no node matches |
| Annotate.MarkPath | menus/templatetags/menu_tags.py:85-95 | the active node and every prefix of its path are expanded, the proper prefixes are ancestors, the direct children are expanded, and every other label is unchanged |
| Annotate.MarkActiveAndExpand | menus/templatetags/menu_tags.py:44-95 | the full path is tried first; the bare path only when the full path has no match and is non-empty; with no match only the URLs change |
| RenderCache.ToFetch | menus/templatetags/menu_tags.py:109 | a prefetch loads exactly the requested slugs that are non-empty and not cached |
| RenderCache.Grouped | menus/templatetags/menu_tags.py:119-124 | a menu's group holds exactly the items of the rows for that slug, one per such row |
| RenderCache.GroupedOne | menus/templatetags/menu_tags.py:120-121 | a single row adds its item to its own menu's group and to no other |
| RenderCache.GroupedAppend | menus/templatetags/menu_tags.py:119-121 | grouping a concatenation is the concatenation of the groups, so each group keeps row order and repeated rows |
| RenderCache.StoreGroups | menus/templatetags/menu_tags.py:123-124 | every loaded slug gets its group, other entries stay as they were, and no other key appears |
| RenderCache.MenuPrefetch | menus/templatetags/menu_tags.py:107-126 | every non-empty requested slug gets an entry, cached entries are untouched, nothing else is added, and the store is called once if anything is new and never otherwise |
| RenderCache.EmptyMenuIsCached | menus/templatetags/menu_tags.py:119-124 | a prefetched menu without rows is cached as empty, so drawing it costs no store call |
| RenderCache.Lookup | menus/templatetags/menu_tags.py:146-154 | a hit uses the cached items and no store call; a miss costs one call and records nothing |
| RenderCache.DrawAllCost | menus/templatetags/menu_tags.py:146-154 | a run of draws leaves the entries as they were and costs one store call per draw that misses |
| RenderCache.DrawsWithoutPrefetch | menus/tests/test_menu_app.py:124-139 | without a prefetch every draw costs one store call, repeats included |
| RenderCache.PrefetchedDrawsCost | menus/tests/test_menu_app.py:141-148 | a prefetch and then draws of prefetched menus cost at most one store call in all |
| RenderCache.PrefetchKeepsItems | menus/templatetags/menu_tags.py:113-124 | with a store whose batched and single queries agree, a prefetch changes what a draw costs but not what it draws |
| Render.BeforeQuery | menus/templatetags/menu_tags.py:144 | the result is a prefix of the path that contains no `?` and stops at the first `?` or at the end |
| Render.BeforeQueryUnique | menus/templatetags/menu_tags.py:144 | any prefix with those properties is the result, so they define it |
| Render.RequestPaths | menus/templatetags/menu_tags.py:136-144 | without a request both paths are "/"; the full path falls back to the bare path and then "/"; the bare path falls back to the full path cut at its first `?` |
| Render.MarkedExactly | menus/templatetags/menu_tags.py:85-95 | after marking, a node is active iff it is the chosen node, an ancestor iff it lies above it, and expanded iff it is on its path or one of its children |
| Render.BuiltClear | menus/templatetags/menu_tags.py:18-24 | a freshly assembled forest carries no active, ancestor or expanded flag at any position |
| Render.AnnotatedForest | menus/templatetags/menu_tags.py:59-95 | annotating a flag-free forest keeps its shape and items and resolves every URL; a node is active iff it is the chosen one; with a chosen node the ancestor and expanded flags are exactly those its position implies, without one every flag stays clear |
| Render.ChosenNode | menus/templatetags/menu_tags.py:65-95 | a search result and the flags it leads to give at most one active node, the first full-path match or else the first bare-path match, none exactly when neither stage matches, and ancestor and expanded flags that follow the active node or stay clear |
| Render.AnnotationDraws | menus/templatetags/menu_tags.py:44-95 | the two-stage search and the walk-up on a flag-free forest produce a drawn forest: same shape and items, resolved URLs, flags that follow the search |
| Render.DrawForest | menus/templatetags/menu_tags.py:156-157 | the forest built from a menu's items and annotated for the two paths is a drawn forest of the assembled tree |
| Render.DrawMenu | menus/templatetags/menu_tags.py:129-159 | the result is a drawn forest of the cached or fetched items for the request's two paths: the assembled forest with resolved URLs, at most one active node, which is the first full-path match or else the first bare-path match, none exactly when neither matches, and the other flags exactly what its position implies or all clear; a hit costs no store call, a miss costs one and stays uncached |

## Left out

- ORM queries (`filter`, `select_related`, `order_by`): the store is an abstract `Store`. The row order of its queries is not modelled, because assembly re-sorts every children list and keeps roots in the order the store gives.
- Django's `reverse` and `json.loads`: they are abstract functions of `Env` that return `Option`. Exceptions other than `NoReverseMatch` are not modelled, and neither is a parser exception other than a failed parse.
- The `draw_menu.html` template and the returned context dictionary: `DrawMenu` returns the forest only.
- Mutation of the render context: the cache is an explicit value passed in and returned.
- Admin forms, the demo seeding command, settings, WSGI, URL routing, views and app registration: framework and I/O glue outside the engine.
- Concurrency: none in the source.
- Placement.EveryItemExactlyOnce: requires acyclic parent links. With a cycle the source drops the cycle's members, which `Placement.PlacedIffChainEnds` states.
- Duplicate ids: every contract that needs distinct ids requires `DistinctIds`. `Tree.BuildTree`, `Render.DrawForest` and `Render.DrawMenu` do not require it, and with a repeated id they give one node per copy of the item. The source builds `node_by_id` keyed by id (menus/templatetags/menu_tags.py:24), so it keeps one node per id, the last copy. Their contracts therefore describe the source only for items with distinct ids, which primary keys guarantee.
