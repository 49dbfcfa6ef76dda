/**
 * The menu item record and its per-item logic: the same-menu parent rule,
 * the tolerant JSON decoder for stored route arguments, and the priority
 * chain that turns an item into the URL shown in the menu.
 */
module Models {
  import opened Wrappers

  /** A decoded JSON document (numbers are kept as integers). */
  datatype Json =
    | JNull
    | JBool(b: bool)
    | JNum(n: int)
    | JStr(s: string)
    | JList(elems: seq<Json>)
    | JObject(fields: map<string, Json>)

  /**
   * One stored menu item. `parentId` is the raw foreign key (absent when
   * the item has no parent); `namedArgs` and `namedKwargs` are JSON text.
   */
  datatype MenuItem = MenuItem(
    id: int,
    menuId: int,
    parentId: Option<int>,
    title: string,
    url: string,
    namedUrl: string,
    namedArgs: string,
    namedKwargs: string,
    order: nat)

  /**
   * The collaborators an item's URL depends on: the route resolver
   * (`None` stands for a NoReverseMatch) and the JSON parser (`None`
   * stands for a document that does not parse).
   */
  datatype Env = Env(
    reverse: (string, Json, Json) -> Option<string>,
    parse: string -> Option<Json>)

  /** The URL shown for an item that has no usable target. */
  const Placeholder: string := "#"

  /** A parent reference counts only when it is present and non-zero (Python truthiness). */
  predicate Truthy(pid: Option<int>) {
    pid.Some? && pid.value != 0
  }

  /**
   * No two items share an id (ids are primary keys in the store): the
   * first item's id is not repeated later, and the same holds of the rest.
   */
  predicate DistinctIds(items: seq<MenuItem>)
    decreases |items|
  {
    |items| == 0 ||
    ((forall k :: 1 <= k < |items| ==> items[k].id != items[0].id) && DistinctIds(items[1..]))
  }

  /** Distinct ids, stated pairwise. */
  lemma {:induction false} DistinctIdsPairwise(items: seq<MenuItem>, i: nat, j: nat)
    requires DistinctIds(items)
    requires i < j < |items|
    ensures items[i].id != items[j].id
  {
    if i > 0 {
      DistinctIdsPairwise(items[1..], i - 1, j - 1);
    }
  }

  /**
   * Model validation: an item whose parent record belongs to another menu
   * is rejected; an item without a parent, or with a parent in its own
   * menu, passes.
   */
  function Clean(item: MenuItem, parent: Option<MenuItem>): (r: Outcome<string>)
    ensures r.Fail? <==> parent.Some? && parent.value.menuId != item.menuId
  {
    if parent.Some? && parent.value.menuId != item.menuId then
      Fail("the parent item must belong to the same menu")
    else
      Pass
  }

  /**
   * Tolerant decoding of a stored JSON field: empty text and text that
   * does not parse both give `default`.
   */
  function JsonOrDefault(raw: string, default: Json, parse: string -> Option<Json>): (r: Json)
    ensures r == default || parse(raw) == Some(r)
    ensures raw == "" ==> r == default
    ensures raw != "" && parse(raw).None? ==> r == default
    ensures raw != "" && parse(raw).Some? ==> r == parse(raw).value
  {
    if raw == "" then default
    else
      match parse(raw)
      case Some(v) => v
      case None => default
  }

  /** Positional route arguments of an item; an empty list when absent or malformed. */
  function RouteArgs(item: MenuItem, env: Env): Json {
    JsonOrDefault(item.namedArgs, JList([]), env.parse)
  }

  /** Keyword route arguments of an item; an empty mapping when absent or malformed. */
  function RouteKwargs(item: MenuItem, env: Env): Json {
    JsonOrDefault(item.namedKwargs, JObject(map[]), env.parse)
  }

  /** What the resolver answers for the item's route name and decoded arguments. */
  function Reverse(item: MenuItem, env: Env): Option<string> {
    env.reverse(item.namedUrl, RouteArgs(item, env), RouteKwargs(item, env))
  }

  /** `url or "#"`: the explicit URL when it is non-empty, else the placeholder. */
  function UrlOrPlaceholder(url: string): (r: string)
    ensures r != ""
    ensures url != "" ==> r == url
    ensures url == "" ==> r == Placeholder
  {
    if url != "" then url else Placeholder
  }

  /**
   * The URL an item links to. A named route that resolves wins over the
   * explicit URL; a named route that fails, or no named route at all,
   * falls back to the explicit URL and then to the placeholder.
   */
  function ResolvedUrl(item: MenuItem, env: Env): (r: string)
    ensures item.namedUrl != "" && Reverse(item, env).Some? ==> r == Reverse(item, env).value
    ensures item.namedUrl != "" && Reverse(item, env).None? ==> r == UrlOrPlaceholder(item.url)
    ensures item.namedUrl == "" ==> r == UrlOrPlaceholder(item.url)
  {
    if item.namedUrl != "" then
      match Reverse(item, env)
      case Some(path) => path
      case None => UrlOrPlaceholder(item.url)
    else
      UrlOrPlaceholder(item.url)
  }

  /** Without a route name the resolver is never consulted: any two resolvers give the same URL. */
  lemma ResolverUnusedWithoutRouteName(item: MenuItem, env1: Env, env2: Env)
    requires item.namedUrl == ""
    ensures ResolvedUrl(item, env1) == ResolvedUrl(item, env2)
    ensures ResolvedUrl(item, env1) == (if item.url != "" then item.url else Placeholder)
  {
  }

  /** Whenever the resolver is not used or fails, the URL is never empty. */
  lemma FallbackIsNeverEmpty(item: MenuItem, env: Env)
    requires item.namedUrl == "" || Reverse(item, env).None?
    ensures ResolvedUrl(item, env) != ""
  {
  }

  /** Malformed stored arguments behave exactly like absent ones. */
  lemma MalformedArgsActAsAbsent(item: MenuItem, env: Env)
    requires env.parse(item.namedArgs).None?
    requires env.parse(item.namedKwargs).None?
    ensures ResolvedUrl(item, env) == ResolvedUrl(item.(namedArgs := "", namedKwargs := ""), env)
  {
  }

  /**
   * The URL priority chain as a list of rules, tried in order: rank 0 is
   * the named route (when there is one and it resolves), rank 1 the
   * explicit URL (when non-empty), rank 2 the placeholder, which always
   * applies.
   */
  function Offered(rank: nat, item: MenuItem, env: Env): Option<string> {
    if rank == 0 then (if item.namedUrl != "" then Reverse(item, env) else None)
    else if rank == 1 then (if item.url != "" then Some(item.url) else None)
    else Some(Placeholder)
  }

  /** The resolved URL is what the first rule of the priority chain that applies offers. */
  lemma ResolvedUrlFollowsPriority(item: MenuItem, env: Env) returns (rank: nat)
    ensures rank <= 2
    ensures Offered(rank, item, env) == Some(ResolvedUrl(item, env))
    ensures forall j :: 0 <= j < rank ==> Offered(j, item, env).None?
  {
    if Offered(0, item, env).Some? {
      rank := 0;
    } else if Offered(1, item, env).Some? {
      rank := 1;
    } else {
      rank := 2;
    }
  }
}
