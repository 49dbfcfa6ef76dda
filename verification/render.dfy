/**
 * Drawing one menu: derive the request's full and bare paths, take the
 * menu's items from the render cache (or the store), assemble the forest
 * and annotate it for the request.
 */
module Render {
  import opened Wrappers
  import opened Models
  import opened Tree
  import opened Paths
  import opened Shape
  import opened Annotate
  import opened RenderCache

  /**
   * What a draw sees of the request: the full path with its query string
   * (None when computing it fails) and the bare path (None when the
   * request carries none).
   */
  datatype Request = Request(fullPath: Option<string>, path: Option<string>)

  /** The part of `s` before its first `?`; all of `s` when it has none. */
  function BeforeQuery(s: string): (r: string)
    ensures r <= s
    ensures '?' !in r
    ensures |r| < |s| ==> s[|r|] == '?'
  {
    if |s| == 0 || s[0] == '?' then ""
    else [s[0]] + BeforeQuery(s[1..])
  }

  /** Any prefix of `s` that stops exactly at the first `?`, or at the end, is `BeforeQuery(s)`. */
  lemma {:induction false} BeforeQueryUnique(s: string, p: string)
    requires p <= s && '?' !in p
    requires |p| < |s| ==> s[|p|] == '?'
    ensures p == BeforeQuery(s)
  {
    if |p| > 0 {
      assert p[0] in p;
      assert s[1..][|p| - 1..] == s[|p|..];
      BeforeQueryUnique(s[1..], p[1..]);
      assert p == [p[0]] + p[1..];
    }
  }

  /**
   * The full and bare paths a draw matches against. Without a request both
   * are "/". Otherwise the full path is the request's, falling back to its
   * bare path and then "/"; the bare path is the request's, falling back
   * to the full path cut at its first `?`.
   */
  function RequestPaths(req: Option<Request>): (r: (string, string))
    ensures req.None? ==> r == ("/", "/")
    ensures req.Some? ==> r.0 == req.value.fullPath.GetOr(req.value.path.GetOr("/"))
    ensures req.Some? && req.value.path.Some? ==> r.1 == req.value.path.value
    ensures req.Some? && req.value.path.None? ==>
      r.1 <= r.0 && '?' !in r.1 && (|r.1| < |r.0| ==> r.0[|r.1|] == '?')
  {
    match req
    case None => ("/", "/")
    case Some(rq) =>
      var full := match rq.fullPath
        case Some(fp) => fp
        case None => rq.path.GetOr("/");
      (full, rq.path.GetOr(BeforeQuery(full)))
  }

  /** No node of `f` carries a flag. */
  ghost predicate Clear(f: seq<Node>) {
    forall q :: ValidPath(f, q) ==> !At(f, q).isActive && !At(f, q).isAncestor && !At(f, q).expanded
  }

  /** The assembled forest carries no flag. */
  lemma BuiltClear(items: seq<MenuItem>)
    ensures Clear(BuildTree(items))
  {
    forall q | ValidPath(BuildTree(items), q)
      ensures !At(BuildTree(items), q).isActive
      ensures !At(BuildTree(items), q).isAncestor
      ensures !At(BuildTree(items), q).expanded
    {
      BuiltUnmarked(items, q);
    }
  }

  /**
   * Marking `a` in a forest with every flag clear: `a` is the only active
   * node, its proper ancestors are exactly the ancestor nodes, and the
   * expanded nodes are exactly `a`, its ancestors and its direct children.
   */
  lemma MarkedExactly(u: seq<Node>, g: seq<Node>, a: Path)
    requires forall q :: ValidPath(u, q) ==> !At(u, q).isActive && !At(u, q).isAncestor && !At(u, q).expanded
    requires MarkedFrom(u, g, a)
    ensures forall q :: ValidPath(u, q) ==>
      && At(g, q).item == At(u, q).item
      && At(g, q).url == At(u, q).url
      && (At(g, q).isActive <==> q == a)
      && (At(g, q).isAncestor <==> q < a)
      && (At(g, q).expanded <==> q <= a || (|q| == |a| + 1 && a < q))
  {
    forall q | ValidPath(u, q)
      ensures At(g, q).item == At(u, q).item && At(g, q).url == At(u, q).url
      ensures At(g, q).isActive <==> q == a
      ensures At(g, q).isAncestor <==> q < a
      ensures At(g, q).expanded <==> q <= a || (|q| == |a| + 1 && a < q)
    {
      assert LabelOf(At(g, q)) == Marked(LabelOf(At(u, q)), q, a);
    }
  }

  /**
   * The forest a render produces from a forest `f` with no flags,
   * position by position: `f` with resolved URLs in which the chosen node,
   * if any, is the only active one, the ancestor and expanded flags are
   * exactly those its position implies, and with no chosen node every flag
   * is clear.
   */
  lemma AnnotatedForest(f: seq<Node>, env: Env, g: seq<Node>, active: Option<Path>)
    requires Clear(f)
    requires active.None? ==> g == SetUrls(f, env)
    requires active.Some? ==> MarkedFrom(SetUrls(f, env), g, active.value)
    ensures SameShape(g, f)
    ensures forall q :: ValidPath(g, q) ==>
      && At(g, q).item == At(f, q).item
      && At(g, q).url == ResolvedUrl(At(g, q).item, env)
      && (At(g, q).isActive <==> active == Some(q))
    ensures forall q :: ValidPath(g, q) && active.Some? ==>
      && (At(g, q).isAncestor <==> q < active.value)
      && (At(g, q).expanded <==> q <= active.value || (|q| == |active.value| + 1 && active.value < q))
    ensures forall q :: ValidPath(g, q) && active.None? ==> !At(g, q).isAncestor && !At(g, q).expanded
  {
    SetUrlsSpec(f, env);
    if active.Some? {
      MarkedExactly(SetUrls(f, env), g, active.value);
    }
  }

  /**
   * The flags of `g` follow the search through `u`, the forest with
   * resolved URLs: at most one node is active, namely the first in
   * pre-order whose URL is the full path, or else, when the bare path is
   * non-empty, the first whose URL is the bare path; none is active exactly
   * when neither finds a match. When one is active, the ancestor and
   * expanded flags are exactly those its position implies; when none is,
   * no flag is raised.
   */
  ghost predicate ChoiceFor(g: seq<Node>, u: seq<Node>, fullPath: string, pathOnly: string) {
    && (forall q1, q2 ::
      (ValidPath(g, q1) && ValidPath(g, q2) && At(g, q1).isActive && At(g, q2).isActive) ==> q1 == q2)
    && (forall a :: ValidPath(g, a) && At(g, a).isActive ==>
      || IsFirstMatch(u, a, fullPath)
      || (!HasMatch(u, fullPath) && pathOnly != "" && IsFirstMatch(u, a, pathOnly)))
    && ((forall q :: ValidPath(g, q) ==> !At(g, q).isActive) <==>
      !HasMatch(u, fullPath) && (pathOnly == "" || !HasMatch(u, pathOnly)))
    && (forall a, q :: ValidPath(g, a) && At(g, a).isActive && ValidPath(g, q) ==>
      && (At(g, q).isAncestor <==> q < a)
      && (At(g, q).expanded <==> q <= a || (|q| == |a| + 1 && a < q)))
    && ((forall q :: ValidPath(g, q) ==> !At(g, q).isActive) ==>
      forall q :: ValidPath(g, q) ==> !At(g, q).isAncestor && !At(g, q).expanded)
  }

  /** The search's result and the flags it leads to give a forest whose flags follow the search. */
  lemma ChosenNode(u: seq<Node>, g: seq<Node>, active: Option<Path>, fullPath: string, pathOnly: string)
    requires active.None? <==> !HasMatch(u, fullPath) && (pathOnly == "" || !HasMatch(u, pathOnly))
    requires active.Some? ==>
      || IsFirstMatch(u, active.value, fullPath)
      || (!HasMatch(u, fullPath) && pathOnly != "" && IsFirstMatch(u, active.value, pathOnly))
    requires active.Some? ==> ValidPath(g, active.value)
    requires forall q :: ValidPath(g, q) ==> (At(g, q).isActive <==> active == Some(q))
    requires forall q :: ValidPath(g, q) && active.Some? ==>
      && (At(g, q).isAncestor <==> q < active.value)
      && (At(g, q).expanded <==> q <= active.value || (|q| == |active.value| + 1 && active.value < q))
    requires forall q :: ValidPath(g, q) && active.None? ==> !At(g, q).isAncestor && !At(g, q).expanded
    ensures ChoiceFor(g, u, fullPath, pathOnly)
  {
    if active.Some? {
      assert At(g, active.value).isActive;
    }
  }

  /**
   * `nodes` is the forest `f` drawn for the given full and bare paths: `f`
   * with every URL resolved, whose flags follow the search through it.
   */
  ghost predicate DrawnFor(nodes: seq<Node>, f: seq<Node>, fullPath: string, pathOnly: string, env: Env) {
    && SameShape(nodes, f)
    && (forall q :: ValidPath(nodes, q) ==>
      && At(nodes, q).item == At(f, q).item
      && At(nodes, q).url == ResolvedUrl(At(nodes, q).item, env))
    && ChoiceFor(nodes, SetUrls(f, env), fullPath, pathOnly)
  }

  /** What the annotation pass promises about a forest with no flags is exactly a drawn forest. */
  lemma AnnotationDraws(f: seq<Node>, fullPath: string, pathOnly: string, env: Env,
                        g: seq<Node>, active: Option<Path>)
    requires Clear(f)
    requires active.None? ==> g == SetUrls(f, env)
    requires active.None? <==>
      !HasMatch(SetUrls(f, env), fullPath) && (pathOnly == "" || !HasMatch(SetUrls(f, env), pathOnly))
    requires active.Some? ==> MarkedFrom(SetUrls(f, env), g, active.value)
    requires active.Some? ==>
      || IsFirstMatch(SetUrls(f, env), active.value, fullPath)
      || (!HasMatch(SetUrls(f, env), fullPath) && pathOnly != ""
          && IsFirstMatch(SetUrls(f, env), active.value, pathOnly))
    ensures DrawnFor(g, f, fullPath, pathOnly, env)
  {
    AnnotatedForest(f, env, g, active);
    if active.Some? {
      assert ValidPath(SetUrls(f, env), active.value);
    }
    ChosenNode(SetUrls(f, env), g, active, fullPath, pathOnly);
  }

  /** Assembles the forest of `items` and annotates it for the given full and bare paths. */
  method DrawForest(items: seq<MenuItem>, fullPath: string, pathOnly: string, env: Env)
    returns (nodes: seq<Node>)
    ensures DrawnFor(nodes, BuildTree(items), fullPath, pathOnly, env)
  {
    var active;
    nodes, active := MarkActiveAndExpand(BuildTree(items), fullPath, pathOnly, env);
    BuiltClear(items);
    AnnotationDraws(BuildTree(items), fullPath, pathOnly, env, nodes, active);
  }

  /**
   * Draws the menu `slug` for `req`: the forest of the menu's items,
   * annotated for the request's full and bare paths. A cached menu costs
   * no store call; an uncached one costs one and stays uncached.
   */
  method DrawMenu(c: Cache, slug: string, req: Option<Request>, store: Store, env: Env)
    returns (nodes: seq<Node>, after: Cache)
    ensures after.entries == c.entries
    ensures after.storeCalls == c.storeCalls + (if slug in c.entries then 0 else 1)
    ensures DrawnFor(nodes, BuildTree(Lookup(c, slug, store).items), RequestPaths(req).0, RequestPaths(req).1, env)
  {
    var paths := RequestPaths(req);
    var fetched := Lookup(c, slug, store);
    after := fetched.cache;
    nodes := DrawForest(fetched.items, paths.0, paths.1, env);
  }
}
