/**
 * Annotating a built forest for one request: every node gets its item's
 * resolved URL; the first node in pre-order whose URL equals the full
 * request path (query string included) becomes active, or, failing that
 * and when the bare path is non-empty, the first node whose URL equals
 * the bare path. The active node and its ancestors are expanded, its
 * proper ancestors are marked as ancestors, and its direct children are
 * expanded. With no match, no flag changes.
 */
module Annotate {
  import opened Wrappers
  import opened Models
  import opened Tree
  import opened Paths

  // ----- URLs -----

  /** `n` and everything below it with URLs resolved. */
  function UrlNode(n: Node, env: Env): Node
    decreases n, 1
  {
    n.(url := ResolvedUrl(n.item, env), children := SetUrls(n.children, env))
  }

  /** Every node of `f` with its URL set to its item's resolved URL. */
  function SetUrls(f: seq<Node>, env: Env): (r: seq<Node>)
    ensures |r| == |f|
    decreases f, 0
  {
    seq(|f|, i requires 0 <= i < |f| => UrlNode(f[i], env))
  }

  /**
   * URL assignment keeps the shape of the forest and every item and flag,
   * and gives each node its item's resolved URL.
   */
  lemma {:induction false} SetUrlsAt(f: seq<Node>, env: Env, q: Path)
    ensures ValidPath(SetUrls(f, env), q) <==> ValidPath(f, q)
    ensures ValidPath(f, q) ==>
      LabelOf(At(SetUrls(f, env), q)) == LabelOf(At(f, q)).(url := ResolvedUrl(At(f, q).item, env))
    decreases |q|
  {
    var u := SetUrls(f, env);
    if |q| > 1 && q[0] < |f| {
      assert u[q[0]].children == SetUrls(f[q[0]].children, env);
      SetUrlsAt(f[q[0]].children, env, q[1..]);
    }
  }

  lemma SetUrlsSpec(f: seq<Node>, env: Env)
    ensures SameShape(SetUrls(f, env), f)
    ensures forall q :: ValidPath(f, q) ==>
      LabelOf(At(SetUrls(f, env), q)) == LabelOf(At(f, q)).(url := ResolvedUrl(At(f, q).item, env))
  {
    forall q
      ensures ValidPath(SetUrls(f, env), q) <==> ValidPath(f, q)
      ensures ValidPath(f, q) ==>
        LabelOf(At(SetUrls(f, env), q)) == LabelOf(At(f, q)).(url := ResolvedUrl(At(f, q).item, env))
    {
      SetUrlsAt(f, env, q);
    }
  }

  // ----- flags -----

  /** The flags a render raises. */
  datatype Flag = Active | Ancestor | Expanded

  /** `n` with the flag `fl` raised. */
  function Raise(n: Node, fl: Flag): Node {
    match fl
    case Active => n.(isActive := true)
    case Ancestor => n.(isAncestor := true)
    case Expanded => n.(expanded := true)
  }

  /** The label of a node once `fl` is raised on it. */
  function RaiseLabel(l: Label, fl: Flag): Label {
    match fl
    case Active => l.(isActive := true)
    case Ancestor => l.(isAncestor := true)
    case Expanded => l.(expanded := true)
  }

  /** `f` with `fl` raised on the node at `p`. */
  function SetFlag(f: seq<Node>, p: Path, fl: Flag): (r: seq<Node>)
    requires ValidPath(f, p)
    ensures |r| == |f|
    decreases |p|
  {
    var n := f[p[0]];
    if |p| == 1 then f[p[0] := Raise(n, fl)]
    else f[p[0] := n.(children := SetFlag(n.children, p[1..], fl))]
  }

  /** Raising a flag at `p` keeps the shape and changes the label at `p` only. */
  lemma {:induction false} SetFlagAt(f: seq<Node>, p: Path, fl: Flag, q: Path)
    requires ValidPath(f, p)
    ensures ValidPath(SetFlag(f, p, fl), q) <==> ValidPath(f, q)
    ensures ValidPath(f, q) ==>
      LabelOf(At(SetFlag(f, p, fl), q))
        == (if q == p then RaiseLabel(LabelOf(At(f, q)), fl) else LabelOf(At(f, q)))
    decreases |p|
  {
    var g := SetFlag(f, p, fl);
    if |q| > 0 && q[0] < |f| {
      if q[0] != p[0] {
        assert g[q[0]] == f[q[0]];
      } else if |p| == 1 {
        assert g[q[0]].children == f[q[0]].children;
      } else {
        assert g[q[0]].children == SetFlag(f[q[0]].children, p[1..], fl);
        SetFlagAt(f[q[0]].children, p[1..], fl, q[1..]);
        if |q| > 1 {
          assert q == p <==> q[1..] == p[1..] by {
            assert q == [q[0]] + q[1..] && p == [p[0]] + p[1..];
          }
        }
      }
    }
  }

  /** Raising a flag at `p` keeps the shape and changes the label at `p` only, for every position at once. */
  lemma SetFlagSpec(f: seq<Node>, p: Path, fl: Flag)
    requires ValidPath(f, p)
    ensures SameShape(SetFlag(f, p, fl), f)
    ensures forall q :: ValidPath(f, q) ==>
      LabelOf(At(SetFlag(f, p, fl), q))
        == (if q == p then RaiseLabel(LabelOf(At(f, q)), fl) else LabelOf(At(f, q)))
  {
    forall q
      ensures ValidPath(SetFlag(f, p, fl), q) <==> ValidPath(f, q)
      ensures ValidPath(f, q) ==>
        LabelOf(At(SetFlag(f, p, fl), q))
          == (if q == p then RaiseLabel(LabelOf(At(f, q)), fl) else LabelOf(At(f, q)))
    {
      SetFlagAt(f, p, fl, q);
    }
  }

  // ----- the outcome of marking -----

  /**
   * The label of the node at `q` once `a` is active: active iff `q` is `a`,
   * an ancestor iff `q` is a proper prefix of `a`, expanded iff `q` is a
   * prefix of `a` or a child of `a`; every other part as before.
   */
  function Marked(l: Label, q: Path, a: Path): Label {
    l.(isActive := l.isActive || q == a,
       isAncestor := l.isAncestor || q < a,
       expanded := l.expanded || q <= a || (|q| == |a| + 1 && a < q))
  }

  /** `g` is `f` with the node at `a` made active and the path to it opened. */
  ghost predicate MarkedFrom(f: seq<Node>, g: seq<Node>, a: Path) {
    && SameShape(g, f)
    && forall q :: ValidPath(f, q) ==> LabelOf(At(g, q)) == Marked(LabelOf(At(f, q)), q, a)
  }

  /** Some node of `f` has URL `target`. */
  ghost predicate HasMatch(f: seq<Node>, target: string) {
    exists q :: ValidPath(f, q) && At(f, q).url == target
  }

  /** `a` is the lexicographically least node of `f` with URL `target`. */
  ghost predicate IsFirstMatch(f: seq<Node>, a: Path, target: string) {
    && ValidPath(f, a)
    && At(f, a).url == target
    && forall q :: ValidPath(f, q) && PathBefore(q, a) ==> At(f, q).url != target
  }

  // ----- the search -----

  /** The index of the first path of `order` whose node has URL `target`. */
  method FindFirst(f: seq<Node>, order: seq<Path>, target: string) returns (r: Option<nat>)
    requires forall k :: 0 <= k < |order| ==> ValidPath(f, order[k])
    ensures r.Some? ==> r.value < |order| && At(f, order[r.value]).url == target
    ensures r.Some? ==> forall k :: 0 <= k < r.value ==> At(f, order[k]).url != target
    ensures r.None? ==> forall k :: 0 <= k < |order| ==> At(f, order[k]).url != target
  {
    var k := 0;
    while k < |order|
      invariant 0 <= k <= |order|
      invariant forall j :: 0 <= j < k ==> At(f, order[j]).url != target
    {
      if At(f, order[k]).url == target {
        return Some(k);
      }
      k := k + 1;
    }
    return None;
  }

  /**
   * Searching the pre-order walk finds the lexicographically least match,
   * and finds nothing exactly when no node matches.
   */
  lemma FirstInPreorder(f: seq<Node>, target: string, r: Option<nat>)
    requires forall k :: 0 <= k < |Preorder(f)| ==> ValidPath(f, Preorder(f)[k])
    requires r.Some? ==> r.value < |Preorder(f)| && At(f, Preorder(f)[r.value]).url == target
    requires r.Some? ==> forall k :: 0 <= k < r.value ==> At(f, Preorder(f)[k]).url != target
    requires r.None? ==> forall k :: 0 <= k < |Preorder(f)| ==> At(f, Preorder(f)[k]).url != target
    ensures r.Some? ==> IsFirstMatch(f, Preorder(f)[r.value], target)
    ensures r.None? <==> !HasMatch(f, target)
  {
    var order := Preorder(f);
    PreorderSpec(f);
    if r.Some? {
      forall q | ValidPath(f, q) && PathBefore(q, order[r.value])
        ensures At(f, q).url != target
      {
        FirstIsLeast(order, r.value, q);
      }
    } else {
      forall q | ValidPath(f, q)
        ensures At(f, q).url != target
      {
        var k :| 0 <= k < |order| && order[k] == q;
      }
    }
  }

  /** The path `order[r]` for a found index; the search result as a path. */
  method Search(f: seq<Node>, target: string) returns (a: Option<Path>)
    ensures a.Some? ==> IsFirstMatch(f, a.value, target)
    ensures a.None? <==> !HasMatch(f, target)
  {
    var order := Preorder(f);
    PreorderSpec(f);
    var r := FindFirst(f, order, target);
    FirstInPreorder(f, target, r);
    a := if r.Some? then Some(order[r.value]) else None;
  }

  // ----- the walk up and the children -----

  /** A prefix of `a` is `a` cut at its own length. */
  lemma PrefixIsTake(q: Path, a: Path)
    requires q <= a
    ensures q == a[..|q|]
  {
  }

  /** A path one longer than `a` that extends it is `a` plus one child index. */
  lemma ChildOfPath(q: Path, a: Path)
    requires |q| == |a| + 1 && a < q
    ensures q == a + [q[|a|]]
  {
  }

  /**
   * The labels while walking up from the active node at `a`: the cursors
   * at depths above `k` are done, so the prefixes of `a` of length `k` or
   * more are expanded (once a first cursor is done), and the proper ones
   * among them are ancestors.
   */
  function UpLabel(l: Label, q: Path, a: Path, k: nat): Label {
    l.(isActive := l.isActive || q == a,
       isAncestor := l.isAncestor || (q < a && |q| >= k),
       expanded := l.expanded || (q <= a && |q| >= k && k < |a|))
  }

  /** `g` is `f` part-way through the walk up from `a`, with the cursor at depth `k`. */
  ghost predicate WalkedUp(f: seq<Node>, g: seq<Node>, a: Path, k: nat) {
    && SameShape(g, f)
    && forall q :: ValidPath(f, q) ==> LabelOf(At(g, q)) == UpLabel(LabelOf(At(f, q)), q, a, k)
  }

  /** One step of the walk: the cursor at depth `k` is expanded, and its parent, if any, expanded and marked. */
  function RaiseCursor(g: seq<Node>, a: Path, k: nat): seq<Node>
    requires ValidPath(g, a)
    requires 0 < k <= |a|
  {
    PrefixValid(g, a, a[..k]);
    var g1 := SetFlag(g, a[..k], Expanded);
    if k == 1 then g1
    else
      SetFlagSpec(g, a[..k], Expanded);
      PrefixValid(g1, a, a[..k - 1]);
      var g2 := SetFlag(g1, a[..k - 1], Expanded);
      SetFlagSpec(g1, a[..k - 1], Expanded);
      SetFlag(g2, a[..k - 1], Ancestor)
  }

  /** One step of the walk up moves the cursor one level higher. */
  lemma RaiseCursorStep(f: seq<Node>, g: seq<Node>, a: Path, k: nat)
    requires ValidPath(f, a) && 0 < k <= |a|
    requires WalkedUp(f, g, a, k)
    ensures ValidPath(g, a)
    ensures WalkedUp(f, RaiseCursor(g, a, k), a, k - 1)
  {
    if k == 1 {
      RaiseTopCursor(f, g, a);
    } else {
      RaiseInnerCursor(f, g, a, k);
    }
  }

  /** The last step: the cursor is a root, which is expanded and has no parent to mark. */
  lemma RaiseTopCursor(f: seq<Node>, g: seq<Node>, a: Path)
    requires ValidPath(f, a)
    requires WalkedUp(f, g, a, 1)
    ensures ValidPath(g, a)
    ensures WalkedUp(f, RaiseCursor(g, a, 1), a, 0)
  {
    PrefixValid(g, a, a[..1]);
    var g1 := SetFlag(g, a[..1], Expanded);
    SetFlagSpec(g, a[..1], Expanded);
    forall q | ValidPath(f, q)
      ensures LabelOf(At(g1, q)) == UpLabel(LabelOf(At(f, q)), q, a, 0)
    {
      if q <= a {
        PrefixIsTake(q, a);
      }
    }
  }

  /** A step below the roots: the cursor is expanded, and its parent expanded and marked as an ancestor. */
  lemma RaiseInnerCursor(f: seq<Node>, g: seq<Node>, a: Path, k: nat)
    requires ValidPath(f, a) && 1 < k <= |a|
    requires WalkedUp(f, g, a, k)
    ensures ValidPath(g, a)
    ensures WalkedUp(f, RaiseCursor(g, a, k), a, k - 1)
  {
    PrefixValid(g, a, a[..k]);
    var g1 := SetFlag(g, a[..k], Expanded);
    SetFlagSpec(g, a[..k], Expanded);
    PrefixValid(g1, a, a[..k - 1]);
    var g2 := SetFlag(g1, a[..k - 1], Expanded);
    SetFlagSpec(g1, a[..k - 1], Expanded);
    var g3 := SetFlag(g2, a[..k - 1], Ancestor);
    SetFlagSpec(g2, a[..k - 1], Ancestor);
    forall q | ValidPath(f, q)
      ensures LabelOf(At(g3, q)) == UpLabel(LabelOf(At(f, q)), q, a, k - 1)
    {
      if q <= a {
        PrefixIsTake(q, a);
      }
    }
  }

  /** The labels while expanding the children of the active node: those before `i` are done. */
  function ChildLabel(l: Label, q: Path, a: Path, i: nat): Label {
    l.(isActive := l.isActive || q == a,
       isAncestor := l.isAncestor || q < a,
       expanded := l.expanded || q <= a || (|q| == |a| + 1 && a < q && q[|a|] < i))
  }

  /** `g` is `f` with the walk up done and the first `i` children of `a` expanded. */
  ghost predicate ChildrenDone(f: seq<Node>, g: seq<Node>, a: Path, i: nat) {
    && SameShape(g, f)
    && forall q :: ValidPath(f, q) ==> LabelOf(At(g, q)) == ChildLabel(LabelOf(At(f, q)), q, a, i)
  }

  /** A finished walk up is the start of the children loop. */
  lemma StartChildren(f: seq<Node>, g: seq<Node>, a: Path)
    requires ValidPath(f, a)
    requires WalkedUp(f, g, a, 0)
    ensures ChildrenDone(f, g, a, 0)
  {
  }

  /** Expanding child `i` of `a` advances the children loop by one. */
  lemma ExpandChildStep(f: seq<Node>, g: seq<Node>, a: Path, i: nat)
    requires ValidPath(f, a) && i < |At(f, a).children|
    requires ChildrenDone(f, g, a, i)
    ensures ValidPath(g, a + [i])
    ensures ChildrenDone(f, SetFlag(g, a + [i], Expanded), a, i + 1)
  {
    ChildPath(f, a, i);
    var g1 := SetFlag(g, a + [i], Expanded);
    SetFlagSpec(g, a + [i], Expanded);
    forall q | ValidPath(f, q)
      ensures LabelOf(At(g1, q)) == ChildLabel(LabelOf(At(f, q)), q, a, i + 1)
    {
      if |q| == |a| + 1 && a < q {
        ChildOfPath(q, a);
      }
    }
  }

  /** Once every child of `a` is expanded, `g` is `f` marked at `a`. */
  lemma FinishChildren(f: seq<Node>, g: seq<Node>, a: Path)
    requires ValidPath(f, a)
    requires ChildrenDone(f, g, a, |At(f, a).children|)
    ensures MarkedFrom(f, g, a)
  {
    forall q | ValidPath(f, q)
      ensures LabelOf(At(g, q)) == Marked(LabelOf(At(f, q)), q, a)
    {
      if |q| == |a| + 1 && a < q {
        ChildOfPath(q, a);
        ChildPath(f, a, q[|a|]);
      }
    }
  }

  // ----- the whole annotation -----

  /**
   * Resolves every URL, picks the active node (full path first, then the
   * bare path when it is non-empty) and opens the path to it.
   */
  method MarkActiveAndExpand(f: seq<Node>, fullPath: string, pathOnly: string, env: Env)
    returns (g: seq<Node>, active: Option<Path>)
    ensures active.None? ==> g == SetUrls(f, env)
    ensures active.None? <==>
      !HasMatch(SetUrls(f, env), fullPath) && (pathOnly == "" || !HasMatch(SetUrls(f, env), pathOnly))
    ensures active.Some? ==> MarkedFrom(SetUrls(f, env), g, active.value)
    ensures active.Some? ==>
      || IsFirstMatch(SetUrls(f, env), active.value, fullPath)
      || (!HasMatch(SetUrls(f, env), fullPath) && pathOnly != ""
          && IsFirstMatch(SetUrls(f, env), active.value, pathOnly))
  {
    var u := SetUrls(f, env);
    g := u;
    active := Search(u, fullPath);
    if active.None? && pathOnly != "" {
      active := Search(u, pathOnly);
    }
    if active.None? {
      return;
    }
    g := MarkPath(u, active.value);
  }

  /**
   * Makes the node at `a` active, walks up from it expanding every node on
   * the way and marking every parent as an ancestor, then expands the
   * children of the active node.
   */
  method MarkPath(u: seq<Node>, a: Path) returns (g: seq<Node>)
    requires ValidPath(u, a)
    ensures MarkedFrom(u, g, a)
  {
    g := SetFlag(u, a, Active);
    SetFlagSpec(u, a, Active);
    var k := |a|;
    while k > 0
      invariant 0 <= k <= |a|
      invariant WalkedUp(u, g, a, k)
    {
      RaiseCursorStep(u, g, a, k);
      g := RaiseCursor(g, a, k);
      k := k - 1;
    }
    StartChildren(u, g, a);
    var i := 0;
    while i < |At(u, a).children|
      invariant 0 <= i <= |At(u, a).children|
      invariant ChildrenDone(u, g, a, i)
    {
      ExpandChildStep(u, g, a, i);
      g := SetFlag(g, a + [i], Expanded);
      i := i + 1;
    }
    FinishChildren(u, g, a);
  }
}
