/**
 * The shape of an assembled forest, stated position by position: where
 * each item hangs, how siblings are ordered, and that assembly leaves
 * every node unmarked with the placeholder URL.
 */
module Shape {
  import opened Wrappers
  import opened Models
  import opened Ordering
  import opened Seqs
  import opened Tree
  import opened Placement
  import opened Paths

  /** `n` and every node below it as assembly creates them: placeholder URL, no flag raised. */
  predicate Unmarked(n: Node)
    decreases n
  {
    && n.url == Placeholder && !n.isActive && !n.isAncestor && !n.expanded
    && forall j :: 0 <= j < |n.children| ==> Unmarked(n.children[j])
  }

  /** The subtree assembly builds for `x` has sorted children at every depth. */
  lemma {:induction false} SubtreeSorted(x: MenuItem, pool: seq<MenuItem>)
    requires x in pool
    ensures SortedBelow(Subtree(x, pool))
    decreases |pool|
  {
    var rest := Without(pool, x);
    var kids := Children(x, rest);
    ForestShape(kids, rest);
    ChildrenSorted(x, rest);
    forall j | 0 <= j < |kids|
      ensures SortedBelow(Subtree(kids[j], rest))
    {
      SubtreeSorted(kids[j], rest);
    }
  }

  /** The subtree assembly builds for `x` is unmarked. */
  lemma {:induction false} SubtreeUnmarked(x: MenuItem, pool: seq<MenuItem>)
    requires x in pool
    ensures Unmarked(Subtree(x, pool))
    decreases |pool|
  {
    var rest := Without(pool, x);
    var kids := Children(x, rest);
    ForestShape(kids, rest);
    forall j | 0 <= j < |kids|
      ensures Unmarked(Subtree(kids[j], rest))
    {
      SubtreeUnmarked(kids[j], rest);
    }
  }

  /** The path that leads to the parent of the node at `q`. */
  function ParentPath(q: Path): Path
    requires |q| > 1
  {
    q[..|q| - 1]
  }

  /** Descending one level: the parent path of `[i] + p` is `[i]` followed by the parent path of `p`. */
  lemma ParentPathUnder(f: seq<Node>, q: Path)
    requires ValidPath(f, q) && |q| > 2
    ensures ValidPath(f[q[0]].children, ParentPath(q[1..]))
    ensures ValidPath(f, ParentPath(q))
    ensures At(f, ParentPath(q)) == At(f[q[0]].children, ParentPath(q[1..]))
  {
    assert ParentPath(q)[0] == q[0];
    assert ParentPath(q)[1..] == ParentPath(q[1..]);
    PrefixValid(f[q[0]].children, q[1..], ParentPath(q[1..]));
    PrefixValid(f, q, ParentPath(q));
  }

  /**
   * In a forest of proper trees whose tops all have parent `u`, the parent
   * lookup of every node's item finds the item of the node above it, and
   * `u` for a top.
   */
  lemma {:induction false} ParentLookupAt(items: seq<MenuItem>, f: seq<Node>, u: Option<MenuItem>, q: Path)
    requires forall j :: 0 <= j < |f| ==> Proper(f[j], items) && Up(f[j].item, items) == u
    requires ValidPath(f, q)
    ensures |q| == 1 ==> Up(At(f, q).item, items) == u
    ensures |q| > 1 ==> ValidPath(f, ParentPath(q)) && Up(At(f, q).item, items) == Some(At(f, ParentPath(q)).item)
    decreases |q|
  {
    if |q| > 1 {
      var n := f[q[0]];
      ParentLookupAt(items, n.children, Some(n.item), q[1..]);
      if |q| == 2 {
        assert ParentPath(q) == [q[0]];
      } else {
        ParentPathUnder(f, q);
      }
    }
  }

  /** In a forest of sorted trees, the children of every node are sorted. */
  lemma {:induction false} SortedAt(f: seq<Node>, q: Path)
    requires forall j :: 0 <= j < |f| ==> SortedBelow(f[j])
    requires ValidPath(f, q)
    ensures SortedByKey(ItemsOf(At(f, q).children))
    decreases |q|
  {
    if |q| > 1 {
      SortedAt(f[q[0]].children, q[1..]);
    }
  }

  /** In a forest of unmarked trees, every node is unmarked. */
  lemma {:induction false} UnmarkedAt(f: seq<Node>, q: Path)
    requires forall j :: 0 <= j < |f| ==> Unmarked(f[j])
    requires ValidPath(f, q)
    ensures Unmarked(At(f, q))
    decreases |q|
  {
    if |q| > 1 {
      UnmarkedAt(f[q[0]].children, q[1..]);
    }
  }

  // ----- the promises of assembly -----

  /**
   * The roots are exactly the items whose parent id is falsy or names no
   * input item, and they keep the input order.
   */
  lemma RootsKeepInputOrder(items: seq<MenuItem>)
    requires DistinctIds(items)
    ensures forall it :: it in ItemsOf(BuildTree(items)) <==> it in items && IsRootIn(it, items)
    ensures Subsequence(ItemsOf(BuildTree(items)), items)
  {
    RootsProper(items);
    FilterSubsequence(items, (it: MenuItem) => IsRootIn(it, items));
  }

  /**
   * Two roots come out in the order they went in, so listing the same
   * items in another order gives another forest.
   */
  lemma RootOrderFollowsInput(a: MenuItem, b: MenuItem)
    requires a.id != b.id
    requires IsRootIn(a, [a, b]) && IsRootIn(b, [a, b])
    ensures ItemsOf(BuildTree([a, b])) == [a, b]
    ensures ItemsOf(BuildTree([b, a])) == [b, a]
  {
    assert Ids([a, b]) == Ids([b, a]);
    RootsProper([a, b]);
    RootsProper([b, a]);
  }

  /**
   * Every node hangs where its parent id says: a top-level node's item has
   * a falsy parent id or one that names no input item; any other node's
   * item names the item of the node directly above it.
   */
  lemma PlacedUnderParent(items: seq<MenuItem>, q: Path)
    requires DistinctIds(items)
    requires ValidPath(BuildTree(items), q)
    ensures |q| == 1 <==> IsRootIn(At(BuildTree(items), q).item, items)
    ensures |q| > 1 ==> ValidPath(BuildTree(items), ParentPath(q))
    ensures |q| > 1 ==> ChildOf(At(BuildTree(items), q).item, At(BuildTree(items), ParentPath(q)).item)
  {
    var f := BuildTree(items);
    RootsProper(items);
    ParentLookupAt(items, f, None, q);
    RootIffNoParent(items, At(f, q).item);
    if |q| > 1 {
      var p := At(f, ParentPath(q)).item;
      assert Up(At(f, q).item, items) == Some(p);
      UpIsParent(items, At(f, q).item, p);
    }
  }

  /** Below every node of the forest, the children are sorted by `(order, id)`. */
  lemma ChildrenSortedEverywhere(items: seq<MenuItem>, q: Path)
    requires ValidPath(BuildTree(items), q)
    ensures SortedByKey(ItemsOf(At(BuildTree(items), q).children))
  {
    var roots := RootsIn(items, items);
    var f := BuildTree(items);
    ForestShape(roots, items);
    forall j | 0 <= j < |f|
      ensures SortedBelow(f[j])
    {
      SubtreeSorted(roots[j], items);
    }
    SortedAt(f, q);
  }

  /** Assembly raises no flag and leaves every URL at the placeholder. */
  lemma BuiltUnmarked(items: seq<MenuItem>, q: Path)
    requires ValidPath(BuildTree(items), q)
    ensures Unmarked(At(BuildTree(items), q))
  {
    var roots := RootsIn(items, items);
    var f := BuildTree(items);
    ForestShape(roots, items);
    forall j | 0 <= j < |f|
      ensures Unmarked(f[j])
    {
      SubtreeUnmarked(roots[j], items);
    }
    UnmarkedAt(f, q);
  }

  /** The item of every node of a forest is an item of the forest's flattening. */
  lemma {:induction false} AtInFlatten(f: seq<Node>, q: Path)
    requires ValidPath(f, q)
    ensures At(f, q).item in Flatten(f)
    decreases |q|
  {
    var n := f[q[0]];
    NodeInForest(f, q[0]);
    FlattenOne(n);
    if |q| > 1 {
      AtInFlatten(n.children, q[1..]);
    }
  }

  /**
   * When every item passes validation against the item its parent id
   * names, no node of the forest hangs under a node of another menu.
   */
  lemma ValidatedTreeStaysInMenu(items: seq<MenuItem>, q: Path)
    requires DistinctIds(items)
    requires forall k :: 0 <= k < |items| ==> Clean(items[k], Up(items[k], items)).Pass?
    requires ValidPath(BuildTree(items), q) && |q| > 1
    ensures ValidPath(BuildTree(items), ParentPath(q))
    ensures At(BuildTree(items), q).item.menuId == At(BuildTree(items), ParentPath(q)).item.menuId
  {
    var f := BuildTree(items);
    RootsProper(items);
    ParentLookupAt(items, f, None, q);
    AtInFlatten(f, q);
    EachItemAtMostOnce(items);
    var c := At(f, q).item;
    var k :| 0 <= k < |items| && items[k] == c;
    assert Clean(items[k], Up(items[k], items)).Pass?;
  }
}
