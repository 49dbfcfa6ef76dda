/**
 * Where assembly puts each item. The reference is the parent chain of an
 * item: follow parent ids through the item list until an id is falsy or
 * names no item. Assembly places an item exactly when that chain ends
 * (items caught in a parent cycle vanish), never places one twice, and
 * so, when no parent links form a cycle, every item appears exactly once.
 */
module Placement {
  import opened Wrappers
  import opened Models
  import opened Ordering
  import opened Seqs
  import opened Tree

  /** The first item of `items` with id `id`. */
  function Find(items: seq<MenuItem>, id: int): (r: Option<MenuItem>)
    ensures r.Some? ==> r.value in items && r.value.id == id
    ensures r.None? <==> id !in Ids(items)
  {
    if |items| == 0 then None
    else if items[0].id == id then Some(items[0])
    else
      assert Ids(items) == {items[0].id} + Ids(items[1..]) by {
        assert items == [items[0]] + items[1..];
      }
      Find(items[1..], id)
  }

  /** The parent of `a` among `items`: present when `a`'s parent id is truthy and names one of them. */
  function Up(a: MenuItem, items: seq<MenuItem>): Option<MenuItem> {
    if Truthy(a.parentId) then Find(items, a.parentId.value) else None
  }

  /** The ancestor `n` links above `a` (`a` itself for 0); None once the chain has ended. */
  function UpN(a: MenuItem, items: seq<MenuItem>, n: nat): Option<MenuItem> {
    if n == 0 then Some(a)
    else
      match UpN(a, items, n - 1)
      case None => None
      case Some(z) => Up(z, items)
  }

  /** Following parent links from `a` eventually leaves the items (it does not loop forever). */
  ghost predicate ChainEnds(a: MenuItem, items: seq<MenuItem>) {
    exists n :: UpN(a, items, n).None?
  }

  /** No parent links among `items` form a cycle. */
  ghost predicate Acyclic(items: seq<MenuItem>) {
    forall a :: a in items ==> ChainEnds(a, items)
  }

  // ----- the parent relation -----

  lemma SameIdSameItem(items: seq<MenuItem>, x: MenuItem, y: MenuItem)
    requires DistinctIds(items)
    requires x in items && y in items && x.id == y.id
    ensures x == y
  {
    var i :| 0 <= i < |items| && items[i] == x;
    var j :| 0 <= j < |items| && items[j] == y;
    if i < j {
      DistinctIdsPairwise(items, i, j);
    } else if j < i {
      DistinctIdsPairwise(items, j, i);
    }
  }

  /** Items with distinct ids are distinct items. */
  lemma DistinctIdsDistinct(items: seq<MenuItem>)
    requires DistinctIds(items)
    ensures Distinct(items)
  {
    forall i, j | 0 <= i < j < |items|
      ensures items[i] != items[j]
    {
      DistinctIdsPairwise(items, i, j);
    }
  }

  /** With unique ids, the parent lookup finds `x` exactly for the items that name `x` as parent. */
  lemma UpIsParent(items: seq<MenuItem>, c: MenuItem, x: MenuItem)
    requires DistinctIds(items)
    requires x in items
    ensures Up(c, items) == Some(x) <==> ChildOf(c, x)
  {
    if ChildOf(c, x) {
      assert x.id in Ids(items);
      var found := Find(items, x.id);
      SameIdSameItem(items, found.value, x);
    }
  }

  /** A root is exactly an item whose parent lookup finds nothing. */
  lemma RootIffNoParent(items: seq<MenuItem>, r: MenuItem)
    ensures IsRootIn(r, items) <==> Up(r, items).None?
  {
  }

  /** Every link of a chain that starts in `items` stays in `items`. */
  lemma {:induction false} ChainStaysInItems(a: MenuItem, items: seq<MenuItem>, n: nat)
    requires a in items
    requires UpN(a, items, n).Some?
    ensures UpN(a, items, n).value in items
  {
    if n > 0 {
      ChainStaysInItems(a, items, n - 1);
    }
  }

  /** Once a chain has ended it stays ended. */
  lemma {:induction false} EndedStaysEnded(a: MenuItem, items: seq<MenuItem>, k: nat, n: nat)
    requires k <= n
    requires UpN(a, items, k).None?
    ensures UpN(a, items, n).None?
    decreases n - k
  {
    if k < n {
      EndedStaysEnded(a, items, k, n - 1);
    }
  }

  /** A chain that revisits an item repeats itself from then on. */
  lemma {:induction false} RevisitRepeats(a: MenuItem, items: seq<MenuItem>, i: nat, j: nat, t: nat)
    requires UpN(a, items, i) == UpN(a, items, j)
    ensures UpN(a, items, i + t) == UpN(a, items, j + t)
  {
    if t > 0 {
      RevisitRepeats(a, items, i, j, t - 1);
    }
  }

  /** A chain that revisits an item never ends. */
  lemma {:induction false} RevisitNeverEnds(a: MenuItem, items: seq<MenuItem>, i: nat, j: nat, k: nat)
    requires i < j
    requires UpN(a, items, j).Some?
    requires UpN(a, items, i) == UpN(a, items, j)
    ensures UpN(a, items, k).Some?
    decreases k
  {
    if k <= j {
      if UpN(a, items, k).None? {
        EndedStaysEnded(a, items, k, j);
      }
    } else {
      RevisitRepeats(a, items, i, j, k - j);
      RevisitNeverEnds(a, items, i, j, i + (k - j));
    }
  }

  /**
   * A chain that ends reaches a root after `d` links, with every link
   * before the end present and no item visited twice.
   */
  lemma {:induction false} EndingChainReachesRoot(a: MenuItem, items: seq<MenuItem>, n: nat) returns (d: nat)
    requires UpN(a, items, n).None?
    ensures d < n
    ensures UpN(a, items, d).Some? && UpN(a, items, d + 1).None?
    ensures forall j :: 0 <= j <= d ==> UpN(a, items, j).Some?
    ensures forall i, j :: 0 <= i < j <= d ==> UpN(a, items, i) != UpN(a, items, j)
  {
    if UpN(a, items, n - 1).Some? {
      d := n - 1;
    } else {
      d := EndingChainReachesRoot(a, items, n - 1);
    }
    forall j | 0 <= j <= d
      ensures UpN(a, items, j).Some?
    {
      if UpN(a, items, j).None? {
        EndedStaysEnded(a, items, j, d);
      }
    }
    forall i, j | 0 <= i < j <= d
      ensures UpN(a, items, i) != UpN(a, items, j)
    {
      if UpN(a, items, i) == UpN(a, items, j) {
        RevisitNeverEnds(a, items, i, j, d + 1);
      }
    }
  }


  /** Following one more link from a known ancestor `a` gives `a`'s parent. */
  lemma ChainStep(y: MenuItem, items: seq<MenuItem>, m: nat, a: MenuItem)
    requires UpN(y, items, m) == Some(a)
    ensures UpN(y, items, m + 1) == Up(a, items)
  {
  }

  /** A chain that passes `a` and goes on within `within` passes `a`'s parent there as well. */
  lemma ParentOnLongerChain(y: MenuItem, items: seq<MenuItem>, m: nat, a: MenuItem, n: nat, within: seq<MenuItem>)
    requires UpN(y, items, m) == Some(a)
    requires m < n && ChainWithin(y, items, n, within)
    ensures Up(a, items).Some? && Up(a, items).value in within
  {
    ChainStep(y, items, m, a);
    assert 0 <= m + 1 <= n;
  }

  /**
   * A chain through two different items `a` and `b` that stays in `wa` up
   * to `a` and in `wb` up to `b` passes the parent of the lower one on its
   * way to the higher one.
   */
  lemma ChainsThroughTwoTops(y: MenuItem, items: seq<MenuItem>,
                             ma: nat, a: MenuItem, wa: seq<MenuItem>,
                             mb: nat, b: MenuItem, wb: seq<MenuItem>)
    requires a != b
    requires UpN(y, items, ma) == Some(a) && ChainWithin(y, items, ma, wa)
    requires UpN(y, items, mb) == Some(b) && ChainWithin(y, items, mb, wb)
    ensures || (Up(a, items).Some? && Up(a, items).value in wb)
            || (Up(b, items).Some? && Up(b, items).value in wa)
  {
    if ma < mb {
      ParentOnLongerChain(y, items, ma, a, mb, wb);
    } else {
      ParentOnLongerChain(y, items, mb, b, ma, wa);
    }
  }

  /** The first `m` links of the chain from `y` exist and lie in `within`. */
  ghost predicate ChainWithin(y: MenuItem, items: seq<MenuItem>, m: nat, within: seq<MenuItem>) {
    forall j :: 0 <= j <= m ==> UpN(y, items, j).Some? && UpN(y, items, j).value in within
  }

  /** A chain inside `inner` that reaches `a`, whose parent is `b`, grows by one link inside any `outer` holding `inner` and `b`. */
  lemma ChainGrow(y: MenuItem, items: seq<MenuItem>, m: nat, a: MenuItem, b: MenuItem,
                  inner: seq<MenuItem>, outer: seq<MenuItem>)
    requires UpN(y, items, m) == Some(a) && Up(a, items) == Some(b)
    requires ChainWithin(y, items, m, inner)
    requires forall z :: z in inner ==> z in outer
    requires b in outer
    ensures UpN(y, items, m + 1) == Some(b)
    ensures ChainWithin(y, items, m + 1, outer)
  {
  }

  // ----- flattening a forest -----

  lemma FlattenOne(n: Node)
    ensures Flatten([n]) == [n.item] + Flatten(n.children)
  {
    assert [n][1..] == [];
  }

  lemma FlattenSplit(f: seq<Node>)
    requires |f| > 0
    ensures Flatten(f) == Flatten([f[0]]) + Flatten(f[1..])
  {
    FlattenOne(f[0]);
  }

  /** An item of a forest lies in the flattening of one of its nodes. */
  lemma {:induction false} InSomeNode(f: seq<Node>, y: MenuItem) returns (i: nat)
    requires y in Flatten(f)
    ensures i < |f| && y in Flatten([f[i]])
  {
    FlattenSplit(f);
    if y in Flatten([f[0]]) {
      i := 0;
    } else {
      var i' := InSomeNode(f[1..], y);
      i := i' + 1;
    }
  }

  /** Every item of one node's flattening is an item of the forest's. */
  lemma {:induction false} NodeInForest(f: seq<Node>, i: nat)
    requires i < |f|
    ensures forall y :: y in Flatten([f[i]]) ==> y in Flatten(f)
  {
    FlattenSplit(f);
    if i > 0 {
      NodeInForest(f[1..], i - 1);
    }
  }

  // ----- well-formed trees -----

  /**
   * A node whose children are all found by the parent lookup of their items,
   * whose children's items are pairwise distinct, and whose own item does
   * not occur again below it; and so on at every depth.
   */
  ghost predicate Proper(n: Node, items: seq<MenuItem>)
    decreases n
  {
    && n.item !in Flatten(n.children)
    && Distinct(ItemsOf(n.children))
    && forall j :: 0 <= j < |n.children| ==>
         Up(n.children[j].item, items) == Some(n.item) && Proper(n.children[j], items)
  }

  /**
   * In a proper tree the chain from any of its items reaches the top item,
   * and every link on the way is an item of the tree.
   */
  lemma {:induction false} ChainToTop(items: seq<MenuItem>, n: Node, y: MenuItem) returns (m: nat)
    requires Proper(n, items)
    requires y in Flatten([n])
    ensures UpN(y, items, m) == Some(n.item)
    ensures ChainWithin(y, items, m, Flatten([n]))
    decreases n
  {
    if y == n.item {
      m := 0;
    } else {
      FlattenOne(n);
      var i := InSomeNode(n.children, y);
      var m' := ChainToTop(items, n.children[i], y);
      m := ChainToParent(items, n, i, y, m');
    }
  }

  /** A chain that reaches a child of `n` within the child's tree reaches `n` one link later, within `n`'s tree. */
  lemma ChainToParent(items: seq<MenuItem>, n: Node, i: nat, y: MenuItem, m: nat) returns (r: nat)
    requires Proper(n, items)
    requires i < |n.children|
    requires UpN(y, items, m) == Some(n.children[i].item)
    requires ChainWithin(y, items, m, Flatten([n.children[i]]))
    ensures r == m + 1
    ensures UpN(y, items, r) == Some(n.item)
    ensures ChainWithin(y, items, r, Flatten([n]))
  {
    r := m + 1;
    FlattenOne(n);
    NodeInForest(n.children, i);
    ChainGrow(y, items, m, n.children[i].item, n.item, Flatten([n.children[i]]), Flatten([n]));
  }

  /**
   * Two sibling trees whose tops share the parent `u` (absent for roots),
   * where `u` is not among their items, have no item in common: the chain
   * from a shared item would meet both tops at the same height, or pass
   * `u` on the way to the higher one.
   */
  lemma SiblingsDisjoint(items: seq<MenuItem>, f: seq<Node>, u: Option<MenuItem>, y: MenuItem, i: nat)
    requires forall j :: 0 <= j < |f| ==> Proper(f[j], items) && Up(f[j].item, items) == u
    requires Distinct(ItemsOf(f))
    requires u.Some? ==> u.value !in Flatten(f)
    requires 0 < i < |f|
    requires y in Flatten([f[0]])
    ensures y !in Flatten([f[i]])
  {
    assert ItemsOf(f)[0] != ItemsOf(f)[i];
    if y in Flatten([f[i]]) {
      var m1 := ChainToTop(items, f[0], y);
      var m2 := ChainToTop(items, f[i], y);
      ChainsThroughTwoTops(y, items, m1, f[0].item, Flatten([f[0]]), m2, f[i].item, Flatten([f[i]]));
      NodeInForest(f, i);
    }
  }

  /** A proper tree lists no item twice. */
  lemma {:induction false} NodeDistinct(items: seq<MenuItem>, n: Node)
    requires Proper(n, items)
    ensures Distinct(Flatten([n]))
    decreases n, 1
  {
    FlattenOne(n);
    ForestDistinct(items, n.children, Some(n.item));
    DistinctConcat([n.item], Flatten(n.children));
  }

  /** Proper sibling trees below a common parent `u` outside them list no item twice. */
  lemma {:induction false} ForestDistinct(items: seq<MenuItem>, f: seq<Node>, u: Option<MenuItem>)
    requires forall j :: 0 <= j < |f| ==> Proper(f[j], items) && Up(f[j].item, items) == u
    requires Distinct(ItemsOf(f))
    requires u.Some? ==> u.value !in Flatten(f)
    ensures Distinct(Flatten(f))
    decreases f, 0
  {
    if |f| > 0 {
      FlattenSplit(f);
      var first := Flatten([f[0]]);
      var others := Flatten(f[1..]);
      NodeDistinct(items, f[0]);
      assert ItemsOf(f[1..]) == ItemsOf(f)[1..];
      DistinctTail(ItemsOf(f));
      ForestDistinct(items, f[1..], u);
      forall y | y in first
        ensures y !in others
      {
        if y in others {
          var i := InSomeNode(f[1..], y);
          assert f[1..][i] == f[i + 1];
          SiblingsDisjoint(items, f, u, y, i + 1);
        }
      }
      DistinctConcat(first, others);
    }
  }

  // ----- assembly builds proper trees -----

  /** A forest has one subtree per kid, in the order of the kids. */
  lemma {:induction false} ForestShape(kids: seq<MenuItem>, pool: seq<MenuItem>)
    requires forall k :: k in kids ==> k in pool
    ensures |Forest(kids, pool)| == |kids|
    ensures forall j :: 0 <= j < |kids| ==> Forest(kids, pool)[j] == Subtree(kids[j], pool)
    ensures ItemsOf(Forest(kids, pool)) == kids
    decreases |kids|
  {
    if |kids| > 0 {
      ForestShape(kids[1..], pool);
    }
  }

  /** Every item of the subtree of `x` comes from `pool`. */
  lemma {:induction false} SubtreeWithin(x: MenuItem, pool: seq<MenuItem>)
    requires x in pool
    ensures forall y :: y in Flatten([Subtree(x, pool)]) ==> y in pool
    decreases |pool|, 1
  {
    var rest := Without(pool, x);
    FlattenOne(Subtree(x, pool));
    ForestWithin(Children(x, rest), rest);
  }

  /** Every item of a forest comes from its pool. */
  lemma {:induction false} ForestWithin(kids: seq<MenuItem>, pool: seq<MenuItem>)
    requires forall k :: k in kids ==> k in pool
    ensures forall y :: y in Flatten(Forest(kids, pool)) ==> y in pool
    decreases |pool|, 2
  {
    var f := Forest(kids, pool);
    ForestShape(kids, pool);
    forall y | y in Flatten(f)
      ensures y in pool
    {
      var i := InSomeNode(f, y);
      SubtreeWithin(kids[i], pool);
    }
  }

  lemma {:induction false} WithoutIsFilter(pool: seq<MenuItem>, x: MenuItem)
    ensures Without(pool, x) == Filter(pool, (y: MenuItem) => y != x)
  {
    if |pool| > 0 {
      WithoutIsFilter(pool[1..], x);
    }
  }

  lemma WithoutDistinct(pool: seq<MenuItem>, x: MenuItem)
    requires Distinct(pool)
    ensures Distinct(Without(pool, x))
  {
    WithoutIsFilter(pool, x);
    FilterDistinct(pool, (y: MenuItem) => y != x);
  }

  /** Assembly builds a proper tree below every item of a pool of distinct input items. */
  lemma {:induction false} SubtreeProper(items: seq<MenuItem>, x: MenuItem, pool: seq<MenuItem>)
    requires DistinctIds(items)
    requires Distinct(pool) && forall z :: z in pool ==> z in items
    requires x in pool
    ensures Proper(Subtree(x, pool), items)
    decreases |pool|
  {
    var rest := Without(pool, x);
    var kids := Children(x, rest);
    var f := Forest(kids, rest);
    assert Subtree(x, pool).children == f;
    ForestShape(kids, rest);
    ForestWithin(kids, rest);
    WithoutDistinct(pool, x);
    ChildrenDistinct(x, rest);
    ChildrenMembers(x, rest);
    forall j | 0 <= j < |f|
      ensures Up(f[j].item, items) == Some(x) && Proper(f[j], items)
    {
      UpIsParent(items, kids[j], x);
      SubtreeProper(items, kids[j], rest);
    }
  }

  /**
   * An item whose chain reaches `x` without repeating, through items of
   * the pool, lies in the subtree of `x`.
   */
  lemma {:induction false} ReachedFromSubtreeRoot(items: seq<MenuItem>, x: MenuItem, pool: seq<MenuItem>, a: MenuItem, m: nat)
    requires DistinctIds(items)
    requires forall z :: z in pool ==> z in items
    requires x in pool
    requires UpN(a, items, m) == Some(x)
    requires ChainWithin(a, items, m, pool)
    requires forall i, j :: 0 <= i < j <= m ==> UpN(a, items, i) != UpN(a, items, j)
    ensures a in Flatten([Subtree(x, pool)])
    decreases m
  {
    if m == 0 {
      FlattenOne(Subtree(x, pool));
    } else {
      var c := ChildOnChain(items, x, pool, a, m);
      ReachedFromSubtreeRoot(items, c, Without(pool, x), a, m - 1);
      ChildSubtreeInside(x, pool, c, a);
    }
  }

  /** Whatever lies in the subtree of a child of `x` lies in the subtree of `x`. */
  lemma ChildSubtreeInside(x: MenuItem, pool: seq<MenuItem>, c: MenuItem, a: MenuItem)
    requires x in pool
    requires c in Without(pool, x) && ChildOf(c, x)
    requires a in Flatten([Subtree(c, Without(pool, x))])
    ensures a in Flatten([Subtree(x, pool)])
  {
    var rest := Without(pool, x);
    var kids := Children(x, rest);
    FlattenOne(Subtree(x, pool));
    ChildrenMembers(x, rest);
    var i :| 0 <= i < |kids| && kids[i] == c;
    ForestShape(kids, rest);
    NodeInForest(Forest(kids, rest), i);
  }

  /** The link below `x` on a non-repeating chain through the pool is a child of `x` drawn from the rest of the pool. */
  lemma ChildOnChain(items: seq<MenuItem>, x: MenuItem, pool: seq<MenuItem>, a: MenuItem, m: nat) returns (c: MenuItem)
    requires DistinctIds(items)
    requires x in pool && forall z :: z in pool ==> z in items
    requires 0 < m
    requires UpN(a, items, m) == Some(x)
    requires ChainWithin(a, items, m, pool)
    requires forall i, j :: 0 <= i < j <= m ==> UpN(a, items, i) != UpN(a, items, j)
    ensures UpN(a, items, m - 1) == Some(c)
    ensures ChildOf(c, x)
    ensures ChainWithin(a, items, m - 1, Without(pool, x))
  {
    c := UpN(a, items, m - 1).value;
    UpIsParent(items, c, x);
    forall j | 0 <= j <= m - 1
      ensures UpN(a, items, j).Some? && UpN(a, items, j).value in Without(pool, x)
    {
      assert UpN(a, items, j) != UpN(a, items, m);
    }
  }

  // ----- the promises of assembly -----

  /** The roots of the forest: proper trees on distinct root items, none with a parent. */
  lemma RootsProper(items: seq<MenuItem>)
    requires DistinctIds(items)
    ensures ItemsOf(BuildTree(items)) == RootsIn(items, items)
    ensures forall j :: 0 <= j < |BuildTree(items)| ==>
      Proper(BuildTree(items)[j], items) && Up(BuildTree(items)[j].item, items) == None
    ensures Distinct(ItemsOf(BuildTree(items)))
  {
    var roots := RootsIn(items, items);
    var f := BuildTree(items);
    ForestShape(roots, items);
    DistinctIdsDistinct(items);
    FilterDistinct(items, (it: MenuItem) => IsRootIn(it, items));
    forall j | 0 <= j < |f|
      ensures Proper(f[j], items) && Up(f[j].item, items) == None
    {
      SubtreeProper(items, roots[j], items);
      RootIffNoParent(items, roots[j]);
    }
  }

  /**
   * Assembly never lists an item twice, and lists only input items.
   */
  lemma EachItemAtMostOnce(items: seq<MenuItem>)
    requires DistinctIds(items)
    ensures Distinct(Flatten(BuildTree(items)))
    ensures forall y :: y in Flatten(BuildTree(items)) ==> y in items
  {
    RootsProper(items);
    ForestDistinct(items, BuildTree(items), None);
    ForestWithin(RootsIn(items, items), items);
  }

  /**
   * An input item appears in the forest exactly when following its parent
   * links ends; the members of a parent cycle, and everything hanging
   * below one, are dropped without an error.
   */
  lemma PlacedIffChainEnds(items: seq<MenuItem>, a: MenuItem)
    requires DistinctIds(items)
    requires a in items
    ensures a in Flatten(BuildTree(items)) <==> ChainEnds(a, items)
  {
    if a in Flatten(BuildTree(items)) {
      PlacedChainEnds(items, a);
    }
    if ChainEnds(a, items) {
      EndingChainPlaced(items, a);
    }
  }

  lemma PlacedChainEnds(items: seq<MenuItem>, a: MenuItem)
    requires DistinctIds(items)
    requires a in Flatten(BuildTree(items))
    ensures ChainEnds(a, items)
  {
    var f := BuildTree(items);
    RootsProper(items);
    var i := InSomeNode(f, a);
    var m := ChainToTop(items, f[i], a);
    ChainStep(a, items, m, f[i].item);
  }

  lemma EndingChainPlaced(items: seq<MenuItem>, a: MenuItem)
    requires DistinctIds(items)
    requires a in items
    requires ChainEnds(a, items)
    ensures a in Flatten(BuildTree(items))
  {
    var roots := RootsIn(items, items);
    var n :| UpN(a, items, n).None?;
    var d := EndingChainReachesRoot(a, items, n);
    var r := UpN(a, items, d).value;
    forall j | 0 <= j <= d
      ensures UpN(a, items, j).value in items
    {
      ChainStaysInItems(a, items, j);
    }
    RootIffNoParent(items, r);
    assert r in roots;
    var i :| 0 <= i < |roots| && roots[i] == r;
    ReachedFromSubtreeRoot(items, r, items, a, d);
    ForestShape(roots, items);
    NodeInForest(BuildTree(items), i);
  }

  /** Without parent cycles, the forest holds every input item exactly once. */
  lemma EveryItemExactlyOnce(items: seq<MenuItem>)
    requires DistinctIds(items)
    requires Acyclic(items)
    ensures multiset(Flatten(BuildTree(items))) == multiset(items)
  {
    var flat := Flatten(BuildTree(items));
    EachItemAtMostOnce(items);
    DistinctIdsDistinct(items);
    forall a | a in items
      ensures a in flat
    {
      PlacedIffChainEnds(items, a);
    }
    SameElementsSameMultiset(flat, items);
  }
}
