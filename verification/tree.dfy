/**
 * Tree assembly: a flat list of one menu's items becomes a forest of
 * nodes. An item hangs under the item its parent id names when that id
 * is truthy and present among the items; otherwise it is a root. Roots
 * keep the input order; every children list is sorted by `(order, id)`.
 */
module Tree {
  import opened Wrappers
  import opened Models
  import opened Ordering
  import opened Seqs

  /** One item of a rendered menu, with the state computed for it during a render. */
  datatype Node = Node(
    item: MenuItem,
    children: seq<Node>,
    url: string,
    isActive: bool,
    isAncestor: bool,
    expanded: bool)

  /** A node as assembly creates it: placeholder URL, every flag cleared. */
  function NewNode(item: MenuItem, children: seq<Node>): Node {
    Node(item, children, Placeholder, false, false, false)
  }

  /** The ids present among `items`. */
  function Ids(items: seq<MenuItem>): set<int> {
    set it | it in items :: it.id
  }

  /** `c` names `p` as its parent: a truthy parent id equal to `p`'s id. */
  predicate ChildOf(c: MenuItem, p: MenuItem) {
    Truthy(c.parentId) && c.parentId.value == p.id
  }

  /** `it` is a root among `all`: its parent id is falsy or names no item of `all`. */
  predicate IsRootIn(it: MenuItem, all: seq<MenuItem>) {
    !(Truthy(it.parentId) && it.parentId.value in Ids(all))
  }

  /** The elements of `s` that are roots among `all`, in input order. */
  function RootsIn(s: seq<MenuItem>, all: seq<MenuItem>): seq<MenuItem> {
    Filter(s, (it: MenuItem) => IsRootIn(it, all))
  }

  /** `pool` without `x`. */
  function Without(pool: seq<MenuItem>, x: MenuItem): (r: seq<MenuItem>)
    ensures forall y :: y in r <==> y in pool && y != x
    ensures |r| <= |pool|
    ensures x in pool ==> |r| < |pool|
  {
    if |pool| == 0 then []
    else if pool[0] == x then Without(pool[1..], x)
    else [pool[0]] + Without(pool[1..], x)
  }

  /** The items of `pool` that name `x` as parent, sorted by `(order, id)`. */
  function Children(x: MenuItem, pool: seq<MenuItem>): (r: seq<MenuItem>)
    ensures forall c :: c in r ==> c in pool
  {
    var linked := Filter(pool, (c: MenuItem) => ChildOf(c, x));
    var r := SortByKey(linked);
    SortByKeyPermutes(linked);
    assert forall c :: c in r ==> c in multiset(r);
    assert forall c :: c in multiset(linked) ==> c in linked;
    r
  }

  /**
   * The subtree of `x`. `pool` holds the items not yet used on the way
   * down from the root, so the children come from `pool` minus `x`; the
   * pool shrinks at every level, which is what makes assembly terminate
   * even when parent links form a cycle.
   */
  function Subtree(x: MenuItem, pool: seq<MenuItem>): Node
    requires x in pool
    decreases |pool|, 1, 0
  {
    NewNode(x, ChildForest(x, pool))
  }

  /** The subtrees of the children of `x`, drawn from `pool` minus `x`. */
  function ChildForest(x: MenuItem, pool: seq<MenuItem>): seq<Node>
    requires x in pool
    decreases |pool|, 0, 0
  {
    var rest := Without(pool, x);
    Forest(Children(x, rest), rest)
  }

  /** The subtrees of `kids`, in the order of `kids`. */
  function Forest(kids: seq<MenuItem>, pool: seq<MenuItem>): seq<Node>
    requires forall k :: k in kids ==> k in pool
    decreases |pool|, 2, |kids|
  {
    if |kids| == 0 then []
    else [Subtree(kids[0], pool)] + Forest(kids[1..], pool)
  }

  /** The forest of one menu: one subtree per root, roots in input order. */
  function BuildTree(items: seq<MenuItem>): seq<Node> {
    Forest(RootsIn(items, items), items)
  }

  /** The items of a list of nodes, in list order. */
  function ItemsOf(f: seq<Node>): (r: seq<MenuItem>)
    ensures |r| == |f|
    ensures forall i :: 0 <= i < |f| ==> r[i] == f[i].item
  {
    seq(|f|, i requires 0 <= i < |f| => f[i].item)
  }

  /** Every item of a forest, in pre-order. */
  function Flatten(f: seq<Node>): seq<MenuItem>
    decreases f
  {
    if |f| == 0 then []
    else [f[0].item] + Flatten(f[0].children) + Flatten(f[1..])
  }

  /** The children of `x` within `pool` are exactly the pool's items that name `x` as parent. */
  lemma ChildrenMembers(x: MenuItem, pool: seq<MenuItem>)
    ensures forall c :: c in Children(x, pool) <==> c in pool && ChildOf(c, x)
  {
    var linked := Filter(pool, (c: MenuItem) => ChildOf(c, x));
    SortByKeyPermutes(linked);
    assert forall c :: c in SortByKey(linked) <==> c in multiset(SortByKey(linked));
    assert forall c :: c in linked <==> c in multiset(linked);
  }

  /** Every children list is sorted by `(order, id)`. */
  lemma ChildrenSorted(x: MenuItem, pool: seq<MenuItem>)
    ensures SortedByKey(Children(x, pool))
  {
    SortByKeySorted(Filter(pool, (c: MenuItem) => ChildOf(c, x)));
  }

  /** A pool without repeats yields children without repeats. */
  lemma ChildrenDistinct(x: MenuItem, pool: seq<MenuItem>)
    requires Distinct(pool)
    ensures Distinct(Children(x, pool))
  {
    var linked := Filter(pool, (c: MenuItem) => ChildOf(c, x));
    SortByKeyPermutes(linked);
    FilterDistinct(pool, (c: MenuItem) => ChildOf(c, x));
    DistinctPermutation(linked, SortByKey(linked));
  }

  /** Every children list below `n`, `n`'s own included, is sorted by `(order, id)`. */
  predicate SortedBelow(n: Node)
    decreases n
  {
    && SortedByKey(ItemsOf(n.children))
    && forall j :: 0 <= j < |n.children| ==> SortedBelow(n.children[j])
  }
}
