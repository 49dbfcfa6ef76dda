/**
 * Positions in a forest. A path lists child indices from a root down. The
 * pre-order walk (a node, then its children's subtrees, then its later
 * siblings) visits the paths of a forest in lexicographic order, where a
 * path comes before every extension of it.
 */
module Paths {
  import opened Models
  import opened Tree

  type Path = seq<nat>

  /** `p` names a node of `f`. */
  predicate ValidPath(f: seq<Node>, p: Path)
    decreases |p|
  {
    |p| > 0 && p[0] < |f| && (|p| == 1 || ValidPath(f[p[0]].children, p[1..]))
  }

  /** The node of `f` at `p`. */
  function At(f: seq<Node>, p: Path): Node
    requires ValidPath(f, p)
    decreases |p|
  {
    if |p| == 1 then f[p[0]] else At(f[p[0]].children, p[1..])
  }

  /** Two forests with the same positions. */
  ghost predicate SameShape(g: seq<Node>, f: seq<Node>) {
    forall p :: ValidPath(g, p) <==> ValidPath(f, p)
  }

  /** What a node holds apart from its subtrees: its item, URL, flags and number of children. */
  datatype Label = Label(
    item: MenuItem,
    url: string,
    isActive: bool,
    isAncestor: bool,
    expanded: bool,
    arity: nat)

  function LabelOf(n: Node): Label {
    Label(n.item, n.url, n.isActive, n.isAncestor, n.expanded, |n.children|)
  }

  /** The paths into a child of `f[i]` are `[i]` followed by a path into `f[i].children`. */
  lemma PathInto(f: seq<Node>, i: nat, p: Path)
    requires i < |f|
    ensures ValidPath(f, [i] + p) <==> |p| == 0 || ValidPath(f[i].children, p)
    ensures |p| > 0 && ValidPath(f[i].children, p) ==> At(f, [i] + p) == At(f[i].children, p)
  {
    assert ([i] + p)[0] == i;
    assert ([i] + p)[1..] == p;
  }

  /** The children of the node at `a` sit at `a + [j]`. */
  lemma {:induction false} ChildPath(f: seq<Node>, a: Path, j: nat)
    requires ValidPath(f, a)
    ensures ValidPath(f, a + [j]) <==> j < |At(f, a).children|
    ensures j < |At(f, a).children| ==> At(f, a + [j]) == At(f, a).children[j]
    decreases |a|
  {
    assert (a + [j])[0] == a[0];
    if |a| == 1 {
      assert (a + [j])[1..] == [j];
    } else {
      assert (a + [j])[1..] == a[1..] + [j];
      ChildPath(f[a[0]].children, a[1..], j);
    }
  }

  /** Every prefix of a path to a node is a path to a node. */
  lemma {:induction false} PrefixValid(f: seq<Node>, a: Path, q: Path)
    requires ValidPath(f, a)
    requires q <= a && |q| > 0
    ensures ValidPath(f, q)
    decreases |a|
  {
    if |q| > 1 {
      assert q[1..] <= a[1..];
      PrefixValid(f[a[0]].children, a[1..], q[1..]);
    }
  }

  // ----- lexicographic order -----

  /** `q` comes before `p`: `q` is a proper prefix of `p`, or is smaller where they first differ. */
  predicate PathBefore(q: Path, p: Path)
    decreases |q|
  {
    |p| > 0 && (|q| == 0 || q[0] < p[0] || (q[0] == p[0] && PathBefore(q[1..], p[1..])))
  }

  /** No path comes before itself, and of two paths at most one comes first. */
  lemma {:induction false} PathBeforeAsymmetric(q: Path, p: Path)
    ensures PathBefore(q, p) ==> !PathBefore(p, q)
    decreases |q|
  {
    if |q| > 0 && |p| > 0 && q[0] == p[0] {
      PathBeforeAsymmetric(q[1..], p[1..]);
    }
  }

  /** A common first step does not change the order. */
  lemma PathBeforeUnder(i: nat, q: Path, p: Path)
    ensures PathBefore([i] + q, [i] + p) <==> PathBefore(q, p)
  {
    assert ([i] + q)[1..] == q;
    assert ([i] + p)[1..] == p;
  }

  /** Every element of `ps` comes before every later one. */
  ghost predicate Ascending(ps: seq<Path>) {
    forall x, y :: 0 <= x < y < |ps| ==> PathBefore(ps[x], ps[y])
  }

  lemma AscendingConcat(a: seq<Path>, b: seq<Path>)
    requires Ascending(a) && Ascending(b)
    requires forall x, y :: 0 <= x < |a| && 0 <= y < |b| ==> PathBefore(a[x], b[y])
    ensures Ascending(a + b)
  {
    forall x, y | 0 <= x < y < |a + b|
      ensures PathBefore((a + b)[x], (a + b)[y])
    {
      if y < |a| {
        assert (a + b)[x] == a[x] && (a + b)[y] == a[y];
      } else if x < |a| {
        assert (a + b)[x] == a[x] && (a + b)[y] == b[y - |a|];
      } else {
        assert (a + b)[x] == b[x - |a|] && (a + b)[y] == b[y - |a|];
      }
    }
  }

  // ----- the pre-order walk -----

  /** `[i]` followed by each path of `ps`. */
  function Under(i: nat, ps: seq<Path>): (r: seq<Path>)
    ensures |r| == |ps|
    ensures forall k :: 0 <= k < |ps| ==> r[k] == [i] + ps[k]
  {
    seq(|ps|, k requires 0 <= k < |ps| => [i] + ps[k])
  }

  /** The pre-order walk of `f[i..]`: each node, then its subtree, then the next sibling. */
  function Walk(f: seq<Node>, i: nat): seq<Path>
    requires i <= |f|
    decreases f, |f| - i
  {
    if i == |f| then []
    else [[i]] + Under(i, Walk(f[i].children, 0)) + Walk(f, i + 1)
  }

  /** The order in which a render visits the nodes of a forest. */
  function Preorder(f: seq<Node>): seq<Path> {
    Walk(f, 0)
  }

  /** The walk of `f[i..]` visits only nodes of `f`, under roots `i` and later. */
  lemma {:induction false} WalkValid(f: seq<Node>, i: nat)
    requires i <= |f|
    ensures forall k :: 0 <= k < |Walk(f, i)| ==> ValidPath(f, Walk(f, i)[k]) && Walk(f, i)[k][0] >= i
    decreases f, |f| - i
  {
    if i < |f| {
      var inner := Walk(f[i].children, 0);
      var rest := Walk(f, i + 1);
      WalkValid(f[i].children, 0);
      WalkValid(f, i + 1);
      var w := [[i]] + Under(i, inner) + rest;
      forall k | 0 <= k < |w|
        ensures ValidPath(f, w[k]) && w[k][0] >= i
      {
        if k == 0 {
          assert w[k] == [i];
        } else if k <= |inner| {
          assert w[k] == [i] + inner[k - 1];
          PathInto(f, i, inner[k - 1]);
        } else {
          assert w[k] == rest[k - 1 - |inner|];
        }
      }
    }
  }

  /** The walk of `f[i..]` visits every node under roots `i` and later. */
  lemma {:induction false} WalkComplete(f: seq<Node>, i: nat, p: Path)
    requires i <= |f|
    requires ValidPath(f, p) && p[0] >= i
    ensures p in Walk(f, i)
    decreases f, |f| - i
  {
    var w := Walk(f, i);
    var inner := Walk(f[i].children, 0);
    assert w == [[i]] + Under(i, inner) + Walk(f, i + 1);
    if p[0] > i {
      WalkComplete(f, i + 1, p);
    } else if |p| == 1 {
      assert p == [i];
    } else {
      assert p == [i] + p[1..];
      PathInto(f, i, p[1..]);
      WalkComplete(f[i].children, 0, p[1..]);
      var k :| 0 <= k < |inner| && inner[k] == p[1..];
      assert Under(i, inner)[k] == p;
    }
  }

  /** The walk of `f[i..]` visits its paths in ascending lexicographic order. */
  lemma {:induction false} WalkAscending(f: seq<Node>, i: nat)
    requires i <= |f|
    ensures Ascending(Walk(f, i))
    decreases f, |f| - i
  {
    if i < |f| {
      var inner := Walk(f[i].children, 0);
      var under := Under(i, inner);
      var rest := Walk(f, i + 1);
      WalkAscending(f[i].children, 0);
      WalkAscending(f, i + 1);
      WalkValid(f[i].children, 0);
      WalkValid(f, i + 1);
      forall x, y | 0 <= x < y < |under|
        ensures PathBefore(under[x], under[y])
      {
        PathBeforeUnder(i, inner[x], inner[y]);
      }
      AscendingConcat([[i]], under);
      AscendingConcat([[i]] + under, rest);
    }
  }

  /** The pre-order walk lists exactly the nodes of the forest, in lexicographic order. */
  lemma PreorderSpec(f: seq<Node>)
    ensures forall p :: p in Preorder(f) <==> ValidPath(f, p)
    ensures Ascending(Preorder(f))
  {
    WalkValid(f, 0);
    WalkAscending(f, 0);
    forall p | ValidPath(f, p)
      ensures p in Preorder(f)
    {
      WalkComplete(f, 0, p);
    }
  }

  /**
   * The earliest entry of an ascending list that satisfies a test is the
   * lexicographically least such path: no path of the list that comes
   * before it passes the test.
   */
  lemma FirstIsLeast(ps: seq<Path>, x: nat, q: Path)
    requires Ascending(ps)
    requires x < |ps|
    requires q in ps && PathBefore(q, ps[x])
    ensures exists y :: 0 <= y < x && ps[y] == q
  {
    var y :| 0 <= y < |ps| && ps[y] == q;
    if y >= x {
      if y > x {
        PathBeforeAsymmetric(ps[x], q);
      } else {
        PathBeforeAsymmetric(q, q);
      }
    }
  }
}
