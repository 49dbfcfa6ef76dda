/**
 * The sibling order of the menu tree: ascending by `(order, id)`, and the
 * sort that establishes it.
 */
module Ordering {
  import opened Models

  /** `a` sorts no later than `b` under the key `(order, id)`. */
  predicate KeyLe(a: MenuItem, b: MenuItem) {
    a.order < b.order || (a.order == b.order && a.id <= b.id)
  }

  /** Every earlier element sorts no later than every later one. */
  predicate SortedByKey(s: seq<MenuItem>) {
    forall i, j :: 0 <= i < j < |s| ==> KeyLe(s[i], s[j])
  }

  /** Places `x` into a sorted sequence, before the first element that sorts after it. */
  function Insert(x: MenuItem, s: seq<MenuItem>): (r: seq<MenuItem>)
    ensures multiset(r) == multiset(s) + multiset{x}
  {
    if |s| == 0 then [x]
    else if KeyLe(x, s[0]) then [x] + s
    else
      assert s == [s[0]] + s[1..];
      [s[0]] + Insert(x, s[1..])
  }

  /** A head that sorts no later than every element of a sorted tail gives a sorted sequence. */
  lemma ConsSorted(h: MenuItem, t: seq<MenuItem>)
    requires SortedByKey(t)
    requires forall k :: 0 <= k < |t| ==> KeyLe(h, t[k])
    ensures SortedByKey([h] + t)
  {
    forall i, j | 0 <= i < j < |[h] + t|
      ensures KeyLe(([h] + t)[i], ([h] + t)[j])
    {
      if i > 0 {
        assert ([h] + t)[i] == t[i - 1];
      }
      assert ([h] + t)[j] == t[j - 1];
    }
  }

  /** Inserting into a sorted sequence keeps it sorted. */
  lemma {:induction false} InsertKeepsSorted(x: MenuItem, s: seq<MenuItem>)
    requires SortedByKey(s)
    ensures SortedByKey(Insert(x, s))
  {
    if |s| == 0 {
    } else if KeyLe(x, s[0]) {
      ConsSorted(x, s);
    } else {
      var tail := Insert(x, s[1..]);
      assert SortedByKey(s[1..]) by {
        forall i, j | 0 <= i < j < |s[1..]|
          ensures KeyLe(s[1..][i], s[1..][j])
        {
          assert s[1..][i] == s[i + 1] && s[1..][j] == s[j + 1];
        }
      }
      InsertKeepsSorted(x, s[1..]);
      forall k | 0 <= k < |tail|
        ensures KeyLe(s[0], tail[k])
      {
        assert tail[k] in multiset(s[1..]) + multiset{x} by {
          assert tail[k] in multiset(tail);
        }
        if tail[k] != x {
          var i :| 0 <= i < |s[1..]| && s[1..][i] == tail[k];
          assert s[1..][i] == s[i + 1];
        }
      }
      ConsSorted(s[0], tail);
    }
  }

  /** Sorts by `(order, id)` ascending, keeping every element. */
  function SortByKey(s: seq<MenuItem>): seq<MenuItem> {
    if |s| == 0 then []
    else Insert(s[0], SortByKey(s[1..]))
  }

  /** The sort keeps every element, each as often as it occurs. */
  lemma {:induction false} SortByKeyPermutes(s: seq<MenuItem>)
    ensures multiset(SortByKey(s)) == multiset(s)
  {
    if |s| > 0 {
      SortByKeyPermutes(s[1..]);
      assert s == [s[0]] + s[1..];
    }
  }

  /** The result of the sort is in `(order, id)` order. */
  lemma {:induction false} SortByKeySorted(s: seq<MenuItem>)
    ensures SortedByKey(SortByKey(s))
  {
    if |s| > 0 {
      SortByKeySorted(s[1..]);
      InsertKeepsSorted(s[0], SortByKey(s[1..]));
    }
  }

  /** Removing the head of a sequence removes one copy of it from its multiset. */
  lemma MultisetOfTail(s: seq<MenuItem>)
    requires |s| > 0
    ensures multiset(s[1..]) == multiset(s) - multiset{s[0]}
  {
    assert s == [s[0]] + s[1..];
  }

  /** The first element of a sorted sequence sorts no later than any of its elements. */
  lemma HeadIsLeast(s: seq<MenuItem>, x: MenuItem)
    requires SortedByKey(s)
    requires x in multiset(s)
    ensures KeyLe(s[0], x)
  {
    var i :| 0 <= i < |s| && s[i] == x;
    if i == 0 {
      assert KeyLe(x, x);
    }
  }

  /**
   * Keys are unique once ids are: two sorted arrangements of the same
   * items are the same sequence, so a sibling order never depends on the
   * order the items arrived in.
   */
  lemma {:induction false} SortedArrangementIsUnique(a: seq<MenuItem>, b: seq<MenuItem>)
    requires DistinctIds(a)
    requires multiset(a) == multiset(b)
    requires SortedByKey(a) && SortedByKey(b)
    ensures a == b
  {
    assert |b| == |multiset(b)| == |multiset(a)| == |a|;
    if |a| > 0 {
      HeadIsLeast(a, b[0]);
      HeadIsLeast(b, a[0]);
      assert a[0] == b[0];
      MultisetOfTail(a);
      MultisetOfTail(b);
      SortedArrangementIsUnique(a[1..], b[1..]);
      assert a == [a[0]] + a[1..];
      assert b == [b[0]] + b[1..];
    }
  }
}
