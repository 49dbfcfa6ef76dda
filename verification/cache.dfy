/**
 * The per-render fetch cache. A prefetch loads several menus with one
 * batched store call and records an entry for every requested menu, an
 * empty one when the store has no items for it. A draw reads the cache: a
 * hit costs nothing; a miss costs one store call, and its result is NOT
 * recorded, so a second draw of the same menu pays again.
 */
module RenderCache {
  import opened Models
  import opened Seqs

  /** One row of a batched fetch: an item with the slug of its menu. */
  datatype Row = Row(slug: string, item: MenuItem)

  /**
   * The item store. `batch` answers one query for the items of several
   * menus; `single` answers one query for the items of one menu.
   */
  datatype Store = Store(batch: seq<string> -> seq<Row>, single: string -> seq<MenuItem>)

  /** The render's cached menus by slug, and the number of store calls made so far. */
  datatype Cache = Cache(entries: map<string, seq<MenuItem>>, storeCalls: nat)

  /** A render starts with nothing cached and no store call made. */
  const Fresh := Cache(map[], 0)

  /** The items a draw uses, and the cache after it. */
  datatype Fetched = Fetched(items: seq<MenuItem>, cache: Cache)

  /** The requested slugs a prefetch loads: the non-empty ones not cached yet, in request order. */
  function ToFetch(c: Cache, slugs: seq<string>): (r: seq<string>)
    ensures forall s :: s in r <==> s in slugs && s != "" && s !in c.entries
  {
    Filter(slugs, (s: string) => s != "" && s !in c.entries)
  }

  /** Every non-empty requested slug is cached already. */
  predicate AllCached(c: Cache, slugs: seq<string>) {
    forall s :: s in slugs && s != "" ==> s in c.entries
  }

  /** The items of the rows for menu `slug`, in row order. */
  function Grouped(rows: seq<Row>, slug: string): (r: seq<MenuItem>)
    ensures forall it :: it in r <==> Row(slug, it) in rows
    ensures |r| == |Filter(rows, (w: Row) => w.slug == slug)|
  {
    if |rows| == 0 then []
    else
      assert rows == [rows[0]] + rows[1..];
      (if rows[0].slug == slug then [rows[0].item] else []) + Grouped(rows[1..], slug)
  }

  /** A single row contributes its item to its own menu's group and nothing to any other. */
  lemma GroupedOne(w: Row, slug: string)
    ensures Grouped([w], slug) == if w.slug == slug then [w.item] else []
  {
    assert [w][1..] == [];
  }

  /**
   * Grouping distributes over concatenation: every row is appended to its
   * group in row order, repeated rows included.
   */
  lemma {:induction false} GroupedAppend(a: seq<Row>, b: seq<Row>, slug: string)
    ensures Grouped(a + b, slug) == Grouped(a, slug) + Grouped(b, slug)
    decreases |a|
  {
    if |a| == 0 {
      assert a + b == b;
    } else {
      assert (a + b)[0] == a[0];
      assert (a + b)[1..] == a[1..] + b;
      GroupedAppend(a[1..], b, slug);
    }
  }

  /** `entries` with every slug of `todo` set to its group of `rows`. */
  function StoreGroups(entries: map<string, seq<MenuItem>>, todo: seq<string>, rows: seq<Row>)
    : (r: map<string, seq<MenuItem>>)
    ensures forall s :: s in r <==> s in entries || s in todo
    ensures forall s :: s in todo ==> r[s] == Grouped(rows, s)
    ensures forall s :: s in entries && s !in todo ==> r[s] == entries[s]
    decreases |todo|
  {
    if |todo| == 0 then entries
    else
      assert todo == [todo[0]] + todo[1..];
      StoreGroups(entries[todo[0] := Grouped(rows, todo[0])], todo[1..], rows)
  }

  /** Loads every non-empty, not yet cached slug of `slugs` with at most one store call. */
  function MenuPrefetch(c: Cache, slugs: seq<string>, store: Store): (r: Cache)
    ensures forall s :: s in slugs && s != "" ==> s in r.entries
    ensures forall s :: s in c.entries ==> s in r.entries && r.entries[s] == c.entries[s]
    ensures forall s :: s in r.entries ==> s in c.entries || (s in slugs && s != "")
    ensures forall s :: s in r.entries && s !in c.entries ==>
      r.entries[s] == Grouped(store.batch(ToFetch(c, slugs)), s)
    ensures r.storeCalls == c.storeCalls + (if AllCached(c, slugs) then 0 else 1)
  {
    var todo := ToFetch(c, slugs);
    if |todo| == 0 then
      assert AllCached(c, slugs) by {
        forall s | s in slugs && s != ""
          ensures s in c.entries
        {
          assert s !in todo;
        }
      }
      c
    else
      assert todo[0] in todo;
      Cache(StoreGroups(c.entries, todo, store.batch(todo)), c.storeCalls + 1)
  }

  /** The items a draw of `slug` uses: the cached ones on a hit; on a miss, one store call, not recorded. */
  function Lookup(c: Cache, slug: string, store: Store): (r: Fetched)
    ensures r.cache.entries == c.entries
    ensures slug in c.entries ==> r.items == c.entries[slug] && r.cache.storeCalls == c.storeCalls
    ensures slug !in c.entries ==> r.items == store.single(slug) && r.cache.storeCalls == c.storeCalls + 1
  {
    if slug in c.entries then Fetched(c.entries[slug], c)
    else Fetched(store.single(slug), c.(storeCalls := c.storeCalls + 1))
  }

  /** The cache after drawing the menus `ds` one after another. */
  function DrawAll(c: Cache, ds: seq<string>, store: Store): Cache
    decreases |ds|
  {
    if |ds| == 0 then c
    else DrawAll(Lookup(c, ds[0], store).cache, ds[1..], store)
  }

  /** The draws among `ds` that miss the cache. */
  function Misses(c: Cache, ds: seq<string>): seq<string> {
    Filter(ds, (d: string) => d !in c.entries)
  }

  /**
   * Draws never change the cached entries, and cost one store call per
   * draw that misses, repeated misses of one menu included.
   */
  lemma {:induction false} DrawAllCost(c: Cache, ds: seq<string>, store: Store)
    ensures DrawAll(c, ds, store).entries == c.entries
    ensures DrawAll(c, ds, store).storeCalls == c.storeCalls + |Misses(c, ds)|
    decreases |ds|
  {
    if |ds| > 0 {
      var c1 := Lookup(c, ds[0], store).cache;
      DrawAllCost(c1, ds[1..], store);
      assert Misses(c, ds) == (if ds[0] !in c.entries then [ds[0]] else []) + Misses(c1, ds[1..]);
    }
  }

  /** Without a prefetch every draw is a miss: `n` draws cost `n` store calls. */
  lemma DrawsWithoutPrefetch(ds: seq<string>, store: Store)
    ensures DrawAll(Fresh, ds, store).storeCalls == |ds|
  {
    DrawAllCost(Fresh, ds, store);
    assert Misses(Fresh, ds) == ds by {
      FilterKeepsAll(ds, (d: string) => d !in Fresh.entries);
    }
  }

  /**
   * A prefetch followed by draws of prefetched, non-empty slugs costs at
   * most one store call in all, and none when everything was cached.
   */
  lemma PrefetchedDrawsCost(c: Cache, slugs: seq<string>, ds: seq<string>, store: Store)
    requires forall d :: d in ds ==> d in slugs && d != ""
    ensures DrawAll(MenuPrefetch(c, slugs, store), ds, store).storeCalls
      == c.storeCalls + (if AllCached(c, slugs) then 0 else 1)
  {
    var p := MenuPrefetch(c, slugs, store);
    DrawAllCost(p, ds, store);
    FilterDropsAll(ds, (d: string) => d !in p.entries);
  }

  /**
   * A prefetched menu with no rows in the batch is cached as empty, so
   * drawing it is a hit that draws nothing.
   */
  lemma EmptyMenuIsCached(c: Cache, slugs: seq<string>, s: string, store: Store)
    requires s in slugs && s != "" && s !in c.entries
    requires forall k :: 0 <= k < |store.batch(ToFetch(c, slugs))| ==> store.batch(ToFetch(c, slugs))[k].slug != s
    ensures Lookup(MenuPrefetch(c, slugs, store), s, store).items == []
    ensures Lookup(MenuPrefetch(c, slugs, store), s, store).cache.storeCalls == MenuPrefetch(c, slugs, store).storeCalls
  {
    var rows := store.batch(ToFetch(c, slugs));
    NoRowsNoGroup(rows, s);
  }

  /** A slug with no rows has an empty group. */
  lemma {:induction false} NoRowsNoGroup(rows: seq<Row>, slug: string)
    requires forall k :: 0 <= k < |rows| ==> rows[k].slug != slug
    ensures Grouped(rows, slug) == []
  {
    if |rows| > 0 {
      NoRowsNoGroup(rows[1..], slug);
    }
  }

  /** The store answers a batch for each requested menu as it answers a single query for it. */
  ghost predicate Consistent(store: Store) {
    forall todo: seq<string>, s: string :: s in todo ==> Grouped(store.batch(todo), s) == store.single(s)
  }

  /** With a consistent store, a prefetch changes what a draw costs but not what it draws. */
  lemma PrefetchKeepsItems(c: Cache, slugs: seq<string>, s: string, store: Store)
    requires Consistent(store)
    ensures Lookup(MenuPrefetch(c, slugs, store), s, store).items == Lookup(c, s, store).items
  {
    if s !in c.entries && s in MenuPrefetch(c, slugs, store).entries {
      assert s in ToFetch(c, slugs);
    }
  }
}
