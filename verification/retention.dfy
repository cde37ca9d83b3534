/**
 * The retention rule of the storage layer: after an insert, an unpin or a
 * move into a group, the group keeps only its `limit` freshest unpinned
 * items. Freshness is `COALESCE(last_used_at, created_at)` descending, ties
 * broken by the larger id. Pinned items are never candidates.
 */
module Retention {
  import opened Rows
  import opened Sorting

  /** `COALESCE(last_used_at, created_at)`. */
  function UseTime(rec: ItemRecord): int
  {
    if rec.lastUsedAt.Some? then rec.lastUsedAt.value else rec.createdAt
  }

  /** The rows `_prune_group_items` selects: unpinned items of the group. */
  function Candidates(items: map<int, ItemRecord>, gid: int): (r: set<int>)
    ensures forall id :: id in r <==> id in items && items[id].groupId == gid && !items[id].pinned
  {
    set id | id in items && items[id].groupId == gid && !items[id].pinned
  }

  /** Sort key of the prune query; ids that are not items sort last. */
  function PruneRank(items: map<int, ItemRecord>, id: int): (int, int, int)
  {
    if id in items then (0, -UseTime(items[id]), -id) else (1, 0, id)
  }

  /** `a` comes before `b` in `ORDER BY COALESCE(last_used_at, created_at) DESC, id DESC`. */
  predicate PruneBefore(items: map<int, ItemRecord>, a: int, b: int)
  {
    LexLess(PruneRank(items, a), PruneRank(items, b))
  }

  /** The order of the prune query as a comparison function. */
  function PruneLt(items: map<int, ItemRecord>): (int, int) -> bool
  {
    (a: int, b: int) => PruneBefore(items, a, b)
  }

  /** The prune order is a strict total order on ids. */
  lemma PruneOrder(items: map<int, ItemRecord>)
    ensures StrictTotalOrder(PruneLt(items))
  {
    forall a, b, c | PruneBefore(items, a, b) && PruneBefore(items, b, c)
      ensures PruneBefore(items, a, c)
    {
      LexLessTransitive(PruneRank(items, a), PruneRank(items, b), PruneRank(items, c));
    }
    forall a, b | a != b
      ensures PruneBefore(items, a, b) || PruneBefore(items, b, a)
    {
      assert PruneRank(items, a) != PruneRank(items, b);
    }
  }

  /** The candidates of the group that are fresher than `id`. */
  function Fresher(items: map<int, ItemRecord>, gid: int, id: int): set<int>
  {
    set j | j in Candidates(items, gid) && PruneBefore(items, j, id)
  }

  /**
   * The ids the prune deletes: the candidates with at least `limit` fresher
   * candidates, that is, every candidate after the first `limit`. Nothing
   * is deleted when `limit <= 0`.
   */
  function Stale(items: map<int, ItemRecord>, gid: int, limit: int): (r: set<int>)
    ensures r <= Candidates(items, gid)
    ensures limit <= 0 ==> r == {}
  {
    if limit <= 0 then {}
    else set id | id in Candidates(items, gid) && |Fresher(items, gid, id)| >= limit
  }

  /** A fresher candidate has strictly fewer candidates ahead of it. */
  lemma FresherShrinks(items: map<int, ItemRecord>, gid: int, a: int, b: int)
    requires a in Candidates(items, gid) && b in Candidates(items, gid)
    requires PruneBefore(items, b, a)
    ensures Fresher(items, gid, b) < Fresher(items, gid, a)
  {
    PruneOrder(items);
    var lt := PruneLt(items);
    forall j | j in Fresher(items, gid, b)
      ensures j in Fresher(items, gid, a)
    {
      Transitive(lt, j, b, a);
    }
    assert b in Fresher(items, gid, a);
    Asymmetric(lt, b, b);
    assert b !in Fresher(items, gid, b);
  }

  /** Whenever an item survives, every fresher unpinned item of its group survives too. */
  lemma PrunedFreshestSurvive(items: map<int, ItemRecord>, gid: int, limit: int, a: int, b: int)
    requires a in Candidates(items, gid) && a !in Stale(items, gid, limit)
    requires b in Candidates(items, gid) && PruneBefore(items, b, a)
    ensures b !in Stale(items, gid, limit)
  {
    if limit > 0 {
      FresherShrinks(items, gid, a, b);
      SubsetSize(Fresher(items, gid, b), Fresher(items, gid, a));
    }
  }

  /** A group with no more than `limit` unpinned items loses nothing. */
  lemma PruneNoopUnderCap(items: map<int, ItemRecord>, gid: int, limit: int)
    requires |Candidates(items, gid)| <= limit
    ensures Stale(items, gid, limit) == {}
  {
    if limit > 0 {
      forall id | id in Candidates(items, gid)
        ensures |Fresher(items, gid, id)| < limit
      {
        PruneOrder(items);
        assert !PruneBefore(items, id, id);
        assert Fresher(items, gid, id) <= Candidates(items, gid) - {id};
        SubsetSize(Fresher(items, gid, id), Candidates(items, gid) - {id});
      }
    }
  }

  /** Pruning removes exactly the stale items from the candidates of the group. */
  lemma CandidatesAfterPrune(items: map<int, ItemRecord>, gid: int, limit: int)
    ensures Candidates(items - Stale(items, gid, limit), gid) == Candidates(items, gid) - Stale(items, gid, limit)
  {
  }

  /** After a prune with a positive limit, the group has at most `limit` unpinned items. */
  lemma PruneBound(items: map<int, ItemRecord>, gid: int, limit: int)
    requires limit > 0
    ensures |Candidates(items - Stale(items, gid, limit), gid)| <= limit
  {
    var stale := Stale(items, gid, limit);
    var kept := Candidates(items, gid) - stale;
    CandidatesAfterPrune(items, gid, limit);
    if kept != {} {
      PruneOrder(items);
      var m := Greatest(PruneLt(items), kept);
      assert kept - {m} <= Fresher(items, gid, m);
      SubsetSize(kept - {m}, Fresher(items, gid, m));
      assert |Fresher(items, gid, m)| < limit;
      assert |kept| == |kept - {m}| + 1;
    }
  }

  /** Pruning twice with the same limit deletes nothing more. */
  lemma PruneIdempotent(items: map<int, ItemRecord>, gid: int, limit: int)
    ensures var after := items - Stale(items, gid, limit);
      Stale(after, gid, limit) == {}
  {
    if limit > 0 {
      PruneBound(items, gid, limit);
      PruneNoopUnderCap(items - Stale(items, gid, limit), gid, limit);
    }
  }

  /**
   * The loop of `_prune_group_items`: with the candidates listed freshest
   * first, the deleted ids are those from position `limit` on.
   */
  lemma StaleIsSortedTail(items: map<int, ItemRecord>, gid: int, limit: int, ids: seq<int>)
    requires limit > 0
    requires SortedBy(PruneLt(items), ids)
    requires forall x :: x in ids <==> x in Candidates(items, gid)
    ensures Stale(items, gid, limit) == set x | x in ids[Min(limit, |ids|)..]
  {
    var tail := set x | x in ids[Min(limit, |ids|)..];
    forall id | id in Candidates(items, gid)
      ensures id in Stale(items, gid, limit) <==> id in tail
    {
      var k :| 0 <= k < |ids| && ids[k] == id;
      StaleAtPosition(items, gid, limit, ids, k);
      InSortedTail(items, limit, ids, k);
    }
  }

  /** The candidate at position `k` of the freshest-first listing is stale exactly when `k >= limit`. */
  lemma StaleAtPosition(items: map<int, ItemRecord>, gid: int, limit: int, ids: seq<int>, k: int)
    requires limit > 0
    requires SortedBy(PruneLt(items), ids)
    requires forall x :: x in ids <==> x in Candidates(items, gid)
    requires 0 <= k < |ids|
    ensures ids[k] in Stale(items, gid, limit) <==> k >= limit
  {
    var lt := PruneLt(items);
    PruneOrder(items);
    PrecedingAreExactlyPrefix(lt, ids, k);
    assert Fresher(items, gid, ids[k]) == set x | x in ids[..k];
    SortedPrefix(lt, ids, k);
    SortedSetSize(lt, ids[..k]);
  }

  /** In a listing without repeats, position `k` lies in the tail from `limit` on exactly when `k >= limit`. */
  lemma InSortedTail(items: map<int, ItemRecord>, limit: int, ids: seq<int>, k: int)
    requires limit > 0
    requires SortedBy(PruneLt(items), ids)
    requires 0 <= k < |ids|
    ensures ids[k] in ids[Min(limit, |ids|)..] <==> k >= limit
  {
    var lt := PruneLt(items);
    PruneOrder(items);
    if k >= limit {
      assert ids[Min(limit, |ids|)..][k - limit] == ids[k];
    } else {
      forall j | Min(limit, |ids|) <= j < |ids|
        ensures ids[j] != ids[k]
      {
        assert lt(ids[k], ids[j]);
        Asymmetric(lt, ids[k], ids[k]);
      }
    }
  }

  function Min(a: int, b: int): int
  {
    if a < b then a else b
  }

  /** A subset is no larger, and a proper subset is smaller. */
  lemma SubsetSize<T>(a: set<T>, b: set<T>)
    requires a <= b
    ensures |a| <= |b|
    ensures a < b ==> |a| < |b|
  {
    assert b == a + (b - a);
    assert a * (b - a) == {};
    if a < b {
      var x :| x in b && x !in a;
      assert x in b - a;
    }
  }

  lemma SortedPrefix<T>(lt: (T, T) -> bool, s: seq<T>, k: int)
    requires SortedBy(lt, s) && 0 <= k <= |s|
    ensures SortedBy(lt, s[..k])
  {
  }
}
