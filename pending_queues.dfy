/**
 * The two pending surface queues of the LOD scheduler (`_addedSurfaces` and
 * `_removedSurfaces`, both `std::list`s) as values, with the operations that
 * `addPendingSurface` and `removePendingSurface` perform on them and the
 * invariants they keep.
 */
module PendingQueues {
  import opened Util

  /** Surfaces are compared by identity only. */
  type SurfaceId = int

  datatype Queues = Queues(added: seq<SurfaceId>, removed: seq<SurfaceId>)

  /** Neither queue holds a surface twice and no surface is in both. */
  predicate Valid(q: Queues)
  {
    && Distinct(q.added)
    && Distinct(q.removed)
    && forall s :: s in q.added ==> s !in q.removed
  }

  /**
   * `list.erase(std::find(list.begin(), list.end(), s))` guarded by the
   * iterator not being `end()`: the first occurrence of `s` goes, the
   * order of the others is kept.
   */
  function EraseFirst(q: seq<SurfaceId>, s: SurfaceId): seq<SurfaceId>
  {
    if q == [] then [] else if q[0] == s then q[1..] else [q[0]] + EraseFirst(q[1..], s)
  }

  /** Erasing takes away exactly one `s` when there is one, and nothing else. */
  lemma {:induction false} EraseFirstMultiset(q: seq<SurfaceId>, s: SurfaceId)
    ensures multiset(EraseFirst(q, s)) == multiset(q) - multiset{s}
    ensures s !in q ==> EraseFirst(q, s) == q
  {
    if q != [] {
      assert q == [q[0]] + q[1..];
      EraseFirstMultiset(q[1..], s);
    }
  }

  /** `addPendingSurface`: evict from the removed queue, append to the added queue unless present. */
  function AddPending(q: Queues, s: SurfaceId): Queues
  {
    Queues(if s in q.added then q.added else q.added + [s], EraseFirst(q.removed, s))
  }

  /** `removePendingSurface`: evict from the added queue, append to the removed queue unless present. */
  function RemovePending(q: Queues, s: SurfaceId): Queues
  {
    Queues(EraseFirst(q.added, s), if s in q.removed then q.removed else q.removed + [s])
  }

  /** `surfaceLayoutMaskInvalidated`: a visible surface is queued for addition, any other for removal. */
  function Route(q: Queues, s: SurfaceId, visible: bool): Queues
  {
    if visible then AddPending(q, s) else RemovePending(q, s)
  }

  /** `addPendingSurface` applied to each of `ss` in turn. */
  function AddAll(q: Queues, ss: seq<SurfaceId>): Queues
  {
    if ss == [] then q else AddPending(AddAll(q, ss[..|ss| - 1]), ss[|ss| - 1])
  }

  /** `removePendingSurface` applied to each of `ss` in turn. */
  function RemoveAll(q: Queues, ss: seq<SurfaceId>): Queues
  {
    if ss == [] then q else RemovePending(RemoveAll(q, ss[..|ss| - 1]), ss[|ss| - 1])
  }

  /** `surfaceLayoutMaskInvalidated` applied to each of `ss` in turn. */
  function RouteAll(q: Queues, ss: seq<SurfaceId>, visible: SurfaceId -> bool): Queues
  {
    if ss == [] then q else Route(RouteAll(q, ss[..|ss| - 1], visible), ss[|ss| - 1], visible(ss[|ss| - 1]))
  }

  /**
   * After `addPendingSurface(s)` on valid queues, `s` is in the added queue
   * exactly once and not in the removed queue; no other surface changes
   * membership; the queues stay valid; an already-queued `s` is not
   * appended again and a new one goes to the back.
   */
  lemma AddPendingSpec(q: Queues, s: SurfaceId)
    requires Valid(q)
    ensures var r := AddPending(q, s);
      && multiset(r.added)[s] == 1
      && s !in r.removed
      && (forall t :: t != s ==> (t in r.added <==> t in q.added) && (t in r.removed <==> t in q.removed))
      && Valid(r)
      && r.added == (if s in q.added then q.added else q.added + [s])
  {
    var r := AddPending(q, s);
    EraseFirstMultiset(q.removed, s);
    assert multiset(r.removed)[s] == 0;
    forall t | t != s
      ensures (t in r.added <==> t in q.added) && (t in r.removed <==> t in q.removed)
    {
      assert multiset(r.removed)[t] == multiset(q.removed)[t];
      assert multiset(r.added)[t] == multiset(q.added)[t];
    }
    forall x ensures multiset(r.removed)[x] <= 1 {
      assert multiset(r.removed)[x] <= multiset(q.removed)[x];
    }
    forall x ensures multiset(r.added)[x] <= 1 {
      if x != s { assert multiset(r.added)[x] == multiset(q.added)[x]; }
    }
  }

  /**
   * After `removePendingSurface(s)` on valid queues, `s` is in the removed
   * queue exactly once and not in the added queue; no other surface changes
   * membership; the queues stay valid; an already-queued `s` is not
   * appended again and a new one goes to the back.
   */
  lemma RemovePendingSpec(q: Queues, s: SurfaceId)
    requires Valid(q)
    ensures var r := RemovePending(q, s);
      && multiset(r.removed)[s] == 1
      && s !in r.added
      && (forall t :: t != s ==> (t in r.added <==> t in q.added) && (t in r.removed <==> t in q.removed))
      && Valid(r)
      && r.removed == (if s in q.removed then q.removed else q.removed + [s])
  {
    var r := RemovePending(q, s);
    EraseFirstMultiset(q.added, s);
    assert multiset(r.added)[s] == 0;
    forall t | t != s
      ensures (t in r.added <==> t in q.added) && (t in r.removed <==> t in q.removed)
    {
      assert multiset(r.removed)[t] == multiset(q.removed)[t];
      assert multiset(r.added)[t] == multiset(q.added)[t];
    }
    forall x ensures multiset(r.added)[x] <= 1 {
      assert multiset(r.added)[x] <= multiset(q.added)[x];
    }
    forall x ensures multiset(r.removed)[x] <= 1 {
      if x != s { assert multiset(r.removed)[x] == multiset(q.removed)[x]; }
    }
  }

  /**
   * After `surfaceLayoutMaskInvalidated(s)` on valid queues, `s` is in
   * exactly the queue its visibility selects, every other surface is where
   * it was, and the queues stay valid.
   */
  lemma RouteSpec(q: Queues, s: SurfaceId, visible: bool)
    requires Valid(q)
    ensures var r := Route(q, s, visible);
      && Valid(r)
      && (if visible then s in r.added && s !in r.removed else s in r.removed && s !in r.added)
      && (forall t :: t != s ==> (t in r.added <==> t in q.added) && (t in r.removed <==> t in q.removed))
  {
    if visible {
      AddPendingSpec(q, s);
    } else {
      RemovePendingSpec(q, s);
    }
  }

  /**
   * Invalidating the layout of every surface of `ss` leaves each of them in
   * exactly the queue its visibility selects, and every other surface where
   * it was; the queues stay valid.
   */
  lemma {:induction false} RouteAllSpec(q: Queues, ss: seq<SurfaceId>, visible: SurfaceId -> bool)
    requires Valid(q)
    ensures var r := RouteAll(q, ss, visible);
      && Valid(r)
      && (forall s :: s in ss ==> if visible(s) then s in r.added && s !in r.removed
                                  else s in r.removed && s !in r.added)
      && (forall t :: t !in ss ==> (t in r.added <==> t in q.added) && (t in r.removed <==> t in q.removed))
  {
    if ss != [] {
      var init, last := ss[..|ss| - 1], ss[|ss| - 1];
      assert ss == init + [last];
      RouteAllSpec(q, init, visible);
      RouteSpec(RouteAll(q, init, visible), last, visible(last));
    }
  }

  /** Enqueuing every surface of `ss` for addition leaves each in the added queue only. */
  lemma {:induction false} AddAllSpec(q: Queues, ss: seq<SurfaceId>)
    requires Valid(q)
    ensures var r := AddAll(q, ss);
      && Valid(r)
      && (forall s :: s in ss ==> s in r.added && s !in r.removed)
      && (forall t :: t !in ss ==> (t in r.added <==> t in q.added) && (t in r.removed <==> t in q.removed))
  {
    if ss != [] {
      var init, last := ss[..|ss| - 1], ss[|ss| - 1];
      assert ss == init + [last];
      AddAllSpec(q, init);
      AddPendingSpec(AddAll(q, init), last);
    }
  }

  /** Enqueuing every surface of `ss` for removal leaves each in the removed queue only. */
  lemma {:induction false} RemoveAllSpec(q: Queues, ss: seq<SurfaceId>)
    requires Valid(q)
    ensures var r := RemoveAll(q, ss);
      && Valid(r)
      && (forall s :: s in ss ==> s in r.removed && s !in r.added)
      && (forall t :: t !in ss ==> (t in r.added <==> t in q.added) && (t in r.removed <==> t in q.removed))
  {
    if ss != [] {
      var init, last := ss[..|ss| - 1], ss[|ss| - 1];
      assert ss == init + [last];
      RemoveAllSpec(q, init);
      RemovePendingSpec(RemoveAll(q, init), last);
    }
  }
}
