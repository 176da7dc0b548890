/**
 * The bookkeeping of minko's `AbstractLodScheduler` component: a registry of
 * resources with a dirty flag and the last computed `LodInfo`, the two pending
 * surface queues, the binding to a master scheduler, and the `_enabled` and
 * `_frameTime` fields. The virtual hooks (`surfaceAdded`, `surfaceRemoved`,
 * `lodInfoChanged`) and the writes into each resource's data provider are
 * recorded in an event log; the LOD policy `lodInfo(resource, time)` is a
 * function parameter.
 */
module LodScheduler {
  import opened Util
  import opened PendingQueues
  import opened SurfaceVisibility

  /** The `uuid()` of a resource's data provider. */
  type Uuid = string

  /** A LOD priority; the scheduler only compares priorities for equality. */
  type Priority = real

  /** A frame time; the scheduler only stores and forwards it. */
  type Time = real

  /** Identity of a master LOD scheduler component. */
  type MasterId = nat

  /** `AbstractLodScheduler::DEFAULT_LOD`. */
  const DEFAULT_LOD: int := 0

  datatype LodInfo = LodInfo(requiredLod: int, priority: Priority)

  /** A registry entry; the provider handle it holds is identified by the registry key. */
  datatype ResourceInfo = ResourceInfo(lodRequirementIsInvalid: bool, lodInfo: LodInfo)

  /** The entry `ResourceInfo(data)` creates: dirty, with the default LOD. */
  const NewResourceInfo: ResourceInfo := ResourceInfo(true, LodInfo(DEFAULT_LOD, 0.0))

  /** The component kinds the structural handlers tell apart. */
  datatype Component =
    | SceneManagerComponent
    | RendererComponent
    | MasterLodSchedulerComponent
    | SurfaceComponent(surface: SurfaceId)
    | OtherComponent

  /** Observable effects: hook calls and writes into a resource's data provider. */
  datatype Event =
    | OnSurfaceRemoved(surface: SurfaceId)
    | OnSurfaceAdded(surface: SurfaceId)
    | OnLodInfoChanged(uuid: Uuid, previous: LodInfo, next: LodInfo)
    | StoreRequiredLod(uuid: Uuid, requiredLod: int)
    | StorePriority(uuid: Uuid, priority: Priority)

  /** The policy hook `lodInfo(resource, time)` a concrete scheduler supplies. */
  type Policy = (Uuid, ResourceInfo, Time) -> LodInfo

  /** The visibility of every surface under a candidate scheduler mask. */
  function VisibleUnder(views: SurfaceId -> SurfaceLayout, schedulerMask: Layout, hidden: Layout): SurfaceId -> bool
  {
    s => CheckSurfaceLayout(views(s), schedulerMask, hidden)
  }

  // ---------------------------------------------------------------------------
  // Draining the pending queues (`collectSurfaces`)

  /** The `surfaceRemoved` calls for `ss`, front to back. */
  function RemovedEvents(ss: seq<SurfaceId>): seq<Event>
  {
    if ss == [] then [] else RemovedEvents(ss[..|ss| - 1]) + [OnSurfaceRemoved(ss[|ss| - 1])]
  }

  /** The `surfaceAdded` calls for `ss`, front to back. */
  function AddedEvents(ss: seq<SurfaceId>): seq<Event>
  {
    if ss == [] then [] else AddedEvents(ss[..|ss| - 1]) + [OnSurfaceAdded(ss[|ss| - 1])]
  }

  /** One `surfaceRemoved` call per queued surface, in queue order; likewise for `surfaceAdded`. */
  lemma {:induction false} HookPerSurface(ss: seq<SurfaceId>)
    ensures |RemovedEvents(ss)| == |ss| && |AddedEvents(ss)| == |ss|
    ensures forall i :: 0 <= i < |ss| ==> RemovedEvents(ss)[i] == OnSurfaceRemoved(ss[i])
    ensures forall i :: 0 <= i < |ss| ==> AddedEvents(ss)[i] == OnSurfaceAdded(ss[i])
  {
    if ss != [] {
      HookPerSurface(ss[..|ss| - 1]);
    }
  }

  /** The hook calls of one `collectSurfaces`. */
  function DrainEvents(q: Queues, masterBound: bool): seq<Event>
  {
    RemovedEvents(q.removed) + (if masterBound then AddedEvents(q.added) else [])
  }

  /** The queues after one `collectSurfaces`. */
  function Drained(q: Queues, masterBound: bool): Queues
  {
    Queues(if masterBound then [] else q.added, [])
  }

  /**
   * `collectSurfaces` reports every pending removal, in queue order, before
   * any addition; additions are reported, in queue order, only when a master
   * is bound; the removed queue always ends up empty, and the added queue is
   * left as it was when no master is bound, so a second drain without a
   * master reports nothing and changes nothing.
   */
  lemma DrainOrder(q: Queues, masterBound: bool)
    ensures var e := DrainEvents(q, masterBound);
      && |e| == |q.removed| + (if masterBound then |q.added| else 0)
      && (forall i :: 0 <= i < |q.removed| ==> e[i] == OnSurfaceRemoved(q.removed[i]))
      && (masterBound ==> forall i :: 0 <= i < |q.added| ==> e[|q.removed| + i] == OnSurfaceAdded(q.added[i]))
      && Drained(q, masterBound).removed == []
      && (!masterBound ==>
            Drained(q, false).added == q.added
            && DrainEvents(Drained(q, false), false) == []
            && Drained(Drained(q, false), false) == Drained(q, false))
  {
    HookPerSurface(q.removed);
    HookPerSurface(q.added);
  }

  /** Draining keeps the queue invariant. */
  lemma DrainedValid(q: Queues, masterBound: bool)
    requires Valid(q)
    ensures Valid(Drained(q, masterBound))
  {
  }

  // ---------------------------------------------------------------------------
  // Recomputing LOD requirements (`updated`, `lodInfoChanged`)

  /** The default `lodInfoChanged`: writes `requiredLod` and `priority` only where they changed. */
  function WriteBack(uuid: Uuid, previous: LodInfo, next: LodInfo): seq<Event>
  {
    (if previous.requiredLod != next.requiredLod then [StoreRequiredLod(uuid, next.requiredLod)] else [])
    + (if previous.priority != next.priority then [StorePriority(uuid, next.priority)] else [])
  }

  /**
   * The write-back touches only changed fields: `requiredLod` is written
   * (with the new value) exactly when it changed, `priority` likewise, and
   * nothing else is written; identical values write nothing.
   */
  lemma WritesOnlyChangedFields(uuid: Uuid, previous: LodInfo, next: LodInfo)
    ensures var w := WriteBack(uuid, previous, next);
      && (StoreRequiredLod(uuid, next.requiredLod) in w <==> previous.requiredLod != next.requiredLod)
      && (StorePriority(uuid, next.priority) in w <==> previous.priority != next.priority)
      && (forall e :: e in w ==> e == StoreRequiredLod(uuid, next.requiredLod) || e == StorePriority(uuid, next.priority))
      && (previous == next <==> w == [])
  {
  }

  /** What the policy returns for a dirty entry: it sees the entry with its flag already cleared. */
  function Computed(uuid: Uuid, info: ResourceInfo, policy: Policy, time: Time): LodInfo
  {
    policy(uuid, info.(lodRequirementIsInvalid := false), time)
  }

  /** One iteration of the loop in `updated`, on the entry. */
  function Refreshed(uuid: Uuid, info: ResourceInfo, policy: Policy, time: Time): ResourceInfo
  {
    if info.lodRequirementIsInvalid then ResourceInfo(false, Computed(uuid, info, policy, time)) else info
  }

  /** One iteration of the loop in `updated`, on the event log. */
  function RefreshEvents(uuid: Uuid, info: ResourceInfo, policy: Policy, time: Time): seq<Event>
  {
    var next := Computed(uuid, info, policy, time);
    if info.lodRequirementIsInvalid && info.lodInfo != next
    then [OnLodInfoChanged(uuid, info.lodInfo, next)] + WriteBack(uuid, info.lodInfo, next)
    else []
  }

  /** The loop of `updated` on the registry: every entry refreshed. */
  function RefreshAll(m: map<Uuid, ResourceInfo>, policy: Policy, time: Time): map<Uuid, ResourceInfo>
  {
    map k | k in m :: Refreshed(k, m[k], policy, time)
  }

  /**
   * After `updated` the registry has the same keys, no entry is dirty, clean
   * entries are untouched and every dirty entry holds the policy's value.
   */
  lemma RefreshAllSpec(m: map<Uuid, ResourceInfo>, policy: Policy, time: Time)
    ensures var r := RefreshAll(m, policy, time);
      && r.Keys == m.Keys
      && (forall k :: k in r ==> !r[k].lodRequirementIsInvalid)
      && (forall k :: k in m && !m[k].lodRequirementIsInvalid ==> r[k] == m[k])
      && (forall k :: k in m && m[k].lodRequirementIsInvalid ==> r[k].lodInfo == Computed(k, m[k], policy, time))
  {
  }

  /**
   * The registry part-way through the loop of `updated`: the keys in `done`
   * refreshed, each from its original entry.
   */
  function PartialRefresh(m: map<Uuid, ResourceInfo>, done: seq<Uuid>, policy: Policy, time: Time): map<Uuid, ResourceInfo>
  {
    if done == [] then m
    else
      var k := done[|done| - 1];
      var r := PartialRefresh(m, done[..|done| - 1], policy, time);
      if k in m then r[k := Refreshed(k, m[k], policy, time)] else r
  }

  /** Each entry of a partial refresh is refreshed exactly when its key was visited. */
  lemma {:induction false} PartialRefreshAt(m: map<Uuid, ResourceInfo>, done: seq<Uuid>, policy: Policy, time: Time, k: Uuid)
    ensures PartialRefresh(m, done, policy, time).Keys == m.Keys
    ensures k in m ==> PartialRefresh(m, done, policy, time)[k] == if k in done then Refreshed(k, m[k], policy, time) else m[k]
  {
    if done != [] {
      var init, last := done[..|done| - 1], done[|done| - 1];
      assert done == init + [last];
      PartialRefreshAt(m, init, policy, time, k);
    }
  }

  /** One more key of `order` visited: the registry and the event log each take one step. */
  lemma PartialRefreshStep(m: map<Uuid, ResourceInfo>, order: seq<Uuid>, i: nat, policy: Policy, time: Time)
    requires Enumerates(order, m) && i < |order|
    ensures var k := order[i];
      && k in m && k in PartialRefresh(m, order[..i], policy, time)
      && PartialRefresh(m, order[..i], policy, time)[k] == m[k]
      && PartialRefresh(m, order[..i + 1], policy, time)
         == PartialRefresh(m, order[..i], policy, time)[k := Refreshed(k, m[k], policy, time)]
      && UpdateEvents(order[..i + 1], m, policy, time)
         == UpdateEvents(order[..i], m, policy, time) + RefreshEvents(k, m[k], policy, time)
  {
    var k := order[i];
    DistinctPrefix(order, i);
    PartialRefreshAt(m, order[..i], policy, time, k);
    assert order[..i + 1][..i] == order[..i];
  }

  /** Once every key is visited the partial refresh is the whole one. */
  lemma PartialRefreshDone(m: map<Uuid, ResourceInfo>, order: seq<Uuid>, policy: Policy, time: Time)
    requires Enumerates(order, m)
    ensures order[..|order|] == order
    ensures PartialRefresh(m, order, policy, time) == RefreshAll(m, policy, time)
  {
    assert order[..|order|] == order;
    var r := PartialRefresh(m, order, policy, time);
    PartialRefreshAt(m, order, policy, time, "");
    forall k | k in m
      ensures k in r && r[k] == RefreshAll(m, policy, time)[k]
    {
      PartialRefreshAt(m, order, policy, time, k);
    }
  }

  /** The events of the loop of `updated`, visiting the registry keys in `order`. */
  function UpdateEvents(order: seq<Uuid>, m: map<Uuid, ResourceInfo>, policy: Policy, time: Time): seq<Event>
  {
    if order == [] then []
    else
      var k := order[|order| - 1];
      UpdateEvents(order[..|order| - 1], m, policy, time) + (if k in m then RefreshEvents(k, m[k], policy, time) else [])
  }

  /** `invalidateLodRequirement()`: every entry marked dirty. */
  function InvalidatedAll(m: map<Uuid, ResourceInfo>): (r: map<Uuid, ResourceInfo>)
    ensures r.Keys == m.Keys
    ensures forall k :: k in r ==> r[k].lodRequirementIsInvalid && r[k].lodInfo == m[k].lodInfo
  {
    map k | k in m :: m[k].(lodRequirementIsInvalid := true)
  }

  /** `order` lists every registry key exactly once: the registry's iteration order. */
  predicate Enumerates(order: seq<Uuid>, m: map<Uuid, ResourceInfo>)
  {
    Distinct(order) && (forall k :: k in m ==> k in order) && (forall k :: k in order ==> k in m)
  }

  /** The number of `lodInfoChanged` calls about `uuid` in `events`. */
  function HookCount(events: seq<Event>, uuid: Uuid): nat
  {
    if events == [] then 0
    else
      var last := events[|events| - 1];
      HookCount(events[..|events| - 1], uuid) + (if last.OnLodInfoChanged? && last.uuid == uuid then 1 else 0)
  }

  lemma {:induction false} HookCountAppend(a: seq<Event>, b: seq<Event>, uuid: Uuid)
    ensures HookCount(a + b, uuid) == HookCount(a, uuid) + HookCount(b, uuid)
    decreases |b|
  {
    if b == [] {
      assert a + b == a;
    } else {
      assert (a + b)[..|a + b| - 1] == a + b[..|b| - 1];
      HookCountAppend(a, b[..|b| - 1], uuid);
    }
  }

  lemma RefreshEventsHookCount(k: Uuid, info: ResourceInfo, policy: Policy, time: Time, uuid: Uuid)
    ensures HookCount(RefreshEvents(k, info, policy, time), uuid)
         == if k == uuid && info.lodRequirementIsInvalid && info.lodInfo != Computed(k, info, policy, time) then 1 else 0
  {
    var e := RefreshEvents(k, info, policy, time);
    var next := Computed(k, info, policy, time);
    if info.lodRequirementIsInvalid && info.lodInfo != next {
      var w := WriteBack(k, info.lodInfo, next);
      HookCountAppend([OnLodInfoChanged(k, info.lodInfo, next)], w, uuid);
      assert [OnLodInfoChanged(k, info.lodInfo, next)][..0] == [];
      if w == [] {
      } else if |w| == 1 {
        assert w[..0] == [];
      } else {
        assert w[..1][..0] == [];
        assert w[..|w| - 1] == w[..1];
      }
    }
  }

  /**
   * `updated` calls `lodInfoChanged` for a registered resource exactly once
   * when the resource was dirty and the policy's value differs from the
   * stored one, and never otherwise.
   */
  lemma {:induction false} HookFiresIffChanged(order: seq<Uuid>, m: map<Uuid, ResourceInfo>, policy: Policy, time: Time, uuid: Uuid)
    requires Distinct(order)
    requires forall k :: k in order ==> k in m
    ensures HookCount(UpdateEvents(order, m, policy, time), uuid)
         == if uuid in order && m[uuid].lodRequirementIsInvalid && m[uuid].lodInfo != Computed(uuid, m[uuid], policy, time)
            then 1 else 0
  {
    if order != [] {
      var init, k := order[..|order| - 1], order[|order| - 1];
      assert order == init + [k];
      assert multiset(order) == multiset(init) + multiset{k};
      forall x | x in init ensures multiset(init)[x] <= 1 {
        assert x in order;
      }
      assert k in order;
      assert k !in init;
      HookFiresIffChanged(init, m, policy, time, uuid);
      HookCountAppend(UpdateEvents(init, m, policy, time), RefreshEvents(k, m[k], policy, time), uuid);
      RefreshEventsHookCount(k, m[k], policy, time, uuid);
    }
  }

  /** Every `lodInfoChanged` call that `updated` makes carries the stored value and the policy's value. */
  lemma {:induction false} HookCarriesOldAndNew(order: seq<Uuid>, m: map<Uuid, ResourceInfo>, policy: Policy, time: Time, e: Event)
    requires forall k :: k in order ==> k in m
    requires e in UpdateEvents(order, m, policy, time) && e.OnLodInfoChanged?
    ensures e.uuid in m && m[e.uuid].lodRequirementIsInvalid
    ensures e.previous == m[e.uuid].lodInfo && e.next == Computed(e.uuid, m[e.uuid], policy, time)
    ensures e.previous != e.next
  {
    var init, k := order[..|order| - 1], order[|order| - 1];
    if e in UpdateEvents(init, m, policy, time) {
      HookCarriesOldAndNew(init, m, policy, time, e);
    } else {
      var next := Computed(k, m[k], policy, time);
      assert e in RefreshEvents(k, m[k], policy, time);
      assert e !in WriteBack(k, m[k].lodInfo, next);
    }
  }

  /** On a registry without dirty entries the loop of `updated` calls no hook. */
  lemma {:induction false} CleanRegistryIsQuiet(order: seq<Uuid>, m: map<Uuid, ResourceInfo>, policy: Policy, time: Time)
    requires forall k :: k in order ==> k in m && !m[k].lodRequirementIsInvalid
    ensures UpdateEvents(order, m, policy, time) == []
  {
    if order != [] {
      CleanRegistryIsQuiet(order[..|order| - 1], m, policy, time);
    }
  }

  /**
   * A second `updated` right after the first, with the same master binding,
   * changes nothing and calls no hook: the first drained the queues it drains
   * and left every registry entry clean.
   */
  lemma UpdatedIsIdempotent(q: Queues, masterBound: bool, order: seq<Uuid>, m: map<Uuid, ResourceInfo>,
                            policy: Policy, time: Time, policy': Policy, time': Time)
    requires forall k :: k in order ==> k in m
    ensures Drained(Drained(q, masterBound), masterBound) == Drained(q, masterBound)
    ensures DrainEvents(Drained(q, masterBound), masterBound) == []
    ensures RefreshAll(RefreshAll(m, policy, time), policy', time') == RefreshAll(m, policy, time)
    ensures UpdateEvents(order, RefreshAll(m, policy, time), policy', time') == []
  {
    CleanRegistryIsQuiet(order, RefreshAll(m, policy, time), policy', time');
  }

  /**
   * `forceUpdate` recomputes every entry: afterwards each holds the policy's
   * value, and `lodInfoChanged` fires for a resource exactly when that value
   * differs from the stored one.
   */
  lemma ForceUpdateRecomputesAll(order: seq<Uuid>, m: map<Uuid, ResourceInfo>, policy: Policy, time: Time, uuid: Uuid)
    requires Enumerates(order, m)
    requires uuid in m
    ensures var d := InvalidatedAll(m);
      && RefreshAll(d, policy, time)[uuid] == ResourceInfo(false, Computed(uuid, d[uuid], policy, time))
      && HookCount(UpdateEvents(order, d, policy, time), uuid)
         == if m[uuid].lodInfo != Computed(uuid, d[uuid], policy, time) then 1 else 0
  {
    HookFiresIffChanged(order, InvalidatedAll(m), policy, time, uuid);
  }

  // ---------------------------------------------------------------------------
  // The registry (`registerResource`, `unregisterResource`)

  /** `_resources.insert(...)`: an existing entry is kept. */
  function Registered(m: map<Uuid, ResourceInfo>, uuid: Uuid): map<Uuid, ResourceInfo>
  {
    if uuid in m then m else m[uuid := NewResourceInfo]
  }

  /** `_resources.erase(uuid)`. */
  function Unregistered(m: map<Uuid, ResourceInfo>, uuid: Uuid): map<Uuid, ResourceInfo>
  {
    m - {uuid}
  }

  /**
   * Registering keeps one entry per key and never overwrites; unregistering
   * removes only its key and is a no-op when the key is absent;
   * re-registering after unregistering yields a fresh entry.
   */
  lemma RegistryLaws(m: map<Uuid, ResourceInfo>, uuid: Uuid, other: Uuid)
    requires other != uuid
    ensures Registered(m, uuid).Keys == m.Keys + {uuid}
    ensures uuid in m ==> Registered(m, uuid)[uuid] == m[uuid]
    ensures other in m ==> Registered(m, uuid)[other] == m[other]
    ensures Unregistered(m, uuid).Keys == m.Keys - {uuid}
    ensures other in m ==> Unregistered(m, uuid)[other] == m[other]
    ensures uuid !in m ==> Unregistered(m, uuid) == m
    ensures Registered(Unregistered(m, uuid), uuid) == Unregistered(m, uuid)[uuid := NewResourceInfo]
  {
  }

  // ---------------------------------------------------------------------------
  // The component

  class Scheduler {
    /** `_resources`. */
    var resources: map<Uuid, ResourceInfo>
    /** `_addedSurfaces`. */
    var addedSurfaces: seq<SurfaceId>
    /** `_removedSurfaces`. */
    var removedSurfaces: seq<SurfaceId>
    /** `_masterLodScheduler`. */
    var masterLodScheduler: Option<MasterId>
    /** `enabled()`. */
    var enabled: bool
    /** `_frameTime`. */
    var frameTime: Time
    /** `AbstractComponent::layoutMask()`. */
    var layoutMask: Layout
    /** The keys of `_surfaceLayoutmaskChangedSlots`. */
    var watchedSurfaces: set<SurfaceId>
    /** Hook calls and provider writes so far. */
    var events: seq<Event>
    /** `BuiltinLayout::HIDDEN`. */
    const hidden: Layout

    ghost function Pending(): Queues
      reads this`addedSurfaces, this`removedSurfaces
    {
      Queues(addedSurfaces, removedSurfaces)
    }

    ghost predicate Valid()
      reads this`addedSurfaces, this`removedSurfaces
    {
      PendingQueues.Valid(Pending())
    }

    constructor (layoutMask: Layout, hidden: Layout)
      ensures Valid()
      ensures resources == map[] && Pending() == Queues([], [])
      ensures masterLodScheduler == None && enabled && frameTime == 0.0
      ensures this.layoutMask == layoutMask && this.hidden == hidden
      ensures watchedSurfaces == {} && events == []
    {
      resources := map[];
      addedSurfaces, removedSurfaces := [], [];
      masterLodScheduler := None;
      enabled := true;
      frameTime := 0.0;
      this.layoutMask := layoutMask;
      this.hidden := hidden;
      watchedSurfaces := {};
      events := [];
    }

    /** `registerResource`: returns the entry now stored under `uuid`. */
    method RegisterResource(uuid: Uuid) returns (info: ResourceInfo)
      modifies this`resources
      ensures resources == Registered(old(resources), uuid)
      ensures info == resources[uuid]
    {
      if uuid !in resources {
        resources := resources[uuid := NewResourceInfo];
      }
      info := resources[uuid];
    }

    /** `unregisterResource`. */
    method UnregisterResource(uuid: Uuid)
      modifies this`resources
      ensures resources == Unregistered(old(resources), uuid)
    {
      resources := resources - {uuid};
    }

    /** `invalidateLodRequirement(ResourceInfo&)`, on the entry registered under `uuid`. */
    method InvalidateLodRequirement(uuid: Uuid)
      requires uuid in resources
      modifies this`resources
      ensures resources == old(resources)[uuid := old(resources)[uuid].(lodRequirementIsInvalid := true)]
    {
      resources := resources[uuid := resources[uuid].(lodRequirementIsInvalid := true)];
    }

    /** `invalidateLodRequirement()`: the loop over every entry. */
    method InvalidateAllLodRequirements()
      modifies this`resources
      ensures resources == InvalidatedAll(old(resources))
    {
      var todo := resources.Keys;
      while todo != {}
        invariant todo <= resources.Keys && resources.Keys == old(resources).Keys
        invariant forall k :: k in resources ==>
          resources[k] == if k in todo then old(resources)[k] else old(resources)[k].(lodRequirementIsInvalid := true)
        decreases todo
      {
        var k :| k in todo;
        InvalidateLodRequirement(k);
        todo := todo - {k};
      }
    }

    /** `addPendingSurface`. */
    method AddPendingSurface(s: SurfaceId)
      requires Valid()
      modifies this`addedSurfaces, this`removedSurfaces
      ensures Pending() == AddPending(old(Pending()), s)
      ensures Valid()
    {
      var addedIndex := Find(addedSurfaces, s);
      var removedIndex := Find(removedSurfaces, s);
      if removedIndex < |removedSurfaces| {
        removedSurfaces := removedSurfaces[..removedIndex] + removedSurfaces[removedIndex + 1..];
        EraseAtFirst(old(removedSurfaces), s, removedIndex);
      }
      else {
        EraseFirstMultiset(removedSurfaces, s);
      }
      if addedIndex == |addedSurfaces| {
        addedSurfaces := addedSurfaces + [s];
      }
      AddPendingSpec(old(Pending()), s);
    }

    /** `removePendingSurface`. */
    method RemovePendingSurface(s: SurfaceId)
      requires Valid()
      modifies this`addedSurfaces, this`removedSurfaces
      ensures Pending() == RemovePending(old(Pending()), s)
      ensures Valid()
    {
      var addedIndex := Find(addedSurfaces, s);
      var removedIndex := Find(removedSurfaces, s);
      if addedIndex < |addedSurfaces| {
        addedSurfaces := addedSurfaces[..addedIndex] + addedSurfaces[addedIndex + 1..];
        EraseAtFirst(old(addedSurfaces), s, addedIndex);
      }
      else {
        EraseFirstMultiset(addedSurfaces, s);
      }
      if removedIndex == |removedSurfaces| {
        removedSurfaces := removedSurfaces + [s];
      }
      RemovePendingSpec(old(Pending()), s);
    }

    /** `surfaceLayoutMaskInvalidated`: re-route `s` by its visibility under the current mask. */
    method SurfaceLayoutMaskInvalidated(s: SurfaceId, surface: SurfaceLayout)
      requires Valid()
      modifies this`addedSurfaces, this`removedSurfaces
      ensures Pending() == Route(old(Pending()), s, CheckSurfaceLayout(surface, layoutMask, hidden))
      ensures Valid()
    {
      if CheckSurfaceLayout(surface, layoutMask, hidden) {
        AddPendingSurface(s);
      } else {
        RemovePendingSurface(s);
      }
    }

    /**
     * The `layoutMask(value)` setter: store the mask, then re-route every
     * watched surface, visited in `order` (the iteration order of
     * `_surfaceLayoutmaskChangedSlots`); `views` gives each surface's layouts.
     */
    method SetLayoutMask(value: Layout, order: seq<SurfaceId>, views: SurfaceId -> SurfaceLayout)
      requires Distinct(order) && forall s :: s in order <==> s in watchedSurfaces
      requires Valid()
      modifies this`layoutMask, this`addedSurfaces, this`removedSurfaces
      ensures layoutMask == value
      ensures Pending() == RouteAll(old(Pending()), order, VisibleUnder(views, value, hidden))
      ensures Valid()
    {
      layoutMask := value;
      var i := 0;
      while i < |order|
        invariant 0 <= i <= |order| && layoutMask == value
        invariant Pending() == RouteAll(old(Pending()), order[..i], VisibleUnder(views, value, hidden))
        invariant Valid()
      {
        assert order[..i + 1][..i] == order[..i];
        SurfaceLayoutMaskInvalidated(order[i], views(order[i]));
        i := i + 1;
      }
      assert order[..|order|] == order;
    }

    /** `watchSurface`. */
    method WatchSurface(s: SurfaceId)
      modifies this`watchedSurfaces
      ensures watchedSurfaces == old(watchedSurfaces) + {s}
    {
      watchedSurfaces := watchedSurfaces + {s};
    }

    /** `unwatchSurface`. */
    method UnwatchSurface(s: SurfaceId)
      modifies this`watchedSurfaces
      ensures watchedSurfaces == old(watchedSurfaces) - {s}
    {
      watchedSurfaces := watchedSurfaces - {s};
    }

    /** `masterLodSchedulerSet`. */
    method MasterLodSchedulerSet(master: Option<MasterId>)
      modifies this`masterLodScheduler
      ensures masterLodScheduler == master
    {
      if masterLodScheduler != master {
        masterLodScheduler := master;
      }
    }

    /** `collectSurfaces`: drain removals, then additions if a master is bound. */
    method CollectSurfaces()
      requires Valid()
      modifies this`addedSurfaces, this`removedSurfaces, this`events
      ensures Pending() == Drained(old(Pending()), masterLodScheduler.Some?)
      ensures events == old(events) + DrainEvents(old(Pending()), masterLodScheduler.Some?)
      ensures Valid()
    {
      ghost var removed0, added0 := removedSurfaces, addedSurfaces;
      ghost var n := 0;
      while removedSurfaces != []
        invariant 0 <= n <= |removed0| && removedSurfaces == removed0[n..]
        invariant addedSurfaces == added0
        invariant events == old(events) + RemovedEvents(removed0[..n])
        decreases |removedSurfaces|
      {
        var s := removedSurfaces[0];
        removedSurfaces := removedSurfaces[1..];
        events := events + [OnSurfaceRemoved(s)];
        assert removed0[..n + 1][..n] == removed0[..n];
        n := n + 1;
      }
      assert removed0[..n] == removed0;
      ghost var e1 := events;
      if masterLodScheduler != None {
        ghost var m := 0;
        while addedSurfaces != []
          invariant 0 <= m <= |added0| && addedSurfaces == added0[m..] && removedSurfaces == []
          invariant events == e1 + AddedEvents(added0[..m])
          decreases |addedSurfaces|
        {
          var s := addedSurfaces[0];
          addedSurfaces := addedSurfaces[1..];
          events := events + [OnSurfaceAdded(s)];
          assert added0[..m + 1][..m] == added0[..m];
          m := m + 1;
        }
        assert added0[..m] == added0;
      }
      DrainedValid(old(Pending()), masterLodScheduler.Some?);
    }

    /** The default `lodInfoChanged`: record the hook call and write back the changed fields. */
    method LodInfoChanged(uuid: Uuid, previous: LodInfo, next: LodInfo)
      modifies this`events
      ensures events == old(events) + [OnLodInfoChanged(uuid, previous, next)] + WriteBack(uuid, previous, next)
    {
      events := events + [OnLodInfoChanged(uuid, previous, next)];
      if previous.requiredLod != next.requiredLod {
        events := events + [StoreRequiredLod(uuid, next.requiredLod)];
      }
      if previous.priority != next.priority {
        events := events + [StorePriority(uuid, next.priority)];
      }
    }

    /**
     * `updated(time)`: drain the queues, then refresh every dirty entry,
     * visiting the registry in `order`.
     */
    method Updated(time: Time, policy: Policy, order: seq<Uuid>)
      requires Enumerates(order, resources)
      requires Valid()
      modifies this`addedSurfaces, this`removedSurfaces, this`events, this`resources
      ensures Pending() == Drained(old(Pending()), masterLodScheduler.Some?)
      ensures resources == RefreshAll(old(resources), policy, time)
      ensures events == old(events) + DrainEvents(old(Pending()), masterLodScheduler.Some?)
                        + UpdateEvents(order, old(resources), policy, time)
      ensures Valid()
    {
      CollectSurfaces();
      RefreshResources(time, policy, order);
    }

    /** The loop of `updated` over the registry, visiting the keys in `order`. */
    method RefreshResources(time: Time, policy: Policy, order: seq<Uuid>)
      requires Enumerates(order, resources)
      modifies this`events, this`resources
      ensures resources == RefreshAll(old(resources), policy, time)
      ensures events == old(events) + UpdateEvents(order, old(resources), policy, time)
    {
      ghost var r0 := resources;
      var i := 0;
      while i < |order|
        invariant 0 <= i <= |order|
        invariant resources == PartialRefresh(r0, order[..i], policy, time)
        invariant events == old(events) + UpdateEvents(order[..i], r0, policy, time)
      {
        PartialRefreshStep(r0, order, i, policy, time);
        ghost var done, step := UpdateEvents(order[..i], r0, policy, time), RefreshEvents(order[i], r0[order[i]], policy, time);
        RefreshResource(order[i], policy, time);
        AppendAssoc(old(events), done, step);
        i := i + 1;
      }
      PartialRefreshDone(r0, order, policy, time);
    }

    /** One iteration of the loop in `updated`, on the entry registered under `uuid`. */
    method RefreshResource(uuid: Uuid, policy: Policy, time: Time)
      requires uuid in resources
      modifies this`resources, this`events
      ensures resources == old(resources)[uuid := Refreshed(uuid, old(resources)[uuid], policy, time)]
      ensures events == old(events) + RefreshEvents(uuid, old(resources)[uuid], policy, time)
    {
      var info := resources[uuid];
      if !info.lodRequirementIsInvalid {
        return;
      }
      info := info.(lodRequirementIsInvalid := false);
      resources := resources[uuid := info];
      var next := policy(uuid, info, time);
      if !(info.lodInfo == next) {
        var previous := info.lodInfo;
        resources := resources[uuid := info.(lodInfo := next)];
        LodInfoChanged(uuid, previous, next);
      }
    }

    /** `forceUpdate`: mark every entry dirty and run `updated` at the last frame time, enabled or not. */
    method ForceUpdate(policy: Policy, order: seq<Uuid>)
      requires Enumerates(order, resources)
      requires Valid()
      modifies this`addedSurfaces, this`removedSurfaces, this`events, this`resources
      ensures Pending() == Drained(old(Pending()), masterLodScheduler.Some?)
      ensures resources == RefreshAll(InvalidatedAll(old(resources)), policy, frameTime)
      ensures events == old(events) + DrainEvents(old(Pending()), masterLodScheduler.Some?)
                        + UpdateEvents(order, InvalidatedAll(old(resources)), policy, frameTime)
      ensures Valid()
    {
      InvalidateAllLodRequirements();
      Updated(frameTime, policy, order);
    }

    /** `frameBeginHandler`: record the time; run `updated` only when enabled. */
    method FrameBeginHandler(time: Time, policy: Policy, order: seq<Uuid>)
      requires Enumerates(order, resources)
      requires Valid()
      modifies this`frameTime, this`addedSurfaces, this`removedSurfaces, this`events, this`resources
      ensures frameTime == time
      ensures Pending() == if enabled then Drained(old(Pending()), masterLodScheduler.Some?) else old(Pending())
      ensures resources == if enabled then RefreshAll(old(resources), policy, time) else old(resources)
      ensures events == if enabled
                        then old(events) + DrainEvents(old(Pending()), masterLodScheduler.Some?)
                             + UpdateEvents(order, old(resources), policy, time)
                        else old(events)
      ensures Valid()
    {
      frameTime := time;
      if !enabled {
        return;
      }
      Updated(time, policy, order);
    }

    /**
     * The surface part of `nodeAddedHandler`: bind the master the resolver
     * returns for the node, then watch and enqueue for addition every surface
     * of the added subtree (`subtreeSurfaces`, in `NodeSet` order), with no
     * visibility check.
     */
    method NodeAddedHandler(resolvedMaster: Option<MasterId>, subtreeSurfaces: seq<SurfaceId>)
      requires Valid()
      modifies this`masterLodScheduler, this`watchedSurfaces, this`addedSurfaces, this`removedSurfaces
      ensures masterLodScheduler == resolvedMaster
      ensures watchedSurfaces == old(watchedSurfaces) + Elements(subtreeSurfaces)
      ensures Pending() == AddAll(old(Pending()), subtreeSurfaces)
      ensures Valid()
    {
      MasterLodSchedulerSet(resolvedMaster);
      var i := 0;
      while i < |subtreeSurfaces|
        invariant 0 <= i <= |subtreeSurfaces| && masterLodScheduler == resolvedMaster
        invariant watchedSurfaces == old(watchedSurfaces) + Elements(subtreeSurfaces[..i])
        invariant Pending() == AddAll(old(Pending()), subtreeSurfaces[..i])
        invariant Valid()
      {
        assert subtreeSurfaces[..i + 1][..i] == subtreeSurfaces[..i];
        WatchSurface(subtreeSurfaces[i]);
        AddPendingSurface(subtreeSurfaces[i]);
        i := i + 1;
      }
      assert subtreeSurfaces[..|subtreeSurfaces|] == subtreeSurfaces;
    }

    /**
     * The surface part of `nodeRemovedHandler`: bind the master the resolver
     * returns for the node, then unwatch and enqueue for removal the surfaces
     * of the removed node itself (`nodeSurfaces`), not those of its descendants.
     */
    method NodeRemovedHandler(resolvedMaster: Option<MasterId>, nodeSurfaces: seq<SurfaceId>)
      requires Valid()
      modifies this`masterLodScheduler, this`watchedSurfaces, this`addedSurfaces, this`removedSurfaces
      ensures masterLodScheduler == resolvedMaster
      ensures watchedSurfaces == old(watchedSurfaces) - Elements(nodeSurfaces)
      ensures Pending() == RemoveAll(old(Pending()), nodeSurfaces)
      ensures Valid()
    {
      MasterLodSchedulerSet(resolvedMaster);
      var i := 0;
      while i < |nodeSurfaces|
        invariant 0 <= i <= |nodeSurfaces| && masterLodScheduler == resolvedMaster
        invariant watchedSurfaces == old(watchedSurfaces) - Elements(nodeSurfaces[..i])
        invariant Pending() == RemoveAll(old(Pending()), nodeSurfaces[..i])
        invariant Valid()
      {
        assert nodeSurfaces[..i + 1][..i] == nodeSurfaces[..i];
        UnwatchSurface(nodeSurfaces[i]);
        RemovePendingSurface(nodeSurfaces[i]);
        i := i + 1;
      }
      assert nodeSurfaces[..|nodeSurfaces|] == nodeSurfaces;
    }

    /**
     * The master and surface parts of `componentAddedHandler`: a master
     * scheduler re-binds the master the resolver returns for the target; a
     * surface is watched and enqueued for addition only if it is visible.
     */
    method ComponentAddedHandler(component: Component, resolvedMaster: Option<MasterId>, surface: SurfaceLayout)
      requires Valid()
      modifies this`masterLodScheduler, this`watchedSurfaces, this`addedSurfaces, this`removedSurfaces
      ensures masterLodScheduler == if component.MasterLodSchedulerComponent? then resolvedMaster else old(masterLodScheduler)
      ensures watchedSurfaces == if component.SurfaceComponent? then old(watchedSurfaces) + {component.surface} else old(watchedSurfaces)
      ensures Pending() == if component.SurfaceComponent? && CheckSurfaceLayout(surface, layoutMask, hidden)
                           then AddPending(old(Pending()), component.surface)
                           else old(Pending())
      ensures Valid()
    {
      if component.MasterLodSchedulerComponent? {
        MasterLodSchedulerSet(resolvedMaster);
      }
      if component.SurfaceComponent? {
        WatchSurface(component.surface);
        if CheckSurfaceLayout(surface, layoutMask, hidden) {
          AddPendingSurface(component.surface);
        }
      }
    }

    /**
     * The master and surface parts of `componentRemovedHandler`: a master
     * scheduler re-binds the master the resolver returns for no node; a
     * surface is unwatched and enqueued for removal.
     */
    method ComponentRemovedHandler(component: Component, resolvedMaster: Option<MasterId>)
      requires Valid()
      modifies this`masterLodScheduler, this`watchedSurfaces, this`addedSurfaces, this`removedSurfaces
      ensures masterLodScheduler == if component.MasterLodSchedulerComponent? then resolvedMaster else old(masterLodScheduler)
      ensures watchedSurfaces == if component.SurfaceComponent? then old(watchedSurfaces) - {component.surface} else old(watchedSurfaces)
      ensures Pending() == if component.SurfaceComponent?
                           then RemovePending(old(Pending()), component.surface)
                           else old(Pending())
      ensures Valid()
    {
      if component.MasterLodSchedulerComponent? {
        MasterLodSchedulerSet(resolvedMaster);
      }
      if component.SurfaceComponent? {
        UnwatchSurface(component.surface);
        RemovePendingSurface(component.surface);
      }
    }
  }

  lemma AppendAssoc(a: seq<Event>, b: seq<Event>, c: seq<Event>)
    ensures a + b + c == a + (b + c)
  {
  }

  /** In a list without duplicates no element occurs before its own position. */
  lemma DistinctPrefix(order: seq<Uuid>, i: nat)
    requires Distinct(order) && i < |order|
    ensures order[i] !in order[..i]
  {
    assert order == order[..i] + order[i..];
    assert order[i..] == [order[i]] + order[i + 1..];
    assert multiset(order)[order[i]] == multiset(order[..i])[order[i]] + 1 + multiset(order[i + 1..])[order[i]];
  }

  /** The surfaces listed in `ss`. */
  function Elements(ss: seq<SurfaceId>): set<SurfaceId>
  {
    if ss == [] then {} else Elements(ss[..|ss| - 1]) + {ss[|ss| - 1]}
  }

  /** `Elements` holds exactly the listed surfaces. */
  lemma {:induction false} ElementsSpec(ss: seq<SurfaceId>)
    ensures forall s :: s in Elements(ss) <==> s in ss
  {
    if ss != [] {
      assert ss == ss[..|ss| - 1] + [ss[|ss| - 1]];
      ElementsSpec(ss[..|ss| - 1]);
    }
  }

  /** `std::find` over a pending queue: the index of the first `s`, or `|q|` (the end iterator). */
  method Find(q: seq<SurfaceId>, s: SurfaceId) returns (i: nat)
    ensures i <= |q|
    ensures i < |q| ==> q[i] == s
    ensures forall j :: 0 <= j < i ==> q[j] != s
  {
    i := 0;
    while i < |q| && q[i] != s
      invariant i <= |q|
      invariant forall j :: 0 <= j < i ==> q[j] != s
    {
      i := i + 1;
    }
  }

  /** Erasing at the index `std::find` returned is `EraseFirst`. */
  lemma {:induction false} EraseAtFirst(q: seq<SurfaceId>, s: SurfaceId, i: nat)
    requires i < |q| && q[i] == s
    requires forall j :: 0 <= j < i ==> q[j] != s
    ensures q[..i] + q[i + 1..] == EraseFirst(q, s)
  {
    if i > 0 {
      EraseAtFirst(q[1..], s, i - 1);
      assert q[1..][..i - 1] == q[1..i];
      assert q[..i] == [q[0]] + q[1..i];
      assert q[1..][i..] == q[i + 1..];
    }
  }
}
