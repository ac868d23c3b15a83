/** The `ToastsManager` component's state machine: the visible list, the overflow
    queue, the id counter, the layout maps, the hover flag and the armed timers.
    `setState` is an assignment; each timer's expiry is an event method. */
module Manager {
  import opened ToastList
  import opened StackLayout

  /** What `startToastsHiding` is given: one id (close button, per-toast timer) or a
      set of ids (the leave timer). */
  datatype HideTarget = One(id: nat) | Many(ids: set<nat>)

  /** A single id is treated as the set holding only it. */
  function AsIdSet(target: HideTarget): set<nat> {
    match target
    case One(id) => {id}
    case Many(ids) => ids
  }

  /** The per-toast hide timers armed for the toasts numbered `lastId + 1 .. lastId + n`. */
  function HideTimersFor(lastId: nat, n: nat): (r: seq<set<nat>>)
    ensures |r| == n
  {
    seq(n, k requires 0 <= k < n => {lastId + 1 + k})
  }

  lemma HideTimersStep(hides: seq<set<nat>>, lastId: nat, m: nat)
    ensures hides + HideTimersFor(lastId, m + 1) == hides + [{lastId + 1}] + HideTimersFor(lastId + 1, m)
  {
    assert HideTimersFor(lastId, m + 1) == [{lastId + 1}] + HideTimersFor(lastId + 1, m);
  }

  /** Every id an armed timer names has been issued. */
  ghost predicate TimersIssued(timers: seq<set<nat>>, lastId: nat) {
    forall k, x :: 0 <= k < |timers| && x in timers[k] ==> x <= lastId
  }

  /** Hide before remove: a toast named by a pending removal timer is hiding. */
  ghost predicate RemovalsHiding(toasts: seq<Toast>, timers: seq<set<nat>>) {
    forall k, t :: 0 <= k < |timers| && t in toasts && t.id in timers[k] ==> t.isHiding
  }

  /** Every active toast is named by some armed hide timer. */
  ghost predicate Covered(toasts: seq<Toast>, timers: seq<set<nat>>) {
    forall t :: t in toasts && !t.isHiding ==> exists k :: 0 <= k < |timers| && t.id in timers[k]
  }

  /** The timer list with the one at index `k` gone (it fired). */
  function Without<T>(s: seq<T>, k: nat): (r: seq<T>)
    requires k < |s|
    ensures |r| == |s| - 1
    ensures forall j :: 0 <= j < |r| ==> r[j] == if j < k then s[j] else s[j + 1]
  {
    s[..k] + s[k + 1..]
  }

  /** The invariant of the manager's state, over its fields' values. */
  ghost predicate ConsistentState(toasts: seq<Toast>, lastId: nat, hides: seq<set<nat>>,
                                  removals: seq<set<nat>>, hovered: bool)
  {
    && ActiveCount(toasts) <= LIMIT
    && IdsIncreasing(toasts) && IdsIssued(toasts, lastId)
    && TimersIssued(hides, lastId) && TimersIssued(removals, lastId)
    && RemovalsHiding(toasts, removals)
    && (!hovered ==> Covered(toasts, hides))
  }

  // ---------------------------------------------------------------------------
  // One small lemma per step and per part of the invariant

  /** Where a toast of a marked list comes from. */
  lemma MarkedOrigin(s: seq<Toast>, ids: set<nat>, t: Toast) returns (u: Toast)
    requires t in MarkHiding(s, ids)
    ensures u in s && u.id == t.id && (t.isHiding <==> u.isHiding || u.id in ids)
  {
    var r := MarkHiding(s, ids);
    var i :| 0 <= i < |r| && r[i] == t;
    u := s[i];
  }

  lemma TimersIssuedAppend(timers: seq<set<nat>>, extra: seq<set<nat>>, lastId: nat, newLastId: nat)
    requires TimersIssued(timers, lastId) && TimersIssued(extra, newLastId) && lastId <= newLastId
    ensures TimersIssued(timers + extra, newLastId)
  {
    var all := timers + extra;
    forall k, x | 0 <= k < |all| && x in all[k] ensures x <= newLastId {
      if k < |timers| {
        assert all[k] == timers[k];
      } else {
        assert all[k] == extra[k - |timers|];
      }
    }
  }

  lemma TimersIssuedWithout(timers: seq<set<nat>>, lastId: nat, k: nat)
    requires TimersIssued(timers, lastId) && k < |timers|
    ensures TimersIssued(Without(timers, k), lastId)
  {
  }

  lemma RemovalsHidingShow(toasts: seq<Toast>, timers: seq<set<nat>>, lastId: nat, shown: seq<Toast>)
    requires RemovalsHiding(toasts, timers) && TimersIssued(timers, lastId)
    requires forall t :: t in shown ==> t.id > lastId
    ensures RemovalsHiding(toasts + shown, timers)
  {
    forall k, t | 0 <= k < |timers| && t in toasts + shown && t.id in timers[k] ensures t.isHiding {
      assert t in toasts || t in shown;
    }
  }

  lemma RemovalsHidingMark(toasts: seq<Toast>, ids: set<nat>, timers: seq<set<nat>>)
    requires RemovalsHiding(toasts, timers)
    ensures RemovalsHiding(MarkHiding(toasts, ids), timers)
  {
    forall k, t | 0 <= k < |timers| && t in MarkHiding(toasts, ids) && t.id in timers[k]
      ensures t.isHiding
    {
      var u := MarkedOrigin(toasts, ids, t);
    }
  }

  lemma RemovalsHidingArm(toasts: seq<Toast>, timers: seq<set<nat>>, ids: set<nat>)
    requires RemovalsHiding(toasts, timers)
    requires forall t :: t in toasts && t.id in ids ==> t.isHiding
    ensures RemovalsHiding(toasts, timers + [ids])
  {
    var all := timers + [ids];
    forall k, t | 0 <= k < |all| && t in toasts && t.id in all[k] ensures t.isHiding {
      if k < |timers| {
        assert all[k] == timers[k];
      }
    }
  }

  lemma RemovalsHidingRemove(toasts: seq<Toast>, timers: seq<set<nat>>, k: nat)
    requires RemovalsHiding(toasts, timers) && k < |timers|
    ensures RemovalsHiding(RemoveIds(toasts, timers[k]), Without(timers, k))
  {
  }

  lemma CoveredShow(toasts: seq<Toast>, hides: seq<set<nat>>, t: Toast)
    requires Covered(toasts, hides)
    ensures Covered(toasts + [t], hides + [{t.id}])
  {
    var all := hides + [{t.id}];
    forall u | u in toasts + [t] && !u.isHiding
      ensures exists k :: 0 <= k < |all| && u.id in all[k]
    {
      if u == t {
        assert u.id in all[|hides|];
      } else {
        assert u in toasts;
        var k :| 0 <= k < |hides| && u.id in hides[k];
        assert all[k] == hides[k];
      }
    }
  }

  lemma CoveredMark(toasts: seq<Toast>, ids: set<nat>, hides: seq<set<nat>>)
    requires Covered(toasts, hides)
    ensures Covered(MarkHiding(toasts, ids), hides)
  {
    forall t | t in MarkHiding(toasts, ids) && !t.isHiding
      ensures exists k :: 0 <= k < |hides| && t.id in hides[k]
    {
      var u := MarkedOrigin(toasts, ids, t);
    }
  }

  lemma CoveredWithout(toasts: seq<Toast>, hides: seq<set<nat>>, k: nat)
    requires k < |hides| && Covered(toasts, hides)
    requires forall t :: t in toasts && t.id in hides[k] ==> t.isHiding
    ensures Covered(toasts, Without(hides, k))
  {
    var rest := Without(hides, k);
    forall t | t in toasts && !t.isHiding
      ensures exists j :: 0 <= j < |rest| && t.id in rest[j]
    {
      var j :| 0 <= j < |hides| && t.id in hides[j];
      if j < k {
        assert rest[j] == hides[j];
      } else {
        assert rest[j - 1] == hides[j];
      }
    }
  }

  lemma CoveredRemove(toasts: seq<Toast>, ids: set<nat>, hides: seq<set<nat>>)
    requires Covered(toasts, hides)
    ensures Covered(RemoveIds(toasts, ids), hides)
  {
  }

  /** Showing a toast under the cap keeps the invariant. */
  lemma ShowKeepsConsistent(toasts: seq<Toast>, lastId: nat, hides: seq<set<nat>>,
                            removals: seq<set<nat>>, hovered: bool, p: ToastParams)
    requires ConsistentState(toasts, lastId, hides, removals, hovered)
    requires ActiveCount(toasts) < LIMIT
    ensures ConsistentState(toasts + [Fresh(p, lastId)], lastId + 1,
                            hides + (if hovered then [] else [{lastId + 1}]), removals, hovered)
  {
    var toast := Fresh(p, lastId);
    ActiveCountAppend(toasts, [toast]);
    assert Shown([p], 1, lastId) == [toast];
    DrainFreshIds(toasts, [p], 1, lastId);
    var extra: seq<set<nat>> := if hovered then [] else [{lastId + 1}];
    TimersIssuedAppend(hides, extra, lastId, lastId + 1);
    TimersIssuedAppend(removals, [], lastId, lastId + 1);
    assert removals + [] == removals;
    RemovalsHidingShow(toasts, removals, lastId, [toast]);
    if !hovered {
      CoveredShow(toasts, hides, toast);
    }
  }

  /** Marking toasts as hiding keeps the invariant. */
  lemma MarkKeepsConsistent(toasts: seq<Toast>, lastId: nat, hides: seq<set<nat>>,
                            removals: seq<set<nat>>, hovered: bool, ids: set<nat>)
    requires ConsistentState(toasts, lastId, hides, removals, hovered)
    ensures ConsistentState(MarkHiding(toasts, ids), lastId, hides, removals, hovered)
  {
    var marked := MarkHiding(toasts, ids);
    MarkHidingActive(toasts, ids);
    forall t | t in marked ensures 1 <= t.id <= lastId {
      var u := MarkedOrigin(toasts, ids, t);
    }
    RemovalsHidingMark(toasts, ids, removals);
    if !hovered {
      CoveredMark(toasts, ids, hides);
    }
  }

  /** Arming the removal timer for toasts that are hiding keeps the invariant, when the
      toasts shown since carry ids above those it names. */
  lemma ArmRemovalKeepsConsistent(marked: seq<Toast>, shown: seq<Toast>, l0: nat, lastId: nat,
                                  hides: seq<set<nat>>, removals: seq<set<nat>>, hovered: bool, ids: set<nat>)
    requires ConsistentState(marked + shown, lastId, hides, removals, hovered)
    requires forall t :: t in marked && t.id in ids ==> t.isHiding
    requires forall t :: t in shown ==> t.id > l0
    requires l0 <= lastId && forall x :: x in ids ==> x <= l0
    ensures ConsistentState(marked + shown, lastId, hides, removals + [ids], hovered)
  {
    forall t | t in marked + shown && t.id in ids ensures t.isHiding {
      assert t in marked || t in shown;
    }
    RemovalsHidingArm(marked + shown, removals, ids);
    TimersIssuedAppend(removals, [ids], lastId, lastId);
  }

  /** A fired hide timer whose toasts are all hiding can be dropped. */
  lemma DropHideKeepsConsistent(toasts: seq<Toast>, lastId: nat, hides: seq<set<nat>>,
                                removals: seq<set<nat>>, hovered: bool, k: nat)
    requires ConsistentState(toasts, lastId, hides, removals, hovered)
    requires k < |hides|
    requires forall t :: t in toasts && t.id in hides[k] ==> t.isHiding
    ensures ConsistentState(toasts, lastId, Without(hides, k), removals, hovered)
  {
    TimersIssuedWithout(hides, lastId, k);
    if !hovered {
      CoveredWithout(toasts, hides, k);
    }
  }

  /** A fired removal timer takes out only hiding toasts: the invariant and the active
      count are kept. */
  lemma RemoveFiredKeepsConsistent(toasts: seq<Toast>, lastId: nat, hides: seq<set<nat>>,
                                   removals: seq<set<nat>>, hovered: bool, k: nat)
    requires ConsistentState(toasts, lastId, hides, removals, hovered)
    requires k < |removals|
    ensures ActiveCount(RemoveIds(toasts, removals[k])) == ActiveCount(toasts)
    ensures ConsistentState(RemoveIds(toasts, removals[k]), lastId, hides, Without(removals, k), hovered)
  {
    var ids := removals[k];
    RemoveHidingKeepsActive(toasts, ids);
    RemoveIdsIncreasing(toasts, ids);
    TimersIssuedWithout(removals, lastId, k);
    RemovalsHidingRemove(toasts, removals, k);
    if !hovered {
      CoveredRemove(toasts, ids, hides);
    }
  }

  class ToastsManager {
    var lastId: nat
    var currentToasts: seq<Toast>
    var delayedQueue: seq<ToastParams>
    var heights: Heights
    var bottomOffsets: map<nat, nat>
    var isHovered: bool
    /** The id sets of the hide timers that are armed and neither cleared nor fired. */
    var pendingHides: seq<set<nat>>
    /** The id sets of the removal timers that have not fired. */
    var pendingRemovals: seq<set<nat>>

    /** What holds between and inside the operations. */
    ghost predicate Consistent()
      reads this
    {
      ConsistentState(currentToasts, lastId, pendingHides, pendingRemovals, isHovered)
    }

    /** Between operations, moreover, toasts wait in the queue only while the list is full. */
    ghost predicate Valid()
      reads this
    {
      Consistent() && (delayedQueue != [] ==> ActiveCount(currentToasts) == LIMIT)
    }

    constructor ()
      ensures Valid()
      ensures lastId == 0 && currentToasts == [] && delayedQueue == []
      ensures heights == map[] && bottomOffsets == map[] && !isHovered
      ensures pendingHides == [] && pendingRemovals == []
    {
      lastId := 0;
      currentToasts := [];
      delayedQueue := [];
      heights := map[];
      bottomOffsets := map[];
      isHovered := false;
      pendingHides := [];
      pendingRemovals := [];
    }

    /** `startToastHideTimeout`: arms the per-toast hide timer. */
    method StartToastHideTimeout(id: nat)
      modifies this`pendingHides
      ensures pendingHides == old(pendingHides) + [{id}]
    {
      pendingHides := pendingHides + [{id}];
    }

    /** `showToast`: the next id, a hide timer unless hovered, the toast appended. */
    method ShowToast(p: ToastParams)
      modifies this`lastId, this`currentToasts, this`pendingHides
      ensures lastId == old(lastId) + 1
      ensures currentToasts == old(currentToasts) + [Fresh(p, old(lastId))]
      ensures pendingHides == old(pendingHides) + (if isHovered then [] else [{lastId}])
      ensures old(Consistent()) && old(ActiveCount(currentToasts)) < LIMIT ==> Consistent()
    {
      ghost var wasConsistent := Consistent();
      ghost var wasUnderCap := ActiveCount(currentToasts) < LIMIT;
      if wasConsistent && wasUnderCap {
        ShowKeepsConsistent(currentToasts, lastId, pendingHides, pendingRemovals, isHovered, p);
      }
      var toast := Fresh(p, lastId);
      lastId := lastId + 1;
      if !isHovered {
        StartToastHideTimeout(toast.id);
      }
      currentToasts := currentToasts + [toast];
    }

    /** `checkDelayedQueue`: while something is queued and the active count is under
        the cap, the head of the queue is shown and the queue is checked again. */
    method CheckDelayedQueue()
      modifies this`lastId, this`currentToasts, this`delayedQueue, this`pendingHides
      decreases |delayedQueue|
      ensures var n := DrainCount(old(currentToasts), old(delayedQueue));
        && currentToasts == old(currentToasts) + Shown(old(delayedQueue), n, old(lastId))
        && delayedQueue == old(delayedQueue)[n..]
        && lastId == old(lastId) + n
        && pendingHides == old(pendingHides) + (if isHovered then [] else HideTimersFor(old(lastId), n))
      ensures old(Consistent()) ==> Valid()
    {
      if delayedQueue != [] && ActiveCount(currentToasts) < LIMIT {
        var m := DrainCount(currentToasts + [Fresh(delayedQueue[0], lastId)], delayedQueue[1..]);
        DrainCountStep(currentToasts, delayedQueue, lastId);
        ShownAfterHead(currentToasts, delayedQueue, m, lastId);
        HideTimersStep(pendingHides, lastId, m);
        var firstToast := delayedQueue[0];
        delayedQueue := delayedQueue[1..];
        ShowToast(firstToast);
        CheckDelayedQueue();
      } else {
        assert DrainCount(currentToasts, delayedQueue) == 0;
      }
    }

    /** `startToastsHiding`: the named toasts start hiding, the queue is drained into
        the room this makes, and their removal timer is armed. */
    method StartToastsHiding(target: HideTarget)
      requires Valid()
      requires forall x :: x in AsIdSet(target) ==> x <= lastId
      modifies this`lastId, this`currentToasts, this`delayedQueue, this`pendingHides, this`pendingRemovals
      ensures Valid()
      ensures var ids := AsIdSet(target);
        var marked := MarkHiding(old(currentToasts), ids);
        var n := DrainCount(marked, old(delayedQueue));
        && currentToasts == marked + Shown(old(delayedQueue), n, old(lastId))
        && delayedQueue == old(delayedQueue)[n..]
        && lastId == old(lastId) + n
        && pendingHides == old(pendingHides) + (if isHovered then [] else HideTimersFor(old(lastId), n))
        && pendingRemovals == old(pendingRemovals) + [ids]
    {
      var ids := AsIdSet(target);
      MarkKeepsConsistent(currentToasts, lastId, pendingHides, pendingRemovals, isHovered, ids);
      currentToasts := MarkHiding(currentToasts, ids);
      ghost var marked := currentToasts;
      ghost var l0 := lastId;
      ghost var q := delayedQueue;
      ghost var n := DrainCount(marked, q);
      CheckDelayedQueue();
      MarkHidingNamed(old(currentToasts), ids);
      ShownIdsAbove(q, n, l0);
      ArmRemovalTimer(ids, marked, Shown(q, n, l0), l0);
    }

    /** Arms the removal timer for `ids` once the named toasts are hiding. */
    method ArmRemovalTimer(ids: set<nat>, ghost marked: seq<Toast>, ghost shown: seq<Toast>, ghost l0: nat)
      requires Valid() && currentToasts == marked + shown
      requires forall t :: t in marked && t.id in ids ==> t.isHiding
      requires forall t :: t in shown ==> t.id > l0
      requires l0 <= lastId && forall x :: x in ids ==> x <= l0
      modifies this`pendingRemovals
      ensures Valid() && pendingRemovals == old(pendingRemovals) + [ids]
    {
      ArmRemovalKeepsConsistent(marked, shown, l0, lastId, pendingHides, pendingRemovals, isHovered, ids);
      pendingRemovals := pendingRemovals + [ids];
    }

    /** `addToast`: queued when the active count has reached the cap, shown otherwise. */
    method AddToast(p: ToastParams)
      requires Valid()
      modifies this`lastId, this`currentToasts, this`delayedQueue, this`pendingHides
      ensures Valid()
      ensures old(ActiveCount(currentToasts)) >= LIMIT ==>
        && delayedQueue == old(delayedQueue) + [p]
        && currentToasts == old(currentToasts) && lastId == old(lastId) && pendingHides == old(pendingHides)
      ensures old(ActiveCount(currentToasts)) < LIMIT ==>
        && currentToasts == old(currentToasts) + [Fresh(p, old(lastId))]
        && lastId == old(lastId) + 1 && delayedQueue == old(delayedQueue)
        && pendingHides == old(pendingHides) + (if isHovered then [] else [{lastId}])
    {
      if ActiveCount(currentToasts) >= LIMIT {
        delayedQueue := delayedQueue + [p];
        return;
      }
      ShowToast(p);
      ActiveCountAppend(old(currentToasts), [Fresh(p, old(lastId))]);
    }

    /** `removeToasts`: the toasts with those ids leave the list. */
    method RemoveToasts(ids: set<nat>)
      modifies this`currentToasts
      ensures currentToasts == RemoveIds(old(currentToasts), ids)
      ensures old(Valid()) && (forall t :: t in old(currentToasts) && t.id in ids ==> t.isHiding) ==> Valid()
    {
      ghost var wasValid := Valid();
      ghost var before := currentToasts;
      currentToasts := RemoveIds(currentToasts, ids);
      if wasValid && forall t :: t in before && t.id in ids ==> t.isHiding {
        RemoveHidingKeepsActive(before, ids);
        RemoveIdsIncreasing(before, ids);
        forall k, t | 0 <= k < |pendingRemovals| && t in currentToasts && t.id in pendingRemovals[k]
          ensures t.isHiding
        {
        }
      }
    }

    /** `calcOffsets`: the new offsets of every toast, and the heights stored as given. */
    method CalcOffsets(h: Heights)
      requires Valid()
      modifies this`heights, this`bottomOffsets
      ensures Valid() && heights == h
      ensures forall k :: 0 <= k < |currentToasts| ==> OffsetFits(currentToasts, h, old(bottomOffsets), bottomOffsets, k)
      ensures forall id :: id in bottomOffsets ==> id in Ids(currentToasts)
    {
      bottomOffsets := ComputeOffsets(currentToasts, h, bottomOffsets);
      heights := h;
      forall k | 0 <= k < |currentToasts| ensures FirstFrom(currentToasts, 0, k) {
      }
    }

    /** `checkHeights`: re-measures the mounted toasts (a hiding one as 0) and recomputes
        the offsets only when some recorded height is new or changed. */
    method CheckHeights(mounted: Heights)
      requires Valid()
      requires forall id :: id in mounted ==> id in Ids(currentToasts)
      modifies this`heights, this`bottomOffsets
      ensures Valid()
      ensures var recorded := RecordedHeights(currentToasts, mounted);
        if Changed(recorded, old(heights)) then
          && heights == recorded
          && (forall k :: 0 <= k < |currentToasts| ==> OffsetFits(currentToasts, recorded, old(bottomOffsets), bottomOffsets, k))
          && (forall id :: id in bottomOffsets ==> id in Ids(currentToasts))
        else
          heights == old(heights) && bottomOffsets == old(bottomOffsets)
    {
      MountedIssued(currentToasts, lastId, mounted);
      var newHeights, updated := MeasureHeights(currentToasts, lastId, mounted, heights);
      MeasuredIsRecorded(currentToasts, mounted, newHeights);
      if updated {
        CalcOffsets(newHeights);
      }
    }

    /** `onMouseEnter`: hovering clears every armed hide timer. */
    method OnMouseEnter()
      requires Valid()
      modifies this`isHovered, this`pendingHides
      ensures Valid() && isHovered && pendingHides == []
    {
      isHovered := true;
      pendingHides := [];
    }

    /** `onLeave` (mouse leave or window blur): one hide timer for every toast listed now. */
    method OnLeave()
      requires Valid()
      modifies this`isHovered, this`pendingHides
      ensures Valid() && !isHovered
      ensures pendingHides == old(pendingHides) + (if currentToasts == [] then [] else [Ids(currentToasts)])
    {
      isHovered := false;
      if currentToasts == [] {
        return;
      }
      var hideIds := Ids(currentToasts);
      pendingHides := pendingHides + [hideIds];
      assert pendingHides[|pendingHides| - 1] == hideIds;
    }

    /** `onCloseClick`: the close button of a listed toast starts hiding that toast. */
    method OnCloseClick(id: nat)
      requires Valid() && id in Ids(currentToasts)
      modifies this`lastId, this`currentToasts, this`delayedQueue, this`pendingHides, this`pendingRemovals
      ensures Valid()
      ensures var marked := MarkHiding(old(currentToasts), {id});
        var n := DrainCount(marked, old(delayedQueue));
        && currentToasts == marked + Shown(old(delayedQueue), n, old(lastId))
        && delayedQueue == old(delayedQueue)[n..]
        && lastId == old(lastId) + n
        && pendingHides == old(pendingHides) + (if isHovered then [] else HideTimersFor(old(lastId), n))
        && pendingRemovals == old(pendingRemovals) + [{id}]
    {
      var t :| t in currentToasts && t.id == id;
      StartToastsHiding(One(id));
    }

    /** Expiry of the armed hide timer at index `k` (per-toast or leave timer). */
    method HideTimerFires(k: nat)
      requires Valid() && k < |pendingHides|
      modifies this`lastId, this`currentToasts, this`delayedQueue, this`pendingHides, this`pendingRemovals
      ensures Valid()
      ensures var ids := old(pendingHides)[k];
        var marked := MarkHiding(old(currentToasts), ids);
        var n := DrainCount(marked, old(delayedQueue));
        && currentToasts == marked + Shown(old(delayedQueue), n, old(lastId))
        && delayedQueue == old(delayedQueue)[n..]
        && lastId == old(lastId) + n
        && pendingHides == Without(old(pendingHides), k) + (if isHovered then [] else HideTimersFor(old(lastId), n))
        && pendingRemovals == old(pendingRemovals) + [ids]
    {
      var ids := pendingHides[k];
      StartToastsHiding(Many(ids));
      assert pendingRemovals[|pendingRemovals| - 1] == ids;
      DropHideKeepsConsistent(currentToasts, lastId, pendingHides, pendingRemovals, isHovered, k);
      ghost var armed := pendingHides;
      pendingHides := Without(pendingHides, k);
      assert Without(armed, k) == Without(old(pendingHides), k) + armed[|old(pendingHides)|..];
    }

    /** Expiry of the removal timer at index `k`: its toasts, all hiding, leave the list. */
    method RemovalTimerFires(k: nat)
      requires Valid() && k < |pendingRemovals|
      modifies this`currentToasts, this`pendingRemovals
      ensures Valid()
      ensures currentToasts == RemoveIds(old(currentToasts), old(pendingRemovals)[k])
      ensures ActiveCount(currentToasts) == old(ActiveCount(currentToasts))
      ensures pendingRemovals == Without(old(pendingRemovals), k)
    {
      var ids := pendingRemovals[k];
      RemoveFiredKeepsConsistent(currentToasts, lastId, pendingHides, pendingRemovals, isHovered, k);
      RemoveToasts(ids);
      pendingRemovals := Without(pendingRemovals, k);
    }
  }
}
