/** The stacking layout: each visible toast sits above the measured heights of the
    active toasts shown after it (`calcOffsets`), and heights are re-measured from
    the mounted elements, with recomputation only when one changed (`checkHeights`). */
module StackLayout {
  import opened ToastList

  /** Element heights by toast id, as measured from the page. */
  type Heights = map<nat, nat>

  /** JavaScript's `if (height)`: the height is known and not zero. */
  predicate Measured(h: Heights, id: nat) { id in h && h[id] > 0 }

  /** What a toast adds to the stack: its height if it is active and measured. */
  function StackHeight(h: Heights, t: Toast): nat {
    if !t.isHiding && Measured(h, t.id) then h[t.id] else 0
  }

  /** The height of the stack a list of toasts builds. */
  function Stacked(s: seq<Toast>, h: Heights): nat {
    if s == [] then 0 else StackHeight(h, s[0]) + Stacked(s[1..], h)
  }

  lemma {:induction false} StackedAppend(a: seq<Toast>, b: seq<Toast>, h: Heights)
    ensures Stacked(a + b, h) == Stacked(a, h) + Stacked(b, h)
  {
    if a == [] {
      assert a + b == b;
    } else {
      assert (a + b)[1..] == a[1..] + b;
      StackedAppend(a[1..], b, h);
    }
  }

  /** `s[k]` is the first toast of `s[lo..]` that carries its id. */
  ghost predicate FirstFrom(s: seq<Toast>, lo: nat, k: nat)
    requires k < |s|
  {
    forall j :: lo <= j < k ==> s[j].id != s[k].id
  }

  /** The offset `calcOffsets` records for the toast at index `k`: a hiding toast keeps
      its previous offset (none if it had none); an active measured toast sits on the
      stack of the later toasts; an active unmeasured one gets 0. */
  ghost predicate OffsetFits(s: seq<Toast>, h: Heights, prev: map<nat, nat>, r: map<nat, nat>, k: nat)
    requires k < |s|
  {
    var t := s[k];
    if t.isHiding then
      (t.id in r <==> t.id in prev) && (t.id in prev ==> r[t.id] == prev[t.id])
    else
      t.id in r && r[t.id] == (if Measured(h, t.id) then Stacked(s[k + 1..], h) else 0)
  }

  /** The loop of `calcOffsets`, newest toast first. Where an id repeats, the write for
      its oldest toast is the one that stays, as in the JavaScript object
      `newBottomOffsets`. */
  method ComputeOffsets(s: seq<Toast>, h: Heights, prev: map<nat, nat>) returns (r: map<nat, nat>)
    ensures forall k :: 0 <= k < |s| && FirstFrom(s, 0, k) ==> OffsetFits(s, h, prev, r, k)
    ensures forall id :: id in r ==> id in Ids(s)
  {
    r := map[];
    var total: nat := 0;
    var i := |s|;
    while i > 0
      invariant 0 <= i <= |s|
      invariant total == Stacked(s[i..], h)
      invariant forall k :: i <= k < |s| && FirstFrom(s, i, k) ==> OffsetFits(s, h, prev, r, k)
      invariant forall id :: id in r ==> id in Ids(s)
    {
      i := i - 1;
      var t := s[i];
      var before := r;
      assert s[i..][1..] == s[i + 1..];
      if t.isHiding {
        if t.id in prev {
          r := r[t.id := prev[t.id]];
        } else {
          r := r - {t.id};
        }
      } else {
        var offset := 0;
        if t.id in h && h[t.id] > 0 {
          offset := total;
          total := total + h[t.id];
        }
        r := r[t.id := offset];
      }
      assert t in s;
      forall k | i < k < |s| && FirstFrom(s, i, k) ensures OffsetFits(s, h, prev, r, k) {
        assert s[k].id != t.id;
        assert FirstFrom(s, i + 1, k);
        assert OffsetFits(s, h, prev, before, k);
      }
    }
  }

  /** The stack below a toast only grows with the number of toasts beneath it. */
  lemma StackedMonotone(s: seq<Toast>, h: Heights, i: nat, j: nat)
    requires i <= j <= |s|
    ensures Stacked(s[j..], h) <= Stacked(s[i..], h)
  {
    assert s[i..] == s[i..j] + s[j..];
    StackedAppend(s[i..j], s[j..], h);
  }

  /** Stacked toasts do not overlap: an older active measured toast sits at least the
      height of a newer one above that newer toast's offset. */
  lemma StackNoOverlap(s: seq<Toast>, h: Heights, k1: nat, k2: nat)
    requires k1 < k2 < |s|
    requires !s[k2].isHiding && Measured(h, s[k2].id)
    ensures Stacked(s[k1 + 1..], h) >= Stacked(s[k2 + 1..], h) + h[s[k2].id]
  {
    assert s[k2..][1..] == s[k2 + 1..];
    StackedMonotone(s, h, k1 + 1, k2);
  }

  /** On offsets that fit, between two active measured toasts: the older one sits at
      least the newer one's height above it, so they do not overlap and their offsets
      never decrease from newest to oldest. */
  lemma OffsetsNoOverlap(s: seq<Toast>, h: Heights, prev: map<nat, nat>, r: map<nat, nat>, k1: nat, k2: nat)
    requires k1 < k2 < |s|
    requires OffsetFits(s, h, prev, r, k1) && OffsetFits(s, h, prev, r, k2)
    requires !s[k1].isHiding && Measured(h, s[k1].id)
    requires !s[k2].isHiding && Measured(h, s[k2].id)
    ensures r[s[k1].id] >= r[s[k2].id] + h[s[k2].id]
  {
    StackNoOverlap(s, h, k1, k2);
  }

  // ---------------------------------------------------------------------------
  // checkHeights

  datatype Option<T> = None | Some(value: T)

  /** `currentToasts.find(toast => toast.id === id)`: the first toast with that id. */
  function FindById(s: seq<Toast>, id: nat): (r: Option<Toast>)
    ensures r.None? <==> id !in Ids(s)
    ensures r.Some? ==> r.value in s && r.value.id == id
  {
    if s == [] then None
    else if s[0].id == id then Some(s[0])
    else FindById(s[1..], id)
  }

  /** `find` returns the FIRST toast with the id: no earlier toast carries it. */
  lemma {:induction false} FindByIdFirst(s: seq<Toast>, id: nat)
    requires id in Ids(s)
    ensures exists k :: 0 <= k < |s| && s[k] == FindById(s, id).value && FirstFrom(s, 0, k)
  {
    if s[0].id == id {
      assert s[0] == FindById(s, id).value && FirstFrom(s, 0, 0);
    } else {
      var t :| t in s && t.id == id;
      assert t in s[1..];
      FindByIdFirst(s[1..], id);
      var k :| 0 <= k < |s[1..]| && s[1..][k] == FindById(s[1..], id).value && FirstFrom(s[1..], 0, k);
      assert s[k + 1] == FindById(s, id).value;
      assert FirstFrom(s, 0, k + 1);
    }
  }

  /** The height `checkHeights` records for a mounted toast: 0 while it is hiding,
      its measured height otherwise. */
  function RecordedHeight(s: seq<Toast>, id: nat, measured: nat): nat
    requires id in Ids(s)
  {
    if FindById(s, id).value.isHiding then 0 else measured
  }

  /** Some recorded height is new or differs from the stored one. */
  ghost predicate Changed(newHeights: Heights, stored: Heights) {
    exists id :: id in newHeights && (id !in stored || stored[id] != newHeights[id])
  }

  lemma ChangedUpdate(m: Heights, stored: Heights, id: nat, height: nat)
    requires id !in m
    ensures Changed(m[id := height], stored) <==> Changed(m, stored) || id !in stored || stored[id] != height
  {
    if Changed(m, stored) {
      var x :| x in m && (x !in stored || stored[x] != m[x]);
      assert x in m[id := height];
    }
    if id !in stored || stored[id] != height {
      assert id in m[id := height];
    }
  }

  /** The height map `checkHeights` builds from the mounted elements. */
  function RecordedHeights(s: seq<Toast>, mounted: Heights): Heights
    requires forall id :: id in mounted ==> id in Ids(s)
  {
    map id | id in mounted :: RecordedHeight(s, id, mounted[id])
  }

  /** A mounted ref belongs to a listed toast, so its id has been issued. */
  lemma MountedIssued(s: seq<Toast>, lastId: nat, mounted: Heights)
    requires IdsIssued(s, lastId)
    requires forall id :: id in mounted ==> id in Ids(s)
    ensures forall id :: id in mounted ==> 1 <= id <= lastId
  {
    forall id | id in mounted ensures 1 <= id <= lastId {
      var t :| t in s && t.id == id;
    }
  }

  /** The loop of `checkHeights` over the refs created so far (ids 1..lastId, in key
      order); `mounted` holds the height of each ref whose element is on the page. */
  method MeasureHeights(s: seq<Toast>, lastId: nat, mounted: Heights, stored: Heights)
    returns (newHeights: Heights, updated: bool)
    requires forall id :: id in mounted ==> 1 <= id <= lastId && id in Ids(s)
    ensures newHeights.Keys == mounted.Keys
    ensures forall id :: id in newHeights ==> newHeights[id] == RecordedHeight(s, id, mounted[id])
    ensures updated <==> Changed(newHeights, stored)
  {
    newHeights := map[];
    updated := false;
    var id := 1;
    while id <= lastId
      invariant 1 <= id <= lastId + 1
      invariant newHeights.Keys == set x | x in mounted && x < id
      invariant forall x :: x in newHeights ==> newHeights[x] == RecordedHeight(s, x, mounted[x])
      invariant updated <==> Changed(newHeights, stored)
    {
      if id in mounted {
        var toast := FindById(s, id).value;
        var height := if toast.isHiding then 0 else mounted[id];
        var before := newHeights;
        newHeights := newHeights[id := height];
        if id !in stored || stored[id] != height {
          updated := true;
        }
        ChangedUpdate(before, stored, id, height);
      }
      id := id + 1;
    }
  }

  /** The loop's result is the recorded height map. */
  lemma MeasuredIsRecorded(s: seq<Toast>, mounted: Heights, newHeights: Heights)
    requires forall id :: id in mounted ==> id in Ids(s)
    requires newHeights.Keys == mounted.Keys
    requires forall id :: id in newHeights ==> newHeights[id] == RecordedHeight(s, id, mounted[id])
    ensures newHeights == RecordedHeights(s, mounted)
  {
  }

  /** With unique ids, a hiding toast's recorded height is 0. */
  lemma HidingRecordedZero(s: seq<Toast>, k: nat, measured: nat)
    requires IdsIncreasing(s) && k < |s| && s[k].isHiding
    ensures s[k].id in Ids(s) && RecordedHeight(s, s[k].id, measured) == 0
  {
    assert s[k] in s;
    var t := FindById(s, s[k].id).value;
    var j :| 0 <= j < |s| && s[j] == t;
    assert j == k;
  }

  /** Heights that agree with the stored ones on every measured id trigger no recomputation. */
  lemma UnchangedHeights(newHeights: Heights, stored: Heights)
    requires forall id :: id in newHeights ==> id in stored && stored[id] == newHeights[id]
    ensures !Changed(newHeights, stored)
  {
  }
}
