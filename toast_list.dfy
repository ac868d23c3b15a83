/** The list bookkeeping of the toasts manager, as values: the toast records,
    the cap on active toasts, marking toasts as hiding, filtering them out,
    and draining the overflow queue into the visible list. */
module ToastList {

  /** The `type` tag that `info`, `warn`, `error` and `show` put in a toast's params. */
  datatype Kind = Info | Warn | Error | Component

  /** What `addToast` receives; for `Component` the text stands for the renderer. */
  datatype ToastParams = ToastParams(kind: Kind, text: string)

  /** An entry of `currentToasts`; a toast without `isHiding` has it false. */
  datatype Toast = Toast(id: nat, kind: Kind, text: string, isHiding: bool)

  /** At most this many toasts are active (not hiding) at once. */
  const LIMIT: nat := 3

  function Min(a: nat, b: nat): nat { if a <= b then a else b }

  /** The params a toast was shown from. */
  function ParamsOf(t: Toast): ToastParams { ToastParams(t.kind, t.text) }

  function ParamsSeq(s: seq<Toast>): (r: seq<ToastParams>)
    ensures |r| == |s| && forall i :: 0 <= i < |s| ==> r[i] == ParamsOf(s[i])
  {
    seq(|s|, i requires 0 <= i < |s| => ParamsOf(s[i]))
  }

  /** The ids of the toasts of a list. */
  function Ids(s: seq<Toast>): set<nat> { set t | t in s :: t.id }

  /** Ids increase strictly along the list (oldest first); so no id repeats. */
  ghost predicate IdsIncreasing(s: seq<Toast>) {
    forall i, j :: 0 <= i < j < |s| ==> s[i].id < s[j].id
  }

  /** Every id of the list lies in 1..lastId. */
  ghost predicate IdsIssued(s: seq<Toast>, lastId: nat) {
    forall t :: t in s ==> 1 <= t.id <= lastId
  }

  // ---------------------------------------------------------------------------
  // getActiveToastsCount

  /** The number of toasts that are not hiding. */
  function ActiveCount(s: seq<Toast>): (n: nat)
    ensures n <= |s|
  {
    if s == [] then 0 else (if s[0].isHiding then 0 else 1) + ActiveCount(s[1..])
  }

  lemma {:induction false} ActiveCountAppend(a: seq<Toast>, b: seq<Toast>)
    ensures ActiveCount(a + b) == ActiveCount(a) + ActiveCount(b)
  {
    if a == [] {
      assert a + b == b;
    } else {
      assert (a + b)[1..] == a[1..] + b;
      ActiveCountAppend(a[1..], b);
    }
  }

  /** No toast is active exactly when every toast is hiding. */
  lemma {:induction false} ActiveCountZero(s: seq<Toast>)
    ensures ActiveCount(s) == 0 <==> forall i :: 0 <= i < |s| ==> s[i].isHiding
  {
    if s != [] {
      ActiveCountZero(s[1..]);
      assert forall i :: 1 <= i < |s| ==> s[i] == s[1..][i - 1];
    }
  }

  // ---------------------------------------------------------------------------
  // startToastsHiding: the list transformation

  /** `currentToasts.map(...)`: the toasts whose id is in `ids` get `isHiding = true`. */
  function MarkHiding(s: seq<Toast>, ids: set<nat>): (r: seq<Toast>)
    ensures |r| == |s|
    ensures forall i :: 0 <= i < |s| ==>
      && r[i].id == s[i].id && r[i].kind == s[i].kind && r[i].text == s[i].text
      && (r[i].isHiding <==> s[i].isHiding || s[i].id in ids)
  {
    if s == [] then []
    else [if s[0].id in ids then s[0].(isHiding := true) else s[0]] + MarkHiding(s[1..], ids)
  }

  /** Hiding never makes a toast active, so the active count can only drop. */
  lemma {:induction false} MarkHidingActive(s: seq<Toast>, ids: set<nat>)
    ensures ActiveCount(MarkHiding(s, ids)) <= ActiveCount(s)
  {
    if s != [] {
      MarkHidingActive(s[1..], ids);
      assert MarkHiding(s, ids)[1..] == MarkHiding(s[1..], ids);
    }
  }

  /** After marking, every toast whose id was named is hiding. */
  lemma MarkHidingNamed(s: seq<Toast>, ids: set<nat>)
    ensures forall t :: t in MarkHiding(s, ids) && t.id in ids ==> t.isHiding
  {
    var r := MarkHiding(s, ids);
    forall t | t in r && t.id in ids ensures t.isHiding {
      var i :| 0 <= i < |r| && r[i] == t;
    }
  }

  /** Hiding every toast of the list (as the leave timer does) leaves none active. */
  lemma MarkHidingAll(s: seq<Toast>)
    ensures ActiveCount(MarkHiding(s, Ids(s))) == 0
  {
    var r := MarkHiding(s, Ids(s));
    forall i | 0 <= i < |r| ensures r[i].isHiding {
      assert s[i] in s;
    }
    ActiveCountZero(r);
  }

  /** Marking the same ids twice is the same as marking them once. */
  lemma MarkHidingIdempotent(s: seq<Toast>, ids: set<nat>)
    ensures MarkHiding(MarkHiding(s, ids), ids) == MarkHiding(s, ids)
  {
  }

  // ---------------------------------------------------------------------------
  // removeToasts

  /** `currentToasts.filter(toast => !ids.has(toast.id))`. */
  function RemoveIds(s: seq<Toast>, ids: set<nat>): (r: seq<Toast>)
    ensures |r| <= |s|
    ensures forall t :: t in r <==> t in s && t.id !in ids
  {
    if s == [] then []
    else if s[0].id in ids then RemoveIds(s[1..], ids)
    else [s[0]] + RemoveIds(s[1..], ids)
  }

  /** Filtering distributes over concatenation: the kept toasts stay in their order. */
  lemma {:induction false} RemoveIdsAppend(a: seq<Toast>, b: seq<Toast>, ids: set<nat>)
    ensures RemoveIds(a + b, ids) == RemoveIds(a, ids) + RemoveIds(b, ids)
  {
    if a == [] {
      assert a + b == b;
    } else {
      assert (a + b)[1..] == a[1..] + b;
      RemoveIdsAppend(a[1..], b, ids);
    }
  }

  /** A list with no id in `ids` is returned unchanged. */
  lemma {:induction false} RemoveIdsNone(s: seq<Toast>, ids: set<nat>)
    requires forall t :: t in s ==> t.id !in ids
    ensures RemoveIds(s, ids) == s
  {
    if s != [] {
      assert forall t :: t in s[1..] ==> t in s;
      RemoveIdsNone(s[1..], ids);
    }
  }

  /** Removing toasts keeps the ids increasing along the list. */
  lemma {:induction false} RemoveIdsIncreasing(s: seq<Toast>, ids: set<nat>)
    requires IdsIncreasing(s)
    ensures IdsIncreasing(RemoveIds(s, ids))
  {
    if s != [] {
      RemoveIdsIncreasing(s[1..], ids);
      var rest := RemoveIds(s[1..], ids);
      forall t | t in rest ensures s[0].id < t.id {
        assert t in s[1..];
      }
    }
  }

  /** Hide-then-remove: removing toasts that are all hiding keeps the active count. */
  lemma {:induction false} RemoveHidingKeepsActive(s: seq<Toast>, ids: set<nat>)
    requires forall t :: t in s && t.id in ids ==> t.isHiding
    ensures ActiveCount(RemoveIds(s, ids)) == ActiveCount(s)
  {
    if s != [] {
      assert forall t :: t in s[1..] ==> t in s;
      RemoveHidingKeepsActive(s[1..], ids);
      if s[0].id !in ids {
        assert RemoveIds(s, ids)[1..] == RemoveIds(s[1..], ids);
      }
    }
  }

  // ---------------------------------------------------------------------------
  // showToast and checkDelayedQueue

  /** The toast `showToast` appends for `p` when the id counter stood at `lastId`. */
  function Fresh(p: ToastParams, lastId: nat): Toast {
    Toast(lastId + 1, p.kind, p.text, false)
  }

  /** The toasts shown for the first `n` queued params, numbered on from `lastId`. */
  function Shown(queue: seq<ToastParams>, n: nat, lastId: nat): (r: seq<Toast>)
    requires n <= |queue|
    ensures |r| == n
  {
    seq(n, k requires 0 <= k < n => Fresh(queue[k], lastId + k))
  }

  /** The shown toasts all carry ids above the counter they were numbered from. */
  lemma ShownIdsAbove(queue: seq<ToastParams>, n: nat, lastId: nat)
    requires n <= |queue|
    ensures forall t :: t in Shown(queue, n, lastId) ==> lastId < t.id <= lastId + n
  {
    forall t | t in Shown(queue, n, lastId) ensures lastId < t.id <= lastId + n {
      var k :| 0 <= k < n && Shown(queue, n, lastId)[k] == t;
    }
  }

  /** How many queued toasts the drain shows: as many as fit under the cap. */
  function DrainCount(toasts: seq<Toast>, queue: seq<ToastParams>): (n: nat)
    ensures n <= |queue|
  {
    if ActiveCount(toasts) >= LIMIT then 0 else Min(|queue|, LIMIT - ActiveCount(toasts))
  }

  /** The shown toasts are the head's toast followed by the rest, numbered on by one. */
  lemma ShownCons(queue: seq<ToastParams>, m: nat, lastId: nat)
    requires m < |queue|
    ensures Shown(queue, m + 1, lastId) == [Fresh(queue[0], lastId)] + Shown(queue[1..], m, lastId + 1)
  {
    var a := Shown(queue, m + 1, lastId);
    var b := [Fresh(queue[0], lastId)] + Shown(queue[1..], m, lastId + 1);
    forall k | 0 <= k < m + 1 ensures a[k] == b[k] {
      if k > 0 {
        assert b[k] == Shown(queue[1..], m, lastId + 1)[k - 1];
      }
    }
  }

  /** Showing the queue's head takes one from the number still to be drained. */
  lemma DrainCountStep(toasts: seq<Toast>, queue: seq<ToastParams>, lastId: nat)
    requires queue != [] && ActiveCount(toasts) < LIMIT
    ensures DrainCount(toasts, queue) == DrainCount(toasts + [Fresh(queue[0], lastId)], queue[1..]) + 1
  {
    var f := Fresh(queue[0], lastId);
    assert [f][1..] == [];
    assert ActiveCount([f]) == 1;
    ActiveCountAppend(toasts, [f]);
  }

  /** Showing the head and then `m` more toasts from the rest shows `m + 1` toasts. */
  lemma ShownAfterHead(toasts: seq<Toast>, queue: seq<ToastParams>, m: nat, lastId: nat)
    requires m < |queue|
    ensures toasts + Shown(queue, m + 1, lastId)
         == (toasts + [Fresh(queue[0], lastId)]) + Shown(queue[1..], m, lastId + 1)
    ensures queue[m + 1..] == queue[1..][m..]
  {
    ShownCons(queue, m, lastId);
    var f := Fresh(queue[0], lastId);
    assert toasts + ([f] + Shown(queue[1..], m, lastId + 1)) == (toasts + [f]) + Shown(queue[1..], m, lastId + 1);
  }

  lemma {:induction false} ActiveCountShown(queue: seq<ToastParams>, n: nat, lastId: nat)
    requires n <= |queue|
    ensures ActiveCount(Shown(queue, n, lastId)) == n
  {
    if n > 0 {
      ActiveCountShown(queue, n - 1, lastId);
      assert Shown(queue, n, lastId) == Shown(queue, n - 1, lastId) + [Fresh(queue[n - 1], lastId + n - 1)];
      ActiveCountAppend(Shown(queue, n - 1, lastId), [Fresh(queue[n - 1], lastId + n - 1)]);
    }
  }

  /** After the drain the cap still holds, and the drain stops only when the queue
      is empty or the active count has reached the cap. */
  lemma DrainKeepsCap(toasts: seq<Toast>, queue: seq<ToastParams>, lastId: nat)
    requires ActiveCount(toasts) <= LIMIT
    ensures var n := DrainCount(toasts, queue);
      && ActiveCount(toasts + Shown(queue, n, lastId)) <= LIMIT
      && (queue[n..] == [] || ActiveCount(toasts + Shown(queue, n, lastId)) == LIMIT)
  {
    var n := DrainCount(toasts, queue);
    ActiveCountAppend(toasts, Shown(queue, n, lastId));
    ActiveCountShown(queue, n, lastId);
  }

  /** FIFO: the shown toasts carry the head of the queue in order, and what stays
      queued is the rest, so nothing is lost or reordered. */
  lemma DrainIsFifo(queue: seq<ToastParams>, n: nat, lastId: nat)
    requires n <= |queue|
    ensures ParamsSeq(Shown(queue, n, lastId)) + queue[n..] == queue
  {
    assert ParamsSeq(Shown(queue, n, lastId)) == queue[..n];
    assert queue[..n] + queue[n..] == queue;
  }

  /** The drained toasts get fresh ids above every id in the list, increasing. */
  lemma DrainFreshIds(toasts: seq<Toast>, queue: seq<ToastParams>, n: nat, lastId: nat)
    requires n <= |queue|
    requires IdsIncreasing(toasts) && IdsIssued(toasts, lastId)
    ensures IdsIncreasing(toasts + Shown(queue, n, lastId))
    ensures IdsIssued(toasts + Shown(queue, n, lastId), lastId + n)
  {
    var r := toasts + Shown(queue, n, lastId);
    forall i, j | 0 <= i < j < |r| ensures r[i].id < r[j].id {
      if i < |toasts| {
        assert toasts[i] in toasts;
      }
    }
    forall t | t in r ensures 1 <= t.id <= lastId + n {
      var i :| 0 <= i < |r| && r[i] == t;
      if i < |toasts| {
        assert toasts[i] in toasts;
      }
    }
  }

  // ---------------------------------------------------------------------------
  // checkDelayedQueue under a synchronous setState (a hypothetical)

  /** What `checkDelayedQueue` would do if a `setState` made inside a `setState`
      callback committed at once and ran its own callback before returning: the
      re-check would run BEFORE `showToast(firstToast)`, testing the cap against a
      list that does not yet hold the head. React queues such nested updates until
      the commit ends, so the component drains as `Manager.ToastsManager.CheckDelayedQueue`
      does; this function shows why that ordering matters. Returns the new list,
      queue and id counter. */
  function DrainSync(toasts: seq<Toast>, queue: seq<ToastParams>, lastId: nat)
    : (r: (seq<Toast>, seq<ToastParams>, nat))
    ensures |r.0| >= |toasts| && r.2 >= lastId
    decreases |queue|
  {
    if |queue| > 0 && ActiveCount(toasts) < LIMIT then
      var (t, q, l) := DrainSync(toasts, queue[1..], lastId);
      (t + [Fresh(queue[0], l)], q, l + 1)
    else
      (toasts, queue, lastId)
  }

  /** Two active toasts and two queued params `a`, `b`: the synchronous drain would
      leave four toasts active, over the cap of three, and show `b` before `a`. */
  lemma DrainSyncOverflows(a: ToastParams, b: ToastParams)
    ensures var toasts := [Toast(1, Info, "x", false), Toast(2, Info, "y", false)];
      var r := DrainSync(toasts, [a, b], 2);
      && ActiveCount(r.0) == 4 > LIMIT
      && r.0[2] == Fresh(b, 2) && r.0[3] == Fresh(a, 3)
  {
    var toasts := [Toast(1, Info, "x", false), Toast(2, Info, "y", false)];
    assert ActiveCount(toasts) == 2 by {
      assert toasts[1..] == [Toast(2, Info, "y", false)];
      assert toasts[1..][1..] == [];
    }
    assert [a, b][1..] == [b];
    assert [b][1..] == [];
    assert DrainSync(toasts, [], 2) == (toasts, [], 2);
    assert DrainSync(toasts, [b], 2) == (toasts + [Fresh(b, 2)], [], 3);
    var r := toasts + [Fresh(b, 2)] + [Fresh(a, 3)];
    assert DrainSync(toasts, [a, b], 2) == (r, [], 4);
    ActiveCountAppend(toasts, [Fresh(b, 2)] + [Fresh(a, 3)]);
    assert r == toasts + ([Fresh(b, 2)] + [Fresh(a, 3)]);
    assert ActiveCount([Fresh(b, 2)] + [Fresh(a, 3)]) == 2 by {
      var u := [Fresh(b, 2)] + [Fresh(a, 3)];
      assert u[1..] == [Fresh(a, 3)];
      assert u[1..][1..] == [];
    }
  }
}
