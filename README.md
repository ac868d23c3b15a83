# toasts-manager: the bookkeeping of `ToastsManager`, in Dafny

`ToastsManager` is a React component that shows transient notifications ("toasts").
Behind its rendering there is a small sequential state machine:

- a list of visible toasts (`currentToasts`), each with a fresh id from the counter `lastId`;
- a FIFO overflow queue (`delayedQueue`);
- a cap (`LIMIT = 3`) on the toasts that are *active*, that is, not hiding;
- hide timers: a per-toast one is armed when a toast is shown while the pointer is not over
  the list; one naming every listed toast is armed on mouse leave or window blur, if any toast
  is listed. Hovering clears all of them;
- removal timers, armed when toasts start hiding, which take the hidden toasts out of the list;
- a stacking layout: an active measured toast sits on the summed height of the later active
  measured toasts; a hiding toast keeps its previous offset; an unmeasured one sits at 0.
  Offsets are recomputed only when a re-measured height changes.

The project has three modules:

- `ToastList` (`toast_list.dfy`): the list transformations as functions with lemmas. These are
  the active count, marking toasts as hiding, filtering removed toasts out, and the closed form
  of draining the queue. It also holds, for contrast, the drain the code would produce if a
  nested `setState` applied at once (`DrainSync`).
- `StackLayout` (`stack_layout.dfy`): the loops of `calcOffsets` and `checkHeights` as
  methods. They are proved against the running sum `Stacked` and the recorded height map.
- `Manager` (`toasts_manager.dfy`): the class `ToastsManager`. Its fields mirror the
  component's state; its methods update them in place. `setState` is an assignment. Each
  timer is an entry in `pendingHides` or `pendingRemovals`, and its expiry is an event method
  (`HideTimerFires`, `RemovalTimerFires`) that takes the timer's index, so timers may fire in
  any order. The class invariant `Valid()` holds between events:
  - at most `LIMIT` active toasts;
  - ids increase strictly along the list and lie in `1..lastId`;
  - every timer names issued ids only;
  - every toast a pending removal timer names is already hiding;
  - when not hovered, every active toast is named by some armed hide timer;
  - toasts wait in the queue only while the list is full.

## Model

| member | source | states |
|---|---|---|
| ToastList.LIMIT | src/ToastsManager.js:8 | At most three toasts are active at once |
| ToastList.ActiveCount | src/ToastsManager.js:203-207 | The number of toasts that are not hiding, never more than the list's length |
| ToastList.ActiveCountAppend | src/ToastsManager.js:206 | The active count of a concatenation is the sum of the parts' counts |
| ToastList.ActiveCountZero | src/ToastsManager.js:206 | No toast is active exactly when every toast is hiding (both directions) |
| ToastList.MarkHiding | src/ToastsManager.js:238-247 | Length, order, ids, kinds and texts are unchanged; a toast is hiding afterwards exactly when it was hiding or its id is named |
| ToastList.MarkHidingActive | src/ToastsManager.js:228-252 | Marking toasts as hiding never raises the active count, which is why the queue is drained afterwards |
| ToastList.MarkHidingNamed | src/ToastsManager.js:238-247 | After marking, every listed toast whose id was named is hiding |
| ToastList.MarkHidingAll | src/ToastsManager.js:190-194 | Hiding the ids of every listed toast, as the leave timer does, leaves no toast active |
| ToastList.MarkHidingIdempotent | src/ToastsManager.js:238-247 | Marking the same ids a second time changes nothing |
| ToastList.RemoveIds | src/ToastsManager.js:297-303 | A toast is in the result exactly when it was listed and its id is not named; the list never grows |
| ToastList.RemoveIdsAppend | src/ToastsManager.js:301 | Filtering distributes over concatenation, so the kept toasts keep their relative order |
| ToastList.RemoveIdsNone | src/ToastsManager.js:301 | A list with no named id is returned unchanged |
| ToastList.RemoveIdsIncreasing | src/ToastsManager.js:297-303 | Removing toasts keeps the ids strictly increasing along the list |
| ToastList.RemoveHidingKeepsActive | src/ToastsManager.js:297-303 | Removing only hiding toasts leaves the active count unchanged |
| ToastList.ShownIdsAbove | src/ToastsManager.js:277-279 | Toasts shown from the counter `lastId` carry ids in `lastId+1 .. lastId+n` |
| ToastList.ActiveCountShown | src/ToastsManager.js:287-294 | Every newly shown toast is active: n shown toasts add n to the active count |
| ToastList.DrainKeepsCap | src/ToastsManager.js:212 | After the drain the cap still holds, and either the queue is empty or the active count equals `LIMIT` |
| ToastList.DrainIsFifo | src/ToastsManager.js:213-217 | The shown toasts carry the head of the queue in order, and the rest stays queued: nothing is lost or reordered |
| ToastList.DrainFreshIds | src/ToastsManager.js:277-294 | Appending shown toasts keeps ids strictly increasing and all in `1..lastId+n` |
| ToastList.DrainSync | src/ToastsManager.js:209-226 | A hypothetical: the drain if the nested `setState` ran its callback before `showToast(firstToast)`. React queues that nested update until the commit ends, so the component does not behave this way |
| ToastList.DrainSyncOverflows | src/ToastsManager.js:209-226 | Why the order of the re-check matters: in that hypothetical, two active toasts and queue `[a, b]` would end with four toasts active and `b` shown before `a` |
| StackLayout.StackedAppend | src/ToastsManager.js:311-330 | The running height sum of a concatenation is the sum of the parts' sums |
| StackLayout.ComputeOffsets | src/ToastsManager.js:311-330 | For each toast: a hiding one keeps its previous offset (none if it had none); an active measured one gets the summed height of the later active measured toasts; an active unmeasured one gets 0. Only listed ids get offsets |
| StackLayout.StackedMonotone | src/ToastsManager.js:311-330 | The stack under a toast grows with the number of later toasts |
| StackLayout.StackNoOverlap | src/ToastsManager.js:320-322 | An older active measured toast's stack exceeds a newer one's by at least that newer toast's height |
| StackLayout.OffsetsNoOverlap | src/ToastsManager.js:311-330 | On computed offsets, between two active measured toasts: the older one's offset is at least the newer one's plus its height, so they do not overlap and their offsets never decrease from newest to oldest |
| StackLayout.FindById | src/ToastsManager.js:348 | The lookup finds nothing exactly when no listed toast has the id; otherwise it returns a listed toast with that id |
| StackLayout.FindByIdFirst | src/ToastsManager.js:348 | Like `find`, the lookup returns the first toast with the id: no earlier toast carries it |
| StackLayout.ChangedUpdate | src/ToastsManager.js:353-355 | Recording one more height makes the map "changed" exactly when it already was, or when that height is new or differs from the stored one |
| StackLayout.MeasureHeights | src/ToastsManager.js:341-357 | The recorded map has exactly the mounted ids; each records 0 for a hiding toast and its measured height otherwise. The update flag is set exactly when some recorded height is new or differs from the stored one |
| StackLayout.HidingRecordedZero | src/ToastsManager.js:349 | With unique ids, a hiding toast's recorded height is 0 |
| StackLayout.UnchangedHeights | src/ToastsManager.js:359-361 | Heights that agree with the stored ones cause no recomputation |
| Manager.ShowKeepsConsistent | src/ToastsManager.js:274-294 | Showing a toast below the cap keeps the invariant, including the hide timer armed for it unless hovered |
| Manager.MarkKeepsConsistent | src/ToastsManager.js:236-252 | Marking toasts as hiding keeps the invariant |
| Manager.ArmRemovalKeepsConsistent | src/ToastsManager.js:254-258 | Arming a removal timer for toasts that are all hiding keeps the invariant |
| Manager.DropHideKeepsConsistent | src/ToastsManager.js:365-367 | A fired hide timer, once its toasts are hiding, can be dropped without leaving an active toast uncovered |
| Manager.RemoveFiredKeepsConsistent | src/ToastsManager.js:255-257 | A fired removal timer takes out only hiding toasts: the active count and the invariant are kept |
| Manager.ToastsManager.constructor | src/ToastsManager.js:112-131 | Counter 0, empty list, queue, maps and timers, not hovered; the invariant holds |
| Manager.ToastsManager.StartToastHideTimeout | src/ToastsManager.js:364-370 | Arms one hide timer naming the toast |
| Manager.ToastsManager.ShowToast | src/ToastsManager.js:274-295 | The counter goes up by one; the new toast, with that id and active, is appended; a hide timer for it is armed unless hovered; below the cap the invariant is kept |
| Manager.ToastsManager.CheckDelayedQueue | src/ToastsManager.js:209-226 | Shows the head, then re-checks: React commits the queue update together with `showToast(firstToast)` before the callback runs. So it shows the head of the queue in FIFO order, as many as fit under the cap, with consecutive fresh ids and, unless hovered, their hide timers; the rest stays queued; afterwards `Valid()` holds if the invariant held before |
| Manager.ToastsManager.StartToastsHiding | src/ToastsManager.js:228-259 | A single id counts as the set holding it; exactly the named toasts start hiding; the queue is drained into the room this makes; one removal timer is armed for the ids; `Valid()` is kept |
| Manager.ToastsManager.ArmRemovalTimer | src/ToastsManager.js:254-258 | Appends the removal timer for the ids and keeps `Valid()` |
| Manager.ToastsManager.AddToast | src/ToastsManager.js:261-272 | At the cap: the params go to the end of the queue and nothing else changes. Below it: one toast with id `lastId + 1` is appended and the queue is unchanged. `Valid()` is kept |
| Manager.ToastsManager.RemoveToasts | src/ToastsManager.js:297-303 | The list becomes the filtered list; if only hiding toasts are removed, `Valid()` is kept |
| Manager.ToastsManager.CalcOffsets | src/ToastsManager.js:305-336 | Offsets as `ComputeOffsets` states, for every listed toast; the heights are stored as given |
| Manager.ToastsManager.CheckHeights | src/ToastsManager.js:338-362 | If some recorded height is new or changed, the recorded heights are stored and the offsets recomputed from them, with offsets only for listed ids; otherwise heights and offsets are unchanged |
| Manager.ToastsManager.OnMouseEnter | src/ToastsManager.js:169-177 | Hovered, and every armed hide timer is cleared |
| Manager.ToastsManager.OnLeave | src/ToastsManager.js:179-197 | Not hovered; if any toast is listed, one hide timer naming every listed toast is armed; `Valid()` is kept |
| Manager.ToastsManager.OnCloseClick | src/ToastsManager.js:165-167 | Starts hiding that one toast, with the same state change as `StartToastsHiding` |
| Manager.ToastsManager.HideTimerFires | src/ToastsManager.js:365-367 | The timer's toasts start hiding, the queue drains, a removal timer is armed, and the fired timer leaves the armed list; `Valid()` is kept |
| Manager.ToastsManager.RemovalTimerFires | src/ToastsManager.js:255-257 | The timer's toasts, all hiding, leave the list; the active count is unchanged; the timer leaves the pending list; `Valid()` is kept |

## Left out

- Rendering is not modelled: `renderToasts`, `render`, the styled-components wrappers, the
  keyframe animations and `src/Toast.js` (a CSS template). They are presentation only.
- The window listeners (`blur`, `resize`), `componentDidMount`, `componentWillUnmount` and the
  call to `checkHeights` after every update in `componentDidUpdate` are browser plumbing. In
  the model `CheckHeights` is an operation that callers invoke; the blur listener's effect is
  `OnLeave`.
- `createRef` and `ref.current.clientHeight` are replaced by the `mounted` input of
  `CheckHeights`: the measured height of each toast whose element is on the page.
- Timer durations (7000, 5000 and 400 ms) are not modelled: any pending timer may fire at any
  time, so the model admits more interleavings than the real timeline.
- Timer handles are not modelled. `hideTimeouts` in the source keeps every handle, including
  cleared and fired ones. The model keeps only the armed timers, which is what decides
  behaviour.
- React's batching of `setState` is not modelled. Updates are immediate. Where the order
  matters, in `checkDelayedQueue`, the model follows React's: the re-check runs in a
  `setState` callback during the commit, where the nested updates (the shorter queue and
  `showToast(firstToast)`) are queued and committed together before the next re-check. So
  `CheckDelayedQueue` shows the head and then re-checks. `DrainSync` shows what a synchronous
  nested `setState` would do instead.
- The module-level `instance`, the free `addToast` with its `setTimeout(…, 0)` deferral, and
  the static `info`/`warn`/`error`/`show` wrappers only build a params record. That record is
  reduced to a `Kind` tag and a text. A `show` renderer is represented by its text.
- Manager.ToastsManager.CheckHeights: requires every mounted id to belong to a listed toast.
  The source only renders refs for listed toasts, and its `toast.isHiding` would throw
  otherwise.
- Manager.ToastsManager.OnCloseClick: requires the id to be listed, since only a listed
  toast has a close button.
- Manager.ToastsManager.StartToastsHiding: requires the ids to be issued already (at most
  `lastId`). Every caller in the source passes ids of toasts it has shown.
- Manager.ToastsManager.ShowToast: keeps the invariant only when called below the cap, which
  both of its callers check first.
