# Pulse viewer: view-state model

A Dafny model of the full-screen pulse viewer (`PulseViewerModal`). It shows a
user's short-lived media posts ("pulses") one at a time. The user can step
forward and back, a segmented progress bar shows the position, and the author
of the pulse on screen can delete it after a confirmation step.

The model keeps the viewer's state machine and drops the React/JSX shell. The
state is an immutable `ViewState`. It holds the viewer's own copy of the list
(the snapshot), the current index, and two flags: `confirmOpen` for the
dialog and `deleting` for a request in flight. Every transition is a pure
function:

- `Init`: opens the viewer.
- `Reconcile`: the parent supplies a new list.
- `GoNext` and `GoPrev`: the arrow buttons.
- `OpenConfirm`: the trash button.
- `StartDelete`: the confirm button.
- `CompleteDelete`: the parent's delete handler resolved.
- `CancelConfirm`: the cancel button.

`Render` is the render guard plus the view. It either asks to close
(`Close`) or returns a `Drawn` frame with every decision the layout makes. These
are the arrows, the progress bar, the media kind, the caption, the trash
button and the dialog. `ViewerSession` strings events into sessions and
proves invariants over whole sessions.

Modules:

- `Pulses` (`pulses.dfy`): the pulse record, substring search, media
  classification, caption and ownership.
- `ViewerController` (`viewer_controller.dfy`): the state and its
  transitions.
- `NavigationView` (`navigation_view.dfy`): what one render produces, and the
  count of filled progress segments.
- `ViewerSession` (`viewer_session.dfy`): event sequences, session
  invariants and worked scenarios.

Modelling choices:

- User actions need their button on screen. When there is no current pulse
  nothing is rendered, so every user action is a no-op. Reconciliation and
  the settling of a delete request are not user actions, so they always
  apply. Each arrow and the cancel button is drawn exactly when pressing it
  changes the state. While the dialog is closed, the trash button is drawn
  exactly when pressing it opens the dialog. The confirm button is enabled
  exactly when pressing it sends a request. The lemmas are
  `NavigationView.NextShownIffNextMoves`, `PrevShownIffPrevMoves`,
  `CancelShownIffCancels`, `TrashShownIffOpens` and
  `ConfirmEnabledIffSends`.
- The dialog's backdrop covers the arrows and the trash button on screen,
  but they stay in the page and can still be reached, for example by
  keyboard focus. The model does not block them while the dialog is open.
  So confirm sends the pulse on screen when confirm is pressed. That need
  not be the pulse the trash button was pressed on, and the viewer may not
  own it (`ViewerSession.ConfirmSendsPulseOnScreen`).
- The signed-in identity is an `Option<string>`. `None` means nobody is
  signed in. It is read afresh on every render (line 54), so it may change
  during a session. Only the trash button consults it, so the `Trash` event
  carries the identity of the render on which it was pressed. Ownership is
  checked only when the dialog opens. An identity change afterwards leaves
  the dialog up with confirm enabled
  (`ViewerSession.DialogOutlivesIdentityChange`).
- "Close" is a value of the render result. Calling the parent's close
  callback is not modelled.
- The index is an unbounded `int`. The source clamps only an index at or
  past the end (`>= len`), never a negative one. A negative starting index
  therefore renders as "close" (`ReconcileKeepsNegativeIndex`,
  `InitOutOfRangeCloses`).
- The first render happens before the reconcile effect runs. So a viewer
  opened at or past the end of its list asks to close on that first render
  (`InitOutOfRangeCloses`). The effect then runs once after that render with
  the opening list. `ViewerController.Mounted` is the state it leaves: an
  index past the end of a non-empty list moves to the last pulse, which the
  next render shows, unless the parent has already closed the viewer
  (`NavigationView.MountRecoversPastEnd`). Sessions in `ViewerSession` start
  from `Init`. A leading `Update` with the opening list stands for this
  mount-time run.

Two behaviours of the code are worth spelling out:

- Media classification: a pulse is a video when `.mp4` or `.webm` occurs
  anywhere in its URL (line 126), not only as a suffix. So
  `clip.mp4?token=x` and `a.mp4.png` are both videos
  (`Pulses.ExtensionAnywhereIsVideo`).
- Failed deletes: both flags are cleared only after the awaited handler
  resolves (lines 66-68). There is no `try`/`finally`, so a rejected handler
  skips lines 67-68. `deleting` then stays set and the confirm button stays
  disabled. The model has a single `Settled` event for the resolved case. A
  rejected handler is a session in which `Settled` never comes, and
  `ViewerSession.AtMostOneRequestInFlight` proves the flag then stays set.
- `Settled` is not tied to an earlier request. The model allows it at any
  point of a session, where it clears both flags. The source runs lines
  67-68 only as the continuation of a delete it started. The session
  lemmas are safety properties, so admitting these extra sessions does not
  weaken them.

## Model

| member | source | states |
|---|---|---|
| Pulses.IncludesIsOccurs | components/pulse/PulseViewerModal.tsx:126 | the left-to-right substring search succeeds exactly when the needle occurs at some position of the URL, as `includes` does |
| Pulses.Classify | components/pulse/PulseViewerModal.tsx:126-130 | a pulse is a video iff `.mp4` or `.webm` occurs anywhere in its URL, otherwise an image |
| Pulses.ExtensionAnywhereIsVideo | components/pulse/PulseViewerModal.tsx:126 | any URL of the form before + extension + after is a video: the extension need not be a suffix |
| Pulses.ShowsCaption | components/pulse/PulseViewerModal.tsx:132-136 | the caption overlay is shown iff the caption is non-empty |
| Pulses.IsOwner | components/pulse/PulseViewerModal.tsx:61 | ownership holds iff someone is signed in and their id equals the pulse's author id; signed out is never owner |
| ViewerController.Init | components/pulse/PulseViewerModal.tsx:40-43 | the snapshot is the given list and the index is the caller's index with no clamping; both flags start false; there is a current pulse iff that index is in range |
| ViewerController.ClampTarget | components/pulse/PulseViewerModal.tsx:49 | the clamp target is the last position `len-1` of a non-empty list, and zero for an empty one |
| ViewerController.Reconcile | components/pulse/PulseViewerModal.tsx:45-51 | the snapshot becomes the new list; an index below the new length is kept and one at or past it becomes `max(0, len-1)`; a non-negative index ends in range for a non-empty list; an empty list leaves no current pulse; the index never increases; both flags are kept |
| ViewerController.Mounted | components/pulse/PulseViewerModal.tsx:40-51 | after the reconcile step that follows the first render, the snapshot is the opening list with both flags false; an in-range index is kept, one at or past the end of a non-empty list becomes the last position, and a pulse is current iff the index is non-negative and the list non-empty |
| ViewerController.ReconcileIdempotent | components/pulse/PulseViewerModal.tsx:45-51 | reconciling twice with the same list equals reconciling once |
| ViewerController.ReconcileWithSnapshotIsIdentity | components/pulse/PulseViewerModal.tsx:45-51 | re-running the reconcile step after an index change, with the list already held, changes nothing while a pulse is shown |
| ViewerController.ReconcileKeepsNegativeIndex | components/pulse/PulseViewerModal.tsx:48-49 | a negative index is never clamped, so no pulse is current afterwards |
| ViewerController.GoNext | components/pulse/PulseViewerModal.tsx:140-148 | guarded by `canGoNext` (line 73): with a pulse shown and a later item present the index goes up by exactly one, otherwise nothing changes; a shown pulse stays shown; snapshot and flags are untouched; the index never goes down (no wrap) |
| ViewerController.GoPrev | components/pulse/PulseViewerModal.tsx:82-90 | guarded by `canGoPrev` (line 74): with a pulse shown and the index above zero the index goes down by exactly one, otherwise nothing changes; a shown pulse stays shown; snapshot and flags are untouched; the index never goes up (no wrap) |
| ViewerController.NextAtLastIsNoOp | components/pulse/PulseViewerModal.tsx:140-148 | at the last item "next" is not offered and does nothing |
| ViewerController.PrevAtFirstIsNoOp | components/pulse/PulseViewerModal.tsx:82-90 | at the first item "previous" is not offered and does nothing |
| ViewerController.NextThenPrev | components/pulse/PulseViewerModal.tsx:84 | when "next" is possible, "next" then "previous" restores the state |
| ViewerController.PrevThenNext | components/pulse/PulseViewerModal.tsx:142 | when "previous" is possible, "previous" then "next" restores the state |
| ViewerController.OpenConfirm | components/pulse/PulseViewerModal.tsx:110-118 | the dialog opens iff a pulse is shown and the viewer owns it (or it was open already); nothing else changes; signed out it is a no-op |
| ViewerController.StartDelete | components/pulse/PulseViewerModal.tsx:63-66 | a request is sent iff a pulse is shown, the dialog is open and no request is in flight; the request carries the pulse on screen and sets the in-flight flag; otherwise the state is unchanged |
| ViewerController.CompleteDelete | components/pulse/PulseViewerModal.tsx:67-68 | a resolved delete clears both flags and leaves snapshot and index unchanged |
| ViewerController.CancelConfirm | components/pulse/PulseViewerModal.tsx:166-170 | cancel closes the dialog and nothing else; it is available and leaves the in-flight flag alone while a request is in flight |
| ViewerController.DeleteCycleRestoresState | components/pulse/PulseViewerModal.tsx:63-71 | for the owner of the pulse on screen, trash then confirm sends that pulse, and settling returns to exactly the state before the cycle |
| ViewerController.SecondConfirmIsNoOp | components/pulse/PulseViewerModal.tsx:159-161 | after a request is sent, pressing confirm again sends nothing and changes nothing |
| NavigationView.Progress | components/pulse/PulseViewerModal.tsx:98-102 | one segment per snapshot element, segment `i` filled iff `i <= index` |
| NavigationView.DialogFor | components/pulse/PulseViewerModal.tsx:151-165 | the dialog is shown iff its flag is set, and its confirm button is enabled iff no request is in flight |
| NavigationView.Render | components/pulse/PulseViewerModal.tsx:55-60 | close is signalled and nothing drawn iff the index is outside the snapshot; otherwise the frame shows the current pulse, with arrows, trash button, media kind, caption, progress bar and dialog as the rules above decide |
| NavigationView.FilledPrefix | components/pulse/PulseViewerModal.tsx:98-102 | a bar of `n` segments filled up to position `k` has `min(n, k+1)` filled segments |
| NavigationView.ProgressFilledCount | components/pulse/PulseViewerModal.tsx:98-102 | with the index in range exactly `index + 1` segments are filled |
| NavigationView.NoTrashWithoutViewer | components/pulse/PulseViewerModal.tsx:110-112 | signed out, the trash button is never shown and pressing it does nothing |
| NavigationView.InitOutOfRangeCloses | components/pulse/PulseViewerModal.tsx:41-60 | a viewer opened with an index outside its list asks to close on its first render |
| NavigationView.MountRecoversPastEnd | components/pulse/PulseViewerModal.tsx:45-60 | opened at or past the end of a non-empty list, the first render closes, and after the mount-time reconcile the render shows the last pulse |
| NavigationView.NextShownIffNextMoves | components/pulse/PulseViewerModal.tsx:140-148 | the "next" arrow is drawn iff pressing it changes the state |
| NavigationView.PrevShownIffPrevMoves | components/pulse/PulseViewerModal.tsx:82-90 | the "previous" arrow is drawn iff pressing it changes the state |
| NavigationView.TrashShownIffOpens | components/pulse/PulseViewerModal.tsx:110-118 | with the dialog closed, the trash button is drawn iff pressing it opens the dialog |
| NavigationView.ConfirmEnabledIffSends | components/pulse/PulseViewerModal.tsx:159-165 | an enabled confirm button is drawn iff pressing it sends a delete request |
| NavigationView.CancelShownIffCancels | components/pulse/PulseViewerModal.tsx:166-170 | the cancel button is drawn iff pressing it changes the state |
| ViewerSession.Step | components/pulse/PulseViewerModal.tsx:63-71 | one event sends at most one delete request; a request comes only from confirm while none is in flight, carries the pulse on screen, and leaves the in-flight flag set; only list updates change the snapshot |
| ViewerSession.RunKeepsIndexNonNegative | components/pulse/PulseViewerModal.tsx:45-51 | no sequence of events makes a non-negative index negative |
| ViewerSession.UpdateShowsOrCloses | components/pulse/PulseViewerModal.tsx:45-60 | after any session from a non-negative start, a list update leaves a current pulse when the list is non-empty, and the viewer closes iff the list is empty |
| ViewerSession.UserEventsKeepCurrent | components/pulse/PulseViewerModal.tsx:82-84 | sessions without list updates keep the snapshot and keep a shown pulse shown |
| ViewerSession.NonOwnerNeverDeletes | components/pulse/PulseViewerModal.tsx:110-112 | if every identity pressing the trash button, however it changes during the session, authored none of the pulses shown, the dialog never opens and no request is sent |
| ViewerSession.SignedOutNeverDeletes | components/pulse/PulseViewerModal.tsx:54-61 | with nobody signed in at any trash press, no session opens the dialog or sends a request |
| ViewerSession.AtMostOneRequestInFlight | components/pulse/PulseViewerModal.tsx:159-161 | until a request settles at most one request is sent, none if one is in flight already, and the in-flight flag stays set |
| ViewerSession.ScenarioMiddleOfThree | components/pulse/PulseViewerModal.tsx:73-74 | three pulses opened at the middle show both arrows; after "next" the last pulse shows only "previous" |
| ViewerSession.ScenarioSinglePulse | components/pulse/PulseViewerModal.tsx:73-74 | a single pulse shows neither arrow |
| ViewerSession.ScenarioOwnerDeletesOnlyPulse | components/pulse/PulseViewerModal.tsx:63-71 | deleting the only pulse sends exactly that pulse; confirm is disabled meanwhile; after the emptied list arrives and the request settles the viewer closes with both flags cleared |
| ViewerSession.DialogOutlivesIdentityChange | components/pulse/PulseViewerModal.tsx:54-68 | after the owner opens the dialog, a different identity sees no trash button but the dialog with confirm enabled, and confirm still sends the pulse |
| ViewerSession.ConfirmSendsPulseOnScreen | components/pulse/PulseViewerModal.tsx:63-66 | confirm sends the pulse on screen at confirm time: after trash on an owned pulse and "next", it sends the next pulse, which the viewer does not own |

## Left out

- Layout, styling, the SVG icons and the author's name and avatar. They are
  presentation and decide nothing. So are the media element's alt text and
  the pulse id used as a rendering key.
- The creation timestamp. It is never read.
- Reading the signed-in user from the identity provider. It is a `viewer`
  parameter of rendering and of the `Trash` event instead.
- Calling the parent's close callback. Closing is the `Close` render result.
  That render happens on every re-render while the list is empty, so the
  model says nothing about how many times the callback fires.
- The backdrop click and the close (×) button. Both call the close callback
  and change no state.
- React's scheduling. Reconciliation is one atomic step, so the render with
  the stale snapshot between a new list and the effect is not modelled. The
  effect's extra runs after an index change are covered by
  `ViewerController.ReconcileWithSnapshotIsIdentity`.
- The asynchrony of the delete handler. It is split into `StartDelete` and
  `CompleteDelete`. A rejected handler is not a separate transition: it is a
  session in which the `Settled` event never arrives.
- The defensive copy of the list. Dafny sequences are values, so it is
  automatic.
- Non-integer indices. The source's index is a JavaScript number; the model
  uses integers.
