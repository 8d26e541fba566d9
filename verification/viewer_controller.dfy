/**
 The pulse viewer's own state and the transitions that change it: opening the
 viewer, reconciling with a new list from the parent, stepping forward and
 backward, and the delete-confirmation flow.

 User actions are only possible through an affordance on screen. When there is
 no current pulse the viewer renders nothing, so every user action is then a
 no-op; reconciliation and the settling of a delete request are not user
 actions and always apply.
 */
module ViewerController {
  import opened Pulses

  /** The viewer's state: its own copy of the list, the position shown, and
      the two flags of the delete flow. The index is an unbounded integer
      standing for a JavaScript number; it may lie outside the list. */
  datatype ViewState = ViewState(
    snapshot: seq<Pulse>,
    index: int,
    confirmOpen: bool,
    deleting: bool)

  /** The index names an item of the snapshot, so there is something to show. */
  predicate HasCurrent(s: ViewState) {
    0 <= s.index < |s.snapshot|
  }

  /** The pulse on screen. */
  function Current(s: ViewState): Pulse
    requires HasCurrent(s)
  {
    s.snapshot[s.index]
  }

  /** Everything but the index is the same. */
  predicate SameButIndex(s: ViewState, r: ViewState) {
    r.snapshot == s.snapshot && r.confirmOpen == s.confirmOpen && r.deleting == s.deleting
  }

  /* ---------------------------------------------------------------------- */
  /* Opening and reconciling                                                 */
  /* ---------------------------------------------------------------------- */

  /** Opening the viewer: the list is copied and the caller's index is taken
      as given, without clamping; the delete flow starts idle. */
  function Init(pulses: seq<Pulse>, initial: int): (s: ViewState)
    ensures s.snapshot == pulses && s.index == initial
    ensures !s.confirmOpen && !s.deleting
    ensures HasCurrent(s) <==> 0 <= initial < |pulses|
  {
    ViewState(pulses, initial, false, false)
  }

  /** The position a reconciliation moves the index to: the last item when the
      index is past the end, zero when the list is empty. */
  function ClampTarget(len: nat): (k: nat)
    ensures len > 0 ==> k == len - 1
    ensures len == 0 ==> k == 0
  {
    if len - 1 > 0 then len - 1 else 0
  }

  /** The parent supplied a new list: it replaces the snapshot, and an index at
      or past the new end is pulled back to the last item (or zero). */
  function Reconcile(s: ViewState, pulses: seq<Pulse>): (r: ViewState)
    ensures r.snapshot == pulses
    ensures r.confirmOpen == s.confirmOpen && r.deleting == s.deleting
    ensures s.index < |pulses| ==> r.index == s.index
    ensures s.index >= |pulses| ==> r.index == ClampTarget(|pulses|)
    ensures 0 <= s.index && |pulses| > 0 ==> HasCurrent(r)
    ensures |pulses| == 0 ==> !HasCurrent(r)
    ensures r.index <= s.index
  {
    if s.index >= |pulses| then
      ViewState(pulses, ClampTarget(|pulses|), s.confirmOpen, s.deleting)
    else
      ViewState(pulses, s.index, s.confirmOpen, s.deleting)
  }

  /** The state after mounting: the reconcile step also runs once right after
      the first render, with the list the viewer was opened with. An index at
      or past the end is then pulled back to the last item; a negative index
      is left alone. */
  function Mounted(pulses: seq<Pulse>, initial: int): (s: ViewState)
    ensures s.snapshot == pulses && !s.confirmOpen && !s.deleting
    ensures initial < |pulses| ==> s.index == initial
    ensures 0 < |pulses| <= initial ==> s.index == |pulses| - 1
    ensures HasCurrent(s) <==> 0 <= initial && 0 < |pulses|
  {
    Reconcile(Init(pulses, initial), pulses)
  }

  /** Reconciling twice with the same list is reconciling once. */
  lemma ReconcileIdempotent(s: ViewState, pulses: seq<Pulse>)
    ensures Reconcile(Reconcile(s, pulses), pulses) == Reconcile(s, pulses)
  {
  }

  /** Reconciling with the list already held leaves a showing viewer alone;
      this is why the reconcile step may run again after every index change. */
  lemma ReconcileWithSnapshotIsIdentity(s: ViewState)
    requires HasCurrent(s)
    ensures Reconcile(s, s.snapshot) == s
  {
  }

  /** A negative index is never repaired: only an index past the end is. */
  lemma ReconcileKeepsNegativeIndex(s: ViewState, pulses: seq<Pulse>)
    requires s.index < 0
    ensures Reconcile(s, pulses).index == s.index
    ensures !HasCurrent(Reconcile(s, pulses))
  {
  }

  /* ---------------------------------------------------------------------- */
  /* Navigation                                                              */
  /* ---------------------------------------------------------------------- */

  /** The "next" affordance is offered while there is a later item. */
  predicate CanGoNext(s: ViewState) {
    s.index < |s.snapshot| - 1
  }

  /** The "previous" affordance is offered while there is an earlier item. */
  predicate CanGoPrev(s: ViewState) {
    s.index > 0
  }

  /** Step forward one item; a no-op when the affordance is not on screen. */
  function GoNext(s: ViewState): (r: ViewState)
    ensures SameButIndex(s, r)
    ensures HasCurrent(s) && CanGoNext(s) ==> r.index == s.index + 1
    ensures !(HasCurrent(s) && CanGoNext(s)) ==> r == s
    ensures HasCurrent(s) ==> HasCurrent(r)
    ensures s.index <= r.index
  {
    if HasCurrent(s) && CanGoNext(s) then s.(index := s.index + 1) else s
  }

  /** Step back one item; a no-op when the affordance is not on screen. */
  function GoPrev(s: ViewState): (r: ViewState)
    ensures SameButIndex(s, r)
    ensures HasCurrent(s) && CanGoPrev(s) ==> r.index == s.index - 1
    ensures !(HasCurrent(s) && CanGoPrev(s)) ==> r == s
    ensures HasCurrent(s) ==> HasCurrent(r)
    ensures r.index <= s.index
  {
    if HasCurrent(s) && CanGoPrev(s) then s.(index := s.index - 1) else s
  }

  /** At the last item "next" is not offered and does nothing: no wrap to the
      first item. */
  lemma NextAtLastIsNoOp(s: ViewState)
    requires |s.snapshot| > 0 && s.index == |s.snapshot| - 1
    ensures !CanGoNext(s)
    ensures GoNext(s) == s
  {
  }

  /** At the first item "previous" is not offered and does nothing: no wrap to
      the last item. */
  lemma PrevAtFirstIsNoOp(s: ViewState)
    requires s.index == 0
    ensures !CanGoPrev(s)
    ensures GoPrev(s) == s
  {
  }

  /** Going forward and then back returns to the same state. */
  lemma NextThenPrev(s: ViewState)
    requires HasCurrent(s) && CanGoNext(s)
    ensures GoPrev(GoNext(s)) == s
  {
  }

  /** Going back and then forward returns to the same state. */
  lemma PrevThenNext(s: ViewState)
    requires HasCurrent(s) && CanGoPrev(s)
    ensures GoNext(GoPrev(s)) == s
  {
  }

  /* ---------------------------------------------------------------------- */
  /* Delete flow                                                             */
  /* ---------------------------------------------------------------------- */

  /** The result of pressing the confirm button: the new state and the pulse
      handed to the parent's delete handler, if any. */
  datatype DeleteStart = DeleteStart(state: ViewState, request: Option<Pulse>)

  /** The trash button, offered only to the owner of the pulse on screen,
      opens the confirmation dialog; for anyone else it is absent. */
  function OpenConfirm(s: ViewState, viewer: Option<string>): (r: ViewState)
    ensures r.snapshot == s.snapshot && r.index == s.index && r.deleting == s.deleting
    ensures r.confirmOpen <==> s.confirmOpen || (HasCurrent(s) && IsOwner(viewer, Current(s)))
    ensures viewer.None? ==> r == s
  {
    if HasCurrent(s) && IsOwner(viewer, Current(s)) then s.(confirmOpen := true) else s
  }

  /** The dialog's confirm button: available while the dialog is shown and no
      request is in flight. It marks a request in flight and hands the pulse
      on screen to the parent; otherwise nothing happens, so a request is
      never submitted twice. */
  function StartDelete(s: ViewState): (r: DeleteStart)
    ensures r.request.Some? <==> HasCurrent(s) && s.confirmOpen && !s.deleting
    ensures r.request.Some? ==> r.request.value == Current(s) && r.state == s.(deleting := true)
    ensures r.request.None? ==> r.state == s
    ensures s.deleting ==> r.request.None?
  {
    if HasCurrent(s) && s.confirmOpen && !s.deleting then
      DeleteStart(s.(deleting := true), Some(Current(s)))
    else
      DeleteStart(s, None)
  }

  /** The parent's delete handler resolved: both flags clear. The list and the
      index are untouched; only a later reconciliation updates them. */
  function CompleteDelete(s: ViewState): (r: ViewState)
    ensures !r.confirmOpen && !r.deleting
    ensures r.snapshot == s.snapshot && r.index == s.index
  {
    s.(confirmOpen := false, deleting := false)
  }

  /** The dialog's cancel button closes the dialog. It stays enabled while a
      request is in flight and leaves that flag alone. */
  function CancelConfirm(s: ViewState): (r: ViewState)
    ensures r.snapshot == s.snapshot && r.index == s.index && r.deleting == s.deleting
    ensures HasCurrent(s) ==> !r.confirmOpen
    ensures !HasCurrent(s) || !s.confirmOpen ==> r == s
  {
    if HasCurrent(s) && s.confirmOpen then s.(confirmOpen := false) else s
  }

  /** A full delete cycle by the owner: the trash button opens the dialog,
      confirm sends the pulse on screen, and settling returns to exactly the
      state before; any change to the list comes only from the parent. */
  lemma DeleteCycleRestoresState(s: ViewState, viewer: Option<string>)
    requires HasCurrent(s) && !s.confirmOpen && !s.deleting
    requires IsOwner(viewer, Current(s))
    ensures StartDelete(OpenConfirm(s, viewer)).request == Some(Current(s))
    ensures CompleteDelete(StartDelete(OpenConfirm(s, viewer)).state) == s
  {
  }

  /** Pressing confirm a second time while the first request is in flight
      sends nothing and changes nothing. */
  lemma SecondConfirmIsNoOp(s: ViewState)
    requires StartDelete(s).request.Some?
    ensures StartDelete(StartDelete(s).state) == DeleteStart(StartDelete(s).state, None)
  {
  }
}
