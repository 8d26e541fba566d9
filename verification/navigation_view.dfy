/**
 What the viewer puts on screen for a given state: either nothing, together
 with a request to close, or one frame built from the current pulse. The frame
 carries every decision the layout depends on; layout and styling themselves
 are not modelled.
 */
module NavigationView {
  import opened Pulses
  import opened ViewerController

  /** The confirmation dialog: absent, or shown with its confirm button
      enabled or disabled. The cancel button is always enabled. */
  datatype Dialog = Hidden | Shown(confirmEnabled: bool)

  /** The outcome of one render. `Close` means nothing is drawn and the
      viewer asks its parent to close it; `Drawn` is the frame on screen. */
  datatype Frame =
    | Close
    | Drawn(
        pulse: Pulse,
        media: Media,
        caption: bool,
        progress: seq<bool>,
        prevShown: bool,
        nextShown: bool,
        trashShown: bool,
        dialog: Dialog)

  /** The segmented progress bar: one segment per item of the snapshot, a
      segment filled when it is at or before the current position. */
  function Progress(s: ViewState): (bar: seq<bool>)
    ensures |bar| == |s.snapshot|
    ensures forall i :: 0 <= i < |bar| ==> (bar[i] <==> i <= s.index)
  {
    seq(|s.snapshot|, i => i <= s.index)
  }

  /** The dialog as drawn for a state. */
  function DialogFor(s: ViewState): (d: Dialog)
    ensures d.Shown? <==> s.confirmOpen
    ensures d.Shown? ==> (d.confirmEnabled <==> !s.deleting)
  {
    if s.confirmOpen then Shown(!s.deleting) else Hidden
  }

  /** Render guard and view: close exactly when there is no current pulse;
      otherwise a frame for the pulse at the index. */
  function Render(s: ViewState, viewer: Option<string>): (f: Frame)
    ensures f.Close? <==> !HasCurrent(s)
    ensures f.Drawn? ==> f.pulse == Current(s)
    ensures f.Drawn? ==> f.prevShown == CanGoPrev(s) && f.nextShown == CanGoNext(s)
    ensures f.Drawn? ==> (f.trashShown <==> viewer.Some? && viewer.value == Current(s).authorId)
    ensures f.Drawn? ==> (f.media == Video <==>
                            Occurs(Current(s).mediaUrl, ".mp4") || Occurs(Current(s).mediaUrl, ".webm"))
    ensures f.Drawn? ==> (f.caption <==> |Current(s).legenda| > 0)
    ensures f.Drawn? ==> f.progress == Progress(s) && f.dialog == DialogFor(s)
  {
    if !HasCurrent(s) then Close
    else
      var p := Current(s);
      Drawn(p, Classify(p), ShowsCaption(p), Progress(s),
            CanGoPrev(s), CanGoNext(s), IsOwner(viewer, p), DialogFor(s))
  }

  /* ---------------------------------------------------------------------- */
  /* Counting filled segments                                                */
  /* ---------------------------------------------------------------------- */

  /** The number of filled segments of a bar. */
  function Filled(bar: seq<bool>): nat
  {
    if |bar| == 0 then 0
    else Filled(bar[..|bar| - 1]) + (if bar[|bar| - 1] then 1 else 0)
  }

  /** A bar of `n` segments in which the segments at or before `k` are filled
      has `min(n, k + 1)` filled segments. */
  lemma {:induction false} FilledPrefix(bar: seq<bool>, k: int)
    requires k >= -1
    requires forall i :: 0 <= i < |bar| ==> (bar[i] <==> i <= k)
    ensures Filled(bar) == if |bar| <= k + 1 then |bar| else k + 1
  {
    if |bar| > 0 {
      var init := bar[..|bar| - 1];
      assert forall i :: 0 <= i < |init| ==> init[i] == bar[i];
      FilledPrefix(init, k);
    }
  }

  /** With an index in range, exactly `index + 1` segments are filled. */
  lemma ProgressFilledCount(s: ViewState)
    requires HasCurrent(s)
    ensures Filled(Progress(s)) == s.index + 1
  {
    FilledPrefix(Progress(s), s.index);
  }

  /** The trash button, and with it the dialog, is never offered to a viewer
      who is not signed in. */
  lemma NoTrashWithoutViewer(s: ViewState)
    ensures Render(s, None).Drawn? ==> !Render(s, None).trashShown
    ensures OpenConfirm(s, None) == s
  {
  }

  /** A viewer opened with an index outside its list asks to close on its
      first render: the first render happens before any reconciliation. */
  lemma InitOutOfRangeCloses(pulses: seq<Pulse>, initial: int, viewer: Option<string>)
    requires initial >= |pulses| || initial < 0
    ensures Render(Init(pulses, initial), viewer) == Close
  {
  }

  /** Opened at or past the end of a non-empty list, the viewer asks to close
      on its first render, and the reconcile step that runs right after it
      moves the index to the last pulse, which the next render shows. */
  lemma MountRecoversPastEnd(pulses: seq<Pulse>, initial: int, viewer: Option<string>)
    requires 0 < |pulses| <= initial
    ensures Render(Init(pulses, initial), viewer) == Close
    ensures Render(Mounted(pulses, initial), viewer).Drawn?
    ensures Render(Mounted(pulses, initial), viewer).pulse == pulses[|pulses| - 1]
  {
  }

  /* ---------------------------------------------------------------------- */
  /* Affordances on screen are exactly the actions that do something         */
  /* ---------------------------------------------------------------------- */

  /** The "next" arrow is drawn exactly when pressing it changes the state. */
  lemma NextShownIffNextMoves(s: ViewState, viewer: Option<string>)
    ensures (Render(s, viewer).Drawn? && Render(s, viewer).nextShown) <==> GoNext(s) != s
  {
  }

  /** The "previous" arrow is drawn exactly when pressing it changes the state. */
  lemma PrevShownIffPrevMoves(s: ViewState, viewer: Option<string>)
    ensures (Render(s, viewer).Drawn? && Render(s, viewer).prevShown) <==> GoPrev(s) != s
  {
  }

  /** With the dialog closed, the trash button is drawn exactly when pressing
      it opens the dialog. */
  lemma TrashShownIffOpens(s: ViewState, viewer: Option<string>)
    requires !s.confirmOpen
    ensures (Render(s, viewer).Drawn? && Render(s, viewer).trashShown) <==> OpenConfirm(s, viewer).confirmOpen
  {
  }

  /** An enabled confirm button is drawn exactly when pressing it sends a
      delete request. */
  lemma ConfirmEnabledIffSends(s: ViewState, viewer: Option<string>)
    ensures (Render(s, viewer).Drawn? && Render(s, viewer).dialog == Shown(true))
            <==> StartDelete(s).request.Some?
  {
  }

  /** The cancel button is drawn exactly when pressing it changes the state. */
  lemma CancelShownIffCancels(s: ViewState, viewer: Option<string>)
    ensures (Render(s, viewer).Drawn? && Render(s, viewer).dialog.Shown?) <==> CancelConfirm(s) != s
  {
  }
}
