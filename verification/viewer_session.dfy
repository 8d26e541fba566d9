/**
 A viewer session as a sequence of events: user actions, list updates from
 the parent, and the settling of a delete request. Properties that hold over
 whole sessions are stated here: the index never goes negative, every update
 either leaves a pulse to show or closes the viewer, a viewer who owns nothing
 never reaches the confirmation dialog, and a delete request is never
 submitted twice.

 The signed-in identity is read afresh on every render, so it may change at
 any point of a session. The only transition that consults it is the trash
 button, so the identity is carried by that event: it is whoever was signed
 in for the render on which the button was pressed.
 */
module ViewerSession {
  import opened Pulses
  import opened ViewerController
  import opened NavigationView

  /** One thing that can happen to an open viewer. */
  datatype Event =
    | Update(pulses: seq<Pulse>)      // the parent supplies a new list
    | Next                            // the "next" button
    | Prev                            // the "previous" button
    | Trash(viewer: Option<string>)   // the trash button, as seen by `viewer`
    | Confirm                         // the dialog's confirm button
    | Cancel                          // the dialog's cancel button
    | Settled                         // the parent's delete handler resolved

  /** A state together with the pulses handed to the parent's delete handler,
      in order. */
  datatype Outcome = Outcome(state: ViewState, requests: seq<Pulse>)

  /** The effect of one event on the state. */
  function Step(s: ViewState, e: Event): (o: Outcome)
    ensures |o.requests| <= 1
    ensures |o.requests| == 1 ==> e == Confirm && !s.deleting && o.state.deleting
    ensures |o.requests| == 1 ==> HasCurrent(s) && o.requests[0] == Current(s)
    ensures !e.Update? ==> o.state.snapshot == s.snapshot
    ensures !s.confirmOpen && o.state.confirmOpen ==>
              e.Trash? && HasCurrent(s) && IsOwner(e.viewer, Current(s))
  {
    match e
    case Update(pulses) => Outcome(Reconcile(s, pulses), [])
    case Next => Outcome(GoNext(s), [])
    case Prev => Outcome(GoPrev(s), [])
    case Trash(viewer) => Outcome(OpenConfirm(s, viewer), [])
    case Confirm =>
      var d := StartDelete(s);
      Outcome(d.state, if d.request.Some? then [d.request.value] else [])
    case Cancel => Outcome(CancelConfirm(s), [])
    case Settled => Outcome(CompleteDelete(s), [])
  }

  /** The effect of a sequence of events, first to last. */
  function Run(s: ViewState, events: seq<Event>): Outcome
    decreases |events|
  {
    if |events| == 0 then Outcome(s, [])
    else
      var first := Step(s, events[0]);
      var rest := Run(first.state, events[1..]);
      Outcome(rest.state, first.requests + rest.requests)
  }

  /** Running `events` and then one more event is running the one event on the
      state `events` left behind. */
  lemma {:induction false} RunSnoc(s: ViewState, events: seq<Event>, e: Event)
    ensures Run(s, events + [e]).state == Step(Run(s, events).state, e).state
    decreases |events|
  {
    if |events| == 0 {
      assert events + [e] == [e];
    } else {
      assert (events + [e])[1..] == events[1..] + [e];
      RunSnoc(Step(s, events[0]).state, events[1..], e);
    }
  }

  /* ---------------------------------------------------------------------- */
  /* The index invariant                                                     */
  /* ---------------------------------------------------------------------- */

  /** No event makes a non-negative index negative. */
  lemma StepKeepsIndexNonNegative(s: ViewState, e: Event)
    requires 0 <= s.index
    ensures 0 <= Step(s, e).state.index
  {
  }

  /** No session makes a non-negative index negative. */
  lemma {:induction false} RunKeepsIndexNonNegative(s: ViewState, events: seq<Event>)
    requires 0 <= s.index
    ensures 0 <= Run(s, events).state.index
    decreases |events|
  {
    if |events| > 0 {
      StepKeepsIndexNonNegative(s, events[0]);
      RunKeepsIndexNonNegative(Step(s, events[0]).state, events[1..]);
    }
  }

  /** Whatever happened since the viewer was opened at a non-negative index,
      after the parent supplies a list the viewer shows one of its items when
      the list is non-empty, and closes itself when it is empty. */
  lemma UpdateShowsOrCloses(pulses: seq<Pulse>, initial: int, viewer: Option<string>,
                            events: seq<Event>, latest: seq<Pulse>)
    requires 0 <= initial
    ensures var s := Run(Init(pulses, initial), events + [Update(latest)]).state;
            && s.snapshot == latest
            && (|latest| > 0 ==> HasCurrent(s))
            && (|latest| == 0 <==> Render(s, viewer) == Close)
  {
    RunKeepsIndexNonNegative(Init(pulses, initial), events);
    RunSnoc(Init(pulses, initial), events, Update(latest));
  }

  /** Events other than list updates keep a shown pulse shown. */
  lemma {:induction false} UserEventsKeepCurrent(s: ViewState, events: seq<Event>)
    requires HasCurrent(s)
    requires forall k :: 0 <= k < |events| ==> !events[k].Update?
    ensures Run(s, events).state.snapshot == s.snapshot
    ensures HasCurrent(Run(s, events).state)
    decreases |events|
  {
    if |events| > 0 {
      UserEventsKeepCurrent(Step(s, events[0]).state, events[1..]);
    }
  }

  /* ---------------------------------------------------------------------- */
  /* Ownership gates the dialog                                              */
  /* ---------------------------------------------------------------------- */

  /** No identity of `ids` is the author of a pulse of `pulses`. */
  predicate OwnedByNone(ids: set<Option<string>>, pulses: seq<Pulse>) {
    forall v, j :: v in ids && 0 <= j < |pulses| ==> !IsOwner(v, pulses[j])
  }

  /** Every trash press of `events` is made by an identity of `ids`, and every
      list the parent supplies is one no identity of `ids` authored anything of. */
  predicate SessionBy(ids: set<Option<string>>, events: seq<Event>) {
    forall k :: 0 <= k < |events| ==>
      && (events[k].Trash? ==> events[k].viewer in ids)
      && (events[k].Update? ==> OwnedByNone(ids, events[k].pulses))
  }

  /** Viewers who authored none of the pulses they are ever shown never see
      the confirmation dialog and never trigger a delete, however the
      signed-in identity changes among them. */
  lemma {:induction false} NonOwnerNeverDeletes(s: ViewState, ids: set<Option<string>>, events: seq<Event>)
    requires !s.confirmOpen
    requires OwnedByNone(ids, s.snapshot)
    requires SessionBy(ids, events)
    ensures !Run(s, events).state.confirmOpen
    ensures Run(s, events).requests == []
    decreases |events|
  {
    if |events| > 0 {
      var next := Step(s, events[0]).state;
      assert SessionBy(ids, events[1..]) by {
        forall k | 0 <= k < |events[1..]|
          ensures events[1..][k].Trash? ==> events[1..][k].viewer in ids
          ensures events[1..][k].Update? ==> OwnedByNone(ids, events[1..][k].pulses)
        {
          assert events[1..][k] == events[k + 1];
        }
      }
      NonOwnerNeverDeletes(next, ids, events[1..]);
    }
  }

  /** With nobody signed in whenever the trash button is pressed, the dialog
      is never reached, whatever the lists. */
  lemma SignedOutNeverDeletes(pulses: seq<Pulse>, initial: int, events: seq<Event>)
    requires forall k :: 0 <= k < |events| && events[k].Trash? ==> events[k].viewer.None?
    ensures !Run(Init(pulses, initial), events).state.confirmOpen
    ensures Run(Init(pulses, initial), events).requests == []
  {
    NonOwnerNeverDeletes(Init(pulses, initial), {None}, events);
  }

  /* ---------------------------------------------------------------------- */
  /* No duplicate submission                                                 */
  /* ---------------------------------------------------------------------- */

  /** No event of `events` is the settling of a delete request. */
  predicate NeverSettles(events: seq<Event>) {
    forall k :: 0 <= k < |events| ==> events[k] != Settled
  }

  /** Until a request settles, at most one request is submitted, none at all
      if one is already in flight, and the in-flight flag stays set once set.
      A request whose handler rejects never settles, so the flag then stays
      set and the confirm button stays disabled for the rest of the session. */
  lemma {:induction false} AtMostOneRequestInFlight(s: ViewState, events: seq<Event>)
    requires NeverSettles(events)
    ensures |Run(s, events).requests| <= 1
    ensures s.deleting ==> Run(s, events).requests == []
    ensures s.deleting || |Run(s, events).requests| == 1 ==> Run(s, events).state.deleting
    decreases |events|
  {
    if |events| > 0 {
      var first := Step(s, events[0]);
      assert events[0] != Settled;
      assert NeverSettles(events[1..]) by {
        forall k | 0 <= k < |events[1..]| ensures events[1..][k] != Settled {
          assert events[1..][k] == events[k + 1];
        }
      }
      assert s.deleting ==> first.state.deleting;
      AtMostOneRequestInFlight(first.state, events[1..]);
    }
  }

  /* ---------------------------------------------------------------------- */
  /* Scenarios                                                               */
  /* ---------------------------------------------------------------------- */

  /** Three pulses opened at the middle one: both arrows shown; after "next"
      the last one is shown with only the "previous" arrow. */
  lemma ScenarioMiddleOfThree(a: Pulse, b: Pulse, c: Pulse, viewer: Option<string>)
    ensures var f := Render(Init([a, b, c], 1), viewer);
            f.Drawn? && f.prevShown && f.nextShown
    ensures var f := Render(Run(Init([a, b, c], 1), [Next]).state, viewer);
            f.Drawn? && f.pulse == c && f.prevShown && !f.nextShown
  {
  }

  /** A single pulse: neither arrow is shown. */
  lemma ScenarioSinglePulse(a: Pulse, viewer: Option<string>)
    ensures var f := Render(Init([a], 0), viewer);
            f.Drawn? && !f.prevShown && !f.nextShown
  {
  }

  /** The owner deletes the only pulse: exactly that pulse is handed to the
      parent, the dialog shows a disabled confirm button meanwhile, and when
      the parent supplies the emptied list and the request settles the viewer
      closes with both flags cleared. */
  lemma ScenarioOwnerDeletesOnlyPulse(a: Pulse)
    ensures var o := Run(Init([a], 0), [Trash(Some(a.authorId)), Confirm]);
            o.requests == [a] && Render(o.state, Some(a.authorId)).Drawn?
            && Render(o.state, Some(a.authorId)).dialog == Shown(false)
    ensures var o := Run(Init([a], 0), [Trash(Some(a.authorId)), Confirm, Update([]), Settled]);
            o.requests == [a] && !o.state.deleting && !o.state.confirmOpen
            && Render(o.state, Some(a.authorId)) == Close
  {
    var s0 := Init([a], 0);
    var s1 := OpenConfirm(s0, Some(a.authorId));
    var s2 := StartDelete(s1).state;
    var s3 := Reconcile(s2, []);
    var evs := [Trash(Some(a.authorId)), Confirm, Update([]), Settled];
    assert evs[1..] == [Confirm, Update([]), Settled];
    assert evs[1..][1..] == [Update([]), Settled];
    assert evs[1..][1..][1..] == [Settled];
    assert Run(s3, [Settled]).state == CompleteDelete(s3);
    assert Run(s2, [Update([]), Settled]).state == CompleteDelete(s3);
    assert Run(s1, [Confirm, Update([]), Settled]) == Outcome(CompleteDelete(s3), [a]);
    assert [Trash(Some(a.authorId)), Confirm][1..] == [Confirm];
    assert Run(s1, [Confirm]) == Outcome(s2, [a] + []);
    assert Run(s0, [Trash(Some(a.authorId)), Confirm]) == Outcome(s2, [a]);
  }

  /** Ownership is checked only when the dialog is opened. If the identity
      changes afterwards, the dialog stays up with confirm enabled, the trash
      button disappears, and confirm still sends the pulse. */
  lemma DialogOutlivesIdentityChange(a: Pulse, other: Option<string>)
    requires other != Some(a.authorId)
    ensures var s := Run(Init([a], 0), [Trash(Some(a.authorId))]).state;
            && Render(s, other).Drawn?
            && !Render(s, other).trashShown
            && Render(s, other).dialog == Shown(true)
            && Run(s, [Confirm]).requests == [a]
  {
  }

  /** Confirm sends the pulse on screen when it is pressed, which need not be
      the pulse the trash button was pressed on: the arrows still work while
      the dialog is open, and the pulse reached may be one the viewer does not
      own. */
  lemma ConfirmSendsPulseOnScreen(a: Pulse, b: Pulse, u: string)
    requires a.authorId == u && b.authorId != u
    ensures Run(Init([a, b], 0), [Trash(Some(u)), Next, Confirm]).requests == [b]
    ensures !IsOwner(Some(u), b)
  {
    var s1 := OpenConfirm(Init([a, b], 0), Some(u));
    var s2 := GoNext(s1);
    var evs := [Trash(Some(u)), Next, Confirm];
    assert evs[1..] == [Next, Confirm];
    assert evs[1..][1..] == [Confirm];
    assert Run(s2, [Confirm]).requests == [b];
    assert Run(s1, [Next, Confirm]).requests == [b];
  }
}
