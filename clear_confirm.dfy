/**
 * The Clear All button's two-step confirmation: the first click on a
 * non-empty list arms a three-second timer and asks for confirmation, a
 * second click while confirming empties the list, and the timer disarms the
 * button when it fires first.
 */
module ClearConfirm {
  import opened Text

  /** Whether the button shows "Confirm Clear" (the `confirming` class). */
  datatype Phase = Idle | Confirming

  /** A click on the button, or the confirmation timer running out. */
  datatype Event = Click | TimerFires

  /** The stored list, the button's phase, and whether the reset timer is pending. */
  datatype Machine = Machine(urls: seq<string>, phase: Phase, armed: bool)

  /** A reset timer is pending exactly while the button asks for confirmation. */
  predicate Consistent(m: Machine) {
    m.armed <==> m.phase == Confirming
  }

  /**
   * One event. A first click on an empty list only shows a toast; a second
   * click cancels the timer and stores the empty list without looking at
   * the list again; a timer that was cancelled never fires.
   */
  function Next(m: Machine, e: Event): Machine {
    match e
    case Click =>
      if m.phase.Idle? then
        if m.urls == [] then m else Machine(m.urls, Confirming, true)
      else
        Machine([], Idle, false)
    case TimerFires =>
      if m.armed then Machine(m.urls, Idle, false) else m
  }

  /** The toast a click shows, if any. */
  function ClickToast(m: Machine): (msg: Option<string>)
    ensures msg == Some("List cleared") <==> m.phase == Confirming
    ensures msg == Some("List is already empty") <==> m.phase == Idle && m.urls == []
  {
    assert "List cleared"[5] == 'c';
    if m.phase.Confirming? then Some("List cleared")
    else if m.urls == [] then
      assert "List is already empty"[5] == 'i';
      Some("List is already empty")
    else None
  }

  /** Every event keeps the timer and the phase in step. */
  lemma NextConsistent(m: Machine, e: Event)
    requires Consistent(m)
    ensures Consistent(Next(m, e))
  {
  }

  /**
   * Only a click while confirming touches the list, and then it empties it;
   * the list changes exactly when it was not empty already.
   */
  lemma NextUrls(m: Machine, e: Event)
    requires Consistent(m)
    ensures Next(m, e).urls == m.urls || Next(m, e).urls == []
    ensures Next(m, e).urls != m.urls <==> e == Click && m.phase == Confirming && m.urls != []
    ensures Next(m, e).phase == Confirming <==> e == Click && m.phase == Idle && m.urls != []
  {
  }

  /** The events applied in order. */
  function Run(m: Machine, es: seq<Event>): Machine
    decreases |es|
  {
    if es == [] then m else Run(Next(m, es[0]), es[1..])
  }

  predicate TwoClicksInARow(es: seq<Event>) {
    exists k :: 0 <= k < |es| - 1 && es[k] == Click && es[k + 1] == Click
  }

  lemma {:induction false} EmptiedByClick(m: Machine, es: seq<Event>)
    requires Consistent(m) && m.urls != []
    requires Run(m, es).urls == []
    ensures TwoClicksInARow(es) || (m.phase == Confirming && es != [] && es[0] == Click)
    decreases |es|
  {
    if es != [] {
      var m' := Next(m, es[0]);
      NextConsistent(m, es[0]);
      NextUrls(m, es[0]);
      if m'.urls != [] {
        assert Run(m, es) == Run(m', es[1..]);
        EmptiedByClick(m', es[1..]);
        if TwoClicksInARow(es[1..]) {
          var k :| 0 <= k < |es[1..]| - 1 && es[1..][k] == Click && es[1..][k + 1] == Click;
          assert es[k + 1] == Click && es[k + 2] == Click;
        } else {
          assert es[0] == Click && es[1] == Click;
        }
      }
    }
  }

  /** From the resting state, a non-empty list is emptied only by two clicks in a row. */
  lemma ClearNeedsTwoClicks(m: Machine, es: seq<Event>)
    requires Consistent(m) && m.phase == Idle && m.urls != []
    requires Run(m, es).urls == []
    ensures TwoClicksInARow(es)
  {
    EmptiedByClick(m, es);
  }

  /** Two clicks in a row from the resting state empty a non-empty list. */
  lemma TwoClicksClear(m: Machine)
    requires Consistent(m) && m.phase == Idle
    ensures Run(m, [Click, Click]).urls == []
    ensures Run(m, [Click, Click]).phase == Idle
  {
  }

  /** A click that is not confirmed in time leaves the button as it was. */
  lemma TimeoutDisarms(m: Machine)
    requires Consistent(m) && m.phase == Idle
    ensures Next(Next(m, Click), TimerFires) == m
  {
  }
}
