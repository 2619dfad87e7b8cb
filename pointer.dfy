/**
 * The pointer-button flags both accessors keep: each press handler sets its
 * flag and each release handler clears it, and hovering is ignored while any
 * of them is set.
 */
module Pointer {
  import opened Wrappers

  datatype Buttons = Buttons(leftDown: bool, middleDown: bool, rightDown: bool, pinchStart: bool)

  const AllUp := Buttons(false, false, false, false)

  datatype ButtonEvent =
    | LeftDown | LeftUp
    | MiddleDown | MiddleUp
    | RightDown | RightUp
    | PinchStart | PinchEnd

  /** Whether the event presses (rather than releases) its button. */
  predicate Presses(e: ButtonEvent) {
    e.LeftDown? || e.MiddleDown? || e.RightDown? || e.PinchStart?
  }

  /** The flag the handler of `e` writes, read in `b`. */
  function FlagOf(b: Buttons, e: ButtonEvent): bool {
    match e
    case LeftDown | LeftUp => b.leftDown
    case MiddleDown | MiddleUp => b.middleDown
    case RightDown | RightUp => b.rightDown
    case PinchStart | PinchEnd => b.pinchStart
  }

  /** Whether two events' handlers write the same flag. */
  predicate SameFlag(a: ButtonEvent, e: ButtonEvent) {
    match a
    case LeftDown | LeftUp => e.LeftDown? || e.LeftUp?
    case MiddleDown | MiddleUp => e.MiddleDown? || e.MiddleUp?
    case RightDown | RightUp => e.RightDown? || e.RightUp?
    case PinchStart | PinchEnd => e.PinchStart? || e.PinchEnd?
  }

  /** `_leftDown || _middleDown || _rightDown || _pinchStart` */
  predicate AnyDown(b: Buttons) {
    b.leftDown || b.middleDown || b.rightDown || b.pinchStart
  }

  /**
   * The flags after one handler ran: the handler's own flag is set by a press
   * and cleared by a release, and every other flag keeps its value.
   */
  function After(b: Buttons, e: ButtonEvent): (r: Buttons)
    ensures FlagOf(r, e) == Presses(e)
    ensures forall o :: !SameFlag(o, e) ==> FlagOf(r, o) == FlagOf(b, o)
    ensures Presses(e) ==> AnyDown(r)
  {
    match e
    case LeftDown | LeftUp => b.(leftDown := e.LeftDown?)
    case MiddleDown | MiddleUp => b.(middleDown := e.MiddleDown?)
    case RightDown | RightUp => b.(rightDown := e.RightDown?)
    case PinchStart | PinchEnd => b.(pinchStart := e.PinchStart?)
  }

  /** The flags after the handlers of `events` ran in order. */
  function Replay(b: Buttons, events: seq<ButtonEvent>): Buttons
    decreases |events|
  {
    if events == [] then b else After(Replay(b, events[..|events| - 1]), events[|events| - 1])
  }

  /**
   * Once a button is pressed, hovering stays ignored until an event on that
   * same button arrives: events on other buttons never clear its flag.
   */
  lemma {:induction false} PressedUntilReleased(b: Buttons, press: ButtonEvent, events: seq<ButtonEvent>)
    requires Presses(press)
    requires forall i :: 0 <= i < |events| ==> !SameFlag(events[i], press)
    ensures FlagOf(Replay(b, [press] + events), press)
    ensures AnyDown(Replay(b, [press] + events))
    decreases |events|
  {
    if events == [] {
      assert Replay(b, [press]) == After(Replay(b, []), press) by {
        assert [press][..0] == [];
      }
    } else {
      var n := |events|;
      assert ([press] + events)[..n] == [press] + events[..n - 1];
      PressedUntilReleased(b, press, events[..n - 1]);
    }
  }

  /** The last event among `events` whose handler writes the flag `e` writes, if any. */
  function LastOn(events: seq<ButtonEvent>, e: ButtonEvent): (r: Option<ButtonEvent>)
    ensures r.Some? ==> SameFlag(r.value, e) && r.value in events
    ensures r.None? <==> forall i :: 0 <= i < |events| ==> !SameFlag(events[i], e)
    decreases |events|
  {
    if events == [] then None
    else if SameFlag(events[|events| - 1], e) then Some(events[|events| - 1])
    else
      var r := LastOn(events[..|events| - 1], e);
      assert forall i :: 0 <= i < |events| - 1 ==> events[..|events| - 1][i] == events[i];
      r
  }

  /** Two events that write the same flag read it the same way. */
  lemma SameFlagReadsSame(b: Buttons, a: ButtonEvent, e: ButtonEvent)
    requires SameFlag(a, e)
    ensures SameFlag(e, a) && FlagOf(b, a) == FlagOf(b, e)
  {
  }

  /**
   * Each flag is what the last event on its button made it: set by a press,
   * cleared by a release, and as it started when no event touched it.
   */
  lemma {:induction false} FlagIsLastOn(b: Buttons, events: seq<ButtonEvent>, e: ButtonEvent)
    ensures FlagOf(Replay(b, events), e) == match LastOn(events, e) case Some(last) => Presses(last) case None => FlagOf(b, e)
    decreases |events|
  {
    if events != [] {
      var n := |events| - 1;
      var last := events[n];
      FlagIsLastOn(b, events[..n], e);
      var r := Replay(b, events[..n]);
      if SameFlag(last, e) {
        SameFlagReadsSame(After(r, last), last, e);
      } else {
        assert !SameFlag(e, last) by {
          if SameFlag(e, last) {
            SameFlagReadsSame(b, e, last);
          }
        }
      }
    }
  }

  /** Whether the last event on `e`'s button releases it. */
  predicate ReleasedLast(events: seq<ButtonEvent>, e: ButtonEvent) {
    LastOn(events, e).Some? && !Presses(LastOn(events, e).value)
  }

  /**
   * Once every button's last event is a release, in whatever order, no flag
   * is set, whatever came before.
   */
  lemma ReleasingAllClears(b: Buttons, events: seq<ButtonEvent>)
    requires forall e :: ReleasedLast(events, e)
    ensures !AnyDown(Replay(b, events))
  {
    assert ReleasedLast(events, LeftUp) && ReleasedLast(events, MiddleUp);
    assert ReleasedLast(events, RightUp) && ReleasedLast(events, PinchEnd);
    FlagIsLastOn(b, events, LeftUp);
    FlagIsLastOn(b, events, MiddleUp);
    FlagIsLastOn(b, events, RightUp);
    FlagIsLastOn(b, events, PinchEnd);
  }
}
