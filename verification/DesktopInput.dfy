/** Native desktop input: which events an action emits, in which order, and what is left held when
    it ends early. Guards, authorization, deadlines and the input calls themselves may all fail at
    any point, and the session may be stopped between any two operations. */
module DesktopInput {
  import opened DesktopSession
  import opened Wrappers

  datatype Point = Point(x: int, y: int)

  datatype Button = LeftButton | RightButton | MiddleButton

  datatype Axis = Horizontal | Vertical

  datatype Event =
    | Activate
    | MoveTo(at: Point)
    | ButtonDown(button: Button)
    | ButtonUp(button: Button)
    | KeyDown(code: nat)
    | KeyUp(code: nat)
    | Unicode(unit: nat)
    | Wheel(axis: Axis, up: bool)

  datatype Action =
    | Click(at: Point, button: Button, clicks: int)
    | Type(units: seq<nat>)
    | Shortcut(codes: seq<nat>)
    | Scroll(at: Point, dx: int, dy: int)
    | Drag(from: Point, to: Point)

  datatype Outcome = Outcome(ok: bool, accepted: bool)

  predicate IsRelease(e: Event) {
    e.ButtonUp? || e.KeyUp?
  }

  // ---------------------------------------------------------------- what is held

  datatype Held = HeldButton(button: Button) | HeldKey(code: nat)

  function After(held: set<Held>, e: Event): set<Held> {
    match e
    case ButtonDown(b) => held + {HeldButton(b)}
    case ButtonUp(b) => held - {HeldButton(b)}
    case KeyDown(c) => held + {HeldKey(c)}
    case KeyUp(c) => held - {HeldKey(c)}
    case _ => held
  }

  /** Buttons and keys down after a trace of events. */
  function HeldAfter(trace: seq<Event>): set<Held> {
    if trace == [] then {} else After(HeldAfter(trace[..|trace| - 1]), trace[|trace| - 1])
  }

  // ---------------------------------------------------------------- what an action emits

  function Repeat(e: Event, n: nat): (r: seq<Event>)
    ensures |r| == n && forall i | 0 <= i < n :: r[i] == e
  {
    seq(n, i => e)
  }

  function Abs(n: int): nat {
    if n < 0 then -n else n
  }

  /** Twelfths, rounded to the nearest integer, halves to the even one. */
  function RoundTwelfths(n: int): (r: int)
    ensures -6 <= 12 * r - n <= 6
    ensures 12 * r - n == 6 || 12 * r - n == -6 ==> r % 2 == 0
  {
    var whole, rest := n / 12, n % 12;
    if rest < 6 || (rest == 6 && whole % 2 == 0) then whole else whole + 1
  }

  const DRAG_STEPS: nat := 12

  function DragPosition(from: Point, to: Point, step: nat): Point {
    Point(RoundTwelfths(12 * from.x + (to.x - from.x) * step), RoundTwelfths(12 * from.y + (to.y - from.y) * step))
  }

  function DragMoves(from: Point, to: Point, n: nat): (r: seq<Event>)
    ensures |r| == n && forall i | 0 <= i < n :: r[i] == MoveTo(DragPosition(from, to, i + 1))
  {
    seq(n, i requires 0 <= i => MoveTo(DragPosition(from, to, i + 1)))
  }

  function Clicks(at: Point, button: Button, n: nat): seq<Event> {
    if n == 0 then [] else Clicks(at, button, n - 1) + [MoveTo(at), ButtonDown(button), ButtonUp(button)]
  }

  function Chars(units: seq<nat>): (r: seq<Event>)
    ensures |r| == |units| && forall i | 0 <= i < |r| :: r[i] == Unicode(units[i])
  {
    seq(|units|, i requires 0 <= i < |units| => Unicode(units[i]))
  }

  function Downs(codes: seq<nat>): (r: seq<Event>)
    ensures |r| == |codes| && forall i | 0 <= i < |r| :: r[i] == KeyDown(codes[i])
  {
    seq(|codes|, i requires 0 <= i < |codes| => KeyDown(codes[i]))
  }

  /** Releases in reverse order of pressing. */
  function Ups(codes: seq<nat>): (r: seq<Event>)
    ensures |r| == |codes| && forall i | 0 <= i < |r| :: r[i] == KeyUp(codes[|codes| - 1 - i])
  {
    seq(|codes|, i requires 0 <= i < |codes| => KeyUp(codes[|codes| - 1 - i]))
  }

  function WheelSteps(dx: int, dy: int): seq<Event> {
    Repeat(Wheel(Horizontal, dx > 0), Abs(dx)) + Repeat(Wheel(Vertical, dy > 0), Abs(dy))
  }

  /** What the wheel turns along one axis, in steps. */
  function Turned(events: seq<Event>, axis: Axis): int {
    if events == [] then 0
    else
      var last := events[|events| - 1];
      Turned(events[..|events| - 1], axis)
      + if last.Wheel? && last.axis == axis then (if last.up then 1 else -1) else 0
  }

  lemma {:induction false} TurnedConcat(a: seq<Event>, b: seq<Event>, axis: Axis)
    ensures Turned(a + b, axis) == Turned(a, axis) + Turned(b, axis)
  {
    if b == [] {
      assert a + b == a;
    } else {
      var n := |b| - 1;
      TurnedConcat(a, b[..n], axis);
      assert (a + b)[..|a| + n] == a + b[..n];
    }
  }

  lemma {:induction false} TurnedRepeat(e: Event, n: nat, axis: Axis)
    requires e.Wheel?
    ensures Turned(Repeat(e, n), axis) == if e.axis != axis then 0 else if e.up then n else -(n as int)
  {
    if n > 0 {
      TurnedRepeat(e, n - 1, axis);
      assert Repeat(e, n)[..n - 1] == Repeat(e, n - 1);
    }
  }

  /** Scrolling turns the wheel by exactly the steps asked for, one at a time, and horizontally before
      vertically. */
  lemma WheelTurns(dx: int, dy: int)
    ensures Turned(WheelSteps(dx, dy), Horizontal) == dx && Turned(WheelSteps(dx, dy), Vertical) == dy
    ensures |WheelSteps(dx, dy)| == Abs(dx) + Abs(dy) && forall e <- WheelSteps(dx, dy) :: e.Wheel?
    ensures forall i, j | 0 <= i < j < |WheelSteps(dx, dy)| ::
              WheelSteps(dx, dy)[i].axis == Vertical ==> WheelSteps(dx, dy)[j].axis == Vertical
  {
    var across, down := Wheel(Horizontal, dx > 0), Wheel(Vertical, dy > 0);
    forall axis: Axis ensures Turned(WheelSteps(dx, dy), axis) == if axis == Horizontal then dx else dy {
      TurnedConcat(Repeat(across, Abs(dx)), Repeat(down, Abs(dy)), axis);
      TurnedRepeat(across, Abs(dx), axis);
      TurnedRepeat(down, Abs(dy), axis);
    }
  }

  /** The complete event sequence of a successful action, after a possible activation. */
  function Script(a: Action): seq<Event> {
    match a
    case Click(at, button, clicks) => Clicks(at, button, if clicks < 0 then 0 else clicks)
    case Type(units) => Chars(units)
    case Shortcut(codes) => Downs(codes) + Ups(codes)
    case Scroll(at, dx, dy) => [MoveTo(at)] + WheelSteps(dx, dy)
    case Drag(from, to) => DragScript(from, to, DRAG_STEPS)
  }

  /** The events of a trace other than releases. */
  function Inputs(trace: seq<Event>): seq<Event> {
    if trace == [] then []
    else
      var last := trace[|trace| - 1];
      Inputs(trace[..|trace| - 1]) + if IsRelease(last) then [] else [last]
  }

  predicate IsModifier(code: nat) {
    code == 16 || code == 17 || code == 18
  }

  /** The checks made before any side effect. */
  predicate Acceptable(a: Action) {
    match a
    case Click(_, _, clicks) => 1 <= clicks <= 2
    case Type(units) => |units| <= 2 * 8192 && forall u <- units :: 0 < u < 0x10000
    case Shortcut(codes) =>
      && 1 <= |codes| <= 4
      && (forall i, j | 0 <= i < j < |codes| :: codes[i] != codes[j])
      && !IsModifier(codes[|codes| - 1])
      && (forall i | 0 <= i < |codes| - 1 :: IsModifier(codes[i]))
    case Scroll(_, dx, dy) => -20 <= dx <= 20 && -20 <= dy <= 20
    case Drag(_, _) => true
  }

  // ---------------------------------------------------------------- the device

  class Device {
    var trace: seq<Event>
    ghost var late: nat            // input emitted while its action was not allowed any more
    ghost var refusals: nat        // checks, authorizations, deadlines and calls that failed

    constructor ()
      ensures trace == [] && late == 0 && refusals == 0
    {
      trace, late, refusals := [], 0, 0;
    }

    /** One input call of an action begun under `epoch`; a failed call may have taken effect. */
    method Emit(session: Session, epoch: nat, e: Event) returns (ok: bool)
      requires !IsRelease(e)
      modifies this
      ensures trace == old(trace) + [e] || (!ok && trace == old(trace))
      ensures trace == old(trace) ==> late == old(late)
      ensures late == old(late) + if trace != old(trace) && !session.Allowed(epoch) then 1 else 0
      ensures refusals == old(refusals) + if ok then 0 else 1
    {
      ok := *;
      refusals := refusals + if ok then 0 else 1;
      var effect: bool := *;
      if ok || effect {
        assert (trace + [e])[|trace|] == e;
        ghost var allowed := session.Allowed(epoch);
        trace := trace + [e];
        late := late + if allowed then 0 else 1;
      }
    }

    /** A release call; releases are assumed to succeed. */
    method Release(e: Event)
      requires IsRelease(e)
      modifies this
      ensures trace == old(trace) + [e] && late == old(late) && refusals == old(refusals)
    {
      trace := trace + [e];
    }
  }

  /** At most one input event came late, and if one did the action is allowed no more. */
  ghost predicate Punctual(session: Session, device: Device, epoch: nat)
    reads session, device
  {
    session.Valid() && device.late <= 1 && (device.late == 1 ==> !session.Allowed(epoch))
  }

  /** What was not done was refused by something. */
  twostate predicate Explained(device: Device, ok: bool)
    reads device
  {
    device.refusals >= old(device.refusals) && (!ok ==> device.refusals > old(device.refusals))
  }

  /** Any of the checks on windows, layout, focus, hit target and deadline. */
  method Guard(session: Session, device: Device, epoch: nat) returns (ok: bool)
    requires Punctual(session, device, epoch)
    modifies session, device`refusals
    ensures Punctual(session, device, epoch) && Explained(device, ok)
    ensures session.Allowed(epoch) ==> old(session.Allowed(epoch))
  {
    session.Interfere();
    ok := *;
    device.refusals := device.refusals + if ok then 0 else 1;
  }

  /** The authorization before an input, and after the last one. */
  method Authorized(session: Session, device: Device, epoch: nat) returns (ok: bool)
    requires Punctual(session, device, epoch)
    modifies session, device`refusals
    ensures Punctual(session, device, epoch) && Explained(device, ok)
    ensures ok ==> session.Allowed(epoch)
  {
    session.Interfere();
    var r := session.Authorize(epoch, false);
    ok := r == Granted;
    device.refusals := device.refusals + if ok then 0 else 1;
  }

  /** Authorize, then emit: the only way an action emits input. */
  method Input(session: Session, device: Device, epoch: nat, e: Event) returns (ok: bool, accepted: bool)
    requires Punctual(session, device, epoch) && !IsRelease(e)
    modifies session, device
    ensures Punctual(session, device, epoch) && Explained(device, ok)
    ensures device.trace == old(device.trace) + [e] || (!ok && device.trace == old(device.trace))
    ensures !accepted ==> device.trace == old(device.trace)
    ensures ok ==> accepted
  {
    accepted := Authorized(session, device, epoch);
    if !accepted {
      return false, false;
    }
    assert session.Allowed(epoch) && device.late == 0;
    session.Interfere();
    ok := device.Emit(session, epoch, e);
  }

  // ---------------------------------------------------------------- traces and scripts

  lemma InputsStep(trace: seq<Event>, e: Event)
    ensures Inputs(trace + [e]) == Inputs(trace) + if IsRelease(e) then [] else [e]
  {
    assert (trace + [e])[..|trace|] == trace;
  }

  lemma SplitLast<T>(a: seq<T>, b: seq<T>)
    requires b != []
    ensures a + b == a + b[..|b| - 1] + [b[|b| - 1]] && b == b[..|b| - 1] + [b[|b| - 1]]
  {
  }

  lemma {:induction false} InputsConcat(a: seq<Event>, b: seq<Event>)
    ensures Inputs(a + b) == Inputs(a) + Inputs(b)
  {
    if b == [] {
      assert a + b == a;
    } else {
      var n := |b| - 1;
      InputsConcat(a, b[..n]);
      InputsStep(a + b[..n], b[n]);
      InputsStep(b[..n], b[n]);
      SplitLast(a, b);
    }
  }

  /** What happened since `before`: no input but a beginning of the script, the whole script with
      its releases if the action succeeded, and nothing left held. */
  ghost predicate Follows(before: seq<Event>, after: seq<Event>, script: seq<Event>, ok: bool) {
    && before <= after
    && Inputs(after[|before|..]) <= Inputs(script)
    && (ok ==> after == before + script)
    && (HeldAfter(before) == {} ==> HeldAfter(after) == {})
  }

  /** Some events were emitted and the action ended early. */
  lemma EndsEarly(before: seq<Event>, events: seq<Event>, script: seq<Event>)
    requires Inputs(events) <= Inputs(script)
    requires HeldAfter(before) == {} ==> HeldAfter(before + events) == {}
    ensures Follows(before, before + events, script, false)
  {
    TailOf(before, events);
  }

  lemma TailOf<T>(a: seq<T>, b: seq<T>)
    ensures a <= a + b && (a + b)[|a|..] == b
  {
  }

  lemma Completes(before: seq<Event>, script: seq<Event>)
    requires HeldAfter(before) == {} ==> HeldAfter(before + script) == {}
    ensures Follows(before, before + script, script, true)
  {
    assert (before + script)[|before|..] == script;
  }

  lemma HeldStep(trace: seq<Event>, e: Event)
    ensures HeldAfter(trace + [e]) == After(HeldAfter(trace), e)
  {
    assert (trace + [e])[..|trace|] == trace;
  }

  predicate HoldsNothing(e: Event) {
    e.Activate? || e.MoveTo? || e.Unicode? || e.Wheel?
  }

  lemma {:induction false} HeldUnchanged(trace: seq<Event>, more: seq<Event>)
    requires forall e <- more :: HoldsNothing(e)
    ensures HeldAfter(trace + more) == HeldAfter(trace)
  {
    if more == [] {
      assert trace + more == trace;
    } else {
      var n := |more| - 1;
      HeldUnchanged(trace, more[..n]);
      SplitLast(trace, more);
      HeldStep(trace + more[..n], more[n]);
      assert more[n] in more;
    }
  }

  /** Emitting a beginning of some harmless events. */
  lemma PartOfHarmless(before: seq<Event>, part: seq<Event>, script: seq<Event>)
    requires part <= script && forall e <- script :: HoldsNothing(e)
    ensures Follows(before, before + part, script, false)
  {
    HarmlessInputs(script);
    assert forall e <- part :: e in script;
    HarmlessInputs(part);
    HeldUnchanged(before, part);
    EndsEarly(before, part, script);
  }

  lemma {:induction false} HarmlessInputs(trace: seq<Event>)
    requires forall e <- trace :: HoldsNothing(e)
    ensures Inputs(trace) == trace
  {
    if trace != [] {
      var n := |trace| - 1;
      HarmlessInputs(trace[..n]);
      InputsStep(trace[..n], trace[n]);
      assert trace == trace[..n] + [trace[n]] && trace[n] in trace;
    }
  }

  // ---------------------------------------------------------------- how an action may end

  /** The ways a single click may end. */
  predicate ClickPart(part: seq<Event>, at: Point, button: Button) {
    || part == [] || part == [MoveTo(at)] || part == [MoveTo(at), ButtonUp(button)]
    || part == [MoveTo(at), ButtonDown(button), ButtonUp(button)]
  }

  /** Some whole clicks and a part of one more. */
  ghost predicate ClickedSome(events: seq<Event>, at: Point, button: Button, n: nat) {
    exists i: nat, part | i < n && ClickPart(part, at, button) :: events == Clicks(at, button, i) + part
  }

  /** The first `down` keys go down, and then the first `tried` keys come up in reverse order: as many
      as went down, or one more whose press failed. */
  function Shortened(codes: seq<nat>, down: nat, tried: nat): seq<Event>
    requires down <= tried <= |codes|
  {
    Downs(codes[..down]) + Ups(codes[..tried])
  }

  ghost predicate KeysReleased(events: seq<Event>, codes: seq<nat>, ok: bool) {
    exists down: nat, tried: nat | down <= tried <= |codes| && tried <= down + 1 ::
      events == Shortened(codes, down, tried) && (ok ==> down == |codes|)
  }

  /** A drag that ends before its button is down. */
  predicate NotDragged(events: seq<Event>, from: Point) {
    events == [] || events == [MoveTo(from)] || events == [MoveTo(from), ButtonUp(LeftButton)]
  }

  /** A drag that is released after some of its positions, all of them if it succeeds. */
  ghost predicate Dragged(events: seq<Event>, from: Point, to: Point, ok: bool) {
    exists n: nat | n <= DRAG_STEPS :: events == DragScript(from, to, n) && (ok ==> n == DRAG_STEPS)
  }

  /** Exactly which events an action may have emitted when it ends, releases included. */
  ghost predicate Emits(a: Action, events: seq<Event>, ok: bool)
    requires Acceptable(a)
  {
    match a
    case Click(at, button, clicks) => if ok then events == Script(a) else ClickedSome(events, at, button, clicks)
    case Shortcut(codes) => KeysReleased(events, codes, ok)
    case Drag(from, to) => (!ok && NotDragged(events, from)) || Dragged(events, from, to, ok)
    case _ => if ok then events == Script(a) else events <= Script(a)
  }

  /** However an action ends, what it emitted is a beginning of its script as far as input goes, the
      whole script if it succeeded, and leaves nothing held. */
  lemma EmitsFollows(a: Action, before: seq<Event>, events: seq<Event>, ok: bool)
    requires Acceptable(a) && Emits(a, events, ok)
    ensures Follows(before, before + events, Script(a), ok)
  {
    match a
    case Click(at, button, clicks) => ClickFollows(before, events, at, button, clicks, ok);
    case Shortcut(codes) => ShortcutFollows(before, events, codes, ok);
    case Drag(from, to) => DragFollows(before, events, from, to, ok);
    case Type(units) => HarmlessFollows(before, events, Chars(units), ok);
    case Scroll(at, dx, dy) => HarmlessFollows(before, events, [MoveTo(at)] + WheelSteps(dx, dy), ok);
  }

  lemma HarmlessFollows(before: seq<Event>, events: seq<Event>, script: seq<Event>, ok: bool)
    requires forall e <- script :: HoldsNothing(e)
    requires if ok then events == script else events <= script
    ensures Follows(before, before + events, script, ok)
  {
    if ok {
      HeldUnchanged(before, script);
      Completes(before, script);
    } else {
      PartOfHarmless(before, events, script);
    }
  }

  lemma ShortcutFollows(before: seq<Event>, events: seq<Event>, codes: seq<nat>, ok: bool)
    requires KeysReleased(events, codes, ok)
    ensures Follows(before, before + events, Downs(codes) + Ups(codes), ok)
  {
    var down: nat, tried: nat :| down <= tried <= |codes| && tried <= down + 1
                                 && events == Shortened(codes, down, tried) && (ok ==> down == |codes|);
    ShortcutEnds(before, codes, down, tried);
  }

  lemma ClickFollows(before: seq<Event>, events: seq<Event>, at: Point, button: Button, n: nat, ok: bool)
    requires if ok then events == Clicks(at, button, n) else ClickedSome(events, at, button, n)
    ensures Follows(before, before + events, Clicks(at, button, n), ok)
  {
    if ok {
      if HeldAfter(before) == {} {
        ClicksHeld(before, at, button, n);
      }
      Completes(before, Clicks(at, button, n));
    } else {
      var i: nat, part :| i < n && ClickPart(part, at, button) && events == Clicks(at, button, i) + part;
      ClickEnds(before, at, button, i, n, part);
      assert before + events == before + Clicks(at, button, i) + part;
    }
  }

  lemma DragFollows(before: seq<Event>, events: seq<Event>, from: Point, to: Point, ok: bool)
    requires (!ok && NotDragged(events, from)) || Dragged(events, from, to, ok)
    ensures Follows(before, before + events, DragScript(from, to, DRAG_STEPS), ok)
  {
    if Dragged(events, from, to, ok) {
      var n: nat :| n <= DRAG_STEPS && events == DragScript(from, to, n) && (ok ==> n == DRAG_STEPS);
      DragReleased(before, from, to, n);
    } else {
      DragNotBegun(before, from, to, events);
    }
  }

  // ---------------------------------------------------------------- the five actions

  /** A series of input events, each guarded and authorized: typing and wheel steps. */
  method EmitAll(session: Session, device: Device, epoch: nat, events: seq<Event>)
    returns (ok: bool, accepted: bool, ghost n: nat)
    requires Punctual(session, device, epoch) && forall e <- events :: !IsRelease(e)
    modifies session, device
    ensures Punctual(session, device, epoch) && Explained(device, ok)
    ensures n <= |events| && device.trace == old(device.trace) + events[..n]
    ensures ok ==> n == |events|
    ensures !accepted ==> n == 0
  {
    ghost var before := device.trace;
    accepted, n := false, 0;
    assert before + events[..0] == before;
    for i := 0 to |events|
      invariant Punctual(session, device, epoch) && device.refusals >= old(device.refusals)
      invariant n == i && device.trace == before + events[..i]
      invariant !accepted ==> i == 0
    {
      var guarded := Guard(session, device, epoch);
      if !guarded {
        return false, accepted, n;
      }
      assert before + events[..i + 1] == before + events[..i] + [events[i]] && events[i] in events;
      var emitted, taken := Input(session, device, epoch, events[i]);
      accepted := accepted || taken;
      n := if device.trace == before + events[..i] then i else i + 1;
      if !emitted {
        return false, accepted, n;
      }
      n := i + 1;
    }
    return true, accepted, n;
  }

  /** One press of a button with its release, which follows whatever fails after the press. */
  method PressAndRelease(session: Session, device: Device, epoch: nat, button: Button)
    returns (ok: bool, accepted: bool)
    requires Punctual(session, device, epoch)
    modifies session, device
    ensures Punctual(session, device, epoch) && Explained(device, ok)
    ensures || device.trace == old(device.trace)
            || device.trace == old(device.trace) + [ButtonUp(button)]
            || device.trace == old(device.trace) + [ButtonDown(button), ButtonUp(button)]
    ensures ok ==> device.trace == old(device.trace) + [ButtonDown(button), ButtonUp(button)]
    ensures !accepted ==> device.trace == old(device.trace)
  {
    ghost var before := device.trace;
    ok := Authorized(session, device, epoch);
    if !ok {
      return false, false;
    }
    session.Interfere();
    ok := device.Emit(session, epoch, ButtonDown(button));
    if ok {
      ok := Guard(session, device, epoch);
    }
    if ok {
      ok := Authorized(session, device, epoch);
    }
    device.Release(ButtonUp(button));
    return ok, true;
  }

  lemma ClickHeld(trace: seq<Event>, at: Point, button: Button)
    requires HeldAfter(trace) == {}
    ensures HeldAfter(trace + [MoveTo(at)]) == {}
    ensures HeldAfter(trace + [MoveTo(at), ButtonUp(button)]) == {}
    ensures HeldAfter(trace + [MoveTo(at), ButtonDown(button), ButtonUp(button)]) == {}
  {
    var moved := trace + [MoveTo(at)];
    HeldStep(trace, MoveTo(at));
    HeldStep(moved, ButtonUp(button));
    HeldStep(moved, ButtonDown(button));
    HeldStep(moved + [ButtonDown(button)], ButtonUp(button));
    assert trace + [MoveTo(at), ButtonUp(button)] == moved + [ButtonUp(button)];
    assert trace + [MoveTo(at), ButtonDown(button), ButtonUp(button)]
        == moved + [ButtonDown(button)] + [ButtonUp(button)];
  }

  lemma {:induction false} ClicksHeld(trace: seq<Event>, at: Point, button: Button, n: nat)
    requires HeldAfter(trace) == {}
    ensures HeldAfter(trace + Clicks(at, button, n)) == {}
  {
    if n == 0 {
      assert trace + [] == trace;
    } else {
      ClicksHeld(trace, at, button, n - 1);
      ClickHeld(trace + Clicks(at, button, n - 1), at, button);
      assert trace + Clicks(at, button, n)
          == trace + Clicks(at, button, n - 1) + [MoveTo(at), ButtonDown(button), ButtonUp(button)];
    }
  }

  lemma {:induction false} ClicksExtend(at: Point, button: Button, i: nat, n: nat)
    requires i < n
    ensures Inputs(Clicks(at, button, i)) + [MoveTo(at), ButtonDown(button)] <= Inputs(Clicks(at, button, n))
    decreases n
  {
    var one := [MoveTo(at), ButtonDown(button), ButtonUp(button)];
    InputsConcat(Clicks(at, button, n - 1), one);
    assert one[..2] == [MoveTo(at), ButtonDown(button)] && one[..2][..1] == [MoveTo(at)] && one[..1][..0] == [];
    assert Inputs([MoveTo(at)]) == [MoveTo(at)] && Inputs(one[..2]) == one[..2] && Inputs(one) == one[..2];
    if i < n - 1 {
      ClicksExtend(at, button, i, n - 1);
    }
  }

  lemma InputsOfClickPart(at: Point, button: Button)
    ensures Inputs([]) == []
    ensures Inputs([MoveTo(at)]) == [MoveTo(at)] == Inputs([MoveTo(at), ButtonUp(button)])
    ensures Inputs([MoveTo(at), ButtonDown(button), ButtonUp(button)]) == [MoveTo(at), ButtonDown(button)]
  {
    var one, two := [MoveTo(at), ButtonUp(button)], [MoveTo(at), ButtonDown(button), ButtonUp(button)];
    assert [MoveTo(at)][..0] == [] && one[..1] == [MoveTo(at)];
    assert two[..2] == [MoveTo(at), ButtonDown(button)] && two[..2][..1] == [MoveTo(at)];
  }

  lemma ClickPartHeld(trace: seq<Event>, at: Point, button: Button, part: seq<Event>)
    requires ClickPart(part, at, button) && HeldAfter(trace) == {}
    ensures HeldAfter(trace + part) == {}
  {
    ClickHeld(trace, at, button);
    assert trace + [] == trace;
  }

  lemma ClickPartInputs(at: Point, button: Button, i: nat, n: nat, part: seq<Event>)
    requires i < n && ClickPart(part, at, button)
    ensures Inputs(Clicks(at, button, i) + part) <= Inputs(Clicks(at, button, n))
  {
    ClicksExtend(at, button, i, n);
    InputsOfClickPart(at, button);
    InputsConcat(Clicks(at, button, i), part);
    assert Inputs(part) <= [MoveTo(at), ButtonDown(button)];
  }

  lemma ClickEnds(before: seq<Event>, at: Point, button: Button, i: nat, n: nat, part: seq<Event>)
    requires i < n && ClickPart(part, at, button)
    ensures Follows(before, before + Clicks(at, button, i) + part, Clicks(at, button, n), false)
  {
    assert before + (Clicks(at, button, i) + part) == before + Clicks(at, button, i) + part;
    if HeldAfter(before) == {} {
      ClicksHeld(before, at, button, i);
      ClickPartHeld(before + Clicks(at, button, i), at, button, part);
    }
    ClickPartInputs(at, button, i, n, part);
    EndsEarly(before, Clicks(at, button, i) + part, Clicks(at, button, n));
  }

  /** One click: checks, a move, checks, and a press with its release. */
  method ClickOnce(session: Session, device: Device, epoch: nat, at: Point, button: Button)
    returns (ok: bool, accepted: bool, ghost part: seq<Event>)
    requires Punctual(session, device, epoch)
    modifies session, device
    ensures Punctual(session, device, epoch) && Explained(device, ok)
    ensures device.trace == old(device.trace) + part && ClickPart(part, at, button)
    ensures ok ==> part == [MoveTo(at), ButtonDown(button), ButtonUp(button)]
    ensures !accepted ==> part == []
  {
    ghost var before := device.trace;
    part := [];
    assert before + [] == before;
    var guarded := Guard(session, device, epoch);
    if !guarded {
      return false, false, part;
    }
    ok, accepted := Input(session, device, epoch, MoveTo(at));
    part := if device.trace == before then [] else [MoveTo(at)];
    if !ok {
      return;
    }
    guarded := Guard(session, device, epoch);
    if !guarded {
      return false, accepted, part;
    }
    assert device.trace + [ButtonUp(button)] == before + [MoveTo(at), ButtonUp(button)];
    assert device.trace + [ButtonDown(button), ButtonUp(button)]
        == before + [MoveTo(at), ButtonDown(button), ButtonUp(button)];
    ghost var moved := device.trace;
    var pressed;
    ok, pressed := PressAndRelease(session, device, epoch, button);
    part := if device.trace == moved then [MoveTo(at)]
            else if device.trace == moved + [ButtonUp(button)] then [MoveTo(at), ButtonUp(button)]
            else [MoveTo(at), ButtonDown(button), ButtonUp(button)];
  }

  method PerformClick(session: Session, device: Device, epoch: nat, at: Point, button: Button, clicks: nat)
    returns (ok: bool, accepted: bool, ghost events: seq<Event>)
    requires Punctual(session, device, epoch)
    modifies session, device
    ensures Punctual(session, device, epoch) && Explained(device, ok)
    ensures device.trace == old(device.trace) + events
    ensures if ok then events == Clicks(at, button, clicks) else ClickedSome(events, at, button, clicks)
    ensures !accepted ==> device.trace == old(device.trace)
  {
    ghost var before := device.trace;
    accepted, events := false, [];
    assert before + [] == before;
    for i := 0 to clicks
      invariant Punctual(session, device, epoch) && device.refusals >= old(device.refusals)
      invariant device.trace == before + events && events == Clicks(at, button, i)
      invariant !accepted ==> i == 0
    {
      ghost var part;
      var taken;
      ok, taken, part := ClickOnce(session, device, epoch, at, button);
      accepted := accepted || taken;
      assert before + events + part == before + (events + part);
      events := events + part;
      if !ok {
        assert ClickedSome(events, at, button, clicks);
        return;
      }
    }
    ok := true;
  }

  // ---------------------------------------------------------------- shortcuts

  function Keys(codes: seq<nat>): set<Held> {
    set c <- codes :: HeldKey(c)
  }

  lemma {:induction false} DownsHeld(trace: seq<Event>, codes: seq<nat>)
    ensures HeldAfter(trace + Downs(codes)) == HeldAfter(trace) + Keys(codes)
  {
    if codes == [] {
      assert trace + Downs(codes) == trace;
    } else {
      var n := |codes| - 1;
      DownsHeld(trace, codes[..n]);
      SplitLast(trace, Downs(codes));
      assert Downs(codes)[..n] == Downs(codes[..n]);
      HeldStep(trace + Downs(codes[..n]), KeyDown(codes[n]));
      assert Keys(codes) == Keys(codes[..n]) + {HeldKey(codes[n])};
    }
  }

  lemma UpsSplit(trace: seq<Event>, codes: seq<nat>)
    requires codes != []
    ensures trace + Ups(codes) == trace + Ups(codes[1..]) + [KeyUp(codes[0])]
  {
    assert Ups(codes) == Ups(codes[1..]) + [KeyUp(codes[0])];
  }

  lemma {:induction false} UpsHeld(trace: seq<Event>, codes: seq<nat>)
    ensures HeldAfter(trace + Ups(codes)) == HeldAfter(trace) - Keys(codes)
  {
    if codes == [] {
      assert trace + Ups(codes) == trace;
    } else {
      UpsHeld(trace, codes[1..]);
      UpsSplit(trace, codes);
      HeldStep(trace + Ups(codes[1..]), KeyUp(codes[0]));
      assert Keys(codes) == Keys(codes[1..]) + {HeldKey(codes[0])} by {
        assert codes == [codes[0]] + codes[1..];
      }
    }
  }

  lemma {:induction false} InputsOfDowns(codes: seq<nat>)
    ensures Inputs(Downs(codes)) == Downs(codes)
  {
    if codes != [] {
      var n := |codes| - 1;
      InputsOfDowns(codes[..n]);
      InputsStep(Downs(codes[..n]), KeyDown(codes[n]));
      assert Downs(codes) == Downs(codes[..n]) + [KeyDown(codes[n])];
    }
  }

  lemma {:induction false} InputsOfUps(codes: seq<nat>)
    ensures Inputs(Ups(codes)) == []
  {
    if codes != [] {
      InputsOfUps(codes[1..]);
      InputsStep(Ups(codes[1..]), KeyUp(codes[0]));
      assert Ups(codes) == Ups(codes[1..]) + [KeyUp(codes[0])];
    }
  }

  /** However many keys went down, releasing all that were tried leaves none held. */
  lemma ShortcutEnds(before: seq<Event>, codes: seq<nat>, down: nat, tried: nat)
    requires down <= tried <= |codes|
    ensures Follows(before, before + (Downs(codes[..down]) + Ups(codes[..tried])), Downs(codes) + Ups(codes), false)
    ensures down == |codes| ==>
              Follows(before, before + (Downs(codes[..down]) + Ups(codes[..tried])), Downs(codes) + Ups(codes), true)
  {
    ShortcutReleased(before, codes, down, tried);
    ShortcutInputs(codes, down, tried);
    EndsEarly(before, Downs(codes[..down]) + Ups(codes[..tried]), Downs(codes) + Ups(codes));
    if down == |codes| {
      assert codes[..down] == codes;
      Completes(before, Downs(codes) + Ups(codes));
    }
  }

  lemma ShortcutReleased(before: seq<Event>, codes: seq<nat>, down: nat, tried: nat)
    requires down <= tried <= |codes|
    ensures HeldAfter(before) == {} ==> HeldAfter(before + (Downs(codes[..down]) + Ups(codes[..tried]))) == {}
  {
    DownsHeld(before, codes[..down]);
    UpsHeld(before + Downs(codes[..down]), codes[..tried]);
    assert forall c <- codes[..down] :: c in codes[..tried];
    assert before + (Downs(codes[..down]) + Ups(codes[..tried])) == before + Downs(codes[..down]) + Ups(codes[..tried]);
  }

  lemma ShortcutInputs(codes: seq<nat>, down: nat, tried: nat)
    requires down <= |codes| && tried <= |codes|
    ensures Inputs(Downs(codes[..down]) + Ups(codes[..tried])) <= Inputs(Downs(codes) + Ups(codes))
  {
    InputsConcat(Downs(codes[..down]), Ups(codes[..tried]));
    InputsConcat(Downs(codes), Ups(codes));
    InputsOfDowns(codes[..down]);
    InputsOfUps(codes[..tried]);
    InputsOfDowns(codes);
    InputsOfUps(codes);
    assert Downs(codes[..down]) == Downs(codes)[..down];
  }

  method PerformShortcut(session: Session, device: Device, epoch: nat, codes: seq<nat>)
    returns (ok: bool, accepted: bool, ghost events: seq<Event>)
    requires Punctual(session, device, epoch)
    modifies session, device
    ensures Punctual(session, device, epoch) && Explained(device, ok)
    ensures device.trace == old(device.trace) + events && KeysReleased(events, codes, ok)
    ensures !accepted ==> device.trace == old(device.trace)
  {
    ghost var before := device.trace;
    ghost var down: nat;
    var pressed;
    ok, accepted, pressed, down := PressKeys(session, device, epoch, codes);
    ReleaseKeys(device, pressed);
    assert pressed == codes[..|pressed|];
    events := Shortened(codes, down, |pressed|);
    JoinRight(before, Downs(codes[..down]), Ups(pressed));
    if !accepted {
      assert device.trace == before;
    }
  }

  /** Releases in reverse order, which nothing stops. */
  method ReleaseKeys(device: Device, pressed: seq<nat>)
    modifies device
    ensures device.trace == old(device.trace) + Ups(pressed)
    ensures device.late == old(device.late) && device.refusals == old(device.refusals)
  {
    ghost var held := device.trace;
    for i := |pressed| downto 0
      invariant device.trace + Ups(pressed[..i]) == held + Ups(pressed)
      invariant device.late == old(device.late) && device.refusals == old(device.refusals)
    {
      assert Ups(pressed[..i + 1]) == [KeyUp(pressed[i])] + Ups(pressed[..i]);
      device.Release(KeyUp(pressed[i]));
    }
    assert device.trace + [] == device.trace;
  }

  /** The presses of a shortcut: the keys that must be released afterwards, in order. */
  method PressKeys(session: Session, device: Device, epoch: nat, codes: seq<nat>)
    returns (ok: bool, accepted: bool, pressed: seq<nat>, ghost down: nat)
    requires Punctual(session, device, epoch)
    modifies session, device
    ensures Punctual(session, device, epoch) && Explained(device, ok)
    ensures pressed <= codes && down <= |pressed| <= down + 1
    ensures device.trace == old(device.trace) + Downs(codes[..down])
    ensures ok ==> down == |codes|
    ensures !accepted ==> pressed == [] && down == 0
  {
    ghost var before := device.trace;
    accepted, pressed := false, [];
    assert before + Downs(codes[..0]) == before;
    for i := 0 to |codes|
      invariant Punctual(session, device, epoch) && device.refusals >= old(device.refusals)
      invariant pressed == codes[..i] && device.trace == before + Downs(codes[..i])
      invariant !accepted ==> i == 0
    {
      down := i;
      var guarded := Guard(session, device, epoch);
      if !guarded {
        return false, accepted, pressed, down;
      }
      ok := Authorized(session, device, epoch);
      if !ok {
        return false, accepted, pressed, down;
      }
      accepted := true;
      pressed := pressed + [codes[i]];
      assert pressed == codes[..i + 1];
      assert before + Downs(codes[..i + 1]) == before + Downs(codes[..i]) + [KeyDown(codes[i])];
      session.Interfere();
      ok := device.Emit(session, epoch, KeyDown(codes[i]));
      if !ok {
        down := if device.trace == before + Downs(codes[..i]) then i else i + 1;
        return false, accepted, pressed, down;
      }
    }
    assert codes[..|codes|] == codes;
    down := |codes|;
    ok := Authorized(session, device, epoch);
  }

  // ---------------------------------------------------------------- scrolling and dragging

  /** What a drag emits between its press and its release: the first `n` positions. */
  method DragAlong(session: Session, device: Device, epoch: nat, from: Point, to: Point)
    returns (ok: bool, ghost n: nat)
    requires Punctual(session, device, epoch)
    modifies session, device
    ensures Punctual(session, device, epoch) && n <= DRAG_STEPS && Explained(device, ok)
    ensures device.trace == old(device.trace) + DragMoves(from, to, n)
    ensures ok ==> n == DRAG_STEPS
  {
    ghost var before := device.trace;
    n := 0;
    assert before + DragMoves(from, to, 0) == before;
    for step := 1 to DRAG_STEPS + 1
      invariant Punctual(session, device, epoch) && device.refusals >= old(device.refusals)
      invariant n == step - 1 && device.trace == before + DragMoves(from, to, n)
    {
      var position := DragPosition(from, to, step);
      ok := Guard(session, device, epoch);
      if !ok {
        return false, n;
      }
      assert before + DragMoves(from, to, step) == before + DragMoves(from, to, n) + [MoveTo(position)];
      var emitted, _ := Input(session, device, epoch, MoveTo(position));
      if !emitted {
        n := if device.trace == before + DragMoves(from, to, n) then n else step;
        return false, n;
      }
      n := step;
    }
    ok := Guard(session, device, epoch);
    if ok {
      ok := Authorized(session, device, epoch);
    }
  }

  /** A drag of `n` positions with its press and its release. */
  function DragScript(from: Point, to: Point, n: nat): seq<Event> {
    [MoveTo(from), ButtonDown(LeftButton)] + DragMoves(from, to, n) + [ButtonUp(LeftButton)]
  }

  lemma PressedHeld(trace: seq<Event>, at: Point)
    requires HeldAfter(trace) == {}
    ensures HeldAfter(trace + [MoveTo(at)] + [ButtonDown(LeftButton)]) == {HeldButton(LeftButton)}
  {
    HeldStep(trace, MoveTo(at));
    HeldStep(trace + [MoveTo(at)], ButtonDown(LeftButton));
  }

  lemma DragSplit(trace: seq<Event>, from: Point, moves: seq<Event>)
    ensures trace + ([MoveTo(from), ButtonDown(LeftButton)] + moves + [ButtonUp(LeftButton)])
            == trace + [MoveTo(from)] + [ButtonDown(LeftButton)] + moves + [ButtonUp(LeftButton)]
  {
  }

  lemma DragHeld(trace: seq<Event>, from: Point, to: Point, n: nat)
    requires HeldAfter(trace) == {}
    ensures HeldAfter(trace + DragScript(from, to, n)) == {}
  {
    var pressed := trace + [MoveTo(from)] + [ButtonDown(LeftButton)];
    PressedHeld(trace, from);
    HeldUnchanged(pressed, DragMoves(from, to, n));
    HeldStep(pressed + DragMoves(from, to, n), ButtonUp(LeftButton));
    DragSplit(trace, from, DragMoves(from, to, n));
  }

  lemma DragInputs(from: Point, to: Point, n: nat)
    ensures Inputs(DragScript(from, to, n)) == [MoveTo(from), ButtonDown(LeftButton)] + DragMoves(from, to, n)
  {
    var start, moves := [MoveTo(from), ButtonDown(LeftButton)], DragMoves(from, to, n);
    PressInputs(from);
    HarmlessInputs(moves);
    InputsConcat(start, moves);
    InputsConcat(start + moves, [ButtonUp(LeftButton)]);
    assert Inputs([ButtonUp(LeftButton)]) == [];
    assert start + moves + [] == start + moves;
  }

  lemma PressInputs(at: Point)
    ensures Inputs([MoveTo(at), ButtonDown(LeftButton)]) == [MoveTo(at), ButtonDown(LeftButton)]
  {
    InputsConcat([MoveTo(at)], [ButtonDown(LeftButton)]);
    assert [MoveTo(at), ButtonDown(LeftButton)] == [MoveTo(at)] + [ButtonDown(LeftButton)];
    assert Inputs([MoveTo(at)]) == [MoveTo(at)] && Inputs([ButtonDown(LeftButton)]) == [ButtonDown(LeftButton)];
  }

  /** A drag that fails before its button is down. */
  lemma DragNotBegun(before: seq<Event>, from: Point, to: Point, part: seq<Event>)
    requires part == [] || part == [MoveTo(from)] || part == [MoveTo(from), ButtonUp(LeftButton)]
    ensures Follows(before, before + part, DragScript(from, to, DRAG_STEPS), false)
  {
    DragInputs(from, to, DRAG_STEPS);
    InputsOfClickPart(from, LeftButton);
    if HeldAfter(before) == {} {
      ClickPartHeld(before, from, LeftButton, part);
    }
    EndsEarly(before, part, DragScript(from, to, DRAG_STEPS));
  }

  /** A drag that is released after `n` positions. */
  lemma DragReleased(before: seq<Event>, from: Point, to: Point, n: nat)
    requires n <= DRAG_STEPS
    ensures Follows(before, before + DragScript(from, to, n), DragScript(from, to, DRAG_STEPS), n == DRAG_STEPS)
    ensures Follows(before, before + DragScript(from, to, n), DragScript(from, to, DRAG_STEPS), false)
  {
    DragInputs(from, to, DRAG_STEPS);
    DragInputs(from, to, n);
    assert DragMoves(from, to, n) == DragMoves(from, to, DRAG_STEPS)[..n];
    if HeldAfter(before) == {} {
      DragHeld(before, from, to, n);
    }
    EndsEarly(before, DragScript(from, to, n), DragScript(from, to, DRAG_STEPS));
    if n == DRAG_STEPS {
      Completes(before, DragScript(from, to, DRAG_STEPS));
    }
  }

  method PerformDrag(session: Session, device: Device, epoch: nat, from: Point, to: Point)
    returns (ok: bool, accepted: bool, ghost events: seq<Event>)
    requires Punctual(session, device, epoch)
    modifies session, device
    ensures Punctual(session, device, epoch) && Explained(device, ok)
    ensures device.trace == old(device.trace) + events
    ensures (!ok && NotDragged(events, from)) || Dragged(events, from, to, ok)
    ensures !accepted ==> device.trace == old(device.trace)
  {
    ghost var before := device.trace;
    events := [];
    assert before + [] == before;
    var guarded := Guard(session, device, epoch);
    if !guarded {
      return false, false, events;
    }
    ok, accepted := Input(session, device, epoch, MoveTo(from));
    events := if device.trace == before then [] else [MoveTo(from)];
    if !ok {
      return;
    }
    guarded := Guard(session, device, epoch);
    if !guarded {
      return false, accepted, events;
    }
    ghost var moved, n := device.trace, None;
    ok, n := PressAndDrag(session, device, epoch, from, to);
    if n.Some? {
      events := DragScript(from, to, n.value);
      assert moved + ([ButtonDown(LeftButton)] + DragMoves(from, to, n.value) + [ButtonUp(LeftButton)])
          == before + events;
    } else if device.trace != moved {
      assert moved + [ButtonUp(LeftButton)] == before + [MoveTo(from), ButtonUp(LeftButton)];
      events := [MoveTo(from), ButtonUp(LeftButton)];
    }
  }

  /** The press of a drag, its positions and its release, which follows whatever fails. */
  method PressAndDrag(session: Session, device: Device, epoch: nat, from: Point, to: Point)
    returns (ok: bool, ghost n: Option<nat>)
    requires Punctual(session, device, epoch)
    modifies session, device
    ensures Punctual(session, device, epoch) && Explained(device, ok)
    ensures n.Some? ==>
              n.value <= DRAG_STEPS
              && device.trace == old(device.trace)
                                 + ([ButtonDown(LeftButton)] + DragMoves(from, to, n.value) + [ButtonUp(LeftButton)])
    ensures n.None? ==>
              device.trace == old(device.trace) || device.trace == old(device.trace) + [ButtonUp(LeftButton)]
    ensures ok ==> n == Some(DRAG_STEPS)
  {
    ghost var before := device.trace;
    n := None;
    ok := Authorized(session, device, epoch);
    if !ok {
      return false, n;
    }
    session.Interfere();
    ok := device.Emit(session, epoch, ButtonDown(LeftButton));
    if ok {
      ghost var moves;
      ok, moves := DragAlong(session, device, epoch, from, to);
      n := Some(moves);
    } else if device.trace != before {
      assert DragMoves(from, to, 0) == [];
      n := Some(0);
    }
    device.Release(ButtonUp(LeftButton));
  }

  /** Every position of a drag lies between its two ends, and the last one is the end. */
  lemma DragStaysBetween(from: Point, to: Point, step: nat)
    requires step <= DRAG_STEPS
    ensures var p := DragPosition(from, to, step);
            && (from.x <= p.x <= to.x || to.x <= p.x <= from.x)
            && (from.y <= p.y <= to.y || to.y <= p.y <= from.y)
    ensures DragPosition(from, to, 0) == from && DragPosition(from, to, DRAG_STEPS) == to
    // It is the point of the straight line, rounded.
    ensures var p := DragPosition(from, to, step);
            && Abs(12 * p.x - (12 * from.x + (to.x - from.x) * step)) <= 6
            && Abs(12 * p.y - (12 * from.y + (to.y - from.y) * step)) <= 6
  {
    TwelfthsBetween(from.x, to.x, step);
    TwelfthsBetween(from.y, to.y, step);
  }

  lemma TwelfthsBetween(a: int, b: int, step: nat)
    requires step <= 12
    ensures a <= RoundTwelfths(12 * a + (b - a) * step) <= b || b <= RoundTwelfths(12 * a + (b - a) * step) <= a
    ensures RoundTwelfths(12 * a + (b - a) * 0) == a && RoundTwelfths(12 * a + (b - a) * 12) == b
  {
    if a <= b {
      assert 0 <= (b - a) * step <= (b - a) * 12;
    } else {
      assert (b - a) * 12 <= (b - a) * step <= 0;
    }
  }

  // ---------------------------------------------------------------- coordinates

  /** The part of the screen a preview shows, and the sizes of both. */
  datatype Geometry = Geometry(left: int, top: int, sourceWidth: nat, sourceHeight: nat, width: nat, height: nat)

  /** A coordinate of the preview scaled to the source: it never leaves the source. */
  function Scale(x: real, source: nat, shown: nat): (r: int)
    requires 0.0 <= x < shown as real
    ensures 0 <= r && (source > 0 ==> r < source)
    ensures IsFloor(r, Scaled(x, source, shown))
  {
    ScaledWithin(x, source as real, shown as real);
    FloorIsFloor(Scaled(x, source, shown));
    Scaled(x, source, shown).Floor
  }

  function Scaled(x: real, source: nat, shown: nat): real
    requires shown > 0
  {
    x * source as real / shown as real
  }

  /** The whole part of a number. */
  predicate IsFloor(n: int, q: real) {
    n as real <= q < n as real + 1.0
  }

  lemma FloorIsFloor(q: real)
    ensures IsFloor(q.Floor, q)
  {
  }

  lemma ScaledWithin(x: real, source: real, shown: real)
    requires 0.0 <= x < shown && source >= 0.0
    ensures 0.0 <= x * source / shown && (source > 0.0 ==> x * source / shown < source)
  {
    var q := x * source / shown;
    assert q * shown == x * source;
    ProductGrows(x, source);
    if q < 0.0 {
      ProductGrows(-q, shown);
    }
    if source > 0.0 {
      ProductGrows(shown - x, source);
      assert (shown - x) * source == source * shown - q * shown == (source - q) * shown;
      assert (source - q) * shown == -((q - source) * shown);
      if source - q <= 0.0 {
        ProductGrows(q - source, shown);
      }
    }
  }

  lemma ProductGrows(a: real, b: real)
    requires a >= 0.0 && b >= 0.0
    ensures a * b >= 0.0 && (a > 0.0 && b > 0.0 ==> a * b > 0.0)
  {
  }

  /** `_point`: from a preview coordinate to the screen, always inside the captured rectangle. */
  function NativePoint(g: Geometry, x: real, y: real): (p: Option<Point>)
    ensures p.Some? <==> 0.0 <= x < g.width as real && 0.0 <= y < g.height as real
    ensures p.Some? && g.sourceWidth > 0 && g.sourceHeight > 0 ==>
              g.left <= p.value.x < g.left + g.sourceWidth && g.top <= p.value.y < g.top + g.sourceHeight
    ensures p.Some? ==>
              && IsFloor(p.value.x - g.left, Scaled(x, g.sourceWidth, g.width))
              && IsFloor(p.value.y - g.top, Scaled(y, g.sourceHeight, g.height))
  {
    if 0.0 <= x < g.width as real && 0.0 <= y < g.height as real then
      Some(Point(g.left + Scale(x, g.sourceWidth, g.width), g.top + Scale(y, g.sourceHeight, g.height)))
    else None
  }

  // ---------------------------------------------------------------- the whole action

  /** `act`: refuse bad arguments before anything happens, activate the window if it must be, and
      carry out the action. */
  method Act(session: Session, device: Device, epoch: nat, a: Action)
    returns (r: Outcome, ghost activation: seq<Event>, ghost events: seq<Event>)
    requires session.Valid() && device.late == 0
    modifies session, device
    // After a stop of any kind at most one further input event is emitted.
    ensures Punctual(session, device, epoch)
    // An action with proper arguments fails only if something refuses it or breaks.
    ensures Acceptable(a) ==> Explained(device, r.ok)
    ensures device.trace == old(device.trace) + (activation + events)
    ensures activation == [] || (activation == [Activate] && (a.Click? || a.Drag?))
    ensures if Acceptable(a) then Emits(a, events, r.ok) else !r.ok && device.trace == old(device.trace)
    ensures Follows(old(device.trace), device.trace, activation + Script(a), r.ok)
    ensures !r.accepted ==> device.trace == old(device.trace)
  {
    ghost var before := device.trace;
    activation, events := [], [];
    NothingDone(before, a);
    var acceptable := CheckArguments(a);
    if !acceptable {
      return Outcome(false, false), activation, events;
    }
    var guarded := Guard(session, device, epoch);
    if !guarded {
      return Outcome(false, false), activation, events;
    }
    var mustActivate: bool := *;
    var accepted := false;
    if (a.Click? || a.Drag?) && mustActivate {
      var activated;
      activated, accepted := Input(session, device, epoch, Activate);
      activation := if device.trace == before then [] else [Activate];
      if !activated {
        ActFollows(before, a, activation, events, false);
        return Outcome(false, accepted), activation, events;
      }
    }
    assert device.trace == before + activation;
    var ok, taken;
    ok, taken, events := Perform(session, device, epoch, a);
    ActFollows(before, a, activation, events, ok);
    return Outcome(ok, accepted || taken), activation, events;
  }

  /** The argument checks at the start of `act`. */
  method CheckArguments(a: Action) returns (ok: bool)
    ensures ok <==> Acceptable(a)
  {
    match a
    case Click(_, _, clicks) =>
      return clicks == 1 || clicks == 2;
    case Type(units) =>
      if |units| > 2 * 8192 {
        return false;
      }
      for i := 0 to |units|
        invariant forall u <- units[..i] :: 0 < u < 0x10000
      {
        assert units[..i + 1] == units[..i] + [units[i]] && units[i] in units;
        if units[i] == 0 || units[i] >= 0x10000 {
          return false;
        }
      }
      assert units[..|units|] == units;
      return true;
    case Shortcut(codes) =>
      ok := CheckKeys(codes);
    case Scroll(_, dx, dy) =>
      return -20 <= dx && dx <= 20 && -20 <= dy && dy <= 20;
    case Drag(_, _) =>
      return true;
  }

  /** Distinct modifiers and then one key that is none. */
  method CheckKeys(codes: seq<nat>) returns (ok: bool)
    ensures ok <==> Acceptable(Shortcut(codes))
  {
    if |codes| < 1 || |codes| > 4 {
      return false;
    }
    var seen: set<nat> := {};
    for i := 0 to |codes|
      invariant forall c :: c in seen <==> c in codes[..i]
      invariant forall j, k | 0 <= j < k < i :: codes[j] != codes[k]
      invariant forall j | 0 <= j < i :: codes[j] in {16, 17, 18} <==> j < |codes| - 1
    {
      assert codes[..i + 1] == codes[..i] + [codes[i]];
      if codes[i] in seen || (codes[i] in {16, 17, 18} && i == |codes| - 1)
         || (codes[i] !in {16, 17, 18} && i < |codes| - 1) {
        return false;
      }
      seen := seen + {codes[i]};
    }
    return true;
  }

  /** Activating the window and then performing the action, as far as either got. */
  lemma ActFollows(before: seq<Event>, a: Action, activation: seq<Event>, events: seq<Event>, ok: bool)
    requires Acceptable(a) && Emits(a, events, ok)
    requires activation == [] || activation == [Activate]
    ensures before + activation + events == before + (activation + events)
    ensures Follows(before, before + (activation + events), activation + Script(a), ok)
  {
    JoinRight(before, activation, events);
    EmitsFollows(a, before + activation, events, ok);
    AfterActivation(before, activation, before + activation + events, Script(a), ok);
  }

  lemma JoinRight<T>(a: seq<T>, b: seq<T>, c: seq<T>)
    ensures a + b + c == a + (b + c)
  {
  }

  lemma NothingDone(before: seq<Event>, a: Action)
    ensures before + ([] + []) == before && before + [] == before && [Activate] + [] == [Activate]
    ensures before + ([Activate] + []) == before + [Activate]
    ensures Follows(before, before, [] + Script(a), false)
    ensures Acceptable(a) ==> Emits(a, [], false)
  {
    assert before + [] == before;
    EndsEarly(before, [], [] + Script(a));
    if Acceptable(a) {
      NoEvents(a);
    }
  }

  method Perform(session: Session, device: Device, epoch: nat, a: Action)
    returns (ok: bool, accepted: bool, ghost events: seq<Event>)
    requires Punctual(session, device, epoch) && Acceptable(a)
    modifies session, device
    ensures Punctual(session, device, epoch) && Explained(device, ok)
    ensures device.trace == old(device.trace) + events && Emits(a, events, ok)
    ensures !accepted ==> device.trace == old(device.trace)
  {
    match a
    case Click(at, button, clicks) =>
      ok, accepted, events := PerformClick(session, device, epoch, at, button, clicks);
    case Shortcut(codes) =>
      ok, accepted, events := PerformShortcut(session, device, epoch, codes);
    case Drag(from, to) =>
      ok, accepted, events := PerformDrag(session, device, epoch, from, to);
    case Type(units) =>
      ghost var n;
      ok, accepted, n := EmitAll(session, device, epoch, Chars(units));
      events := Chars(units)[..n];
    case Scroll(at, dx, dy) =>
      ghost var n;
      var all := [MoveTo(at)] + WheelSteps(dx, dy);
      ok, accepted, n := EmitAll(session, device, epoch, all);
      events := all[..n];
  }

  lemma NoEvents(a: Action)
    requires Acceptable(a)
    ensures Emits(a, [], false)
  {
    match a
    case Click(at, button, _) => assert ClickPart([], at, button) && Clicks(at, button, 0) + [] == [];
    case Shortcut(codes) => assert Shortened(codes, 0, 0) == [];
    case _ =>
  }

  lemma AfterActivation(before: seq<Event>, activation: seq<Event>, after: seq<Event>, script: seq<Event>, ok: bool)
    requires activation == [] || activation == [Activate]
    requires Follows(before + activation, after, script, ok)
    ensures Follows(before, after, activation + script, ok)
  {
    var rest := after[|before + activation|..];
    assert after == (before + activation) + rest == before + (activation + rest);
    InputsConcat(activation, rest);
    InputsConcat(activation, script);
    HeldUnchanged(before, activation);
    if ok {
      TailOf(before + activation, script);
      assert rest == script;
      Completes(before, activation + script);
    } else {
      EndsEarly(before, activation + rest, activation + script);
    }
  }

  /** The dispatched part of a desktop action: it is authorized first, and a result that is not ok
      disarms the session while a successful one extends its arming. */
  method Execute(session: Session, device: Device, epoch: nat, a: Action) returns (r: Option<Outcome>)
    requires session.Valid() && device.late == 0
    modifies session, device
    ensures session.Valid() && device.late <= 1
    ensures r.None? <==> !old(session.Allowed(epoch))
    ensures r.None? ==> device.trace == old(device.trace)
    ensures old(session.closed) ==> session.closed
    ensures r.Some? ==> Acceptable(a) || !r.value.ok
    ensures r.Some? && !r.value.ok ==> !session.armed
    ensures r.Some? && !r.value.ok && Acceptable(a) ==> device.refusals > old(device.refusals)
    ensures r.Some? && r.value.ok && session.Allowed(epoch) ==> session.armExpires == session.now + ARM_SECONDS
    ensures r.Some? && !r.value.accepted ==> device.trace == old(device.trace)
    ensures HeldAfter(old(device.trace)) == {} ==> HeldAfter(device.trace) == {}
  {
    var granted := session.Authorize(epoch, false);
    if granted != Granted {
      return None;
    }
    var outcome, _, _ := Act(session, device, epoch, a);
    if outcome.ok {
      session.Renew(epoch);
    } else {
      session.Stop(false);
    }
    return Some(outcome);
  }
}
