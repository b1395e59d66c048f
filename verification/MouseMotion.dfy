/** The Mighty Mouse: unbounded pointer motion cut into 8-bit reports.  The laws say where every
    unit of motion is at any moment, and what a sync does with it. */
module MouseMotion {
  import opened MachineInts
  import opened ReportRing

  const CAPACITY: nat := 63       // of a ring of 64
  const MAX_LOOPS: nat := 64
  const DELTA_MAX: int := 127

  // The four axes a report carries.
  datatype Motion = Motion(x: int, y: int, wheel: int, hwheel: int)

  const ZERO := Motion(0, 0, 0, 0)

  function Plus(a: Motion, b: Motion): Motion {
    Motion(a.x + b.x, a.y + b.y, a.wheel + b.wheel, a.hwheel + b.hwheel)
  }

  function Minus(a: Motion, b: Motion): Motion {
    Motion(a.x - b.x, a.y - b.y, a.wheel - b.wheel, a.hwheel - b.hwheel)
  }

  function Wrapped(m: Motion): Motion {
    Motion(S32(m.x), S32(m.y), S32(m.wheel), S32(m.hwheel))
  }

  function Clamp(v: int): int {
    if v > DELTA_MAX then DELTA_MAX else if v < -DELTA_MAX then -DELTA_MAX else v
  }

  function ClampAll(m: Motion): Motion {
    Motion(Clamp(m.x), Clamp(m.y), Clamp(m.wheel), Clamp(m.hwheel))
  }

  // The five bytes of a report.
  datatype Report = Report(buttons: Byte, x: Byte, y: Byte, wheel: Byte, hwheel: Byte)

  function Encode(buttons: Byte, m: Motion): Report {
    Report(buttons, U8(m.x), U8(m.y), U8(m.wheel), U8(m.hwheel))
  }

  /** The motion the host reads out of a report. */
  function Decode(r: Report): Motion {
    Motion(S8(r.x), S8(r.y), S8(r.wheel), S8(r.hwheel))
  }

  lemma ReportRoundTrip(buttons: Byte, m: Motion)
    ensures Decode(Encode(buttons, ClampAll(m))) == ClampAll(m)
  {
    SignedBytes(Clamp(m.x));
    SignedBytes(Clamp(m.y));
    SignedBytes(Clamp(m.wheel));
    SignedBytes(Clamp(m.hwheel));
  }

  function Total(q: seq<Report>): Motion {
    if q == [] then ZERO else Plus(Total(q[..|q| - 1]), Decode(q[|q| - 1]))
  }

  datatype State = State(
    pending: Motion,
    left: bool, right: bool, middle: bool,
    event: bool,
    lastX: int, lastY: int,    // last absolute position in pixels, -1 for none yet
    queue: seq<Report>,
    // history, which no operation consults
    injected: Motion,          // all motion the input events have asked for
    polled: Motion,            // all motion the host has read
    dropped: Motion)           // all motion in reports the full ring gave up

  function Init(): State {
    State(ZERO, false, false, false, false, -1, -1, [], ZERO, ZERO, ZERO)
  }

  datatype Axis = AxisX | AxisY | OtherAxis
  datatype Button = LeftButton | RightButton | MiddleButton | WheelUp | WheelDown | WheelLeft | WheelRight | OtherButton

  datatype Event =
    | Rel(axis: Axis, value: int)
    | Abs(axis: Axis, value: int)
    | Btn(button: Button, down: bool)
    | Sync
    | Poll
    | Reset

  function ScaledX(value: int): int {
    S32(TruncDiv(value * 1920, 0x7fff))
  }

  function ScaledY(value: int): int {
    S32(TruncDiv(value * 1080, 0x7fff))
  }

  // ---------- The operations ----------

  /** Adds motion to the 32-bit accumulators. */
  function Inject(st: State, m: Motion): State {
    st.(pending := Wrapped(Plus(st.pending, m)), injected := Plus(st.injected, m), event := true)
  }

  function ApplyRel(st: State, axis: Axis, value: int): State {
    match axis
    case AxisX => Inject(st, Motion(value, 0, 0, 0))
    case AxisY => Inject(st, Motion(0, value, 0, 0))
    case OtherAxis => Inject(st, ZERO)
  }

  function ApplyAbs(st: State, axis: Axis, value: int): State {
    match axis
    case AxisX =>
      var scaled := ScaledX(value);
      Inject(st, if st.lastX >= 0 then Motion(scaled - st.lastX, 0, 0, 0) else ZERO).(lastX := scaled)
    case AxisY =>
      var scaled := ScaledY(value);
      Inject(st, if st.lastY >= 0 then Motion(0, scaled - st.lastY, 0, 0) else ZERO).(lastY := scaled)
    case OtherAxis => Inject(st, ZERO)
  }

  function ApplyButton(st: State, button: Button, down: bool): State {
    match button
    case LeftButton => st.(left := down, event := true)
    case RightButton => st.(right := down, event := true)
    case MiddleButton => st.(middle := down, event := true)
    case WheelUp => if down then Inject(st, Motion(0, 0, 1, 0)) else st
    case WheelDown => if down then Inject(st, Motion(0, 0, -1, 0)) else st
    case WheelLeft => if down then Inject(st, Motion(0, 0, 0, -1)) else st
    case WheelRight => if down then Inject(st, Motion(0, 0, 0, 1)) else st
    case OtherButton => st
  }

  function Buttons(st: State): Byte {
    (if st.left then 1 else 0) + (if st.right then 2 else 0) + (if st.middle then 4 else 0)
  }

  function Emit(st: State): (now: State)
    requires |st.queue| <= CAPACITY
    ensures |now.queue| <= CAPACITY
  {
    var delta := ClampAll(st.pending);
    st.(pending := Minus(st.pending, delta),
        queue := Push(st.queue, Encode(Buttons(st), delta), CAPACITY),
        dropped := if |st.queue| == CAPACITY then Plus(st.dropped, Decode(st.queue[0])) else st.dropped)
  }

  /** The do-while loop of a sync, with at most n more turns. */
  function EmitWhilePending(st: State, n: nat): (now: State)
    requires |st.queue| <= CAPACITY && n > 0
    ensures |now.queue| <= CAPACITY
    decreases n
  {
    var st := Emit(st);
    if st.pending != ZERO && n > 1 then EmitWhilePending(st, n - 1) else st
  }

  function ApplySync(st: State): (now: State)
    requires |st.queue| <= CAPACITY
    ensures |now.queue| <= CAPACITY
  {
    if st.event then EmitWhilePending(st.(event := false), MAX_LOOPS) else st
  }

  function ApplyPoll(st: State): State {
    if st.queue == [] then st else
      st.(queue := st.queue[1..], polled := Plus(st.polled, Decode(st.queue[0])))
  }

  function Apply(st: State, e: Event): (now: State)
    requires |st.queue| <= CAPACITY
    ensures |now.queue| <= CAPACITY
  {
    match e
    case Rel(axis, value) => ApplyRel(st, axis, value)
    case Abs(axis, value) => ApplyAbs(st, axis, value)
    case Btn(button, down) => ApplyButton(st, button, down)
    case Sync => ApplySync(st)
    case Poll => ApplyPoll(st)
    case Reset => Init()
  }

  // ---------- Conservation ----------

  /** The accumulators hold exactly what was injected and is nowhere else, in 32 bits. */
  predicate Conserved(st: State) {
    && |st.queue| <= CAPACITY
    && st.pending == Wrapped(Minus(Minus(Minus(st.injected, st.polled), Total(st.queue)), st.dropped))
  }

  lemma InjectConserves(st: State, m: Motion)
    requires Conserved(st)
    ensures Conserved(Inject(st, m))
  {
    hide S32;
    var rest := Minus(Minus(Minus(st.injected, st.polled), Total(st.queue)), st.dropped);
    WrapOnce(rest.x, m.x);
    WrapOnce(rest.y, m.y);
    WrapOnce(rest.wheel, m.wheel);
    WrapOnce(rest.hwheel, m.hwheel);
  }

  lemma TotalAppend(q: seq<Report>, r: Report)
    ensures Total(q + [r]) == Plus(Total(q), Decode(r))
  {
    assert (q + [r])[..|q + [r]| - 1] == q;
  }

  lemma {:induction false} TotalFirst(q: seq<Report>)
    requires q != []
    ensures Total(q) == Plus(Decode(q[0]), Total(q[1..]))
  {
    if |q| > 1 {
      TotalFirst(q[..|q| - 1]);
      assert q[..|q| - 1][1..] == q[1..][..|q[1..]| - 1];
    }
  }

  /** Taking the clamped part off an accumulator never wraps. */
  lemma ClampedOff(x: int)
    ensures S32(x - Clamp(S32(x))) == S32(x) - Clamp(S32(x))
  {
    var c := Clamp(S32(x));
    SignedRange(x);
    InRange(S32(x) - c);
    WrapOnce(x, -c);
  }

  lemma EmitConserves(st: State)
    requires Conserved(st)
    ensures Conserved(Emit(st))
  {
    hide S32, Clamp, Total, Decode, Encode, Push, Buttons;
    var rest := Minus(Minus(Minus(st.injected, st.polled), Total(st.queue)), st.dropped);
    ClampedOff(rest.x);
    ClampedOff(rest.y);
    ClampedOff(rest.wheel);
    ClampedOff(rest.hwheel);
    EmitMoves(st);
  }

  /** What leaves the accumulators arrives in the queue, or in what the queue gives up. */
  lemma EmitMoves(st: State)
    requires |st.queue| <= CAPACITY
    ensures var now := Emit(st);
            Plus(Total(now.queue), now.dropped) == Plus(Plus(Total(st.queue), st.dropped), ClampAll(st.pending))
  {
    hide Total, Decode, Encode, ClampAll, Buttons;
    var r := Encode(Buttons(st), ClampAll(st.pending));
    ReportRoundTrip(Buttons(st), st.pending);
    TotalAppend(st.queue, r);
    if |st.queue| == CAPACITY {
      TotalFirst(st.queue);
      TotalAppend(st.queue[1..], r);
    }
  }

  lemma {:induction false} LoopConserves(st: State, n: nat)
    requires Conserved(st) && n > 0
    ensures Conserved(EmitWhilePending(st, n))
    decreases n
  {
    hide Emit, Conserved;
    BoundedQueue(st);
    EmitConserves(st);
    if Emit(st).pending != ZERO && n > 1 {
      LoopConserves(Emit(st), n - 1);
    }
  }

  lemma BoundedQueue(st: State)
    requires Conserved(st)
    ensures |st.queue| <= CAPACITY
  {
  }

  lemma ApplyConserves(st: State, e: Event)
    requires Conserved(st)
    ensures Conserved(Apply(st, e))
  {
    hide *;
    BoundedQueue(st);
    ApplyCases(st, e);
    match e
    case Rel(axis, value) => RelConserves(st, axis, value);
    case Abs(axis, value) => AbsConserves(st, axis, value);
    case Btn(button, down) => ButtonConserves(st, button, down);
    case Sync => SyncConserves(st);
    case Poll => PollConserves(st);
    case Reset => InitConserves();
  }

  // Spelled out apart from the proof above, which then need not look into any operation.
  lemma ApplyCases(st: State, e: Event)
    requires |st.queue| <= CAPACITY
    ensures e.Rel? ==> Apply(st, e) == ApplyRel(st, e.axis, e.value)
    ensures e.Abs? ==> Apply(st, e) == ApplyAbs(st, e.axis, e.value)
    ensures e.Btn? ==> Apply(st, e) == ApplyButton(st, e.button, e.down)
    ensures e.Sync? ==> Apply(st, e) == ApplySync(st)
    ensures e.Poll? ==> Apply(st, e) == ApplyPoll(st)
    ensures e.Reset? ==> Apply(st, e) == Init()
  {
  }

  lemma SyncConserves(st: State)
    requires Conserved(st)
    ensures Conserved(ApplySync(st))
  {
    hide Emit, EmitWhilePending;
    if st.event {
      LoopConserves(st.(event := false), MAX_LOOPS);
    }
  }

  lemma PollConserves(st: State)
    requires Conserved(st)
    ensures Conserved(ApplyPoll(st))
  {
    if st.queue != [] {
      hide Decode;
      TotalFirst(st.queue);
    }
  }

  lemma InitConserves()
    ensures Conserved(Init())
  {
    InRange(0);
  }

  lemma RelConserves(st: State, axis: Axis, value: int)
    requires Conserved(st)
    ensures Conserved(ApplyRel(st, axis, value))
  {
    hide Inject, Conserved;
    InjectConserves(st, ZERO);
    InjectConserves(st, Motion(value, 0, 0, 0));
    InjectConserves(st, Motion(0, value, 0, 0));
  }

  lemma AbsConserves(st: State, axis: Axis, value: int)
    requires Conserved(st)
    ensures Conserved(ApplyAbs(st, axis, value))
  {
    hide Wrapped, ScaledX, ScaledY;
    InjectConserves(st, ZERO);
    InjectConserves(st, Motion(ScaledX(value) - st.lastX, 0, 0, 0));
    InjectConserves(st, Motion(0, ScaledY(value) - st.lastY, 0, 0));
  }

  lemma ButtonConserves(st: State, button: Button, down: bool)
    requires Conserved(st)
    ensures Conserved(ApplyButton(st, button, down))
  {
    hide Wrapped;
    InjectConserves(st, Motion(0, 0, 1, 0));
    InjectConserves(st, Motion(0, 0, -1, 0));
    InjectConserves(st, Motion(0, 0, 0, -1));
    InjectConserves(st, Motion(0, 0, 0, 1));
  }

  function Run(events: seq<Event>): (st: State)
    ensures |st.queue| <= CAPACITY
  {
    if events == [] then Init() else
      Apply(Run(events[..|events| - 1]), events[|events| - 1])
  }

  lemma {:induction false} RunConserves(events: seq<Event>)
    ensures Conserved(Run(events))
  {
    if events == [] {
      InitConserves();
    } else {
      RunConserves(events[..|events| - 1]);
      ApplyConserves(Run(events[..|events| - 1]), events[|events| - 1]);
    }
  }

  // ---------- What the input events ask for ----------

  function RelTotal(events: seq<Event>, axis: Axis): int {
    if events == [] then 0 else
      var e := events[|events| - 1];
      RelTotal(events[..|events| - 1], axis) + if e.Rel? && e.axis == axis then e.value else 0
  }

  function Scaled(axis: Axis, value: int): int {
    if axis == AxisX then ScaledX(value) else ScaledY(value)
  }

  /** The scaled absolute positions, in order. */
  function Positions(events: seq<Event>, axis: Axis): seq<int> {
    if events == [] then [] else
      var e := events[|events| - 1];
      var before := Positions(events[..|events| - 1], axis);
      if e.Abs? && e.axis == axis then before + [Scaled(axis, e.value)] else before
  }

  function Span(positions: seq<int>): int {
    if positions == [] then 0 else positions[|positions| - 1] - positions[0]
  }

  /** Absolute events carry 0 .. 0x7fff, and the device has not been reset. */
  predicate SinceReset(events: seq<Event>) {
    forall e :: e in events ==> Tame(e)
  }

  predicate Tame(e: Event) {
    e != Reset && (e.Abs? ==> 0 <= e.value <= 0x7fff)
  }

  /** Positions are scaled to pixels and rounded down. */
  lemma ScaledIs(value: int)
    requires 0 <= value <= 0x7fff
    ensures 32767 * ScaledX(value) <= 1920 * value < 32767 * (ScaledX(value) + 1)
    ensures 32767 * ScaledY(value) <= 1080 * value < 32767 * (ScaledY(value) + 1)
  {
    InRange(value * 1920 / 0x7fff);
    InRange(value * 1080 / 0x7fff);
    hide S32;
  }

  lemma ScaledIsAPixel(value: int)
    requires 0 <= value <= 0x7fff
    ensures 0 <= ScaledX(value) <= 1920 && 0 <= ScaledY(value) <= 1080
  {
    InRange(value * 1920 / 0x7fff);
    InRange(value * 1080 / 0x7fff);
  }

  lemma {:induction false} LoopInjectsNothing(st: State, n: nat)
    requires |st.queue| <= CAPACITY && n > 0
    ensures var now := EmitWhilePending(st, n);
            now.injected == st.injected && now.lastX == st.lastX && now.lastY == st.lastY
    decreases n
  {
    if Emit(st).pending != ZERO && n > 1 {
      LoopInjectsNothing(Emit(st), n - 1);
    }
  }

  /** What one event adds on the two axes, and where it leaves the anchors. */
  lemma InjectedStep(st: State, e: Event)
    requires |st.queue| <= CAPACITY && Tame(e)
    ensures var now := Apply(st, e);
            && now.injected.x == st.injected.x + Asked(e, AxisX, st.lastX)
            && now.injected.y == st.injected.y + Asked(e, AxisY, st.lastY)
            && now.lastX == (if e.Abs? && e.axis == AxisX then Scaled(AxisX, e.value) else st.lastX)
            && now.lastY == (if e.Abs? && e.axis == AxisY then Scaled(AxisY, e.value) else st.lastY)
  {
    hide Apply, ApplySync, ApplyAbs, ApplyButton, Scaled, Wrapped, Decode;
    ApplyCases(st, e);
    match e
    case Sync => SyncInjectsNothing(st);
    case Abs(_, _) => AbsStep(st, e);
    case Btn(button, down) => ButtonInjectsNothing(st, button, down);
    case _ =>
  }

  lemma SyncInjectsNothing(st: State)
    requires |st.queue| <= CAPACITY
    ensures var now := ApplySync(st);
            now.injected == st.injected && now.lastX == st.lastX && now.lastY == st.lastY
  {
    hide Emit, EmitWhilePending;
    if st.event {
      LoopInjectsNothing(st.(event := false), MAX_LOOPS);
    }
  }

  lemma ButtonInjectsNothing(st: State, button: Button, down: bool)
    ensures var now := ApplyButton(st, button, down);
            && now.injected.x == st.injected.x && now.injected.y == st.injected.y
            && now.lastX == st.lastX && now.lastY == st.lastY
  {
    hide Wrapped;
  }

  lemma AbsStep(st: State, e: Event)
    requires e.Abs?
    ensures var now := ApplyAbs(st, e.axis, e.value);
            && now.injected.x == st.injected.x + Asked(e, AxisX, st.lastX)
            && now.injected.y == st.injected.y + Asked(e, AxisY, st.lastY)
            && now.lastX == (if e.axis == AxisX then Scaled(AxisX, e.value) else st.lastX)
            && now.lastY == (if e.axis == AxisY then Scaled(AxisY, e.value) else st.lastY)
  {
    hide ScaledX, ScaledY, Wrapped;
  }

  function Asked(e: Event, axis: Axis, last: int): int {
    if e.Rel? && e.axis == axis then e.value
    else if e.Abs? && e.axis == axis && last >= 0 then Scaled(axis, e.value) - last
    else 0
  }

  function LastOf(positions: seq<int>): int {
    if positions == [] then -1 else positions[|positions| - 1]
  }

  lemma {:induction false} PositionsAreOnScreen(events: seq<Event>, axis: Axis)
    requires SinceReset(events)
    ensures Positions(events, axis) == [] || LastOf(Positions(events, axis)) >= 0
  {
    if events != [] {
      var most, e := events[..|events| - 1], events[|events| - 1];
      PositionsAreOnScreen(most, axis);
      assert e in events && Tame(e);
      if e.Abs? && e.axis == axis {
        ScaledIsAPixel(e.value);
      }
    }
  }

  /** The motion asked for on an axis is the relative motion plus the distance between the first
      and the last absolute position: the absolute events telescope. */
  lemma {:induction false} InjectedIs(events: seq<Event>)
    requires SinceReset(events)
    ensures var st := Run(events);
            && st.injected.x == RelTotal(events, AxisX) + Span(Positions(events, AxisX))
            && st.injected.y == RelTotal(events, AxisY) + Span(Positions(events, AxisY))
            && st.lastX == LastOf(Positions(events, AxisX))
            && st.lastY == LastOf(Positions(events, AxisY))
  {
    hide *;
    if events == [] {
      NothingAsked();
    } else {
      var most, e := events[..|events| - 1], events[|events| - 1];
      AllTame(events);
      InjectedIs(most);
      RunLast(events);
      InjectedStep(Run(most), e);
      AskedStep(events, AxisX);
      AskedStep(events, AxisY);
    }
  }

  lemma NothingAsked()
    ensures Run([]).injected.x == Run([]).injected.y == 0 && Run([]).lastX == -1 && Run([]).lastY == -1
    ensures RelTotal([], AxisX) == 0 && Span(Positions([], AxisX)) == 0 && LastOf(Positions([], AxisX)) == -1
    ensures RelTotal([], AxisY) == 0 && Span(Positions([], AxisY)) == 0 && LastOf(Positions([], AxisY)) == -1
  {
  }

  lemma RunLast(events: seq<Event>)
    requires events != []
    ensures Run(events) == Apply(Run(events[..|events| - 1]), events[|events| - 1])
  {
  }

  lemma AllTame(events: seq<Event>)
    requires SinceReset(events) && events != []
    ensures SinceReset(events[..|events| - 1]) && Tame(events[|events| - 1])
  {
    hide Tame;
  }

  lemma AskedStep(events: seq<Event>, axis: Axis)
    requires SinceReset(events) && events != []
    ensures var most, e := events[..|events| - 1], events[|events| - 1];
            && RelTotal(events, axis) + Span(Positions(events, axis))
               == RelTotal(most, axis) + Span(Positions(most, axis)) + Asked(e, axis, LastOf(Positions(most, axis)))
            && LastOf(Positions(events, axis))
               == (if e.Abs? && e.axis == axis then Scaled(axis, e.value) else LastOf(Positions(most, axis)))
  {
    var most := events[..|events| - 1];
    AllTame(events);
    PositionsAreOnScreen(most, axis);
    hide Scaled, SinceReset, Tame;
  }

  function Clicks(events: seq<Event>, button: Button): nat {
    if events == [] then 0 else
      Clicks(events[..|events| - 1], button) + if events[|events| - 1] == Btn(button, true) then 1 else 0
  }

  lemma ClicksStep(st: State, e: Event)
    requires |st.queue| <= CAPACITY && e != Reset
    ensures var now := Apply(st, e);
            && now.injected.wheel == st.injected.wheel
                 + (if e == Btn(WheelUp, true) then 1 else 0) - (if e == Btn(WheelDown, true) then 1 else 0)
            && now.injected.hwheel == st.injected.hwheel
                 + (if e == Btn(WheelRight, true) then 1 else 0) - (if e == Btn(WheelLeft, true) then 1 else 0)
  {
    hide Apply, ApplySync, ApplyAbs, ApplyButton, Wrapped, Decode;
    ApplyCases(st, e);
    match e
    case Sync => SyncInjectsNothing(st);
    case Abs(axis, value) => AbsClicksNothing(st, axis, value);
    case Btn(button, down) => ButtonClicks(st, button, down);
    case _ =>
  }

  lemma AbsClicksNothing(st: State, axis: Axis, value: int)
    ensures var now := ApplyAbs(st, axis, value);
            now.injected.wheel == st.injected.wheel && now.injected.hwheel == st.injected.hwheel
  {
    hide ScaledX, ScaledY, Wrapped;
  }

  lemma ButtonClicks(st: State, button: Button, down: bool)
    ensures var now := ApplyButton(st, button, down);
            && now.injected.wheel == st.injected.wheel
                 + (if button == WheelUp && down then 1 else 0) - (if button == WheelDown && down then 1 else 0)
            && now.injected.hwheel == st.injected.hwheel
                 + (if button == WheelRight && down then 1 else 0) - (if button == WheelLeft && down then 1 else 0)
  {
    hide Wrapped;
  }

  lemma {:induction false} ClicksInjected(events: seq<Event>)
    requires SinceReset(events)
    ensures Run(events).injected.wheel == Clicks(events, WheelUp) - Clicks(events, WheelDown)
    ensures Run(events).injected.hwheel == Clicks(events, WheelRight) - Clicks(events, WheelLeft)
  {
    if events != [] {
      hide Apply;
      var most, e := events[..|events| - 1], events[|events| - 1];
      ClicksInjected(most);
      assert e in events && Tame(e);
      ClicksStep(Run(most), e);
    }
  }

  /** What the input events ask for: relative motion, the distance between the first and the last
      absolute position, and wheel clicks. */
  function AskedFor(events: seq<Event>): Motion {
    Motion(RelTotal(events, AxisX) + Span(Positions(events, AxisX)),
           RelTotal(events, AxisY) + Span(Positions(events, AxisY)),
           Clicks(events, WheelUp) - Clicks(events, WheelDown),
           Clicks(events, WheelRight) - Clicks(events, WheelLeft))
  }

  predicate InRangeAll(m: Motion) {
    && -TWO_TO_THE_31 <= m.x < TWO_TO_THE_31 && -TWO_TO_THE_31 <= m.y < TWO_TO_THE_31
    && -TWO_TO_THE_31 <= m.wheel < TWO_TO_THE_31 && -TWO_TO_THE_31 <= m.hwheel < TWO_TO_THE_31
  }

  /** Conservation, over any interleaving of events, syncs and polls since a reset, on all four
      axes: what is polled, queued, dropped by the ring and pending makes up what was asked for.
      The pending part is kept in 32 bits, so it is exact if and only if it fits them. */
  lemma MotionIsConserved(events: seq<Event>)
    requires SinceReset(events)
    ensures var st := Run(events);
            var rest := Minus(Minus(Minus(AskedFor(events), st.polled), Total(st.queue)), st.dropped);
            && st.pending == Wrapped(rest)
            && (st.pending == rest <==> InRangeAll(rest))
  {
    hide Run, RelTotal, Positions, Span, Clicks, Total, Apply;
    RunConserves(events);
    InjectedIs(events);
    ClicksInjected(events);
    assert Run(events).injected == AskedFor(events);
    hide AskedFor;
    WrappedWhenInRange(Minus(Minus(Minus(AskedFor(events), Run(events).polled), Total(Run(events).queue)), Run(events).dropped));
  }

  lemma WrappedWhenInRange(m: Motion)
    ensures Wrapped(m) == m <==> InRangeAll(m)
  {
    ExactWhenInRange(m.x);
    ExactWhenInRange(m.y);
    ExactWhenInRange(m.wheel);
    ExactWhenInRange(m.hwheel);
    hide S32;
  }

  lemma ExactWhenInRange(v: int)
    ensures S32(v) == v <==> -TWO_TO_THE_31 <= v < TWO_TO_THE_31
  {
  }

  // ---------- What a sync does ----------

  function Magnitude(v: int): nat {
    if v < 0 then -v else v
  }

  function Largest(m: Motion): nat {
    Max(Max(Magnitude(m.x), Magnitude(m.y)), Max(Magnitude(m.wheel), Magnitude(m.hwheel)))
  }

  function Max(a: nat, b: nat): nat {
    if a > b then a else b
  }

  /** The reports a sync needs: enough for the largest axis, and at least one. */
  function Needed(m: Motion): nat {
    var n := (Largest(m) + 126) / 127;
    if n == 0 then 1 else n
  }

  function ReportsOf(m: Motion): (n: nat)
    ensures 1 <= n <= MAX_LOOPS
  {
    Min(Needed(m), MAX_LOOPS)
  }

  /** What n clamped reports leave of an axis. */
  function Left(v: int, n: nat): int {
    if Magnitude(v) <= DELTA_MAX * n then 0 else if v > 0 then v - DELTA_MAX * n else v + DELTA_MAX * n
  }

  function LeftOf(m: Motion, n: nat): Motion {
    Motion(Left(m.x, n), Left(m.y, n), Left(m.wheel, n), Left(m.hwheel, n))
  }

  /** The reports themselves. */
  function Emitted(m: Motion, buttons: Byte, n: nat): (rs: seq<Report>)
    ensures |rs| == n
    decreases n
  {
    if n == 0 then [] else
      [Encode(buttons, ClampAll(m))] + Emitted(Minus(m, ClampAll(m)), buttons, n - 1)
  }

  lemma LeftAfterOne(v: int, n: nat)
    requires n > 0
    ensures Left(v, n) == Left(v - Clamp(v), n - 1)
  {
  }

  lemma MagnitudeShrinks(v: int)
    ensures Magnitude(v - Clamp(v)) == Max(Magnitude(v), DELTA_MAX) - DELTA_MAX
  {
  }

  lemma LargestShrinks(m: Motion)
    ensures Largest(Minus(m, ClampAll(m))) == Max(Largest(m), DELTA_MAX) - DELTA_MAX
  {
    hide Magnitude, Clamp, Max;
    MagnitudeShrinks(m.x);
    MagnitudeShrinks(m.y);
    MagnitudeShrinks(m.wheel);
    MagnitudeShrinks(m.hwheel);
    ShrinkBoth(Magnitude(m.x), Magnitude(m.y));
    ShrinkBoth(Magnitude(m.wheel), Magnitude(m.hwheel));
    ShrinkBoth(Max(Magnitude(m.x), Magnitude(m.y)), Max(Magnitude(m.wheel), Magnitude(m.hwheel)));
  }

  lemma ShrinkBoth(a: nat, b: nat)
    ensures Max(Max(a, DELTA_MAX) - DELTA_MAX, Max(b, DELTA_MAX) - DELTA_MAX) == Max(Max(a, b), DELTA_MAX) - DELTA_MAX
    ensures Max(a, DELTA_MAX) >= DELTA_MAX
  {
  }

  lemma NothingLeft(m: Motion)
    ensures m == ZERO <==> Largest(m) == 0
  {
  }

  lemma NeededShrinks(m: Motion)
    ensures Minus(m, ClampAll(m)) == ZERO <==> Needed(m) == 1
    ensures Needed(m) > 1 ==> Needed(Minus(m, ClampAll(m))) == Needed(m) - 1
  {
    hide Largest, ClampAll;
    LargestShrinks(m);
    NothingLeft(Minus(m, ClampAll(m)));
  }

  function EmitTimes(st: State, n: nat): State
    requires |st.queue| <= CAPACITY
    decreases n
  {
    if n == 0 then st else EmitTimes(Emit(st), n - 1)
  }

  function Min(a: nat, b: nat): nat {
    if a < b then a else b
  }

  /** The loop ends after exactly as many turns as needed, or after its last. */
  lemma {:induction false} LoopTurns(st: State, left: nat)
    requires |st.queue| <= CAPACITY && left > 0
    ensures EmitWhilePending(st, left) == EmitTimes(st, Min(Needed(st.pending), left))
    decreases left
  {
    hide Needed, Push, Encode, Decode, ClampAll, Minus;
    NeededShrinks(st.pending);
    NeededIsPositive(st.pending);
    var next := Emit(st);
    if next.pending != ZERO && left > 1 {
      LoopTurns(next, left - 1);
    } else {
      assert EmitTimes(next, 0) == next;
    }
  }

  lemma NeededIsPositive(m: Motion)
    ensures Needed(m) > 0
  {
  }

  /** What n turns do: they queue n reports, and what is pending afterwards is exactly what those
      could not carry. */
  lemma {:induction false} TurnsEmit(st: State, n: nat)
    requires |st.queue| <= CAPACITY
    ensures var now := EmitTimes(st, n);
            && now.pending == LeftOf(st.pending, n)
            && now.queue == PushAll(st.queue, Emitted(st.pending, Buttons(st), n), CAPACITY)
            && (|st.queue| + n <= CAPACITY ==> now.dropped == st.dropped)
            && now.event == st.event
    decreases n
  {
    if n == 0 {
      LeftNone(st.pending);
    } else {
      TurnsEmit(Emit(st), n - 1);
      hide EmitTimes, Encode, Decode, ClampAll, LeftOf, PushAll, Emitted, Buttons;
      LeftStep(st.pending, n);
      PushEmitted(st, n);
    }
  }

  lemma LeftStep(m: Motion, n: nat)
    requires n > 0
    ensures LeftOf(m, n) == LeftOf(Minus(m, ClampAll(m)), n - 1)
  {
    hide Left, Clamp;
    LeftAfterOne(m.x, n);
    LeftAfterOne(m.y, n);
    LeftAfterOne(m.wheel, n);
    LeftAfterOne(m.hwheel, n);
  }

  lemma LeftNone(m: Motion)
    ensures LeftOf(m, 0) == m
  {
  }

  lemma PushEmitted(st: State, n: nat)
    requires |st.queue| <= CAPACITY && n > 0
    ensures PushAll(st.queue, Emitted(st.pending, Buttons(st), n), CAPACITY)
         == PushAll(Emit(st).queue, Emitted(Emit(st).pending, Buttons(st), n - 1), CAPACITY)
    ensures Buttons(Emit(st)) == Buttons(st)
  {
    hide Encode;
    var all := Emitted(st.pending, Buttons(st), n);
    assert all[1..] == Emitted(Minus(st.pending, ClampAll(st.pending)), Buttons(st), n - 1);
  }

  /** A triggered sync uses exactly max(1, ceil(largest / 127)) reports, at most 64; it leaves
      exactly the undrained remainder, which is nothing if and only if no axis exceeds 64 * 127;
      and it drops no report if its own and the queued ones fit the ring. */
  lemma SyncDrains(st: State)
    requires |st.queue| <= CAPACITY && st.event
    ensures var n := ReportsOf(st.pending);
            var own := Emitted(st.pending, Buttons(st), n);
            var now := Apply(st, Sync);
            && !now.event
            && now.pending == LeftOf(st.pending, n)
            && (now.pending == ZERO <==> Largest(st.pending) <= 64 * 127)
            && now.queue == (st.queue + own)[Excess(st.queue, own, 63)..]
            && (|st.queue| + n <= 63 ==> now.queue == st.queue + own && now.dropped == st.dropped)
  {
    hide EmitTimes, EmitWhilePending, LeftOf, Emitted, PushAll, Largest;
    var n := ReportsOf(st.pending);
    LoopTurns(st.(event := false), MAX_LOOPS);
    TurnsEmit(st.(event := false), n);
    PushAllKeepsYoungest(st.queue, Emitted(st.pending, Buttons(st), n), CAPACITY);
    LargestLeft(st.pending, n);
  }

  lemma LargestLeft(m: Motion, n: nat)
    ensures LeftOf(m, n) == ZERO <==> Largest(m) <= DELTA_MAX * n
  {
  }

  /** Each report carries at most 127 units an axis, and together they carry what was pending
      less the remainder. */
  lemma {:induction false} EmittedCarries(m: Motion, buttons: Byte, n: nat)
    ensures var rs := Emitted(m, buttons, n);
            && Total(rs) == Minus(m, LeftOf(m, n))
            && forall i :: 0 <= i < n ==> Small(rs[i], buttons)
    decreases n
  {
    hide *;
    if n == 0 {
      CarriesNothing(m, buttons);
    } else {
      var rest := Minus(m, ClampAll(m));
      var first, most := Encode(buttons, ClampAll(m)), Emitted(rest, buttons, n - 1);
      EmittedCarries(rest, buttons, n - 1);
      CarriesOneMore(m, buttons, n, most);
      EmittedFirst(m, buttons, n);
      assert forall i :: 1 <= i < n ==> ([first] + most)[i] == most[i - 1];
    }
  }

  lemma CarriesNothing(m: Motion, buttons: Byte)
    ensures Emitted(m, buttons, 0) == [] && Total([]) == ZERO == Minus(m, LeftOf(m, 0))
  {
    LeftNone(m);
  }

  lemma EmittedFirst(m: Motion, buttons: Byte, n: nat)
    requires n > 0
    ensures Emitted(m, buttons, n)
         == [Encode(buttons, ClampAll(m))] + Emitted(Minus(m, ClampAll(m)), buttons, n - 1)
  {
  }

  predicate Small(r: Report, buttons: Byte) {
    r.buttons == buttons && Largest(Decode(r)) <= DELTA_MAX
  }

  lemma CarriesOneMore(m: Motion, buttons: Byte, n: nat, most: seq<Report>)
    requires n > 0
    ensures var first := Encode(buttons, ClampAll(m));
            var rest := Minus(m, ClampAll(m));
            && Small(first, buttons)
            && (Total(most) == Minus(rest, LeftOf(rest, n - 1)) ==> Total([first] + most) == Minus(m, LeftOf(m, n)))
  {
    hide LeftOf, Total;
    var first := Encode(buttons, ClampAll(m));
    LeftStep(m, n);
    ReportRoundTrip(buttons, m);
    hide Encode, Decode;
    TotalFirst([first] + most);
    assert ([first] + most)[1..] == most;
    ClampedIsSmall(m);
    EncodeKeepsButtons(buttons, ClampAll(m));
  }

  lemma ClampedIsSmall(m: Motion)
    ensures Largest(ClampAll(m)) <= DELTA_MAX
  {
  }

  lemma EncodeKeepsButtons(buttons: Byte, m: Motion)
    ensures Encode(buttons, m).buttons == buttons
  {
  }

  /** A sync that takes all 64 turns outruns the ring of 63: its own first report is lost, whatever
      the host had polled before. */
  lemma SixtyFourReportsLoseTheFirst(st: State)
    requires |st.queue| <= CAPACITY && st.event && Largest(st.pending) > 63 * DELTA_MAX
    ensures Apply(st, Sync).queue == Emitted(st.pending, Buttons(st), MAX_LOOPS)[1..]
  {
    hide LeftOf, Emitted, Apply, Largest;
    SyncDrains(st);
    var own := Emitted(st.pending, Buttons(st), MAX_LOOPS);
    assert (st.queue + own)[|st.queue| + 1..] == own[1..];
  }

  // ---------- Buttons and marks ----------

  /** The last event of a button since the last reset was a press. */
  predicate Pressed(events: seq<Event>, button: Button) {
    if events == [] then false else
      var e := events[|events| - 1];
      if e.Reset? then false
      else if e.Btn? && e.button == button then e.down
      else Pressed(events[..|events| - 1], button)
  }

  lemma {:induction false} LoopKeepsButtons(st: State, n: nat)
    requires |st.queue| <= CAPACITY && n > 0
    ensures var now := EmitWhilePending(st, n);
            now.left == st.left && now.right == st.right && now.middle == st.middle && now.event == st.event
    decreases n
  {
    if Emit(st).pending != ZERO && n > 1 {
      LoopKeepsButtons(Emit(st), n - 1);
    }
  }

  lemma SyncKeepsButtons(st: State)
    requires |st.queue| <= CAPACITY
    ensures var now := ApplySync(st);
            now.left == st.left && now.right == st.right && now.middle == st.middle && !now.event
  {
    hide Emit, EmitWhilePending;
    if st.event {
      LoopKeepsButtons(st.(event := false), MAX_LOOPS);
    }
  }

  lemma {:induction false} ButtonsArePressed(events: seq<Event>)
    ensures var st := Run(events);
            && (st.left <==> Pressed(events, LeftButton))
            && (st.right <==> Pressed(events, RightButton))
            && (st.middle <==> Pressed(events, MiddleButton))
  {
    if events != [] {
      var most, e := events[..|events| - 1], events[|events| - 1];
      ButtonsArePressed(most);
      RunLast(events);
      hide Run, Apply;
      ButtonStep(Run(most), e);
    }
  }

  function After(was: bool, e: Event, button: Button): bool {
    if e.Reset? then false else if e.Btn? && e.button == button then e.down else was
  }

  lemma ButtonStep(st: State, e: Event)
    requires |st.queue| <= CAPACITY
    ensures var now := Apply(st, e);
            && now.left == After(st.left, e, LeftButton) && now.right == After(st.right, e, RightButton)
            && now.middle == After(st.middle, e, MiddleButton)
  {
    hide Apply, ApplySync, Wrapped, ScaledX, ScaledY, Decode;
    ApplyCases(st, e);
    match e
    case Sync => SyncKeepsButtons(st);
    case Abs(axis, value) => AbsKeepsButtons(st, axis, value);
    case Btn(button, down) => ButtonAlone(st, button, down);
    case _ =>
  }

  lemma AbsKeepsButtons(st: State, axis: Axis, value: int)
    ensures var now := ApplyAbs(st, axis, value); now.left == st.left && now.right == st.right && now.middle == st.middle
  {
    hide Wrapped, ScaledX, ScaledY;
  }

  lemma ButtonAlone(st: State, button: Button, down: bool)
    ensures var now := ApplyButton(st, button, down);
            && now.left == After(st.left, Btn(button, down), LeftButton)
            && now.right == After(st.right, Btn(button, down), RightButton)
            && now.middle == After(st.middle, Btn(button, down), MiddleButton)
  {
    hide Wrapped;
  }

  /** An event that a sync has to report: any motion, a change of one of the three buttons, and the
      press of a wheel button, but not its release. */
  predicate Marks(e: Event) {
    e.Rel? || e.Abs?
    || (e.Btn? && (e.button in {LeftButton, RightButton, MiddleButton}
                   || (e.button in {WheelUp, WheelDown, WheelLeft, WheelRight} && e.down)))
  }

  predicate MarkedSinceSync(events: seq<Event>) {
    if events == [] then false else
      var e := events[|events| - 1];
      if e.Reset? || e.Sync? then false else Marks(e) || MarkedSinceSync(events[..|events| - 1])
  }

  /** In every run the next sync reports something exactly if such an event came after the last. */
  lemma {:induction false} MarksAreKept(events: seq<Event>)
    ensures Run(events).event <==> MarkedSinceSync(events)
  {
    if events != [] {
      var most, e := events[..|events| - 1], events[|events| - 1];
      MarksAreKept(most);
      RunLast(events);
      hide Run, Apply, Marks;
      MarkStep(Run(most), e);
    }
  }

  lemma MarkStep(st: State, e: Event)
    requires |st.queue| <= CAPACITY
    ensures Apply(st, e).event <==> !e.Reset? && !e.Sync? && (Marks(e) || st.event)
  {
    hide Apply, ApplySync, Wrapped, ScaledX, ScaledY, Decode;
    ApplyCases(st, e);
    match e
    case Sync => SyncKeepsButtons(st);
    case Abs(axis, value) => AbsMarks(st, axis, value);
    case Btn(button, down) => ButtonMarks(st, button, down);
    case _ =>
  }

  lemma AbsMarks(st: State, axis: Axis, value: int)
    ensures ApplyAbs(st, axis, value).event
  {
    hide Wrapped, ScaledX, ScaledY;
  }

  lemma ButtonMarks(st: State, button: Button, down: bool)
    ensures ApplyButton(st, button, down).event <==> Marks(Btn(button, down)) || st.event
  {
    hide Wrapped;
  }

  predicate ShowsButtons(r: Report, left: bool, right: bool, middle: bool) {
    && r.buttons < 8
    && (r.buttons % 2 == 1 <==> left) && (r.buttons / 2 % 2 == 1 <==> right) && (r.buttons / 4 % 2 == 1 <==> middle)
  }

  /** One report: its low bits are left, right and middle in that order, and its four signed bytes are
      what it takes off the four accumulators, within 127 each. */
  lemma ReportOfOneTurn(st: State)
    requires |st.queue| <= CAPACITY
    ensures var now := Emit(st);
            && now.queue != []
            && var r := now.queue[|now.queue| - 1];
               && ShowsButtons(r, st.left, st.right, st.middle)
               && S8(r.x) == st.pending.x - now.pending.x && S8(r.y) == st.pending.y - now.pending.y
               && S8(r.wheel) == st.pending.wheel - now.pending.wheel
               && S8(r.hwheel) == st.pending.hwheel - now.pending.hwheel
               && -127 <= S8(r.x) <= 127 && -127 <= S8(r.y) <= 127 && -127 <= S8(r.wheel) <= 127 && -127 <= S8(r.hwheel) <= 127
  {
    ButtonBits(st);
    SignedBytes(Clamp(st.pending.x));
    SignedBytes(Clamp(st.pending.y));
    SignedBytes(Clamp(st.pending.wheel));
    SignedBytes(Clamp(st.pending.hwheel));
    hide U8, S8, Buttons;
  }

  lemma ButtonBits(st: State)
    ensures ShowsButtons(Report(Buttons(st), 0, 0, 0, 0), st.left, st.right, st.middle)
  {
  }

  lemma {:induction false} EmittedShowButtons(m: Motion, buttons: Byte, n: nat)
    ensures forall r :: r in Emitted(m, buttons, n) ==> r.buttons == buttons
    decreases n
  {
    if n > 0 {
      EmittedShowButtons(Minus(m, ClampAll(m)), buttons, n - 1);
      hide U8, ClampAll;
    }
  }

  /** Every report of a sync, in every run, shows which buttons are pressed. */
  lemma SyncReportsButtons(events: seq<Event>) returns (own: seq<Report>)
    requires Run(events).event
    ensures var st := Run(events);
            var now := Apply(st, Sync);
            && |own| > 0 && |now.queue| == (if |st.queue| + |own| < 63 then |st.queue| + |own| else 63)
            && now.queue == (st.queue + own)[|st.queue| + |own| - |now.queue|..]
    ensures forall r :: r in own ==>
              ShowsButtons(r, Pressed(events, LeftButton), Pressed(events, RightButton), Pressed(events, MiddleButton))
  {
    hide Run, Apply, Emitted, Pressed, Buttons, LeftOf, Largest, Needed, ReportsOf, Encode;
    var st := Run(events);
    own := Emitted(st.pending, Buttons(st), ReportsOf(st.pending));
    SyncDrains(st);
    ButtonsArePressed(events);
    ButtonBits(st);
    EmittedShowButtons(st.pending, Buttons(st), ReportsOf(st.pending));
  }

  // ---------- Polls, resets and idle syncs ----------

  /** A poll takes the oldest report, and nothing else; a sync with nothing marked does nothing. */
  lemma PollTakesTheOldest(st: State)
    requires |st.queue| <= CAPACITY
    ensures st.queue == [] ==> Apply(st, Poll) == st
    ensures st.queue != [] ==> var now := Apply(st, Poll); now.queue == st.queue[1..] && now == st.(queue := now.queue, polled := now.polled)
    ensures !st.event ==> Apply(st, Sync) == st
  {
    hide EmitWhilePending;
  }

  /** A reset forgets all motion, reports, buttons, marks and anchors, whatever came before. */
  lemma ResetStartsAfresh(events: seq<Event>)
    ensures Run(events + [Reset]) == Run([])
    ensures var st := Run([]);
            && st.pending == Motion(0, 0, 0, 0) && st.queue == [] && !st.event
            && !st.left && !st.right && !st.middle && st.lastX == -1 && st.lastY == -1
            && st.injected == st.polled == st.dropped == Motion(0, 0, 0, 0)
  {
    RunLast(events + [Reset]);
    assert (events + [Reset])[|events| ] == Reset;
  }
}
