/** The Magic Trackpad as values: absolute positions turned into relative boot-mouse reports before
    the host asks for multitouch, and into packed finger records afterwards. */
module TrackpadMotion {
  import opened MachineInts
  import opened ReportRing

  const CAPACITY: nat := 31       // of a ring of 32
  const DELTA_MAX: int := 127
  const RANGE: int := 32767       // of an absolute position
  const X_MIN: int := -3678
  const X_MAX: int := 3825
  const Y_MIN: int := -2280
  const Y_MAX: int := 2280

  type Report = seq<Byte>

  // A move of the pointer.
  datatype Move = Move(x: int, y: int)

  const STILL := Move(0, 0)

  function Plus(a: Move, b: Move): Move {
    Move(a.x + b.x, a.y + b.y)
  }

  datatype State = State(
    multitouch: bool,
    absX: int, absY: int, prevX: int, prevY: int,
    left: bool, finger: bool, event: bool, sequence: Word,
    queue: seq<Report>,
    // history since the last reset, which no operation consults
    log: seq<Report>,   // all reports
    frames: nat,        // how many were relative
    wide: bool,         // whether one of those had to be clamped
    emitted: Move,      // what the relative reports say, in absolute units: all of them,
    polled: Move,       // those the host has read,
    dropped: Move)      // and those the full ring gave up

  datatype Axis = AxisX | AxisY | OtherAxis

  datatype Event =
    | Abs(axis: Axis, value: int)
    | Btn(isLeft: bool, down: bool)
    | Sync
    | Poll
    | EnableMultitouch
    | Reset

  function Init(): (st: State)
    ensures st.queue == []
  {
    State(false, 0, 0, 0, 0, false, false, false, 0, [], [], 0, false, STILL, STILL, STILL)
  }

  // ---------- Packing ----------

  /** Maps 0 .. 32767 onto a range of coordinates. */
  function MapAbs(v: int, low: int, high: int): int {
    low + S32(TruncDiv(v * (high - low), RANGE))
  }

  function PackFinger(x: int, y: int, pressure: Byte, state: Byte, id: Byte): (r: Report)
    ensures |r| == 9
  {
    var xu, yu := x % 0x2000, y % 0x2000;
    [xu % 0x100, xu / 0x100 + yu % 8 * 32, yu / 8 % 0x100,
     0x07, 0x45, 0, pressure, id % 16 + state % 16 * 16, 0]
  }

  function Quarter(d: int): int {
    var q := TruncDiv(d, 4);
    if q > DELTA_MAX then DELTA_MAX else if q < -DELTA_MAX then -DELTA_MAX else q
  }

  function BootReport(dx: int, dy: int, left: bool): (r: Report)
    ensures |r| == 8
  {
    [2, if left then 1 else 0, U8(dx), U8(dy), 0, 0, 0, 0]
  }

  function Header(left: bool, sequence: Word): (r: Report)
    ensures |r| == 8
  {
    [2, if left then 1 else 0,
     sequence % 0x100, sequence / 0x100 % 0x100, sequence / 0x1_0000 % 0x100, sequence / 0x100_0000 % 0x100,
     0, 1]
  }

  function MultitouchReport(st: State): Report {
    Header(st.left, st.sequence) +
    (if st.finger
     then PackFinger(MapAbs(st.absX, X_MIN, X_MAX), MapAbs(st.absY, Y_MIN, Y_MAX), if st.left then 0xc0 else 0x40, 4, 0)
     else []) +
    [0, 0, 0, 0]
  }

  // ---------- The operations ----------

  /** What a host moves its pointer by for a report; only the eight-byte reports are relative, and
      a step of theirs stands for four units. */
  function MoveOf(r: Report): Move {
    if |r| == 8 then Move(4 * S8(r[2]), 4 * S8(r[3])) else STILL
  }

  function Enqueue(st: State, r: Report): (now: State)
    requires |st.queue| <= CAPACITY
    ensures |now.queue| <= CAPACITY
  {
    st.(queue := Push(st.queue, r, CAPACITY), log := st.log + [r],
        emitted := Plus(st.emitted, MoveOf(r)),
        dropped := if |st.queue| == CAPACITY then Plus(st.dropped, MoveOf(st.queue[0])) else st.dropped)
  }

  predicate Narrow(d: int) {
    -512 < d < 512
  }

  function EmitBoot(st: State): (now: State)
    requires |st.queue| <= CAPACITY
    ensures |now.queue| <= CAPACITY
  {
    var dx, dy := S32(st.absX - st.prevX), S32(st.absY - st.prevY);
    var report := BootReport(Quarter(dx), Quarter(dy), st.left);
    Enqueue(st.(prevX := st.absX, prevY := st.absY,
                frames := st.frames + 1,
                wide := st.wide || !Narrow(dx) || !Narrow(dy)), report)
  }

  function ApplySync(st: State): (now: State)
    requires |st.queue| <= CAPACITY
    ensures |now.queue| <= CAPACITY
  {
    if !st.event then st
    else if st.multitouch then
      Enqueue(st.(event := false, sequence := U32(st.sequence + 1)), MultitouchReport(st))
    else EmitBoot(st.(event := false))
  }

  function ApplyAbs(st: State, axis: Axis, value: int): State {
    var touched := st.(finger := true, event := true);
    match axis
    case AxisX => touched.(absX := S32(value))
    case AxisY => touched.(absY := S32(value))
    case OtherAxis => touched
  }

  function ApplyPoll(st: State): (now: State)
    requires |st.queue| <= CAPACITY
    ensures |now.queue| <= CAPACITY
  {
    if st.queue == [] then st else
      st.(queue := st.queue[1..], polled := Plus(st.polled, MoveOf(st.queue[0])))
  }

  function ApplyReset(st: State): State {
    Init().(absX := st.absX, absY := st.absY)
  }

  function Apply(st: State, e: Event): (now: State)
    requires |st.queue| <= CAPACITY
    ensures |now.queue| <= CAPACITY
  {
    match e
    case Abs(axis, value) => ApplyAbs(st, axis, value)
    case Btn(isLeft, down) => st.(left := if isLeft then down else st.left, event := true)
    case Sync => ApplySync(st)
    case Poll => ApplyPoll(st)
    case EnableMultitouch => st.(multitouch := true)
    case Reset => ApplyReset(st)
  }

  function Run(st: State, events: seq<Event>): (now: State)
    requires |st.queue| <= CAPACITY
    ensures |now.queue| <= CAPACITY
  {
    if events == [] then st else Apply(Run(st, events[..|events| - 1]), events[|events| - 1])
  }

  // ---------- Finger records ----------

  function SignExtend(v: int, bits: int): int
    requires bits == 0x800 || bits == 0x2000
  {
    if v < bits / 2 then v else v - bits
  }

  /** The 13 bits of x that a record carries. */
  function XIn(r: Report): int
    requires |r| >= 3
  {
    r[0] as int + r[1] as int % 32 * 0x100
  }

  /** The 11 bits of y that a record carries. */
  function YIn(r: Report): int
    requires |r| >= 3
  {
    r[1] as int / 32 + r[2] as int * 8
  }

  lemma PackedBits(x: int, y: int, pressure: Byte, state: Byte, id: Byte)
    ensures var r := PackFinger(x, y, pressure, state, id);
            XIn(r) == x % 0x2000 && YIn(r) == y % 0x800
  {
    var xu, yu := x % 0x2000, y % 0x2000;
    SharedByte(xu / 0x100, yu % 8);
    ElevenBits(y);
    assert xu == xu % 0x100 + xu / 0x100 * 0x100;
    assert y % 0x800 == y % 0x800 % 8 + y % 0x800 / 8 * 8;
  }

  lemma SharedByte(high: int, low: int)
    requires 0 <= high < 32 && 0 <= low < 8
    ensures (high + low * 32) % 32 == high && (high + low * 32) / 32 == low
  {
  }

  lemma Wraps(v: int, bits: int)
    requires bits == 0x800 || bits == 0x2000
    ensures SignExtend(v % bits, bits) == v <==> -bits / 2 <= v < bits / 2
  {
    if bits == 0x800 {
      assert SignExtend(v % 0x800, 0x800) == v <==> -0x400 <= v < 0x400;
    } else {
      assert SignExtend(v % 0x2000, 0x2000) == v <==> -0x1000 <= v < 0x1000;
    }
  }

  /** Which coordinates a host can tell apart, and which it reads back: x in full, y only as far as
      11 bits go. */
  lemma FingerRoundTrip(x: int, y: int, pressure: Byte, state: Byte, id: Byte)
    ensures var r := PackFinger(x, y, pressure, state, id);
            && (SignExtend(XIn(r), 0x2000) == x <==> -0x1000 <= x < 0x1000)
            && (SignExtend(YIn(r), 0x800) == y <==> -0x400 <= y < 0x400)
    ensures forall x2: int, y2: int ::
              PackFinger(x2, y2, pressure, state, id) == PackFinger(x, y, pressure, state, id)
              <==> x2 % 0x2000 == x % 0x2000 && y2 % 0x800 == y % 0x800
  {
    PackedBits(x, y, pressure, state, id);
    Wraps(x, 0x2000);
    Wraps(y, 0x800);
    forall x2: int, y2: int
      ensures PackFinger(x2, y2, pressure, state, id) == PackFinger(x, y, pressure, state, id)
              <==> x2 % 0x2000 == x % 0x2000 && y2 % 0x800 == y % 0x800
    {
      PackedBits(x2, y2, pressure, state, id);
      if x2 % 0x2000 == x % 0x2000 && y2 % 0x800 == y % 0x800 {
        SameBytes(x, y, x2, y2, pressure, state, id);
      }
    }
  }

  lemma SameBytes(x: int, y: int, x2: int, y2: int, pressure: Byte, state: Byte, id: Byte)
    requires x2 % 0x2000 == x % 0x2000 && y2 % 0x800 == y % 0x800
    ensures PackFinger(x2, y2, pressure, state, id) == PackFinger(x, y, pressure, state, id)
  {
    ElevenBits(y);
    ElevenBits(y2);
  }

  lemma ElevenBits(y: int)
    ensures y % 0x2000 % 8 == y % 0x800 % 8
    ensures y % 0x2000 / 8 % 0x100 == y % 0x800 / 8
  {
    var a := y / 0x800;
    var b := y % 0x800;
    assert y % 0x2000 == a % 4 * 0x800 + b;
    assert (a % 4 * 0x800 + b) / 8 == a % 4 * 0x100 + b / 8;
  }

  lemma DivisionIsMonotone(a: int, b: int)
    requires 0 <= a <= b
    ensures 0 <= TruncDiv(a, RANGE) <= TruncDiv(b, RANGE)
  {
    assert a / 32767 <= b / 32767;
  }

  predicate Position(v: int) {
    0 <= v <= RANGE
  }

  /** The map scales by the span of the range over that of the positions, and rounds down. */
  lemma MapScales(v: int, low: int, high: int)
    requires Position(v) && -0x8000 <= low <= high < 0x8000
    ensures 32767 * (MapAbs(v, low, high) - low) <= v * (high - low) < 32767 * (MapAbs(v, low, high) - low + 1)
  {
    var a := v * (high - low);
    ProductsAreOrdered(0, v, high - low);
    ProductsAreOrdered(v, RANGE, high - low);
    TowardZero(a, RANGE);
    InRange(TruncDiv(a, RANGE));
    hide TruncDiv, S32;
  }

  /** The map keeps order, and takes the ends of the range to the ends. */
  lemma MapIsMonotone(v: int, w: int, low: int, high: int)
    requires Position(v) && Position(w) && v <= w && -0x8000 <= low <= high < 0x8000
    ensures MapAbs(0, low, high) == low && MapAbs(RANGE, low, high) == high
    ensures low <= MapAbs(v, low, high) <= MapAbs(w, low, high) <= high
  {
    var span := high - low;
    Scales(0, v, span);
    Scales(v, w, span);
    Scales(w, RANGE, span);
  }

  lemma Scales(v: int, w: int, span: int)
    requires Position(v) && Position(w) && v <= w && 0 <= span < 0x1_0000
    ensures 0 <= S32(TruncDiv(v * span, RANGE)) <= S32(TruncDiv(w * span, RANGE)) <= span
    ensures v == 0 ==> S32(TruncDiv(v * span, RANGE)) == 0
    ensures w == RANGE ==> S32(TruncDiv(w * span, RANGE)) == span
  {
    hide S32, TruncDiv;
    var a, b, all := v * span, w * span, RANGE * span;
    ProductsAreOrdered(v, w, span);
    ProductsAreOrdered(w, RANGE, span);
    DivisionIsMonotone(0, a);
    DivisionIsMonotone(a, b);
    DivisionIsMonotone(b, all);
    WholeRange(span);
    InRange(TruncDiv(a, RANGE));
    InRange(TruncDiv(b, RANGE));
  }

  lemma ProductsAreOrdered(v: int, w: int, span: int)
    requires 0 <= v <= w && 0 <= span
    ensures 0 <= v * span <= w * span
  {
    assert w * span == v * span + (w - v) * span;
  }

  lemma WholeRange(span: int)
    requires 0 <= span
    ensures TruncDiv(RANGE * span, RANGE) == span && TruncDiv(0, RANGE) == 0
  {
    assert 32767 * span / 32767 == span;
  }

  function LittleEndian(b: seq<Byte>): int
    requires |b| == 4
  {
    b[0] as int + b[1] as int * 0x100 + b[2] as int * 0x1_0000 + b[3] as int * 0x100_0000
  }

  lemma HeaderCarries(left: bool, sequence: Word)
    ensures var h := Header(left, sequence);
            h[0] == 2 && (h[1] == 1 <==> left) && LittleEndian(h[2..6]) == sequence
  {
    DigitsOf(sequence);
  }

  lemma DigitsOf(v: Word)
    ensures v == v % 0x100 + v / 0x100 % 0x100 * 0x100 + v / 0x1_0000 % 0x100 * 0x1_0000 + v / 0x100_0000 % 0x100 * 0x100_0000
  {
    var a, b, c := v / 0x100, v / 0x1_0000, v / 0x100_0000;
    SplitOff(v, a, 0x100);
    NextDigit(v, a, b, 0x100);
    NextDigit(v, b, c, 0x1_0000);
    assert c < 0x100;
  }

  lemma SplitOff(v: nat, a: nat, unit: nat)
    requires unit == 0x100 && a == v / unit
    ensures v == a * unit + v % unit
  {
  }

  lemma NextDigit(v: nat, a: nat, b: nat, unit: nat)
    requires unit == 0x100 || unit == 0x1_0000
    requires a == v / unit && b == v / (unit * 0x100)
    ensures a == b * 0x100 + a % 0x100
  {
    if unit == 0x100 {
      assert v / 0x100 / 0x100 == v / 0x1_0000;
    } else {
      assert v / 0x1_0000 / 0x100 == v / 0x100_0000;
    }
  }

  /** From a multitouch report the host reads the button, the counter, the finger's mapped x exactly, and its mapped y up to
      a multiple of 2048. */
  lemma MultitouchReportCarries(st: State)
    requires st.finger && Position(st.absX) && Position(st.absY)
    ensures var r := MultitouchReport(st);
            var x, y := MapAbs(st.absX, -3678, 3825), MapAbs(st.absY, -2280, 2280);
            && |r| == 21
            && r[0] == 2 && (r[1] == 1 <==> st.left) && LittleEndian(r[2..6]) == st.sequence
            && SignExtend(XIn(r[8..17]), 0x2000) == x
            && YIn(r[8..17]) == y % 0x800
            && (SignExtend(YIn(r[8..17]), 0x800) == y <==> -0x400 <= y < 0x400)
  {
    HeaderCarries(st.left, st.sequence);
    assert MultitouchReport(st)[..8] == Header(st.left, st.sequence);
    assert MultitouchReport(st)[2..6] == Header(st.left, st.sequence)[2..6];
    hide PackFinger, MapAbs, Header, LittleEndian;
    var x, y := MapAbs(st.absX, X_MIN, X_MAX), MapAbs(st.absY, Y_MIN, Y_MAX);
    var pressure := if st.left then 0xc0 else 0x40;
    assert MultitouchReport(st)[8..17] == PackFinger(x, y, pressure, 4, 0);
    MapIsMonotone(st.absX, st.absX, X_MIN, X_MAX);
    PackedBits(x, y, pressure, 4, 0);
    Wraps(x, 0x2000);
    Wraps(y, 0x800);
  }

  /** The other bytes of a report with a finger: a constant shape, the pressure that tells a click from a
      touch, the state of a touch, and an empty trailer; a report without one is only header and
      trailer. */
  lemma MultitouchReportShape(st: State)
    ensures var r := MultitouchReport(st);
            && |r| == (if st.finger then 21 else 12)
            && r[0] == 2 && r[1] == (if st.left then 1 else 0) && r[6] == 0 && r[7] == 1
            && (st.finger ==> r[11] == 0x07 && r[12] == 0x45 && r[13] == 0 && r[14] == (if st.left then 0xc0 else 0x40)
                              && r[15] == 0x40 && r[16] == 0)
            && forall i :: |r| - 4 <= i < |r| ==> r[i] == 0
  {
    hide MapAbs;
  }

  /** A relative report: its number, the button, the two signed steps, and nothing. */
  lemma BootReportShape(dx: int, dy: int, left: bool)
    requires -128 <= dx < 128 && -128 <= dy < 128
    ensures var r := BootReport(dx, dy, left);
            && |r| == 8 && r[0] == 2 && r[1] == (if left then 1 else 0) && S8(r[2]) == dx && S8(r[3]) == dy
            && forall i :: 4 <= i < 8 ==> r[i] == 0
  {
    SignedBytes(dx);
    SignedBytes(dy);
    hide S8, U8;
  }

  /** A finger record carries the pressure, and its state and number in a byte. */
  lemma FingerBytes(x: int, y: int, pressure: Byte, state: Byte, id: Byte)
    requires state < 16 && id < 16
    ensures var r := PackFinger(x, y, pressure, state, id);
            && r[3] == 0x07 && r[4] == 0x45 && r[5] == 0 && r[6] == pressure && r[7] % 16 == id && r[7] / 16 == state && r[8] == 0
  {
  }

  /** Two places on the pad that no host can tell apart. */
  lemma TwoPlacesLookAlike(st: State)
    requires st.finger && Position(st.absX)
    ensures MultitouchReport(st.(absY := 9198)) == MultitouchReport(st.(absY := 23915))
    ensures MapAbs(23915, Y_MIN, Y_MAX) - MapAbs(9198, Y_MIN, Y_MAX) == 0x800
  {
    hide PackFinger, Header;
    assert MapAbs(9198, Y_MIN, Y_MAX) == -1000 && MapAbs(23915, Y_MIN, Y_MAX) == 1048;
    var x, pressure := MapAbs(st.absX, X_MIN, X_MAX), if st.left then 0xc0 else 0x40;
    SameBytes(x, -1000, x, 1048, pressure, 4, 0);
  }

  // ---------- Drift of the relative reports ----------

  function Magnitude(v: int): nat {
    if v < 0 then -v else v
  }

  /** What a relative report keeps back of a move: less than a step of four, or all beyond 508. */
  function KeptBack(d: int): nat {
    if Narrow(d) then Magnitude(d) % 4 else Magnitude(d) - 4 * DELTA_MAX
  }

  lemma OneFrame(d: int)
    ensures Magnitude(d - 4 * Quarter(d)) == KeptBack(d) && Magnitude(4 * Quarter(d)) + KeptBack(d) == Magnitude(d)
    ensures -512 < d < 512 ==> KeptBack(d) <= 3
    ensures !(-512 < d < 512) ==> Quarter(d) == if d > 0 then 127 else -127
    ensures S8(U8(Quarter(d))) == Quarter(d)
  {
    SignedBytes(Quarter(d));
  }

  // ---------- Drift ----------

  /** While no report had to be clamped, the moves in all the reports add up to the last position
      reported, up to three units a report. */
  predicate DriftBounded(st: State) {
    && Fits(st.absX) && Fits(st.absY) && Fits(st.prevX) && Fits(st.prevY)
    && (!st.wide ==>
          && Magnitude(st.prevX - st.emitted.x) <= 3 * st.frames
          && Magnitude(st.prevY - st.emitted.y) <= 3 * st.frames)
  }

  predicate Fits(v: int) {
    0 <= v < TWO_TO_THE_31
  }

  predicate Sensible(e: Event) {
    e.Abs? ==> Fits(e.value)
  }

  /** A relative report carries the quarters of both moves. */
  lemma BootReportCarries(dx: int, dy: int, left: bool)
    ensures MoveOf(BootReport(Quarter(dx), Quarter(dy), left)) == Move(4 * Quarter(dx), 4 * Quarter(dy))
  {
    hide S8, U8, Quarter;
    OneFrame(dx);
    OneFrame(dy);
  }

  lemma BootKeepsDriftBounded(st: State)
    requires |st.queue| <= CAPACITY && DriftBounded(st)
    ensures DriftBounded(EmitBoot(st)) && EmitBoot(st).prevX == st.absX && EmitBoot(st).prevY == st.absY
  {
    hide S32, Quarter, BootReport, MoveOf, Push;
    InRange(st.absX - st.prevX);
    InRange(st.absY - st.prevY);
    BootReportCarries(st.absX - st.prevX, st.absY - st.prevY, st.left);
    OneFrame(st.absX - st.prevX);
    OneFrame(st.absY - st.prevY);
    hide KeptBack, Narrow;
  }

  lemma MultitouchMovesNothing(st: State)
    ensures MoveOf(MultitouchReport(st)) == STILL
  {
  }

  lemma SyncKeepsDriftBounded(st: State)
    requires |st.queue| <= CAPACITY && DriftBounded(st)
    ensures DriftBounded(ApplySync(st))
  {
    hide EmitBoot, MultitouchReport, Push, MoveOf;
    MultitouchMovesNothing(st);
    BootKeepsDriftBounded(st.(event := false));
  }

  lemma ApplyKeepsDriftBounded(st: State, e: Event)
    requires |st.queue| <= CAPACITY && DriftBounded(st) && Sensible(e)
    ensures DriftBounded(Apply(st, e))
  {
    hide ApplySync, S32, MoveOf;
    if e.Abs? {
      InRange(e.value);
    } else if e.Sync? {
      SyncKeepsDriftBounded(st);
    }
  }

  lemma {:induction false} DriftOverARun(st: State, events: seq<Event>)
    requires |st.queue| <= CAPACITY && DriftBounded(st)
    requires forall e :: e in events ==> Sensible(e)
    ensures DriftBounded(Run(st, events))
  {
    if events != [] {
      var most, e := events[..|events| - 1], events[|events| - 1];
      DriftOverARun(st, most);
      assert e in events && Sensible(e);
      hide DriftBounded, Apply;
      ApplyKeepsDriftBounded(Run(st, most), e);
    }
  }

  function TotalMove(q: seq<Report>): Move {
    if q == [] then STILL else Plus(TotalMove(q[..|q| - 1]), MoveOf(q[|q| - 1]))
  }

  lemma NoMove()
    ensures TotalMove([]) == STILL
  {
  }

  lemma TotalAppend(q: seq<Report>, r: Report)
    ensures TotalMove(q + [r]) == Plus(TotalMove(q), MoveOf(r))
  {
    assert (q + [r])[..|q + [r]| - 1] == q;
  }

  lemma {:induction false} TotalFirst(q: seq<Report>)
    requires q != []
    ensures TotalMove(q) == Plus(MoveOf(q[0]), TotalMove(q[1..]))
  {
    hide TotalMove, MoveOf;
    NoMove();
    var most, last := q[..|q| - 1], q[|q| - 1];
    assert q == most + [last];
    TotalAppend(most, last);
    if most != [] {
      TotalFirst(most);
      assert q[1..] == most[1..] + [last];
      TotalAppend(most[1..], last);
    }
  }

  /** Every move in a report has been polled, is queued, or was given up by the ring. */
  predicate MovesConserved(st: State) {
    |st.queue| <= CAPACITY && Balanced(st.queue, st.emitted, st.polled, st.dropped)
  }

  predicate Balanced(queue: seq<Report>, emitted: Move, polled: Move, dropped: Move) {
    emitted == Plus(Plus(polled, TotalMove(queue)), dropped)
  }

  lemma NothingIsBalanced()
    ensures Balanced([], STILL, STILL, STILL)
  {
    hide TotalMove;
    NoMove();
  }

  lemma EnqueueConserves(st: State, r: Report)
    requires MovesConserved(st)
    ensures MovesConserved(Enqueue(st, r))
  {
    hide MoveOf, TotalMove;
    TotalAppend(st.queue, r);
    if |st.queue| == CAPACITY {
      TotalFirst(st.queue);
      TotalAppend(st.queue[1..], r);
    }
  }

  lemma SyncConserves(st: State)
    requires MovesConserved(st)
    ensures MovesConserved(ApplySync(st))
  {
    hide Enqueue, MultitouchReport, BootReport, Quarter, S32, TotalMove;
    if st.event && st.multitouch {
      EnqueueConserves(st.(event := false, sequence := U32(st.sequence + 1)), MultitouchReport(st));
    } else if st.event {
      var dx, dy := S32(st.absX - st.prevX), S32(st.absY - st.prevY);
      EnqueueConserves(
        st.(event := false, prevX := st.absX, prevY := st.absY, frames := st.frames + 1,
            wide := st.wide || !Narrow(dx) || !Narrow(dy)),
        BootReport(Quarter(dx), Quarter(dy), st.left));
    }
  }

  lemma ApplyConserves(st: State, e: Event)
    requires MovesConserved(st)
    ensures MovesConserved(Apply(st, e))
  {
    hide *;
    MovesStay(st, e);
    if e.Sync? {
      SyncConserves(st);
    } else if e.Poll? {
      PollConserves(st);
    }
  }

  lemma MovesStay(st: State, e: Event)
    requires MovesConserved(st)
    ensures |st.queue| <= CAPACITY
    ensures e.Sync? ==> Apply(st, e) == ApplySync(st)
    ensures e.Poll? ==> Apply(st, e) == ApplyPoll(st)
    ensures !e.Sync? && !e.Poll? ==> MovesConserved(Apply(st, e))
  {
    NothingIsBalanced();
    hide Balanced, S32, ApplySync, ApplyPoll;
  }

  lemma PollConserves(st: State)
    requires MovesConserved(st)
    ensures MovesConserved(ApplyPoll(st))
  {
    hide MoveOf, TotalMove;
    if st.queue != [] {
      TotalFirst(st.queue);
    }
  }

  lemma {:induction false} MovesConservedOverARun(st: State, events: seq<Event>)
    requires MovesConserved(st)
    ensures MovesConserved(Run(st, events))
  {
    if events != [] {
      var most, e := events[..|events| - 1], events[|events| - 1];
      MovesConservedOverARun(st, most);
      hide MovesConserved, Apply;
      ApplyConserves(Run(st, most), e);
    }
  }

  /** Over every run, with a host that polls as it likes: while no report had to be clamped, what the
      host has read and has yet to read is off from the last position reported by at most three
      units a report and what the ring gave up.  A host that lost nothing and has read everything
      is thus off by at most three units a report. */
  lemma HostDrift(events: seq<Event>)
    requires forall e :: e in events ==> Sensible(e)
    requires !Run(Init(), events).wide
    ensures var st := Run(Init(), events);
            var known := Plus(st.polled, TotalMove(st.queue));
            && Magnitude(st.prevX - known.x - st.dropped.x) <= 3 * st.frames
            && Magnitude(st.prevY - known.y - st.dropped.y) <= 3 * st.frames
            && Magnitude(st.prevX - known.x) <= 3 * st.frames + Magnitude(st.dropped.x)
            && Magnitude(st.prevY - known.y) <= 3 * st.frames + Magnitude(st.dropped.y)
            && (st.queue == [] && st.dropped == STILL ==>
                  && Magnitude(st.prevX - st.polled.x) <= 3 * st.frames
                  && Magnitude(st.prevY - st.polled.y) <= 3 * st.frames)
  {
    hide Run, MoveOf, TotalMove;
    DriftOverARun(Init(), events);
    ConservedFromTheStart(events);
    NoMove();
    hide Fits;
  }

  lemma ConservedFromTheStart(events: seq<Event>)
    ensures MovesConserved(Run(Init(), events))
  {
    hide Run, Balanced;
    NothingIsBalanced();
    MovesConservedOverARun(Init(), events);
  }

  // ---------- The bound is reached, and passed where the ring overflows ----------

  lemma RunAppend(st: State, events: seq<Event>, e: Event)
    requires |st.queue| <= CAPACITY
    ensures Run(st, events + [e]) == Apply(Run(st, events), e)
  {
    assert (events + [e])[..|events + [e]| - 1] == events;
  }

  function Times(a: int, n: int): int {
    a * n
  }

  lemma TimesOneMore(a: int, n: nat)
    ensures Times(a, n + 1) == Times(a, n) + a
    ensures Times(a, 0) == 0 == Times(0, n)
    ensures 0 <= a ==> 0 <= Times(a, n)
  {
  }

  /** The events of a pointer that goes to the right by the same step n times, a sync after each. */
  function Glide(step: nat, n: nat): seq<Event> {
    if n == 0 then [] else Glide(step, n - 1) + [Abs(AxisX, Times(step, n)), Sync]
  }

  function Kept(n: nat): (k: nat)
    ensures k <= CAPACITY
  {
    if n < CAPACITY then n else CAPACITY
  }

  /** After n such frames that nobody polled: n reports, of which the ring keeps the last 31. */
  predicate Glided(st: State, step: nat, n: nat) {
    && !st.multitouch && !st.wide && !st.left && st.frames == n && st.polled == STILL
    && st.absX == st.prevX == Times(step, n) && st.absY == st.prevY == 0
    && st.queue == Repeated(Quarter(step), Kept(n))
    && st.emitted == Move(Times(4 * Quarter(step), n), 0)
  }

  function Repeated(dx: int, n: nat): (q: seq<Report>)
    ensures |q| == n
  {
    seq(n, i => BootReport(dx, 0, false))
  }

  lemma OneMoreRepeated(dx: int, n: nat)
    ensures Push(Repeated(dx, Kept(n)), BootReport(dx, 0, false), CAPACITY) == Repeated(dx, Kept(n + 1))
  {
    hide BootReport;
  }

  lemma GlideOnce(st: State, step: nat, n: nat)
    requires step < 512 && Times(step, n + 1) <= RANGE && Glided(st, step, n)
    ensures Glided(Apply(Apply(st, Abs(AxisX, Times(step, n + 1))), Sync), step, n + 1)
  {
    TimesOneMore(step, n);
    TimesOneMore(4 * Quarter(step), n);
    InRange(Times(step, n + 1));
    InRange(step);
    InRange(0);
    BootReportCarries(step, 0, false);
    assert Quarter(0) == 0 && Narrow(step) && Narrow(0);
    OneMoreRepeated(Quarter(step), n);
    hide S32, Quarter, MoveOf, BootReport, Narrow, MultitouchReport, Times, Push, Repeated, Kept;
  }

  lemma {:induction false} Glides(step: nat, n: nat)
    requires step < 512 && Times(step, n) <= RANGE
    ensures Glided(Run(Init(), Glide(step, n)), step, n)
  {
    if n > 0 {
      TimesOneMore(step, n - 1);
      Glides(step, n - 1);
      hide Glided, Apply, Times;
      var before, moved := Glide(step, n - 1), Abs(AxisX, Times(step, n));
      GlideOnce(Run(Init(), before), step, n - 1);
      RunAppend(Init(), before, moved);
      RunAppend(Init(), before + [moved], Sync);
      assert before + [moved] + [Sync] == Glide(step, n);
    } else {
      TimesOneMore(step, 0);
      TimesOneMore(4 * Quarter(step), 0);
      hide Times, Quarter;
    }
  }

  lemma {:induction false} TotalRepeated(dx: int, n: nat)
    requires -128 <= dx < 128
    ensures TotalMove(Repeated(dx, n)) == Move(Times(4 * dx, n), 0)
  {
    TimesOneMore(4 * dx, 0);
    if n > 0 {
      TimesOneMore(4 * dx, n - 1);
      TotalRepeated(dx, n - 1);
      SignedBytes(dx);
      hide Times;
      assert Repeated(dx, n)[..n - 1] == Repeated(dx, n - 1);
    }
  }

  /** What a host can know after a glide that it did not poll. */
  lemma GlideIsKnown(step: nat, n: nat)
    requires step < 512 && Times(step, n) <= RANGE
    ensures var st := Run(Init(), Glide(step, n));
            && !st.wide && st.frames == n && st.prevX == Times(step, n) && st.polled == Move(0, 0)
            && TotalMove(st.queue) == Move(Times(4 * Quarter(step), Kept(n)), 0)
            && st.dropped == Move(Times(4 * Quarter(step), n) - Times(4 * Quarter(step), Kept(n)), 0)
  {
    hide *;
    Glides(step, n);
    WhatGlided(Run(Init(), Glide(step, n)), step, n);
    ConservedFromTheStart(Glide(step, n));
    LeftOver(Run(Init(), Glide(step, n)));
  }

  lemma WhatGlided(st: State, step: nat, n: nat)
    requires Glided(st, step, n) && step < 512
    ensures !st.wide && st.frames == n && st.prevX == Times(step, n) && st.polled.x == st.polled.y == 0
    ensures st.emitted == Move(Times(4 * Quarter(step), n), 0)
    ensures TotalMove(st.queue) == Move(Times(4 * Quarter(step), Kept(n)), 0)
  {
    SmallQuarter(step);
    hide Quarter, Times, Kept, TotalMove, Repeated;
    TotalRepeated(Quarter(step), Kept(n));
  }

  lemma SmallQuarter(step: nat)
    ensures -128 <= Quarter(step) < 128
  {
  }

  lemma LeftOver(st: State)
    requires MovesConserved(st)
    ensures st.dropped.x == st.emitted.x - st.polled.x - TotalMove(st.queue).x
    ensures st.dropped.y == st.emitted.y - st.polled.y - TotalMove(st.queue).y
  {
    hide TotalMove;
  }

  lemma SomeQuarters()
    ensures Quarter(3) == 0 && Quarter(400) == 100
  {
  }

  /** A pointer that creeps by three units a frame never moves for the host, however far it goes. */
  lemma CreepingIsNotSeen(n: nat)
    requires 3 * n <= RANGE
    ensures var st := Run(Init(), Glide(3, n));
            && !st.wide && st.frames == n && st.prevX == 3 * n
            && st.polled == STILL && TotalMove(st.queue) == STILL && st.dropped == STILL
  {
    hide Run, TotalMove, Glide, Quarter, Kept;
    SomeQuarters();
    GlideIsKnown(3, n);
  }

  /** Where the ring overflows the bound fails: of n frames of 400 units that nobody polls, the host
      can only ever learn of the last 31. */
  lemma OverflowIsLost(n: nat)
    requires 31 <= n && 400 * n <= RANGE
    ensures var st := Run(Init(), Glide(400, n));
            var known := Plus(st.polled, TotalMove(st.queue));
            && !st.wide && st.frames == n && st.prevX == 400 * n
            && known.x == 400 * 31 && st.dropped == Move(400 * (n - 31), 0)
            && (Magnitude(st.prevX - known.x) <= 3 * st.frames <==> n == 31)
  {
    hide Run, TotalMove, Glide, Quarter;
    SomeQuarters();
    GlideIsKnown(400, n);
  }

  // ---------- The mode ----------

  /** The host has asked for multitouch since the last reset. */
  predicate AskedForMultitouch(events: seq<Event>) {
    events != [] &&
    (events[|events| - 1] == EnableMultitouch
     || (events[|events| - 1] != Reset && AskedForMultitouch(events[..|events| - 1])))
  }

  lemma {:induction false} ModeOverARun(events: seq<Event>)
    ensures Run(Init(), events).multitouch <==> AskedForMultitouch(events)
  {
    if events != [] {
      hide ApplySync, ApplyPoll;
      ModeOverARun(events[..|events| - 1]);
      SyncKeepsMode(Run(Init(), events[..|events| - 1]));
    }
  }

  lemma SyncKeepsMode(st: State)
    requires |st.queue| <= CAPACITY
    ensures ApplySync(st).multitouch == st.multitouch && ApplyPoll(st).multitouch == st.multitouch
  {
    hide S32, Push, MoveOf, MultitouchReport, Quarter, Narrow;
  }

  lemma SyncByMode(st: State)
    requires |st.queue| <= CAPACITY && st.event
    ensures var now := ApplySync(st);
            if st.multitouch then now.frames == st.frames && now.log == st.log + [MultitouchReport(st)]
            else now.frames == st.frames + 1 && |now.log| == |st.log| + 1 && |now.log[|st.log|]| == 8
  {
    hide S32, Push, MoveOf, MultitouchReport, Quarter, Narrow;
  }

  /** In every run a sync reports fingers if the host has asked for that since the last reset, and
      relative moves otherwise: no relative report is made after the request, and no other before. */
  lemma ModeIsTheHosts(events: seq<Event>)
    requires Run(Init(), events).event
    ensures var st := Run(Init(), events);
            var now := ApplySync(st);
            if AskedForMultitouch(events) then now.frames == st.frames && now.log == st.log + [MultitouchReport(st)]
            else now.frames == st.frames + 1 && |now.log| == |st.log| + 1 && |now.log[|st.log|]| == 8
  {
    hide *;
    ModeOverARun(events);
    SyncByMode(Run(Init(), events));
  }

  // ---------- The input ----------

  /** The value of the last absolute event of an axis, 0 for none; a reset does not forget it. */
  function LastAbs(events: seq<Event>, axis: Axis): int {
    if events == [] then 0 else
      var e := events[|events| - 1];
      if e.Abs? && e.axis == axis then e.value else LastAbs(events[..|events| - 1], axis)
  }

  /** The last event of the left button since the last reset was a press. */
  predicate LeftPressed(events: seq<Event>) {
    if events == [] then false else
      var e := events[|events| - 1];
      if e.Reset? then false
      else if e.Btn? && e.isLeft then e.down
      else LeftPressed(events[..|events| - 1])
  }

  /** An absolute event, on whatever axis, has come since the last reset. */
  predicate Touched(events: seq<Event>) {
    if events == [] then false else
      var e := events[|events| - 1];
      !e.Reset? && (e.Abs? || Touched(events[..|events| - 1]))
  }

  /** A button or an absolute event has come since the last sync or reset. */
  predicate MarkedSinceSync(events: seq<Event>) {
    if events == [] then false else
      var e := events[|events| - 1];
      !e.Reset? && !e.Sync? && (e.Abs? || e.Btn? || MarkedSinceSync(events[..|events| - 1]))
  }

  lemma InputStep(st: State, e: Event)
    requires |st.queue| <= CAPACITY
    ensures var now := Apply(st, e);
            && now.absX == (if e.Abs? && e.axis == AxisX then S32(e.value) else st.absX)
            && now.absY == (if e.Abs? && e.axis == AxisY then S32(e.value) else st.absY)
            && (now.left <==> !e.Reset? && if e.Btn? && e.isLeft then e.down else st.left)
            && (now.finger <==> !e.Reset? && (e.Abs? || st.finger))
            && (now.event <==> !e.Reset? && !e.Sync? && (e.Abs? || e.Btn? || st.event))
  {
    hide S32, ApplySync, ApplyPoll;
    SyncKeepsInput(st);
  }

  lemma SyncKeepsInput(st: State)
    requires |st.queue| <= CAPACITY
    ensures var now := ApplySync(st);
            && now.absX == st.absX && now.absY == st.absY && now.left == st.left && now.finger == st.finger && !now.event
    ensures var now := ApplyPoll(st);
            && now.absX == st.absX && now.absY == st.absY && now.left == st.left && now.finger == st.finger && now.event == st.event
  {
    hide S32, Push, MoveOf, MultitouchReport, Quarter, Narrow;
  }

  /** In every run the device knows the last position of each axis, whether the left button is pressed,
      whether there is a finger, and whether there is something to report. */
  lemma {:induction false} InputIsKept(events: seq<Event>)
    ensures var st := Run(Init(), events);
            && st.absX == S32(LastAbs(events, AxisX)) && st.absY == S32(LastAbs(events, AxisY))
            && (st.left <==> LeftPressed(events)) && (st.finger <==> Touched(events))
            && (st.event <==> MarkedSinceSync(events))
  {
    if events == [] {
      InRange(0);
    } else {
      hide Apply, S32;
      InputIsKept(events[..|events| - 1]);
      InputStep(Run(Init(), events[..|events| - 1]), events[|events| - 1]);
    }
  }

  /** What a relative report says: the quarters of the distance between the position now and the one
      last reported, with the left button; it makes the position now the one last reported. */
  lemma RelativeReport(st: State)
    requires |st.queue| <= CAPACITY && st.event && !st.multitouch
    ensures var now := ApplySync(st);
            && now.prevX == st.absX && now.prevY == st.absY && now.sequence == st.sequence
            && now.log == st.log + [BootReport(Quarter(S32(st.absX - st.prevX)), Quarter(S32(st.absY - st.prevY)), st.left)]
  {
    hide S32, Push, MoveOf, Quarter, Narrow, BootReport;
  }

  /** A finger report leaves the position last reported, and counts up modulo 2^32. */
  lemma FingerReport(st: State)
    requires |st.queue| <= CAPACITY && st.event && st.multitouch
    ensures var now := ApplySync(st);
            && now.prevX == st.prevX && now.prevY == st.prevY
            && now.sequence == (if st.sequence == 0xffff_ffff then 0 else st.sequence + 1)
            && now.log == st.log + [MultitouchReport(st)]
  {
    hide S32, Push, MoveOf, MultitouchReport;
  }

  /** A poll takes the oldest report; a sync with nothing to report does nothing; a reset forgets all but
      the position. */
  lemma PollsAndResets(st: State)
    requires |st.queue| <= CAPACITY
    ensures st.queue == [] ==> Apply(st, Poll) == st
    ensures st.queue != [] ==> Apply(st, Poll) == st.(queue := st.queue[1..], polled := Apply(st, Poll).polled)
    ensures !st.event ==> Apply(st, Sync) == st
    ensures var now := Apply(st, Reset);
            && !now.multitouch && !now.left && !now.finger && !now.event && now.sequence == 0 && now.queue == []
            && now.prevX == now.prevY == 0 && now.absX == st.absX && now.absY == st.absY
  {
    hide S32, EmitBoot, MoveOf, MultitouchReport;
  }

  // ---------- The ring ----------

  /** The queue holds the youngest reports, in order. */
  predicate Youngest(queue: seq<Report>, log: seq<Report>) {
    |queue| <= CAPACITY && |queue| <= |log| && queue == log[|log| - |queue|..]
  }

  lemma PushKeepsYoungest(queue: seq<Report>, log: seq<Report>, r: Report)
    requires Youngest(queue, log)
    ensures Youngest(Push(queue, r, CAPACITY), log + [r])
  {
  }

  lemma {:induction false} QueueIsYoungest(st: State, events: seq<Event>)
    requires Youngest(st.queue, st.log)
    ensures var now := Run(st, events); Youngest(now.queue, now.log)
  {
    if events != [] {
      var most, e := events[..|events| - 1], events[|events| - 1];
      QueueIsYoungest(st, most);
      hide Apply;
      ApplyKeepsYoungest(Run(st, most), e);
    }
  }

  lemma ApplyKeepsYoungest(st: State, e: Event)
    requires Youngest(st.queue, st.log)
    ensures var now := Apply(st, e); Youngest(now.queue, now.log)
  {
    hide S32, ApplySync;
    if e.Sync? {
      SyncKeepsYoungest(st);
    }
  }

  lemma SyncEnqueues(st: State) returns (r: Report)
    requires |st.queue| <= CAPACITY && st.event
    ensures var now := ApplySync(st); now.queue == Push(st.queue, r, CAPACITY) && now.log == st.log + [r]
  {
    hide S32, Push, MoveOf, MultitouchReport, BootReport, Quarter, Narrow;
    r := if st.multitouch then MultitouchReport(st)
         else BootReport(Quarter(S32(st.absX - st.prevX)), Quarter(S32(st.absY - st.prevY)), st.left);
  }

  lemma SyncKeepsYoungest(st: State)
    requires Youngest(st.queue, st.log)
    ensures var now := ApplySync(st); Youngest(now.queue, now.log)
  {
    if st.event {
      var r := SyncEnqueues(st);
      hide ApplySync;
      PushKeepsYoungest(st.queue, st.log, r);
    }
  }
}
