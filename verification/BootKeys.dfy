/** The boot keyboard as values: at most six slot keys in order of press, a byte of modifiers, and
    what the host was last told.  The laws compare it with a keyboard that forgets nothing. */
module BootKeys {
  import opened MachineInts

  const SLOTS: nat := 6
  const REPORT_LENGTH: nat := 10
  const REPORT_ID: Byte := 1

  datatype State = State(
    keys: seq<Byte>,
    modifiers: bv8,
    changed: bool,
    told: seq<Byte>)      // the bytes of the host's last report, which no operation consults

  datatype Event =
    | Key(usage: Byte, down: bool)
    | Poll(size: nat)
    | Reset

  predicate IsModifier(usage: Byte) {
    0xe0 <= usage <= 0xe7
  }

  predicate IsSlotKey(usage: Byte) {
    usage != 0 && !IsModifier(usage)
  }

  function BitOf(usage: Byte): bv8
    requires IsModifier(usage)
  {
    match usage - 0xe0
    case 0 => 1 case 1 => 2 case 2 => 4 case 3 => 8
    case 4 => 16 case 5 => 32 case 6 => 64 case _ => 128
  }

  predicate HasBit(modifiers: bv8, usage: Byte)
    requires IsModifier(usage)
  {
    modifiers & BitOf(usage) != 0
  }

  function SetBit(modifiers: bv8, usage: Byte, down: bool): bv8
    requires IsModifier(usage)
  {
    if down then modifiers | BitOf(usage) else modifiers & !BitOf(usage)
  }

  function Remove(q: seq<Byte>, x: Byte): (r: seq<Byte>)
    ensures |r| <= |q|
  {
    if q == [] then [] else if q[0] == x then q[1..] else [q[0]] + Remove(q[1..], x)
  }

  function Add(q: seq<Byte>, x: Byte): seq<Byte> {
    if x in q then q else q + [x]
  }

  // ---------- The operations ----------

  function Init(): State {
    State([], 0, false, Released())
  }

  function ApplyUsage(st: State, usage: Byte, down: bool): State {
    if usage == 0 then st
    else if IsModifier(usage) then
      st.(modifiers := SetBit(st.modifiers, usage, down))
    else if !down then st.(keys := Remove(st.keys, usage))
    else if |st.keys| < SLOTS then st.(keys := Add(st.keys, usage))
    else st
  }

  function ApplyKey(st: State, usage: Byte, down: bool): State {
    var now := ApplyUsage(st, usage, down);
    if now == st then st else now.(changed := true)
  }

  function Zeros(n: nat): (z: seq<Byte>) {
    seq(n, i => 0)
  }

  function Pack(modifiers: bv8, keys: seq<Byte>): (report: seq<Byte>)
    requires |keys| <= SLOTS
    ensures |report| == REPORT_LENGTH
  {
    [REPORT_ID, modifiers as Byte, 0] + keys + Zeros(SLOTS - |keys|) + [0]
  }

  /** The report of a keyboard nobody touches. */
  function Released(): seq<Byte> {
    Pack(0, [])
  }

  function Copied(report: seq<Byte>, size: nat): seq<Byte> {
    if size < |report| then report[..size] else report
  }

  function ApplyPoll(st: State, size: nat): State
    requires |st.keys| <= SLOTS
  {
    if st.changed then st.(changed := false, told := Copied(Pack(st.modifiers, st.keys), size)) else st
  }

  function ApplyReset(st: State): State {
    st.(keys := [], modifiers := 0, changed := false)
  }

  function Apply(st: State, e: Event): (now: State)
    requires |st.keys| <= SLOTS
    ensures |now.keys| <= SLOTS
  {
    match e
    case Key(usage, down) => ApplyKey(st, usage, down)
    case Poll(size) => ApplyPoll(st, size)
    case Reset => ApplyReset(st)
  }

  function Run(events: seq<Event>): (st: State)
    ensures |st.keys| <= SLOTS
  {
    if events == [] then Init() else Apply(Run(events[..|events| - 1]), events[|events| - 1])
  }

  // ---------- The slots ----------

  predicate Distinct(q: seq<Byte>) {
    forall i, j :: 0 <= i < j < |q| ==> q[i] != q[j]
  }

  predicate WellFormed(keys: seq<Byte>) {
    Distinct(keys) && forall k :: k in keys ==> IsSlotKey(k)
  }

  lemma {:induction false} RemoveIs(q: seq<Byte>, x: Byte)
    requires Distinct(q)
    ensures Distinct(Remove(q, x))
    ensures forall k :: k in Remove(q, x) <==> k in q && k != x
    ensures x !in q ==> Remove(q, x) == q
  {
    if q != [] {
      var first, rest := q[0], q[1..];
      assert q == [first] + rest;
      assert Distinct(rest) && first !in rest;
      RemoveIs(rest, x);
      DistinctCons(first, Remove(rest, x));
    }
  }

  lemma DistinctCons(x: Byte, q: seq<Byte>)
    requires Distinct(q) && x !in q
    ensures Distinct([x] + q)
  {
  }

  lemma AddIs(q: seq<Byte>, x: Byte)
    requires Distinct(q)
    ensures Distinct(Add(q, x))
    ensures forall k :: k in Add(q, x) <==> k in q || k == x
  {
  }

  /** The slots always hold distinct non-zero keys that are not modifiers. */
  lemma {:induction false} SlotsStayWellFormed(events: seq<Event>)
    ensures WellFormed(Run(events).keys)
  {
    if events != [] {
      var st, e := Run(events[..|events| - 1]), events[|events| - 1];
      SlotsStayWellFormed(events[..|events| - 1]);
      if e.Key? {
        RemoveIs(st.keys, e.usage);
        AddIs(st.keys, e.usage);
      }
    }
  }

  // ---------- A keyboard that forgets nothing ----------

  /** Whether a key is physically down, as far as the events since the last reset tell. */
  predicate Down(events: seq<Event>, usage: Byte) {
    if events == [] then false else
      var e := events[|events| - 1];
      if e.Reset? then false
      else if e.Key? && e.usage == usage then e.down
      else Down(events[..|events| - 1], usage)
  }

  /** All slot keys that are down, in order of press. */
  function Held(events: seq<Event>): seq<Byte> {
    if events == [] then [] else
      var e := events[|events| - 1];
      var before := Held(events[..|events| - 1]);
      if e.Reset? then []
      else if e.Key? && IsSlotKey(e.usage) then (if e.down then Add(before, e.usage) else Remove(before, e.usage))
      else before
  }

  lemma {:induction false} HeldAreTheKeysDown(events: seq<Event>)
    ensures Distinct(Held(events))
    ensures forall u :: u in Held(events) <==> IsSlotKey(u) && Down(events, u)
  {
    if events != [] {
      var most, e := events[..|events| - 1], events[|events| - 1];
      HeldAreTheKeysDown(most);
      if e.Key? {
        RemoveIs(Held(most), e.usage);
        AddIs(Held(most), e.usage);
      }
    }
  }

  /** A bit of the modifier byte is set exactly while its key is down. */
  lemma {:induction false} ModifiersAreExact(events: seq<Event>, usage: Byte)
    requires IsModifier(usage)
    ensures HasBit(Run(events).modifiers, usage) <==> Down(events, usage)
  {
    NoBits(usage);
    hide HasBit, SetBit;
    if events != [] {
      hide Pack, Copied;
      var most, e := events[..|events| - 1], events[|events| - 1];
      ModifiersAreExact(most, usage);
      if e.Key? && IsModifier(e.usage) {
        BitsAreApart(Run(most).modifiers, e.usage, e.down, usage);
      }
    }
  }

  lemma NoBits(usage: Byte)
    requires IsModifier(usage)
    ensures !HasBit(0, usage)
  {
  }

  lemma BitsAreApart(m: bv8, changed: Byte, down: bool, read: Byte)
    requires IsModifier(changed) && IsModifier(read)
    ensures HasBit(SetBit(m, changed, down), read) <==> if changed == read then down else HasBit(m, read)
  {
  }

  /** Whatever happened before, a key in a slot is down. */
  lemma {:induction false} SlotsHoldOnlyKeysDown(events: seq<Event>)
    ensures forall u :: u in Run(events).keys ==> Down(events, u)
  {
    if events != [] {
      var most, e := events[..|events| - 1], events[|events| - 1];
      SlotsHoldOnlyKeysDown(most);
      SlotsStayWellFormed(most);
      if e.Key? {
        RemoveIs(Run(most).keys, e.usage);
        AddIs(Run(most).keys, e.usage);
      }
    }
  }

  predicate ShowsHeld(events: seq<Event>, n: nat)
    requires n <= |events|
  {
    Run(events[..n]).keys == Held(events[..n])
  }

  predicate AtMostSix(events: seq<Event>, n: nat)
    requires n <= |events|
  {
    |Held(events[..n])| <= SLOTS
  }

  /** The slots show the keys that are down, in order of press, at every moment of a run if and
      only if there are never more than six of them: the seventh is dropped, and not shown even
      after another is released. */
  lemma SlotsShowTheKeysDown(events: seq<Event>)
    ensures (forall n: nat | n <= |events| :: ShowsHeld(events, n)) <==> (forall n: nat | n <= |events| :: AtMostSix(events, n))
  {
    if forall n: nat | n <= |events| :: AtMostSix(events, n) {
      forall n: nat | n <= |events|
        ensures ShowsHeld(events, n)
      {
        SixAreShown(events, n);
      }
    }
    forall n: nat | n <= |events| && ShowsHeld(events, n)
      ensures AtMostSix(events, n)
    {
    }
  }

  lemma {:induction false} SixAreShown(events: seq<Event>, n: nat)
    requires n <= |events| && forall k: nat | k <= n :: AtMostSix(events, k)
    ensures ShowsHeld(events, n)
  {
    if n > 0 {
      SixAreShown(events, n - 1);
      assert events[..n][..n - 1] == events[..n - 1];
      HeldAreTheKeysDown(events[..n - 1]);
      assert AtMostSix(events, n);
    }
  }

  /** A seventh key is not taken up when a slot frees, although it is still down. */
  lemma TheSeventhKeyStaysHidden(keys: seq<Byte>, seventh: Byte)
    requires |keys| == SLOTS && WellFormed(keys) && IsSlotKey(seventh) && seventh !in keys
    ensures var st := Init().(keys := keys);
            var now := Apply(Apply(st, Key(seventh, true)), Key(keys[0], false));
            now.keys == keys[1..] && seventh !in now.keys
  {
    assert keys[0] in keys;
  }

  // ---------- The order ----------

  /** The reference keyboard lists its keys in the order in which they went down: a press appends, a
      release closes the gap, and anything else leaves the list alone. */
  lemma HeldInOrder(events: seq<Event>, usage: Byte, down: bool)
    ensures var before, now := Held(events), Held(events + [Key(usage, down)]);
            && (!IsSlotKey(usage) || (usage in before <==> down) ==> now == before)
            && (IsSlotKey(usage) && down && usage !in before ==> now == before + [usage])
            && (IsSlotKey(usage) && !down ==> forall i: nat :: i < |before| && before[i] == usage ==> now == before[..i] + before[i + 1..])
    ensures forall size: nat :: Held(events + [Poll(size)]) == Held(events)
    ensures Held(events + [Reset]) == []
  {
    HeldAreTheKeysDown(events);
    RemoveIs(Held(events), usage);
    assert forall e: Event :: (events + [e])[..|events + [e]| - 1] == events;
    hide Distinct, Down;
    forall i: nat | i < |Held(events)| && Held(events)[i] == usage
      ensures Remove(Held(events), usage) == Held(events)[..i] + Held(events)[i + 1..]
    {
      HeldAreTheKeysDown(events);
      RemoveAt(Held(events), i);
    }
  }

  lemma {:induction false} RemoveAt(q: seq<Byte>, i: nat)
    requires i < |q| && Distinct(q)
    ensures Remove(q, q[i]) == q[..i] + q[i + 1..]
  {
    if i > 0 {
      RemoveAt(q[1..], i - 1);
    }
  }

  // ---------- The bits and the bytes ----------

  /** The modifier keys are the bits of their byte in order, the lowest for 0xe0. */
  lemma BitsAreInOrder(modifiers: bv8, i: nat)
    requires i < 8
    ensures HasBit(modifiers, 0xe0 + i) <==> (modifiers >> i) & 1 == 1
  {
    match i
    case 0 => case 1 => case 2 => case 3 => case 4 => case 5 => case 6 => case _ =>
  }

  /** A key event marks the keyboard for the host exactly when it changes what is held. */
  lemma OnlyChangesAreMarked(st: State, usage: Byte, down: bool)
    requires |st.keys| <= SLOTS
    ensures var now := Apply(st, Key(usage, down));
            && (now.changed <==> st.changed || now.keys != st.keys || now.modifiers != st.modifiers)
            && now.told == st.told
            && (usage == 0 ==> now == st)
  {
  }

  /** A poll of a marked keyboard tells the host as many bytes of the report as it made room for, and
      all ten if that is enough, and takes the mark away; any other changes nothing. */
  lemma PollTells(st: State, size: nat)
    requires |st.keys| <= SLOTS
    ensures var now := Apply(st, Poll(size));
            && (!st.changed ==> now == st)
            && (st.changed ==> now == st.(changed := false, told := now.told))
            && (st.changed ==> |now.told| == if size < 10 then size else 10)
            && (st.changed ==> forall i :: 0 <= i < |now.told| ==> now.told[i] == Pack(st.modifiers, st.keys)[i])
  {
  }

  /** Byte for byte: a one, the modifiers, nothing, the slots from the first on, nothing. */
  lemma ReportBytes(modifiers: bv8, keys: seq<Byte>, i: nat)
    requires |keys| <= SLOTS && i < 10
    ensures Pack(modifiers, keys)[i]
         == if i == 0 then 1 else if i == 1 then modifiers as int
            else if 3 <= i < 3 + |keys| then keys[i - 3] else 0
  {
  }

  /** A reset releases everything and takes the mark away; what the host was told stays. */
  lemma ResetReleases(st: State)
    requires |st.keys| <= SLOTS
    ensures var now := Apply(st, Reset);
            now.keys == [] && now.modifiers == 0 && !now.changed && now.told == st.told
  {
  }

  // ---------- What the host knows ----------

  /** The slot keys a host reads out of a report. */
  function KeysIn(report: seq<Byte>): seq<Byte>
    requires |report| == REPORT_LENGTH
  {
    NonZero(report[3..9])
  }

  function ModifiersIn(report: seq<Byte>): bv8
    requires |report| == REPORT_LENGTH
  {
    report[1] as bv8
  }

  function NonZero(q: seq<Byte>): seq<Byte> {
    if q == [] then [] else if q[0] == 0 then NonZero(q[1..]) else [q[0]] + NonZero(q[1..])
  }

  lemma {:induction false} NonZeroOfPadded(keys: seq<Byte>, n: nat)
    requires 0 !in keys
    ensures NonZero(keys + Zeros(n)) == keys
    decreases |keys|, n
  {
    if keys != [] {
      assert keys[0] in keys && keys == [keys[0]] + keys[1..];
      assert (keys + Zeros(n))[1..] == keys[1..] + Zeros(n);
      NonZeroOfPadded(keys[1..], n);
    } else if n > 0 {
      assert (keys + Zeros(n))[1..] == keys + Zeros(n - 1);
      NonZeroOfPadded(keys, n - 1);
    }
  }

  lemma ReportRoundTrip(modifiers: bv8, keys: seq<Byte>)
    requires |keys| <= SLOTS && WellFormed(keys)
    ensures var report := Pack(modifiers, keys);
            report[0] == REPORT_ID && ModifiersIn(report) == modifiers && KeysIn(report) == keys
  {
    var report := Pack(modifiers, keys);
    assert report[3..9] == keys + Zeros(SLOTS - |keys|);
    NonZeroOfPadded(keys, SLOTS - |keys|);
  }

  /** When nothing is marked for the host, its last report is the current state, as far as the
      host made room for it. */
  predicate Agreed(st: State)
    requires |st.keys| <= SLOTS
  {
    !st.changed ==> st.told <= Pack(st.modifiers, st.keys)
  }

  lemma AgreementIsKept(st: State, e: Event)
    requires |st.keys| <= SLOTS && Agreed(st) && e != Reset
    ensures Agreed(Apply(st, e))
  {
  }

  /** A reset leaves the host with the keys it last saw held, if there were any: agreement survives
      it exactly when the last report was one of an untouched keyboard. */
  lemma AgreementAfterReset(st: State)
    requires |st.keys| <= SLOTS
    ensures Agreed(Apply(st, Reset)) <==> st.told <= Released()
  {
  }

  /** The last reset found the host with a report of something held, and nothing has been pressed
      since. */
  predicate Stale(events: seq<Event>) {
    if events == [] then false else
      var most, e := events[..|events| - 1], events[|events| - 1];
      match e
      case Reset => !(Run(most).told <= Released())
      case Key(usage, down) => Stale(most) && !(down && usage != 0)
      case Poll(_) => Stale(most)
  }

  /** A stale keyboard is one that nobody touches, and that marks nothing for the host. */
  lemma {:induction false} StaleIsUntouched(events: seq<Event>)
    ensures Stale(events) ==>
              var st := Run(events);
              !st.changed && st.keys == [] && st.modifiers == 0 && !(st.told <= Released())
  {
    if events != [] {
      hide Pack, Copied;
      var most, e := events[..|events| - 1], events[|events| - 1];
      StaleIsUntouched(most);
      if Stale(most) && e.Key? && !e.down {
        ReleasingNothing(Run(most), e.usage);
      }
    }
  }

  lemma ReleasingNothing(st: State, usage: Byte)
    requires st.keys == [] && st.modifiers == 0
    ensures ApplyKey(st, usage, false) == st
  {
  }

  /** Pressing anything on an untouched keyboard marks it for the host. */
  lemma PressingMarks(st: State, usage: Byte)
    requires st.keys == [] && st.modifiers == 0 && usage != 0
    ensures ApplyKey(st, usage, true).changed
  {
  }

  /** In every run, with resets and polls of any size: agreement fails exactly while stale. */
  lemma {:induction false} AgreementOverARun(events: seq<Event>)
    ensures Agreed(Run(events)) <==> !Stale(events)
  {
    if events != [] {
      hide Pack, Copied, Released, Agreed;
      var most, e := events[..|events| - 1], events[|events| - 1];
      var st := Run(most);
      AgreementOverARun(most);
      StaleIsUntouched(most);
      StaleIsUntouched(events);
      if e == Reset {
        AgreementAfterReset(st);
      } else if !Stale(most) {
        AgreementIsKept(st, e);
      } else if Stale(events) {
        UntouchedAgrees(Run(events));
      } else {
        PressingMarks(st, e.usage);
        MarkedAgrees(Run(events));
      }
    } else {
      UntouchedAgrees(Init());
    }
  }

  lemma UntouchedAgrees(st: State)
    requires st.keys == [] && st.modifiers == 0 && !st.changed
    ensures Agreed(st) <==> st.told <= Released()
  {
  }

  lemma MarkedAgrees(st: State)
    requires |st.keys| <= SLOTS && st.changed
    ensures Agreed(st)
  {
  }

  /** The bytes of a report that never vary. */
  predicate Framed(told: seq<Byte>) {
    |told| == REPORT_LENGTH ==> told[0] == REPORT_ID && told[2] == 0 && told[9] == 0
  }

  lemma {:induction false} ToldIsFramed(events: seq<Event>)
    ensures Framed(Run(events).told) && |Run(events).told| <= REPORT_LENGTH
  {
    if events != [] {
      ToldIsFramed(events[..|events| - 1]);
    }
  }

  lemma {:induction false} NonZeroNothing(q: seq<Byte>)
    requires NonZero(q) == []
    ensures forall i :: 0 <= i < |q| ==> q[i] == 0
  {
    if q != [] {
      NonZeroNothing(q[1..]);
      assert q == [q[0]] + q[1..];
    }
  }

  /** A report that shows nothing held is the one of an untouched keyboard. */
  lemma NothingShown(told: seq<Byte>)
    requires |told| == REPORT_LENGTH && Framed(told) && KeysIn(told) == [] && ModifiersIn(told) == 0
    ensures told == Released()
  {
    NonZeroNothing(told[3..9]);
    assert forall i :: 3 <= i < 9 ==> told[i] == told[3..9][i - 3];
    ModifierByte(told[1]);
  }

  lemma ModifierByte(b: Byte)
    requires b as bv8 == 0
    ensures b == 0
  {
  }

  /** The host reads the state out of its last report. */
  predicate HostSees(told: seq<Byte>, keys: seq<Byte>, modifiers: bv8)
    requires |told| == REPORT_LENGTH
  {
    KeysIn(told) == keys && ModifiersIn(told) == modifiers
  }

  /** In every run, once nothing is marked for the host: a whole last report shows the slots and the
      modifiers as they are if and only if it is not stale. */
  lemma TheHostSeesTheState(events: seq<Event>)
    requires !Run(events).changed && |Run(events).told| == REPORT_LENGTH
    ensures HostSees(Run(events).told, Run(events).keys, Run(events).modifiers) <==> !Stale(events)
  {
    hide Run, Stale, Pack, Framed, KeysIn, ModifiersIn;
    var st := Run(events);
    AgreementOverARun(events);
    StaleIsUntouched(events);
    ToldIsFramed(events);
    SlotsStayWellFormed(events);
    ReportRoundTrip(st.modifiers, st.keys);
    if !Stale(events) {
      assert st.told == Pack(st.modifiers, st.keys);
    } else if HostSees(st.told, st.keys, st.modifiers) {
      NothingShown(st.told);
      assert false;
    }
  }

  /** Never more than six slot keys down since the last reset. */
  predicate SixSinceReset(events: seq<Event>) {
    events == [] || events[|events| - 1] == Reset
    || (|Held(events)| <= SLOTS && SixSinceReset(events[..|events| - 1]))
  }

  lemma {:induction false} SixSinceResetAreShown(events: seq<Event>)
    requires SixSinceReset(events)
    ensures Run(events).keys == Held(events)
  {
    if events != [] && events[|events| - 1] != Reset {
      var most := events[..|events| - 1];
      hide Pack, Copied, SetBit;
      SixSinceResetAreShown(most);
      HeldAreTheKeysDown(most);
      RemoveIs(Held(most), if events[|events| - 1].Key? then events[|events| - 1].usage else 0);
    }
  }

  /** What that means for the keyboard itself: in every run, once nothing is marked for the host and
      its last report is whole and not stale, that report names exactly the modifiers that are down,
      only keys that are down, and all of them in order of press if they never exceeded six since
      the last reset. */
  lemma AQuietKeyboardIsKnown(events: seq<Event>)
    requires !Run(events).changed && |Run(events).told| == REPORT_LENGTH && !Stale(events)
    ensures forall u: Byte | IsModifier(u) :: HasBit(ModifiersIn(Run(events).told), u) <==> Down(events, u)
    ensures forall u :: u in KeysIn(Run(events).told) ==> Down(events, u)
    ensures SixSinceReset(events) ==> KeysIn(Run(events).told) == Held(events)
  {
    hide Run, Stale, KeysIn, ModifiersIn, Held, Down, HasBit, SixSinceReset;
    TheHostSeesTheState(events);
    SlotsHoldOnlyKeysDown(events);
    if SixSinceReset(events) {
      SixSinceResetAreShown(events);
    }
    forall u: Byte | IsModifier(u)
      ensures HasBit(ModifiersIn(Run(events).told), u) <==> Down(events, u)
    {
      ModifiersAreExact(events, u);
    }
  }
}
