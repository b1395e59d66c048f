/** The frame-notification protocol of the paravirtual GPU shell.

    Any number of render threads call apple_gfx_frame_ready; each call performs one or two
    compare-and-swaps on pending_frames and may schedule the one-shot bottom half
    apple_gfx_frame_ready_bh.  Bottom halves run one at a time.  Every atomic operation,
    every schedule and every read_frame is a step of its own, and steps interleave freely. */
module FrameProtocol {

  // Where a notification (one call of frame_ready) stands.
  datatype CallerPc =
    | First         // before cmpxchg(0, 1)
    | Second        // cmpxchg(0, 1) saw something else; before cmpxchg(1, 2)
    | MustSchedule  // won 0 -> 1; before scheduling the bottom half
    | Returned

  // Where the bottom half that is running stands.
  datatype DrainPc =
    | Idle
    | Check      // before the first read of pending_frames
    | Reread     // in the early-return branch, before its own read of pending_frames
    | TakeEarly  // in the early-return branch, before its fetch_sub
    | Take       // on the main path, before its fetch_sub
    | Read       // before lagfx_display_read_frame
    | Tail       // after the frame was read, before the last read of pending_frames
    | Rearm      // before scheduling itself again

  // Shared state, followed by history that no step consults.
  datatype State = State(
    pending: int,
    callers: seq<CallerPc>,
    scheduled: nat,          // bottom halves queued and not yet started
    drain: DrainPc,
    display: bool,           // lagfx_disp is non-NULL
    unserved: set<nat>,      // notifications whose first cmpxchg no read_frame has begun after
    overtaken: bool,         // since the last read_frame began, the early branch took the last token
    accepted: nat,           // successful cmpxchg operations
    taken: nat,              // fetch_subs on the main path
    early: nat,              // fetch_subs in the early-return branch
    begun: nat,              // read_frame calls
    cleared: int)            // tokens wiped by teardown

  datatype Action =
    | Arrive        // a render thread enters frame_ready
    | Step(i: nat)  // notification i performs its next operation
    | Start         // the event loop starts a queued bottom half
    | Drain         // the running bottom half performs its next operation
    | FreeDisplay   // teardown: lagfx_display_free returned, lagfx_disp := NULL
    | Disarm        // teardown: pending_frames := 0

  function Init(): State {
    State(0, [], 0, Idle, true, {}, false, 0, 0, 0, 0, 0)
  }

  predicate AllReturned(s: State) {
    forall i :: 0 <= i < |s.callers| ==> s.callers[i] == Returned
  }

  predicate Enabled(s: State, a: Action) {
    match a
    case Arrive => s.display
    case Step(i) => i < |s.callers| && s.callers[i] != Returned
    case Start => s.drain == Idle && s.scheduled > 0
    case Drain => s.drain != Idle
    // The display is freed on the bottom half's own thread, and freeing it waits for callbacks.
    case FreeDisplay => s.display && s.drain == Idle && AllReturned(s)
    case Disarm => !s.display && s.drain == Idle
  }

  function StepCaller(s: State, i: nat): State
    requires i < |s.callers| && s.callers[i] != Returned
  {
    match s.callers[i]
    case First =>
      var s := s.(unserved := s.unserved + {i});
      if s.pending == 0 then
        s.(pending := 1, accepted := s.accepted + 1, callers := s.callers[i := MustSchedule])
      else
        s.(callers := s.callers[i := Second])
    case Second =>
      if s.pending == 1 then
        s.(pending := 2, accepted := s.accepted + 1, callers := s.callers[i := Returned])
      else
        s.(callers := s.callers[i := Returned])
    case MustSchedule =>
      s.(scheduled := s.scheduled + 1, callers := s.callers[i := Returned])
  }

  function StepDrain(s: State): State
    requires s.drain != Idle
  {
    match s.drain
    case Check => s.(drain := if s.pending <= 0 || !s.display then Reread else Take)
    case Reread => s.(drain := if s.pending > 0 then TakeEarly else Idle)
    case TakeEarly =>
      s.(pending := s.pending - 1, early := s.early + 1, drain := Idle,
         overtaken := s.overtaken || s.pending == 1)
    case Take => s.(pending := s.pending - 1, taken := s.taken + 1, drain := Read)
    case Read => s.(begun := s.begun + 1, drain := Tail, unserved := {}, overtaken := false)
    case Tail => s.(drain := if s.pending > 0 then Rearm else Idle)
    case Rearm => s.(scheduled := s.scheduled + 1, drain := Idle)
  }

  /** One action; an action that is not enabled leaves the state alone. */
  function Next(s: State, a: Action): State {
    if !Enabled(s, a) then s else
      match a
      case Arrive => s.(callers := s.callers + [First])
      case Step(i) => StepCaller(s, i)
      case Start => s.(scheduled := s.scheduled - 1, drain := Check)
      case Drain => StepDrain(s)
      case FreeDisplay => s.(display := false)
      case Disarm => s.(pending := 0, cleared := s.cleared + s.pending)
  }

  function Run(acts: seq<Action>): State {
    if acts == [] then Init() else Next(Run(acts[..|acts| - 1]), acts[|acts| - 1])
  }

  // ---------- What every step keeps ----------

  predicate Armed(s: State) {
    s.scheduled > 0 || exists i :: 0 <= i < |s.callers| && s.callers[i] == MustSchedule
  }

  predicate BeforeTailCheck(d: DrainPc) {
    d == Check || d == Take || d == Read || d == Tail || d == Rearm
  }

  ghost predicate Inv(s: State) {
    && 0 <= s.pending <= 2
    && (s.drain == Take || s.drain == TakeEarly ==> s.pending >= 1)
    && (s.drain == Take || s.drain == Read || s.drain == Tail || s.drain == Rearm ==> s.display)
    && (s.display && s.pending > 0 ==> Armed(s) || BeforeTailCheck(s.drain))
    && (s.display && s.unserved != {} ==> s.pending > 0 || s.drain == Read || s.overtaken)
    && (s.display && s.overtaken ==> s.unserved != {} && s.early > 0)
    && (s.display && s.pending > 0 && (s.drain == Reread || s.drain == TakeEarly) ==> s.unserved != {})
    && (!s.display ==> AllReturned(s))
    && s.accepted == s.taken + s.early + s.pending + s.cleared
    && s.taken == s.begun + (if s.drain == Read then 1 else 0)
  }

  lemma ArmedAfterCaller(s: State, i: nat)
    requires i < |s.callers| && s.callers[i] != Returned
    ensures Armed(s) ==> Armed(StepCaller(s, i))
    ensures StepCaller(s, i).pending > s.pending == 0 ==> Armed(StepCaller(s, i))
  {
    var t := StepCaller(s, i);
    if s.callers[i] == First && s.pending == 0 {
      assert t.callers[i] == MustSchedule;
    } else if Armed(s) && s.scheduled == 0 {
      var j :| 0 <= j < |s.callers| && s.callers[j] == MustSchedule;
      assert j != i ==> t.callers[j] == MustSchedule;
    }
  }

  lemma ArriveKeepsInv(s: State)
    requires Inv(s) && Enabled(s, Arrive)
    ensures Inv(Next(s, Arrive))
  {
    var t := Next(s, Arrive);
    assert forall j :: 0 <= j < |s.callers| ==> t.callers[j] == s.callers[j];
  }

  lemma StepKeepsInv(s: State, i: nat)
    requires Inv(s) && Enabled(s, Step(i))
    ensures Inv(Next(s, Step(i)))
  {
    ArmedAfterCaller(s, i);
    LiveWhileCalled(s, i);
    hide Armed, AllReturned;
    assert i in s.unserved + {i};
  }

  lemma LiveWhileCalled(s: State, i: nat)
    requires Inv(s) && Enabled(s, Step(i))
    ensures s.display
  {
  }

  lemma StartKeepsInv(s: State)
    requires Inv(s) && Enabled(s, Start)
    ensures Inv(Next(s, Start))
  {
  }

  lemma DrainKeepsInv(s: State)
    requires Inv(s) && Enabled(s, Drain)
    ensures Inv(Next(s, Drain))
  {
    ArmedAfterDrain(s);
    hide Armed, AllReturned;
  }

  lemma ArmedAfterDrain(s: State)
    requires s.drain != Idle
    ensures StepDrain(s).callers == s.callers
    ensures Armed(s) || s.drain == Rearm ==> Armed(StepDrain(s))
    ensures AllReturned(s) ==> AllReturned(StepDrain(s))
  {
    if Armed(s) && s.scheduled == 0 {
      var j :| 0 <= j < |s.callers| && s.callers[j] == MustSchedule;
      assert StepDrain(s).callers[j] == MustSchedule;
    }
  }

  lemma TeardownKeepsInv(s: State, a: Action)
    requires Inv(s) && Enabled(s, a) && (a == FreeDisplay || a == Disarm)
    ensures Inv(Next(s, a))
  {
    hide Armed;
  }

  lemma NextKeepsInv(s: State, a: Action)
    requires Inv(s)
    ensures Inv(Next(s, a))
  {
    hide *;
    if !Enabled(s, a) {
      Refused(s, a);
    } else {
      match a
      case Arrive => ArriveKeepsInv(s);
      case Step(i) => StepKeepsInv(s, i);
      case Start => StartKeepsInv(s);
      case Drain => DrainKeepsInv(s);
      case FreeDisplay => TeardownKeepsInv(s, a);
      case Disarm => TeardownKeepsInv(s, a);
    }
  }

  lemma Refused(s: State, a: Action)
    requires !Enabled(s, a)
    ensures Next(s, a) == s
  {
  }

  lemma {:induction false} RunKeepsInv(acts: seq<Action>)
    ensures Inv(Run(acts))
  {
    if acts != [] {
      RunKeepsInv(acts[..|acts| - 1]);
      NextKeepsInv(Run(acts[..|acts| - 1]), acts[|acts| - 1]);
    }
  }

  /** pending_frames never leaves 0..2, in every interleaving. */
  lemma PendingStaysInRange(acts: seq<Action>)
    ensures 0 <= Run(acts).pending <= 2
  {
    RunKeepsInv(acts);
  }

  /** Both ends of that range are reached. */
  lemma TheCapIsReached()
    ensures Run([]).pending == 0
    ensures Run([] + [Arrive, Step(0), Arrive] + [Step(1), Step(1), Step(0)]).pending == 2
  {
    RunExtends3([], Arrive, Step(0), Arrive);
    RunExtends3([] + [Arrive, Step(0), Arrive], Step(1), Step(1), Step(0));
    var a := Next3(Init(), Arrive, Step(0), Arrive);
    OneWaits();
    hide Run, Next3;
    TwoPending(a);
  }

  lemma OneWaits()
    ensures Next3(Init(), Arrive, Step(0), Arrive) == State(1, [MustSchedule, First], 0, Idle, true, {0}, false, 1, 0, 0, 0, 0)
  {
    assert Next(Init(), Arrive).callers == [First];
    assert Next(Next(Init(), Arrive), Step(0)).callers == [MustSchedule];
  }

  lemma TwoPending(s: State)
    requires s == State(1, [MustSchedule, First], 0, Idle, true, {0}, false, 1, 0, 0, 0, 0)
    ensures Next3(s, Step(1), Step(1), Step(0)).pending == 2
  {
    assert Next(s, Step(1)).callers == [MustSchedule, Second];
    assert Next(Next(s, Step(1)), Step(1)).callers == [MustSchedule, Returned];
  }

  /** The protocol never stalls: while the display lives, a positive count always has a bottom
      half that is queued, about to be queued, or running before its last look at the count. */
  lemma NeverStalls(acts: seq<Action>)
    requires Run(acts).display && Run(acts).pending > 0
    ensures Armed(Run(acts)) || BeforeTailCheck(Run(acts).drain)
  {
    RunKeepsInv(acts);
  }

  /** Tokens are conserved; every token taken on the main path begins exactly one read_frame. */
  lemma TokensAreConserved(acts: seq<Action>)
    ensures var s := Run(acts);
            && s.accepted == s.taken + s.early + s.pending + s.cleared
            && s.begun <= s.taken <= s.begun + 1
            && (s.drain != Read ==> s.begun == s.taken)
            && (s.display ==> s.cleared == 0)
  {
    RunKeepsInv(acts);
    NothingClearedWhileLive(acts);
  }

  lemma {:induction false} NothingClearedWhileLive(acts: seq<Action>)
    ensures Run(acts).display ==> Run(acts).cleared == 0
  {
    if acts != [] {
      NothingClearedWhileLive(acts[..|acts| - 1]);
    }
  }

  // ---------- Is every notification followed by a read? ----------

  predicate Quiet(s: State) {
    s.drain == Idle && s.scheduled == 0 && AllReturned(s)
  }

  predicate BeginsRead(acts: seq<Action>, u: nat)
    requires u < |acts|
  {
    Run(acts[..u]).drain == Read && acts[u] == Drain
  }

  predicate FirstSwapAt(acts: seq<Action>, i: nat, t: nat)
    requires t < |acts|
  {
    && i < |Run(acts[..t]).callers|
    && Run(acts[..t]).callers[i] == First
    && acts[t] == Step(i)
  }

  /** A notification past its first compare-and-swap stays there, and stays unserved until a
      read_frame begins. */
  lemma UnservedUntilRead(s: State, a: Action, i: nat)
    requires i < |s.callers| && s.callers[i] != First
    ensures i < |Next(s, a).callers| && Next(s, a).callers[i] != First
    ensures i in Next(s, a).unserved <==> i in s.unserved && !(s.drain == Read && a == Drain)
  {
  }

  lemma UnservedFromFirstSwap(s: State, i: nat)
    requires i < |s.callers| && s.callers[i] == First
    ensures var t := Next(s, Step(i));
            i < |t.callers| && t.callers[i] != First && i in t.unserved
  {
  }

  lemma SamePrefix(acts: seq<Action>, u: nat)
    requires u < |acts| - 1
    ensures acts[..|acts| - 1][..u] == acts[..u]
  {
  }

  /** The history variable means what it says: a notification is unserved exactly when no
      read_frame began after its first compare-and-swap. */
  lemma {:induction false} UnservedMeansNoLaterRead(acts: seq<Action>, i: nat, t: nat)
    requires t < |acts| && FirstSwapAt(acts, i, t)
    ensures i < |Run(acts).callers| && Run(acts).callers[i] != First
    ensures i in Run(acts).unserved <==> forall u :: t < u < |acts| ==> !BeginsRead(acts, u)
    decreases |acts|
  {
    var n := |acts| - 1;
    var most := acts[..n];
    if t == n {
      UnservedFromFirstSwap(Run(most), i);
    } else {
      forall u: nat | u < n ensures BeginsRead(most, u) == BeginsRead(acts, u) {
        SamePrefix(acts, u);
      }
      SamePrefix(acts, t);
      UnservedMeansNoLaterRead(most, i, t);
      UnservedUntilRead(Run(most), acts[n], i);
      assert BeginsRead(acts, n) == (Run(most).drain == Read && acts[n] == Drain);
    }
  }

  /** Once everything has come to rest with the display alive, no token is left, and every
      notification has been followed by a read_frame if and only if the early-return branch
      did not take the last token since the last read_frame began. */
  lemma QuietMeansServedUnlessOvertaken(acts: seq<Action>)
    requires Quiet(Run(acts)) && Run(acts).display
    ensures Run(acts).pending == 0
    ensures Run(acts).unserved == {} <==> !Run(acts).overtaken
  {
    RunKeepsInv(acts);
  }

  /** The same for one notification: in a run whose early-return branch takes no token, each
      notification is followed, once the run is quiet, by a read_frame that begins after it. */
  lemma EveryNotificationIsRead(acts: seq<Action>, i: nat, t: nat) returns (u: nat)
    requires t < |acts| && FirstSwapAt(acts, i, t)
    requires Quiet(Run(acts)) && Run(acts).display && Run(acts).early == 0
    ensures t < u < |acts| && BeginsRead(acts, u)
  {
    RunKeepsInv(acts);
    UnservedMeansNoLaterRead(acts, i, t);
    u :| t < u < |acts| && BeginsRead(acts, u);
  }

  lemma RunExtends(acts: seq<Action>, a: Action)
    ensures Run(acts + [a]) == Next(Run(acts), a)
  {
    assert (acts + [a])[..|acts + [a]| - 1] == acts;
  }

  function Next3(s: State, a: Action, b: Action, c: Action): State {
    Next(Next(Next(s, a), b), c)
  }

  lemma RunExtends3(acts: seq<Action>, a: Action, b: Action, c: Action)
    ensures Run(acts + [a, b, c]) == Next3(Run(acts), a, b, c)
  {
    RunExtends(acts, a);
    RunExtends(acts + [a], b);
    RunExtends(acts + [a] + [b], c);
    assert acts + [a] + [b] + [c] == acts + [a, b, c];
  }

  /** The promise is false of the code as it stands.  Notification 0 is taken by a bottom half;
      notification 1 arrives before that bottom half looks at the count for the last time, so
      two bottom halves are queued for its one token; notification 2 arrives between the two
      reads of the count made by the second of them, which then takes the token of 2. */
  lemma ANotificationCanBeLost() returns (acts: seq<Action>)
    ensures var s := Run(acts); s.display && Quiet(s) && s.pending == 0 && s.unserved == {2}
  {
    hide *;
    acts := [];
    RunOfNothing();
    acts := Onward(acts, Init(), Arrive, Step(0), Step(0));
    OneArrives();
    acts := Onward(acts, Waiting, Start, Drain, Drain);
    OneIsTaken();
    acts := Onward(acts, Reading, Arrive, Step(1), Step(1));
    AnotherArrives();
    acts := Onward(acts, TwoQueued, Drain, Drain, Drain);
    TailRearms();
    acts := Onward(acts, Rearmed, Start, Drain, Drain);
    acts := Onward(acts, ReadingAgain, Drain, Drain, Start);
    TokenIsGone();
    acts := Onward(acts, Checking, Drain, Arrive, Step(2));
    ArrivesBetweenTheReads();
    acts := Onward(acts, Rechecking, Drain, Drain, Step(2));
    IsStolen();
    acts := Onward(acts, Stolen, Start, Drain, Drain);
    NothingIsLeft();
  }

  lemma RunOfNothing()
    ensures Run([]) == Init()
  {
  }

  lemma Onward(acts: seq<Action>, s: State, a: Action, b: Action, c: Action) returns (more: seq<Action>)
    requires Run(acts) == s
    ensures Run(more) == Next3(s, a, b, c)
  {
    RunExtends3(acts, a, b, c);
    more := acts + [a, b, c];
  }

  const Waiting := State(1, [Returned], 1, Idle, true, {0}, false, 1, 0, 0, 0, 0)
  const Reading := State(0, [Returned], 0, Read, true, {0}, false, 1, 1, 0, 0, 0)
  const TwoQueued := State(1, [Returned, Returned], 1, Read, true, {0, 1}, false, 2, 1, 0, 0, 0)
  const Rearmed := State(1, [Returned, Returned], 2, Idle, true, {}, false, 2, 1, 0, 1, 0)
  const ReadingAgain := State(0, [Returned, Returned], 1, Read, true, {}, false, 2, 2, 0, 1, 0)
  const Checking := State(0, [Returned, Returned], 0, Check, true, {}, false, 2, 2, 0, 2, 0)
  const Rechecking := State(1, [Returned, Returned, MustSchedule], 0, Reread, true, {2}, false, 3, 2, 0, 2, 0)
  const Stolen := State(0, [Returned, Returned, Returned], 1, Idle, true, {2}, true, 3, 2, 1, 2, 0)

  lemma OneArrives()
    ensures Next3(Init(), Arrive, Step(0), Step(0)) == Waiting
  {
    var a := Next(Init(), Arrive);
    assert a.callers == [First];
    assert Next(a, Step(0)).callers == [MustSchedule];
    assert Next3(Init(), Arrive, Step(0), Step(0)).callers == [Returned];
  }

  lemma OneIsTaken()
    ensures Next3(Waiting, Start, Drain, Drain) == Reading
  {
  }

  lemma AnotherArrives()
    ensures Next3(Reading, Arrive, Step(1), Step(1)) == TwoQueued
  {
    var a := Next(Reading, Arrive);
    assert a.callers == [Returned, First];
    assert Next(a, Step(1)).callers == [Returned, MustSchedule];
    assert Next3(Reading, Arrive, Step(1), Step(1)).callers == [Returned, Returned];
  }

  lemma TailRearms()
    ensures Next3(TwoQueued, Drain, Drain, Drain) == Rearmed
    ensures Next3(Rearmed, Start, Drain, Drain) == ReadingAgain
  {
  }

  lemma TokenIsGone()
    ensures Next3(ReadingAgain, Drain, Drain, Start) == Checking
  {
  }

  lemma ArrivesBetweenTheReads()
    ensures Next3(Checking, Drain, Arrive, Step(2)) == Rechecking
  {
    var a := Next(Next(Checking, Drain), Arrive);
    assert a.callers == [Returned, Returned, First];
    assert Next(a, Step(2)).callers == [Returned, Returned, MustSchedule];
  }

  lemma IsStolen()
    ensures Next3(Rechecking, Drain, Drain, Step(2)) == Stolen
  {
  }

  lemma NothingIsLeft()
    ensures var s := Next3(Stolen, Start, Drain, Drain); s.display && Quiet(s) && s.pending == 0 && s.unserved == {2}
  {
  }

  // ---------- Everything comes to rest ----------

  function CallerWork(cs: seq<CallerPc>): nat {
    if cs == [] then 0 else CallWork(cs[0]) + CallerWork(cs[1..])
  }

  function CallWork(pc: CallerPc): nat {
    match pc
    case First => 13 case Second => 8 case MustSchedule => 5 case Returned => 0
  }

  function DrainWork(d: DrainPc): nat {
    match d
    case Idle => 0 case Check => 3 case Reread => 2 case TakeEarly => 1
    case Take => 1 case Read => 7 case Tail => 6 case Rearm => 5
  }

  /** An upper bound on the number of steps left if no further notification arrives. */
  function Work(s: State): int {
    CallerWork(s.callers) + 7 * s.pending + 4 * s.scheduled + DrainWork(s.drain)
  }

  lemma {:induction false} CallerWorkUpdate(cs: seq<CallerPc>, i: nat, pc: CallerPc)
    requires i < |cs|
    ensures CallerWork(cs[i := pc]) == CallerWork(cs) - CallWork(cs[i]) + CallWork(pc)
  {
    hide CallWork;
    if i > 0 {
      CallerWorkUpdate(cs[1..], i - 1, pc);
      assert cs[i := pc][1..] == cs[1..][i - 1 := pc];
    } else {
      assert cs[i := pc][1..] == cs[1..];
    }
  }

  lemma CallerProgress(s: State, i: nat)
    requires Inv(s) && Enabled(s, Step(i))
    ensures Work(StepCaller(s, i)) < Work(s)
  {
    hide Inv, CallerWork;
    var t := StepCaller(s, i);
    assert t.callers == s.callers[i := t.callers[i]];
    CallerWorkUpdate(s.callers, i, t.callers[i]);
  }

  lemma DrainProgress(s: State)
    requires Inv(s) && Enabled(s, Drain)
    ensures Work(StepDrain(s)) < Work(s)
  {
    hide CallerWork, Armed, AllReturned;
  }

  lemma WorkIsNatural(s: State)
    requires Inv(s)
    ensures 0 <= Work(s)
  {
    hide Armed, AllReturned, CallerWork;
  }

  /** Every step other than an arrival or a teardown uses up some of the remaining work ... */
  lemma EveryStepMakesProgress(s: State, a: Action)
    requires Inv(s) && Enabled(s, a) && (a.Step? || a == Start || a == Drain)
    ensures 0 <= Work(Next(s, a)) < Work(s)
  {
    NextKeepsInv(s, a);
    WorkIsNatural(Next(s, a));
    hide Inv, CallerWork, StepCaller, StepDrain;
    match a
    case Step(i) => CallerProgress(s, i);
    case Drain => DrainProgress(s);
    case Start =>
  }

  predicate WithoutArrivals(s: State, acts: seq<Action>)
    decreases |acts|
  {
    acts == [] ||
    (Enabled(s, acts[0]) && (acts[0].Step? || acts[0] == Start || acts[0] == Drain)
     && WithoutArrivals(Next(s, acts[0]), acts[1..]))
  }

  /** ... hence a run without arrivals has at most Work(s) steps, whatever the schedule, ... */
  lemma {:induction false} ComesToRest(s: State, acts: seq<Action>)
    requires Inv(s) && WithoutArrivals(s, acts)
    ensures |acts| <= Work(s)
    decreases |acts|
  {
    if acts != [] {
      EveryStepMakesProgress(s, acts[0]);
      NextKeepsInv(s, acts[0]);
      ComesToRest(Next(s, acts[0]), acts[1..]);
    }
  }

  /** ... and it ends only where QuietMeansServedUnlessOvertaken speaks. */
  lemma RestIsQuiet(s: State)
    requires forall a: Action :: Enabled(s, a) ==> !a.Step? && a != Start && a != Drain
    ensures Quiet(s)
  {
    assert !Enabled(s, Start) && !Enabled(s, Drain);
    forall i | 0 <= i < |s.callers| ensures s.callers[i] == Returned {
      assert !Enabled(s, Step(i));
    }
  }

  // ---------- Teardown ----------

  lemma TeardownStep(s: State, a: Action)
    requires Inv(s) && !s.display && s.pending == 0
    ensures var t := Next(s, a);
            && !t.display && t.pending == 0
            && t.begun == s.begun && t.early == s.early && t.scheduled <= s.scheduled
  {
    match a
    case Step(i) => assert !Enabled(s, a);
    case _ =>
  }

  /** After the display is gone and the counter is cleared, whatever bottom halves are still
      queued run out: none of them reads a frame, takes a token or queues another one. */
  lemma {:induction false} TeardownDrains(before: seq<Action>, after: seq<Action>)
    requires !Run(before).display && Run(before).pending == 0
    ensures var s := Run(before); var t := Run(before + after);
            && !t.display && t.pending == 0
            && t.begun == s.begun && t.early == s.early && t.scheduled <= s.scheduled
    decreases |after|
  {
    if after == [] {
      assert before + after == before;
    } else {
      var n := |after| - 1;
      TeardownDrains(before, after[..n]);
      RunKeepsInv(before + after[..n]);
      TeardownStep(Run(before + after[..n]), after[n]);
      RunExtends(before + after[..n], after[n]);
      assert before + after[..n] + [after[n]] == before + after;
    }
  }

  /** read_frame is never reached with a NULL display, during teardown or at any other time. */
  lemma NeverReadsAFreedDisplay(acts: seq<Action>, u: nat)
    requires u < |acts| && BeginsRead(acts, u)
    ensures Run(acts[..u]).display
  {
    RunKeepsInv(acts[..u]);
  }
}
