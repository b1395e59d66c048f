/** A guest that writes commands into the SVGA ring and a device that runs on it, in any order: why
    the pieces in which the words are published do not matter. */
module SvgaSchedules {
  import opened MachineInts
  import opened SvgaCommands
  import opened SvgaOvertaking

  const MIN: nat := 0
  const MAX: nat := 1
  const NEXT: nat := 2
  const STOP: nat := 3

  // The FIFO memory, whose first four words are the pointers, and the effects so far.
  datatype Device = Device(memory: seq<Word>, effects: seq<Effect>)

  function RingOf(d: Device): Ring
    requires |d.memory| == FIFO_BYTES / 4
  {
    Ring(d.memory, d.memory[MIN], d.memory[MAX])
  }

  /** The pointers lie on the ring. */
  predicate Live(d: Device) {
    && |d.memory| == FIFO_BYTES / 4
    && On(RingOf(d), d.memory[NEXT]) && On(RingOf(d), d.memory[STOP])
  }

  function Count(d: Device): (n: nat)
    requires Live(d)
    ensures 4 * n < d.memory[MAX] - d.memory[MIN] <= FIFO_BYTES
  {
    DistanceIsExact(RingOf(d), d.memory[STOP], d.memory[NEXT]);
    Distance(d.memory[MIN], d.memory[MAX], d.memory[NEXT], d.memory[STOP])
  }

  /** The words between the consumer and the producer. */
  function Queue(d: Device): (q: seq<Word>)
    requires Live(d)
    ensures |q| == Count(d)
  {
    Words(RingOf(d), d.memory[STOP], Count(d))
  }

  // ---------- What the guest and the device do ----------

  /** The guest stores words at the producer's position and onward ... */
  function Store(r: Ring, p: nat, ws: seq<Word>): (memory: seq<Word>)
    requires On(r, p)
    ensures |memory| == |r.memory|
    decreases |ws|
  {
    if ws == [] then r.memory else Store(r.(memory := r.memory[p / 4 := ws[0]]), After(r, p), ws[1..])
  }

  /** ... and then moves the producer's position behind them. */
  function Publish(d: Device, ws: seq<Word>): Device
    requires Live(d)
  {
    var r := RingOf(d);
    Device(Store(r, d.memory[NEXT], ws)[NEXT := Forward(r, d.memory[NEXT], |ws|)], d.effects)
  }

  /** fifo_run: at most 1023 commands. */
  function RunDevice(d: Device): Device
    requires Live(d)
  {
    var r := RingOf(d);
    var res := Run(r, d.memory[STOP], Count(d), COMMANDS_PER_RUN);
    Device(d.memory[STOP := Forward(r, d.memory[STOP], res.used)], d.effects + res.effects)
  }

  /** The guest leaves at least one word of the ring free. */
  predicate Room(d: Device, ws: seq<Word>)
    requires Live(d)
  {
    4 * (Count(d) + |ws|) < d.memory[MAX] - d.memory[MIN]
  }

  datatype Action = Piece(ws: seq<Word>) | Go

  function Act(d: Device, a: Action): Device
    requires Live(d)
  {
    match a
    case Piece(ws) => Publish(d, ws)
    case Go => RunDevice(d)
  }

  predicate Allowed(d: Device, a: Action)
    requires Live(d)
  {
    a.Piece? ==> Room(d, a.ws)
  }

  /** Every piece finds room when its turn comes. */
  predicate Playable(d: Device, actions: seq<Action>)
    decreases |actions|
  {
    Live(d) && (actions == [] || (Allowed(d, actions[0]) && Playable(Act(d, actions[0]), actions[1..])))
  }

  function Play(d: Device, actions: seq<Action>): (e: Device)
    requires Playable(d, actions)
    ensures Live(e)
    decreases |actions|
  {
    if actions == [] then d else Play(Act(d, actions[0]), actions[1..])
  }

  /** All the words of a schedule. */
  function Published(actions: seq<Action>): seq<Word> {
    if actions == [] then [] else WordsOf(actions[0]) + Published(actions[1..])
  }

  function WordsOf(a: Action): seq<Word> {
    if a.Piece? then a.ws else []
  }

  // ---------- Publishing appends to the queue ----------

  lemma {:induction false} ForwardSame(r: Ring, memory: seq<Word>, p: nat, k: nat)
    requires On(r, p) && |memory| == |r.memory|
    ensures On(r.(memory := memory), p) && Forward(r.(memory := memory), p, k) == Forward(r, p, k)
  {
    if k > 0 {
      ForwardSame(r, memory, p, k - 1);
    }
  }

  /** Positions less than a turn of the ring apart are different. */
  lemma ForwardApart(r: Ring, p: nat, i: nat, n: nat)
    requires On(r, p) && i < n && 4 * n < r.max - r.min
    ensures Forward(r, p, i) / 4 != Forward(r, p, n) / 4 >= 4
  {
    hide Forward;
    ForwardIs(r, p, i);
    ForwardIs(r, p, n);
  }

  /** A word stored n places on leaves the n words before it alone. */
  lemma {:induction false} WordsBefore(r: Ring, p: nat, n: nat, w: Word, k: nat)
    requires On(r, p) && k <= n && 4 * n < r.max - r.min
    ensures var r' := r.(memory := r.memory[Forward(r, p, n) / 4 := w]);
            On(r', p) && Words(r', p, k) == Words(r, p, k)
    decreases k
  {
    var memory := r.memory[Forward(r, p, n) / 4 := w];
    ForwardSame(r, memory, p, 0);
    if k > 0 {
      WordsBefore(r, p, n, w, k - 1);
      ForwardSame(r, memory, p, k - 1);
      ForwardApart(r, p, k - 1, n);
    }
  }

  lemma StoreOne(r: Ring, p: nat, n: nat, w: Word)
    requires On(r, p) && 4 * n < r.max - r.min
    ensures var r' := r.(memory := r.memory[Forward(r, p, n) / 4 := w]);
            On(r', p) && Words(r', p, n + 1) == Words(r, p, n) + [w]
  {
    var memory := r.memory[Forward(r, p, n) / 4 := w];
    WordsBefore(r, p, n, w, n);
    ForwardSame(r, memory, p, n);
  }

  lemma StoreFirst(r: Ring, p: nat, n: nat, ws: seq<Word>)
    requires On(r, p) && ws != []
    ensures var next := r.(memory := r.memory[Forward(r, p, n) / 4 := ws[0]]);
            && On(next, p)
            && Store(r, Forward(r, p, n), ws) == Store(next, Forward(next, p, n + 1), ws[1..])
  {
    var at := Forward(r, p, n);
    ForwardSame(r, r.memory[at / 4 := ws[0]], p, n + 1);
    AfterForward(r, p, n);
    hide Forward;
  }

  lemma {:induction false} StoreAppends(r: Ring, p: nat, n: nat, ws: seq<Word>)
    requires On(r, p) && 4 * (n + |ws|) < r.max - r.min
    ensures var r' := r.(memory := Store(r, Forward(r, p, n), ws));
            On(r', p) && Words(r', p, n + |ws|) == Words(r, p, n) + ws
    decreases |ws|
  {
    hide Words, Forward;
    if ws == [] {
      assert r.(memory := r.memory) == r;
    } else {
      var next := r.(memory := r.memory[Forward(r, p, n) / 4 := ws[0]]);
      StoreOne(r, p, n, ws[0]);
      StoreFirst(r, p, n, ws);
      StoreAppends(next, p, n + 1, ws[1..]);
      hide Store, On;
      assert Words(r, p, n) + [ws[0]] + ws[1..] == Words(r, p, n) + ws;
    }
  }

  lemma AfterForward(r: Ring, p: nat, n: nat)
    requires On(r, p)
    ensures After(r, Forward(r, p, n)) == Forward(r, p, n + 1)
  {
  }

  lemma {:induction false} StoreKeepsHeader(r: Ring, p: nat, ws: seq<Word>)
    requires On(r, p)
    ensures Store(r, p, ws)[..4] == r.memory[..4]
    decreases |ws|
  {
    if ws != [] {
      StoreKeepsHeader(r.(memory := r.memory[p / 4 := ws[0]]), After(r, p), ws[1..]);
    }
  }

  lemma DistanceForward(r: Ring, p: nat, k: nat)
    requires On(r, p) && 4 * k < r.max - r.min
    ensures Distance(r.min, r.max, Forward(r, p, k), p) == k
  {
    hide Forward;
    ForwardIs(r, p, k);
  }

  lemma CountIs(d: Device)
    requires Live(d)
    ensures Forward(RingOf(d), d.memory[STOP], Count(d)) == d.memory[NEXT]
  {
    DistanceIsExact(RingOf(d), d.memory[STOP], d.memory[NEXT]);
  }

  /** A device whose header puts so many words between consumer and producer has those queued. */
  lemma QueueIs(d: Device, r: Ring, n: nat)
    requires |d.memory| == FIFO_BYTES / 4 && RingOf(d) == r && On(r, d.memory[STOP])
    requires 4 * n < r.max - r.min && d.memory[NEXT] == Forward(r, d.memory[STOP], n)
    ensures Live(d) && Count(d) == n && Queue(d) == Words(r, d.memory[STOP], n)
  {
    DistanceForward(r, d.memory[STOP], n);
  }

  lemma PublishAppends(d: Device, ws: seq<Word>)
    requires Live(d) && Room(d, ws)
    ensures var now := Publish(d, ws);
            && Live(now) && Queue(now) == Queue(d) + ws && now.effects == d.effects
            && now.memory[STOP] == d.memory[STOP] && now.memory[MIN] == d.memory[MIN] && now.memory[MAX] == d.memory[MAX]
  {
    hide Forward, Words, Store, Distance;
    var r, stop, n := RingOf(d), d.memory[STOP], Count(d);
    CountIs(d);
    var stored := Store(r, d.memory[NEXT], ws);
    StoreKeepsHeader(r, d.memory[NEXT], ws);
    assert forall i: nat :: i < 4 ==> stored[i] == stored[..4][i] && r.memory[i] == r.memory[..4][i];
    StoreAppends(r, stop, n, ws);
    ForwardAdds(r, stop, n, |ws|);
    ForwardSame(r, stored, stop, n + |ws|);
    var next := Forward(r, stop, n + |ws|);
    var now := Publish(d, ws);
    HeaderIsNotInTheRing(r.(memory := stored), stop, n + |ws|, NEXT, next);
    assert now.memory == stored[NEXT := next];
    QueueIs(now, r.(memory := now.memory), n + |ws|);
  }

  // ---------- Running takes off the queue ----------

  lemma {:induction false} TakeShrinks(q: seq<Word>, n: nat)
    ensures |Take(q, n).1| <= |q|
    decreases n
  {
    TakeNothing(q, n);
  }

  lemma RunningTakes(d: Device)
    requires Live(d) && Accounted(Queue(d))
    ensures var now := RunDevice(d);
            var (effects, rest) := Take(Queue(d), 1023);
            && Live(now) && Queue(now) == rest && now.effects == d.effects + effects && |rest| <= |Queue(d)|
            && now.memory[STOP] == Forward(RingOf(d), d.memory[STOP], |Queue(d)| - |rest|)
            && now.memory[MIN] == d.memory[MIN] && now.memory[MAX] == d.memory[MAX]
  {
    hide Forward, Words, Take, Run, Distance;
    var r, stop, n := RingOf(d), d.memory[STOP], Count(d);
    var rest := Take(Queue(d), COMMANDS_PER_RUN).1;
    RunTakes(r, stop, n, COMMANDS_PER_RUN);
    TakeShrinks(Queue(d), COMMANDS_PER_RUN);
    CountIs(d);
    var at := Forward(r, stop, n - |rest|);
    ForwardAdds(r, stop, n - |rest|, |rest|);
    HeaderIsNotInTheRing(r, at, |rest|, STOP, at);
    var now := RunDevice(d);
    QueueIs(now, r.(memory := now.memory), |rest|);
  }

  // ---------- Every schedule ----------

  /** What is left to do, and what has been done: the effects still to come from the queue and the
      words behind it, and where the consumer will end. */
  ghost predicate SameOutcome(d: Device, more: seq<Word>, e: Device, less: seq<Word>)
    requires Live(d) && Live(e)
  {
    var (effects, rest) := Drain(Queue(d) + more);
    var (effects', rest') := Drain(Queue(e) + less);
    && d.memory[MIN] == e.memory[MIN] && d.memory[MAX] == e.memory[MAX]
    && d.effects + effects == e.effects + effects' && rest == rest'
    && |Queue(d) + more| >= |Queue(e) + less|
    && Forward(RingOf(d), d.memory[STOP], |Queue(d) + more| - |Queue(e) + less|) == e.memory[STOP]
  }

  lemma SameOutcomeStays(d: Device, more: seq<Word>)
    requires Live(d)
    ensures SameOutcome(d, more, d, more)
  {
  }

  lemma SameOutcomeOnward(a: Device, u: seq<Word>, b: Device, v: seq<Word>, c: Device, w: seq<Word>)
    requires Live(a) && Live(b) && Live(c) && SameOutcome(a, u, b, v) && SameOutcome(b, v, c, w)
    ensures SameOutcome(a, u, c, w)
  {
    hide Drain, Forward;
    ForwardAdds(RingOf(a), a.memory[STOP], |Queue(a) + u| - |Queue(b) + v|, |Queue(b) + v| - |Queue(c) + w|);
    ForwardElsewhere(RingOf(a), RingOf(b), b.memory[STOP], |Queue(b) + v| - |Queue(c) + w|);
  }

  lemma ForwardElsewhere(r: Ring, s: Ring, p: nat, k: nat)
    requires On(r, p) && On(s, p) && r.min == s.min && r.max == s.max
    ensures Forward(r, p, k) == Forward(s, p, k)
  {
    ForwardSame(r, s.memory, p, k);
    assert r.(memory := s.memory) == s;
  }

  lemma PieceKeepsOutcome(d: Device, ws: seq<Word>, more: seq<Word>)
    requires Live(d) && Room(d, ws)
    ensures Live(Publish(d, ws)) && SameOutcome(d, ws + more, Publish(d, ws), more)
  {
    hide Drain, Queue, Count;
    PublishAppends(d, ws);
    assert Queue(d) + (ws + more) == Queue(d) + ws + more;
  }

  lemma RunKeepsOutcome(d: Device, more: seq<Word>)
    requires Live(d) && Accounted(Queue(d) + more)
    ensures Live(RunDevice(d)) && SameOutcome(d, more, RunDevice(d), more)
    ensures Accounted(Queue(RunDevice(d)) + more)
  {
    hide Drain, Queue, Count, Take, Forward, Run, Accounted;
    AccountedPrefix(Queue(d), more);
    RunningTakes(d);
    var (effects, rest) := Take(Queue(d), COMMANDS_PER_RUN);
    TakeExtends(Queue(d), more, COMMANDS_PER_RUN);
    TakeLeavesAccounted(Queue(d), more, COMMANDS_PER_RUN);
    assert d.effects + effects + Drain(rest + more).0 == d.effects + (effects + Drain(rest + more).0);
  }

  /** Commands taken off the front leave the outcome of the words behind them. */
  lemma TakeExtends(q: seq<Word>, more: seq<Word>, n: nat)
    ensures var (effects, rest) := Take(q, n);
            Drain(q + more) == (effects + Drain(rest + more).0, Drain(rest + more).1)
  {
    hide Drain, Take;
    var (effects, rest) := Take(q, n);
    TakeThenDrain(q, n);
    DrainExtends(q, more);
    DrainExtends(rest, more);
    var left := Drain(rest);
    assert effects + (left.0 + Drain(left.1 + more).0) == effects + left.0 + Drain(left.1 + more).0;
  }

  lemma {:induction false} TakeLeavesAccounted(q: seq<Word>, more: seq<Word>, n: nat)
    requires Accounted(q + more)
    ensures Accounted(Take(q, n).1 + more)
    decreases n
  {
    if q != [] && n > 0 && Parse(q).Command? {
      ParseExtends(q, more);
      hide Parse;
      assert (q + more)[Parse(q).used..] == q[Parse(q).used..] + more;
      TakeLeavesAccounted(q[Parse(q).used..], more, n - 1);
    }
  }

  lemma ActKeepsOutcome(d: Device, a: Action, more: seq<Word>)
    requires Live(d) && Allowed(d, a) && Accounted(Queue(d) + (WordsOf(a) + more))
    ensures Live(Act(d, a)) && SameOutcome(d, WordsOf(a) + more, Act(d, a), more)
    ensures Accounted(Queue(Act(d, a)) + more)
  {
    hide Queue, Publish, RunDevice, Accounted, SameOutcome;
    match a
    case Piece(ws) =>
      PieceKeepsOutcome(d, ws, more);
      PublishAppends(d, ws);
      assert Queue(d) + (ws + more) == Queue(d) + ws + more;
    case Go =>
      assert [] + more == more;
      RunKeepsOutcome(d, more);
  }

  lemma {:induction false} PlayKeepsOutcome(d: Device, actions: seq<Action>, more: seq<Word>)
    requires Playable(d, actions) && Accounted(Queue(d) + (Published(actions) + more))
    ensures Live(Play(d, actions)) && SameOutcome(d, Published(actions) + more, Play(d, actions), more)
    ensures Accounted(Queue(Play(d, actions)) + more)
    decreases |actions|
  {
    hide Queue, Act, Accounted, SameOutcome, Allowed, WordsOf;
    if actions == [] {
      assert Published(actions) + more == more;
      SameOutcomeStays(d, more);
    } else {
      var a, rest := actions[0], Published(actions[1..]) + more;
      assert Published(actions) + more == WordsOf(a) + rest;
      ActKeepsOutcome(d, a, rest);
      PlayKeepsOutcome(Act(d, a), actions[1..], more);
      SameOutcomeOnward(d, WordsOf(a) + rest, Act(d, a), rest, Play(d, actions), more);
    }
  }

  /** A run that finds nothing it can complete. */
  predicate AtRest(d: Device) {
    Live(d) && RunDevice(d) == d
  }

  lemma AtRestMeansDrained(d: Device)
    requires AtRest(d) && Accounted(Queue(d))
    ensures Drain(Queue(d)) == ([], Queue(d))
  {
    hide Run, Drain, Words;
    RunningTakes(d);
    TakeNothing(Queue(d), COMMANDS_PER_RUN);
    TakeThenDrain(Queue(d), COMMANDS_PER_RUN);
  }

  /** Whatever the schedule of pieces and runs was, once the device is at rest it has had the effects
      of the complete commands of the whole stream, in order, and it has the incomplete rest queued;
      the consumer is as many words on as those commands take. */
  lemma ScheduleOutcome(d: Device, actions: seq<Action>)
    requires Playable(d, actions) && Accounted(Queue(d) + Published(actions)) && AtRest(Play(d, actions))
    ensures var (effects, rest) := Drain(Queue(d) + Published(actions));
            var e := Play(d, actions);
            && e.effects == d.effects + effects && Queue(e) == rest && |rest| <= |Queue(d) + Published(actions)|
            && e.memory[STOP] == Forward(RingOf(d), d.memory[STOP], |Queue(d) + Published(actions)| - |rest|)
            && e.memory[MIN] == d.memory[MIN] && e.memory[MAX] == d.memory[MAX]
  {
    hide Drain, Queue, RunDevice, Forward, Accounted;
    var words, e := Published(actions), Play(d, actions);
    assert words + [] == words;
    PlayKeepsOutcome(d, actions, []);
    assert Queue(e) + [] == Queue(e);
    AtRestMeansDrained(e);
    assert e.effects + [] == e.effects;
  }

  /** Chunking invariance: the same words in any pieces with any runs in between, once the device is
      at rest, have had the same effects in the same order and left the same queue and pointers. */
  lemma PiecesDoNotMatter(d: Device, a: seq<Action>, b: seq<Action>)
    requires Playable(d, a) && Playable(d, b) && Published(a) == Published(b)
    requires Accounted(Queue(d) + Published(a)) && AtRest(Play(d, a)) && AtRest(Play(d, b))
    ensures var (e, f) := (Play(d, a), Play(d, b));
            && e.effects == f.effects && Queue(e) == Queue(f) && e.memory[..4] == f.memory[..4]
  {
    hide Queue, RunDevice, Published, Play, Playable, Forward;
    ScheduleOutcome(d, a);
    ScheduleOutcome(d, b);
    var e, f := Play(d, a), Play(d, b);
    SameProducer(e, f);
    assert e.memory[..4] == [e.memory[MIN], e.memory[MAX], e.memory[NEXT], e.memory[STOP]];
    assert f.memory[..4] == [f.memory[MIN], f.memory[MAX], f.memory[NEXT], f.memory[STOP]];
  }

  lemma SameProducer(e: Device, f: Device)
    requires Live(e) && Live(f) && Queue(e) == Queue(f)
    requires e.memory[MIN] == f.memory[MIN] && e.memory[MAX] == f.memory[MAX] && e.memory[STOP] == f.memory[STOP]
    ensures e.memory[NEXT] == f.memory[NEXT]
  {
    CountIs(e);
    CountIs(f);
    ForwardElsewhere(RingOf(e), RingOf(f), e.memory[STOP], Count(e));
  }

  // ---------- Rest is reached ----------

  function Runs(n: nat): seq<Action> {
    seq(n, i => Go)
  }

  lemma {:induction false} RunsPublishNothing(n: nat)
    ensures Published(Runs(n)) == []
  {
    if n > 0 {
      RunsPublishNothing(n - 1);
      assert Runs(n)[1..] == Runs(n - 1);
    }
  }

  /** A run takes words off the queue, or the device is at rest. */
  lemma RunOrRest(d: Device)
    requires Live(d) && Accounted(Queue(d))
    ensures Live(RunDevice(d)) && Accounted(Queue(RunDevice(d)))
    ensures Count(RunDevice(d)) < Count(d) || AtRest(d)
  {
    hide Forward, Run, Take, Accounted, RunDevice, AtRest;
    RunningTakes(d);
    AccountedRest(Queue(d), COMMANDS_PER_RUN);
    TakeNothing(Queue(d), COMMANDS_PER_RUN);
    if |Queue(RunDevice(d))| >= |Queue(d)| {
      NothingTaken(d);
    }
    hide Queue;
  }

  lemma MoreRuns(d: Device, n: nat)
    requires Live(d) && n > 0
    ensures Playable(d, Runs(n)) <==> Playable(RunDevice(d), Runs(n - 1))
    ensures Playable(d, Runs(n)) ==> Play(d, Runs(n)) == Play(RunDevice(d), Runs(n - 1))
  {
    hide RunDevice, Live;
    assert Runs(n)[1..] == Runs(n - 1);
  }

  /** From any state as many runs as there are words queued bring the device to rest. */
  lemma {:induction false} RunsComeToRest(d: Device, n: nat)
    requires Live(d) && Accounted(Queue(d)) && Count(d) <= n
    ensures Playable(d, Runs(n)) && AtRest(Play(d, Runs(n)))
    decreases n
  {
    hide Queue, RunDevice, AtRest, Playable, Play, Accounted, Runs, Count, Live;
    if n == 0 {
      NothingQueued(d);
      StaysAtRest(d, 0);
    } else {
      RunOrRest(d);
      if AtRest(d) {
        StaysAtRest(d, n);
      } else {
        RunsComeToRest(RunDevice(d), n - 1);
        MoreRuns(d, n);
      }
    }
  }

  lemma NothingTaken(d: Device)
    requires Live(d) && Accounted(Queue(d)) && Take(Queue(d), COMMANDS_PER_RUN) == ([], Queue(d))
    ensures AtRest(d)
  {
    hide Queue, Run;
    RunningTakes(d);
    assert RunDevice(d).memory[STOP] == d.memory[STOP];
    assert d.effects + [] == d.effects;
    assert RunDevice(d).memory == d.memory;
  }

  lemma NothingQueued(d: Device)
    requires Live(d) && Count(d) == 0
    ensures AtRest(d)
  {
    assert RunDevice(d).memory == d.memory;
    assert d.effects + [] == d.effects;
  }

  lemma {:induction false} StaysAtRest(d: Device, n: nat)
    requires AtRest(d)
    ensures Playable(d, Runs(n)) && Play(d, Runs(n)) == d
    decreases n
  {
    if n > 0 {
      AtRestIs(d);
      StaysAtRest(d, n - 1);
      hide RunDevice, Playable, Play, Runs, AtRest, Live;
      MoreRuns(d, n);
    }
  }

  lemma AtRestIs(d: Device)
    requires AtRest(d)
    ensures Live(d) && RunDevice(d) == d
  {
  }

  // ---------- Where pieces do matter ----------

  predicate OnlyFences(memory: seq<Word>) {
    forall i :: 4 <= i < |memory| ==> memory[i] == FENCE || memory[i] == INVALID_CMD
  }

  lemma FenceRun(d: Device)
    requires Live(d) && OnlyFences(d.memory) && Count(d) > 0
    ensures RunDevice(d).memory == d.memory[STOP := Forward(RingOf(d), d.memory[STOP], COMMANDS_PER_RUN)]
  {
    hide Run, Forward;
    AFenceOvertakesTheProducer(RingOf(d), d.memory[STOP], Count(d), COMMANDS_PER_RUN);
  }

  lemma {:induction false} StoreFences(r: Ring, p: nat, ws: seq<Word>)
    requires On(r, p) && OnlyFences(r.memory) && forall w :: w in ws ==> w == FENCE
    ensures OnlyFences(Store(r, p, ws))
    decreases |ws|
  {
    if ws != [] {
      assert ws[0] in ws && forall w :: w in ws[1..] ==> w in ws;
      StoreFences(r.(memory := r.memory[p / 4 := ws[0]]), After(r, p), ws[1..]);
    }
  }

  lemma FencePublish(d: Device, ws: seq<Word>)
    requires Live(d) && Room(d, ws) && OnlyFences(d.memory) && forall w :: w in ws ==> w == FENCE
    ensures Live(Publish(d, ws)) && OnlyFences(Publish(d, ws).memory) && Count(Publish(d, ws)) == Count(d) + |ws|
  {
    PublishAppends(d, ws);
    StoreFences(RingOf(d), d.memory[NEXT], ws);
    hide Store, Forward, Words;
  }

  /** Fences published where nothing is queued, and a run: the consumer ends 1023 words on. */
  lemma FencesOnce(d: Device, ws: seq<Word>)
    requires Live(d) && Count(d) == 0 && OnlyFences(d.memory)
    requires 0 < |ws| < 2560 && forall w :: w in ws ==> w == FENCE
    ensures Playable(d, Step(ws))
    ensures var e := Play(d, Step(ws));
            && Live(e) && OnlyFences(e.memory) && e.memory[MIN] == d.memory[MIN] && e.memory[MAX] == d.memory[MAX]
            && e.memory[STOP] == Forward(RingOf(d), d.memory[STOP], COMMANDS_PER_RUN)
            && e.memory[NEXT] == Forward(RingOf(d), d.memory[STOP], |ws|)
  {
    hide Forward, RunDevice, Publish;
    var published := Publish(d, ws);
    CountIs(d);
    FencePublish(d, ws);
    PublishAppends(d, ws);
    FenceRun(published);
    CountIs(published);
    ForwardElsewhere(RingOf(d), RingOf(published), d.memory[STOP], COMMANDS_PER_RUN);
    ForwardElsewhere(RingOf(d), RingOf(published), d.memory[STOP], |ws|);
    assert Step(ws)[1..] == [Go];
    assert [Go][1..] == [];
  }

  lemma ADistance(r: Ring, p: nat)
    requires On(r, p)
    ensures Distance(r.min, r.max, Forward(r, p, 1), Forward(r, p, COMMANDS_PER_RUN))
         == (r.max - r.min) / 4 - COMMANDS_PER_RUN + 1
  {
    hide Forward;
    ForwardIs(r, p, 1);
    ForwardIs(r, p, COMMANDS_PER_RUN);
  }

  lemma {:induction false} PlayOn(d: Device, a: seq<Action>, b: seq<Action>)
    requires Playable(d, a) && Playable(Play(d, a), b)
    ensures Playable(d, a + b) && Play(d, a + b) == Play(Play(d, a), b)
    decreases |a|
  {
    hide Act, Allowed;
    if a == [] {
      assert a + b == b;
    } else {
      assert (a + b)[1..] == a[1..] + b;
      PlayOn(Act(d, a[0]), a[1..], b);
    }
  }

  /** Some words and a run. */
  function Step(ws: seq<Word>): seq<Action> {
    [Piece(ws), Go]
  }

  lemma PublishedInSteps(a: seq<Word>, b: seq<Word>)
    ensures Published(Step(a)) == a && Published(Step(a) + Step(b)) == a + b
  {
    var go: seq<Action> := [Go];
    assert Step(a)[1..] == go && go[1..] == [] && Step(b)[1..] == go;
    assert (Step(a) + Step(b))[1..] == go + Step(b) && (go + Step(b))[1..] == Step(b);
    assert Published(go) == [] && Published(Step(b)) == b;
    assert Published(go + Step(b)) == b;
  }

  /** For opcodes that are not debited the law is false: two fences published at once, or one after
      the other with a run after each, leave the consumer in different places. */
  lemma FencesMakePiecesMatter(d: Device)
    requires Live(d) && Count(d) == 0 && OnlyFences(d.memory)
    ensures var once, twice := Step([FENCE, FENCE]), Step([FENCE]) + Step([FENCE]);
            && Published(once) == Published(twice) && Playable(d, once) && Playable(d, twice)
            && Play(d, once).memory[STOP] != Play(d, twice).memory[STOP]
  {
    var r, stop := RingOf(d), d.memory[STOP];
    assert On(r, stop);
    hide Forward, RunDevice, Publish, OnlyFences, Play, Playable, Count, Published, Step;
    PublishedInSteps([FENCE, FENCE], []);
    assert [FENCE, FENCE] == [FENCE] + [FENCE];
    PublishedInSteps([FENCE], [FENCE]);
    FencesOnce(d, [FENCE, FENCE]);
    FencesOnce(d, [FENCE]);
    FenceAgain(d, Play(d, Step([FENCE])));
    PlayOn(d, Step([FENCE]), Step([FENCE]));
    ForwardIs(r, stop, COMMANDS_PER_RUN);
    ForwardIs(r, stop, 2 * COMMANDS_PER_RUN);
  }

  lemma FenceAgain(d: Device, e: Device)
    requires Live(d) && Live(e) && OnlyFences(e.memory) && e.memory[MIN] == d.memory[MIN] && e.memory[MAX] == d.memory[MAX]
    requires e.memory[STOP] == Forward(RingOf(d), d.memory[STOP], COMMANDS_PER_RUN)
    requires e.memory[NEXT] == Forward(RingOf(d), d.memory[STOP], 1)
    ensures Playable(e, Step([FENCE]))
    ensures Play(e, Step([FENCE])).memory[STOP] == Forward(RingOf(d), d.memory[STOP], 2 * COMMANDS_PER_RUN)
  {
    hide Forward, RunDevice, Publish, Distance;
    var published := Publish(e, [FENCE]);
    ADistance(RingOf(d), d.memory[STOP]);
    FencePublish(e, [FENCE]);
    PublishAppends(e, [FENCE]);
    FenceRun(published);
    ForwardElsewhere(RingOf(d), RingOf(published), e.memory[STOP], COMMANDS_PER_RUN);
    ForwardAdds(RingOf(d), d.memory[STOP], COMMANDS_PER_RUN, COMMANDS_PER_RUN);
    assert Step([FENCE])[1..] == [Go];
    assert [Go][1..] == [];
  }
}
