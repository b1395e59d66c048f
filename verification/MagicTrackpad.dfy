/** The Magic Trackpad as the input core and the USB host drive it, over a masked ring of reports.
    Every operation is the one that the module TrackpadMotion speaks of. */
module MagicTrackpad {
  import opened MachineInts
  import opened ReportRing
  import opened TrackpadMotion

  const REPORT_ENDPOINT: nat := 3

  datatype Reply = Stall | Nak | Data(report: Report)

  class Trackpad {
    var multitouchEnabled: bool
    var absX: int
    var absY: int
    var prevAbsX: int
    var prevAbsY: int
    var buttonLeft: bool
    var fingerDown: bool
    var pendingEvent: bool
    var mtSeq: Word
    const ring: Ring<Report>
    ghost var log: seq<Report>
    ghost var frames: nat
    ghost var wide: bool
    ghost var emitted: Move
    ghost var polled: Move
    ghost var dropped: Move

    ghost predicate Valid()
      reads this, ring
    {
      ring.Valid() && ring.depth == 32
    }

    ghost function Now(): (st: State)
      requires Valid()
      reads this, ring, ring.slots
      ensures |st.queue| <= CAPACITY
    {
      State(multitouchEnabled, absX, absY, prevAbsX, prevAbsY, buttonLeft, fingerDown, pendingEvent, mtSeq,
            ring.Contents(), log, frames, wide, emitted, polled, dropped)
    }

    constructor ()
      ensures Valid() && Now() == Init()
      ensures fresh(ring) && fresh(ring.slots)
    {
      multitouchEnabled, buttonLeft, fingerDown, pendingEvent := false, false, false, false;
      absX, absY, prevAbsX, prevAbsY := 0, 0, 0, 0;
      mtSeq := 0;
      ring := new Ring(32);
      log, frames, wide := [], 0, false;
      emitted, polled, dropped := STILL, STILL, STILL;
    }

    method InputButton(isLeft: bool, down: bool)
      requires Valid()
      modifies this`buttonLeft, this`pendingEvent
      ensures Valid() && Now() == Apply(old(Now()), Btn(isLeft, down))
    {
      if isLeft {
        buttonLeft := down;
      }
      pendingEvent := true;
    }

    method InputAbs(axis: Axis, value: int)
      requires Valid()
      modifies this`absX, this`absY, this`fingerDown, this`pendingEvent
      ensures Valid() && Now() == Apply(old(Now()), Abs(axis, value))
    {
      match axis {
        case AxisX => absX := S32(value);
        case AxisY => absY := S32(value);
        case OtherAxis =>
      }
      fingerDown := true;
      pendingEvent := true;
    }

    method Queue(report: Report)
      requires Valid()
      modifies this`log, this`emitted, this`dropped, ring, ring.slots
      ensures Valid() && Now() == Enqueue(old(Now()), report)
    {
      hide Push, MoveOf;
      ghost var lost := ring.Enqueue(report);
      log := log + [report];
      emitted := Plus(emitted, MoveOf(report));
      dropped := if lost == [] then dropped else Plus(dropped, MoveOf(lost[0]));
    }

    /** The frame for the fingers that are down, at most one. */
    method PackMultitouch() returns (report: Report)
      requires Valid()
      ensures report == MultitouchReport(Now())
    {
      hide PackFinger, MapAbs, Header;
      report := Header(buttonLeft, mtSeq);
      if fingerDown {
        var x := MapAbs(absX, X_MIN, X_MAX);
        var y := MapAbs(absY, Y_MIN, Y_MAX);
        report := report + PackFinger(x, y, if buttonLeft then 0xc0 else 0x40, 4, 0);
      } else {
        assert report + [] == report;
      }
      report := report + [0, 0, 0, 0];
    }

    method EmitMultitouch()
      requires Valid()
      modifies this`mtSeq, this`log, this`emitted, this`dropped, ring, ring.slots
      ensures Valid()
      ensures Now() == Enqueue(old(Now()).(sequence := U32(old(Now()).sequence + 1)), MultitouchReport(old(Now())))
    {
      hide Enqueue, MultitouchReport;
      var report := PackMultitouch();
      mtSeq := U32(mtSeq + 1);
      Queue(report);
    }

    method TakeDelta() returns (dx: int, dy: int)
      requires Valid()
      modifies this`prevAbsX, this`prevAbsY
      ensures Now() == old(Now()).(prevX := absX, prevY := absY)
      ensures dx == S32(absX - old(prevAbsX)) && dy == S32(absY - old(prevAbsY))
    {
      hide S32;
      dx := S32(absX - prevAbsX);
      dy := S32(absY - prevAbsY);
      prevAbsX := absX;
      prevAbsY := absY;
    }

    method EmitBootMouse()
      requires Valid()
      modifies this`prevAbsX, this`prevAbsY, this`log, this`frames, this`wide, this`emitted, this`dropped, ring, ring.slots
      ensures Valid() && Now() == EmitBoot(old(Now()))
    {
      hide S32, Enqueue, Quarter, Narrow, BootReport;
      var dxAbs, dyAbs := TakeDelta();
      var report := BootReport(Quarter(dxAbs), Quarter(dyAbs), buttonLeft);
      Account(!Narrow(dxAbs) || !Narrow(dyAbs));
      Queue(report);
    }

    ghost method Account(clamped: bool)
      requires Valid()
      modifies this`frames, this`wide
      ensures Now() == old(Now()).(frames := old(frames) + 1, wide := old(wide) || clamped)
    {
      frames := frames + 1;
      wide := wide || clamped;
    }

    method InputSync()
      requires Valid()
      modifies this, ring, ring.slots
      ensures Valid() && Now() == Apply(old(Now()), Sync)
    {
      hide EmitBoot, MultitouchReport, Enqueue;
      if !pendingEvent {
        return;
      }
      pendingEvent := false;
      SequenceOnly(old(Now()));
      if multitouchEnabled {
        EmitMultitouch();
      } else {
        EmitBootMouse();
      }
    }

    method HandleSetReport(kind: Byte, id: Byte, index: nat, data: seq<Byte>)
      requires Valid()
      modifies this`multitouchEnabled
      ensures Valid()
      ensures Now() == if kind == 3 && id == 2 && index == 1 && |data| >= 1 && data[0] == 2
                       then Apply(old(Now()), EnableMultitouch) else old(Now())
    {
      if kind == 3 && id == 2 && index == 1 && |data| >= 1 && data[0] == 2 {
        multitouchEnabled := true;
      }
    }

    method HandleData(isIn: bool, endpoint: nat) returns (reply: Reply)
      requires Valid()
      modifies this`polled, ring
      ensures Valid()
      ensures reply == Stall <==> !isIn
      ensures isIn && endpoint == 3 ==>
        && Now() == Apply(old(Now()), Poll)
        && reply == (if old(Now()).queue == [] then Nak else Data(old(Now()).queue[0]))
        && (reply.Data? ==> ring.Contents() == old(ring.Contents())[1..])
      ensures !(isIn && endpoint == 3) ==> Now() == old(Now()) && !reply.Data?
    {
      if !isIn {
        return Stall;
      }
      if endpoint != REPORT_ENDPOINT {
        return Nak;
      }
      var empty := ring.IsEmpty();
      if empty {
        return Nak;
      }
      var report := ring.Dequeue();
      polled := Plus(polled, MoveOf(report));
      reply := Data(report);
    }

    method HandleReset()
      requires Valid()
      modifies this, ring
      ensures Valid() && Now() == Apply(old(Now()), Event.Reset)
    {
      ring.Clear();
      ClearInput();
      ClearCounters();
      ForgetReports();
      ForgetMoves();
    }

    method ClearInput()
      requires Valid()
      modifies this`multitouchEnabled, this`pendingEvent, this`fingerDown, this`buttonLeft
      ensures Now() == old(Now()).(multitouch := false, event := false, finger := false, left := false)
    {
      multitouchEnabled, pendingEvent, fingerDown, buttonLeft := false, false, false, false;
    }

    method ClearCounters()
      requires Valid()
      modifies this`mtSeq, this`prevAbsX, this`prevAbsY
      ensures Now() == old(Now()).(sequence := 0, prevX := 0, prevY := 0)
    {
      mtSeq := 0;
      prevAbsX, prevAbsY := 0, 0;
    }

    ghost method ForgetReports()
      requires Valid()
      modifies this`log, this`frames, this`wide
      ensures Now() == old(Now()).(log := [], frames := 0, wide := false)
    {
      log, frames, wide := [], 0, false;
    }

    ghost method ForgetMoves()
      requires Valid()
      modifies this`emitted, this`polled, this`dropped
      ensures Now() == old(Now()).(emitted := STILL, polled := STILL, dropped := STILL)
    {
      emitted, polled, dropped := STILL, STILL, STILL;
    }
  }

  // The pending mark does not show in a report.
  lemma SequenceOnly(st: State)
    ensures MultitouchReport(st.(event := false)) == MultitouchReport(st)
  {
  }
}
