/** The Mighty Mouse as the input core and the USB host drive it: accumulators updated in place and
    a masked ring of reports.  Every operation is the one that the module MouseMotion speaks of. */
module MightyMouse {
  import opened MachineInts
  import opened ReportRing
  import opened MouseMotion

  datatype Reply = Stall | Nak | Data(report: Report)

  class Mouse {
    var pendingDx: int
    var pendingDy: int
    var pendingWheel: int
    var pendingHwheel: int
    var buttonLeft: bool
    var buttonRight: bool
    var buttonMiddle: bool
    var pendingEvent: bool
    var lastAbsX: int
    var lastAbsY: int
    const ring: Ring<Report>
    ghost var injected: Motion
    ghost var polled: Motion
    ghost var dropped: Motion

    ghost predicate Valid()
      reads this, ring
    {
      && ring.Valid() && ring.depth == 64
      && Fits(pendingDx) && Fits(pendingDy) && Fits(pendingWheel) && Fits(pendingHwheel)
    }

    ghost function Now(): (st: State)
      requires Valid()
      reads this, ring, ring.slots
      ensures |st.queue| <= CAPACITY
    {
      State(Motion(pendingDx, pendingDy, pendingWheel, pendingHwheel),
            buttonLeft, buttonRight, buttonMiddle, pendingEvent, lastAbsX, lastAbsY,
            ring.Contents(), injected, polled, dropped)
    }

    constructor ()
      ensures Valid() && Now() == Init()
      ensures fresh(ring) && fresh(ring.slots)
    {
      pendingDx, pendingDy, pendingWheel, pendingHwheel := 0, 0, 0, 0;
      buttonLeft, buttonRight, buttonMiddle := false, false, false;
      pendingEvent := false;
      lastAbsX, lastAbsY := -1, -1;
      ring := new Ring(64);
      injected, polled, dropped := ZERO, ZERO, ZERO;
    }

    method AddDx(value: int)
      requires Valid()
      modifies this`pendingDx, this`pendingEvent, this`injected
      ensures Valid() && Now() == Inject(old(Now()), Motion(value, 0, 0, 0))
    {
      hide S32;
      KeepsTheRest(this);
      SignedRange(pendingDx + value);
      pendingDx := S32(pendingDx + value);
      injected := Plus(injected, Motion(value, 0, 0, 0));
      pendingEvent := true;
    }

    method AddDy(value: int)
      requires Valid()
      modifies this`pendingDy, this`pendingEvent, this`injected
      ensures Valid() && Now() == Inject(old(Now()), Motion(0, value, 0, 0))
    {
      hide S32;
      KeepsTheRest(this);
      SignedRange(pendingDy + value);
      pendingDy := S32(pendingDy + value);
      injected := Plus(injected, Motion(0, value, 0, 0));
      pendingEvent := true;
    }

    method AddWheel(clicks: int)
      requires Valid()
      modifies this`pendingWheel, this`pendingEvent, this`injected
      ensures Valid() && Now() == Inject(old(Now()), Motion(0, 0, clicks, 0))
    {
      hide S32;
      KeepsTheRest(this);
      SignedRange(pendingWheel + clicks);
      pendingWheel := S32(pendingWheel + clicks);
      injected := Plus(injected, Motion(0, 0, clicks, 0));
      pendingEvent := true;
    }

    method AddHwheel(clicks: int)
      requires Valid()
      modifies this`pendingHwheel, this`pendingEvent, this`injected
      ensures Valid() && Now() == Inject(old(Now()), Motion(0, 0, 0, clicks))
    {
      hide S32;
      KeepsTheRest(this);
      SignedRange(pendingHwheel + clicks);
      pendingHwheel := S32(pendingHwheel + clicks);
      injected := Plus(injected, Motion(0, 0, 0, clicks));
      pendingEvent := true;
    }

    method Mark()
      requires Valid()
      modifies this`pendingEvent
      ensures Valid() && Now() == Inject(old(Now()), ZERO)
    {
      hide S32;
      KeepsTheRest(this);
      pendingEvent := true;
    }

    method InputEvent(e: Event)
      requires Valid() && (e.Rel? || e.Abs? || e.Btn?)
      modifies this
      ensures Valid() && Now() == Apply(old(Now()), e)
    {
      ApplyCases(Now(), e);
      match e
      case Rel(axis, value) => InputRel(axis, value);
      case Abs(axis, value) => InputAbs(axis, value);
      case Btn(button, down) => InputButton(button, down);
    }

    method InputRel(axis: Axis, value: int)
      requires Valid()
      modifies this
      ensures Valid() && Now() == ApplyRel(old(Now()), axis, value)
    {
      hide Inject;
      match axis
      case AxisX => AddDx(value);
      case AxisY => AddDy(value);
      case OtherAxis => Mark();
    }

    method InputAbs(axis: Axis, value: int)
      requires Valid()
      modifies this
      ensures Valid() && Now() == ApplyAbs(old(Now()), axis, value)
    {
      hide Inject, ScaledX, ScaledY;
      match axis
      case AxisX =>
        var scaled := ScaledX(value);
        if lastAbsX >= 0 {
          AddDx(scaled - lastAbsX);
        } else {
          Mark();
        }
        lastAbsX := scaled;
      case AxisY =>
        var scaled := ScaledY(value);
        if lastAbsY >= 0 {
          AddDy(scaled - lastAbsY);
        } else {
          Mark();
        }
        lastAbsY := scaled;
      case OtherAxis => Mark();
    }

    method InputButton(button: Button, down: bool)
      requires Valid()
      modifies this
      ensures Valid() && Now() == ApplyButton(old(Now()), button, down)
    {
      hide Inject;
      match button
      case LeftButton =>
        buttonLeft := down;
        pendingEvent := true;
      case RightButton =>
        buttonRight := down;
        pendingEvent := true;
      case MiddleButton =>
        buttonMiddle := down;
        pendingEvent := true;
      case WheelUp => if down { AddWheel(1); }
      case WheelDown => if down { AddWheel(-1); }
      case WheelLeft => if down { AddHwheel(-1); }
      case WheelRight => if down { AddHwheel(1); }
      case OtherButton =>
    }

    method TakeDelta() returns (delta: Motion)
      requires Valid()
      modifies this`pendingDx, this`pendingDy, this`pendingWheel, this`pendingHwheel
      ensures Valid() && delta == ClampAll(old(Now()).pending)
      ensures Now() == old(Now()).(pending := Minus(old(Now()).pending, delta))
    {
      StaysSmall(pendingDx);
      StaysSmall(pendingDy);
      StaysSmall(pendingWheel);
      StaysSmall(pendingHwheel);
      hide Clamp, Fits;
      delta := Motion(Clamp(pendingDx), Clamp(pendingDy), Clamp(pendingWheel), Clamp(pendingHwheel));
      pendingDx := pendingDx - delta.x;
      pendingDy := pendingDy - delta.y;
      pendingWheel := pendingWheel - delta.wheel;
      pendingHwheel := pendingHwheel - delta.hwheel;
    }

    method EmitBootMouse()
      requires Valid()
      modifies this, ring, ring.slots
      ensures Valid() && Now() == Emit(old(Now()))
      ensures ring.Contents() != []
      ensures ShowsButtons(ring.Contents()[|ring.Contents()| - 1], buttonLeft, buttonRight, buttonMiddle)
    {
      ReportOfOneTurn(Now());
      hide Encode, Decode, Push, Fits, ClampAll;
      var delta := TakeDelta();
      var buttons := (if buttonLeft then 1 else 0) + (if buttonRight then 2 else 0) + (if buttonMiddle then 4 else 0);
      ghost var lost := ring.Enqueue(Encode(buttons, delta));
      dropped := if lost == [] then dropped else Plus(dropped, Decode(lost[0]));
    }

    method InputSync()
      requires Valid()
      modifies this, ring, ring.slots
      ensures Valid() && Now() == Apply(old(Now()), Sync)
    {
      hide Emit;
      if pendingEvent {
        pendingEvent := false;
        ghost var start := Now();
        var loops := 0;
        var again := true;
        while again
          invariant Valid() && 0 <= loops <= MAX_LOOPS && (again ==> loops < MAX_LOOPS)
          invariant EmitWhilePending(start, MAX_LOOPS) == if again then EmitWhilePending(Now(), MAX_LOOPS - loops) else Now()
          decreases again, MAX_LOOPS - loops
        {
          EmitBootMouse();
          loops := loops + 1;
          again := (pendingDx != 0 || pendingDy != 0 || pendingWheel != 0 || pendingHwheel != 0) && loops < MAX_LOOPS;
        }
      }
    }

    method HandleData(isIn: bool, endpoint: nat) returns (reply: Reply)
      requires Valid()
      modifies this, ring
      ensures Valid()
      ensures reply == Stall <==> !isIn || endpoint != 1
      ensures reply == Stall ==> Now() == old(Now())
      ensures reply != Stall ==> Now() == Apply(old(Now()), Poll)
      ensures reply != Stall ==> reply == if old(Now()).queue == [] then Nak else Data(old(Now()).queue[0])
      ensures reply.Data? ==> ring.Contents() == old(ring.Contents())[1..]
    {
      hide Decode;
      if !isIn || endpoint != 1 {
        return Stall;
      }
      var empty := ring.IsEmpty();
      if empty {
        return Nak;
      }
      var report := ring.Dequeue();
      polled := Plus(polled, Decode(report));
      reply := Data(report);
    }

    method HandleReset()
      requires Valid()
      modifies this, ring
      ensures Valid() && Now() == Apply(old(Now()), Reset)
    {
      ApplyCases(Now(), Reset);
      hide Apply;
      ring.Clear();
      ClearInput();
      ForgetHistory();
    }

    method ClearInput()
      requires Valid()
      modifies this`pendingDx, this`pendingDy, this`pendingWheel, this`pendingHwheel, this`buttonLeft, this`buttonRight,
               this`buttonMiddle, this`pendingEvent, this`lastAbsX, this`lastAbsY
      ensures Valid() && Now() == Init().(queue := old(Now()).queue, injected := injected, polled := polled, dropped := dropped)
    {
      pendingDx, pendingDy, pendingWheel, pendingHwheel := 0, 0, 0, 0;
      buttonLeft, buttonRight, buttonMiddle := false, false, false;
      pendingEvent := false;
      lastAbsX, lastAbsY := -1, -1;
    }

    ghost method ForgetHistory()
      requires Valid()
      modifies this`injected, this`polled, this`dropped
      ensures Now() == old(Now()).(injected := ZERO, polled := ZERO, dropped := ZERO)
    {
      injected, polled, dropped := ZERO, ZERO, ZERO;
    }
  }

  predicate Fits(v: int) {
    -TWO_TO_THE_31 <= v < TWO_TO_THE_31
  }

  lemma StaysSmall(v: int)
    requires Fits(v)
    ensures Fits(v - Clamp(v))
  {
  }

  // Accumulators that fit 32 bits survive the wrap of the axes that did not move.
  lemma KeepsTheRest(m: Mouse)
    requires m.Valid()
    ensures S32(m.pendingDx) == m.pendingDx && S32(m.pendingDy) == m.pendingDy
    ensures S32(m.pendingWheel) == m.pendingWheel && S32(m.pendingHwheel) == m.pendingHwheel
  {
    InRange(m.pendingDx);
    InRange(m.pendingDy);
    InRange(m.pendingWheel);
    InRange(m.pendingHwheel);
  }
}
