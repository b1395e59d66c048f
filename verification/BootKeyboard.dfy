/** The boot keyboard as the input core and the USB host drive it: six slots kept compact in place,
    and a bitmap of modifiers.  Every operation is the one that the module BootKeys speaks of. */
module BootKeyboard {
  import opened MachineInts
  import opened BootKeys

  const VENDOR_ENDPOINT: nat := 1
  const BOOT_ENDPOINT: nat := 2

  datatype Reply = Stall | Nak | Data(bytes: seq<Byte>)

  /** The keys fill the first slots, and the others are zero. */
  ghost predicate Compact(slots: seq<Byte>, keys: seq<Byte>) {
    && |keys| <= |slots| == SLOTS
    && forall i :: 0 <= i < SLOTS ==> slots[i] == if i < |keys| then keys[i] else 0
  }

  class Keyboard {
    const slots: array<Byte>
    var modifiers: bv8
    var changed: bool
    ghost var keys: seq<Byte>    // the occupied slots
    ghost var told: seq<Byte>

    ghost predicate Valid()
      reads this, slots
    {
      && slots.Length == SLOTS
      && |keys| <= SLOTS && WellFormed(keys)
      && Compact(slots[..], keys)
    }

    ghost function Now(): State
      reads this
    {
      State(keys, modifiers, changed, told)
    }

    constructor ()
      ensures Valid() && Now() == Init() && fresh(slots)
    {
      slots := new Byte[SLOTS](i => 0);
      modifiers, changed := 0, false;
      keys, told := [], Released();
    }

    /** The slot that holds the value, or SLOTS. */
    method Find(value: Byte) returns (i: nat)
      requires Valid()
      ensures i <= SLOTS && (i < SLOTS ==> slots[i] == value)
      ensures forall j :: 0 <= j < i ==> slots[j] != value
    {
      i := 0;
      while i < SLOTS && slots[i] != value
        invariant i <= SLOTS
        invariant forall j :: 0 <= j < i ==> slots[j] != value
      {
        i := i + 1;
      }
    }

    method TakeModifier(usage: Byte, down: bool) returns (different: bool)
      requires Valid() && IsModifier(usage)
      modifies this`modifiers
      ensures Valid() && Now() == ApplyUsage(old(Now()), usage, down)
      ensures different <==> Now() != old(Now())
    {
      ModifierCase(Now(), usage, down);
      hide SetBit, ApplyUsage;
      var before := modifiers;
      modifiers := SetBit(modifiers, usage, down);
      different := modifiers != before;
    }

    method Press(usage: Byte) returns (different: bool)
      requires Valid() && IsSlotKey(usage)
      modifies this`keys, slots
      ensures Valid() && Now() == ApplyUsage(old(Now()), usage, true)
      ensures different <==> Now() != old(Now())
    {
      SlotKeyCase(Now(), usage);
      hide ApplyUsage;
      var i := Find(usage);
      if i < SLOTS {
        assert keys[i] == usage;
        return false;
      }
      assert usage !in keys by {
        assert forall j :: 0 <= j < |keys| ==> slots[j] == keys[j];
      }
      var free := Find(0);
      assert |keys| < SLOTS ==> slots[|keys|] == 0;
      if free == SLOTS {
        return false;
      }
      assert forall k :: 0 <= k < |keys| ==> keys[k] in keys;
      assert free == |keys|;
      slots[free] := usage;
      AddIs(keys, usage);
      keys := keys + [usage];
      different := true;
    }

    method Release(usage: Byte) returns (different: bool)
      requires Valid() && IsSlotKey(usage)
      modifies this`keys, slots
      ensures Valid() && Now() == ApplyUsage(old(Now()), usage, false)
      ensures different <==> Now() != old(Now())
    {
      SlotKeyCase(Now(), usage);
      RemovedIsWellFormed(keys, usage);
      hide ApplyUsage, Compact, WellFormed, Remove, IsSlotKey;
      var i := Find(usage);
      KeyAt(slots[..], keys, usage, i);
      if i == SLOTS {
        return false;
      }
      CloseGap(i);
      keys := keys[..i] + keys[i + 1..];
      different := true;
    }

    /** Moves every later slot down by one. */
    method CloseGap(i: nat)
      requires slots.Length == SLOTS && i < SLOTS
      modifies slots
      ensures slots[..] == Closed(old(slots[..]), i)
    {
      var j := i;
      while j < SLOTS - 1
        invariant i <= j <= SLOTS - 1
        invariant forall k :: 0 <= k < i ==> slots[k] == old(slots[k])
        invariant forall k :: i <= k < j ==> slots[k] == old(slots[k + 1])
        invariant forall k :: j <= k < SLOTS ==> slots[k] == old(slots[k])
      {
        slots[j] := slots[j + 1];
        j := j + 1;
      }
      slots[SLOTS - 1] := 0;
    }

    method TakeUsage(usage: Byte, down: bool) returns (different: bool)
      requires Valid()
      modifies this`keys, this`modifiers, slots
      ensures Valid() && Now() == ApplyUsage(old(Now()), usage, down)
      ensures different <==> Now() != old(Now())
    {
      if usage == 0 {
        different := false;
      } else if 0xe0 <= usage <= 0xe7 {
        different := TakeModifier(usage, down);
      } else if down {
        different := Press(usage);
      } else {
        different := Release(usage);
      }
    }

    method InputEvent(usage: Byte, down: bool)
      requires Valid()
      modifies this, slots
      ensures Valid() && Now() == Apply(old(Now()), Key(usage, down))
    {
      hide ApplyUsage;
      var different := TakeUsage(usage, down);
      if different {
        changed := true;
      }
    }

    method PackBootReport() returns (report: array<Byte>)
      requires Valid()
      ensures fresh(report) && report[..] == Pack(modifiers, keys)
    {
      report := new Byte[REPORT_LENGTH](i => 0);
      report[0] := REPORT_ID;
      report[1] := modifiers as Byte;
      for i := 0 to SLOTS
        invariant report[..3] == [REPORT_ID, modifiers as Byte, 0] && report[9] == 0
        invariant forall k :: 0 <= k < i ==> report[3 + k] == slots[k]
      {
        report[3 + i] := slots[i];
      }
      PackedFrom(modifiers, keys, slots[..], report[..]);
    }

    method HandleData(isIn: bool, endpoint: nat, size: nat) returns (reply: Reply)
      requires Valid()
      modifies this`changed, this`told
      ensures Valid()
      ensures reply == Stall <==> !isIn || (endpoint != 1 && endpoint != 2)
      ensures isIn && endpoint == 2 ==> Now() == Apply(old(Now()), Poll(size)) && (reply == Nak <==> !old(changed))
      ensures !(isIn && endpoint == 2) ==> Now() == old(Now()) && !reply.Data?
      ensures reply.Data? ==> told == reply.bytes
      ensures reply.Data? <==> isIn && endpoint == 2 && old(changed)
      ensures reply.Data? ==> |reply.bytes| == if size < 10 then size else 10
      ensures reply.Data? ==> forall i :: 0 <= i < |reply.bytes| ==>
        reply.bytes[i] == if i == 0 then 1 else if i == 1 then modifiers as int else if 3 <= i < 9 then slots[i - 3] else 0
      ensures reply.Data? && size >= 10 ==> KeysIn(reply.bytes) == keys && ModifiersIn(reply.bytes) == modifiers
    {
      if !isIn {
        return Stall;
      }
      if endpoint == VENDOR_ENDPOINT {
        return Nak;
      }
      if endpoint != BOOT_ENDPOINT {
        return Stall;
      }
      if !changed {
        return Nak;
      }
      changed := false;
      var report := PackBootReport();
      ReportRoundTrip(modifiers, keys);
      forall i: nat | i < 10
        ensures report[i] == if i == 0 then 1 else if i == 1 then modifiers as int else if 3 <= i < 9 then slots[i - 3] else 0
      {
        ReportBytes(modifiers, keys, i);
        assert report[..][i] == report[i];
      }
      hide Pack, KeysIn, ModifiersIn, WellFormed;
      assert report[..10] == report[..];
      var copy := if size < REPORT_LENGTH then size else REPORT_LENGTH;
      told := report[..copy];
      reply := Data(report[..copy]);
    }

    method HandleReset()
      requires Valid()
      modifies this, slots
      ensures Valid() && Now() == Apply(old(Now()), Event.Reset)
    {
      modifiers := 0;
      for i := 0 to SLOTS
        modifies slots
        invariant forall k :: 0 <= k < i ==> slots[k] == 0
      {
        slots[i] := 0;
      }
      keys := [];
      changed := false;
    }
  }

  function Closed(slots: seq<Byte>, i: nat): seq<Byte>
    requires i < |slots|
  {
    slots[..i] + slots[i + 1..] + [0]
  }

  /** What a search of the slots says about the keys, and what closing the gap leaves. */
  lemma KeyAt(slots: seq<Byte>, keys: seq<Byte>, usage: Byte, i: nat)
    requires Compact(slots, keys) && WellFormed(keys) && usage != 0
    requires i <= SLOTS && forall j :: 0 <= j < i ==> slots[j] != usage
    requires i < SLOTS ==> slots[i] == usage
    ensures i == SLOTS ==> usage !in keys
    ensures i < SLOTS ==>
      && i < |keys| && usage in keys
      && Remove(keys, usage) == keys[..i] + keys[i + 1..]
      && Compact(Closed(slots, i), keys[..i] + keys[i + 1..])
  {
    assert forall j :: 0 <= j < |keys| ==> slots[j] == keys[j];
    if i < SLOTS {
      RemoveAt(keys, i);
      hide WellFormed, Remove, Closed;
      GapIsClosed(slots, keys, i);
    }
  }

  lemma GapIsClosed(slots: seq<Byte>, keys: seq<Byte>, i: nat)
    requires Compact(slots, keys) && i < |keys|
    ensures Compact(Closed(slots, i), keys[..i] + keys[i + 1..])
  {
  }

  lemma RemovedIsWellFormed(keys: seq<Byte>, usage: Byte)
    requires WellFormed(keys)
    ensures Distinct(keys) && WellFormed(Remove(keys, usage))
    ensures usage !in keys ==> Remove(keys, usage) == keys
  {
    RemoveIs(keys, usage);
  }

  lemma PackedFrom(modifiers: bv8, keys: seq<Byte>, slots: seq<Byte>, report: seq<Byte>)
    requires |keys| <= SLOTS && |slots| == SLOTS && |report| == REPORT_LENGTH
    requires forall k :: 0 <= k < SLOTS ==> slots[k] == if k < |keys| then keys[k] else 0
    requires report[..3] == [REPORT_ID, modifiers as Byte, 0] && report[3..9] == slots && report[9] == 0
    ensures report == Pack(modifiers, keys)
  {
    assert slots == keys + Zeros(SLOTS - |keys|);
    assert report == report[..3] + report[3..9] + [report[9]];
  }

  lemma ModifierCase(st: State, usage: Byte, down: bool)
    requires IsModifier(usage)
    ensures ApplyUsage(st, usage, down) == st.(modifiers := SetBit(st.modifiers, usage, down))
  {
  }

  lemma SlotKeyCase(st: State, usage: Byte)
    requires IsSlotKey(usage)
    ensures ApplyUsage(st, usage, false) == st.(keys := Remove(st.keys, usage))
    ensures ApplyUsage(st, usage, true) == st.(keys := if |st.keys| < SLOTS then Add(st.keys, usage) else st.keys)
  {
  }
}
