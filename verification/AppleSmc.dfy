/** The System Management Controller's port handlers over its registers, buffers and key list.
    Every handler is the step that the module SmcProtocol speaks of. */
module AppleSmc {
  import opened MachineInts
  import opened SmcProtocol

  class Controller {
    var cmd: Byte
    var status: Byte
    var status1e: Byte
    var lastRet: Byte
    const key: array<Byte>
    var readPos: Byte
    var dataLen: Byte
    var dataPos: Byte
    const data: array<Byte>
    var dataDef: seq<Entry>

    ghost predicate Valid()
      reads this
    {
      key.Length == 4 && data.Length == BUFFER && key != data
    }

    ghost function Now(): Machine
      requires Valid()
      reads this, key, data
    {
      Machine(cmd, status, status1e, lastRet, key[..], readPos, data[..], dataLen, dataPos)
    }

    constructor ()
      ensures Valid() && dataDef == [] && fresh(key) && fresh(data)
    {
      key := new Byte[4](i => 0);
      data := new Byte[BUFFER](i => 0);
      cmd, status, status1e, lastRet := 0, DONE, DONE, 0;
      readPos, dataLen, dataPos := 0, 0, 0;
      dataDef := [];
    }

    // ---------- The key list ----------

    method AddKey(name: Name, bytes: Payload)
      requires Valid()
      modifies this`dataDef
      ensures dataDef == [Entry(name, bytes)] + old(dataDef)
    {
      dataDef := [Entry(name, bytes)] + dataDef;
    }

    /** The end of realize: the count of all keys, its own included, goes in last. */
    method AddNumberOfKeys()
      requires Valid() && |dataDef| + 1 < TWO_TO_THE_31
      modifies this`dataDef
      ensures dataDef == Realized(old(dataDef))
    {
      var count := 1;
      for i := 0 to |dataDef|
        invariant count == i + 1
      {
        count := count + 1;
      }
      AddKey(NUMBER_OF_KEYS, ToBigEndian(count));
    }

    method FindKey() returns (found: Option<Payload>)
      requires Valid()
      ensures found == Find(dataDef, key[..])
      ensures found == None <==> forall i :: 0 <= i < |dataDef| ==> dataDef[i].name != key[..]
      ensures found.Some? ==> exists i: nat :: FirstAt(dataDef, key[..], i) && found.value == dataDef[i].data
    {
      FindIs(dataDef, key[..]);
      assert dataDef[0..] == dataDef;
      for i := 0 to |dataDef|
        invariant Find(dataDef, key[..]) == Find(dataDef[i..], key[..])
        invariant forall j :: 0 <= j < i ==> dataDef[j].name != key[..]
      {
        assert dataDef[i..][1..] == dataDef[i + 1..];
        if dataDef[i].name == key[..] {
          assert FirstAt(dataDef, key[..], i);
          return Some(dataDef[i].data);
        }
      }
      found := None;
    }

    /** The entry at that place of the list, counted with 32 bits. */
    method NameAt(index: Word) returns (found: Option<Name>)
      requires Valid()
      ensures found == if index < |dataDef| then Some(dataDef[index].name) else None
    {
      var i: Word := 0;
      for at := 0 to |dataDef|
        invariant at <= index && i == at
      {
        if i == index {
          return Some(dataDef[at].name);
        }
        i := U32(i + 1);
      }
      found := None;
    }

    // ---------- The ports ----------

    method CmdWrite(val: Byte)
      requires Valid()
      modifies this`cmd, this`status, this`status1e, this`readPos, this`dataPos
      ensures Now() == WriteCommand(old(Now()), val)
    {
      if Standard(val) {
        if Idle(status) || status % 16 == NEW_CMD {
          cmd := val;
          status := NEW_CMD + ACK;
        } else {
          status := NEW_CMD;
          status1e := INTERRUPTED;
        }
      } else {
        status := NEW_CMD;
        status1e := BAD_CMD;
      }
      readPos := 0;
      dataPos := 0;
    }

    /** Copies into the front of the data buffer. */
    method Fill(bytes: Payload)
      requires Valid()
      modifies data
      ensures data[..] == Stored(bytes, old(data[..]))
    {
      for i := 0 to |bytes|
        invariant data[..i] == bytes[..i]
        invariant data[i..] == old(data[i..])
      {
        data[i] := bytes[i];
      }
      assert data[..] == data[..|bytes|] + data[|bytes|..];
    }

    method Reply(bytes: Payload, length: Byte)
      requires Valid()
      modifies this`dataLen, this`dataPos, this`status, this`status1e, data
      ensures Now() == Stage(old(Now()), bytes, length)
    {
      Fill(bytes);
      dataLen := length;
      dataPos := 0;
      status := ACK + DATA_READY;
      status1e := DONE;
    }

    method KeyByte(val: Byte)
      requires Valid() && readPos < 4
      modifies this`status, key
      ensures Now() == TakeKeyByte(old(Now()), val)
    {
      key[readPos] := val;
      status := ACK;
    }

    method ReadArgument(val: Byte)
      requires Valid()
      modifies this`status, this`status1e, this`dataLen, this`dataPos, key, data
      ensures Now() == TakeRead(dataDef, old(Now()), val)
    {
      hide Find;
      if readPos < 4 {
        KeyByte(val);
      } else if readPos == 4 {
        var found := FindKey();
        match found
        case Some(bytes) => Reply(bytes, |bytes|);
        case None => Reply(Zeros(MAX_LENGTH), val);
      }
    }

    method WriteArgument(val: Byte)
      requires Valid()
      modifies this`status, this`status1e, this`dataLen, this`dataPos, key, data
      ensures Now() == TakeWrite(old(Now()), val)
    {
      if readPos < 4 {
        KeyByte(val);
      } else if readPos == 4 {
        dataLen := val;
        dataPos := 0;
        status := ACK;
      } else if dataPos < dataLen {
        data[dataPos] := val;
        dataPos := dataPos + 1;
        if dataPos == dataLen {
          status := DONE;
          status1e := DONE;
        } else {
          status := ACK;
        }
      }
    }

    method TypeArgument(val: Byte)
      requires Valid()
      modifies this`status, this`status1e, this`dataLen, this`dataPos, key, data
      ensures Now() == TakeType(dataDef, old(Now()), val)
    {
      hide Find, TypeInfo, Stage;
      if readPos < 3 {
        KeyByte(val);
      } else if readPos == 3 {
        KeyByte(val);
        var found := FindKey();
        match found
        case Some(bytes) => Reply(TypeInfo(|bytes|), 6);
        case None => Reply(TypeInfo(1), 6);
      }
    }

    method IndexArgument(val: Byte)
      requires Valid()
      modifies this`status, this`status1e, this`dataLen, this`dataPos, key, data
      ensures Now() == TakeIndex(dataDef, old(Now()), val)
    {
      hide BigEndian, Stage;
      if readPos < 3 {
        KeyByte(val);
      } else if readPos == 3 {
        KeyByte(val);
        var found := NameAt(BigEndian(key[..]));
        match found
        case Some(name) => Reply(name, 4);
        case None =>
          dataLen := 0;
          status1e := BAD_INDEX;
          status := DONE;
      }
    }

    method DataWrite(val: Byte)
      requires Valid()
      modifies this`status, this`status1e, this`readPos, this`dataLen, this`dataPos, key, data
      ensures Now() == WriteData(dataDef, old(Now()), val)
    {
      hide TakeRead, TakeWrite, TakeType, TakeIndex;
      if !Standard(cmd) {
        status := DONE;
        status1e := STILL_BAD_CMD;
        return;
      }
      if Idle(status) {
        return;
      }
      if cmd == READ {
        ReadArgument(val);
      } else if cmd == WRITE {
        WriteArgument(val);
      } else if cmd == KEY_TYPE {
        TypeArgument(val);
      } else {
        IndexArgument(val);
      }
      readPos := U8(readPos + 1);
    }

    method DataRead() returns (ret: Byte)
      requires Valid()
      modifies this`status, this`status1e, this`lastRet, this`dataPos
      ensures Now() == ReadData(old(Now())) && ret == Now().last
    {
      if cmd != READ {
        status := DONE;
        status1e := STILL_BAD_CMD;
      } else if Ready(status) && dataPos < dataLen {
        lastRet := data[dataPos];
        dataPos := dataPos + 1;
        if dataPos == dataLen {
          status := DONE;
        } else {
          status := ACK + DATA_READY;
        }
      }
      ret := lastRet;
    }

    method HandleReset()
      requires Valid()
      modifies this`status, this`status1e, this`lastRet
      ensures Now() == Reset(old(Now()))
    {
      status := DONE;
      status1e := DONE;
      lastRet := 0;
    }
  }
}
