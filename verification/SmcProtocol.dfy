/** The System Management Controller's byte-wise command protocol as a state machine, and what whole
    transactions achieve from any state. */
module SmcProtocol {
  import opened MachineInts

  const READ: Byte := 0x10
  const WRITE: Byte := 0x11
  const KEY_BY_INDEX: Byte := 0x12
  const KEY_TYPE: Byte := 0x13

  const DONE: Byte := 0x00
  const DATA_READY: Byte := 0x01
  const ACK: Byte := 0x04
  const NEW_CMD: Byte := 0x08

  const INTERRUPTED: Byte := 0x80
  const STILL_BAD_CMD: Byte := 0x81
  const BAD_CMD: Byte := 0x82
  const BAD_INDEX: Byte := 0xb8

  const BUFFER: nat := 255
  const MAX_LENGTH: nat := 32

  type Name = s: seq<Byte> | |s| == 4 witness [0, 0, 0, 0]
  type Buffer = s: seq<Byte> | |s| == BUFFER witness seq(BUFFER, i => 0)
  type Payload = s: seq<Byte> | |s| <= BUFFER witness []

  datatype Entry = Entry(name: Name, data: Payload)
  datatype Option<T> = None | Some(value: T)

  datatype Machine = Machine(
    cmd: Byte, status: Byte, error: Byte, last: Byte,
    key: Name, readPos: Byte,
    data: Buffer, dataLen: Byte, dataPos: Byte)

  predicate Standard(cmd: Byte) {
    cmd == READ || cmd == WRITE || cmd == KEY_BY_INDEX || cmd == KEY_TYPE
  }

  predicate Idle(status: Byte) {
    status % 16 == DONE
  }

  predicate Ready(status: Byte) {
    status % 2 == DATA_READY
  }

  /** The first entry of that name. */
  function Find(table: seq<Entry>, name: Name): Option<Payload> {
    if table == [] then None
    else if table[0].name == name then Some(table[0].data)
    else Find(table[1..], name)
  }

  function BigEndian(b: Name): Word {
    b[0] as int * 0x100_0000 + b[1] as int * 0x1_0000 + b[2] as int * 0x100 + b[3]
  }

  function ToBigEndian(v: Word): Name {
    [v / 0x100_0000, v / 0x1_0000 % 256, v / 0x100 % 256, v % 256]
  }

  lemma BigEndianRoundTrip(v: Word)
    ensures BigEndian(ToBigEndian(v)) == v && BigEndianValue(ToBigEndian(v)) == v
  {
    LowBytes(v);
    hide BigEndianValue;
    BigEndianIsValue(ToBigEndian(v));
  }

  lemma BigEndianIsValue(bytes: Name)
    ensures BigEndian(bytes) == BigEndianValue(bytes)
  {
    hide BigEndianValue;
    BigEndianOfFour(bytes);
  }

  // ---------- The ports ----------

  function WriteCommand(m: Machine, cmd: Byte): Machine {
    (if !Standard(cmd) then m.(status := NEW_CMD, error := BAD_CMD)
     else if Idle(m.status) || m.status % 16 == NEW_CMD then m.(cmd := cmd, status := NEW_CMD + ACK)
     else m.(status := NEW_CMD, error := INTERRUPTED)).(readPos := 0, dataPos := 0)
  }

  function Stored(bytes: Payload, data: Buffer): Buffer {
    bytes + data[|bytes|..]
  }

  /** A reply of that length, made up of the given bytes and whatever the buffer held after them. */
  function Stage(m: Machine, bytes: Payload, length: Byte): Machine {
    m.(data := Stored(bytes, m.data), dataLen := length, dataPos := 0, status := ACK + DATA_READY, error := DONE)
  }

  function TakeKeyByte(m: Machine, v: Byte): Machine
    requires m.readPos < 4
  {
    m.(key := m.key[m.readPos := v], status := ACK)
  }

  function Zeros(n: nat): seq<Byte> {
    seq(n, i => 0)
  }

  function TakeRead(table: seq<Entry>, m: Machine, v: Byte): Machine {
    if m.readPos < 4 then TakeKeyByte(m, v)
    else if m.readPos > 4 then m
    else match Find(table, m.key)
      case Some(data) => Stage(m, data, |data|)
      case None => Stage(m, Zeros(MAX_LENGTH), v)
  }

  function TakeWrite(m: Machine, v: Byte): Machine {
    if m.readPos < 4 then TakeKeyByte(m, v)
    else if m.readPos == 4 then m.(dataLen := v, dataPos := 0, status := ACK)
    else if m.dataPos >= m.dataLen then m
    else
      var stored := m.(data := m.data[m.dataPos := v], dataPos := m.dataPos + 1);
      if stored.dataPos == stored.dataLen then stored.(status := DONE, error := DONE) else stored.(status := ACK)
  }

  /** The name, size and attributes of a type. */
  function TypeInfo(size: Byte): Payload {
    (match size
     case 1 => ['u' as int, 'i' as int, '8' as int, ' ' as int]
     case 2 => ['u' as int, 'i' as int, '1' as int, '6' as int]
     case 4 => ['u' as int, 'i' as int, '3' as int, '2' as int]
     case _ => ['c' as int, 'h' as int, '8' as int, '*' as int]) + [size, 0xd0]
  }

  function TakeType(table: seq<Entry>, m: Machine, v: Byte): Machine {
    if m.readPos < 3 then TakeKeyByte(m, v)
    else if m.readPos > 3 then m
    else
      var named := TakeKeyByte(m, v);
      match Find(table, named.key)
      case Some(data) => Stage(named, TypeInfo(|data|), 6)
      case None => Stage(named, TypeInfo(1), 6)
  }

  function TakeIndex(table: seq<Entry>, m: Machine, v: Byte): Machine {
    if m.readPos < 3 then TakeKeyByte(m, v)
    else if m.readPos > 3 then m
    else
      var named := TakeKeyByte(m, v);
      var index := BigEndian(named.key);
      if index < |table| then Stage(named, table[index].name, 4)
      else named.(dataLen := 0, status := DONE, error := BAD_INDEX)
  }

  function WriteData(table: seq<Entry>, m: Machine, v: Byte): Machine {
    if !Standard(m.cmd) then m.(status := DONE, error := STILL_BAD_CMD)
    else if Idle(m.status) then m
    else
      (if m.cmd == READ then TakeRead(table, m, v)
       else if m.cmd == WRITE then TakeWrite(m, v)
       else if m.cmd == KEY_TYPE then TakeType(table, m, v)
       else TakeIndex(table, m, v)).(readPos := U8(m.readPos + 1))
  }

  /** The byte read is the new value of last. */
  function ReadData(m: Machine): Machine {
    if m.cmd != READ then m.(status := DONE, error := STILL_BAD_CMD)
    else if !Ready(m.status) || m.dataPos >= m.dataLen then m
    else
      var next := m.(last := m.data[m.dataPos], dataPos := m.dataPos + 1);
      next.(status := if next.dataPos == next.dataLen then DONE else ACK + DATA_READY)
  }

  function Reset(m: Machine): Machine {
    m.(status := DONE, error := DONE, last := 0)
  }

  function WriteAll(table: seq<Entry>, m: Machine, bytes: seq<Byte>): Machine
    decreases |bytes|
  {
    if bytes == [] then m else WriteAll(table, WriteData(table, m, bytes[0]), bytes[1..])
  }

  datatype Reading = Reading(m: Machine, bytes: seq<Byte>)

  function ReadAll(m: Machine, n: nat): Reading
    decreases n
  {
    if n == 0 then Reading(m, []) else
      var first := ReadData(m);
      var rest := ReadAll(first, n - 1);
      Reading(rest.m, [first.last] + rest.bytes)
  }

  // ---------- The table ----------

  predicate Absent(table: seq<Entry>, name: Name) {
    forall i :: 0 <= i < |table| ==> table[i].name != name
  }

  /** Entry i is the first of that name. */
  predicate FirstAt(table: seq<Entry>, name: Name, i: nat) {
    i < |table| && table[i].name == name && forall j :: 0 <= j < i ==> table[j].name != name
  }

  /** The search finds nothing exactly if the name is not in the table, and otherwise the data of its
      first entry. */
  lemma {:induction false} FindIs(table: seq<Entry>, name: Name)
    ensures Find(table, name) == None <==> Absent(table, name)
    ensures forall i: nat :: FirstAt(table, name, i) ==> Find(table, name) == Some(table[i].data)
  {
    if table != [] && table[0].name != name {
      var rest := table[1..];
      assert table == [table[0]] + rest;
      FindIs(rest, name);
      forall i: nat | FirstAt(table, name, i)
        ensures Find(table, name) == Some(table[i].data)
      {
        assert FirstAt(rest, name, i - 1);
      }
    }
  }

  // ---------- Getting a command accepted ----------

  predicate Accepted(m: Machine, cmd: Byte) {
    m.cmd == cmd && m.status == NEW_CMD + ACK && m.readPos == 0 && m.dataPos == 0
  }

  /** A driver that writes the command again if the first was taken for an interruption. */
  function Request(m: Machine, cmd: Byte): Machine {
    var once := WriteCommand(m, cmd);
    if once.status == NEW_CMD + ACK then once else WriteCommand(once, cmd)
  }

  /** From every state, two writes of a command are enough; one is, exactly if nothing is going on. */
  lemma TwoWritesAreEnough(m: Machine, cmd: Byte)
    requires Standard(cmd)
    ensures Accepted(Request(m, cmd), cmd) && Request(m, cmd).data == m.data
    ensures Accepted(WriteCommand(m, cmd), cmd) <==> Idle(m.status) || m.status % 16 == NEW_CMD
    ensures !Accepted(WriteCommand(m, cmd), cmd) ==> WriteCommand(m, cmd).error == 0x80 && WriteCommand(m, cmd).status == 0x08
  {
  }

  lemma StandardCommands(cmd: Byte)
    ensures Standard(cmd) <==> 0x10 <= cmd <= 0x13
    ensures READ == 0x10 && WRITE == 0x11 && KEY_BY_INDEX == 0x12 && KEY_TYPE == 0x13
  {
  }

  /** Any other command is refused, and the next standard one is accepted at once. */
  lemma OtherCommandsAreRefused(m: Machine, cmd: Byte, next: Byte)
    requires !Standard(cmd) && Standard(next)
    ensures var now := WriteCommand(m, cmd);
            && now.status == 0x08 && now.error == 0x82 && now.cmd == m.cmd
            && Accepted(WriteCommand(now, next), next)
  {
  }

  /** Bytes that no command asks for: the data port ignores them once a command is done, says so when
      there is none, and passes over those behind the length of a READ; reading before a reply is
      there repeats the last byte. */
  lemma StrayBytes(table: seq<Entry>, m: Machine, v: Byte)
    ensures !Standard(m.cmd) ==> WriteData(table, m, v) == m.(status := 0, error := 0x81)
    ensures Standard(m.cmd) && Idle(m.status) ==> WriteData(table, m, v) == m
    ensures m.cmd == READ && !Idle(m.status) && m.readPos > 4 ==>
              WriteData(table, m, v) == m.(readPos := if m.readPos == 255 then 0 else m.readPos + 1)
    ensures m.cmd == READ && !Ready(m.status) ==> ReadData(m) == m
  {
  }

  /** A reset ends what is going on; the buffers and positions stay. */
  lemma ResetEnds(m: Machine)
    ensures var now := Reset(m);
            && now.status == 0 && now.error == 0 && now.last == 0
            && now.cmd == m.cmd && now.key == m.key && now.data == m.data
            && now.readPos == m.readPos && now.dataLen == m.dataLen && now.dataPos == m.dataPos
  {
  }

  // ---------- Reading a key ----------

  lemma {:induction false} WriteAppend(table: seq<Entry>, m: Machine, a: seq<Byte>, b: seq<Byte>)
    ensures WriteAll(table, m, a + b) == WriteAll(table, WriteAll(table, m, a), b)
    decreases |a|
  {
    if a == [] {
      assert a + b == b;
    } else {
      assert (a + b)[1..] == a[1..] + b;
      WriteAppend(table, WriteData(table, m, a[0]), a[1..], b);
    }
  }

  lemma WriteOne(table: seq<Entry>, m: Machine, v: Byte)
    ensures WriteAll(table, m, [v]) == WriteData(table, m, v)
  {
    assert WriteAll(table, WriteData(table, m, v), []) == WriteData(table, m, v);
  }

  /** A byte that is not the last of the key just goes into it. */
  lemma EnterKeyByte(table: seq<Entry>, m: Machine, v: Byte)
    requires Standard(m.cmd) && !Idle(m.status)
    requires m.readPos < if m.cmd == READ || m.cmd == WRITE then 4 else 3
    ensures WriteData(table, m, v) == m.(key := m.key[m.readPos := v], status := ACK, readPos := m.readPos + 1)
  {
  }

  lemma {:induction false} EnterKeyBytes(table: seq<Entry>, m: Machine, bytes: seq<Byte>)
    requires Standard(m.cmd) && !Idle(m.status) && bytes != []
    requires m.readPos + |bytes| <= if m.cmd == READ || m.cmd == WRITE then 4 else 3
    ensures WriteAll(table, m, bytes)
         == m.(key := m.key[..m.readPos] + bytes + m.key[m.readPos + |bytes|..], status := ACK, readPos := m.readPos + |bytes|)
    decreases |bytes|
  {
    EnterKeyByte(table, m, bytes[0]);
    var next := m.(key := m.key[m.readPos := bytes[0]], status := ACK, readPos := m.readPos + 1);
    if |bytes| == 1 {
      assert bytes == [bytes[0]];
      WriteOne(table, m, bytes[0]);
      assert next.key == m.key[..m.readPos] + bytes + m.key[m.readPos + |bytes|..];
    } else {
      EnterKeyBytes(table, next, bytes[1..]);
      assert next.key[..next.readPos] == m.key[..m.readPos] + [bytes[0]];
      assert next.key[..next.readPos] + bytes[1..] + next.key[next.readPos + |bytes[1..]|..]
          == m.key[..m.readPos] + bytes + m.key[m.readPos + |bytes|..];
    }
  }

  /** The four bytes of a name, sent to an accepted READ or WRITE. */
  lemma EnterName(table: seq<Entry>, m: Machine, name: Name)
    requires Accepted(m, READ) || Accepted(m, WRITE)
    ensures WriteAll(table, m, name) == m.(key := name, status := ACK, readPos := 4)
  {
    EnterKeyBytes(table, m, name);
    assert m.key[..0] + name + m.key[4..] == name;
  }

  /** Reading out a staged reply gives its bytes in order and ends the command. */
  lemma {:induction false} ReadOut(m: Machine, n: nat)
    requires m.cmd == READ && Ready(m.status) && n > 0 && m.dataPos + n == m.dataLen
    ensures var r := ReadAll(m, n);
            && r.bytes == m.data[m.dataPos..m.dataLen]
            && r.m.status == DONE && r.m.error == m.error && r.m.data == m.data
    decreases n
  {
    var next := ReadData(m);
    if n == 1 {
      assert ReadAll(next, 0).bytes == [];
    } else {
      ReadOut(next, n - 1);
    }
  }

  /** An empty reply is never finished: every read leaves the machine as it was. */
  lemma {:induction false} EmptyReplyNeverEnds(m: Machine, n: nat)
    requires m.cmd == READ && m.dataPos >= m.dataLen
    ensures ReadAll(m, n).m == m
    decreases n
  {
    if n > 0 {
      EmptyReplyNeverEnds(m, n - 1);
    }
  }

  /** What a guest gets back for a key: the bytes of a key in the table, or that many zeros, beyond
      the 32nd replaced by what the buffer held before. */
  function Reply(table: seq<Entry>, name: Name, length: Byte, before: Buffer): Payload {
    match Find(table, name)
    case Some(data) => data
    case None => Stored(Zeros(MAX_LENGTH), before)[..length]
  }

  function ReadKey(table: seq<Entry>, m: Machine, name: Name, length: Byte): Reading {
    ReadAll(WriteAll(table, Request(m, READ), name + [length]), |Reply(table, name, length, m.data)|)
  }

  lemma StagedForReading(table: seq<Entry>, m: Machine, name: Name, length: Byte)
    requires Accepted(m, READ)
    ensures var staged := WriteAll(table, m, name + [length]);
            var reply := Reply(table, name, length, m.data);
            && staged.cmd == READ && staged.status == ACK + DATA_READY && staged.error == DONE
            && staged.dataPos == 0 && staged.dataLen == |reply| && staged.data[..|reply|] == reply
  {
    EnterName(table, m, name);
    WriteAppend(table, m, name, [length]);
    WriteOne(table, m.(key := name, status := ACK, readPos := 4), length);
  }

  /** From any state whatever, reading a key yields exactly the reply, and ends the command unless
      the reply is empty, in which case no number of reads does. */
  lemma ReadingAKey(table: seq<Entry>, m: Machine, name: Name, length: Byte)
    ensures var reply := Reply(table, name, length, m.data);
            var r := ReadKey(table, m, name, length);
            && r.bytes == reply
            && r.m.error == DONE
            && (r.m.status == DONE <==> reply != [])
            && (reply == [] ==> forall n: nat :: ReadAll(r.m, n).m.status == ACK + DATA_READY)
  {
    hide WriteAll, WriteCommand, Request, Reply;
    TwoWritesAreEnough(m, READ);
    StagedForReading(table, Request(m, READ), name, length);
    var staged := WriteAll(table, Request(m, READ), name + [length]);
    var reply := Reply(table, name, length, m.data);
    if reply == [] {
      forall n: nat
        ensures ReadAll(staged, n).m == staged
      {
        EmptyReplyNeverEnds(staged, n);
      }
    } else {
      ReadOut(staged, |reply|);
    }
  }

  /** The whole transaction of a guest that reads so many bytes. */
  function Transaction(table: seq<Entry>, m: Machine, name: Name, length: Byte, n: nat): Reading {
    ReadAll(WriteAll(table, Request(m, READ), name + [length]), n)
  }

  /** From any state whatever, a key in the table reads as the data of its first entry, whatever length
      was sent, and the command ends with the last byte; an empty entry never ends it. */
  lemma ReadingAKnownKey(table: seq<Entry>, m: Machine, name: Name, length: Byte, i: nat)
    requires FirstAt(table, name, i)
    ensures var data := table[i].data;
            var r := Transaction(table, m, name, length, |data|);
            && r.bytes == data && r.m.error == 0
            && (data != [] ==> r.m.status == 0)
            && (data == [] ==> forall n: nat :: ReadAll(r.m, n).m.status == 5)
  {
    FindIs(table, name);
    ReadingAKey(table, m, name, length);
    hide WriteAll, Request, ReadAll, Find, Absent;
  }

  /** And a key that is not in the table as the length that was sent of zeros, beyond the 32nd replaced
      by what the buffer held; a length of zero never ends the command. */
  lemma ReadingAnUnknownKey(table: seq<Entry>, m: Machine, name: Name, length: Byte)
    requires Absent(table, name)
    ensures var r := Transaction(table, m, name, length, length);
            && |r.bytes| == length && r.m.error == 0
            && (forall k :: 0 <= k < length ==> r.bytes[k] == if k < 32 then 0 else m.data[k])
            && (length > 0 ==> r.m.status == 0)
            && (length == 0 ==> forall n: nat :: ReadAll(r.m, n).m.status == 5)
  {
    FindIs(table, name);
    ReadingAKey(table, m, name, length);
    hide WriteAll, Request, ReadAll, Find, Absent;
  }

  /** So it reads as zeros exactly if no stale byte shows beyond the 32nd. */
  lemma UnknownKeysReadAsZeros(table: seq<Entry>, m: Machine, name: Name, length: Byte)
    requires Absent(table, name)
    ensures var bytes := Transaction(table, m, name, length, length).bytes;
            && |bytes| == length
            && ((forall k :: 0 <= k < length ==> bytes[k] == 0) <==> forall i :: 32 <= i < length ==> m.data[i] == 0)
  {
    hide Transaction, Absent;
    ReadingAnUnknownKey(table, m, name, length);
  }

  // ---------- Writing a key ----------

  /** The largest payload: with its header of five it still fits the 8-bit position. */
  const LONGEST_WRITE: nat := 251

  lemma {:induction false} PayloadGoesIn(table: seq<Entry>, m: Machine, payload: seq<Byte>)
    requires m.cmd == WRITE && m.status == ACK && payload != []
    requires m.readPos == m.dataPos + 5 && m.dataPos + |payload| == m.dataLen
    requires m.dataLen <= LONGEST_WRITE
    ensures var now := WriteAll(table, m, payload);
            && now.status == DONE && now.error == DONE && now.cmd == WRITE && now.key == m.key
            && now.data == m.data[..m.dataPos] + payload + m.data[m.dataLen..]
    decreases |payload|
  {
    var next := WriteData(table, m, payload[0]);
    if |payload| == 1 {
      assert payload == [payload[0]];
      WriteOne(table, m, payload[0]);
      assert next.data == m.data[..m.dataPos] + payload + m.data[m.dataLen..];
    } else {
      PayloadGoesIn(table, next, payload[1..]);
      assert next.data[..next.dataPos] == m.data[..m.dataPos] + [payload[0]];
      assert next.data[..next.dataPos] + payload[1..] == m.data[..m.dataPos] + payload;
      assert next.data[next.dataLen..] == m.data[m.dataLen..];
    }
  }

  function WriteKey(table: seq<Entry>, m: Machine, name: Name, payload: Payload): Machine {
    WriteAll(table, Request(m, WRITE), name + [|payload|] + payload)
  }

  /** The state after the name and the length. */
  lemma WriteHeader(table: seq<Entry>, m: Machine, name: Name, payload: Payload)
    ensures WriteKey(table, m, name, payload)
         == WriteAll(table, Request(m, WRITE).(key := name, status := ACK, readPos := 5, dataLen := |payload|), payload)
  {
    hide WriteAll, Request;
    TwoWritesAreEnough(m, WRITE);
    var start := Request(m, WRITE);
    EnterName(table, start, name);
    WriteAppend(table, start, name, [|payload|]);
    WriteAppend(table, start, name + [|payload|], payload);
    WriteOne(table, start.(key := name, status := ACK, readPos := 4), |payload|);
  }

  /** The bytes past the longest payload are taken for a new key instead. */
  lemma {:induction false} TooLong(table: seq<Entry>, m: Machine, payload: seq<Byte>)
    requires m.cmd == WRITE && m.status == ACK && 5 <= m.readPos && m.readPos == m.dataPos + 5
    requires LONGEST_WRITE < m.dataLen && m.dataPos + |payload| == m.dataLen
    ensures WriteAll(table, m, payload).status == ACK
    decreases |payload|
  {
    var next := WriteData(table, m, payload[0]);
    if next.readPos == 0 {
      EnterKeyBytes(table, next, payload[1..]);
    } else {
      TooLong(table, next, payload[1..]);
    }
  }

  /** From any state whatever, writing a key ends the command if and only if the payload has 1 to
      251 bytes, and it is then stored. */
  lemma WritingAKey(table: seq<Entry>, m: Machine, name: Name, payload: Payload)
    ensures var now := WriteKey(table, m, name, payload);
            && (now.status == DONE <==> 1 <= |payload| <= 251)
            && (now.status == DONE ==> now.error == DONE && now.key == name && now.data[..|payload|] == payload
                                       && now.data[|payload|..] == m.data[|payload|..])
  {
    hide WriteAll, WriteCommand, Request, WriteKey;
    WriteHeader(table, m, name, payload);
    TwoWritesAreEnough(m, WRITE);
    var ready := Request(m, WRITE).(key := name, status := ACK, readPos := 5, dataLen := |payload|);
    if payload == [] {
      NothingToWrite(table, ready);
    } else if |payload| <= LONGEST_WRITE {
      PayloadGoesIn(table, ready, payload);
    } else {
      TooLong(table, ready, payload);
    }
  }

  lemma NothingToWrite(table: seq<Entry>, m: Machine)
    ensures WriteAll(table, m, []) == m
  {
  }

  // ---------- Asking for a type ----------

  lemma TypeIsStaged(table: seq<Entry>, m: Machine, name: Name)
    ensures var now := WriteAll(table, Request(m, KEY_TYPE), name);
            var info := match Find(table, name) case Some(data) => TypeInfo(|data|) case None => TypeInfo(1);
            && now.status == ACK + DATA_READY && now.error == DONE && now.key == name
            && now.dataLen == 6 && now.data[..6] == info
  {
    hide WriteCommand, Request, Find, TypeInfo;
    TwoWritesAreEnough(m, KEY_TYPE);
    AllButTheLast(table, Request(m, KEY_TYPE), name);
    TypeInfoIsSix(1);
    match Find(table, name)
    case Some(data) => TypeInfoIsSix(|data|);
    case None =>
  }

  /** A description of six bytes: `ui8 `, `ui16`, `ui32` or `ch8*` by the size, the size, and d0. */
  predicate Describes(info: seq<Byte>, size: nat) {
    && |info| == 6 && info[4] == size && info[5] == 0xd0
    && info[..4] == if size == 1 then [0x75, 0x69, 0x38, 0x20] else if size == 2 then [0x75, 0x69, 0x31, 0x36]
                    else if size == 4 then [0x75, 0x69, 0x33, 0x32] else [0x63, 0x68, 0x38, 0x2a]
  }

  lemma TypeInfoIsSix(size: Byte)
    ensures |TypeInfo(size)| == 6 && Describes(TypeInfo(size), size)
  {
  }

  /** From any state whatever, asking for a key's type stages the description of the first entry of that
      name, or of one byte if the name is not in the table. */
  lemma AskingForAType(table: seq<Entry>, m: Machine, name: Name)
    ensures var now := WriteAll(table, Request(m, KEY_TYPE), name);
            && now.status == 5 && now.error == 0 && now.key == name && now.dataLen == 6
            && (forall i: nat :: FirstAt(table, name, i) ==> Describes(now.data[..6], |table[i].data|))
            && (Absent(table, name) ==> Describes(now.data[..6], 1))
  {
    FindIs(table, name);
    TypeIsStaged(table, m, name);
    hide WriteAll, Request, Absent, TypeInfo, Describes;
    if Absent(table, name) {
      TypeInfoIsSix(1);
    }
    forall i: nat | FirstAt(table, name, i)
      ensures Describes(WriteAll(table, Request(m, KEY_TYPE), name).data[..6], |table[i].data|)
    {
      TypeInfoIsSix(|table[i].data|);
    }
  }

  /** Four bytes sent to a command that acts on the fourth. */
  lemma AllButTheLast(table: seq<Entry>, m: Machine, bytes: Name)
    requires Accepted(m, KEY_TYPE) || Accepted(m, KEY_BY_INDEX)
    ensures WriteAll(table, m, bytes)
         == WriteData(table, m.(key := [bytes[0], bytes[1], bytes[2], m.key[3]], status := ACK, readPos := 3), bytes[3])
  {
    EnterKeyBytes(table, m, bytes[..3]);
    assert m.key[..0] + bytes[..3] + m.key[3..] == [bytes[0], bytes[1], bytes[2], m.key[3]];
    assert bytes == bytes[..3] + [bytes[3]];
    WriteAppend(table, m, bytes[..3], [bytes[3]]);
    WriteOne(table, WriteAll(table, m, bytes[..3]), bytes[3]);
  }

  // ---------- Enumerating the keys ----------

  function RequestIndex(table: seq<Entry>, m: Machine, index: Word): Machine {
    WriteAll(table, Request(m, KEY_BY_INDEX), ToBigEndian(index))
  }

  predicate Names(m: Machine, name: Name) {
    m.status == ACK + DATA_READY && m.error == DONE && m.dataLen == 4 && m.data[..4] == name
  }

  /** From any state whatever, four bytes are taken for an index, the most significant first: below the
      length of the table it stages exactly the name there, and otherwise it is refused. */
  lemma AskingByIndex(table: seq<Entry>, m: Machine, bytes: Name)
    ensures var now := WriteAll(table, Request(m, KEY_BY_INDEX), bytes);
            var index := BigEndianValue(bytes);
            if index < |table| then Names(now, table[index].name)
            else now.status == 0 && now.error == 0xb8 && now.dataLen == 0
  {
    BigEndianIsValue(bytes);
    hide WriteAll, WriteCommand, Request, BigEndian, BigEndianValue;
    TwoWritesAreEnough(m, KEY_BY_INDEX);
    var start := Request(m, KEY_BY_INDEX);
    AllButTheLast(table, start, bytes);
    assert [bytes[0], bytes[1], bytes[2], start.key[3]][3 := bytes[3]] == bytes;
  }

  lemma RequestingAnIndex(table: seq<Entry>, m: Machine, index: Word)
    ensures var now := RequestIndex(table, m, index);
            if index < |table| then Names(now, table[index].name)
            else now.status == 0 && now.error == 0xb8 && now.dataLen == 0
  {
    hide WriteAll, Request, Names, ToBigEndian, BigEndian, BigEndianValue;
    BigEndianRoundTrip(index);
    AskingByIndex(table, m, ToBigEndian(index));
  }

  /** Names staged for an index cannot be read: the data port serves only READ, ends the command
      and repeats the last byte it ever returned. */
  lemma {:induction false} StagedNamesCannotBeRead(m: Machine, n: nat)
    requires m.cmd != READ
    ensures var r := ReadAll(m, n);
            && r.bytes == seq(n, i => m.last)
            && (n > 0 ==> r.m.status == DONE && r.m.error == STILL_BAD_CMD)
    decreases n
  {
    if n > 0 {
      StagedNamesCannotBeRead(ReadData(m), n - 1);
      assert [m.last] + seq(n - 1, i => m.last) == seq(n, i => m.last);
    }
  }

  predicate DistinctNames(table: seq<Entry>) {
    forall i, j :: 0 <= i < j < |table| ==> table[i].name != table[j].name
  }

  const NUMBER_OF_KEYS: Name := ['#' as int, 'K' as int, 'E' as int, 'Y' as int]

  /** The table as it is realized: the count, itself included, is inserted at the head last. */
  function Realized(keys: seq<Entry>): seq<Entry>
    requires |keys| + 1 < TWO_TO_THE_31
  {
    [Entry(NUMBER_OF_KEYS, ToBigEndian(|keys| + 1))] + keys
  }

  /** A guest that reads the number of keys and asks for each index below it gets every name of the
      table without a refusal, and the next index is refused.  When the names are distinct, each
      index has its own name and reading that name yields the entry at that index: the enumeration
      lists every key once. */
  lemma EnumerationListsTheTable(keys: seq<Entry>, m: Machine, index: Word)
    requires |keys| + 1 < TWO_TO_THE_31
    ensures var table := Realized(keys);
            var count := Transaction(table, m, [0x23, 0x4b, 0x45, 0x59], 4, 4).bytes;
            && |count| == 4 && BigEndianValue(count) == |table|
            && (index < BigEndianValue(count) ==> Names(RequestIndex(table, m, index), table[index].name))
            && (index == BigEndianValue(count) ==> RequestIndex(table, m, index).error == BAD_INDEX)
            && (index < |table| && DistinctNames(table) ==>
                && FirstAt(table, table[index].name, index)
                && forall other: Word :: other < |table| && Names(RequestIndex(table, m, other), table[index].name) ==> other == index)
  {
    hide Transaction, RequestIndex, Names, ToBigEndian, BigEndianValue;
    var table := Realized(keys);
    ReadingAKnownKey(table, m, NUMBER_OF_KEYS, 4, 0);
    BigEndianRoundTrip(|keys| + 1);
    RequestingAnIndex(table, m, index);
    if index < |table| && DistinctNames(table) {
      forall other: Word | other < |table| && Names(RequestIndex(table, m, other), table[index].name)
        ensures other == index
      {
        RequestingAnIndex(table, m, other);
        OneName(RequestIndex(table, m, other), table[index].name, table[other].name);
      }
    }
  }

  lemma OneName(m: Machine, a: Name, b: Name)
    requires Names(m, a) && Names(m, b)
    ensures a == b
  {
  }
}
