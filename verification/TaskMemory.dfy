/** Guest memory mapped into the tasks of the paravirtual GPU: the values, the transactions and
    the laws they obey.  TaskMemoryShell holds the code that carries the transactions out. */
module TaskMemory {

  datatype Option<+T> = None | Some(value: T)

  const TWO_TO_THE_64: nat := 0x1_0000_0000_0000_0000

  type Region = nat  // the identity of a MemoryRegion
  type Handle = nat  // the identity of a lagfx_task_t

  // What address translation answers: a RAM region, and a host address inside it.
  datatype Backing = Backing(region: Region, host: nat)

  // One element of the range list, with the answers the environment has in store for it:
  // what its guest address translates to, and whether the library will agree to map it.
  datatype Range = Range(length: nat, backing: Option<Backing>, accepted: bool)

  // One mapped address of a task: the region it points into, and the host address.
  datatype Target = Target(region: Region, host: nat)

  type AddressMap = map<nat, Target>

  datatype Task = Task(handle: Handle, size: nat, regions: seq<Region>)

  // The library's side of a task.
  datatype LibraryTask = LibraryTask(size: nat, map_: AddressMap)

  datatype State = State(
    tasks: seq<Task>,
    refs: multiset<Region>,  // references this device holds on each region
    library: map<Handle, LibraryTask>)

  // ---------- Address windows ----------

  predicate Within(v: int, from: int, to: int) {
    from <= v < to
  }

  function Window(from: nat, to: nat): set<nat> {
    set v: nat | from <= v < to && Within(v, from, to)
  }

  function Pointing(from: nat, length: nat, b: Backing): AddressMap {
    var to := from + length;
    map v: nat | from <= v < to && Within(v, from, to) :: Target(b.region, b.host + (v - from))
  }

  /** Ranges are packed: each starts where the one before it ends. */
  function Offset(base: nat, ranges: seq<Range>, i: nat): (offset: nat)
    requires i <= |ranges|
    ensures base <= offset
  {
    if i == 0 then base else Offset(base, ranges, i - 1) + ranges[i - 1].length
  }

  predicate Mappable(base: nat, ranges: seq<Range>, size: nat, i: nat)
    requires i < |ranges|
  {
    && ranges[i].backing.Some?
    && ranges[i].accepted
    && Offset(base, ranges, i) + ranges[i].length <= size
  }

  /** How many ranges, counted from i, go through before one fails. */
  function Progress(base: nat, ranges: seq<Range>, size: nat, i: nat): (f: nat)
    requires i <= |ranges|
    ensures i <= f <= |ranges|
    ensures forall j :: i <= j < f ==> Mappable(base, ranges, size, j)
    ensures forall j :: i <= j < f ==> ranges[j].backing.Some?
    ensures f < |ranges| ==> !Mappable(base, ranges, size, f)
    decreases |ranges| - i
  {
    if i == |ranges| || !Mappable(base, ranges, size, i) then i else Progress(base, ranges, size, i + 1)
  }

  predicate AllBacked(ranges: seq<Range>, i: nat)
    requires i <= |ranges|
  {
    forall j :: 0 <= j < i ==> ranges[j].backing.Some?
  }

  /** The address map after the first i ranges went in. */
  function Mapped(m: AddressMap, base: nat, ranges: seq<Range>, i: nat): AddressMap
    requires i <= |ranges| && AllBacked(ranges, i)
  {
    if i == 0 then m else
      Mapped(m, base, ranges, i - 1)
      + Pointing(Offset(base, ranges, i - 1), ranges[i - 1].length, ranges[i - 1].backing.value)
  }

  /** The region array after the first i ranges went in: a region is appended when first seen. */
  function Seen(regions: seq<Region>, ranges: seq<Range>, i: nat): seq<Region>
    requires i <= |ranges| && AllBacked(ranges, i)
  {
    if i == 0 then regions else
      var before := Seen(regions, ranges, i - 1);
      var r := ranges[i - 1].backing.value.region;
      if r in before then before else before + [r]
  }

  predicate NoDuplicates(s: seq<Region>) {
    forall i, j :: 0 <= i < j < |s| ==> s[i] != s[j]
  }

  lemma {:induction false} OffsetGrows(base: nat, ranges: seq<Range>, i: nat, j: nat)
    requires i <= j <= |ranges|
    ensures base <= Offset(base, ranges, i) <= Offset(base, ranges, j)
    decreases j
  {
    if i < j {
      OffsetGrows(base, ranges, i, j - 1);
    } else if i > 0 {
      OffsetGrows(base, ranges, i - 1, i - 1);
    }
  }

  lemma {:induction false} SeenGrows(regions: seq<Region>, ranges: seq<Range>, i: nat)
    requires i <= |ranges| && AllBacked(ranges, i)
    ensures regions <= Seen(regions, ranges, i)
    ensures NoDuplicates(regions) ==> NoDuplicates(Seen(regions, ranges, i))
  {
    if i > 0 {
      SeenGrows(regions, ranges, i - 1);
    }
  }

  predicate BacksOneOf(ranges: seq<Range>, i: nat, r: Region)
    requires i <= |ranges| && AllBacked(ranges, i)
  {
    exists j :: 0 <= j < i && ranges[j].backing.value.region == r
  }

  lemma {:induction false} SeenAre(regions: seq<Region>, ranges: seq<Range>, i: nat, r: Region)
    requires i <= |ranges| && AllBacked(ranges, i)
    ensures r in Seen(regions, ranges, i) <==> r in regions || BacksOneOf(ranges, i, r)
  {
    if i > 0 {
      SeenAre(regions, ranges, i - 1, r);
      var last := ranges[i - 1].backing.value.region;
      var before := Seen(regions, ranges, i - 1);
      assert r in Seen(regions, ranges, i) <==> r in before || r == last;
      assert BacksOneOf(ranges, i, r) <==> BacksOneOf(ranges, i - 1, r) || r == last;
    }
  }

  /** Mapping touches no address outside the packed window ... */
  lemma {:induction false} MappedOutside(m: AddressMap, base: nat, ranges: seq<Range>, i: nat, v: nat)
    requires i <= |ranges| && AllBacked(ranges, i)
    requires !(base <= v < Offset(base, ranges, i))
    ensures v in Mapped(m, base, ranges, i) <==> v in m
    ensures v in m ==> Mapped(m, base, ranges, i)[v] == m[v]
  {
    if i > 0 {
      MappedOutside(m, base, ranges, i - 1, v);
    }
  }

  /** ... and a successful map places range j at base plus the lengths of the ranges before it,
      byte for byte onto its backing. */
  lemma {:induction false} MappedWhere(m: AddressMap, base: nat, ranges: seq<Range>, i: nat, j: nat, v: nat)
    requires j < i <= |ranges| && AllBacked(ranges, i)
    requires Offset(base, ranges, j) <= v < Offset(base, ranges, j + 1)
    ensures v in Mapped(m, base, ranges, i)
    ensures Mapped(m, base, ranges, i)[v]
         == Target(ranges[j].backing.value.region,
                   ranges[j].backing.value.host + (v - Offset(base, ranges, j)))
    decreases i
  {
    if j < i - 1 {
      OffsetGrows(base, ranges, j + 1, i - 1);
      MappedWhere(m, base, ranges, i - 1, j, v);
      hide Offset, Mapped;
      MappedBefore(m, base, ranges, i, v);
    } else {
      MappedLast(m, base, ranges, i, v);
    }
  }

  lemma MappedBefore(m: AddressMap, base: nat, ranges: seq<Range>, i: nat, v: nat)
    requires 0 < i <= |ranges| && AllBacked(ranges, i)
    requires v < Offset(base, ranges, i - 1)
    ensures v in Mapped(m, base, ranges, i) <==> v in Mapped(m, base, ranges, i - 1)
    ensures v in Mapped(m, base, ranges, i) ==> Mapped(m, base, ranges, i)[v] == Mapped(m, base, ranges, i - 1)[v]
  {
    hide Offset;
  }

  lemma MappedLast(m: AddressMap, base: nat, ranges: seq<Range>, i: nat, v: nat)
    requires 0 < i <= |ranges| && AllBacked(ranges, i)
    requires Offset(base, ranges, i - 1) <= v < Offset(base, ranges, i)
    ensures v in Mapped(m, base, ranges, i)
    ensures Mapped(m, base, ranges, i)[v]
         == Target(ranges[i - 1].backing.value.region,
                   ranges[i - 1].backing.value.host + (v - Offset(base, ranges, i - 1)))
  {
  }

  lemma {:induction false} MappedIntoSeen(m: AddressMap, regions: seq<Region>, base: nat, ranges: seq<Range>, i: nat)
    requires i <= |ranges| && AllBacked(ranges, i)
    requires forall v :: v in m ==> m[v].region in regions
    ensures forall v :: v in Mapped(m, base, ranges, i) ==>
                        Mapped(m, base, ranges, i)[v].region in Seen(regions, ranges, i)
  {
    if i > 0 {
      MappedIntoSeen(m, regions, base, ranges, i - 1);
      var last := ranges[i - 1].backing.value.region;
      assert last in Seen(regions, ranges, i);
      assert forall r :: r in Seen(regions, ranges, i - 1) ==> r in Seen(regions, ranges, i);
    }
  }

  /** Taking the windows of the first i ranges out again leaves the old map without the packed
      window: whatever lay inside that window before is gone. */
  lemma {:induction false} MappedThenCleared(m: AddressMap, base: nat, ranges: seq<Range>, i: nat)
    requires i <= |ranges| && AllBacked(ranges, i)
    ensures Mapped(m, base, ranges, i) - Window(base, Offset(base, ranges, i))
         == m - Window(base, Offset(base, ranges, i))
  {
    var w := Window(base, Offset(base, ranges, i));
    forall v: nat | v !in w
      ensures v in Mapped(m, base, ranges, i) <==> v in m
      ensures v in m ==> Mapped(m, base, ranges, i)[v] == m[v]
    {
      assert Within(v, base, Offset(base, ranges, i)) ==> v in w;
      MappedOutside(m, base, ranges, i, v);
    }
    assert (Mapped(m, base, ranges, i) - w).Keys == (m - w).Keys;
  }

  // ---------- The transactions ----------

  function IndexOf(tasks: seq<Task>, h: Handle): (k: nat)
    ensures k <= |tasks|
    ensures k < |tasks| ==> tasks[k].handle == h
    ensures forall i :: 0 <= i < k ==> tasks[i].handle != h
  {
    if tasks == [] then 0 else if tasks[0].handle == h then 0 else 1 + IndexOf(tasks[1..], h)
  }

  /** How many tasks hold region r. */
  function Holders(tasks: seq<Task>, r: Region): nat {
    if tasks == [] then 0 else
      Holders(tasks[..|tasks| - 1], r) + if r in tasks[|tasks| - 1].regions then 1 else 0
  }

  predicate TaskInv(t: Task, library: map<Handle, LibraryTask>) {
    && t.handle in library
    && NoDuplicates(t.regions)
    && forall v :: v in library[t.handle].map_ ==> library[t.handle].map_[v].region in t.regions
  }

  ghost predicate Inv(s: State) {
    && (forall i :: 0 <= i < |s.tasks| ==> TaskInv(s.tasks[i], s.library))
    && DistinctHandles(s.tasks)
    && (forall r :: s.refs[r] == Holders(s.tasks, r))
    && forall h :: h in s.library ==> s.library[h].size < TWO_TO_THE_64
  }

  /** create_task; the library answers with a handle it has not handed out before, or with none. */
  function Create(s: State, size: nat, answer: Option<Handle>): State {
    match answer
    case None => s
    case Some(h) =>
      s.(tasks := s.tasks + [Task(h, size, [])], library := s.library[h := LibraryTask(size, map[])])
  }

  /** map_memory, as one transaction. */
  function MapMemory(s: State, h: Handle, base: nat, ranges: seq<Range>): (State, bool)
    requires Inv(s)
  {
    var k := IndexOf(s.tasks, h);
    if k == |s.tasks| then (s, false) else
      var task := s.tasks[k];
      var entry := s.library[h];
      var f := Progress(base, ranges, entry.size, 0);
      if f == |ranges| then
        var regions := Seen(task.regions, ranges, f);
        SeenGrows(task.regions, ranges, f);
        (s.(tasks := s.tasks[k := task.(regions := regions)],
            refs := s.refs + multiset(regions[|task.regions|..]),
            library := s.library[h := entry.(map_ := Mapped(entry.map_, base, ranges, f))]), true)
      else
        (s.(library := s.library[h := entry.(map_ := entry.map_ - Window(base, Offset(base, ranges, f)))]), false)
  }

  function UnmapMemory(s: State, h: Handle, from: nat, length: nat, accepted: bool): (State, bool) {
    if h in s.library && accepted then
      (s.(library := s.library[h := s.library[h].(map_ := s.library[h].map_ - Window(from, from + length))]), true)
    else (s, false)
  }

  function Destroy(s: State, h: Handle): State {
    var k := IndexOf(s.tasks, h);
    if k == |s.tasks| then s else
      s.(tasks := s.tasks[..k] + s.tasks[k + 1..],
         refs := s.refs - multiset(s.tasks[k].regions),
         library := s.library - {h})
  }

  /** What unrealize does to the tasks: it drops their references and forgets them, and leaves
      the library's own tasks to lagfx_device_free. */
  function Unrealize(s: State): State {
    s.(tasks := [], refs := multiset{})
  }

  // ---------- What each transaction does ----------

  /** A new task has its own handle, holds nothing and has nothing mapped; no other changes. */
  lemma CreateAdds(s: State, size: nat, h: Handle)
    ensures var t := Create(s, size, Some(h));
            && |t.tasks| == |s.tasks| + 1 && t.tasks[..|s.tasks|] == s.tasks
            && t.tasks[|s.tasks|].handle == h && t.tasks[|s.tasks|].size == size && t.tasks[|s.tasks|].regions == []
            && h in t.library && t.library[h].size == size && t.library[h].map_ == map[]
            && (forall g :: g != h ==> (g in t.library <==> g in s.library))
            && (forall g :: g != h && g in s.library ==> t.library[g] == s.library[g])
            && t.refs == s.refs
    ensures Create(s, size, None) == s
  {
  }

  lemma IndexOfTask(s: State, k: nat)
    requires Inv(s) && k < |s.tasks|
    ensures IndexOf(s.tasks, s.tasks[k].handle) == k && s.tasks[k].handle in s.library
  {
    assert TaskInv(s.tasks[k], s.library);
  }

  lemma IndexOfNone(tasks: seq<Task>, h: Handle)
    requires forall i :: 0 <= i < |tasks| ==> tasks[i].handle != h
    ensures IndexOf(tasks, h) == |tasks|
  {
  }

  /** Destroying a task removes it and its library side, and gives up one reference on each region it
      held and on no other; every other task stays as it is, in its place among the others. */
  lemma DestroyRemoves(s: State, k: nat)
    requires Inv(s) && k < |s.tasks|
    ensures var h := s.tasks[k].handle;
            var t := Destroy(s, h);
            && |t.tasks| == |s.tasks| - 1
            && (forall i :: 0 <= i < |t.tasks| ==> t.tasks[i] == s.tasks[if i < k then i else i + 1] && t.tasks[i].handle != h)
            && h !in t.library
            && (forall g :: g != h ==> (g in t.library <==> g in s.library))
            && (forall g :: g != h && g in s.library ==> t.library[g] == s.library[g])
    ensures forall r :: s.refs[r] == Destroy(s, s.tasks[k].handle).refs[r] + if r in s.tasks[k].regions then 1 else 0
  {
    IndexOfTask(s, k);
    forall r
      ensures s.refs[r] == (s.refs - multiset(s.tasks[k].regions))[r] + if r in s.tasks[k].regions then 1 else 0
    {
      DestroyCountsOneLess(s, k, r);
    }
    hide IndexOf;
    var rest := s.tasks[..k] + s.tasks[k + 1..];
    forall i | 0 <= i < |rest|
      ensures rest[i].handle != s.tasks[k].handle
    {
      DestroyLeavesOthers(s, k, i);
    }
    hide Inv, Holders;
  }

  lemma DestroyCountsOneLess(s: State, k: nat, r: Region)
    requires Inv(s) && k < |s.tasks|
    ensures s.refs[r] == (s.refs - multiset(s.tasks[k].regions))[r] + if r in s.tasks[k].regions then 1 else 0
  {
    DestroyCounts(s, k, r);
    HoldersSplit(s.tasks, k, r);
    HoldersConcat(s.tasks[..k], s.tasks[k + 1..], r);
  }

  lemma DestroyUnknown(s: State, h: Handle)
    requires forall i :: 0 <= i < |s.tasks| ==> s.tasks[i].handle != h
    ensures Destroy(s, h) == s
  {
    IndexOfNone(s.tasks, h);
  }

  /** Unmapping goes through exactly when the library knows the task and agrees; it then clears every
      address of the window and no other, and otherwise changes nothing. */
  lemma UnmapClears(s: State, h: Handle, from: nat, length: nat, accepted: bool)
    ensures var (t, ok) := UnmapMemory(s, h, from, length, accepted);
            && (ok <==> h in s.library && accepted)
            && t.tasks == s.tasks && t.refs == s.refs && (!ok ==> t == s)
            && t.library.Keys == s.library.Keys
            && (forall g :: g in s.library && g != h ==> t.library[g] == s.library[g])
            && (ok ==> t.library[h].size == s.library[h].size)
            && (ok ==> forall v: nat ::
                  (v in t.library[h].map_ <==> v in s.library[h].map_ && !(from <= v < from + length))
                  && (v in t.library[h].map_ ==> t.library[h].map_[v] == s.library[h].map_[v]))
  {
    var to := from + length;
    assert forall v: nat :: v in Window(from, to) <==> from <= v < to;
  }

  /** A map goes through exactly when every range is backed, accepted and inside the task.  It then
      changes one task and its library side only: each range lies at the base plus the lengths before
      it, byte for byte on its backing; no other address changes; the backing regions not held yet
      are appended, with one reference more each. */
  lemma MapMaps(s: State, k: nat, base: nat, ranges: seq<Range>)
    requires Inv(s) && k < |s.tasks|
    ensures var h := s.tasks[k].handle;
            var (t, ok) := MapMemory(s, h, base, ranges);
            h in s.library && (ok <==> forall i :: 0 <= i < |ranges| ==> Mappable(base, ranges, s.library[h].size, i))
    ensures var h := s.tasks[k].handle;
            var (t, ok) := MapMemory(s, h, base, ranges);
            ok ==>
              && AllBacked(ranges, |ranges|) && |t.tasks| == |s.tasks|
              && (forall i :: 0 <= i < |s.tasks| && i != k ==> t.tasks[i] == s.tasks[i])
              && t.tasks[k].handle == h && t.tasks[k].size == s.tasks[k].size
              && s.tasks[k].regions <= t.tasks[k].regions
              && (forall r :: r in t.tasks[k].regions <==> r in s.tasks[k].regions || BacksOneOf(ranges, |ranges|, r))
              && (forall r :: t.refs[r] == s.refs[r] + if r in t.tasks[k].regions && r !in s.tasks[k].regions then 1 else 0)
              && t.library == s.library[h := s.library[h].(map_ := Mapped(s.library[h].map_, base, ranges, |ranges|))]
  {
    IndexOfTask(s, k);
    var h, task := s.tasks[k].handle, s.tasks[k];
    var f := Progress(base, ranges, s.library[h].size, 0);
    assert TaskInv(task, s.library);
    if f == |ranges| {
      SeenGrows(task.regions, ranges, f);
      var regions := Seen(task.regions, ranges, f);
      forall r
        ensures r in regions <==> r in task.regions || BacksOneOf(ranges, f, r)
        ensures multiset(regions[|task.regions|..])[r] == if r in regions && r !in task.regions then 1 else 0
      {
        SeenAre(task.regions, ranges, f, r);
        NewRegionsOnce(task.regions, regions, r);
      }
      hide Inv, Seen, Mapped, Mappable;
    }
  }

  lemma MapUnknown(s: State, h: Handle, base: nat, ranges: seq<Range>)
    requires Inv(s) && forall i :: 0 <= i < |s.tasks| ==> s.tasks[i].handle != h
    ensures MapMemory(s, h, base, ranges) == (s, false)
  {
    IndexOfNone(s.tasks, h);
  }

  // ---------- Every run ----------

  datatype Op =
    | OpCreate(size: nat, answer: Option<Handle>)
    | OpMap(h: Handle, base: nat, ranges: seq<Range>)
    | OpUnmap(h: Handle, from: nat, length: nat, accepted: bool)
    | OpDestroy(h: Handle)
    | OpUnrealize

  predicate Fresh(s: State, size: nat, answer: Option<Handle>) {
    size < TWO_TO_THE_64 && (answer.Some? ==> answer.value !in s.library)
  }

  function Apply(s: State, op: Op): State
    requires Inv(s)
  {
    match op
    case OpCreate(size, answer) => if Fresh(s, size, answer) then Create(s, size, answer) else s
    case OpMap(h, base, ranges) => MapMemory(s, h, base, ranges).0
    case OpUnmap(h, from, length, accepted) => UnmapMemory(s, h, from, length, accepted).0
    case OpDestroy(h) => Destroy(s, h)
    case OpUnrealize => Unrealize(s)
  }

  /** The operations of a run are the transactions; a creation that the library answers with a handle
      still in use, or with a task too large, does not happen. */
  lemma OperationsAre(s: State, op: Op)
    requires Inv(s)
    ensures match op
            case OpCreate(size, None) => Apply(s, op) == s
            case OpCreate(size, Some(h)) =>
              Apply(s, op) == if h !in s.library && size < 0x1_0000_0000_0000_0000 then Create(s, size, Some(h)) else s
            case OpMap(h, base, ranges) => Apply(s, op) == MapMemory(s, h, base, ranges).0
            case OpUnmap(h, from, length, accepted) => Apply(s, op) == UnmapMemory(s, h, from, length, accepted).0
            case OpDestroy(h) => Apply(s, op) == Destroy(s, h)
            case OpUnrealize => Apply(s, op).tasks == [] && Apply(s, op).library == s.library
  {
    hide Create, MapMemory, UnmapMemory, Destroy, Inv;
    CreateNothing(s);
  }

  lemma CreateNothing(s: State)
    ensures forall size: nat :: Create(s, size, None) == s
  {
  }

  lemma HoldersSnoc(tasks: seq<Task>, t: Task, r: Region)
    ensures Holders(tasks + [t], r) == Holders(tasks, r) + if r in t.regions then 1 else 0
  {
    assert (tasks + [t])[..|tasks + [t]| - 1] == tasks;
  }

  lemma {:induction false} HoldersConcat(a: seq<Task>, b: seq<Task>, r: Region)
    ensures Holders(a + b, r) == Holders(a, r) + Holders(b, r)
  {
    if b == [] {
      assert a + b == a;
    } else {
      var most, last := b[..|b| - 1], b[|b| - 1];
      assert a + b == (a + most) + [last];
      HoldersSnoc(a + most, last, r);
      HoldersConcat(a, most, r);
    }
  }

  lemma HoldersSplit(tasks: seq<Task>, k: nat, r: Region)
    requires k < |tasks|
    ensures Holders(tasks, r) == Holders(tasks[..k], r) + (if r in tasks[k].regions then 1 else 0)
                                 + Holders(tasks[k + 1..], r)
  {
    var before, after := tasks[..k], tasks[k + 1..];
    assert tasks == (before + [tasks[k]]) + after;
    HoldersConcat(before + [tasks[k]], after, r);
    HoldersSnoc(before, tasks[k], r);
  }

  lemma HoldersReplace(tasks: seq<Task>, k: nat, t: Task, r: Region)
    requires k < |tasks|
    ensures Holders(tasks[k := t], r) == Holders(tasks, r) - (if r in tasks[k].regions then 1 else 0)
                                         + (if r in t.regions then 1 else 0)
  {
    HoldersSplit(tasks, k, r);
    HoldersSplit(tasks[k := t], k, r);
    assert tasks[k := t][..k] == tasks[..k] && tasks[k := t][k + 1..] == tasks[k + 1..];
  }

  lemma {:induction false} OnceEach(s: seq<Region>, r: Region)
    requires NoDuplicates(s)
    ensures multiset(s)[r] == if r in s then 1 else 0
  {
    if s != [] {
      var n := |s| - 1;
      OnceEach(s[..n], r);
      assert s == s[..n] + [s[n]];
    }
  }

  lemma NewRegionsOnce(a: seq<Region>, b: seq<Region>, r: Region)
    requires a <= b && NoDuplicates(b)
    ensures multiset(b[|a|..])[r] == if r in b && r !in a then 1 else 0
  {
    var fresh_ := b[|a|..];
    assert b == a + fresh_;
    OnceEach(fresh_, r);
    assert r in fresh_ <==> r in b && r !in a;
  }

  lemma CreateKeepsInv(s: State, size: nat, h: Handle)
    requires Inv(s) && h !in s.library && size < TWO_TO_THE_64
    ensures Inv(Create(s, size, Some(h)))
  {
    var t := Create(s, size, Some(h));
    forall r ensures t.refs[r] == Holders(t.tasks, r) {
      HoldersSnoc(s.tasks, Task(h, size, []), r);
    }
    forall i | 0 <= i < |t.tasks| ensures TaskInv(t.tasks[i], t.library) {
      if i < |s.tasks| {
        assert TaskInv(s.tasks[i], s.library);
      }
    }
  }

  lemma LibraryOfOthers(s: State, k: nat, t: Task, entry: LibraryTask, i: nat)
    requires Inv(s) && k < |s.tasks| && t.handle == s.tasks[k].handle
    requires TaskInv(t, s.library[t.handle := entry])
    requires i < |s.tasks|
    ensures TaskInv(s.tasks[k := t][i], s.library[t.handle := entry])
  {
    assert TaskInv(s.tasks[i], s.library);
    assert i != k ==> s.tasks[i].handle != t.handle;
  }

  lemma MapSucceedsKeepsInv(s: State, h: Handle, base: nat, ranges: seq<Range>)
    requires Inv(s) && MapMemory(s, h, base, ranges).1
    ensures Inv(MapMemory(s, h, base, ranges).0)
  {
    var k := IndexOf(s.tasks, h);
    var task, entry, n := s.tasks[k], s.library[h], |ranges|;
    assert TaskInv(task, s.library);
    var regions := Seen(task.regions, ranges, n);
    SeenGrows(task.regions, ranges, n);
    MappedIntoSeen(entry.map_, task.regions, base, ranges, n);
    var t := task.(regions := regions);
    var e := entry.(map_ := Mapped(entry.map_, base, ranges, n));
    var after := s.tasks[k := t];
    forall i: nat | i < |after| ensures TaskInv(after[i], s.library[h := e]) {
      LibraryOfOthers(s, k, t, e, i);
    }
    var now := MapMemory(s, h, base, ranges).0;
    forall r ensures now.refs[r] == Holders(now.tasks, r) {
      NewRegionsOnce(task.regions, regions, r);
      HoldersReplace(s.tasks, k, t, r);
    }
  }

  lemma MapFailsKeepsInv(s: State, h: Handle, base: nat, ranges: seq<Range>)
    requires Inv(s) && !MapMemory(s, h, base, ranges).1
    ensures Inv(MapMemory(s, h, base, ranges).0)
  {
    var k := IndexOf(s.tasks, h);
    if k < |s.tasks| {
      var task, entry := s.tasks[k], s.library[h];
      assert TaskInv(task, s.library);
      var f := Progress(base, ranges, entry.size, 0);
      var e := entry.(map_ := entry.map_ - Window(base, Offset(base, ranges, f)));
      assert s.tasks[k := task] == s.tasks;
      forall i: nat | i < |s.tasks| ensures TaskInv(s.tasks[i], s.library[h := e]) {
        LibraryOfOthers(s, k, task, e, i);
      }
    }
  }

  lemma UnmapKeepsInv(s: State, h: Handle, from: nat, length: nat, accepted: bool)
    requires Inv(s)
    ensures Inv(UnmapMemory(s, h, from, length, accepted).0)
  {
    var t := UnmapMemory(s, h, from, length, accepted).0;
    forall i | 0 <= i < |t.tasks| ensures TaskInv(t.tasks[i], t.library) {
      assert TaskInv(s.tasks[i], s.library);
    }
  }

  lemma DestroyCounts(s: State, k: nat, r: Region)
    requires Inv(s) && k < |s.tasks|
    ensures (s.refs - multiset(s.tasks[k].regions))[r] == Holders(s.tasks[..k] + s.tasks[k + 1..], r)
  {
    assert TaskInv(s.tasks[k], s.library);
    hide TaskInv, Holders;
    HoldersSplit(s.tasks, k, r);
    HoldersConcat(s.tasks[..k], s.tasks[k + 1..], r);
    OnceEach(s.tasks[k].regions, r);
  }

  lemma DestroyLeavesOthers(s: State, k: nat, i: nat)
    requires Inv(s) && k < |s.tasks| && i < |s.tasks| - 1
    ensures var t := (s.tasks[..k] + s.tasks[k + 1..])[i];
            TaskInv(t, s.library - {s.tasks[k].handle}) && t.handle != s.tasks[k].handle
  {
    var was := if i < k then i else i + 1;
    assert TaskInv(s.tasks[was], s.library);
  }

  predicate DistinctHandles(tasks: seq<Task>) {
    forall i, j :: 0 <= i < j < |tasks| ==> tasks[i].handle != tasks[j].handle
  }

  lemma DestroyKeepsHandlesApart(tasks: seq<Task>, k: nat)
    requires DistinctHandles(tasks) && k < |tasks|
    ensures DistinctHandles(tasks[..k] + tasks[k + 1..])
  {
  }

  lemma LibrarySizes(s: State)
    requires Inv(s)
    ensures forall h :: h in s.library ==> s.library[h].size < TWO_TO_THE_64
  {
  }

  lemma DestroyKeepsInv(s: State, h: Handle)
    requires Inv(s)
    ensures Inv(Destroy(s, h))
  {
    var k := IndexOf(s.tasks, h);
    if k < |s.tasks| {
      var t := Destroy(s, h);
      DestroyKeepsHandlesApart(s.tasks, k);
      LibrarySizes(s);
      hide TaskInv, Holders, DistinctHandles, IndexOf, NoDuplicates;
      forall r ensures t.refs[r] == Holders(t.tasks, r) {
        DestroyCounts(s, k, r);
      }
      forall i | 0 <= i < |t.tasks| ensures TaskInv(t.tasks[i], t.library) {
        DestroyLeavesOthers(s, k, i);
      }
    }
  }

  lemma ApplyKeepsInv(s: State, op: Op)
    requires Inv(s)
    ensures Inv(Apply(s, op))
  {
    match op
    case OpCreate(size, answer) =>
      if answer.Some? && Fresh(s, size, answer) {
        CreateKeepsInv(s, size, answer.value);
      }
    case OpMap(h, base, ranges) =>
      if MapMemory(s, h, base, ranges).1 {
        MapSucceedsKeepsInv(s, h, base, ranges);
      } else {
        MapFailsKeepsInv(s, h, base, ranges);
      }
    case OpUnmap(h, from, length, accepted) => UnmapKeepsInv(s, h, from, length, accepted);
    case OpDestroy(h) => DestroyKeepsInv(s, h);
    case OpUnrealize =>
  }

  /** The state after any run of operations; the invariant holds in all of them. */
  function Run(ops: seq<Op>): (s: State)
    ensures Inv(s)
  {
    if ops == [] then State([], multiset{}, map[]) else
      var s := Run(ops[..|ops| - 1]);
      ApplyKeepsInv(s, ops[|ops| - 1]);
      Apply(s, ops[|ops| - 1])
  }

  function HolderSet(tasks: seq<Task>, r: Region): set<nat> {
    set i: nat | i < |tasks| && r in tasks[i].regions
  }

  lemma HolderSetGrows(tasks: seq<Task>, t: Task, r: Region)
    ensures |HolderSet(tasks + [t], r)| == |HolderSet(tasks, r)| + if r in t.regions then 1 else 0
  {
    var now := tasks + [t];
    assert HolderSet(now, r) == HolderSet(tasks, r) + if r in t.regions then {|tasks|} else {};
  }

  lemma {:induction false} HoldersCounts(tasks: seq<Task>, r: Region)
    ensures Holders(tasks, r) == |HolderSet(tasks, r)|
  {
    if tasks == [] {
      assert HolderSet(tasks, r) == {};
    } else {
      var n := |tasks| - 1;
      HoldersCounts(tasks[..n], r);
      HolderSetGrows(tasks[..n], tasks[n], r);
      assert tasks == tasks[..n] + [tasks[n]];
    }
  }

  /** In every run the count of a region is the number of live tasks that hold it, and whatever a
      live task has mapped points into a region that is still counted. */
  lemma CountIsNumberOfHolders(ops: seq<Op>, r: Region)
    ensures Run(ops).refs[r] == |HolderSet(Run(ops).tasks, r)|
  {
    HoldersCounts(Run(ops).tasks, r);
  }

  lemma MappedRegionsAreReferenced(ops: seq<Op>, i: nat, v: nat)
    requires var s := Run(ops); i < |s.tasks| && s.tasks[i].handle in s.library && v in s.library[s.tasks[i].handle].map_
    ensures var s := Run(ops); s.library[s.tasks[i].handle].map_[v].region in s.refs
  {
    var s := Run(ops);
    assert TaskInv(s.tasks[i], s.library);
    HoldersSplit(s.tasks, i, s.library[s.tasks[i].handle].map_[v].region);
  }

  /** All or nothing.  A failed map leaves the tasks, their region arrays and every count alone;
      it leaves the address map alone exactly when nothing was mapped before in the window that
      the ranges before the failing one occupy. */
  lemma FailedMapRestores(s: State, h: Handle, base: nat, ranges: seq<Range>)
    requires Inv(s) && !MapMemory(s, h, base, ranges).1
    ensures var t := MapMemory(s, h, base, ranges).0;
            && t.tasks == s.tasks && t.refs == s.refs
            && (IndexOf(s.tasks, h) == |s.tasks| ==> t == s)
    ensures IndexOf(s.tasks, h) < |s.tasks| ==>
              var t := MapMemory(s, h, base, ranges).0;
              && h in s.library && t.library.Keys == s.library.Keys
              && (forall g :: g in s.library && g != h ==> t.library[g] == s.library[g])
              && (forall v: nat :: v in t.library[h].map_ <==>
                    v in s.library[h].map_
                    && !(base <= v < Offset(base, ranges, Progress(base, ranges, s.library[h].size, 0))))
              && (forall v :: v in t.library[h].map_ ==> t.library[h].map_[v] == s.library[h].map_[v])
    ensures IndexOf(s.tasks, h) < |s.tasks| ==>
              (h in s.library
               && (MapMemory(s, h, base, ranges).0 == s <==>
                   forall v: nat :: v in s.library[h].map_ ==>
                     !(base <= v < Offset(base, ranges, Progress(base, ranges, s.library[h].size, 0)))))
  {
    var k := IndexOf(s.tasks, h);
    if k < |s.tasks| {
      assert TaskInv(s.tasks[k], s.library);
      var m := s.library[h].map_;
      var f := Progress(base, ranges, s.library[h].size, 0);
      var w := Window(base, Offset(base, ranges, f));
      var t := MapMemory(s, h, base, ranges).0;
      assert t.library[h].map_ == m - w;
      assert forall v: nat :: v in w <==> base <= v < Offset(base, ranges, f);
      if t == s {
        forall v | v in m ensures v !in w { assert v in m - w; }
      }
      if forall v :: v in m ==> v !in w {
        assert m - w == m;
      }
    }
  }

  /** Unrealize releases every reference exactly once.  It forgets tasks whose mappings the
      library still holds, so no mapping outlives its reference only if there was none at all. */
  lemma UnrealizeReleasesAll(ops: seq<Op>)
    ensures var s := Run(ops); var t := Run(ops + [OpUnrealize]);
            && t.tasks == [] && t.refs == multiset{} && t.library == s.library
            && ((forall h, v :: h in t.library && v in t.library[h].map_ ==> t.library[h].map_[v].region in t.refs)
                <==> forall h :: h in s.library ==> s.library[h].map_ == map[])
  {
    assert (ops + [OpUnrealize])[..|ops + [OpUnrealize]| - 1] == ops;
    var s := Run(ops);
    var t := Run(ops + [OpUnrealize]);
    if forall h, v :: h in t.library && v in t.library[h].map_ ==> t.library[h].map_[v].region in t.refs {
      forall h | h in s.library ensures s.library[h].map_ == map[] {
        assert forall v :: v !in t.library[h].map_;
      }
    }
  }
}
