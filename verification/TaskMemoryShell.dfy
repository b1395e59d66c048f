/** The shell callbacks that create, map, unmap and destroy tasks, and the teardown that releases
    them.  Each method is proved to carry out the transaction of the same name in TaskMemory. */
module TaskMemoryShell {
  import opened TaskMemory

  // ---------- The GPtrArray operations the callbacks use ----------

  function FirstIndex(s: seq<Region>, r: Region): (i: nat)
    requires r in s
    ensures i < |s| && s[i] == r
    ensures forall j :: 0 <= j < i ==> s[j] != r
  {
    if s[0] == r then 0 else 1 + FirstIndex(s[1..], r)
  }

  /** g_ptr_array_remove_fast: the last element takes the place of the removed one. */
  function RemoveFast(s: seq<Region>, r: Region): seq<Region>
    requires r in s
  {
    s[FirstIndex(s, r) := s[|s| - 1]][..|s| - 1]
  }

  /** Removing an element that lies beyond a prefix leaves the prefix in place, in order. */
  lemma RemoveFastBeyond(prefix: seq<Region>, s: seq<Region>, r: Region)
    requires prefix <= s && NoDuplicates(s) && r in s && r !in prefix
    ensures prefix <= RemoveFast(s, r)
    ensures NoDuplicates(RemoveFast(s, r))
    ensures forall q :: q in RemoveFast(s, r) <==> q in s && q != r
  {
    var i := FirstIndex(s, r);
    assert i >= |prefix|;
    var t := RemoveFast(s, r);
    forall q | q in s && q != r ensures q in t {
      var j :| 0 <= j < |s| && s[j] == q;
      assert t[if j == |s| - 1 then i else j] == q;
    }
  }

  // ---------- What one call of map_memory has recorded for its rollback ----------

  function FirstSeenAt(regions: seq<Region>, ranges: seq<Range>, j: nat): Option<Region>
    requires j < |ranges| && AllBacked(ranges, j) && ranges[j].backing.Some?
  {
    var r := ranges[j].backing.value.region;
    if r in Seen(regions, ranges, j) then None else Some(r)
  }

  /** The first g entries say which region was first seen at which range. */
  ghost predicate Recorded(firstSeen: seq<Option<Region>>, regions: seq<Region>, ranges: seq<Range>, g: nat) {
    && |firstSeen| == |ranges|
    && g <= |ranges| && AllBacked(ranges, g)
    && (forall j :: 0 <= j < g ==> firstSeen[j] == FirstSeenAt(regions, ranges, j))
    && forall j :: g <= j < |firstSeen| ==> firstSeen[j] == None
  }

  lemma RecordedNext(firstSeen: seq<Option<Region>>, regions: seq<Region>, ranges: seq<Range>, g: nat)
    requires Recorded(firstSeen, regions, ranges, g) && g < |ranges| && AllBacked(ranges, g + 1)
    ensures Recorded(firstSeen[g := FirstSeenAt(regions, ranges, g)], regions, ranges, g + 1)
  {
    var now := firstSeen[g := FirstSeenAt(regions, ranges, g)];
    forall j | 0 <= j < g + 1 ensures now[j] == FirstSeenAt(regions, ranges, j) {
      assert j < g ==> firstSeen[j] == FirstSeenAt(regions, ranges, j);
    }
  }

  ghost predicate NotedFrom(firstSeen: seq<Option<Region>>, i: nat, r: Region) {
    exists j :: i <= j < |firstSeen| && firstSeen[j] == Some(r)
  }

  lemma NotedIsNew(firstSeen: seq<Option<Region>>, regions: seq<Region>, ranges: seq<Range>, g: nat, j: nat)
    requires Recorded(firstSeen, regions, ranges, g)
    requires j < |firstSeen| && firstSeen[j].Some?
    ensures firstSeen[j].value in Seen(regions, ranges, g) && firstSeen[j].value !in regions
  {
    var r := firstSeen[j].value;
    assert firstSeen[j] == FirstSeenAt(regions, ranges, j);
    SeenGrows(regions, ranges, j);
    SeenAre(regions, ranges, g, r);
    assert BacksOneOf(ranges, g, r);
  }

  lemma NewIsNoted(firstSeen: seq<Option<Region>>, regions: seq<Region>, ranges: seq<Range>, g: nat, r: Region)
    requires Recorded(firstSeen, regions, ranges, g)
    requires r in Seen(regions, ranges, g) && r !in regions
    ensures NotedFrom(firstSeen, 0, r)
  {
    SeenAre(regions, ranges, g, r);
    var j := 0;
    while ranges[j].backing.value.region != r
      invariant j < g
      invariant forall i :: 0 <= i < j ==> ranges[i].backing.value.region != r
      decreases g - j
    {
      j := j + 1;
    }
    assert !BacksOneOf(ranges, j, r);
    SeenAre(regions, ranges, j, r);
    assert firstSeen[j] == FirstSeenAt(regions, ranges, j) == Some(r);
  }

  lemma NotedOnce(firstSeen: seq<Option<Region>>, regions: seq<Region>, ranges: seq<Range>, g: nat, i: nat, j: nat)
    requires Recorded(firstSeen, regions, ranges, g)
    requires i < j < |firstSeen| && firstSeen[i].Some? && firstSeen[j].Some?
    ensures firstSeen[i] != firstSeen[j]
  {
    assert firstSeen[j] == FirstSeenAt(regions, ranges, j);
    assert firstSeen[i] == FirstSeenAt(regions, ranges, i);
    SeenAre(regions, ranges, j, firstSeen[i].value);
    assert BacksOneOf(ranges, j, firstSeen[i].value);
  }

  // ---------- A map_memory half way through ----------

  /** The state when i ranges are mapped and the regions of g ranges are noted. */
  ghost function Midway(s: State, k: nat, h: Handle, base: nat, ranges: seq<Range>, i: nat, g: nat): State
    requires k < |s.tasks| && h in s.library && i <= g <= |ranges| && AllBacked(ranges, g)
    requires s.tasks[k].regions <= Seen(s.tasks[k].regions, ranges, g)
  {
    var task := s.tasks[k];
    var regions := Seen(task.regions, ranges, g);
    State(s.tasks[k := task.(regions := regions)],
          s.refs + multiset(regions[|task.regions|..]),
          s.library[h := s.library[h].(map_ := Mapped(s.library[h].map_, base, ranges, i))])
  }

  /** One range mapped whole by the library. */
  ghost function MappedOne(s: State, h: Handle, offset: nat, range: Range): State
    requires h in s.library && range.backing.Some?
  {
    s.(library := s.library[h := s.library[h].(map_ := s.library[h].map_ + Pointing(offset, range.length, range.backing.value))])
  }

  lemma MappingAdvances(s: State, k: nat, h: Handle, base: nat, ranges: seq<Range>, i: nat)
    requires k < |s.tasks| && h in s.library && i < |ranges| && AllBacked(ranges, i + 1)
    requires s.tasks[k].regions <= Seen(s.tasks[k].regions, ranges, i + 1)
    ensures var mid := Midway(s, k, h, base, ranges, i, i + 1);
            && h in mid.library && mid.library[h].size == s.library[h].size
            && MappedOne(mid, h, Offset(base, ranges, i), ranges[i]) == Midway(s, k, h, base, ranges, i + 1, i + 1)
  {
  }

  lemma MidwayStart(s: State, k: nat, h: Handle, base: nat, ranges: seq<Range>, firstSeen: seq<Option<Region>>)
    requires k < |s.tasks| && h in s.library
    requires |firstSeen| == |ranges| && forall j :: 0 <= j < |ranges| ==> firstSeen[j] == None
    ensures s == Midway(s, k, h, base, ranges, 0, 0)
    ensures Recorded(firstSeen, s.tasks[k].regions, ranges, 0)
  {
  }

  /** Adding a region to a task's array, with a reference, unless it is there already. */
  ghost function Noted(s: State, k: nat, region: Region): State
    requires k < |s.tasks|
  {
    var task := s.tasks[k];
    if region in task.regions then s else
      State(s.tasks[k := task.(regions := task.regions + [region])], s.refs + multiset{region}, s.library)
  }

  lemma NotingAdvances(s: State, k: nat, h: Handle, base: nat, ranges: seq<Range>, i: nat)
    requires k < |s.tasks| && h in s.library && i < |ranges| && AllBacked(ranges, i + 1)
    ensures s.tasks[k].regions <= Seen(s.tasks[k].regions, ranges, i)
    ensures s.tasks[k].regions <= Seen(s.tasks[k].regions, ranges, i + 1)
    ensures Noted(Midway(s, k, h, base, ranges, i, i), k, ranges[i].backing.value.region)
         == Midway(s, k, h, base, ranges, i, i + 1)
  {
    var regions, r := s.tasks[k].regions, ranges[i].backing.value.region;
    var seen := Seen(regions, ranges, i);
    SeenGrows(regions, ranges, i);
    SeenGrows(regions, ranges, i + 1);
    if r !in seen {
      assert (seen + [r])[|regions|..] == seen[|regions|..] + [r];
    }
  }

  // ---------- A map_memory being rolled back ----------

  /** Entries before i of firstSeen are undone: the array and the counts are the old ones plus the
      regions noted from i on, in whatever order the removals have left them. */
  ghost predicate Unwound(regions: seq<Region>, refs: multiset<Region>,
                          oldRegions: seq<Region>, oldRefs: multiset<Region>,
                          firstSeen: seq<Option<Region>>, i: nat)
  {
    && oldRegions <= regions && NoDuplicates(regions)
    && (forall r :: r in regions <==> r in oldRegions || NotedFrom(firstSeen, i, r))
    && forall r :: refs[r] == oldRefs[r] + if NotedFrom(firstSeen, i, r) then 1 else 0
  }

  lemma NothingUnwound(s: State, k: nat, h: Handle, base: nat, ranges: seq<Range>, i: nat, g: nat, firstSeen: seq<Option<Region>>)
    requires k < |s.tasks| && h in s.library && i <= g <= |ranges| && AllBacked(ranges, g)
    requires NoDuplicates(s.tasks[k].regions)
    requires Recorded(firstSeen, s.tasks[k].regions, ranges, g)
    requires s.tasks[k].regions <= Seen(s.tasks[k].regions, ranges, g)
    ensures var mid := Midway(s, k, h, base, ranges, i, g);
            Unwound(mid.tasks[k].regions, mid.refs, s.tasks[k].regions, s.refs, firstSeen, 0)
  {
    hide Recorded;
    var old_ := s.tasks[k].regions;
    var regions := Seen(old_, ranges, g);
    SeenGrows(old_, ranges, g);
    forall r: Region ensures NotedFrom(firstSeen, 0, r) <==> r in regions && r !in old_ {
      if NotedFrom(firstSeen, 0, r) {
        var j :| 0 <= j < |firstSeen| && firstSeen[j] == Some(r);
        NotedIsNew(firstSeen, old_, ranges, g, j);
      } else if r in regions && r !in old_ {
        NewIsNoted(firstSeen, old_, ranges, g, r);
      }
    }
    forall r ensures multiset(regions[|old_|..])[r] == if r in regions && r !in old_ then 1 else 0 {
      NewRegionsOnce(old_, regions, r);
    }
  }

  lemma NotedFromNext(firstSeen: seq<Option<Region>>, i: nat, r: Region)
    requires i < |firstSeen|
    ensures NotedFrom(firstSeen, i, r) <==> NotedFrom(firstSeen, i + 1, r) || firstSeen[i] == Some(r)
  {
  }

  lemma UnwindSkips(regions: seq<Region>, refs: multiset<Region>, oldRegions: seq<Region>, oldRefs: multiset<Region>,
                    firstSeen: seq<Option<Region>>, i: nat)
    requires i < |firstSeen| && firstSeen[i] == None
    requires Unwound(regions, refs, oldRegions, oldRefs, firstSeen, i)
    ensures Unwound(regions, refs, oldRegions, oldRefs, firstSeen, i + 1)
  {
    hide NotedFrom;
    forall r ensures NotedFrom(firstSeen, i, r) <==> NotedFrom(firstSeen, i + 1, r) {
      NotedFromNext(firstSeen, i, r);
    }
  }

  lemma UnwindRemoves(regions: seq<Region>, refs: multiset<Region>, oldRegions: seq<Region>, oldRefs: multiset<Region>,
                      firstSeen: seq<Option<Region>>, i: nat, ranges: seq<Range>, g: nat)
    requires Recorded(firstSeen, oldRegions, ranges, g)
    requires i < |firstSeen| && firstSeen[i].Some?
    requires Unwound(regions, refs, oldRegions, oldRefs, firstSeen, i)
    ensures firstSeen[i].value in regions && firstSeen[i].value in refs
    ensures Unwound(RemoveFast(regions, firstSeen[i].value), refs - multiset{firstSeen[i].value},
                    oldRegions, oldRefs, firstSeen, i + 1)
  {
    hide Recorded, RemoveFast, NotedFrom;
    var q := firstSeen[i].value;
    NotedFromNext(firstSeen, i, q);
    NotedIsNew(firstSeen, oldRegions, ranges, g, i);
    RemoveFastBeyond(oldRegions, regions, q);
    NotNotedAgain(firstSeen, oldRegions, ranges, g, i);
    forall r | r != q ensures NotedFrom(firstSeen, i, r) <==> NotedFrom(firstSeen, i + 1, r) {
      NotedFromNext(firstSeen, i, r);
    }
  }

  lemma NotNotedAgain(firstSeen: seq<Option<Region>>, regions: seq<Region>, ranges: seq<Range>, g: nat, i: nat)
    requires Recorded(firstSeen, regions, ranges, g)
    requires i < |firstSeen| && firstSeen[i].Some?
    ensures !NotedFrom(firstSeen, i + 1, firstSeen[i].value)
  {
    hide Recorded;
    forall j | i < j < |firstSeen| ensures firstSeen[j] != firstSeen[i] {
      if firstSeen[j].Some? {
        NotedOnce(firstSeen, regions, ranges, g, i, j);
      }
    }
  }

  lemma BeyondPrefixIsNew(prefix: seq<Region>, s: seq<Region>)
    requires prefix < s && NoDuplicates(s)
    ensures s[|prefix|] in s && s[|prefix|] !in prefix
  {
  }

  lemma AllUnwound(regions: seq<Region>, refs: multiset<Region>, oldRegions: seq<Region>, oldRefs: multiset<Region>,
                   firstSeen: seq<Option<Region>>, i: nat)
    requires forall j :: i <= j < |firstSeen| ==> firstSeen[j] == None
    requires Unwound(regions, refs, oldRegions, oldRefs, firstSeen, i)
    ensures regions == oldRegions && refs == oldRefs
  {
    forall r ensures !NotedFrom(firstSeen, i, r) {
    }
    if |regions| > |oldRegions| {
      BeyondPrefixIsNew(oldRegions, regions);
      assert false;
    }
  }

  lemma NoneNotedBeyond(firstSeen: seq<Option<Region>>, regions: seq<Region>, ranges: seq<Range>, g: nat)
    requires Recorded(firstSeen, regions, ranges, g)
    ensures |firstSeen| == |ranges|
    ensures forall j :: g <= j < |firstSeen| ==> firstSeen[j] == None
  {
  }

  lemma WindowsAdjoin(m: AddressMap, a: nat, b: nat, c: nat)
    requires a <= b <= c
    ensures (m - Window(a, b)) - Window(b, c) == m - Window(a, c)
  {
    assert forall v: nat :: v in Window(a, c) <==> v in Window(a, b) || v in Window(b, c);
  }

  /** Exactly the first n flags are set. */
  predicate UpTo(mapped: seq<bool>, n: nat) {
    forall j :: 0 <= j < |mapped| ==> (mapped[j] <==> j < n)
  }

  class Shell {
    var tasks: seq<Task>
    var refs: multiset<Region>
    var library: map<Handle, LibraryTask>

    ghost function Now(): State
      reads this
    {
      State(tasks, refs, library)
    }

    ghost predicate Valid()
      reads this
    {
      Inv(Now())
    }

    constructor ()
      ensures Valid() && Now() == State([], multiset{}, map[])
    {
      tasks, refs, library := [], multiset{}, map[];
    }

    method FindTask(h: Handle) returns (k: nat)
      ensures k == IndexOf(tasks, h)
    {
      k := 0;
      while k < |tasks| && tasks[k].handle != h
        invariant k <= |tasks|
        invariant forall i :: 0 <= i < k ==> tasks[i].handle != h
      {
        k := k + 1;
      }
    }

    method CreateTask(size: nat, answer: Option<Handle>)
      requires Valid() && Fresh(Now(), size, answer)
      modifies this
      ensures Valid() && Now() == Create(old(Now()), size, answer)
    {
      if answer.Some? {
        CreateKeepsInv(Now(), size, answer.value);
        library := library[answer.value := LibraryTask(size, map[])];
        tasks := tasks + [Task(answer.value, size, [])];
      }
    }

    /** Adds region to the task's array, and takes a reference, unless it is there already. */
    method NoteRegion(k: nat, region: Region) returns (isNew: bool)
      requires k < |tasks|
      modifies this`tasks, this`refs
      ensures isNew <==> region !in old(tasks)[k].regions
      ensures Now() == Noted(old(Now()), k, region)
    {
      isNew := region !in tasks[k].regions;
      if isNew {
        tasks := tasks[k := tasks[k].(regions := tasks[k].regions + [region])];
        refs := refs + multiset{region};
      }
    }

    /** The library maps a whole range or refuses and changes nothing. */
    method LibraryMap(h: Handle, offset: nat, range: Range) returns (ok: bool)
      requires h in library && range.backing.Some?
      modifies this`library
      ensures ok <==> range.accepted && offset + range.length <= old(library)[h].size
      ensures Now() == if ok then MappedOne(old(Now()), h, offset, range) else old(Now())
    {
      ok := range.accepted && offset + range.length <= library[h].size;
      if ok {
        library := library[h := library[h].(map_ := library[h].map_ + Pointing(offset, range.length, range.backing.value))];
      }
    }

    /** The library clears exactly the window it is given. */
    method LibraryUnmap(h: Handle, offset: nat, length: nat)
      requires h in library
      modifies this`library
      ensures library == old(library)[h := old(library)[h].(map_ := old(library)[h].map_ - Window(offset, offset + length))]
    {
      library := library[h := library[h].(map_ := library[h].map_ - Window(offset, offset + length))];
    }

    /** Range i of map_memory; it says whether the region was noted and whether all went well. */
    method MapRange(k: nat, h: Handle, ranges: seq<Range>, i: nat, offset: nat, newRegion: array<Option<Region>>,
                    ghost was: State, ghost base: nat)
      returns (noted: bool, ok: bool)
      requires k < |was.tasks| && h in was.library && i < |ranges| && AllBacked(ranges, i)
      requires was.tasks[k].regions <= Seen(was.tasks[k].regions, ranges, i)
      requires Now() == Midway(was, k, h, base, ranges, i, i)
      requires offset == Offset(base, ranges, i)
      requires newRegion.Length == |ranges| && Recorded(newRegion[..], was.tasks[k].regions, ranges, i)
      modifies this, newRegion
      ensures ok <==> Mappable(base, ranges, was.library[h].size, i)
      ensures noted <==> ranges[i].backing.Some?
      ensures var g := if noted then i + 1 else i;
              && AllBacked(ranges, g)
              && was.tasks[k].regions <= Seen(was.tasks[k].regions, ranges, g)
              && Now() == Midway(was, k, h, base, ranges, if ok then i + 1 else i, g)
              && Recorded(newRegion[..], was.tasks[k].regions, ranges, g)
    {
      if ranges[i].backing.None? {
        return false, false;
      }
      hide Midway, Recorded, MappedOne, Noted;
      noted := true;
      NotingAdvances(was, k, h, base, ranges, i);
      MappingAdvances(was, k, h, base, ranges, i);
      RecordedNext(newRegion[..], was.tasks[k].regions, ranges, i);
      ghost var before := newRegion[..];
      var isNew := NoteRegion(k, ranges[i].backing.value.region);
      if isNew {
        newRegion[i] := Some(ranges[i].backing.value.region);
      }
      assert newRegion[..] == before[i := FirstSeenAt(was.tasks[k].regions, ranges, i)];
      ok := LibraryMap(h, offset, ranges[i]);
    }

    /** The forward pass of map_memory: range after range until one fails. */
    method MapRanges(k: nat, h: Handle, base: nat, ranges: seq<Range>, mapped: array<bool>, newRegion: array<Option<Region>>)
      returns (success: bool, failIndex: nat, ghost g: nat)
      requires Valid() && k < |tasks| && tasks[k].handle == h && base < TWO_TO_THE_64
      requires mapped.Length == newRegion.Length == |ranges|
      requires UpTo(mapped[..], 0) && forall j :: 0 <= j < |ranges| ==> newRegion[j] == None
      modifies this, mapped, newRegion
      ensures h in old(library)
      ensures var f := Progress(base, ranges, old(library)[h].size, 0);
              && (success <==> f == |ranges|)
              && (!success ==> failIndex == f)
              && f <= g <= f + 1 && (success ==> g == f)
              && g <= |ranges| && AllBacked(ranges, g)
              && old(tasks)[k].regions <= Seen(old(tasks)[k].regions, ranges, g)
              && Now() == Midway(old(Now()), k, h, base, ranges, f, g)
              && UpTo(mapped[..], f)
              && Recorded(newRegion[..], old(tasks)[k].regions, ranges, g)
    {
      hide Midway, Recorded, UpTo, Progress;
      ghost var was := Now();
      assert TaskInv(tasks[k], library);
      ghost var size := library[h].size;
      success, failIndex, g := true, 0, 0;
      var current := base;
      var i := 0;
      MidwayStart(was, k, h, base, ranges, newRegion[..]);
      while i < |ranges|
        invariant i <= |ranges| && g == i && success
        invariant Progress(base, ranges, size, 0) == Progress(base, ranges, size, i)
        invariant AllBacked(ranges, i) && was.tasks[k].regions <= Seen(was.tasks[k].regions, ranges, i)
        invariant current == Offset(base, ranges, i) < TWO_TO_THE_64
        invariant Now() == Midway(was, k, h, base, ranges, i, i)
        invariant UpTo(mapped[..], i)
        invariant Recorded(newRegion[..], was.tasks[k].regions, ranges, i)
      {
        ProgressAt(base, ranges, size, i);
        var noted, ok := MapRange(k, h, ranges, i, current, newRegion, was, base);
        if !ok {
          success, failIndex := false, i;
          g := if noted then i + 1 else i;
          break;
        }
        SetOneMore(mapped[..], i);
        mapped[i] := true;
        current := (current + ranges[i].length) % TWO_TO_THE_64;
        i, g := i + 1, i + 1;
      }
      ProgressAt(base, ranges, size, i);
    }

    method Rollback(k: nat, h: Handle, base: nat, ranges: seq<Range>, failIndex: nat,
                    mapped: array<bool>, newRegion: array<Option<Region>>, ghost was: State, ghost g: nat)
      requires k < |was.tasks| && h in was.library && failIndex < |ranges| && failIndex <= g <= failIndex + 1
      requires was.library[h].size < TWO_TO_THE_64 && base < TWO_TO_THE_64 && NoDuplicates(was.tasks[k].regions)
      requires g <= |ranges| && AllBacked(ranges, g)
      requires forall j :: 0 <= j < failIndex ==> Mappable(base, ranges, was.library[h].size, j)
      requires was.tasks[k].regions <= Seen(was.tasks[k].regions, ranges, g)
      requires Now() == Midway(was, k, h, base, ranges, failIndex, g)
      requires mapped.Length == newRegion.Length == |ranges|
      requires UpTo(mapped[..], failIndex)
      requires Recorded(newRegion[..], was.tasks[k].regions, ranges, g)
      modifies this
      ensures tasks == was.tasks && refs == was.refs
      ensures library == was.library[h := was.library[h].(map_ := was.library[h].map_ - Window(base, Offset(base, ranges, failIndex)))]
    {
      hide Unwound, Recorded, Mappable, NoDuplicates, Window, Mapped, Offset, Seen;
      NothingUnwound(was, k, h, base, ranges, failIndex, g, newRegion[..]);
      RollbackMappings(h, base, ranges, failIndex, mapped);
      MappedThenCleared(was.library[h].map_, base, ranges, failIndex);
      assert library == was.library[h := was.library[h].(map_ := was.library[h].map_ - Window(base, Offset(base, ranges, failIndex)))];
      RollbackReferences(k, ranges, failIndex, newRegion, was, g);
    }

    method RollbackMappings(h: Handle, base: nat, ranges: seq<Range>, failIndex: nat, mapped: array<bool>)
      requires h in library && library[h].size < TWO_TO_THE_64 && base < TWO_TO_THE_64
      requires failIndex < |ranges| == mapped.Length
      requires forall j :: 0 <= j < failIndex ==> mapped[j] && Mappable(base, ranges, library[h].size, j)
      modifies this`library
      ensures library == old(library)[h := old(library)[h].(map_ := old(library)[h].map_ - Window(base, Offset(base, ranges, failIndex)))]
    {
      ghost var entry := library[h];
      var rollback := base;
      var i := 0;
      assert entry.map_ - Window(base, base) == entry.map_;
      assert library == library[h := entry];
      while i < failIndex
        invariant i <= failIndex
        invariant rollback == Offset(base, ranges, i) < TWO_TO_THE_64
        invariant library == old(library)[h := entry.(map_ := entry.map_ - Window(base, Offset(base, ranges, i)))]
      {
        if mapped[i] {
          WindowsAdjoin(entry.map_, base, rollback, rollback + ranges[i].length);
          LibraryUnmap(h, rollback, ranges[i].length);
        }
        rollback := (rollback + ranges[i].length) % TWO_TO_THE_64;
        i := i + 1;
      }
    }

    method ForgetRegion(k: nat, region: Region)
      requires k < |tasks| && region in tasks[k].regions
      modifies this`tasks, this`refs
      ensures tasks == old(tasks)[k := old(tasks)[k].(regions := RemoveFast(old(tasks)[k].regions, region))]
      ensures refs == old(refs) - multiset{region}
    {
      tasks := tasks[k := tasks[k].(regions := RemoveFast(tasks[k].regions, region))];
      refs := refs - multiset{region};
    }

    method RollbackReferences(k: nat, ranges: seq<Range>, failIndex: nat, newRegion: array<Option<Region>>, ghost was: State, ghost g: nat)
      requires k < |tasks| == |was.tasks| && failIndex < |ranges| == newRegion.Length && g <= failIndex + 1
      requires Recorded(newRegion[..], was.tasks[k].regions, ranges, g)
      requires tasks == was.tasks[k := was.tasks[k].(regions := tasks[k].regions)]
      requires Unwound(tasks[k].regions, refs, was.tasks[k].regions, was.refs, newRegion[..], 0)
      modifies this`tasks, this`refs
      ensures tasks == was.tasks && refs == was.refs
    {
      hide Unwound, Recorded, RemoveFast;
      ghost var firstSeen := newRegion[..];
      NoneNotedBeyond(firstSeen, was.tasks[k].regions, ranges, g);
      var i := 0;
      while i <= failIndex && i < |ranges|
        invariant i <= failIndex + 1 && i <= |ranges|
        invariant |tasks| == |was.tasks| && tasks == was.tasks[k := was.tasks[k].(regions := tasks[k].regions)]
        invariant Unwound(tasks[k].regions, refs, was.tasks[k].regions, was.refs, firstSeen, i)
      {
        assert newRegion[i] == firstSeen[i];
        if newRegion[i].Some? {
          UnwindRemoves(tasks[k].regions, refs, was.tasks[k].regions, was.refs, firstSeen, i, ranges, g);
          ForgetRegion(k, newRegion[i].value);
        } else {
          UnwindSkips(tasks[k].regions, refs, was.tasks[k].regions, was.refs, firstSeen, i);
        }
        i := i + 1;
      }
      AllUnwound(tasks[k].regions, refs, was.tasks[k].regions, was.refs, firstSeen, i);
    }

    /** map_memory: all the ranges, or a rollback. */
    method MapMemory(h: Handle, base: nat, ranges: seq<Range>) returns (success: bool)
      requires Valid() && base < TWO_TO_THE_64
      modifies this
      ensures Valid()
      ensures (Now(), success) == TaskMemory.MapMemory(old(Now()), h, base, ranges)
    {
      ghost var was := Now();
      var k := FindTask(h);
      if k == |tasks| {
        return false;
      }
      assert TaskInv(tasks[k], library);
      var mapped := new bool[|ranges|](_ => false);
      var newRegion := new Option<Region>[|ranges|](_ => None);
      var failIndex: nat;
      ghost var g: nat;
      success, failIndex, g := MapRanges(k, h, base, ranges, mapped, newRegion);
      if success {
        MapSucceedsKeepsInv(was, h, base, ranges);
      } else {
        Rollback(k, h, base, ranges, failIndex, mapped, newRegion, was, g);
        MapFailsKeepsInv(was, h, base, ranges);
      }
    }

    /** unmap_memory hands the window to the library without looking the task up. */
    method UnmapMemory(h: Handle, from: nat, length: nat, accepted: bool) returns (success: bool)
      requires Valid()
      modifies this
      ensures Valid()
      ensures (Now(), success) == TaskMemory.UnmapMemory(old(Now()), h, from, length, accepted)
    {
      UnmapKeepsInv(Now(), h, from, length, accepted);
      success := h in library && accepted;
      if success {
        LibraryUnmap(h, from, length);
      }
    }

    /** Drops one reference on each region of a task; each of them is held. */
    method ReleaseAll(regions: seq<Region>)
      requires multiset(regions) <= refs
      modifies this`refs
      ensures refs == old(refs) - multiset(regions)
    {
      var i := 0;
      while i < |regions|
        invariant i <= |regions|
        invariant refs == old(refs) - multiset(regions[..i])
      {
        assert regions[..i + 1] == regions[..i] + [regions[i]];
        assert regions == regions[..i + 1] + regions[i + 1..];
        assert regions[i] in refs;
        refs := refs - multiset{regions[i]};
        i := i + 1;
      }
      assert regions[..i] == regions;
    }

    method DestroyTask(h: Handle)
      requires Valid()
      modifies this
      ensures Valid()
      ensures Now() == Destroy(old(Now()), h)
    {
      hide Inv;
      DestroyKeepsInv(Now(), h);
      var k := FindTask(h);
      if k == |tasks| {
        return;
      }
      var task := tasks[k];
      HeldByOneTask(Now(), k);
      tasks := tasks[..k] + tasks[k + 1..];
      ReleaseAll(task.regions);
      library := library - {h};
    }

    /** unrealize: every task is taken off the list, and its references dropped. */
    method Teardown()
      requires Valid()
      modifies this
      ensures Valid()
      ensures Now() == Unrealize(old(Now()))
    {
      hide Inv;
      while tasks != []
        invariant Valid() && library == old(library)
        decreases |tasks|
      {
        ghost var was := Now();
        var task := tasks[0];
        HeldByOneTask(was, 0);
        tasks := tasks[1..];
        ReleaseAll(task.regions);
        HeadReleased(was);
      }
      NoTasks(Now());
    }
  }

  lemma HeldByOneTask(s: State, k: nat)
    requires Inv(s) && k < |s.tasks|
    ensures multiset(s.tasks[k].regions) <= s.refs
  {
    assert TaskInv(s.tasks[k], s.library);
    forall r ensures multiset(s.tasks[k].regions)[r] <= s.refs[r] {
      OnceEach(s.tasks[k].regions, r);
      HoldersSplit(s.tasks, k, r);
    }
  }

  lemma SetOneMore(mapped: seq<bool>, n: nat)
    requires UpTo(mapped, n) && n < |mapped|
    ensures UpTo(mapped[n := true], n + 1)
  {
  }

  lemma ProgressAt(base: nat, ranges: seq<Range>, size: nat, i: nat)
    requires i <= |ranges|
    ensures Progress(base, ranges, size, i)
         == if i == |ranges| || !Mappable(base, ranges, size, i) then i else Progress(base, ranges, size, i + 1)
  {
  }

  lemma NoTasks(s: State)
    requires Inv(s) && s.tasks == []
    ensures s.refs == multiset{}
  {
    assert forall r :: s.refs[r] == 0;
  }

  lemma HeadReleased(s: State)
    requires Inv(s) && s.tasks != []
    ensures Inv(State(s.tasks[1..], s.refs - multiset(s.tasks[0].regions), s.library))
  {
    assert TaskInv(s.tasks[0], s.library);
    var rest := s.tasks[1..];
    forall r ensures (s.refs - multiset(s.tasks[0].regions))[r] == Holders(rest, r) {
      OnceEach(s.tasks[0].regions, r);
      HoldersSplit(s.tasks, 0, r);
    }
    forall i | 0 <= i < |rest| ensures TaskInv(rest[i], s.library) {
      assert TaskInv(s.tasks[i + 1], s.library);
    }
  }
}
