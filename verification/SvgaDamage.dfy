/** What the SVGA device owes the console: the bounded queue of rectangles to redraw, and the flag
    that stands for the whole screen. */
module SvgaDamage {
  import opened SvgaBlit

  const REDRAW_FIFO_LEN: nat := 512

  datatype Rect = Rect(x: int, y: int, w: int, h: int)
  type Pixel = (int, int)

  // A drawing command: the rectangle it queues, and the pixels it (or the guest before it) changed.
  datatype Damage = Damage(rect: Rect, touched: set<Pixel>)

  datatype State = State(
    enable: bool,
    config: bool,
    invalidated: bool,
    surface: Surface,
    newWidth: nat,
    newHeight: nat,
    queue: seq<Rect>,
    outstanding: set<Pixel>,  // changed since the console was last told
    told: seq<Rect>)          // every rectangle the console has been told to redraw

  predicate OnScreen(s: Surface, p: Pixel) {
    0 <= p.0 < s.width && 0 <= p.1 < s.height
  }

  predicate Verified(s: Surface, r: Rect) {
    VerifyRect(s, r.x, r.y, r.w, r.h)
  }

  predicate Contains(r: Rect, p: Pixel) {
    r.x <= p.0 < r.x + r.w && r.y <= p.1 < r.y + r.h
  }

  function WholeScreen(s: Surface): Rect {
    Rect(0, 0, s.width, s.height)
  }

  /** What the console is told for a rectangle: one that does not verify becomes the whole screen. */
  function Shown(s: Surface, r: Rect): Rect {
    if Verified(s, r) then r else WholeScreen(s)
  }

  /** Redrawing r shows pixel p. */
  predicate Covers(s: Surface, r: Rect, p: Pixel) {
    Contains(Shown(s, r), p)
  }

  /** A rectangle on the screen is shown as it is, and any other as the whole screen; so whatever pixel
      of the screen is in it is shown. */
  lemma WhatIsShown(s: Surface, r: Rect, p: Pixel)
    ensures VerifyRect(s, r.x, r.y, r.w, r.h) ==> Shown(s, r) == r
    ensures !VerifyRect(s, r.x, r.y, r.w, r.h) ==> Shown(s, r) == Rect(0, 0, s.width, s.height)
    ensures OnScreen(s, p) && r.x <= p.0 < r.x + r.w && r.y <= p.1 < r.y + r.h ==> Covers(s, r, p)
  {
  }

  // ---------- The operations ----------

  /** The console redraws a rectangle. */
  function Tell(st: State, r: Rect): State {
    st.(told := st.told + [r], outstanding := set p | p in st.outstanding && !Contains(r, p))
  }

  function TellAll(st: State, rects: seq<Rect>): State {
    if rects == [] then st else Tell(TellAll(st, rects[..|rects| - 1]), Shown(st.surface, rects[|rects| - 1]))
  }

  function Flush(st: State): State {
    if st.invalidated then st.(queue := []) else TellAll(st, st.queue).(queue := [])
  }

  function Delay(st: State, r: Rect): State {
    var st := if |st.queue| >= REDRAW_FIFO_LEN then Flush(st) else st;
    st.(queue := st.queue + [r])
  }

  function Draw(st: State, d: Damage): State {
    Delay(st.(outstanding := st.outstanding + d.touched), d.rect)
  }

  function DrawAll(st: State, ds: seq<Damage>): State {
    if ds == [] then st else Draw(DrawAll(st, ds[..|ds| - 1]), ds[|ds| - 1])
  }

  /** fifo_run executes commands only while the device is enabled and configured. */
  function RunFifo(st: State, ds: seq<Damage>): State {
    if st.enable && st.config then DrawAll(st, ds) else st
  }

  function CheckSize(st: State): State {
    if st.newWidth != st.surface.width || st.newHeight != st.surface.height || st.surface.bypp != 4 then
      st.(surface := Surface(st.newWidth, st.newHeight, 4, 32 * st.newWidth / 8), invalidated := true)
    else st
  }

  function UpdateDisplay(st: State, ds: seq<Damage>): State {
    if !st.enable || !st.config then st else
      var st := Flush(RunFifo(CheckSize(st), ds));
      if st.invalidated then Tell(st, WholeScreen(st.surface)).(invalidated := false) else st
  }

  function WriteEnable(st: State, value: nat): State {
    st.(enable := value != 0, invalidated := true)
  }

  function WriteWidth(st: State, value: nat): State {
    if value <= MAX_WIDTH then st.(newWidth := value, invalidated := true) else st
  }

  function WriteHeight(st: State, value: nat): State {
    if value <= MAX_HEIGHT then st.(newHeight := value, invalidated := true) else st
  }

  function WriteBitsPerPixel(st: State, value: nat): State {
    if value != 32 then st.(config := false, invalidated := true) else st
  }

  function WriteConfigDone(st: State, value: nat): State {
    st.(config := value != 0)
  }

  function Invalidate(st: State): State {
    if st.enable then st.(invalidated := true) else st
  }

  /** Reset empties the queue and does not raise the flag. */
  function Reset(st: State): State {
    st.(enable := false, config := false, queue := [])
  }

  /** In standard VGA mode the VGA core may put another surface up, which the console redraws. */
  function VgaSurface(st: State, surface: Surface): State {
    if st.enable && st.config then st else Tell(st.(surface := surface), WholeScreen(surface))
  }

  // ---------- Every run ----------

  datatype Event =
    | Sync(ds: seq<Damage>)
    | Refresh(ds: seq<Damage>)
    | Enable(value: nat)
    | Width(value: nat)
    | Height(value: nat)
    | BitsPerPixel(value: nat)
    | ConfigDone(value: nat)
    | InvalidateAll
    | ResetDevice
    | Vga(surface: Surface)

  predicate Reportable(s: Surface, r: Rect, pixels: set<Pixel>) {
    forall p :: p in pixels ==> OnScreen(s, p) && Covers(s, r, p)
  }

  /** Commands change on-screen pixels of the rectangle they queue. */
  predicate Sound(s: Surface, ds: seq<Damage>) {
    forall i :: 0 <= i < |ds| ==> Reportable(s, ds[i].rect, ds[i].touched)
  }

  function Apply(st: State, e: Event): State {
    match e
    case Sync(ds) => if Sound(st.surface, ds) then RunFifo(st, ds) else st
    case Refresh(ds) => if Sound(CheckSize(st).surface, ds) then UpdateDisplay(st, ds) else st
    case Enable(v) => WriteEnable(st, v)
    case Width(v) => WriteWidth(st, v)
    case Height(v) => WriteHeight(st, v)
    case BitsPerPixel(v) => WriteBitsPerPixel(st, v)
    case ConfigDone(v) => WriteConfigDone(st, v)
    case InvalidateAll => Invalidate(st)
    case ResetDevice => Reset(st)
    case Vga(surface) => VgaSurface(st, surface)
  }

  function Run(surface: Surface, events: seq<Event>): State {
    if events == [] then State(false, false, false, surface, 0, 0, [], {}, []) else
      Apply(Run(surface, events[..|events| - 1]), events[|events| - 1])
  }

  /** Pixel p is bound to be shown by what is queued or by the flag. */
  predicate Owed(st: State, p: Pixel) {
    st.invalidated || exists i :: 0 <= i < |st.queue| && Covers(st.surface, st.queue[i], p)
  }

  ghost predicate Inv(st: State) {
    && |st.queue| <= REDRAW_FIFO_LEN
    && (st.enable ==> forall p :: p in st.outstanding && OnScreen(st.surface, p) ==> Owed(st, p))
  }

  /** Telling a list of rectangles appends what is shown of each, in order, and takes away exactly the
      pixels that one of those contains. */
  lemma {:induction false} ToldInOrder(st: State, rects: seq<Rect>)
    ensures var now := TellAll(st, rects);
            && now == st.(told := now.told, outstanding := now.outstanding)
            && |now.told| == |st.told| + |rects| && now.told[..|st.told|] == st.told
            && (forall i :: 0 <= i < |rects| ==> now.told[|st.told| + i] == Shown(st.surface, rects[i]))
            && (forall p :: p in now.outstanding <==>
                  p in st.outstanding && forall i :: 0 <= i < |rects| ==> !Contains(Shown(st.surface, rects[i]), p))
  {
    if rects != [] {
      hide Shown, Contains;
      ToldInOrder(st, rects[..|rects| - 1]);
    }
  }

  predicate ToldSince(was: State, now: State, p: Pixel)
    requires |was.told| <= |now.told|
  {
    exists i :: |was.told| <= i < |now.told| && Contains(now.told[i], p)
  }

  /** The console only ever hears more, and a pixel stops being outstanding only when a rectangle it is
      told contains it. */
  predicate OnlyByTelling(was: State, now: State) {
    && was.told <= now.told
    && forall p :: p in was.outstanding && p !in now.outstanding ==> ToldSince(was, now, p)
  }

  /** A flush tells one rectangle for each queued one, in order, or none while the flag stands for the
      whole screen. */
  lemma FlushTells(st: State)
    ensures var now := Flush(st);
            && now.queue == [] && now.invalidated == st.invalidated && now.surface == st.surface
            && |now.told| == |st.told| + (if st.invalidated then 0 else |st.queue|) && st.told <= now.told
            && (!st.invalidated ==> forall i :: 0 <= i < |st.queue| ==> now.told[|st.told| + i] == Shown(st.surface, st.queue[i]))
            && OnlyByTelling(st, now)
  {
    ToldInOrder(st, st.queue);
    hide Shown, Contains, TellAll;
    FlushTellsOnly(st);
  }

  lemma FlushTellsOnly(st: State)
    ensures OnlyByTelling(st, Flush(st))
  {
    ToldInOrder(st, st.queue);
    hide Shown, Contains, TellAll;
    var now := Flush(st);
    forall p | p in st.outstanding && p !in now.outstanding
      ensures ToldSince(st, now, p)
    {
      var i :| 0 <= i < |st.queue| && Contains(Shown(st.surface, st.queue[i]), p);
      assert Contains(now.told[|st.told| + i], p);
    }
  }

  /** A flush with the flag down takes away what the queue covers. */
  lemma FlushTakes(st: State, p: Pixel)
    requires !st.invalidated && Owed(st, p)
    ensures p !in Flush(st).outstanding
  {
    ToldInOrder(st, st.queue);
    hide TellAll, Shown, Contains;
  }

  lemma FlushSettles(st: State)
    requires Inv(st) && st.enable
    ensures Inv(Flush(st))
    ensures !st.invalidated ==> forall p :: p in Flush(st).outstanding ==> !OnScreen(st.surface, p)
  {
    FlushFrame(st);
    hide Flush, Owed;
    if !st.invalidated {
      forall p | p in Flush(st).outstanding ensures !OnScreen(st.surface, p) {
        if OnScreen(st.surface, p) && p in st.outstanding {
          FlushTakes(st, p);
        }
      }
    } else {
      FlagOwes(Flush(st));
    }
  }

  lemma FlagOwes(st: State)
    requires st.invalidated
    ensures forall p :: Owed(st, p)
  {
  }

  /** A flush changes the queue, the log and what is outstanding, of which it only takes away. */
  lemma FlushFrame(st: State)
    ensures var now := Flush(st);
            && now == st.(queue := [], told := now.told, outstanding := now.outstanding)
            && now.outstanding <= st.outstanding
            && (st.invalidated ==> now == st.(queue := []))
  {
    ToldInOrder(st, st.queue);
    hide TellAll, Shown, Contains;
  }

  lemma OwedAfterAppend(st: State, r: Rect, p: Pixel)
    ensures Owed(st, p) || Covers(st.surface, r, p) ==> Owed(st.(queue := st.queue + [r]), p)
  {
    var now := st.(queue := st.queue + [r]);
    if !st.invalidated {
      if Owed(st, p) {
        var i :| 0 <= i < |st.queue| && Covers(st.surface, st.queue[i], p);
        assert now.queue[i] == st.queue[i];
      }
      if Covers(st.surface, r, p) {
        assert now.queue[|st.queue|] == r;
      }
    }
  }

  /** A drawing command queues its rectangle behind the others, or alone after a flush of a full
      queue. */
  lemma DrawQueues(st: State, d: Damage)
    requires |st.queue| <= REDRAW_FIFO_LEN
    ensures var touched := st.(outstanding := st.outstanding + d.touched);
            var now := Draw(st, d);
            if |st.queue| < 512 then now == touched.(queue := st.queue + [d.rect])
            else now == Flush(touched).(queue := [d.rect])
  {
    var touched := st.(outstanding := st.outstanding + d.touched);
    FlushFrame(touched);
    hide Flush;
    assert [] + [d.rect] == [d.rect];
  }

  lemma DrawKeepsInv(st: State, d: Damage)
    requires Inv(st) && st.enable
    requires Reportable(st.surface, d.rect, d.touched)
    ensures var now := Draw(st, d);
            && Inv(now) && now.enable == st.enable && now.config == st.config
            && now.surface == st.surface && now.invalidated == st.invalidated
  {
    var touched, now := st.(outstanding := st.outstanding + d.touched), Draw(st, d);
    DrawQueues(st, d);
    FlushFrame(touched);
    hide Flush, Draw, Owed, Covers;
    forall p | p in now.outstanding && OnScreen(now.surface, p)
      ensures Owed(now, p)
    {
      if p in d.touched {
        LastIsOwed(now, p);
      } else if |st.queue| < REDRAW_FIFO_LEN {
        OwedAfterAppend(touched, d.rect, p);
        SameOwed(st, touched, p);
      } else if st.invalidated {
        FlagOwes(now);
      } else {
        SameOwed(st, touched, p);
        FlushTakes(touched, p);
        assert false;
      }
    }
  }

  lemma SameOwed(st: State, now: State, p: Pixel)
    requires now.invalidated == st.invalidated && now.queue == st.queue && now.surface == st.surface
    ensures Owed(st, p) <==> Owed(now, p)
  {
  }

  lemma LastIsOwed(st: State, p: Pixel)
    requires st.queue != [] && Covers(st.surface, st.queue[|st.queue| - 1], p)
    ensures Owed(st, p)
  {
  }

  lemma {:induction false} DrawAllKeepsInv(st: State, ds: seq<Damage>)
    requires Inv(st) && st.enable && Sound(st.surface, ds)
    ensures var now := DrawAll(st, ds);
            && Inv(now) && now.enable == st.enable && now.config == st.config
            && now.surface == st.surface && now.invalidated == st.invalidated
  {
    if ds != [] {
      hide Draw, Inv;
      DrawAllKeepsInv(st, ds[..|ds| - 1]);
      DrawKeepsInv(DrawAll(st, ds[..|ds| - 1]), ds[|ds| - 1]);
    }
  }

  /** A refresh of a device that is off, or not configured, is left to the VGA core. */
  lemma RefreshWhileOff(st: State, ds: seq<Damage>)
    requires !st.enable || !st.config
    ensures UpdateDisplay(st, ds) == st && RunFifo(st, ds) == st
  {
  }

  // ---------- What the console is told ----------

  lemma OnlyByTellingOnward(a: State, b: State, c: State)
    requires OnlyByTelling(a, b) && OnlyByTelling(b, c)
    ensures OnlyByTelling(a, c)
  {
    hide Contains;
    forall p | p in a.outstanding && p !in c.outstanding
      ensures ToldSince(a, c, p)
    {
      if p in b.outstanding {
        var i :| |b.told| <= i < |c.told| && Contains(c.told[i], p);
        assert |a.told| <= i;
      } else {
        var i :| |a.told| <= i < |b.told| && Contains(b.told[i], p);
        assert c.told[i] == b.told[i];
      }
    }
  }

  lemma OnlyByTellingStays(st: State, now: State)
    requires st.told == now.told && st.outstanding <= now.outstanding
    ensures OnlyByTelling(st, now)
  {
  }

  lemma OnlyByTellingMore(st: State, more: State, now: State)
    requires OnlyByTelling(more, now) && st.told == more.told && st.outstanding <= more.outstanding
    ensures OnlyByTelling(st, now)
  {
    forall p | p in st.outstanding && p !in now.outstanding
      ensures ToldSince(st, now, p)
    {
      assert ToldSince(more, now, p);
    }
  }

  lemma OnlyByTellingOne(st: State, r: Rect)
    ensures OnlyByTelling(st, Tell(st, r))
  {
    var now := Tell(st, r);
    hide Contains;
    forall p | p in st.outstanding && p !in now.outstanding
      ensures ToldSince(st, now, p)
    {
      assert Contains(now.told[|st.told|], p);
    }
  }

  lemma DrawTells(st: State, d: Damage)
    ensures OnlyByTelling(st, Draw(st, d))
  {
    var touched := st.(outstanding := st.outstanding + d.touched);
    FlushTellsOnly(touched);
    OnlyByTellingMore(st, touched, Flush(touched));
    hide Flush;
    OnlyByTellingStays(st, touched);
    hide OnlyByTelling;
    if |st.queue| >= REDRAW_FIFO_LEN {
      SameLog(st, Flush(touched), Draw(st, d));
    } else {
      SameLog(st, touched, Draw(st, d));
    }
  }

  lemma SameLog(st: State, b: State, c: State)
    requires b.told == c.told && b.outstanding == c.outstanding
    ensures OnlyByTelling(st, b) ==> OnlyByTelling(st, c)
  {
    if OnlyByTelling(st, b) {
      forall p | p in st.outstanding && p !in c.outstanding
        ensures ToldSince(st, c, p)
      {
        assert ToldSince(st, b, p);
      }
    }
  }

  lemma {:induction false} DrawAllTells(st: State, ds: seq<Damage>)
    ensures OnlyByTelling(st, DrawAll(st, ds))
  {
    if ds == [] {
      OnlyByTellingStays(st, st);
    } else {
      hide Draw, OnlyByTelling;
      DrawAllTells(st, ds[..|ds| - 1]);
      DrawTells(DrawAll(st, ds[..|ds| - 1]), ds[|ds| - 1]);
      OnlyByTellingOnward(st, DrawAll(st, ds[..|ds| - 1]), DrawAll(st, ds));
    }
  }

  /** A refresh of an enabled, configured device ends by telling the whole screen if the flag is up,
      and what is shown of each queued rectangle, in order, if not; it leaves flag and queue down. */
  lemma RefreshTells(st: State, ds: seq<Damage>)
    requires st.enable && st.config
    ensures var ran := RunFifo(CheckSize(st), ds);
            var now := UpdateDisplay(st, ds);
            && now.queue == [] && !now.invalidated
            && now.told == ran.told + (if ran.invalidated then [WholeScreen(ran.surface)]
                                       else seq(|ran.queue|, i requires 0 <= i < |ran.queue| => Shown(ran.surface, ran.queue[i])))
  {
    var ran := RunFifo(CheckSize(st), ds);
    FlushFrame(ran);
    FlushTells(ran);
    RefreshEnds(st, ds);
    hide Flush, RunFifo, CheckSize, UpdateDisplay, Shown, OnlyByTelling;
    if !ran.invalidated {
      var told := Flush(ran).told;
      assert told == ran.told + told[|ran.told|..];
    }
  }

  lemma RefreshEnds(st: State, ds: seq<Damage>)
    requires st.enable && st.config
    ensures var flushed := Flush(RunFifo(CheckSize(st), ds));
            UpdateDisplay(st, ds)
            == if flushed.invalidated then Tell(flushed, WholeScreen(flushed.surface)).(invalidated := false) else flushed
  {
    hide Flush, RunFifo, CheckSize;
  }

  lemma RefreshOnlyTells(st: State, ds: seq<Damage>)
    requires st.enable && st.config
    ensures OnlyByTelling(st, UpdateDisplay(st, ds))
  {
    var sized, ran := CheckSize(st), RunFifo(CheckSize(st), ds);
    var flushed := Flush(ran);
    DrawAllTells(sized, ds);
    OnlyByTellingStays(st, sized);
    OnlyByTellingStays(sized, sized);
    FlushTellsOnly(ran);
    OnlyByTellingOne(flushed, WholeScreen(flushed.surface));
    RefreshEnds(st, ds);
    hide Flush, DrawAll, Contains, OnlyByTelling, UpdateDisplay;
    OnlyByTellingOnward(st, sized, ran);
    OnlyByTellingOnward(st, ran, flushed);
    OnlyByTellingOnward(st, flushed, Tell(flushed, WholeScreen(flushed.surface)));
    if flushed.invalidated {
      SameLog(st, Tell(flushed, WholeScreen(flushed.surface)), UpdateDisplay(st, ds));
    }
  }

  /** Whatever happens, the console only hears more, and a pixel stops being outstanding only because a
      rectangle the console was told contains it. */
  lemma EveryEventTells(st: State, e: Event)
    ensures OnlyByTelling(st, Apply(st, e))
  {
    OnlyByTellingStays(st, st);
    match e
    case Sync(ds) => DrawAllTells(st, ds);
    case Refresh(ds) => if st.enable && st.config { RefreshOnlyTells(st, ds); }
    case Vga(surface) =>
      OnlyByTellingStays(st, st.(surface := surface));
      OnlyByTellingOne(st.(surface := surface), WholeScreen(surface));
      OnlyByTellingOnward(st, st.(surface := surface), Tell(st.(surface := surface), WholeScreen(surface)));
    case _ => OnlyByTellingStays(st, Apply(st, e));
  }

  // ---------- The screen is never forgotten ----------

  /** After a refresh of an enabled, configured device nothing on the screen is outstanding. */
  lemma RefreshSettles(st: State, ds: seq<Damage>)
    requires Inv(st) && st.enable && st.config && Sound(CheckSize(st).surface, ds)
    ensures var now := UpdateDisplay(st, ds);
            && now.queue == [] && !now.invalidated
            && forall p :: p in now.outstanding ==> !OnScreen(now.surface, p)
  {
    SizedKeepsInv(st);
    DrawAllKeepsInv(CheckSize(st), ds);
    var ran := RunFifo(CheckSize(st), ds);
    FlushSettles(ran);
    FlushFrame(ran);
    hide Flush, DrawAll, CheckSize, Inv;
  }

  lemma SizedKeepsInv(st: State)
    requires Inv(st)
    ensures Inv(CheckSize(st)) && CheckSize(st).enable == st.enable && CheckSize(st).config == st.config
  {
  }

  lemma ApplyKeepsInv(st: State, e: Event)
    requires Inv(st)
    ensures Inv(Apply(st, e))
  {
    match e
    case Sync(ds) =>
      if Sound(st.surface, ds) && st.enable && st.config {
        DrawAllKeepsInv(st, ds);
      }
    case Refresh(ds) =>
      if Sound(CheckSize(st).surface, ds) && st.enable && st.config {
        RefreshSettles(st, ds);
      }
    case ConfigDone(v) =>
      assert forall p :: Owed(st, p) ==> Owed(Apply(st, e), p);
    case _ =>
  }

  lemma {:induction false} RunKeepsInv(surface: Surface, events: seq<Event>)
    ensures Inv(Run(surface, events))
  {
    if events != [] {
      RunKeepsInv(surface, events[..|events| - 1]);
      ApplyKeepsInv(Run(surface, events[..|events| - 1]), events[|events| - 1]);
    }
  }

  /** The surface follows the mode registers, and stays put once it does; a new surface has every
      pixel owed, and counts as the surface of the damage that follows. */
  lemma SurfaceFollowsTheMode(st: State, p: Pixel)
    ensures var now := CheckSize(st);
            && now.surface.width == st.newWidth && now.surface.height == st.newHeight && now.surface.bypp == 4
            && (now.surface != st.surface ==> now.surface.bypl == 4 * st.newWidth)
            && CheckSize(now) == now
            && (now.surface != st.surface ==> Owed(now, p))
            && (now.surface == st.surface ==> now == st || Owed(now, p))
            && (Owed(st, p) ==> Owed(now, p))
  {
  }

  /** Every register write that changes what the screen shows owes every pixel, and no other changes
      what is owed. */
  lemma ModeChangesOweEverything(st: State, e: Event, p: Pixel)
    requires e.Enable? || e.Width? || e.Height? || e.BitsPerPixel? || e.ConfigDone?
    ensures var now := Apply(st, e);
            && now.queue == st.queue && now.outstanding == st.outstanding && now.surface == st.surface
            && (now.enable != st.enable || now.newWidth != st.newWidth || now.newHeight != st.newHeight ==> Owed(now, p))
            && (Owed(st, p) ==> Owed(now, p))
            && (Owed(now, p) ==> Owed(st, p) || now.invalidated)
  {
    if Owed(st, p) && !st.invalidated {
      var i :| 0 <= i < |st.queue| && Covers(st.surface, st.queue[i], p);
      assert Covers(Apply(st, e).surface, Apply(st, e).queue[i], p);
    }
  }

  /** Which write does what: the enable flag and the config flag follow their registers, a mode beyond
      the limits or of another depth is refused, and the latter switches the device off. */
  lemma RegistersAreFollowed(st: State, v: nat)
    ensures var now := Apply(st, Enable(v)); (now.enable <==> v != 0) && now.config == st.config && now.invalidated
    ensures var now := Apply(st, ConfigDone(v));
            (now.config <==> v != 0) && now.enable == st.enable && now.invalidated == st.invalidated
    ensures v <= 5120 ==> Apply(st, Width(v)).newWidth == v && Apply(st, Width(v)).newHeight == st.newHeight && Apply(st, Width(v)).invalidated
    ensures v > 5120 ==> Apply(st, Width(v)) == st
    ensures v <= 2880 ==> Apply(st, Height(v)).newHeight == v && Apply(st, Height(v)).newWidth == st.newWidth && Apply(st, Height(v)).invalidated
    ensures v > 2880 ==> Apply(st, Height(v)) == st
    ensures Apply(st, BitsPerPixel(32)) == st
    ensures v != 32 ==> !Apply(st, BitsPerPixel(v)).config && Apply(st, BitsPerPixel(v)).invalidated && Apply(st, BitsPerPixel(v)).enable == st.enable
    ensures Apply(st, InvalidateAll).invalidated <==> st.enable || st.invalidated
  {
  }

  /** Reset switches off and forgets the queue; the mode, the surface, what is outstanding and the flag
      stay. */
  lemma ResetSwitchesOff(st: State)
    ensures var now := Apply(st, ResetDevice);
            && !now.enable && !now.config && now.queue == []
            && now.invalidated == st.invalidated && now.surface == st.surface && now.outstanding == st.outstanding
            && now.newWidth == st.newWidth && now.newHeight == st.newHeight && now.told == st.told
  {
  }

  /** Damage is never lost: in every run, whenever the device is enabled, each on-screen pixel that
      changed since the console was told is covered by a queued rectangle or by the flag. */
  lemma DamageIsNeverLost(surface: Surface, events: seq<Event>, p: Pixel)
    ensures var st := Run(surface, events);
            && |st.queue| <= 512
            && (st.enable && p in st.outstanding && OnScreen(st.surface, p) ==> Owed(st, p))
  {
    RunKeepsInv(surface, events);
  }

  /** Reset gives the promise up, and only switching the device on again takes it back: between
      the two, a pixel drawn before the reset is covered by nothing unless the flag was up. */
  lemma ResetForgetsUntilEnabled(st: State, p: Pixel)
    ensures Owed(Reset(st), p) <==> st.invalidated
    ensures forall v :: Owed(WriteEnable(Reset(st), v), p)
  {
  }

  lemma RunAppend(surface: Surface, events: seq<Event>, e: Event)
    ensures Run(surface, events + [e]) == Apply(Run(surface, events), e)
  {
    assert (events + [e])[..|events + [e]| - 1] == events;
  }

  const OnePixel := Rect(0, 0, 1, 1)
  const DrawOne := Damage(OnePixel, {(0, 0)})

  /** Such a pixel can be reached: a screen of one pixel is set up and refreshed, the pixel is drawn,
      and the device is reset. */
  lemma AResetCanLoseDamage(surface: Surface) returns (events: seq<Event>)
    ensures var st := Run(surface, events + [ResetDevice]);
            (0, 0) in st.outstanding && OnScreen(st.surface, (0, 0)) && !Owed(st, (0, 0))
  {
    events := SetUp(surface);
    RunAppend(surface, events, Sync([DrawOne]));
    assert Sound(Run(surface, events).surface, [DrawOne]);
    assert [DrawOne][..0] == [];
    assert DrawAll(Run(surface, events), [DrawOne]) == Draw(Run(surface, events), DrawOne);
    events := events + [Sync([DrawOne])];
    RunAppend(surface, events, ResetDevice);
  }

  lemma SetUp(surface: Surface) returns (events: seq<Event>)
    ensures var st := Run(surface, events);
            && st.enable && st.config && !st.invalidated && st.surface.width == st.surface.height == 1
            && st.queue == [] && st.outstanding == {}
  {
    events := [Enable(1)];
    RunAppend(surface, [], Enable(1));
    assert [] + events == events;
    RunAppend(surface, events, ConfigDone(1));
    events := events + [ConfigDone(1)];
    RunAppend(surface, events, Width(1));
    events := events + [Width(1)];
    RunAppend(surface, events, Height(1));
    events := events + [Height(1)];
    RunAppend(surface, events, Refresh([]));
    events := events + [Refresh([])];
  }
}
