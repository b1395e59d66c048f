/** The commands that the FIFO delivers, carried out on the video memory and the redraw queue: the
    link between the effects of SvgaCommands, the blitter and the damage laws. */
module SvgaDrawing {
  import opened MachineInts
  import opened SvgaCommands
  import opened SvgaBlit
  import opened SvgaDamage
  import SvgaSchedules
  import SvgaFifo
  import SvgaDisplay

  // One command: what the guest has drawn for it to report, and the memory before and after.
  datatype Turn = Turn(effect: Effect, guest: set<Pixel>, was: seq<Byte>, now: seq<Byte>)

  predicate Differs(s: Surface, was: seq<Byte>, now: seq<Byte>, p: Pixel) {
    exists k: nat :: k < s.bypp && DiffersAt(s, was, now, p, k)
  }

  predicate DiffersAt(s: Surface, was: seq<Byte>, now: seq<Byte>, p: Pixel, k: nat) {
    var i := At(s, p.0, p.1) + k;
    0 <= i < |was| && i < |now| && was[i] != now[i]
  }

  function Changed(s: Surface, was: seq<Byte>, now: seq<Byte>): set<Pixel> {
    set x, y | 0 <= x < s.width && 0 <= y < s.height && Differs(s, was, now, (x, y)) :: (x, y)
  }

  predicate Accepts(s: Surface, e: Effect) {
    match e
    case Update(_, _, _, _) => true
    case Fill(_, x, y, w, h) => VerifyRect(s, x, y, w, h)
    case Copy(x0, y0, x1, y1, w, h) => VerifyRect(s, x0, y0, w, h) && VerifyRect(s, x1, y1, w, h)
    case _ => false
  }

  /** The rectangle that an accepted command queues. */
  function RectOf(e: Effect): Rect
    requires e.Update? || e.Fill? || e.Copy?
  {
    match e
    case Update(x, y, w, h) => Rect(x, y, w, h)
    case Fill(_, x, y, w, h) => Rect(x, y, w, h)
    case Copy(_, _, x1, y1, w, h) => Rect(x1, y1, w, h)
  }

  /** An update reports what the guest drew inside its rectangle; a fill or copy changes the memory as
      the blitter promises; everything else, a rejected fill or copy included, changes nothing. */
  ghost predicate Performed(s: Surface, t: Turn) {
    && Fits(s, |t.was|)
    && if !Accepts(s, t.effect) then t.now == t.was else
         match t.effect
         case Update(x, y, w, h) => t.now == t.was && Reportable(s, Rect(x, y, w, h), t.guest)
         case Fill(colour, x, y, w, h) => Painted(Paint(s, x, y, w, h, colour), t.was, t.now)
         case Copy(x0, y0, x1, y1, w, h) => Copied(Blit(s, x0, y0, x1, y1, w, h), t.was, t.now)
         case _ => true
  }

  /** What a command queues for the console, with the pixels it owes. */
  function Damages(s: Surface, t: Turn): seq<Damage> {
    if !Accepts(s, t.effect) then []
    else [Damage(RectOf(t.effect), if t.effect.Update? then t.guest else Changed(s, t.was, t.now))]
  }

  function AllDamages(s: Surface, ts: seq<Turn>): seq<Damage> {
    if ts == [] then [] else AllDamages(s, ts[..|ts| - 1]) + Damages(s, ts[|ts| - 1])
  }

  /** What a command queues and owes: an update always, with what the guest drew; a fill or copy when
      its rectangles are accepted, with what it changed; any other nothing. */
  lemma WhatACommandQueues(s: Surface, t: Turn)
    ensures match t.effect
            case Update(x, y, w, h) => Damages(s, t) == [Damage(Rect(x, y, w, h), t.guest)]
            case Fill(_, x, y, w, h) =>
              Damages(s, t) == if VerifyRect(s, x, y, w, h) then [Damage(Rect(x, y, w, h), Changed(s, t.was, t.now))] else []
            case Copy(x0, y0, x1, y1, w, h) =>
              Damages(s, t) == if VerifyRect(s, x0, y0, w, h) && VerifyRect(s, x1, y1, w, h)
                               then [Damage(Rect(x1, y1, w, h), Changed(s, t.was, t.now))] else []
            case _ => Damages(s, t) == []
    ensures forall x: int, y: int :: (x, y) in Changed(s, t.was, t.now) <==>
              && 0 <= x < s.width && 0 <= y < s.height
              && exists k: nat :: k < s.bypp && DiffersAt(s, t.was, t.now, (x, y), k)
  {
  }

  /** And what it does to the memory. */
  lemma WhatACommandDraws(s: Surface, t: Turn)
    requires Performed(s, t)
    ensures match t.effect
            case Fill(colour, x, y, w, h) =>
              if VerifyRect(s, x, y, w, h) then Painted(Paint(s, x, y, w, h, colour), t.was, t.now) else t.now == t.was
            case Copy(x0, y0, x1, y1, w, h) =>
              if VerifyRect(s, x0, y0, w, h) && VerifyRect(s, x1, y1, w, h)
              then Copied(Blit(s, x0, y0, x1, y1, w, h), t.was, t.now) else t.now == t.was
            case _ => t.now == t.was
  {
    hide Painted, Copied;
  }

  lemma OnlyItsRectChanges(s: Surface, t: Turn, p: Pixel)
    requires Performed(s, t) && Accepts(s, t.effect) && (t.effect.Fill? || t.effect.Copy?)
    requires p in Changed(s, t.was, t.now)
    ensures OnScreen(s, p) && Covers(s, RectOf(t.effect), p)
  {
    hide At, Painted, Copied;
    var k: nat :| k < s.bypp && DiffersAt(s, t.was, t.now, p, k);
    if !Covers(s, RectOf(t.effect), p) {
      match t.effect
      case Fill(colour, x, y, w, h) =>
        FillTouchesOnlyItsRect(Paint(s, x, y, w, h, colour), t.was, t.now, p.0, p.1, k);
      case Copy(x0, y0, x1, y1, w, h) =>
        CopyTouchesOnlyItsRect(Blit(s, x0, y0, x1, y1, w, h), t.was, t.now, p.0, p.1, k);
    }
  }

  lemma TurnIsSound(s: Surface, t: Turn)
    requires Performed(s, t)
    ensures Sound(s, Damages(s, t))
  {
    hide Changed, OnScreen, Covers;
    if Accepts(s, t.effect) && !t.effect.Update? {
      forall p | p in Changed(s, t.was, t.now)
        ensures OnScreen(s, p) && Covers(s, RectOf(t.effect), p)
      {
        OnlyItsRectChanges(s, t, p);
      }
    }
  }

  lemma SoundAppend(s: Surface, a: seq<Damage>, b: seq<Damage>)
    requires Sound(s, a) && Sound(s, b)
    ensures Sound(s, a + b)
  {
  }

  /** Whatever commands the FIFO delivers, accepted or not, each changes only on-screen pixels of the
      rectangle it queues. */
  lemma {:induction false} CommandsAreSound(s: Surface, ts: seq<Turn>)
    requires forall i :: 0 <= i < |ts| ==> Performed(s, ts[i])
    ensures Sound(s, AllDamages(s, ts))
  {
    if ts != [] {
      hide Performed, Damages, Sound;
      CommandsAreSound(s, ts[..|ts| - 1]);
      TurnIsSound(s, ts[|ts| - 1]);
      SoundAppend(s, AllDamages(s, ts[..|ts| - 1]), Damages(s, ts[|ts| - 1]));
    } else {
      NothingIsSound(s);
    }
  }

  lemma NothingIsSound(s: Surface)
    ensures Sound(s, [])
  {
  }

  /** A refresh that runs these commands leaves no on-screen pixel unreported: neither what they
      changed nor what was owed before. */
  lemma RefreshReportsCommands(st: State, ts: seq<Turn>)
    requires Inv(st) && st.enable && st.config
    requires forall i :: 0 <= i < |ts| ==> Performed(CheckSize(st).surface, ts[i])
    ensures var now := UpdateDisplay(st, AllDamages(CheckSize(st).surface, ts));
            && Inv(now) && now.queue == [] && !now.invalidated
            && forall p :: p in now.outstanding ==> !OnScreen(now.surface, p)
  {
    hide Performed, UpdateDisplay, CheckSize, Inv;
    CommandsAreSound(CheckSize(st).surface, ts);
    RefreshSettles(st, AllDamages(CheckSize(st).surface, ts));
    RefreshKeepsInv(st, AllDamages(CheckSize(st).surface, ts));
  }

  lemma RefreshKeepsInv(st: State, ds: seq<Damage>)
    requires Inv(st) && Sound(CheckSize(st).surface, ds)
    ensures Inv(UpdateDisplay(st, ds))
  {
    ApplyKeepsInv(st, Refresh(ds));
    hide UpdateDisplay, CheckSize, Inv, Sound;
  }

  lemma {:induction false} DrawAllAppends(st: State, a: seq<Damage>, b: seq<Damage>)
    ensures DrawAll(st, a + b) == DrawAll(DrawAll(st, a), b)
    decreases |b|
  {
    if b == [] {
      assert a + b == a;
    } else {
      assert (a + b)[..|a + b| - 1] == a + b[..|b| - 1];
      DrawAllAppends(st, a, b[..|b| - 1]);
    }
  }

  lemma DrawAllOne(st: State, d: Damage)
    ensures DrawAll(st, [d]) == Draw(st, d)
  {
    assert [d][..0] == [];
    assert DrawAll(st, []) == st;
  }

  /** One command, on the memory and on the redraw queue. */
  method Perform(d: SvgaDisplay.Display, vram: array<Byte>, e: Effect, ghost guest: set<Pixel>) returns (ghost t: Turn)
    requires d.Valid() && Fits(d.surface, vram.Length)
    requires e.Update? ==> Reportable(d.surface, RectOf(e), guest)
    modifies d`redrawLast, d`told, d`outstanding, d.redraw, vram
    ensures d.Valid() && t == Turn(e, guest, old(vram[..]), vram[..]) && Performed(d.surface, t)
    ensures d.Now() == DrawAll(old(d.Now()), Damages(d.surface, t))
  {
    hide Painted, Copied, Changed, DrawAll, Draw;
    ghost var was, start := vram[..], d.Now();
    DrawNothing(start);
    var drawn := false;
    var rect := Rect(0, 0, 0, 0);
    match e {
      case Update(x, y, w, h) =>
        drawn, rect := true, Rect(x, y, w, h);
      case Fill(colour, x, y, w, h) =>
        drawn := FillRect(vram, d.surface, colour, x, y, w, h);
        rect := Rect(x, y, w, h);
      case Copy(x0, y0, x1, y1, w, h) =>
        drawn := CopyRect(vram, d.surface, x0, y0, x1, y1, w, h);
        rect := Rect(x1, y1, w, h);
      case _ =>
    }
    t := Turn(e, guest, was, vram[..]);
    if drawn {
      ghost var touched := if e.Update? then guest else Changed(d.surface, was, vram[..]);
      DrawAllOne(start, Damage(rect, touched));
      d.DrawRect(rect, touched);
    }
  }

  lemma DrawNothing(st: State)
    ensures DrawAll(st, []) == st
  {
  }

  /** Turn i starts from the memory that turn i - 1 left. */
  predicate Chained(ts: seq<Turn>, first: seq<Byte>, last: seq<Byte>) {
    if ts == [] then first == last
    else ts[|ts| - 1].now == last && Chained(ts[..|ts| - 1], first, ts[|ts| - 1].was)
  }

  function EffectsOf(ts: seq<Turn>): seq<Effect> {
    seq(|ts|, i requires 0 <= i < |ts| => ts[i].effect)
  }

  /** The commands of one run, in order. */
  method PerformAll(d: SvgaDisplay.Display, vram: array<Byte>, effects: seq<Effect>, ghost guests: seq<set<Pixel>>)
    returns (ghost ts: seq<Turn>)
    requires d.Valid() && Fits(d.surface, vram.Length) && |guests| == |effects|
    requires forall i :: 0 <= i < |effects| && effects[i].Update? ==> Reportable(d.surface, RectOf(effects[i]), guests[i])
    modifies d`redrawLast, d`told, d`outstanding, d.redraw, vram
    ensures d.Valid() && EffectsOf(ts) == effects && Chained(ts, old(vram[..]), vram[..])
    ensures forall i :: 0 <= i < |ts| ==> Performed(d.surface, ts[i])
    ensures d.Now() == DrawAll(old(d.Now()), AllDamages(d.surface, ts))
  {
    hide Performed, Damages, DrawAll, Reportable;
    ghost var start := d.Now();
    DrawNothing(start);
    ts := [];
    var i := 0;
    while i < |effects|
      invariant i <= |effects| && |ts| == i && d.Valid()
      invariant forall j :: 0 <= j < i ==> ts[j].effect == effects[j]
      invariant forall j :: 0 <= j < i ==> Performed(d.surface, ts[j])
      invariant Chained(ts, old(vram[..]), vram[..])
      invariant d.Now() == DrawAll(start, AllDamages(d.surface, ts))
    {
      ghost var t := Perform(d, vram, effects[i], guests[i]);
      DrawAllAppends(start, AllDamages(d.surface, ts), Damages(d.surface, t));
      assert (ts + [t])[..|ts + [t]| - 1] == ts;
      ts := ts + [t];
      i := i + 1;
    }
  }

  /** fifo_run on a live ring: the commands that the ring holds are carried out in order on memory and
      redraw queue, which the damage laws speak of. */
  method RunFifoOn(f: SvgaFifo.Fifo, d: SvgaDisplay.Display, vram: array<Byte>, ghost guests: seq<set<Pixel>>)
    returns (ghost ts: seq<Turn>)
    requires f.Valid() && f.Running() && f.enable == d.enable && f.config == d.config
    requires d.Valid() && Fits(d.surface, vram.Length)
    requires var delivered := SvgaSchedules.RunDevice(f.Now()).effects[|f.effects|..];
             && |guests| == |delivered|
             && forall i :: 0 <= i < |delivered| && delivered[i].Update? ==> Reportable(d.surface, RectOf(delivered[i]), guests[i])
    modifies f, f.fifo, d`redrawLast, d`told, d`outstanding, d.redraw, vram
    ensures f.Valid() && d.Valid()
    ensures f.Now() == SvgaSchedules.RunDevice(old(f.Now())) && f.effects == old(f.effects) + EffectsOf(ts)
    ensures Chained(ts, old(vram[..]), vram[..]) && Sound(d.surface, AllDamages(d.surface, ts))
    ensures d.Now() == RunFifo(old(d.Now()), AllDamages(d.surface, ts))
  {
    hide Performed, Reportable, Chained;
    var before := |f.effects|;
    ghost var ran := SvgaSchedules.RunDevice(f.Now());
    f.RunCommands();
    ts := PerformAll(d, vram, f.effects[before..], guests);
    CommandsAreSound(d.surface, ts);
  }
}
