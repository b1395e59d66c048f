/** The display half of the SVGA device: the redraw array and the flags, changed in place.  Each
    method is proved to carry out the operation of the same name in SvgaDamage. */
module SvgaDisplay {
  import opened SvgaBlit
  import opened SvgaDamage

  class Display {
    var enable: bool
    var config: bool
    var invalidated: bool
    var surface: Surface
    var newWidth: nat
    var newHeight: nat
    const redraw: array<Rect>
    var redrawLast: nat
    var told: seq<Rect>          // what the console has been told to redraw, in order
    ghost var outstanding: set<Pixel>

    ghost predicate Valid()
      reads this
    {
      redraw.Length == REDRAW_FIFO_LEN && redrawLast <= REDRAW_FIFO_LEN
    }

    ghost function Now(): State
      requires Valid()
      reads this, redraw
    {
      State(enable, config, invalidated, surface, newWidth, newHeight, redraw[..redrawLast], outstanding, told)
    }

    constructor (s: Surface)
      ensures Valid() && fresh(redraw)
      ensures Now() == State(false, false, false, s, 0, 0, [], {}, [])
    {
      enable, config, invalidated, surface := false, false, false, s;
      newWidth, newHeight, redrawLast := 0, 0, 0;
      redraw := new Rect[REDRAW_FIFO_LEN](_ => Rect(0, 0, 0, 0));
      outstanding, told := {}, [];
    }

    /** dpy_gfx_update: the console redraws a rectangle from the memory as it is now. */
    method TellConsole(r: Rect)
      requires Valid()
      modifies this`told, this`outstanding
      ensures told == old(told) + [r]
      ensures forall p :: p in outstanding <==> p in old(outstanding) && !Contains(r, p)
      ensures Now() == Tell(old(Now()), r)
    {
      told := told + [r];
      outstanding := set p | p in outstanding && !Contains(r, p);
    }

    /** update_rect: tells the console about a rectangle, or about the whole screen instead. */
    method UpdateRect(r: Rect)
      requires Valid()
      modifies this`told, this`outstanding
      ensures told == old(told) + [if VerifyRect(surface, r.x, r.y, r.w, r.h) then r else Rect(0, 0, surface.width, surface.height)]
      ensures Now() == Tell(old(Now()), Shown(surface, r))
    {
      var shown := r;
      if !Verified(surface, r) {
        shown := Rect(0, 0, surface.width, surface.height);
      }
      TellConsole(shown);
    }

    /** update_rect_flush: nothing but forgetting the queue while the whole screen is due anyway. */
    method FlushQueue()
      requires Valid()
      modifies this`redrawLast, this`told, this`outstanding
      ensures Valid() && Now() == Flush(old(Now()))
      ensures redrawLast == 0 && |told| == |old(told)| + (if invalidated then 0 else old(redrawLast)) && old(told) <= told
      ensures !invalidated ==> forall i :: 0 <= i < old(redrawLast) ==> told[|old(told)| + i] == Shown(surface, redraw[i])
    {
      ghost var was := Now();
      FlushTells(was);
      hide Flush, OnlyByTelling, TellAll, Shown;
      if invalidated {
        redrawLast := 0;
        FlushWithFlag(was);
      } else {
        TellQueue();
        redrawLast := 0;
        FlushWithoutFlag(was);
      }
    }

    /** Every queued rectangle, in order. */
    method TellQueue()
      requires Valid()
      modifies this`told, this`outstanding
      ensures Now() == TellAll(old(Now()), old(Now()).queue)
    {
      hide Tell, TellAll, Shown;
      ghost var was := Now();
      ToldNone(was);
      assert redraw[..0] == [];
      var i := 0;
      while i < redrawLast
        invariant i <= redrawLast && redraw[..redrawLast] == was.queue
        invariant Now() == TellAll(was, redraw[..i])
      {
        ToldOneMore(was, redraw[..i], redraw[i]);
        SurfaceStays(was, redraw[..i]);
        UpdateRect(redraw[i]);
        assert redraw[..i + 1] == redraw[..i] + [redraw[i]];
        i := i + 1;
      }
    }

    /** update_rect_delayed: queues a rectangle, flushing a full queue first. */
    method DelayRect(r: Rect)
      requires Valid()
      modifies this`redrawLast, this`told, this`outstanding, redraw
      ensures Valid() && Now() == Delay(old(Now()), r)
    {
      if redrawLast >= REDRAW_FIFO_LEN {
        FlushQueue();
      }
      redraw[redrawLast] := r;
      redrawLast := redrawLast + 1;
    }

    /** The end of a drawing command: what it touched is outstanding, and its rectangle queued. */
    method DrawRect(r: Rect, ghost touched: set<Pixel>)
      requires Valid()
      modifies this`redrawLast, this`told, this`outstanding, redraw
      ensures Valid() && Now() == Draw(old(Now()), Damage(r, touched))
    {
      outstanding := outstanding + touched;
      DelayRect(r);
    }

    /** The commands of one fifo_run, in order. */
    method RunQueue(ds: seq<Damage>)
      requires Valid()
      modifies this`redrawLast, this`told, this`outstanding, redraw
      ensures Valid() && Now() == RunFifo(old(Now()), ds)
    {
      if !enable || !config {
        return;
      }
      var i := 0;
      assert ds[..0] == [];
      while i < |ds|
        invariant i <= |ds| && Valid() && Now() == DrawAll(old(Now()), ds[..i])
      {
        assert ds[..i + 1][..i] == ds[..i];
        DrawRect(ds[i].rect, ds[i].touched);
        i := i + 1;
      }
      assert ds[..i] == ds;
    }

    /** check_size: another surface is put up when the mode registers ask for one. */
    method MatchSurface()
      requires Valid()
      modifies this`surface, this`invalidated
      ensures Valid() && Now() == CheckSize(old(Now()))
    {
      if newWidth != surface.width || newHeight != surface.height || surface.bypp != 4 {
        surface := Surface(newWidth, newHeight, 4, 32 * newWidth / 8);
        invalidated := true;
      }
    }

    /** update_display. */
    method Refresh(ds: seq<Damage>)
      requires Valid()
      modifies this, redraw
      ensures Valid() && Now() == UpdateDisplay(old(Now()), ds)
    {
      if !enable || !config {
        return;
      }
      MatchSurface();
      RunQueue(ds);
      FlushQueue();
      if invalidated {
        UpdateFull();
        invalidated := false;
      }
    }

    /** dpy_gfx_update_full. */
    method UpdateFull()
      requires Valid()
      modifies this`told, this`outstanding
      ensures told == old(told) + [Rect(0, 0, surface.width, surface.height)]
      ensures Now() == Tell(old(Now()), WholeScreen(surface))
    {
      TellConsole(Rect(0, 0, surface.width, surface.height));
    }

    /** The register writes that matter to the display. */
    method Write(e: Event)
      requires Valid() && (e.Enable? || e.Width? || e.Height? || e.BitsPerPixel? || e.ConfigDone?)
      modifies this
      ensures Valid() && Now() == Apply(old(Now()), e)
    {
      match e
      case Enable(value) =>
        enable := value != 0;
        invalidated := true;
      case Width(value) =>
        if value <= MAX_WIDTH {
          newWidth := value;
          invalidated := true;
        }
      case Height(value) =>
        if value <= MAX_HEIGHT {
          newHeight := value;
          invalidated := true;
        }
      case BitsPerPixel(value) =>
        if value != 32 {
          config := false;
          invalidated := true;
        }
      case ConfigDone(value) =>
        config := value != 0;
    }

    method InvalidateDisplay()
      requires Valid()
      modifies this`invalidated
      ensures Valid() && Now() == Invalidate(old(Now()))
    {
      if enable {
        invalidated := true;
      }
    }

    method ResetDisplay()
      requires Valid()
      modifies this
      ensures Valid() && Now() == Reset(old(Now()))
    {
      enable, config, redrawLast := false, false, 0;
    }
  }

  lemma ToldNone(st: State)
    ensures TellAll(st, []) == st
  {
  }

  lemma ToldOneMore(st: State, rects: seq<Rect>, r: Rect)
    ensures TellAll(st, rects + [r]) == Tell(TellAll(st, rects), Shown(st.surface, r))
  {
    assert (rects + [r])[..|rects + [r]| - 1] == rects;
  }

  lemma SurfaceStays(st: State, rects: seq<Rect>)
    ensures TellAll(st, rects).surface == st.surface
  {
    ToldInOrder(st, rects);
  }

  lemma FlushWithFlag(st: State)
    requires st.invalidated
    ensures Flush(st) == st.(queue := [])
  {
  }

  lemma FlushWithoutFlag(st: State)
    requires !st.invalidated
    ensures Flush(st) == TellAll(st, st.queue).(queue := [])
  {
  }
}
