/** The FIFO half of the SVGA device: the pointers, the reads and the command loop, over the FIFO
    memory itself. */
module SvgaFifo {
  import opened MachineInts
  import opened SvgaCommands
  import SvgaSchedules

  const FIFO_MIN: nat := 0
  const FIFO_MAX: nat := 1
  const FIFO_NEXT: nat := 2
  const FIFO_STOP: nat := 3

  /** The checks fifo_length makes before it trusts the four pointers. */
  predicate PointersAccepted(min: Word, max: Word, next: Word, stop: Word) {
    && min % 4 == 0 && max % 4 == 0 && next % 4 == 0 && stop % 4 == 0
    && min >= 16
    && max <= FIFO_BYTES && min < FIFO_BYTES && stop < FIFO_BYTES && next < FIFO_BYTES
    && max >= min + 10240
  }

  /** In numbers: whole words everywhere, at least four words of header, a ring of at least 10 KiB, and
      all of it inside 64 KiB. */
  lemma WhichPointersAreAccepted(min: Word, max: Word, next: Word, stop: Word)
    ensures PointersAccepted(min, max, next, stop)
       <==> && min % 4 == 0 && max % 4 == 0 && next % 4 == 0 && stop % 4 == 0
            && 16 <= min && min + 10240 <= max <= 65536 && next < 65536 && stop < 65536
  {
  }

  // ---------- What one turn of the loop amounts to, arm by arm ----------

  lemma UpdateIs(r: Ring, p: nat, len: int)
    requires On(r, p) && 0 < len < TWO_TO_THE_31 && (Peek(r, p, 0) == 1 || Peek(r, p, 0) == 25)
    ensures Iterate(r, p, len) == if len < 5 then SvgaCommands.Rewind(len - 5) else
              Done(5, len - 5, Update(S32(Peek(r, p, 1)), S32(Peek(r, p, 2)), S32(Peek(r, p, 3)), S32(Peek(r, p, 4))), false, false)
  {
    hide Words, Forward, Peek, S32, U32;
    HeaderIs(r, p, 5);
    InRange(len - 5);
    NoWrap(0);
  }

  lemma FillIs(r: Ring, p: nat, len: int)
    requires On(r, p) && 0 < len < TWO_TO_THE_31 && Peek(r, p, 0) == 2
    ensures Iterate(r, p, len) == if len < 6 then SvgaCommands.Rewind(len - 6) else
              Done(6, len - 6, Fill(Peek(r, p, 1), S32(Peek(r, p, 2)), S32(Peek(r, p, 3)), S32(Peek(r, p, 4)), S32(Peek(r, p, 5))), false, false)
  {
    hide Words, Forward, Peek, S32, U32;
    HeaderIs(r, p, 6);
    InRange(len - 6);
    NoWrap(0);
  }

  lemma CopyIs(r: Ring, p: nat, len: int)
    requires On(r, p) && 0 < len < TWO_TO_THE_31 && Peek(r, p, 0) == 3
    ensures Iterate(r, p, len) == if len < 7 then SvgaCommands.Rewind(len - 7) else
              Done(7, len - 7, Copy(S32(Peek(r, p, 1)), S32(Peek(r, p, 2)), S32(Peek(r, p, 3)), S32(Peek(r, p, 4)), S32(Peek(r, p, 5)), S32(Peek(r, p, 6))), false, false)
  {
    hide Words, Forward, Peek, S32, U32;
    HeaderIs(r, p, 7);
    InRange(len - 7);
    NoWrap(0);
  }

  lemma NopIs(r: Ring, p: nat, len: int)
    requires On(r, p) && 0 < len < TWO_TO_THE_31 && IsNop(Peek(r, p, 0))
    ensures Iterate(r, p, len) == Done(1, len, Nop, true, false)
  {
  }

  predicate IsBad(cmd: Word) {
    && cmd != UPDATE && cmd != UPDATE_VERBOSE && cmd != RECT_FILL && cmd != RECT_COPY && cmd != DEFINE_CURSOR
    && !IsNop(cmd)
  }

  /** A command whose variable part is skipped. */
  function Skipped(cmd: Word, len: int, args: int): Iteration {
    var left := S32(len - Debit(cmd) - args);
    if left < 0 then SvgaCommands.Rewind(left)
    else Done(Header(cmd) + U32(args), left, Unknown(cmd), Debit(cmd) == 0, args < 0)
  }

  lemma BadIs(r: Ring, p: nat, len: int)
    requires On(r, p) && 0 < len < TWO_TO_THE_31 && IsBad(Peek(r, p, 0))
    ensures var cmd := Peek(r, p, 0);
            Iterate(r, p, len) == if len < Debit(cmd) then SvgaCommands.Rewind(len - Debit(cmd))
                                  else Skipped(cmd, len, Args(cmd, Words(r, p, Header(cmd))))
  {
    hide Words, Args, Peek, Forward;
  }

  /** The commands that are only skipped, word by word. */
  lemma UnsupportedIs(r: Ring, p: nat, len: int)
    requires On(r, p) && 0 < len < TWO_TO_THE_31
    ensures var cmd, it := Peek(r, p, 0), Iterate(r, p, len);
            && (cmd == 13 ==> it == if len < 6 then SvgaCommands.Rewind(len - 6) else Done(7, len - 6, Unknown(cmd), true, false))
            && (cmd == 14 ==> it == if len < 7 then SvgaCommands.Rewind(len - 7) else Done(8, len - 7, Unknown(cmd), true, false))
            && (cmd == 28 ==> it == if len < 12 then SvgaCommands.Rewind(len - 12) else Done(13, len - 12, Unknown(cmd), true, false))
  {
    hide Words, Peek, Forward;
  }

  lemma GlyphIs(r: Ring, p: nat, len: int)
    requires On(r, p) && 4 <= len < TWO_TO_THE_31 && Peek(r, p, 0) == 24
    ensures var args := 7 + Peek(r, p, 3) / 4;
            Iterate(r, p, len) == if len - 4 < args then SvgaCommands.Rewind(len - 4 - args)
                                  else Done(4 + args, len - 4 - args, Unknown(DRAW_GLYPH_CLIPPED), false, false)
  {
    hide Words, Peek, Forward;
    HeaderIs(r, p, 4);
  }

  lemma AlphaCursorIs(r: Ring, p: nat, len: int)
    requires On(r, p) && 6 <= len < TWO_TO_THE_31 && Peek(r, p, 0) == 22
    ensures var args := S32(S32(Peek(r, p, 4)) * S32(Peek(r, p, 5)));
            var left := S32(len - 6 - args);
            Iterate(r, p, len) == if left < 0 then SvgaCommands.Rewind(left)
                                  else Done(6 + U32(args), left, Unknown(DEFINE_ALPHA_CURSOR), false, args < 0)
  {
    hide Words, Peek, Forward, S32, U32;
    HeaderIs(r, p, 6);
  }

  /** A command whose header is not all there waits for it, and every other opcode is passed over. */
  lemma ShortOrUnknownIs(r: Ring, p: nat, len: int)
    requires On(r, p) && 0 < len < TWO_TO_THE_31
    ensures var cmd, it := Peek(r, p, 0), Iterate(r, p, len);
            && (cmd == 19 && len < 8 ==> it == SvgaCommands.Rewind(len - 8))
            && (cmd == 22 && len < 6 ==> it == SvgaCommands.Rewind(len - 6))
            && (cmd == 24 && len < 4 ==> it == SvgaCommands.Rewind(len - 4))
            && (cmd !in {1, 2, 3, 13, 14, 19, 22, 24, 25, 28}
                ==> it == Done(1, len, if cmd in {0, 26, 27, 29, 30} then Nop else Unknown(cmd), true, false))
  {
    hide Words, Peek, Forward;
  }

  lemma CursorIs(r: Ring, p: nat, len: int)
    requires On(r, p) && 8 <= len < TWO_TO_THE_31 && Peek(r, p, 0) == 19
    ensures var w, h, bpp := Peek(r, p, 4), Peek(r, p, 5), Peek(r, p, 7);
            var bitmap, pixmap := BitmapWords(w, h), PixmapWords(w, h, bpp);
            Iterate(r, p, len) ==
              if !CursorAccepted(w, h, bpp) then Skipped(DEFINE_CURSOR, len, S32(bitmap + pixmap))
              else if len - 8 - bitmap - pixmap < 0 then SvgaCommands.Rewind(len - 8 - bitmap - pixmap)
              else Done(8 + bitmap + pixmap, len - 8 - bitmap - pixmap,
                        DefineCursor(S32(Peek(r, p, 1)), S32(Peek(r, p, 2)), S32(Peek(r, p, 3)), w, h, bpp,
                                     Words(r, Forward(r, p, 8), bitmap), Words(r, Forward(r, p, 8 + bitmap), pixmap)),
                        false, false)
  {
    hide BitmapWords, PixmapWords, Forward, Peek, Words, S32, U32;
    var header := Words(r, p, 8);
    HeaderIs(r, p, 8);
    var w, h, bpp := Peek(r, p, 4), Peek(r, p, 5), Peek(r, p, 7);
    var bitmap, pixmap := BitmapWords(w, h), PixmapWords(w, h, bpp);
    var args := S32(bitmap + pixmap);
    var used := 8 + U32(args);
    forall i | 0 <= i < 8 ensures Words(r, p, used)[i] == Peek(r, p, i) {
      WordsAt(r, p, used, i);
    }
    if CursorAccepted(w, h, bpp) {
      AcceptedCursorFits(header);
      NoWrap(args);
      InRange(len - 8 - args);
      WordsSuffix(r, p, 8, args);
      WordsSuffix(r, p, 8 + bitmap, pixmap);
      WordsPrefix(r, p, used, 8 + bitmap);
      WordsSuffix(r, p, 8, bitmap);
      assert Words(r, p, used)[8..8 + bitmap] == Words(r, p, used)[..8 + bitmap][8..];
    }
  }

  lemma RunUnfolds(r: Ring, p: nat, len: int, loops: nat)
    requires On(r, p) && 0 < len < TWO_TO_THE_31 && loops > 0
    ensures match Iterate(r, p, len)
            case Rewind(left) =>
              && Run(r, p, len, loops).effects == Run(r, p, left, loops - 1).effects == []
              && Run(r, p, len, loops).used == Run(r, p, left, loops - 1).used == 0
            case Done(used, left, effect, _, _) =>
              && left < TWO_TO_THE_31
              && Run(r, p, len, loops).effects == [effect] + Run(r, Forward(r, p, used), left, loops - 1).effects
              && Run(r, p, len, loops).used == used + Run(r, Forward(r, p, used), left, loops - 1).used
  {
    hide Words, EffectOf, Peek, Args;
    IterateAccounts(r, p, len);
  }

  /** A run of n words from p0 is under way: what it has done and what is left make up the whole. */
  ghost predicate UnderWay(r: Ring, p0: nat, n: int, used: nat, p: nat, len: int, loops: nat,
                           before: seq<Effect>, now: seq<Effect>)
  {
    && On(r, p0) && p == Forward(r, p0, used) && n < TWO_TO_THE_31 && len < TWO_TO_THE_31
    && Run(r, p0, n, COMMANDS_PER_RUN).used == used + Run(r, p, len, loops).used
    && before + Run(r, p0, n, COMMANDS_PER_RUN).effects == now + Run(r, p, len, loops).effects
  }

  lemma Begins(r: Ring, p0: nat, n: int, before: seq<Effect>)
    requires On(r, p0) && n < TWO_TO_THE_31
    ensures UnderWay(r, p0, n, 0, p0, n, COMMANDS_PER_RUN, before, before)
  {
  }

  lemma Rewound(r: Ring, p0: nat, n: int, used: nat, p: nat, len: int, loops: nat, before: seq<Effect>, now: seq<Effect>)
    requires loops > 0 && 0 < len && UnderWay(r, p0, n, used, p, len, loops, before, now) && Iterate(r, p, len).Rewind?
    ensures Iterate(r, p, len).left < TWO_TO_THE_31 ==>
              UnderWay(r, p0, n, used, p, Iterate(r, p, len).left, loops - 1, before, now)
  {
    hide Iterate, Forward;
    RunUnfolds(r, p, len, loops);
  }

  lemma Advanced(r: Ring, p0: nat, n: int, used: nat, p: nat, len: int, loops: nat, before: seq<Effect>, now: seq<Effect>)
    requires loops > 0 && 0 < len && UnderWay(r, p0, n, used, p, len, loops, before, now) && Iterate(r, p, len).Done?
    ensures var it := Iterate(r, p, len);
            UnderWay(r, p0, n, used + it.used, Forward(r, p, it.used), it.left, loops - 1, before, now + [it.effect])
  {
    hide Iterate, Forward;
    RunUnfolds(r, p, len, loops);
    ForwardAdds(r, p0, used, Iterate(r, p, len).used);
    var it := Iterate(r, p, len);
    var rest := Run(r, Forward(r, p, it.used), it.left, loops - 1).effects;
    assert now + ([it.effect] + rest) == now + [it.effect] + rest;
  }

  lemma Ended(r: Ring, p0: nat, n: int, used: nat, p: nat, len: int, loops: nat, before: seq<Effect>, now: seq<Effect>)
    requires UnderWay(r, p0, n, used, p, len, loops, before, now) && (len <= 0 || loops == 0)
    ensures Run(r, p0, n, COMMANDS_PER_RUN).used == used
    ensures now == before + Run(r, p0, n, COMMANDS_PER_RUN).effects
    ensures p == Forward(r, p0, used) == Forward(r, p, 0)
  {
    assert Run(r, p, len, loops).effects == [];
    assert now + [] == now;
  }

  lemma ShortIs(r: Ring, p: nat, len: int)
    requires On(r, p) && 0 < len < Debit(Peek(r, p, 0))
    ensures Iterate(r, p, len) == SvgaCommands.Rewind(len - Debit(Peek(r, p, 0)))
  {
  }

  lemma PeekFurther(r: Ring, p: nat, k: nat, i: nat)
    requires On(r, p)
    ensures Peek(r, p, k + i) == Peek(r, Forward(r, p, k), i)
  {
    ForwardAdds(r, p, k, i);
  }

  lemma {:induction false} HeaderIs(r: Ring, p: nat, n: nat)
    requires On(r, p) && n <= 8
    ensures forall i :: 0 <= i < n ==> Words(r, p, n)[i] == Peek(r, p, i)
  {
    forall i | 0 <= i < n ensures Words(r, p, n)[i] == Peek(r, p, i) {
      WordsAt(r, p, n, i);
    }
  }

  class Fifo {
    const fifo: array<Word>
    var config: bool
    var enable: bool
    var syncing: bool
    var fifoMin: Word
    var fifoMax: Word
    var fifoNext: Word
    var fifoStop: Word
    var effects: seq<Effect>  // handed to the blitter and the console, in order

    ghost predicate Valid()
      reads this
    {
      fifo.Length == FIFO_BYTES / 4
    }

    /** Pointers that keep every read inside the FIFO memory, on the ring or off it. */
    ghost predicate Inside()
      reads this
    {
      && Valid()
      && fifoStop % 4 == 0 && fifoStop < FIFO_BYTES
      && fifoMin % 4 == 0 && fifoMin < FIFO_BYTES && fifoMax <= FIFO_BYTES
    }

    /** The consumer is k words beyond p on ring r, and the ring's words are as in the snapshot. */
    ghost predicate Tracks(r: Ring, p: nat, k: nat)
      reads this, fifo
    {
      && Valid() && On(r, p)
      && fifoMin == r.min && fifoMax == r.max
      && fifoStop == fifo[FIFO_STOP] == Forward(r, p, k)
      && forall i :: 0 <= i < fifo.Length && i != FIFO_STOP ==> fifo[i] == r.memory[i]
    }

    constructor ()
      ensures Valid() && !config && !enable && effects == []
    {
      fifo := new Word[FIFO_BYTES / 4](_ => 0);
      config, enable, syncing := false, false, false;
      fifoMin, fifoMax, fifoNext, fifoStop := 0, 0, 0, 0;
      effects := [];
    }

    /** fifo_length: loads the pointers, and counts the queued words if the pointers pass. */
    method Length() returns (n: int)
      requires Valid()
      modifies this`fifoMin, this`fifoMax, this`fifoNext, this`fifoStop
      ensures !config || !enable ==> n == 0
      ensures n != 0 ==>
                && config && enable && PointersAccepted(fifoMin, fifoMax, fifoNext, fifoStop)
                && Inside()
                && n == Distance(fifoMin, fifoMax, fifoNext, fifoStop)
      ensures config && enable ==> && fifoMin == fifo[FIFO_MIN] && fifoMax == fifo[FIFO_MAX]
                                   && fifoNext == fifo[FIFO_NEXT] && fifoStop == fifo[FIFO_STOP]
      ensures config && enable && PointersAccepted(fifo[FIFO_MIN], fifo[FIFO_MAX], fifo[FIFO_NEXT], fifo[FIFO_STOP]) ==>
                n == Distance(fifo[FIFO_MIN], fifo[FIFO_MAX], fifo[FIFO_NEXT], fifo[FIFO_STOP])
      ensures n < FIFO_BYTES
    {
      if !config || !enable {
        return 0;
      }
      fifoMin, fifoMax := fifo[FIFO_MIN], fifo[FIFO_MAX];
      fifoNext, fifoStop := fifo[FIFO_NEXT], fifo[FIFO_STOP];
      if !PointersAccepted(fifoMin, fifoMax, fifoNext, fifoStop) {
        return 0;
      }
      var num := fifoNext - fifoStop;
      if num < 0 {
        num := num + (fifoMax - fifoMin);
      }
      return num / 4;
    }

    /** fifo_read: one word, the consumer moved on, and its position written back. */
    method Read(ghost r: Ring, ghost p: nat, ghost k: nat) returns (word: Word)
      requires Inside()
      modifies this`fifoStop, fifo
      ensures Inside()
      ensures old(Tracks(r, p, k)) ==> Tracks(r, p, k + 1) && word == Peek(r, p, k)
    {
      word := fifo[fifoStop / 4];
      fifoStop := fifoStop + 4;
      if fifoStop >= fifoMax {
        fifoStop := fifoMin;
      }
      fifo[FIFO_STOP] := fifoStop;
    }

    /** The loop that skips the variable part of a command the device does not carry out; the
        counter is decremented until it is zero, wrapping around when it starts out negative. */
    method Skip(args: int, ghost r: Ring, ghost p: nat, ghost k: nat)
      requires Inside() && -TWO_TO_THE_31 <= args < TWO_TO_THE_31
      modifies this`fifoStop, fifo
      ensures Inside()
      ensures old(Tracks(r, p, k)) ==> Tracks(r, p, k + U32(args))
    {
      var count := U32(args);
      ghost var done: int := 0;
      while count != 0
        invariant 0 <= done && done + count == U32(args)
        invariant Inside()
        invariant old(Tracks(r, p, k)) ==> Tracks(r, p, k + done)
        decreases count
      {
        var _ := Read(r, p, k + done);
        count, done := count - 1, done + 1;
      }
    }

    /** rewind: the consumer goes back to the start of the command. */
    method Rewind(start: Word, ghost r: Ring)
      requires Valid() && start % 4 == 0 && start < FIFO_BYTES && Inside()
      modifies this`fifoStop, fifo
      ensures Inside()
      ensures forall p, k: nat :: old(Tracks(r, p, k)) && On(r, start) ==> Tracks(r, start, 0)
    {
      fifoStop := start;
      fifo[FIFO_STOP] := start;
    }

    /** One turn of the loop did what Iterate says. */
    ghost predicate Executed(r: Ring, p: nat, len: int, left: int, before: seq<Effect>)
      requires On(r, p) && 0 < len < TWO_TO_THE_31
      reads this, fifo
    {
      var it := Iterate(r, p, len);
      && left == it.left
      && Tracks(r, p, if it.Done? then it.used else 0)
      && effects == if it.Done? then before + [it.effect] else before
    }

    method ArmUpdate(len: int, start: Word, ghost r: Ring, ghost p: nat) returns (left: int)
      requires Inside() && 0 < len < TWO_TO_THE_31 && start % 4 == 0 && start < FIFO_BYTES
      modifies this`fifoStop, this`effects, fifo
      ensures Inside() && left < TWO_TO_THE_31
      ensures old(Tracks(r, p, 1)) && start == p && (Peek(r, p, 0) == UPDATE || Peek(r, p, 0) == UPDATE_VERBOSE) ==> Executed(r, p, len, left, old(effects))
    {
      hide Iterate, Forward, Peek;
      if old(Tracks(r, p, 1)) && start == p && (Peek(r, p, 0) == UPDATE || Peek(r, p, 0) == UPDATE_VERBOSE) {
        UpdateIs(r, p, len);
      }
      left := len - 5;
      if left < 0 {
        Rewind(start, r);
        return;
      }
      var x := Read(r, p, 1);
      var y := Read(r, p, 2);
      var width := Read(r, p, 3);
      var height := Read(r, p, 4);
      effects := effects + [Update(S32(x), S32(y), S32(width), S32(height))];
    }

    method ArmFill(len: int, start: Word, ghost r: Ring, ghost p: nat) returns (left: int)
      requires Inside() && 0 < len < TWO_TO_THE_31 && start % 4 == 0 && start < FIFO_BYTES
      modifies this`fifoStop, this`effects, fifo
      ensures Inside() && left < TWO_TO_THE_31
      ensures old(Tracks(r, p, 1)) && start == p && Peek(r, p, 0) == RECT_FILL ==> Executed(r, p, len, left, old(effects))
    {
      hide Iterate, Forward, Peek;
      if old(Tracks(r, p, 1)) && start == p && Peek(r, p, 0) == RECT_FILL {
        FillIs(r, p, len);
      }
      left := len - 6;
      if left < 0 {
        Rewind(start, r);
        return;
      }
      var colour := Read(r, p, 1);
      var x := Read(r, p, 2);
      var y := Read(r, p, 3);
      var width := Read(r, p, 4);
      var height := Read(r, p, 5);
      effects := effects + [Fill(colour, S32(x), S32(y), S32(width), S32(height))];
    }

    method ArmCopy(len: int, start: Word, ghost r: Ring, ghost p: nat) returns (left: int)
      requires Inside() && 0 < len < TWO_TO_THE_31 && start % 4 == 0 && start < FIFO_BYTES
      modifies this`fifoStop, this`effects, fifo
      ensures Inside() && left < TWO_TO_THE_31
      ensures old(Tracks(r, p, 1)) && start == p && Peek(r, p, 0) == RECT_COPY ==> Executed(r, p, len, left, old(effects))
    {
      hide Iterate, Forward, Peek;
      if old(Tracks(r, p, 1)) && start == p && Peek(r, p, 0) == RECT_COPY {
        CopyIs(r, p, len);
      }
      left := len - 7;
      if left < 0 {
        Rewind(start, r);
        return;
      }
      var x := Read(r, p, 1);
      var y := Read(r, p, 2);
      var dx := Read(r, p, 3);
      var dy := Read(r, p, 4);
      var width := Read(r, p, 5);
      var height := Read(r, p, 6);
      effects := effects + [Copy(S32(x), S32(y), S32(dx), S32(dy), S32(width), S32(height))];
    }

    /** badcmd: skips the variable part if it is there, and reports the command. */
    method BadCommand(len: int, args: int, cmd: Word, start: Word, ghost r: Ring, ghost p: nat, ghost k: nat) returns (left: int)
      requires Inside() && -TWO_TO_THE_31 <= args < TWO_TO_THE_31 && start % 4 == 0 && start < FIFO_BYTES
      modifies this`fifoStop, this`effects, fifo
      ensures Inside()
      ensures left == S32(len - args) < TWO_TO_THE_31
      ensures old(Tracks(r, p, k)) && start == p ==> Tracks(r, p, if left < 0 then 0 else k + U32(args))
      ensures effects == if left < 0 then old(effects) else old(effects) + [Unknown(cmd)]
    {
      SignedRange(len - args);
      left := S32(len - args);
      if left < 0 {
        Rewind(start, r);
        return;
      }
      Skip(args, r, p, k);
      effects := effects + [Unknown(cmd)];
    }

    /** Reads n words into the front of a buffer. */
    method ReadInto(buffer: array<Word>, n: nat, ghost r: Ring, ghost p: nat, ghost k: nat)
      requires Inside() && n <= buffer.Length && buffer != fifo
      modifies this`fifoStop, fifo, buffer
      ensures Inside()
      ensures old(Tracks(r, p, k)) ==> Tracks(r, p, k + n) && buffer[..n] == Words(r, Forward(r, p, k), n)
    {
      hide Forward, Peek;
      var i := 0;
      while i < n
        invariant i <= n && Inside()
        invariant old(Tracks(r, p, k)) ==> Tracks(r, p, k + i) && buffer[..i] == Words(r, Forward(r, p, k), i)
      {
        var word := Read(r, p, k + i);
        buffer[i] := word;
        if old(Tracks(r, p, k)) {
          PeekFurther(r, p, k, i);
        }
        assert buffer[..i + 1] == buffer[..i] + [word];
        i := i + 1;
      }
    }

    method ReadCursorHeader(ghost r: Ring, ghost p: nat)
      returns (id: Word, hotX: Word, hotY: Word, width: Word, height: Word, bpp: Word)
      requires Inside()
      modifies this`fifoStop, fifo
      ensures Inside()
      ensures old(Tracks(r, p, 1)) ==>
                && Tracks(r, p, 8)
                && id == Peek(r, p, 1) && hotX == Peek(r, p, 2) && hotY == Peek(r, p, 3)
                && width == Peek(r, p, 4) && height == Peek(r, p, 5) && bpp == Peek(r, p, 7)
    {
      hide Forward, Peek;
      id := Read(r, p, 1);
      hotX := Read(r, p, 2);
      hotY := Read(r, p, 3);
      width := Read(r, p, 4);
      height := Read(r, p, 5);
      var _ := Read(r, p, 6);
      bpp := Read(r, p, 7);
    }

    method ArmCursor(len: int, start: Word, ghost r: Ring, ghost p: nat) returns (left: int)
      requires Inside() && 0 < len < TWO_TO_THE_31 && start % 4 == 0 && start < FIFO_BYTES
      modifies this`fifoStop, this`effects, fifo
      ensures Inside() && left < TWO_TO_THE_31
      ensures old(Tracks(r, p, 1)) && start == p && Peek(r, p, 0) == DEFINE_CURSOR ==> Executed(r, p, len, left, old(effects))
    {
      hide Iterate, Forward, Peek, Words, BitmapWords, PixmapWords, S32, U32;
      if old(Tracks(r, p, 1)) && start == p && Peek(r, p, 0) == DEFINE_CURSOR {
        if len >= 8 { CursorIs(r, p, len); } else { ShortIs(r, p, len); }
      }
      left := len - 8;
      if left < 0 {
        Rewind(start, r);
        return;
      }
      var id, hotX, hotY, width, height, bpp := ReadCursorHeader(r, p);
      left := CursorBody(left, start, S32(id), S32(hotX), S32(hotY), width, height, bpp, r, p);
    }

    /** The sizes in the header decide whether the cursor is skipped, incomplete or defined. */
    method CursorBody(len: int, start: Word, id: int, hotX: int, hotY: int, width: Word, height: Word, bpp: Word,
                      ghost r: Ring, ghost p: nat)
      returns (left: int)
      requires Inside() && 0 <= len < TWO_TO_THE_31 && start % 4 == 0 && start < FIFO_BYTES
      modifies this`fifoStop, this`effects, fifo
      ensures Inside() && left < TWO_TO_THE_31
      ensures var bitmap, pixmap := BitmapWords(width, height), PixmapWords(width, height, bpp);
              if !CursorAccepted(width, height, bpp) then
                left == S32(len - S32(bitmap + pixmap))
                && (old(Tracks(r, p, 8)) && start == p ==> Tracks(r, p, if left < 0 then 0 else 8 + U32(S32(bitmap + pixmap))))
                && effects == if left < 0 then old(effects) else old(effects) + [Unknown(DEFINE_CURSOR)]
              else
                left == len - bitmap - pixmap
                && (old(Tracks(r, p, 8)) && start == p ==>
                      Tracks(r, p, if left < 0 then 0 else 8 + bitmap + pixmap)
                      && effects == if left < 0 then old(effects) else old(effects) + [DefineCursor(id, hotX, hotY, width, height, bpp,
                           Words(r, Forward(r, p, 8), bitmap), Words(r, Forward(r, p, 8 + bitmap), pixmap))])
    {
      hide Forward, Words, BitmapWords, PixmapWords, S32, U32;
      var args := S32(BitmapWords(width, height) + PixmapWords(width, height, bpp));
      SignedRange(BitmapWords(width, height) + PixmapWords(width, height, bpp));
      if !CursorAccepted(width, height, bpp) {
        left := BadCommand(len, args, DEFINE_CURSOR, start, r, p, 8);
        return;
      }
      NoWrap(BitmapWords(width, height) + PixmapWords(width, height, bpp));
      left := len - args;
      if left < 0 {
        Rewind(start, r);
        return;
      }
      FinishCursor(id, hotX, hotY, width, height, bpp, r, p);
    }

    /** The bitmap and the pixmap of an accepted cursor go to arrays of fixed size. */
    method FinishCursor(id: int, hotX: int, hotY: int, width: Word, height: Word, bpp: Word, ghost r: Ring, ghost p: nat)
      requires Inside() && CursorAccepted(width, height, bpp)
      modifies this`fifoStop, this`effects, fifo
      ensures Inside()
      ensures old(Tracks(r, p, 8)) ==>
                var bitmap, pixmap := BitmapWords(width, height), PixmapWords(width, height, bpp);
                && Tracks(r, p, 8 + bitmap + pixmap)
                && effects == old(effects) + [DefineCursor(id, hotX, hotY, width, height, bpp,
                     Words(r, Forward(r, p, 8), bitmap), Words(r, Forward(r, p, 8 + bitmap), pixmap))]
    {
      hide Forward, Words, BitmapWords, PixmapWords;
      var mask := new Word[MASK_WORDS];
      var image := new Word[IMAGE_WORDS];
      ReadInto(mask, BitmapWords(width, height), r, p, 8);
      ReadInto(image, PixmapWords(width, height, bpp), r, p, 8 + BitmapWords(width, height));
      effects := effects + [DefineCursor(id, hotX, hotY, width, height, bpp,
                                         mask[..BitmapWords(width, height)], image[..PixmapWords(width, height, bpp)])];
    }

    method ArmAlphaCursor(len: int, start: Word, ghost r: Ring, ghost p: nat) returns (left: int)
      requires Inside() && 0 < len < TWO_TO_THE_31 && start % 4 == 0 && start < FIFO_BYTES
      modifies this`fifoStop, this`effects, fifo
      ensures Inside() && left < TWO_TO_THE_31
      ensures old(Tracks(r, p, 1)) && start == p && Peek(r, p, 0) == DEFINE_ALPHA_CURSOR ==> Executed(r, p, len, left, old(effects))
    {
      hide Iterate, Forward, Peek, Words, S32, U32;
      if old(Tracks(r, p, 1)) && start == p && Peek(r, p, 0) == DEFINE_ALPHA_CURSOR {
        BadIs(r, p, len);
        HeaderIs(r, p, 6);
      }
      left := len - 6;
      if left < 0 {
        Rewind(start, r);
        return;
      }
      var _ := Read(r, p, 1);
      var _ := Read(r, p, 2);
      var _ := Read(r, p, 3);
      var x := Read(r, p, 4);
      var y := Read(r, p, 5);
      SignedRange(S32(x) * S32(y));
      left := BadCommand(left, S32(S32(x) * S32(y)), DEFINE_ALPHA_CURSOR, start, r, p, 6);
    }

    method ArmGlyph(len: int, start: Word, ghost r: Ring, ghost p: nat) returns (left: int)
      requires Inside() && 0 < len < TWO_TO_THE_31 && start % 4 == 0 && start < FIFO_BYTES
      modifies this`fifoStop, this`effects, fifo
      ensures Inside() && left < TWO_TO_THE_31
      ensures old(Tracks(r, p, 1)) && start == p && Peek(r, p, 0) == DRAW_GLYPH_CLIPPED ==> Executed(r, p, len, left, old(effects))
    {
      hide Iterate, Forward, Peek, Words, S32, U32;
      if old(Tracks(r, p, 1)) && start == p && Peek(r, p, 0) == DRAW_GLYPH_CLIPPED {
        BadIs(r, p, len);
        HeaderIs(r, p, 4);
      }
      left := len - 4;
      if left < 0 {
        Rewind(start, r);
        return;
      }
      var _ := Read(r, p, 1);
      var _ := Read(r, p, 2);
      var size := Read(r, p, 3);
      left := BadCommand(left, 7 + size / 4, DRAW_GLYPH_CLIPPED, start, r, p, 4);
    }

    /** The arms that debit nothing. */
    method ArmUndebited(len: int, start: Word, cmd: Word, ghost r: Ring, ghost p: nat) returns (left: int)
      requires Inside() && 0 < len < TWO_TO_THE_31 && start % 4 == 0 && start < FIFO_BYTES
      modifies this`fifoStop, this`effects, fifo
      ensures Inside() && left < TWO_TO_THE_31
      ensures old(Tracks(r, p, 1)) && start == p && cmd == Peek(r, p, 0) && Debit(cmd) == 0 ==> Executed(r, p, len, left, old(effects))
    {
      hide Iterate, Forward, Peek, Words, S32, U32;
      if old(Tracks(r, p, 1)) && start == p && cmd == Peek(r, p, 0) && Debit(cmd) == 0 {
        if IsNop(cmd) { NopIs(r, p, len); } else { BadIs(r, p, len); }
      }
      if IsNop(cmd) {
        effects := effects + [Nop];
        return len;
      }
      var args := if cmd == RECT_ROP_FILL then 6 else if cmd == RECT_ROP_COPY then 7
                  else if cmd == SURFACE_ALPHA_BLEND then 12 else 0;
      left := BadCommand(len, args, cmd, start, r, p, 1);
    }

    /** One turn of the loop: the opcode, then its arm. */
    method Execute(len: int, ghost r: Ring, ghost p: nat) returns (left: int)
      requires Inside() && 0 < len < TWO_TO_THE_31
      modifies this`fifoStop, this`effects, fifo
      ensures Inside() && left < TWO_TO_THE_31
      ensures old(Tracks(r, p, 0)) ==> Executed(r, p, len, left, old(effects))
    {
      hide Iterate, Forward, Peek, S32, U32, Words;
      if old(Tracks(r, p, 0)) {
        WordsNone(r, p);
      }
      var start := fifoStop;
      var cmd := Read(r, p, 0);
      if cmd == UPDATE || cmd == UPDATE_VERBOSE {
        left := ArmUpdate(len, start, r, p);
      } else if cmd == RECT_FILL {
        left := ArmFill(len, start, r, p);
      } else if cmd == RECT_COPY {
        left := ArmCopy(len, start, r, p);
      } else if cmd == DEFINE_CURSOR {
        left := ArmCursor(len, start, r, p);
      } else if cmd == DEFINE_ALPHA_CURSOR {
        left := ArmAlphaCursor(len, start, r, p);
      } else if cmd == DRAW_GLYPH_CLIPPED {
        left := ArmGlyph(len, start, r, p);
      } else {
        left := ArmUndebited(len, start, cmd, r, p);
      }
    }

    /** The device as a guest sees it that publishes words and lets it run. */
    ghost function Now(): SvgaSchedules.Device
      reads this, fifo
    {
      SvgaSchedules.Device(fifo[..], effects)
    }

    /** The device runs, and the pointers in memory pass and lie on the ring. */
    ghost predicate Running()
      requires Valid()
      reads this, fifo
    {
      config && enable && SvgaSchedules.Live(Now())
    }

    /** fifo_run: at most 1023 commands. */
    method RunCommands()
      requires Valid()
      modifies this, fifo
      ensures Valid() && !syncing && config == old(config) && enable == old(enable)
      ensures old(Running()) ==> Now() == SvgaSchedules.RunDevice(old(Now()))
    {
      hide Forward, Iterate, UnderWay;
      ghost var was := Now();
      ghost var r := SvgaSchedules.RingOf(was);
      ghost var running := Running();
      ghost var p0: nat, p: nat, used: nat := fifo[FIFO_STOP], fifo[FIFO_STOP], 0;
      if running {
        DistanceIsExact(r, p0, fifo[FIFO_NEXT]);
        WordsNone(r, p0);
      }
      var maxloop := COMMANDS_PER_RUN + 1;
      var len := Length();
      ghost var n := len;
      if running {
        Begins(r, p0, n, effects);
      }
      while true
        invariant maxloop > 0 && len < TWO_TO_THE_31
        invariant Valid() && (len > 0 ==> Inside())
        invariant config == old(config) && enable == old(enable)
        invariant running ==> Tracks(r, p, 0) && UnderWay(r, p0, n, used, p, len, maxloop - 1, old(effects), effects)
        decreases maxloop
      {
        if len <= 0 {
          break;
        }
        maxloop := maxloop - 1;
        if maxloop <= 0 {
          break;
        }
        ghost var turn, before := len, effects;
        len := Execute(len, r, p);
        if running {
          if Iterate(r, p, turn).Done? {
            Advanced(r, p0, n, used, p, turn, maxloop, old(effects), before);
            used, p := used + Iterate(r, p, turn).used, Forward(r, p, Iterate(r, p, turn).used);
            WordsNone(r, p);
          } else {
            Rewound(r, p0, n, used, p, turn, maxloop, old(effects), before);
          }
        }
      }
      if running {
        Ended(r, p0, n, used, p, len, if len <= 0 then maxloop - 1 else 0, old(effects), effects);
      }
      syncing := false;
    }
  }
}
