/** The command stream of the VMware SVGA device: how the words in the FIFO ring are cut into
    commands, how a run accounts for them, and why the pieces a guest publishes do not matter. */
module SvgaCommands {
  import opened MachineInts

  const UPDATE: Word := 1
  const RECT_FILL: Word := 2
  const RECT_COPY: Word := 3
  const RECT_ROP_FILL: Word := 13
  const RECT_ROP_COPY: Word := 14
  const DEFINE_CURSOR: Word := 19
  const DEFINE_ALPHA_CURSOR: Word := 22
  const DRAW_GLYPH_CLIPPED: Word := 24
  const UPDATE_VERBOSE: Word := 25
  const SURFACE_FILL: Word := 26
  const SURFACE_COPY: Word := 27
  const SURFACE_ALPHA_BLEND: Word := 28
  const FRONT_ROP_FILL: Word := 29
  const FENCE: Word := 30
  const INVALID_CMD: Word := 0

  const MASK_WORDS: int := 1024
  const IMAGE_WORDS: int := 4096

  datatype Effect =
    | Update(x: int, y: int, w: int, h: int)
    | Fill(colour: Word, x: int, y: int, w: int, h: int)
    | Copy(x0: int, y0: int, x1: int, y1: int, w: int, h: int)
    | DefineCursor(id: int, hotX: int, hotY: int, width: Word, height: Word, bpp: Word, mask: seq<Word>, image: seq<Word>)
    | Nop
    | Unknown(cmd: Word)

  // ---------- One command ----------

  predicate IsNop(cmd: Word) {
    cmd == SURFACE_FILL || cmd == SURFACE_COPY || cmd == FRONT_ROP_FILL || cmd == FENCE || cmd == INVALID_CMD
  }

  /** The words debited for a command before its variable part, opcode included; 0 for the arms
      that read the opcode without debiting it. */
  function Debit(cmd: Word): nat {
    if cmd == UPDATE || cmd == UPDATE_VERBOSE then 5
    else if cmd == RECT_FILL then 6
    else if cmd == RECT_COPY then 7
    else if cmd == DEFINE_CURSOR then 8
    else if cmd == DEFINE_ALPHA_CURSOR then 6
    else if cmd == DRAW_GLYPH_CLIPPED then 4
    else 0
  }

  function Header(cmd: Word): nat {
    if Debit(cmd) == 0 then 1 else Debit(cmd)
  }

  function BitmapWords(w: Word, h: Word): int {
    S32((S32(S32(w) + 31) / 32) * S32(h))
  }

  function PixmapWords(w: Word, h: Word, bpp: Word): Word {
    U32((U32(U32(w * bpp) + 31) / 32) * h)
  }

  predicate CursorAccepted(w: Word, h: Word, bpp: Word) {
    && w <= 256 && h <= 256 && bpp <= 32
    && 0 <= BitmapWords(w, h) <= MASK_WORDS
    && PixmapWords(w, h, bpp) <= IMAGE_WORDS
  }

  /** The variable part, as the C variable args holds it. */
  function Args(cmd: Word, header: seq<Word>): int
    requires |header| >= Header(cmd)
  {
    if cmd == DEFINE_CURSOR then S32(BitmapWords(header[4], header[5]) + PixmapWords(header[4], header[5], header[7]))
    else if cmd == DEFINE_ALPHA_CURSOR then S32(S32(header[4]) * S32(header[5]))
    else if cmd == DRAW_GLYPH_CLIPPED then 7 + header[3] / 4
    else if cmd == RECT_ROP_FILL then 6
    else if cmd == RECT_ROP_COPY then 7
    else if cmd == SURFACE_ALPHA_BLEND then 12
    else 0
  }

  /** What a complete command does, given its words. */
  function EffectOf(cmd: Word, ws: seq<Word>): Effect
    requires |ws| >= Header(cmd)
  {
    if cmd == UPDATE || cmd == UPDATE_VERBOSE then Update(S32(ws[1]), S32(ws[2]), S32(ws[3]), S32(ws[4]))
    else if cmd == RECT_FILL then Fill(ws[1], S32(ws[2]), S32(ws[3]), S32(ws[4]), S32(ws[5]))
    else if cmd == RECT_COPY then Copy(S32(ws[1]), S32(ws[2]), S32(ws[3]), S32(ws[4]), S32(ws[5]), S32(ws[6]))
    else if cmd == DEFINE_CURSOR && CursorAccepted(ws[4], ws[5], ws[7])
            && 8 + BitmapWords(ws[4], ws[5]) + PixmapWords(ws[4], ws[5], ws[7]) == |ws| then
      var image := 8 + BitmapWords(ws[4], ws[5]);
      DefineCursor(S32(ws[1]), S32(ws[2]), S32(ws[3]), ws[4], ws[5], ws[7], ws[8..image], ws[image..])
    else if IsNop(cmd) then Nop
    else Unknown(cmd)
  }

  lemma NoWrap(v: int)
    requires 0 <= v < TWO_TO_THE_31
    ensures S32(v) == v && U32(v) == v
  {
  }

  lemma SmallBitmap(w: Word, h: Word)
    requires w <= 256 && h <= 256
    ensures BitmapWords(w, h) == ((w + 31) / 32) * h
  {
    hide S32, U32;
    ProductBound((w + 31) / 32, h, 8, 256);
    NoWrap(w);
    NoWrap(h);
    NoWrap(w + 31);
    NoWrap(((w + 31) / 32) * h);
  }

  lemma SmallPixmap(w: Word, h: Word, bpp: Word)
    requires w <= 256 && h <= 256 && bpp <= 32
    ensures PixmapWords(w, h, bpp) == ((w * bpp + 31) / 32) * h
  {
    hide S32, U32;
    var row := w * bpp;
    ProductBound(w, bpp, 256, 32);
    ProductBound((row + 31) / 32, h, 256, 256);
    NoWrap(row);
    NoWrap(row + 31);
    NoWrap(((row + 31) / 32) * h);
  }

  /** An accepted cursor is exactly its bitmap and its pixmap, and fits the arrays they go to. */
  lemma AcceptedCursorFits(header: seq<Word>)
    requires |header| == 8 && CursorAccepted(header[4], header[5], header[7])
    ensures Args(DEFINE_CURSOR, header) == BitmapWords(header[4], header[5]) + PixmapWords(header[4], header[5], header[7])
    ensures BitmapWords(header[4], header[5]) == ((header[4] + 31) / 32) * header[5] <= MASK_WORDS
    ensures PixmapWords(header[4], header[5], header[7]) == ((header[4] * header[7] + 31) / 32) * header[5] <= IMAGE_WORDS
  {
    hide BitmapWords, PixmapWords;
    SmallBitmap(header[4], header[5]);
    SmallPixmap(header[4], header[5], header[7]);
  }

  /** Which cursors are accepted: those of at most 256 by 256 pixels of at most 32 bits whose rows, each
      padded to whole words, fit 1024 words of mask and 4096 of image. */
  lemma WhichCursorsAreAccepted(w: Word, h: Word, bpp: Word)
    ensures CursorAccepted(w, h, bpp)
       <==> && w <= 256 && h <= 256 && bpp <= 32
            && ((w + 31) / 32) * h <= 1024 && ((w * bpp + 31) / 32) * h <= 4096
  {
    hide BitmapWords, PixmapWords;
    if w <= 256 && h <= 256 && bpp <= 32 {
      SmallBitmap(w, h);
      SmallPixmap(w, h, bpp);
      ProductBound((w + 31) / 32, h, 8, 256);
    }
  }

  lemma ProductBound(a: int, b: int, m: int, n: int)
    requires 0 <= a <= m && 0 <= b <= n
    ensures 0 <= a * b <= m * n
  {
    assert a * b <= m * b <= m * n;
  }

  // ---------- The ring ----------

  /** A snapshot of the FIFO memory with the bounds of the ring, which are byte offsets. */
  datatype Ring = Ring(memory: seq<Word>, min: nat, max: nat)

  const FIFO_BYTES: int := 0x10000

  predicate RingOk(r: Ring) {
    && |r.memory| == FIFO_BYTES / 4
    && r.min % 4 == 0 && r.max % 4 == 0
    && 16 <= r.min && r.min + 10240 <= r.max <= FIFO_BYTES
  }

  /** A position inside the ring. */
  predicate On(r: Ring, p: nat) {
    RingOk(r) && p % 4 == 0 && r.min <= p < r.max
  }

  function After(r: Ring, p: nat): (q: nat)
    requires On(r, p)
    ensures On(r, q)
  {
    if p + 4 >= r.max then r.min else p + 4
  }

  function Forward(r: Ring, p: nat, k: nat): (q: nat)
    requires On(r, p)
    ensures On(r, q)
  {
    if k == 0 then p else After(r, Forward(r, p, k - 1))
  }

  function Peek(r: Ring, p: nat, k: nat): Word
    requires On(r, p)
  {
    r.memory[Forward(r, p, k) / 4]
  }

  /** The next n words. */
  function Words(r: Ring, p: nat, n: nat): (ws: seq<Word>)
    requires On(r, p)
    ensures |ws| == n
  {
    if n == 0 then [] else Words(r, p, n - 1) + [Peek(r, p, n - 1)]
  }

  lemma WordsNone(r: Ring, p: nat)
    requires On(r, p)
    ensures Words(r, p, 0) == [] && Forward(r, p, 0) == p
  {
  }

  lemma {:induction false} WordsAt(r: Ring, p: nat, n: nat, i: nat)
    requires On(r, p) && i < n
    ensures Words(r, p, n)[i] == Peek(r, p, i)
    decreases n
  {
    if i < n - 1 {
      WordsAt(r, p, n - 1, i);
    }
  }

  lemma {:induction false} WordsPrefix(r: Ring, p: nat, n: nat, m: nat)
    requires On(r, p) && m <= n
    ensures Words(r, p, n)[..m] == Words(r, p, m)
    decreases n
  {
    if m < n {
      WordsPrefix(r, p, n - 1, m);
      assert Words(r, p, n)[..m] == Words(r, p, n - 1)[..m];
    }
  }

  lemma {:induction false} ForwardAdds(r: Ring, p: nat, a: nat, b: nat)
    requires On(r, p)
    ensures Forward(r, Forward(r, p, a), b) == Forward(r, p, a + b)
    decreases b
  {
    if b > 0 {
      ForwardAdds(r, p, a, b - 1);
    }
  }

  lemma {:induction false} WordsSuffix(r: Ring, p: nat, m: nat, n: nat)
    requires On(r, p)
    ensures Words(r, p, m + n)[m..] == Words(r, Forward(r, p, m), n)
    decreases n
  {
    if n > 0 {
      WordsSuffix(r, p, m, n - 1);
      ForwardAdds(r, p, m, n - 1);
      assert Words(r, p, m + n)[m..] == Words(r, p, m + n - 1)[m..] + [Peek(r, p, m + n - 1)];
    } else {
      assert Words(r, p, m)[m..] == [];
    }
  }

  /** The number of words between the consumer and the producer, as fifo_length computes it. */
  function Distance(min: nat, max: nat, next: nat, stop: nat): int {
    (if next - stop < 0 then next - stop + (max - min) else next - stop) / 4
  }

  lemma {:induction false} ForwardIs(r: Ring, p: nat, k: nat)
    requires On(r, p) && 4 * k <= r.max - r.min
    ensures Forward(r, p, k) == if p + 4 * k < r.max then p + 4 * k else p + 4 * k - (r.max - r.min)
  {
    if k > 0 {
      ForwardIs(r, p, k - 1);
    }
  }

  /** fifo_length is exact: that many steps lead from the consumer to the producer, and no fewer. */
  lemma DistanceIsExact(r: Ring, stop: nat, next: nat)
    requires On(r, stop) && On(r, next)
    ensures 0 <= Distance(r.min, r.max, next, stop) && 4 * Distance(r.min, r.max, next, stop) < r.max - r.min
    ensures Forward(r, stop, Distance(r.min, r.max, next, stop)) == next
    ensures forall k: nat :: k < Distance(r.min, r.max, next, stop) ==> Forward(r, stop, k) != next
  {
    var n := Distance(r.min, r.max, next, stop);
    DistanceIs(r, stop, next);
    hide Forward, Distance;
    ForwardIs(r, stop, n);
    forall k: nat | k < n ensures Forward(r, stop, k) != next {
      ForwardIs(r, stop, k);
    }
  }

  lemma DistanceIs(r: Ring, stop: nat, next: nat)
    requires On(r, stop) && On(r, next)
    ensures var n := Distance(r.min, r.max, next, stop);
            0 <= n && 4 * n < r.max - r.min && 4 * n == if next < stop then next - stop + (r.max - r.min) else next - stop
  {
  }

  /** Writing a position back into the header, the consumer's or the producer's, disturbs no
      queued word. */
  lemma {:induction false} HeaderIsNotInTheRing(r: Ring, p: nat, n: nat, k: nat, position: Word)
    requires On(r, p) && k < 4
    ensures var r' := r.(memory := r.memory[k := position]);
            On(r', p) && Words(r', p, n) == Words(r, p, n) && Forward(r', p, n) == Forward(r, p, n)
  {
    if n > 0 {
      HeaderIsNotInTheRing(r, p, n - 1, k, position);
    }
  }

  // ---------- One turn of the loop, and a run ----------

  datatype Iteration =
    | Rewind(left: int)
    | Done(used: nat, left: int, effect: Effect, undebited: bool, negative: bool)

  function Iterate(r: Ring, p: nat, len: int): Iteration
    requires On(r, p) && 0 < len < TWO_TO_THE_31
  {
    var cmd := Peek(r, p, 0);
    if len < Debit(cmd) then Rewind(len - Debit(cmd)) else
      var args := Args(cmd, Words(r, p, Header(cmd)));
      var left := S32(len - Debit(cmd) - args);
      if left < 0 then Rewind(left) else
        var used := Header(cmd) + U32(args);
        Done(used, left, EffectOf(cmd, Words(r, p, used)), Debit(cmd) == 0, args < 0)
  }

  datatype Result = Result(
    effects: seq<Effect>,
    used: nat,         // words the consumer has advanced by
    left: int,         // len at the last loop head that was not rewound
    undebited: nat,    // commands taken through an arm that does not debit the opcode
    negative: nat)     // commands whose variable part was a negative number

  function Run(r: Ring, p: nat, len: int, loops: nat): Result
    requires On(r, p) && len < TWO_TO_THE_31
    decreases loops
  {
    if loops == 0 || len <= 0 then Result([], 0, len, 0, 0) else
      match Iterate(r, p, len)
      case Rewind(_) => Result([], 0, len, 0, 0)
      case Done(used, left, effect, undebited, negative) =>
        var rest := Run(r, Forward(r, p, used), left, loops - 1);
        Result([effect] + rest.effects, used + rest.used, rest.left,
               rest.undebited + (if undebited then 1 else 0), rest.negative + (if negative then 1 else 0))
  }

  lemma IterateAccounts(r: Ring, p: nat, len: int)
    requires On(r, p) && 0 < len < TWO_TO_THE_31
    ensures var it := Iterate(r, p, len);
            it.Done? ==> 0 <= it.left < TWO_TO_THE_31
                         && it.used == len - it.left + (if it.undebited then 1 else 0)
                                       + (if it.negative then TWO_TO_THE_32 else 0)
  {
    hide Words, EffectOf, Forward, Args, Peek;
    var cmd := Peek(r, p, 0);
    if len >= Debit(cmd) {
      ArgsFit(cmd, Words(r, p, Header(cmd)));
    }
  }

  /** Word accounting: the consumer advances by the words debited, plus one for every command taken
      through an undebited arm, plus 2^32 for every negative variable part, which is skipped as an
      unsigned number. */
  lemma {:induction false} WordAccounting(r: Ring, p: nat, len: int, loops: nat)
    requires On(r, p) && len < TWO_TO_THE_31
    ensures var res := Run(r, p, len, loops);
            && |res.effects| <= loops
            && res.used == len - res.left + res.undebited + TWO_TO_THE_32 * res.negative
            && (res.left < 0 ==> res.left == len)
    decreases loops
  {
    hide Iterate, Forward, Words;
    if loops > 0 && len > 0 {
      IterateAccounts(r, p, len);
      match Iterate(r, p, len)
      case Rewind(_) =>
      case Done(used, left, effect, undebited, negative) =>
        WordAccounting(r, Forward(r, p, used), left, loops - 1);
    }
  }

  // ---------- The queue as a sequence of words ----------

  datatype Parsed = Incomplete | Command(effect: Effect, used: nat) | Unaccounted

  /** The first command of a queue, when its arm debits every word it takes. */
  function Parse(q: seq<Word>): (r: Parsed)
    requires q != []
    ensures r.Command? ==> 0 < r.used <= |q|
  {
    var cmd := q[0];
    if Debit(cmd) == 0 then Unaccounted
    else if |q| < Debit(cmd) then Incomplete
    else
      var args := Args(cmd, q[..Debit(cmd)]);
      if args < 0 then Unaccounted
      else if |q| < Debit(cmd) + args then Incomplete
      else Command(EffectOf(cmd, q[..Debit(cmd) + args]), Debit(cmd) + args)
  }

  /** Every command that starts in the queue debits every word it takes. */
  predicate Accounted(q: seq<Word>)
    decreases |q|
  {
    q == [] || match Parse(q)
               case Incomplete => true
               case Command(_, used) => Accounted(q[used..])
               case Unaccounted => false
  }

  /** At most n commands off the front of a queue: their effects, and the words that stay. */
  function Take(q: seq<Word>, n: nat): (seq<Effect>, seq<Word>)
    decreases n
  {
    if q == [] || n == 0 || !Parse(q).Command? then ([], q) else
      var (effects, rest) := Take(q[Parse(q).used..], n - 1);
      ([Parse(q).effect] + effects, rest)
  }

  /** All the complete commands of a queue. */
  function Drain(q: seq<Word>): (seq<Effect>, seq<Word>)
    decreases |q|
  {
    if q == [] || !Parse(q).Command? then ([], q) else
      var (effects, rest) := Drain(q[Parse(q).used..]);
      ([Parse(q).effect] + effects, rest)
  }

  lemma IterateParses(r: Ring, p: nat, len: nat)
    requires On(r, p) && 0 < len < FIFO_BYTES
    requires Parse(Words(r, p, len)) != Unaccounted
    ensures var it := Iterate(r, p, len);
            match Parse(Words(r, p, len))
            case Incomplete => it.Rewind?
            case Command(effect, used) => it == Done(used, len - used, effect, false, false)
            case Unaccounted => true
  {
    hide EffectOf, Args, Words, Forward, Peek;
    var q := Words(r, p, len);
    WordsAt(r, p, len, 0);
    var cmd := q[0];
    if len >= Debit(cmd) {
      WordsPrefix(r, p, len, Debit(cmd));
      var args := Args(cmd, q[..Debit(cmd)]);
      ArgsFit(cmd, q[..Debit(cmd)]);
      assert S32(len - Debit(cmd) - args) == len - Debit(cmd) - args;
      if args <= len - Debit(cmd) {
        WordsPrefix(r, p, len, Debit(cmd) + args);
      }
    }
  }

  lemma ArgsFit(cmd: Word, header: seq<Word>)
    requires |header| >= Header(cmd)
    ensures -TWO_TO_THE_31 <= Args(cmd, header) < TWO_TO_THE_31
  {
  }

  /** The ring refines the queue: a run over the ring takes the commands off the queue of words
      between the consumer and the producer, and leaves the consumer at the words that stay. */
  lemma {:induction false} RunTakes(r: Ring, p: nat, len: nat, loops: nat)
    requires On(r, p) && len < FIFO_BYTES
    requires Accounted(Words(r, p, len))
    ensures var res := Run(r, p, len, loops);
            var (effects, rest) := Take(Words(r, p, len), loops);
            && res.effects == effects
            && res.left == |rest| && res.used == len - |rest|
            && Words(r, Forward(r, p, res.used), |rest|) == rest
            && res.undebited == 0 && res.negative == 0
    decreases loops
  {
    hide Iterate, Parse, Words, Peek;
    var q := Words(r, p, len);
    WordsNone(r, p);
    if loops > 0 && len > 0 {
      IterateParses(r, p, len);
      if Parse(q).Command? {
        var used := Parse(q).used;
        WordsSuffix(r, p, used, len - used);
        RunTakes(r, Forward(r, p, used), len - used, loops - 1);
        ForwardAdds(r, p, used, Run(r, Forward(r, p, used), len - used, loops - 1).used);
      }
    }
  }

  // ---------- Chunking invariance ----------

  lemma ParseExtends(q: seq<Word>, more: seq<Word>)
    requires q != [] && !Parse(q).Incomplete?
    ensures Parse(q + more) == Parse(q)
  {
    var cmd := q[0];
    if Debit(cmd) != 0 && |q| >= Debit(cmd) {
      assert (q + more)[..Debit(cmd)] == q[..Debit(cmd)];
      var args := Args(cmd, q[..Debit(cmd)]);
      if 0 <= args <= |q| - Debit(cmd) {
        assert (q + more)[..Debit(cmd) + args] == q[..Debit(cmd) + args];
      }
    }
  }

  lemma DrainFirst(q: seq<Word>)
    requires q != [] && Parse(q).Command?
    ensures Drain(q) == ([Parse(q).effect] + Drain(q[Parse(q).used..]).0, Drain(q[Parse(q).used..]).1)
  {
  }

  lemma DrainNothing(q: seq<Word>)
    requires q == [] || !Parse(q).Command?
    ensures Drain(q) == ([], q)
  {
  }

  /** What is complete in a piece is taken the same way whatever follows. */
  lemma {:induction false} DrainExtends(q: seq<Word>, more: seq<Word>)
    ensures var (effects, rest) := Drain(q);
            var (effects', rest') := Drain(rest + more);
            Drain(q + more) == (effects + effects', rest')
    decreases |q|
  {
    if q != [] && Parse(q).Command? {
      DrainTogether(q, more);
      DrainExtends(q[Parse(q).used..], more);
      hide Parse, Drain;
      OneEffectMore(Parse(q).effect, Drain(q[Parse(q).used..]).0, Drain(Drain(q).1 + more).0);
    } else {
      DrainNothing(q);
      hide Parse, Drain;
      assert [] + Drain(q + more).0 == Drain(q + more).0;
    }
  }

  lemma OneEffectMore(e: Effect, a: seq<Effect>, b: seq<Effect>)
    ensures [e] + (a + b) == [e] + a + b
  {
  }

  /** A complete first command drains alike, whatever follows. */
  lemma DrainTogether(q: seq<Word>, more: seq<Word>)
    requires q != [] && Parse(q).Command?
    ensures var (rest, first) := (q[Parse(q).used..], [Parse(q).effect]);
            && Drain(q) == (first + Drain(rest).0, Drain(rest).1)
            && Drain(q + more) == (first + Drain(rest + more).0, Drain(rest + more).1)
  {
    ParseExtends(q, more);
    DrainFirst(q);
    DrainFirst(q + more);
    hide Parse, Drain;
    assert (q + more)[Parse(q).used..] == q[Parse(q).used..] + more;
  }

  lemma {:induction false} AccountedPrefix(q: seq<Word>, more: seq<Word>)
    requires Accounted(q + more)
    ensures Accounted(q)
    decreases |q|
  {
    if q != [] && !Parse(q).Incomplete? {
      ParseExtends(q, more);
      if Parse(q).Command? {
        assert (q + more)[Parse(q).used..] == q[Parse(q).used..] + more;
        AccountedPrefix(q[Parse(q).used..], more);
      }
    }
  }

  lemma {:induction false} AccountedRest(q: seq<Word>, n: nat)
    requires Accounted(q)
    ensures Accounted(Take(q, n).1)
    decreases n
  {
    if q != [] && n > 0 && Parse(q).Command? {
      AccountedRest(q[Parse(q).used..], n - 1);
    }
  }

  lemma {:induction false} TakeThenDrain(q: seq<Word>, n: nat)
    ensures var (effects, rest) := Take(q, n);
            && |rest| <= |q|
            && (n > 0 && rest == q ==> Drain(q) == ([], q))
            && Drain(q) == (effects + Drain(rest).0, Drain(rest).1)
    decreases n
  {
    if q != [] && n > 0 && Parse(q).Command? {
      var used := Parse(q).used;
      TakeThenDrain(q[used..], n - 1);
      var (effects, rest) := Take(q[used..], n - 1);
      assert [Parse(q).effect] + (effects + Drain(rest).0) == [Parse(q).effect] + effects + Drain(rest).0;
    } else {
      assert [] + Drain(q).0 == Drain(q).0;
    }
  }

  const COMMANDS_PER_RUN: nat := 1023

  lemma {:induction false} TakeNothing(q: seq<Word>, n: nat)
    ensures |Take(q, n).1| <= |q|
    ensures n > 0 && |Take(q, n).1| >= |q| ==> Take(q, n) == ([], q)
    decreases n
  {
    if q != [] && n > 0 && Parse(q).Command? {
      TakeNothing(q[Parse(q).used..], n - 1);
    }
  }
}
