/** The blitter of the SVGA device: rectangles copied and filled in place in video memory. */
module SvgaBlit {
  import opened MachineInts

  const MAX_WIDTH: int := 5120
  const MAX_HEIGHT: int := 2880

  // A display surface laid over video memory: bypp bytes a pixel, bypl bytes a line.
  datatype Surface = Surface(width: nat, height: nat, bypp: nat, bypl: nat)

  /** The layout the device sets up: pixels of 1 to 4 bytes, lines that hold a row of them, and
      memory that holds all the lines. */
  predicate Fits(s: Surface, size: nat) {
    1 <= s.bypp <= 4 && s.width * s.bypp <= s.bypl && s.height * s.bypl <= size
  }

  /** verify_rect, with its signed coordinates. */
  predicate VerifyRect(s: Surface, x: int, y: int, w: int, h: int) {
    && 0 <= x <= MAX_WIDTH && 0 <= w <= MAX_WIDTH && x + w <= s.width
    && 0 <= y <= MAX_HEIGHT && 0 <= h <= MAX_HEIGHT && y + h <= s.height
  }

  /** The address of a pixel. */
  function At(s: Surface, x: int, y: int): int {
    y * s.bypl + x * s.bypp
  }

  /** The length of w pixels. */
  function Span(s: Surface, w: int): int {
    w * s.bypp
  }

  /** Byte i belongs to the stretch of w pixels from (x, y). */
  predicate InRow(s: Surface, x: nat, y: nat, w: nat, i: int) {
    At(s, x, y) <= i < At(s, x, y) + Span(s, w)
  }

  predicate InRect(s: Surface, x: nat, y: nat, w: nat, h: nat, i: int) {
    exists line: nat :: y <= line < y + h && InRow(s, x, line, w, i)
  }

  // ---------- Addresses ----------

  lemma Times(a: nat, b: nat, c: nat)
    requires a <= b
    ensures a * c <= b * c
  {
  }

  lemma Distribute(a: int, b: int, c: int)
    ensures (a + b) * c == a * c + b * c
  {
  }

  /** A stretch on an earlier line ends before any stretch on a later line begins. */
  lemma RowsApart(s: Surface, xa: nat, ya: nat, xb: nat, yb: nat, w: nat)
    requires s.width * s.bypp <= s.bypl && xa + w <= s.width && ya < yb
    ensures At(s, xa, ya) + Span(s, w) <= At(s, xb, yb)
  {
    Distribute(xa, w, s.bypp);
    Times(xa + w, s.width, s.bypp);
    Times(ya + 1, yb, s.bypl);
    Distribute(ya, 1, s.bypl);
  }

  /** A stretch of pixels inside the surface lies inside video memory. */
  lemma Naturals(s: Surface, x: nat, y: nat, w: nat)
    ensures 0 <= At(s, x, y) && 0 <= Span(s, w)
  {
  }

  lemma EndOfMemory(s: Surface, size: nat)
    requires Fits(s, size)
    ensures s.width * s.bypp <= s.bypl && At(s, 0, s.height) <= size
  {
  }

  lemma RowInside(s: Surface, size: nat, x: nat, y: nat, w: nat)
    requires Fits(s, size) && x + w <= s.width && y < s.height
    ensures 0 <= At(s, x, y) && 0 <= Span(s, w) && At(s, x, y) + Span(s, w) <= size
  {
    Naturals(s, x, y, w);
    RowsApart(s, x, y, 0, s.height, w);
    EndOfMemory(s, size);
    hide At, Span, Fits;
  }

  lemma NextLine(s: Surface, x: int, y: int)
    ensures At(s, x, y + 1) == At(s, x, y) + s.bypl
  {
    Distribute(y, 1, s.bypl);
  }

  // ---------- Moves ----------

  /** memmove, within one block of memory. */
  function Moved(m: seq<Byte>, dst: nat, src: nat, n: nat): (r: seq<Byte>)
    requires dst + n <= |m| && src + n <= |m|
    ensures |r| == |m|
    ensures forall i :: 0 <= i < |m| ==> r[i] == if dst <= i < dst + n then m[i - dst + src] else m[i]
  {
    m[..dst] + m[src..src + n] + m[dst + n..]
  }

  lemma MovedIs(m: seq<Byte>, now: seq<Byte>, dst: nat, src: nat, n: nat)
    requires dst + n <= |m| && src + n <= |m| && |now| == |m|
    requires forall j :: dst <= j < dst + n ==> now[j] == m[j - dst + src]
    requires forall j :: 0 <= j < |m| && !(dst <= j < dst + n) ==> now[j] == m[j]
    ensures now == Moved(m, dst, src, n)
  {
  }

  method MoveForward(a: array<Byte>, dst: nat, src: nat, n: nat)
    requires dst <= src && src + n <= a.Length
    modifies a
    ensures a[..] == Moved(old(a[..]), dst, src, n)
  {
    hide Moved;
    ghost var was := a[..];
    var i := 0;
    while i < n
      invariant 0 <= i <= n
      invariant forall j :: dst <= j < dst + i ==> a[j] == was[j - dst + src]
      invariant forall j :: 0 <= j < a.Length && !(dst <= j < dst + i) ==> a[j] == was[j]
    {
      a[dst + i] := a[src + i];
      i := i + 1;
    }
    MovedIs(was, a[..], dst, src, n);
  }

  method MoveBackward(a: array<Byte>, dst: nat, src: nat, n: nat)
    requires src <= dst && dst + n <= a.Length
    modifies a
    ensures a[..] == Moved(old(a[..]), dst, src, n)
  {
    hide Moved;
    ghost var was := a[..];
    var i := n;
    while i > 0
      invariant 0 <= i <= n
      invariant forall j :: dst + i <= j < dst + n ==> a[j] == was[j - dst + src]
      invariant forall j :: 0 <= j < a.Length && !(dst + i <= j < dst + n) ==> a[j] == was[j]
    {
      i := i - 1;
      a[dst + i] := a[src + i];
    }
    MovedIs(was, a[..], dst, src, n);
  }

  method Memmove(a: array<Byte>, dst: nat, src: nat, n: nat)
    requires dst + n <= a.Length && src + n <= a.Length
    modifies a
    ensures a[..] == Moved(old(a[..]), dst, src, n)
  {
    if dst <= src {
      MoveForward(a, dst, src, n);
    } else {
      MoveBackward(a, dst, src, n);
    }
  }

  // ---------- Copying a rectangle ----------

  datatype Blit = Blit(s: Surface, x0: nat, y0: nat, x1: nat, y1: nat, w: nat, h: nat)

  predicate BlitOk(b: Blit, size: nat) {
    && Fits(b.s, size)
    && b.x0 + b.w <= b.s.width && b.x1 + b.w <= b.s.width
    && b.y0 + b.h <= b.s.height && b.y1 + b.h <= b.s.height
  }

  /** Byte i of a destination line holds the source byte as it was before the copy. */
  predicate CopiedAt(b: Blit, was: seq<Byte>, now: seq<Byte>, line: nat, i: nat) {
    b.y1 <= line && i < |now| &&
    var source := At(b.s, b.x0, line - b.y1 + b.y0) + (i - At(b.s, b.x1, line));
    0 <= source < |was| && now[i] == was[source]
  }

  /** Lines from .. to of the destination hold the source as it was; every other byte is as it was. */
  ghost predicate LinesCopied(b: Blit, was: seq<Byte>, now: seq<Byte>, from: nat, to: nat) {
    && |now| == |was|
    && (forall line: nat, i: nat :: from <= line < to && InRow(b.s, b.x1, line, b.w, i) ==> CopiedAt(b, was, now, line, i))
    && forall i: nat :: i < |was| && (forall line: nat :: from <= line < to ==> !InRow(b.s, b.x1, line, b.w, i)) ==>
         now[i] == was[i]
  }

  predicate LineNext(b: Blit, from: nat, to: nat, line: nat) {
    && b.y1 <= from <= to <= b.y1 + b.h && b.y1 <= line < b.y1 + b.h
    && ((line == to && b.y1 <= b.y0) || (line == from - 1 && b.y1 > b.y0))
  }

  lemma LineBounds(b: Blit, size: nat, line: nat)
    requires BlitOk(b, size) && b.y1 <= line < b.y1 + b.h
    ensures var dst, src, n := At(b.s, b.x1, line), At(b.s, b.x0, line - b.y1 + b.y0), Span(b.s, b.w);
            0 <= dst && 0 <= src && 0 <= n && dst + n <= size && src + n <= size
  {
    RowInside(b.s, size, b.x0, line - b.y1 + b.y0, b.w);
    RowInside(b.s, size, b.x1, line, b.w);
  }

  function LineMoved(b: Blit, now: seq<Byte>, line: nat): (next: seq<Byte>)
    requires BlitOk(b, |now|) && b.y1 <= line < b.y1 + b.h
    ensures |next| == |now|
  {
    LineBounds(b, |now|, line);
    Moved(now, At(b.s, b.x1, line), At(b.s, b.x0, line - b.y1 + b.y0), Span(b.s, b.w))
  }

  /** Moving one more line, next to those done, above or below as the direction of the copy asks,
      reads source bytes that no line done so far has overwritten. */
  lemma OneMoreLine(b: Blit, was: seq<Byte>, now: seq<Byte>, from: nat, to: nat, line: nat)
    requires BlitOk(b, |was|) && LineNext(b, from, to, line)
    requires LinesCopied(b, was, now, from, to)
    ensures LinesCopied(b, was, LineMoved(b, now, line),
                        if line < from then line else from, if line < from then to else line + 1)
  {
    hide At, Span, LineMoved, CopiedAt;
    var from' := if line < from then line else from;
    var to' := if line < from then to else line + 1;
    var next := LineMoved(b, now, line);
    forall k: nat, i: nat | from' <= k < to' && InRow(b.s, b.x1, k, b.w, i) ensures CopiedAt(b, was, next, k, i) {
      if k == line {
        LineItself(b, was, now, from, to, line, i);
      } else {
        OtherLine(b, was, now, from, to, line, k, i);
      }
    }
    forall i: nat | i < |was| && (forall k: nat :: from' <= k < to' ==> !InRow(b.s, b.x1, k, b.w, i)) ensures next[i] == was[i] {
      assert !InRow(b.s, b.x1, line, b.w, i);
      OutsideLine(b, now, line, i);
    }
  }

  lemma OutsideLine(b: Blit, now: seq<Byte>, line: nat, i: nat)
    requires BlitOk(b, |now|) && b.y1 <= line < b.y1 + b.h && i < |now| && !InRow(b.s, b.x1, line, b.w, i)
    ensures LineMoved(b, now, line)[i] == now[i]
  {
    hide At, Span;
    LineBounds(b, |now|, line);
  }

  lemma LineItself(b: Blit, was: seq<Byte>, now: seq<Byte>, from: nat, to: nat, line: nat, i: nat)
    requires BlitOk(b, |was|) && LineNext(b, from, to, line)
    requires LinesCopied(b, was, now, from, to) && InRow(b.s, b.x1, line, b.w, i)
    ensures CopiedAt(b, was, LineMoved(b, now, line), line, i)
  {
    SourceIntact(b, was, now, from, to, line);
    hide At, Span, LinesCopied;
    LineBounds(b, |was|, line);
    var source := At(b.s, b.x0, line - b.y1 + b.y0) + (i - At(b.s, b.x1, line));
    assert InRow(b.s, b.x0, line - b.y1 + b.y0, b.w, source);
  }

  lemma OtherLine(b: Blit, was: seq<Byte>, now: seq<Byte>, from: nat, to: nat, line: nat, k: nat, i: nat)
    requires BlitOk(b, |was|) && LineNext(b, from, to, line) && from <= k < to
    requires LinesCopied(b, was, now, from, to) && InRow(b.s, b.x1, k, b.w, i)
    ensures CopiedAt(b, was, LineMoved(b, now, line), k, i)
  {
    hide At, Span, LineMoved;
    assert CopiedAt(b, was, now, k, i);
    if k < line {
      RowsApart(b.s, b.x1, k, b.x1, line, b.w);
    } else {
      RowsApart(b.s, b.x1, line, b.x1, k, b.w);
    }
    OutsideLine(b, now, line, i);
  }

  lemma SourceIntact(b: Blit, was: seq<Byte>, now: seq<Byte>, from: nat, to: nat, line: nat)
    requires BlitOk(b, |was|) && LineNext(b, from, to, line) && LinesCopied(b, was, now, from, to)
    ensures |now| == |was|
    ensures forall i: nat :: InRow(b.s, b.x0, line - b.y1 + b.y0, b.w, i) ==> i < |was| && now[i] == was[i]
  {
    hide At, Span;
    var source := line - b.y1 + b.y0;
    RowInside(b.s, |was|, b.x0, source, b.w);
    forall i: nat | InRow(b.s, b.x0, source, b.w, i) ensures i < |was| && now[i] == was[i] {
      forall k: nat | from <= k < to ensures !InRow(b.s, b.x1, k, b.w, i) {
        if k < source {
          RowsApart(b.s, b.x1, k, b.x0, source, b.w);
        } else {
          RowsApart(b.s, b.x0, source, b.x1, k, b.w);
        }
      }
    }
  }

  /** The specification of copy_rect, free of any order: each pixel of the destination is the source
      pixel as it was, and every byte outside the destination is untouched. */
  ghost predicate Copied(b: Blit, was: seq<Byte>, now: seq<Byte>) {
    LinesCopied(b, was, now, b.y1, b.y1 + b.h)
  }

  lemma NothingCopied(b: Blit, was: seq<Byte>)
    ensures LinesCopied(b, was, was, b.y1, b.y1) && LinesCopied(b, was, was, b.y1 + b.h, b.y1 + b.h)
  {
  }

  /** The pointer arithmetic of the blitter. */
  function Address(s: Surface, x: int, y: int): (a: int)
    ensures a == At(s, x, y)
  {
    s.bypp * x + s.bypl * y
  }

  function Width(s: Surface, w: int): (n: int)
    ensures n == Span(s, w)
  {
    s.bypp * w
  }

  method MoveLine(vram: array<Byte>, dst: int, src: int, n: int, ghost b: Blit, ghost line: nat)
    requires BlitOk(b, vram.Length) && b.y1 <= line < b.y1 + b.h
    requires dst == At(b.s, b.x1, line) && src == At(b.s, b.x0, line - b.y1 + b.y0) && n == Span(b.s, b.w)
    modifies vram
    ensures vram[..] == LineMoved(b, old(vram[..]), line)
  {
    LineBounds(b, vram.Length, line);
    Memmove(vram, dst, src, n);
  }

  /** The bottom line first. */
  method CopyUpward(vram: array<Byte>, ghost b: Blit, s: Surface, x0: nat, y0: nat, x1: nat, y1: nat, w: nat, h: nat)
    requires b == Blit(s, x0, y0, x1, y1, w, h) && BlitOk(b, vram.Length) && y1 > y0
    modifies vram
    ensures Copied(b, old(vram[..]), vram[..])
  {
    hide At, Span, LinesCopied, LineMoved, BlitOk;
    ghost var was := vram[..];
    NothingCopied(b, was);
    var width := Width(s, w);
    var src, dst := Address(s, x0, y0 + h - 1), Address(s, x1, y1 + h - 1);
    var line := h;
    while line > 0
      invariant 0 <= line <= h
      invariant src == At(s, x0, y0 + line - 1) && dst == At(s, x1, y1 + line - 1)
      invariant LinesCopied(b, was, vram[..], y1 + line, y1 + h)
    {
      OneMoreLine(b, was, vram[..], y1 + line, y1 + h, y1 + line - 1);
      MoveLine(vram, dst, src, width, b, y1 + line - 1);
      NextLine(s, x0, y0 + line - 2);
      NextLine(s, x1, y1 + line - 2);
      line, src, dst := line - 1, src - s.bypl, dst - s.bypl;
    }
  }

  /** The top line first. */
  method CopyDownward(vram: array<Byte>, ghost b: Blit, s: Surface, x0: nat, y0: nat, x1: nat, y1: nat, w: nat, h: nat)
    requires b == Blit(s, x0, y0, x1, y1, w, h) && BlitOk(b, vram.Length) && y1 <= y0
    modifies vram
    ensures Copied(b, old(vram[..]), vram[..])
  {
    hide At, Span, LinesCopied, LineMoved, BlitOk;
    ghost var was := vram[..];
    NothingCopied(b, was);
    var width := Width(s, w);
    var src, dst := Address(s, x0, y0), Address(s, x1, y1);
    var line := h;
    while line > 0
      invariant 0 <= line <= h
      invariant src == At(s, x0, y0 + h - line) && dst == At(s, x1, y1 + h - line)
      invariant LinesCopied(b, was, vram[..], y1, y1 + h - line)
    {
      OneMoreLine(b, was, vram[..], y1, y1 + h - line, y1 + h - line);
      MoveLine(vram, dst, src, width, b, y1 + h - line);
      NextLine(s, x0, y0 + h - line);
      NextLine(s, x1, y1 + h - line);
      line, src, dst := line - 1, src + s.bypl, dst + s.bypl;
    }
  }

  /** copy_rect: line by line, upward or downward according to the overlap. */
  method CopyRect(vram: array<Byte>, s: Surface, x0: int, y0: int, x1: int, y1: int, w: int, h: int) returns (ok: bool)
    requires Fits(s, vram.Length)
    modifies vram
    ensures ok <==> VerifyRect(s, x0, y0, w, h) && VerifyRect(s, x1, y1, w, h)
    ensures !ok ==> vram[..] == old(vram[..])
    ensures ok ==> Copied(Blit(s, x0, y0, x1, y1, w, h), old(vram[..]), vram[..])
  {
    if !VerifyRect(s, x0, y0, w, h) || !VerifyRect(s, x1, y1, w, h) {
      return false;
    }
    hide Fits, Copied;
    ghost var b := Blit(s, x0, y0, x1, y1, w, h);
    if y1 > y0 {
      CopyUpward(vram, b, s, x0, y0, x1, y1, w, h);
    } else {
      CopyDownward(vram, b, s, x0, y0, x1, y1, w, h);
    }
    ok := true;
  }

  /** Pixel by pixel: byte k of pixel (px, py) of the destination. */
  lemma CopiedPixel(b: Blit, was: seq<Byte>, now: seq<Byte>, px: nat, py: nat, k: nat)
    requires BlitOk(b, |was|) && Copied(b, was, now) && px < b.w && py < b.h && k < b.s.bypp
    ensures 0 <= At(b.s, b.x1 + px, b.y1 + py) + k < |now| && 0 <= At(b.s, b.x0 + px, b.y0 + py) + k < |was|
    ensures now[At(b.s, b.x1 + px, b.y1 + py) + k] == was[At(b.s, b.x0 + px, b.y0 + py) + k]
  {
    hide At, Span, LinesCopied;
    PixelInRow(b.s, b.x1, b.y1 + py, b.w, px, k);
    PixelInRow(b.s, b.x0, b.y0 + py, b.w, px, k);
    RowInside(b.s, |was|, b.x0, b.y0 + py, b.w);
    RowInside(b.s, |was|, b.x1, b.y1 + py, b.w);
    CopiedHere(b, was, now, b.y1 + py, At(b.s, b.x1 + px, b.y1 + py) + k);
  }

  lemma CopiedHere(b: Blit, was: seq<Byte>, now: seq<Byte>, line: nat, i: nat)
    requires Copied(b, was, now) && b.y1 <= line < b.y1 + b.h && InRow(b.s, b.x1, line, b.w, i)
    ensures |now| == |was| && CopiedAt(b, was, now, line, i)
  {
  }

  /** Byte k of pixel px of a row. */
  lemma PixelInRow(s: Surface, x: nat, y: nat, w: nat, px: nat, k: nat)
    requires px < w && k < s.bypp
    ensures At(s, x + px, y) + k == At(s, x, y) + Span(s, px) + k
    ensures InRow(s, x, y, w, At(s, x + px, y) + k)
  {
    Distribute(x, px, s.bypp);
    Times(px + 1, w, s.bypp);
    Distribute(px, 1, s.bypp);
  }

  lemma OutsideUntouched(b: Blit, was: seq<Byte>, now: seq<Byte>, i: nat)
    requires Copied(b, was, now) && i < |was| && !InRect(b.s, b.x1, b.y1, b.w, b.h, i)
    ensures now[i] == was[i]
  {
  }

  // ---------- Filling a rectangle ----------

  /** Byte k of a colour, in little-endian order. */
  function ColourByte(c: nat, k: int): Byte {
    if k == 0 then c % 0x100
    else if k == 1 then c / 0x100 % 0x100
    else if k == 2 then c / 0x1_0000 % 0x100
    else c / 0x100_0000 % 0x100
  }

  datatype Paint = Paint(s: Surface, x: nat, y: nat, w: nat, h: nat, colour: nat)

  predicate PaintOk(p: Paint, size: nat) {
    Fits(p.s, size) && p.x + p.w <= p.s.width && p.y + p.h <= p.s.height
  }

  predicate PaintedAt(p: Paint, now: seq<Byte>, line: nat, i: nat)
    requires p.s.bypp > 0
  {
    i < |now| && now[i] == ColourByte(p.colour, (i - At(p.s, p.x, line)) % p.s.bypp)
  }

  /** Lines up to to are painted; every byte outside them is as it was. */
  ghost predicate LinesPainted(p: Paint, was: seq<Byte>, now: seq<Byte>, to: nat)
    requires p.s.bypp > 0
  {
    && |now| == |was|
    && (forall line: nat, i: nat :: p.y <= line < to && InRow(p.s, p.x, line, p.w, i) ==> PaintedAt(p, now, line, i))
    && forall i: nat :: i < |was| && (forall line: nat :: p.y <= line < to ==> !InRow(p.s, p.x, line, p.w, i)) ==>
         now[i] == was[i]
  }

  /** The specification of fill_rect: every pixel of the rectangle is the colour, and every byte
      outside the rectangle is untouched. */
  ghost predicate Painted(p: Paint, was: seq<Byte>, now: seq<Byte>)
    requires p.s.bypp > 0
  {
    LinesPainted(p, was, now, p.y + p.h)
  }

  lemma NextByte(column: nat, k: nat, bypp: nat)
    requires 1 <= bypp <= 4 && k == column % bypp
    ensures (if k + 1 == bypp then 0 else k + 1) == (column + 1) % bypp
  {
    match bypp
    case 1 =>
    case 2 =>
    case 3 => AfterThird(column);
    case _ => AfterFourth(column);
  }

  lemma AfterThird(column: nat)
    ensures (column + 1) % 3 == if column % 3 == 2 then 0 else column % 3 + 1
  {
  }

  lemma AfterFourth(column: nat)
    ensures (column + 1) % 4 == if column % 4 == 3 then 0 else column % 4 + 1
  {
  }

  lemma PixelPhase(px: nat, k: nat, bypp: nat)
    requires 1 <= bypp <= 4 && k < bypp
    ensures (px * bypp + k) % bypp == k
  {
    match bypp
    case 1 => assert (px * 1 + k) % 1 == k;
    case 2 => assert (px * 2 + k) % 2 == k;
    case 3 => assert (px * 3 + k) % 3 == k;
    case _ => assert (px * 4 + k) % 4 == k;
  }

  /** The bytes of the top line are written one by one, going round the bytes of the colour. */
  method PaintTopLine(vram: array<Byte>, ghost p: Paint, fst: int, width: int, col: seq<Byte>, bypp: nat)
    requires PaintOk(p, vram.Length) && p.h > 0 && bypp == p.s.bypp
    requires fst == At(p.s, p.x, p.y) && width == Span(p.s, p.w)
    requires |col| == 4 && forall k :: 0 <= k < 4 ==> col[k] == ColourByte(p.colour, k)
    modifies vram
    ensures LinesPainted(p, old(vram[..]), vram[..], p.y + 1)
  {
    hide At, Span, ColourByte;
    RowInside(p.s, vram.Length, p.x, p.y, p.w);
    var dst, src, column := fst, 0, width;
    while column > 0
      invariant 0 <= column <= width && dst == fst + (width - column)
      invariant 0 <= src < bypp && src == (width - column) % bypp
      invariant forall i :: fst <= i < dst ==> vram[i] == ColourByte(p.colour, (i - fst) % bypp)
      invariant forall i :: 0 <= i < vram.Length && !(fst <= i < dst) ==> vram[i] == old(vram[i])
    {
      vram[dst] := col[src];
      NextByte(width - column, src, bypp);
      dst, src := dst + 1, src + 1;
      if src == bypp {
        src := 0;
      }
      column := column - 1;
    }
    TopLineDone(p, old(vram[..]), vram[..]);
  }

  lemma TopLineDone(p: Paint, was: seq<Byte>, now: seq<Byte>)
    requires PaintOk(p, |was|) && |now| == |was|
    requires forall i: nat :: i < |was| ==>
      now[i] == if InRow(p.s, p.x, p.y, p.w, i) then ColourByte(p.colour, (i - At(p.s, p.x, p.y)) % p.s.bypp) else was[i]
    requires p.y < p.s.height
    ensures LinesPainted(p, was, now, p.y + 1)
  {
    RowInside(p.s, |was|, p.x, p.y, p.w);
    hide At, Span, ColourByte;
  }

  function LinePainted(p: Paint, now: seq<Byte>, line: nat): (next: seq<Byte>)
    requires PaintOk(p, |now|) && p.y <= line < p.y + p.h
    ensures |next| == |now|
  {
    RowInside(p.s, |now|, p.x, p.y, p.w);
    RowInside(p.s, |now|, p.x, line, p.w);
    Moved(now, At(p.s, p.x, line), At(p.s, p.x, p.y), Span(p.s, p.w))
  }

  lemma PaintedElsewhere(p: Paint, now: seq<Byte>, line: nat, i: nat)
    requires PaintOk(p, |now|) && p.y <= line < p.y + p.h && i < |now| && !InRow(p.s, p.x, line, p.w, i)
    ensures LinePainted(p, now, line)[i] == now[i]
  {
    hide At, Span;
    RowInside(p.s, |now|, p.x, p.y, p.w);
    RowInside(p.s, |now|, p.x, line, p.w);
  }

  lemma PaintedHere(p: Paint, was: seq<Byte>, now: seq<Byte>, line: nat, i: nat)
    requires PaintOk(p, |was|) && p.y < line < p.y + p.h
    requires LinesPainted(p, was, now, line) && InRow(p.s, p.x, line, p.w, i)
    ensures PaintedAt(p, LinePainted(p, now, line), line, i)
  {
    var source := i - At(p.s, p.x, line) + At(p.s, p.x, p.y);
    assert InRow(p.s, p.x, p.y, p.w, source);
    RowInside(p.s, |now|, p.x, p.y, p.w);
    assert PaintedAt(p, now, p.y, source);
    hide At, Span, LinesPainted, ColourByte;
    RowInside(p.s, |now|, p.x, line, p.w);
  }

  lemma PaintedBefore(p: Paint, was: seq<Byte>, now: seq<Byte>, line: nat, k: nat, i: nat)
    requires PaintOk(p, |was|) && p.y <= k < line < p.y + p.h
    requires LinesPainted(p, was, now, line) && InRow(p.s, p.x, k, p.w, i)
    ensures PaintedAt(p, LinePainted(p, now, line), k, i)
  {
    assert PaintedAt(p, now, k, i);
    hide At, Span, LinesPainted, ColourByte, LinePainted;
    RowsApart(p.s, p.x, k, p.x, line, p.w);
    PaintedElsewhere(p, now, line, i);
  }

  /** Copying the top line onto the next line paints it, and leaves the lines above painted. */
  lemma OneMorePainted(p: Paint, was: seq<Byte>, now: seq<Byte>, line: nat)
    requires PaintOk(p, |was|) && p.y < line < p.y + p.h && LinesPainted(p, was, now, line)
    ensures LinesPainted(p, was, LinePainted(p, now, line), line + 1)
  {
    hide At, Span, LinePainted, PaintedAt;
    var next := LinePainted(p, now, line);
    forall k: nat, i: nat | p.y <= k < line + 1 && InRow(p.s, p.x, k, p.w, i) ensures PaintedAt(p, next, k, i) {
      if k == line {
        PaintedHere(p, was, now, line, i);
      } else {
        PaintedBefore(p, was, now, line, k, i);
      }
    }
    forall i: nat | i < |was| && (forall k: nat :: p.y <= k < line + 1 ==> !InRow(p.s, p.x, k, p.w, i)) ensures next[i] == was[i] {
      assert !InRow(p.s, p.x, line, p.w, i);
      PaintedElsewhere(p, now, line, i);
    }
  }

  method PaintLine(vram: array<Byte>, ghost p: Paint, dst: int, fst: int, n: int, ghost line: nat)
    requires PaintOk(p, vram.Length) && p.y <= line < p.y + p.h
    requires dst == At(p.s, p.x, line) && fst == At(p.s, p.x, p.y) && n == Span(p.s, p.w)
    modifies vram
    ensures vram[..] == LinePainted(p, old(vram[..]), line)
  {
    RowInside(p.s, vram.Length, p.x, p.y, p.w);
    RowInside(p.s, vram.Length, p.x, line, p.w);
    Memmove(vram, dst, fst, n);
  }

  /** fill_rect: one line byte by byte, and the rest copied from it. */
  method FillRect(vram: array<Byte>, s: Surface, c: nat, x: int, y: int, w: int, h: int) returns (ok: bool)
    requires Fits(s, vram.Length)
    modifies vram
    ensures ok <==> VerifyRect(s, x, y, w, h)
    ensures !ok ==> vram[..] == old(vram[..])
    ensures ok ==> Painted(Paint(s, x, y, w, h, c), old(vram[..]), vram[..])
  {
    if !VerifyRect(s, x, y, w, h) {
      return false;
    }
    ok := true;
    hide At, Span, LinesPainted, LinePainted, ColourByte;
    ghost var p := Paint(s, x, y, w, h, c);
    ghost var was := vram[..];
    NothingPainted(p, was);
    var width := Width(s, w);
    var col := [ColourByte(c, 0), ColourByte(c, 1), ColourByte(c, 2), ColourByte(c, 3)];
    var fst := Address(s, x, y);
    var line := h;
    if line != 0 {
      line := line - 1;
      PaintTopLine(vram, p, fst, width, col, s.bypp);
      var dst := fst;
      while line > 0
        invariant 0 <= line < h && vram.Length == |was|
        invariant dst == At(s, x, y + h - line - 1)
        invariant LinesPainted(p, was, vram[..], y + h - line)
      {
        NextLine(s, x, y + h - line - 1);
        dst := dst + s.bypl;
        OneMorePainted(p, was, vram[..], y + h - line);
        PaintLine(vram, p, dst, fst, width, y + h - line);
        line := line - 1;
      }
    }
  }

  lemma NothingPainted(p: Paint, was: seq<Byte>)
    requires p.s.bypp > 0
    ensures LinesPainted(p, was, was, p.y)
  {
  }

  /** Pixel by pixel: byte k of pixel (px, py) of the rectangle is byte k of the colour. */
  lemma PaintedPixel(p: Paint, was: seq<Byte>, now: seq<Byte>, px: nat, py: nat, k: nat)
    requires PaintOk(p, |was|) && Painted(p, was, now) && px < p.w && py < p.h && k < p.s.bypp
    ensures 0 <= At(p.s, p.x + px, p.y + py) + k < |now|
    ensures now[At(p.s, p.x + px, p.y + py) + k] == ColourByte(p.colour, k)
  {
    var i := At(p.s, p.x + px, p.y + py) + k;
    PixelInRow(p.s, p.x, p.y + py, p.w, px, k);
    RowInside(p.s, |was|, p.x, p.y + py, p.w);
    PixelPhase(px, k, p.s.bypp);
    assert PaintedAt(p, now, p.y + py, i);
  }

  /** What the bytes of a painted pixel are worth, least significant first: the colour, cut to the size
      of a pixel. */
  lemma PaintedPixelIsTheColour(p: Paint, was: seq<Byte>, now: seq<Byte>, px: nat, py: nat)
    requires PaintOk(p, |was|) && Painted(p, was, now) && px < p.w && py < p.h
    ensures var at := At(p.s, p.x + px, p.y + py);
            && 0 <= at && at + p.s.bypp <= |now|
            && LittleEndian(now[at..at + p.s.bypp])
               == p.colour % (match p.s.bypp case 1 => 0x100 case 2 => 0x1_0000 case 3 => 0x100_0000 case _ => 0x1_0000_0000)
  {
    assert 1 <= p.s.bypp <= 4;
    hide At, Painted, PaintOk, ColourByte, LittleEndian;
    var at := At(p.s, p.x + px, p.y + py);
    forall k: nat | k < p.s.bypp
      ensures ColourAt(now, at, k, p.colour)
    {
      PaintedPixel(p, was, now, px, py, k);
    }
    PixelAt(now, at, p.s.bypp, p.colour);
  }

  predicate ColourAt(now: seq<Byte>, at: int, k: nat, colour: nat) {
    0 <= at + k < |now| && now[at + k] == ColourByte(colour, k)
  }

  lemma PixelAt(now: seq<Byte>, at: int, bypp: nat, colour: nat)
    requires 1 <= bypp <= 4
    requires forall k: nat :: k < bypp ==> ColourAt(now, at, k, colour)
    ensures 0 <= at && at + bypp <= |now|
    ensures LittleEndian(now[at..at + bypp])
         == colour % (match bypp case 1 => 0x100 case 2 => 0x1_0000 case 3 => 0x100_0000 case _ => 0x1_0000_0000)
  {
    hide ColourByte, LittleEndian;
    assert ColourAt(now, at, 0, colour) && ColourAt(now, at, bypp - 1, colour);
    var pixel := now[at..at + bypp];
    forall k: nat | k < bypp
      ensures pixel[k] == ColourByte(colour, k)
    {
      assert ColourAt(now, at, k, colour);
    }
    PixelValue(pixel, colour);
  }

  lemma PixelValue(pixel: seq<Byte>, colour: nat)
    requires 1 <= |pixel| <= 4 && forall k: nat :: k < |pixel| ==> pixel[k] == ColourByte(colour, k)
    ensures LittleEndian(pixel)
         == colour % (match |pixel| case 1 => 0x100 case 2 => 0x1_0000 case 3 => 0x100_0000 case _ => 0x1_0000_0000)
  {
    LittleEndianOfFour(pixel);
    LowBytes(colour);
    hide LittleEndian;
  }

  // ---------- What is accepted ----------

  predicate PixelOn(s: Surface, px: int, py: int) {
    0 <= px < s.width && 0 <= py < s.height
  }

  /** A rectangle of pixels is accepted exactly if all of them are on the surface and no coordinate or
      side is beyond the limits of the device. */
  lemma AcceptedRectsAreOnScreen(s: Surface, x: int, y: int, w: nat, h: nat)
    requires 0 < w && 0 < h
    ensures VerifyRect(s, x, y, w, h)
       <==> && (forall px, py :: x <= px < x + w && y <= py < y + h ==> PixelOn(s, px, py))
            && x <= 5120 && w <= 5120 && y <= 2880 && h <= 2880
  {
    if forall px, py :: x <= px < x + w && y <= py < y + h ==> PixelOn(s, px, py) {
      assert PixelOn(s, x, y) && PixelOn(s, x + w - 1, y + h - 1);
    }
  }

  /** An empty one is accepted exactly if its corner is, the far edges of the surface included; one
      with a negative side never is. */
  lemma EmptyAndNegativeRects(s: Surface, x: int, y: int, w: int, h: int)
    ensures w < 0 || h < 0 ==> !VerifyRect(s, x, y, w, h)
    ensures w == 0 && h == 0 ==> (VerifyRect(s, x, y, w, h) <==> 0 <= x <= s.width && x <= 5120 && 0 <= y <= s.height && y <= 2880)
  {
  }

  // ---------- Pixels a blit leaves alone ----------

  /** A byte of an on-screen pixel lies in a stretch of a line only if the pixel does. */
  lemma PixelOffTheRow(s: Surface, x: nat, line: nat, w: nat, px: nat, py: nat, k: nat)
    requires s.width * s.bypp <= s.bypl && x + w <= s.width && px < s.width && k < s.bypp
    requires !(line == py && x <= px < x + w)
    ensures !InRow(s, x, line, w, At(s, px, py) + k)
  {
    PixelInRow(s, px, py, 1, 0, k);
    if line < py {
      RowsApart(s, x, line, px, py, w);
    } else if line > py {
      RowsApart(s, px, py, x, line, 1);
    } else if px < x {
      Times(px + 1, x, s.bypp);
      Distribute(px, 1, s.bypp);
    } else {
      Times(x + w, px, s.bypp);
      Distribute(x, w, s.bypp);
    }
  }

  /** Fill and copy change no pixel outside the rectangle they queue for the display. */
  lemma FillTouchesOnlyItsRect(p: Paint, was: seq<Byte>, now: seq<Byte>, px: nat, py: nat, k: nat)
    requires PaintOk(p, |was|) && Painted(p, was, now)
    requires px < p.s.width && py < p.s.height && k < p.s.bypp
    requires !(p.x <= px < p.x + p.w && p.y <= py < p.y + p.h)
    ensures 0 <= At(p.s, px, py) + k < |was| == |now|
    ensures now[At(p.s, px, py) + k] == was[At(p.s, px, py) + k]
  {
    hide At, Span;
    RowInside(p.s, |was|, px, py, 1);
    PixelInRow(p.s, px, py, 1, 0, k);
    var i := At(p.s, px, py) + k;
    forall line: nat | p.y <= line < p.y + p.h ensures !InRow(p.s, p.x, line, p.w, i) {
      PixelOffTheRow(p.s, p.x, line, p.w, px, py, k);
    }
  }

  lemma CopyTouchesOnlyItsRect(b: Blit, was: seq<Byte>, now: seq<Byte>, px: nat, py: nat, k: nat)
    requires BlitOk(b, |was|) && Copied(b, was, now)
    requires px < b.s.width && py < b.s.height && k < b.s.bypp
    requires !(b.x1 <= px < b.x1 + b.w && b.y1 <= py < b.y1 + b.h)
    ensures 0 <= At(b.s, px, py) + k < |was| == |now|
    ensures now[At(b.s, px, py) + k] == was[At(b.s, px, py) + k]
  {
    hide At, Span;
    RowInside(b.s, |was|, px, py, 1);
    PixelInRow(b.s, px, py, 1, 0, k);
    var i := At(b.s, px, py) + k;
    forall line: nat | b.y1 <= line < b.y1 + b.h ensures !InRow(b.s, b.x1, line, b.w, i) {
      PixelOffTheRow(b.s, b.x1, line, b.w, px, py, k);
    }
  }
}
