/** When the consumer of the SVGA command ring passes the producer: the words tell, before the run. */
module SvgaOvertaking {
  import opened MachineInts
  import opened SvgaCommands

  /** The words a command takes out of the ring. */
  function Length(r: Ring, p: nat): (n: nat)
    requires On(r, p)
    ensures n > 0
  {
    var cmd := Peek(r, p, 0);
    Header(cmd) + U32(Args(cmd, Words(r, p, Header(cmd))))
  }

  predicate IsUndebited(r: Ring, p: nat)
    requires On(r, p)
  {
    Debit(Peek(r, p, 0)) == 0
  }

  // The first command that does not end before the producer: where it starts, how many words
  // before the producer that is, and how many undebited opcodes come before it.
  datatype Edge = NoEdge | Edge(at: nat, left: nat, undebited: nat)

  /** Found by walking the commands that the words lay out, without counting any debits. */
  function EdgeOf(r: Ring, p: nat, left: nat, loops: nat): (e: Edge)
    requires On(r, p)
    ensures e.Edge? ==> On(r, e.at) && e.left + e.undebited <= left
    decreases loops
  {
    if loops == 0 then NoEdge else
      var n := Length(r, p);
      if n > left then Edge(p, left, 0) else
        match EdgeOf(r, Forward(r, p, n), left - n, loops - 1)
        case NoEdge => NoEdge
        case Edge(at, l, undebited) => Edge(at, l, undebited + if IsUndebited(r, p) then 1 else 0)
  }

  /** The command at p goes through when the count says so many words are left. */
  predicate GoesThrough(r: Ring, p: nat, count: int)
    requires On(r, p)
  {
    var cmd := Peek(r, p, 0);
    && 0 < count && Debit(cmd) <= count
    && 0 <= S32(count - Debit(cmd) - Args(cmd, Words(r, p, Header(cmd))))
  }

  /** The command at the edge goes through, with one word of credit for each undebited opcode. */
  predicate Overtakes(r: Ring, p: nat, len: nat, loops: nat)
    requires On(r, p)
  {
    var e := EdgeOf(r, p, len, loops);
    e.Edge? && GoesThrough(r, e.at, e.left + e.undebited)
  }

  lemma CommandInside(r: Ring, p: nat, left: nat, credit: nat)
    requires On(r, p) && left + credit < TWO_TO_THE_31 && Length(r, p) <= left
    ensures var it := Iterate(r, p, left + credit);
            && it.Done? && it.used == Length(r, p)
            && it.left == left - Length(r, p) + credit + if IsUndebited(r, p) then 1 else 0
  {
    hide Words, Peek, EffectOf, Args;
    var cmd := Peek(r, p, 0);
    ArgsFit(cmd, Words(r, p, Header(cmd)));
  }

  lemma CommandAtTheEdge(r: Ring, p: nat, count: int)
    requires On(r, p) && 0 < count < TWO_TO_THE_31
    ensures Iterate(r, p, count).Done? <==> GoesThrough(r, p, count)
    ensures Iterate(r, p, count).Done? ==> Iterate(r, p, count).used == Length(r, p)
  {
    hide Words, Peek, EffectOf, Args;
  }

  lemma {:induction false} EdgeDecides(r: Ring, p: nat, left: nat, credit: nat, loops: nat)
    requires On(r, p) && left + credit < TWO_TO_THE_31
    ensures var e := EdgeOf(r, p, left, loops);
            Run(r, p, left + credit, loops).used > left
            <==> e.Edge? && GoesThrough(r, e.at, e.left + e.undebited + credit)
    decreases loops
  {
    hide Length, GoesThrough, IsUndebited, Iterate;
    if loops > 0 {
      if Length(r, p) <= left {
        var n, more := Length(r, p), credit + if IsUndebited(r, p) then 1 else 0;
        CommandInside(r, p, left, credit);
        EdgeDecides(r, Forward(r, p, n), left - n, more, loops - 1);
      } else if left + credit > 0 {
        CommandAtTheEdge(r, p, left + credit);
      } else {
        NothingGoesThrough(r, p);
      }
    }
  }

  lemma NothingGoesThrough(r: Ring, p: nat)
    requires On(r, p)
    ensures !GoesThrough(r, p, 0)
  {
  }

  /** The consumer passes the producer if and only if the first command that the words lay out
      across it goes through on the credit of the undebited opcodes before it. */
  lemma ConsumerPassesTheProducer(r: Ring, p: nat, len: nat, loops: nat)
    requires On(r, p) && len < TWO_TO_THE_31
    ensures Run(r, p, len, loops).used > len <==> Overtakes(r, p, len, loops)
  {
    hide Run, EdgeOf, GoesThrough;
    EdgeDecides(r, p, len, 0, loops);
  }

  /** A queue of commands that debit every word never lets it. */
  lemma AccountedStaysBehind(r: Ring, p: nat, len: nat, loops: nat)
    requires On(r, p) && len < FIFO_BYTES && Accounted(Words(r, p, len))
    ensures Run(r, p, len, loops).used <= len && !Overtakes(r, p, len, loops)
  {
    RunTakes(r, p, len, loops);
    ConsumerPassesTheProducer(r, p, len, loops);
  }

  // ---------- The first undebited command ----------

  predicate WholeCommands(front: seq<Word>) {
    Accounted(front) && Drain(front).1 == []
  }

  lemma ParsedLength(r: Ring, p: nat, n: nat)
    requires On(r, p) && n > 0 && Parse(Words(r, p, n)).Command?
    ensures Length(r, p) == Parse(Words(r, p, n)).used && !IsUndebited(r, p)
  {
    hide EffectOf, Args, Words, Peek;
    WordsAt(r, p, n, 0);
    var cmd := Peek(r, p, 0);
    if 0 < Debit(cmd) <= n {
      WordsPrefix(r, p, n, Debit(cmd));
      ArgsFit(cmd, Words(r, p, Debit(cmd)));
    }
  }

  lemma FirstOfWholeCommands(q: seq<Word>)
    requires WholeCommands(q) && q != []
    ensures Parse(q).Command? && WholeCommands(q[Parse(q).used..])
    ensures |Drain(q).0| == 1 + |Drain(q[Parse(q).used..]).0|
  {
    hide Parse;
  }

  lemma NoCommands()
    ensures Drain([]).0 == []
  {
  }

  lemma EdgeInside(r: Ring, p: nat, left: nat, loops: nat)
    requires On(r, p) && loops > 0 && Length(r, p) <= left && !IsUndebited(r, p)
    ensures EdgeOf(r, p, left, loops) == EdgeOf(r, Forward(r, p, Length(r, p)), left - Length(r, p), loops - 1)
  {
    hide Length, IsUndebited, Forward;
  }

  /** Whole commands that debit every word leave the edge where the words behind them put it. */
  lemma {:induction false} EdgeBehind(r: Ring, p: nat, n: nat, left: nat, loops: nat)
    requires On(r, p) && WholeCommands(Words(r, p, n))
    requires loops >= |Drain(Words(r, p, n)).0|
    ensures EdgeOf(r, p, n + left, loops)
         == EdgeOf(r, Forward(r, p, n), left, loops - |Drain(Words(r, p, n)).0|)
    decreases n
  {
    hide Length, IsUndebited, Parse, Words, WholeCommands, Drain, EdgeOf, Forward;
    if n == 0 {
      WordsNone(r, p);
      NoCommands();
    } else {
      var front := Words(r, p, n);
      FirstOfWholeCommands(front);
      ParsedLength(r, p, n);
      var used := Parse(front).used;
      WordsSuffix(r, p, used, n - used);
      ForwardAdds(r, p, used, n - used);
      EdgeInside(r, p, n + left, loops);
      EdgeBehind(r, Forward(r, p, used), n - used, left, loops - 1);
    }
  }

  /** An opcode that is not debited and takes no arguments. */
  predicate Plain(cmd: Word) {
    Debit(cmd) == 0 && cmd != RECT_ROP_FILL && cmd != RECT_ROP_COPY && cmd != SURFACE_ALPHA_BLEND
  }

  function Arguments(cmd: Word): nat {
    if cmd == RECT_ROP_FILL then 6 else if cmd == RECT_ROP_COPY then 7
    else if cmd == SURFACE_ALPHA_BLEND then 12 else 0
  }

  /** After whole commands that debit every word comes an undebited one, which has the last words of
      the queue for its arguments, or fewer than it needs.  With too few words before the producer
      it waits; with one too few it goes through and passes the producer; with exactly enough the
      consumer passes the producer if and only if the stale word behind it is an undebited opcode
      without arguments, and another turn is left to take it. */
  lemma FirstUndebited(r: Ring, p: nat, n: nat, left: nat, loops: nat)
    requires On(r, p) && n + left < FIFO_BYTES && 0 < left
    requires WholeCommands(Words(r, p, n)) && loops > |Drain(Words(r, p, n)).0|
    requires var cmd := Peek(r, p, n); Debit(cmd) == 0 && left <= 1 + Arguments(cmd)
    ensures var a := Arguments(Peek(r, p, n));
            var passes := Run(r, p, n + left, loops).used > n + left;
            && (left < a ==> !passes)
            && (left == a ==> passes)
            && (left == a + 1 ==> (passes <==> loops > |Drain(Words(r, p, n)).0| + 1 && Plain(Peek(r, p, n + left))))
  {
    hide EdgeOf, Run, Words, Peek, Drain, WholeCommands, Forward, GoesThrough, Arguments, Plain;
    var turns := loops - |Drain(Words(r, p, n)).0|;
    var at := Forward(r, p, n);
    PeekThere(r, p, n);
    ForwardAdds(r, p, n, left);
    PeekThere(r, p, n + left);
    EdgeBehind(r, p, n, left, loops);
    ConsumerPassesTheProducer(r, p, n + left, loops);
    UndebitedEdge(r, at, left, turns);
  }

  lemma PeekThere(r: Ring, p: nat, n: nat)
    requires On(r, p)
    ensures Peek(r, Forward(r, p, n), 0) == Peek(r, p, n)
  {
  }

  lemma UndebitedEdge(r: Ring, at: nat, left: nat, turns: nat)
    requires On(r, at) && 0 < left < FIFO_BYTES && turns > 0
    requires IsUndebited(r, at) && left <= 1 + Arguments(Peek(r, at, 0))
    ensures var a, e := Arguments(Peek(r, at, 0)), EdgeOf(r, at, left, turns);
            && (left < a ==> !(e.Edge? && GoesThrough(r, e.at, e.left + e.undebited)))
            && (left == a ==> e.Edge? && GoesThrough(r, e.at, e.left + e.undebited))
            && (left == a + 1 ==>
                  (e.Edge? && GoesThrough(r, e.at, e.left + e.undebited)
                   <==> turns > 1 && Plain(Peek(r, Forward(r, at, left), 0))))
  {
    var a := Arguments(Peek(r, at, 0));
    UndebitedLength(r, at);
    hide Length, Words, Peek, Forward;
    if left == a + 1 && turns > 1 {
      StaleGoesThrough(r, Forward(r, at, left));
      assert EdgeOf(r, Forward(r, at, left), 0, turns - 1) == Edge(Forward(r, at, left), 0, 0);
    }
  }

  lemma UndebitedLength(r: Ring, p: nat)
    requires On(r, p) && IsUndebited(r, p)
    ensures Length(r, p) == 1 + Arguments(Peek(r, p, 0))
    ensures forall count: int :: 0 < count < FIFO_BYTES ==> (GoesThrough(r, p, count) <==> Arguments(Peek(r, p, 0)) <= count)
  {
    hide Words, Peek;
  }

  /** With a count of one, only an undebited opcode without arguments goes through. */
  lemma StaleGoesThrough(r: Ring, p: nat)
    requires On(r, p)
    ensures GoesThrough(r, p, 1) <==> Plain(Peek(r, p, 0))
  {
    hide Words, Peek;
  }

  /** One published fence, with zeros or fences behind it, sends the consumer as many words on as
      the run takes turns. */
  lemma {:induction false} AFenceOvertakesTheProducer(r: Ring, p: nat, len: nat, loops: nat)
    requires On(r, p) && 0 < len < TWO_TO_THE_31
    requires forall i :: 4 <= i < |r.memory| ==> r.memory[i] == FENCE || r.memory[i] == INVALID_CMD
    ensures Run(r, p, len, loops).used == loops
    decreases loops
  {
    if loops > 0 {
      hide Words, Forward, Peek;
      NopTurn(r, p, len);
      hide Iterate;
      AFenceOvertakesTheProducer(r, Forward(r, p, 1), len, loops - 1);
    }
  }

  lemma NopTurn(r: Ring, p: nat, len: nat)
    requires On(r, p) && 0 < len < TWO_TO_THE_31
    requires forall i :: 4 <= i < |r.memory| ==> r.memory[i] == FENCE || r.memory[i] == INVALID_CMD
    ensures Iterate(r, p, len) == Done(1, len, Nop, true, false)
  {
    hide Words;
  }
}
