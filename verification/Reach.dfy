/** How far DMALPEND jumps back.  The distance is an eight-bit number of bytes (section 4.3 of
    ARM DDI 0424), so the body of a loop may take 255 bytes at most. */
module Reach {
  import opened Pl330
  import opened Turns
  import opened Streams
  import opened Coalescing
  import MemoryCopy
  import BufferCopy
  import ZeroFill
  import RegisterSegments
  import QspiSegments
  import UartSegments
  import I2cSegments
  import I2cCommands
  import I2cRead
  import I2cWrite
  import opened Requests

  const MAX_JUMP: nat := 255

  /** The bytes that an instruction takes. */
  function InstrSize(i: Instr): (n: nat)
    ensures 1 <= n
  {
    match i
    case MovSar(_) => 6
    case MovDar(_) => 6
    case MovCcr(_) => 6
    case Ld(_) => 1
    case St(_) => 1
    case Stz => 1
    case Wmb => 1
    case End => 1
    case _ => 2
  }

  function CodeSize(code: seq<Instr>): nat {
    if code == [] then 0 else InstrSize(code[0]) + CodeSize(code[1..])
  }

  function Size(p: Prog): nat {
    match p
    case Skip => 0
    case Op(i) => InstrSize(i)
    case Seq(a, b) => Size(a) + Size(b)
    case Loop(n, body, end) => InstrSize(Lp(n)) + Size(body) + InstrSize(LpEnd(end))
  }

  /** Every loop end reaches the first instruction of its loop. */
  predicate Jumps(p: Prog) {
    match p
    case Skip => true
    case Op(_) => true
    case Seq(a, b) => Jumps(a) && Jumps(b)
    case Loop(_, body, _) => Jumps(body) && Size(body) <= MAX_JUMP
  }

  lemma {:induction false} CodeSizeConcat(a: seq<Instr>, b: seq<Instr>)
    ensures CodeSize(a + b) == CodeSize(a) + CodeSize(b)
  {
    if a == [] {
      assert a + b == b;
    } else {
      assert (a + b)[1..] == a[1..] + b;
      CodeSizeConcat(a[1..], b);
    }
  }

  /** What lies between a loop's two ends in the code is as long as Size says. */
  lemma {:induction false} SizeOfCode(p: Prog)
    ensures CodeSize(Flatten(p)) == Size(p)
  {
    match p
    case Skip =>
    case Op(i) => assert [i][1..] == [];
    case Seq(a, b) =>
      SizeOfCode(a);
      SizeOfCode(b);
      CodeSizeConcat(Flatten(a), Flatten(b));
    case Loop(n, body, end) =>
      SizeOfCode(body);
      CodeSizeConcat([Lp(n)] + Flatten(body), [LpEnd(end)]);
      CodeSizeConcat([Lp(n)], Flatten(body));
      assert [Lp(n)][1..] == [] && [LpEnd(end)][1..] == [];
  }

  // ---- Repetitions ----

  lemma {:induction false} ChunkedJumps(n: nat, body: Prog, end: Form)
    ensures Jumps(Chunked(n, body, end)) <==> n == 0 || (Jumps(body) && (n == 1 || Size(body) <= MAX_JUMP))
    decreases n
  {
    if n > 0 {
      ChunkedJumps(n - Pl330.Turns(n), body, end);
    }
  }

  lemma NestedJumps(count: nat, turn: Prog)
    requires Size(turn) <= MAX_JUMP - 4 || MAX_JUMP < Size(turn)
    ensures Jumps(Nested(count, turn)) <==> count == 0 || (Jumps(turn) && (count == 1 || Size(turn) <= MAX_JUMP))
  {
    ChunkedJumps(count / 256, Loop(256, turn, Plain), Plain);
    ChunkedJumps(count % 256, turn, Plain);
  }

  lemma {:induction false} CopiesSize(n: nat, i: Instr)
    requires InstrSize(i) == 1
    ensures Jumps(Copies(n, Op(i))) && Size(Copies(n, Op(i))) == n
  {
    if n > 0 { CopiesSize(n - 1, i); }
  }

  lemma HandshakeSize(form: Form, periph: nat)
    ensures Jumps(Handshake(form, periph)) && Size(Handshake(form, periph)) == if form == Plain then 0 else 4
  {
    var f, w := Op(FlushP(periph)), Op(Wfp(periph, RequestOf(form)));
    assert Size(f) == 2 && Size(w) == 2 && Jumps(f) && Jumps(w);
  }

  lemma TurnSize(form: Form, periph: nat, loads: nat, stores: nat)
    ensures Jumps(Turn(form, periph, loads, stores))
    ensures Size(Turn(form, periph, loads, stores)) == (if form == Plain then 0 else 4) + loads + stores
  {
    CopiesSize(loads, Ld(form));
    CopiesSize(stores, St(form));
    HandshakeSize(form, periph);
  }

  lemma {:induction false} PhaseJumps(c: Ccr, p: Prog)
    ensures Jumps(Phase(c, p)) <==> Jumps(p)
  {
    assert Jumps(Op(MovCcr(c)));
  }

  // ---- The generators ----

  lemma OneBurstJumps(size: nat, len: nat)
    ensures Jumps(MemoryCopy.OneBurst(size, len)) && Jumps(MemoryCopy.LoadStore()) && Size(MemoryCopy.LoadStore()) == 2
  {
    assert Jumps(Op(Ld(Plain))) && Jumps(Op(St(Plain))) && Size(Op(Ld(Plain))) == 1 && Size(Op(St(Plain))) == 1;
    assert Jumps(Op(MovCcr(MemoryCopy.CopyCcr(size, len))));
  }

  lemma CopySegmentJumps(dst: nat, src: nat, size: nat)
    ensures Jumps(MemoryCopy.CopySegment(dst, src, size))
  {
    var bursts := MemoryCopy.BurstCount(src, size);
    var a, b := MemoryCopy.AlignPhase(src, size), MemoryCopy.BurstPhase(bursts);
    var c, t := MemoryCopy.CorrectionPhase(dst, src, bursts), MemoryCopy.TailPhase(src, size);
    OneBurstJumps(1, MemoryCopy.AlignCount(src, size));
    OneBurstJumps(8, bursts % 16);
    OneBurstJumps(1, (size - MemoryCopy.AlignCount(src, size)) % 8);
    ChunkedJumps(bursts / 16, MemoryCopy.LoadStore(), Plain);
    assert Jumps(Op(MovCcr(MemoryCopy.CopyCcr(8, 16))));
    assert Jumps(b) by { assert Jumps(MemoryCopy.FullBursts(bursts)) && Jumps(MemoryCopy.LastBurst(bursts)); }
    assert Jumps(c) by {
           assert Jumps(Op(St(Plain))) && Jumps(Op(MovCcr(MemoryCopy.CopyCcr(1, MemoryCopy.CorrectCount(dst, src))))); }
    assert Jumps(a) && Jumps(Seq(c, t));
    assert Jumps(Seq(b, Seq(c, t)));
    assert Jumps(MemoryCopy.CopyPhases(dst, src, size));
    assert Jumps(Op(MovSar(src))) && Jumps(Op(MovDar(dst)));
    assert Jumps(MemoryCopy.Addresses(dst, src));
  }

  /** Whatever the segments, a copy. */
  lemma {:induction false} PairProgramJumps(dst: seq<Segment>, src: seq<Segment>)
    ensures Jumps(BufferCopy.PairProgram(dst, src))
    decreases Total(dst)
  {
    var n := BufferCopy.Piece(dst, src);
    if n != 0 {
      BufferCopy.TrimTotal(dst, n);
      CopySegmentJumps(dst[0].pa, src[0].pa, n);
      PairProgramJumps(Trim(dst, n), Trim(src, n));
    }
  }

  lemma {:induction false} NestsJump(n: nat)
    ensures Jumps(ZeroFill.Nests(n))
  {
    if n > 0 {
      ZeroFill.NestFits(n);
      NestsJump(n - ZeroFill.Outer(n) * ZeroFill.Inner(n));
      assert Jumps(Op(Stz)) && Size(Op(Stz)) == 1;
      var inner := OnceOrLoop(ZeroFill.Inner(n), Op(Stz), Plain);
      assert Jumps(inner) && Size(inner) <= 5;
      assert Jumps(ZeroFill.Nest(n));
    }
  }

  lemma ZeroSegmentJumps(pa: nat, size: nat)
    ensures Jumps(ZeroFill.ZeroSegment(pa, size))
  {
    var bursts := MemoryCopy.BurstCount(pa, size);
    var a, f := ZeroFill.ZeroPhase(1, MemoryCopy.AlignCount(pa, size)), ZeroFill.ZeroFullBursts(bursts);
    var l, t := ZeroFill.ZeroPhase(8, bursts % 16), ZeroFill.ZeroPhase(1, (size - MemoryCopy.AlignCount(pa, size)) % 8);
    assert Jumps(Op(Stz));
    PhaseJumps(ZeroFill.ZeroCcr(1, MemoryCopy.AlignCount(pa, size)), Op(Stz));
    PhaseJumps(ZeroFill.ZeroCcr(8, bursts % 16), Op(Stz));
    PhaseJumps(ZeroFill.ZeroCcr(1, (size - MemoryCopy.AlignCount(pa, size)) % 8), Op(Stz));
    NestsJump(bursts / 16);
    PhaseJumps(ZeroFill.ZeroCcr(8, 16), ZeroFill.Nests(bursts / 16));
    assert Jumps(a) && Jumps(f) && Jumps(l) && Jumps(t);
    assert Jumps(Seq(f, Seq(l, t)));
    assert Jumps(Op(MovDar(pa)));
  }

  lemma RegisterSegmentJumps(d: Direction, w: nat, pa: nat, count: nat)
    ensures Jumps(RegisterSegments.RegisterSegment(d, w, pa, count))
  {
    var turn := RegisterSegments.ElementTurn(d);
    TurnSize(Plain, 0, Loads(d, 1, 1), Stores(d, 1, 1));
    NestedJumps(count / 16, turn);
    PhaseJumps(RegisterSegments.ElementCcr(d, w, 16), Nested(count / 16, turn));
    PhaseJumps(RegisterSegments.ElementCcr(d, w, count % 16), turn);
    assert Jumps(RegisterSegments.Elements(d, w, count)) && Jumps(Op(MoveMemory(d, pa)));
  }

  lemma I2cSegmentJumps(d: Direction, periph: nat, threshold: nat, pa: nat, n: nat)
    ensures Jumps(I2cSegments.I2cSegment(d, periph, threshold, pa, n))
  {
    var burst := I2cSegments.I2cBurst(threshold);
    var bursts, singles := I2cSegments.I2cBurstCount(threshold, n), I2cSegments.I2cSingleCount(threshold, n);
    TurnSize(B, periph, Loads(d, 1, burst), Stores(d, 1, burst));
    TurnSize(S, periph, Loads(d, 1, 1), Stores(d, 1, 1));
    ChunkedJumps(bursts, StreamTurn(d, B, periph, 1, burst), Plain);
    ChunkedJumps(singles, StreamTurn(d, S, periph, 1, 1), Plain);
    PhaseJumps(I2cSegments.I2cCcr(d, burst), Chunked(bursts, StreamTurn(d, B, periph, 1, burst), Plain));
    PhaseJumps(I2cSegments.I2cCcr(d, 1), Chunked(singles, StreamTurn(d, S, periph, 1, 1), Plain));
    assert Jumps(I2cSegments.I2cPhases(d, periph, threshold, n)) && Jumps(Op(MoveMemory(d, pa)));
  }

  lemma UartBurstJumps(periph: nat, burst: nat)
    ensures Jumps(UartSegments.UartBurst(periph, burst)) && Size(UartSegments.UartBurst(periph, burst)) == 10
  {
    assert Jumps(Op(Ld(B))) && Jumps(Op(St(B))) && Size(Op(Ld(B))) == 1 && Size(Op(St(B))) == 1;
    assert Jumps(UartSegments.Sixteen()) && Size(UartSegments.Sixteen()) == 2;
    HandshakeSize(B, periph);
    var inner := Loop(burst / 16, UartSegments.Sixteen(), B);
    assert Size(inner) == 6 && Jumps(inner);
  }

  lemma UartSegmentJumps(d: Direction, periph: nat, burst: nat, pa: nat, n: nat)
    ensures Jumps(UartSegments.UartSegment(d, periph, burst, pa, n))
  {
    forall count: nat
      ensures Jumps(UartSegments.UartSingles(d, periph, count)) &&
              Jumps(UartSegments.UartBursts(d, periph, burst, count))
    {
      UartPartsJump(d, periph, burst, count);
    }
    assert Jumps(UartSegments.UartPhases(d, periph, burst, n)) && Jumps(Op(MoveMemory(d, pa)));
  }

  lemma UartPartsJump(d: Direction, periph: nat, burst: nat, count: nat)
    ensures Jumps(UartSegments.UartSingles(d, periph, count)) && Jumps(UartSegments.UartBursts(d, periph, burst, count))
  {
    TurnSize(S, periph, Loads(d, 1, 1), Stores(d, 1, 1));
    ChunkedJumps(count, StreamTurn(d, S, periph, 1, 1), S);
    PhaseJumps(UartSegments.ByteCcr(d, 1), Chunked(count, StreamTurn(d, S, periph, 1, 1), S));
    UartBurstJumps(periph, burst);
    ChunkedJumps(count, UartSegments.UartBurst(periph, burst), B);
    PhaseJumps(UartSegments.ByteCcr(d, 16), Chunked(count, UartSegments.UartBurst(periph, burst), B));
  }

  // ---- Flash requests are not always short enough ----

  /** A request is written out word by word, so that of 1024 bytes and more does not fit in a
      loop. */
  lemma PieceTurnSize(d: Direction, form: Form, periph: nat, k: nat)
    requires form != Plain
    ensures Jumps(QspiSegments.PieceTurn(d, form, periph, k))
    ensures if k <= 9 then Size(QspiSegments.PieceTurn(d, form, periph, k)) <= MAX_JUMP - 4
            else MAX_JUMP < Size(QspiSegments.PieceTurn(d, form, periph, k))
  {
    var mem, reg := QspiSegments.PieceMultiple(k), QspiSegments.Pow2(k) / 4;
    TurnSize(form, periph, Loads(d, mem, reg), Stores(d, mem, reg));
    QspiSegments.SmallPowers();
    assert QspiSegments.Pow2(6) == 64 && QspiSegments.Pow2(8) == 256 && QspiSegments.Pow2(10) == 1024;
    if k <= 9 {
      QspiSegments.Pow2Grows(k, 9);
      assert QspiSegments.Pow2(9) == 512;
      FewLoads(k);
    } else {
      QspiSegments.Pow2Grows(10, k);
    }
  }

  lemma FewLoads(k: nat)
    requires QspiSegments.Pow2(k) <= 512
    ensures QspiSegments.PieceMultiple(k) <= 32
  {
    assert QspiSegments.Beats8(k) <= 512;
  }

  lemma PiecesJump(d: Direction, form: Form, periph: nat, k: nat, count: nat)
    requires form != Plain
    ensures Jumps(QspiSegments.Pieces(d, form, periph, k, count)) <==> count <= 1 || k <= 9
  {
    var turn := QspiSegments.PieceTurn(d, form, periph, k);
    PieceTurnSize(d, form, periph, k);
    ChunkedJumps(count, turn, Plain);
    NestedJumps(count, turn);
    PhaseJumps(QspiSegments.PieceCcr(d, k), QspiSegments.Times(d, count, turn));
  }

  /** No loop of a flash segment is of requests of 1024 bytes or more. */
  predicate QspiShort(z: QspiSegments.Sizes, pa: nat, n: nat) {
    var left := if QspiSegments.AlignSize(pa) <= n then n - QspiSegments.AlignSize(pa) else 0;
    && (QspiSegments.BurstCount(z, left) <= 1 || z.burst <= 9)
    && (QspiSegments.SingleCount(z, left) <= 1 || z.single <= 9)
  }

  lemma QspiSegmentJumps(d: Direction, periph: nat, z: QspiSegments.Sizes, pa: nat, n: nat)
    ensures Jumps(QspiSegments.QspiSegment(d, periph, z, pa, n)) <==> QspiShort(z, pa, n)
  {
    var left := if QspiSegments.AlignSize(pa) <= n then n - QspiSegments.AlignSize(pa) else 0;
    var bursts, singles := QspiSegments.BurstCount(z, left), QspiSegments.SingleCount(z, left);
    PiecesJump(d, B, periph, z.burst, bursts);
    PiecesJump(d, S, periph, z.single, singles);
    PieceTurnSize(d, S, periph, 2);
    PhaseJumps(QspiSegments.PieceCcr(d, 2), QspiSegments.PieceTurn(d, S, periph, 2));
    assert Jumps(QspiSegments.QspiAlign(d, periph, pa)) && Jumps(Op(MoveMemory(d, pa)));
    var data := Seq(QspiSegments.Pieces(d, B, periph, z.burst, bursts),
                    QspiSegments.Pieces(d, S, periph, z.single, singles));
    assert Jumps(data) <==> QspiShort(z, pa, n);
    assert Jumps(QspiSegments.QspiPhases(d, periph, z, pa, left)) <==> Jumps(data);
  }

  /** Two bursts of 1024 bytes, as a loop that cannot be closed. */
  lemma LongBursts(d: Direction, periph: nat)
    ensures QspiSegments.Suitable(QspiSegments.Sizes(2, 10), 0, 2048)
    ensures QspiSegments.QspiSplits(QspiSegments.Sizes(2, 10), 0, 2048)
    ensures !Jumps(QspiSegments.QspiSegment(d, periph, QspiSegments.Sizes(2, 10), 0, 2048))
  {
    QspiSegments.SmallPowers();
    assert QspiSegments.Pow2(6) == 64 && QspiSegments.Pow2(8) == 256 && QspiSegments.Pow2(10) == 1024;
    assert QspiSegments.BurstCount(QspiSegments.Sizes(2, 10), 2048) == 2;
    QspiSegmentJumps(d, periph, QspiSegments.Sizes(2, 10), 0, 2048);
  }

  // ---- Whole requests ----

  predicate Short(g: Generator, s: Segment) {
    g.Qspi? ==> QspiShort(g.sizes, s.pa, s.size)
  }

  predicate AllShort(g: Generator, segs: seq<Segment>) {
    segs == [] || (Short(g, segs[0]) && AllShort(g, segs[1..]))
  }

  lemma SegmentJumps(g: Generator, s: Segment)
    ensures Jumps(SegmentProgram(g, s)) <==> Short(g, s)
  {
    match g
    case Zeroing => ZeroSegmentJumps(s.pa, s.size);
    case Register(d, w) => RegisterSegmentJumps(d, w, s.pa, if w == 0 then 0 else s.size / w);
    case Qspi(d, p, z) => QspiSegmentJumps(d, p, z, s.pa, s.size);
    case Uart(d, p, b) => UartSegmentJumps(d, p, b, s.pa, s.size);
    case I2c(d, p, th) => I2cSegmentJumps(d, p, th, s.pa, s.size);
  }

  lemma {:induction false} EachJumps(g: Generator, segs: seq<Segment>)
    ensures Jumps(EachSegment(g, segs)) <==> AllShort(g, segs)
  {
    if segs != [] {
      SegmentJumps(g, segs[0]);
      EachJumps(g, segs[1..]);
    }
  }

  /** The loops of a request reach back to their beginnings: always, except that of a flash
      controller set to requests of 1024 bytes or more if a segment takes several of them. */
  lemma BufferJumps(g: Generator, reg: nat, segs: seq<Segment>)
    ensures Jumps(BufferProgram(g, reg, segs)) <==> AllShort(g, segs)
  {
    EachJumps(g, segs);
    assert Jumps(Preface(g, reg));
  }

  lemma {:induction false} BytesShort(g: Generator, segs: seq<Segment>)
    requires !g.Qspi?
    ensures AllShort(g, segs)
  {
    if segs != [] { BytesShort(g, segs[1..]); }
  }

  lemma CustomJumps(reg: nat, periph: nat, addr: nat, count: nat, first: bool)
    ensures Jumps(I2cCommands.Custom(reg, periph, addr, count, first))
  {
    var loops := Chunked(count, Turn(S, periph, 1, 1), Plain);
    TurnSize(S, periph, 1, 1);
    ChunkedJumps(count, Turn(S, periph, 1, 1), Plain);
    assert Jumps(Op(MovDar(reg))) && Jumps(Op(MovSar(addr))) && Jumps(Op(MovCcr(I2cCommands.CommandCcr())));
    assert Jumps(Seq(if first then Op(MovCcr(I2cCommands.CommandCcr())) else Skip, loops));
  }

  lemma {:induction false} RoundsJump(m: I2cRead.Master, txLeft: nat, pieces: seq<seq<Segment>>)
    ensures Jumps(I2cRead.Rounds(m, txLeft, pieces))
    decreases pieces
  {
    if pieces != [] {
      var count := MemoryCopy.Min(txLeft, m.Half());
      var g := I2c(ToMem, m.rxPeriph, m.threshold);
      BytesShort(g, pieces[0]);
      BufferJumps(g, m.reg, pieces[0]);
      CustomJumps(m.reg, m.TxPeriph(), m.scratch, I2cRead.Decrement(count), true);
      CustomJumps(m.reg, m.TxPeriph(), m.scratch + 8, 1, false);
      CustomJumps(m.reg, m.TxPeriph(), m.scratch, count, true);
      assert Jumps(I2cRead.Refill(m, txLeft));
      RoundsJump(m, txLeft - count, pieces[1..]);
    }
  }

  /** A read as bus master. */
  lemma ReadMasterJumps(m: I2cRead.Master, size: nat, pieces: seq<seq<Segment>>)
    ensures Jumps(I2cRead.ReadMaster(m, size, pieces))
  {
    var count := MemoryCopy.Min(size, m.fifo);
    CustomJumps(m.reg, m.TxPeriph(), m.scratch + 12, 1, true);
    CustomJumps(m.reg, m.TxPeriph(), m.scratch + 4, 1, true);
    CustomJumps(m.reg, m.TxPeriph(), m.scratch, if count > 2 then count - 2 else 0, false);
    CustomJumps(m.reg, m.TxPeriph(), m.scratch, I2cRead.Decrement(count), false);
    CustomJumps(m.reg, m.TxPeriph(), m.scratch + 8, 1, false);
    assert Jumps(I2cRead.Prefill(m, size));
    RoundsJump(m, size - count, pieces);
  }

  /** A write as bus master. */
  lemma WriteMasterJumps(w: I2cWrite.Writer, size: nat, segs: seq<Segment>)
    ensures Jumps(I2cWrite.WriteMaster(w, size, segs))
  {
    var n := I2cWrite.MiddleSize(w, size);
    var g := I2c(FromMem, w.periph, w.threshold);
    CustomJumps(w.reg, w.periph, w.scratch + 12, 1, true);
    CustomJumps(w.reg, w.periph, w.scratch + 4, 1, true);
    CustomJumps(w.reg, w.periph, w.scratch + 8, 1, n != 0);
    BytesShort(g, segs);
    BufferJumps(g, w.reg, segs);
    assert Jumps(I2cWrite.MiddleProgram(w, n, segs)) && Jumps(I2cWrite.LastProgram(w, n)) &&
           Jumps(I2cWrite.FirstProgram(w));
  }
}
