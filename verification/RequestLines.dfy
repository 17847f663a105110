/** Which request lines the code of a program names, whether it is ever executed or not. */
module RequestLines {
  import opened Pl330
  import opened Turns
  import opened Streams
  import opened Coalescing
  import opened Requests
  import MemoryCopy
  import ZeroFill
  import RegisterSegments
  import QspiSegments
  import UartSegments
  import I2cSegments
  import I2cCommands
  import I2cRead
  import I2cWrite

  /** The instruction does not name a line, or one of these. */
  predicate Names(i: Instr, periphs: set<nat>) {
    (i.FlushP? || i.Wfp?) ==> i.periph in periphs
  }

  predicate Keeps(p: Prog, periphs: set<nat>) {
    match p
    case Skip => true
    case Op(i) => Names(i, periphs)
    case Seq(a, b) => Keeps(a, periphs) && Keeps(b, periphs)
    case Loop(_, body, _) => Keeps(body, periphs)
  }

  /** The same of every instruction of the code. */
  lemma {:induction false} CodeNames(p: Prog, periphs: set<nat>)
    ensures Keeps(p, periphs) <==> forall i | i in Flatten(p) :: Names(i, periphs)
  {
    match p
    case Skip =>
    case Op(i) => assert i in Flatten(p);
    case Seq(a, b) =>
      CodeNames(a, periphs);
      CodeNames(b, periphs);
      assert forall i | i in Flatten(a) || i in Flatten(b) :: i in Flatten(p);
    case Loop(n, body, end) =>
      CodeNames(body, periphs);
      assert forall i | i in Flatten(body) :: i in Flatten(p);
  }

  // ---- Repetitions ----

  lemma {:induction false} ChunkedKeeps(n: nat, body: Prog, end: Form, periphs: set<nat>)
    requires Keeps(body, periphs)
    ensures Keeps(Chunked(n, body, end), periphs)
    decreases n
  {
    if n > 0 { ChunkedKeeps(n - Pl330.Turns(n), body, end, periphs); }
  }

  lemma {:induction false} NestedKeeps(count: nat, turn: Prog, periphs: set<nat>)
    requires Keeps(turn, periphs)
    ensures Keeps(Nested(count, turn), periphs)
  {
    ChunkedKeeps(count / 256, Loop(256, turn, Plain), Plain, periphs);
    ChunkedKeeps(count % 256, turn, Plain, periphs);
  }

  lemma {:induction false} CopiesKeep(n: nat, i: Instr, periphs: set<nat>)
    requires Names(i, periphs)
    ensures Keeps(Copies(n, Op(i)), periphs)
  {
    if n > 0 { CopiesKeep(n - 1, i, periphs); }
  }

  lemma {:induction false} TurnKeeps(form: Form, periph: nat, loads: nat, stores: nat, periphs: set<nat>)
    requires form == Plain || periph in periphs
    ensures Keeps(Handshake(form, periph), periphs) && Keeps(Turn(form, periph, loads, stores), periphs)
  {
    CopiesKeep(loads, Ld(form), periphs);
    CopiesKeep(stores, St(form), periphs);
    assert form != Plain ==> Keeps(Op(FlushP(periph)), periphs) && Keeps(Op(Wfp(periph, RequestOf(form))), periphs);
  }

  lemma {:induction false} PhaseKeeps(c: Ccr, p: Prog, periphs: set<nat>)
    requires Keeps(p, periphs)
    ensures Keeps(Phase(c, p), periphs)
  {
    assert Keeps(Op(MovCcr(c)), periphs);
  }

  // ---- The generators ----

  lemma {:induction false} NestsKeep(n: nat)
    ensures Keeps(ZeroFill.Nests(n), {})
  {
    if n > 0 {
      ZeroFill.NestFits(n);
      NestsKeep(n - ZeroFill.Outer(n) * ZeroFill.Inner(n));
      assert Keeps(Op(Stz), {});
      assert Keeps(OnceOrLoop(ZeroFill.Inner(n), Op(Stz), Plain), {});
      assert Keeps(ZeroFill.Nest(n), {});
    }
  }

  lemma ZeroPhaseKeeps(size: nat, len: nat)
    ensures Keeps(ZeroFill.ZeroPhase(size, len), {})
  {
    assert Keeps(Op(Stz), {});
    PhaseKeeps(ZeroFill.ZeroCcr(size, len), Op(Stz), {});
  }

  lemma ZeroSegmentKeeps(pa: nat, size: nat)
    ensures Keeps(ZeroFill.ZeroSegment(pa, size), {})
  {
    var bursts := MemoryCopy.BurstCount(pa, size);
    var l, t := ZeroFill.ZeroPhase(8, bursts % 16), ZeroFill.ZeroPhase(1, (size - MemoryCopy.AlignCount(pa, size)) % 8);
    ZeroPhaseKeeps(1, MemoryCopy.AlignCount(pa, size));
    ZeroPhaseKeeps(8, bursts % 16);
    ZeroPhaseKeeps(1, (size - MemoryCopy.AlignCount(pa, size)) % 8);
    NestsKeep(bursts / 16);
    PhaseKeeps(ZeroFill.ZeroCcr(8, 16), ZeroFill.Nests(bursts / 16), {});
    assert Keeps(ZeroFill.ZeroFullBursts(bursts), {});
    assert Keeps(Seq(ZeroFill.ZeroFullBursts(bursts), Seq(l, t)), {});
    assert Keeps(Op(MovDar(pa)), {});
  }

  lemma RegisterSegmentKeeps(d: Direction, w: nat, pa: nat, count: nat)
    ensures Keeps(RegisterSegments.RegisterSegment(d, w, pa, count), {})
  {
    var turn := RegisterSegments.ElementTurn(d);
    TurnKeeps(Plain, 0, Loads(d, 1, 1), Stores(d, 1, 1), {});
    NestedKeeps(count / 16, turn, {});
    PhaseKeeps(RegisterSegments.ElementCcr(d, w, 16), Nested(count / 16, turn), {});
    PhaseKeeps(RegisterSegments.ElementCcr(d, w, count % 16), turn, {});
    assert Keeps(RegisterSegments.Elements(d, w, count), {}) && Keeps(Op(MoveMemory(d, pa)), {});
  }

  lemma PiecesKeep(d: Direction, form: Form, periph: nat, k: nat, count: nat)
    ensures Keeps(QspiSegments.Pieces(d, form, periph, k, count), {periph})
  {
    var turn := QspiSegments.PieceTurn(d, form, periph, k);
    TurnKeeps(form, periph, Loads(d, QspiSegments.PieceMultiple(k), QspiSegments.Pow2(k) / 4),
              Stores(d, QspiSegments.PieceMultiple(k), QspiSegments.Pow2(k) / 4), {periph});
    ChunkedKeeps(count, turn, Plain, {periph});
    NestedKeeps(count, turn, {periph});
    PhaseKeeps(QspiSegments.PieceCcr(d, k), QspiSegments.Times(d, count, turn), {periph});
  }

  lemma QspiSegmentKeeps(d: Direction, periph: nat, z: QspiSegments.Sizes, pa: nat, n: nat)
    ensures Keeps(QspiSegments.QspiSegment(d, periph, z, pa, n), {periph})
  {
    var left := if QspiSegments.AlignSize(pa) <= n then n - QspiSegments.AlignSize(pa) else 0;
    var turn := QspiSegments.PieceTurn(d, S, periph, 2);
    TurnKeeps(S, periph, Loads(d, QspiSegments.PieceMultiple(2), QspiSegments.Pow2(2) / 4),
              Stores(d, QspiSegments.PieceMultiple(2), QspiSegments.Pow2(2) / 4), {periph});
    PhaseKeeps(QspiSegments.PieceCcr(d, 2), turn, {periph});
    PiecesKeep(d, B, periph, z.burst, QspiSegments.BurstCount(z, left));
    PiecesKeep(d, S, periph, z.single, QspiSegments.SingleCount(z, left));
    assert Keeps(QspiSegments.QspiAlign(d, periph, pa), {periph}) && Keeps(Op(MoveMemory(d, pa)), {periph});
    assert Keeps(QspiSegments.QspiPhases(d, periph, z, pa, left), {periph});
  }

  lemma UartSegmentKeeps(d: Direction, periph: nat, burst: nat, pa: nat, n: nat)
    ensures Keeps(UartSegments.UartSegment(d, periph, burst, pa, n), {periph})
  {
    forall count: nat
      ensures Keeps(UartSegments.UartSingles(d, periph, count), {periph})
      ensures Keeps(UartSegments.UartBursts(d, periph, burst, count), {periph})
    {
      UartPartsKeep(d, periph, burst, count);
    }
    assert Keeps(UartSegments.UartPhases(d, periph, burst, n), {periph}) && Keeps(Op(MoveMemory(d, pa)), {periph});
  }

  lemma UartPartsKeep(d: Direction, periph: nat, burst: nat, count: nat)
    ensures Keeps(UartSegments.UartSingles(d, periph, count), {periph})
    ensures Keeps(UartSegments.UartBursts(d, periph, burst, count), {periph})
  {
    TurnKeeps(S, periph, Loads(d, 1, 1), Stores(d, 1, 1), {periph});
    ChunkedKeeps(count, StreamTurn(d, S, periph, 1, 1), S, {periph});
    PhaseKeeps(UartSegments.ByteCcr(d, 1), Chunked(count, StreamTurn(d, S, periph, 1, 1), S), {periph});
    TurnKeeps(B, periph, 0, 0, {periph});
    assert Keeps(Op(Ld(B)), {periph}) && Keeps(Op(St(B)), {periph});
    assert Keeps(UartSegments.Sixteen(), {periph});
    assert Keeps(Loop(burst / 16, UartSegments.Sixteen(), B), {periph});
    ChunkedKeeps(count, UartSegments.UartBurst(periph, burst), B, {periph});
    PhaseKeeps(UartSegments.ByteCcr(d, 16), Chunked(count, UartSegments.UartBurst(periph, burst), B), {periph});
  }

  lemma I2cSegmentKeeps(d: Direction, periph: nat, threshold: nat, pa: nat, n: nat)
    ensures Keeps(I2cSegments.I2cSegment(d, periph, threshold, pa, n), {periph})
  {
    var burst := I2cSegments.I2cBurst(threshold);
    var bursts, singles := I2cSegments.I2cBurstCount(threshold, n), I2cSegments.I2cSingleCount(threshold, n);
    TurnKeeps(B, periph, Loads(d, 1, burst), Stores(d, 1, burst), {periph});
    TurnKeeps(S, periph, Loads(d, 1, 1), Stores(d, 1, 1), {periph});
    ChunkedKeeps(bursts, StreamTurn(d, B, periph, 1, burst), Plain, {periph});
    ChunkedKeeps(singles, StreamTurn(d, S, periph, 1, 1), Plain, {periph});
    PhaseKeeps(I2cSegments.I2cCcr(d, burst), Chunked(bursts, StreamTurn(d, B, periph, 1, burst), Plain), {periph});
    PhaseKeeps(I2cSegments.I2cCcr(d, 1), Chunked(singles, StreamTurn(d, S, periph, 1, 1), Plain), {periph});
    assert Keeps(I2cSegments.I2cPhases(d, periph, threshold, n), {periph}) && Keeps(Op(MoveMemory(d, pa)), {periph});
  }

  // ---- Whole requests ----

  /** The lines that a request may name: that of its device, if it waits for one at all. */
  function PeriphsOf(g: Generator): set<nat> {
    if g.Zeroing? || g.Register? then {} else {g.periph}
  }

  lemma SegmentKeeps(g: Generator, s: Segment)
    ensures Keeps(SegmentProgram(g, s), PeriphsOf(g))
  {
    match g
    case Zeroing => ZeroSegmentKeeps(s.pa, s.size);
    case Register(d, w) => RegisterSegmentKeeps(d, w, s.pa, if w == 0 then 0 else s.size / w);
    case Qspi(d, p, z) => QspiSegmentKeeps(d, p, z, s.pa, s.size);
    case Uart(d, p, b) => UartSegmentKeeps(d, p, b, s.pa, s.size);
    case I2c(d, p, th) => I2cSegmentKeeps(d, p, th, s.pa, s.size);
  }

  lemma {:induction false} EachKeeps(g: Generator, segs: seq<Segment>)
    ensures Keeps(EachSegment(g, segs), PeriphsOf(g))
  {
    if segs != [] {
      SegmentKeeps(g, segs[0]);
      EachKeeps(g, segs[1..]);
    }
  }

  lemma BufferKeeps(g: Generator, reg: nat, segs: seq<Segment>)
    ensures Keeps(BufferProgram(g, reg, segs), PeriphsOf(g))
  {
    EachKeeps(g, segs);
    assert Keeps(Preface(g, reg), PeriphsOf(g));
  }

  /** Every instruction of a request's program that names a line names that of the device: zeroing
      and register requests have none. */
  lemma BufferNames(g: Generator, reg: nat, segs: seq<Segment>)
    ensures forall i | i in Flatten(BufferProgram(g, reg, segs)) && (i.FlushP? || i.Wfp?) ::
              !g.Zeroing? && !g.Register? && i.periph == g.periph
  {
    BufferKeeps(g, reg, segs);
    CodeNames(BufferProgram(g, reg, segs), PeriphsOf(g));
  }

  lemma {:induction false} LargerKeeps(p: Prog, a: set<nat>, b: set<nat>)
    requires Keeps(p, a) && a <= b
    ensures Keeps(p, b)
  {
    match p
    case Skip =>
    case Op(_) =>
    case Seq(q, r) =>
      LargerKeeps(q, a, b);
      LargerKeeps(r, a, b);
    case Loop(_, body, _) => LargerKeeps(body, a, b);
  }

  lemma CustomKeeps(reg: nat, periph: nat, addr: nat, count: nat, first: bool, periphs: set<nat>)
    requires periph in periphs
    ensures Keeps(I2cCommands.Custom(reg, periph, addr, count, first), periphs)
  {
    var loops := Chunked(count, Turn(S, periph, 1, 1), Plain);
    TurnKeeps(S, periph, 1, 1, periphs);
    ChunkedKeeps(count, Turn(S, periph, 1, 1), Plain, periphs);
    assert Keeps(Op(MovDar(reg)), periphs) && Keeps(Op(MovSar(addr)), periphs)
           && Keeps(Op(MovCcr(I2cCommands.CommandCcr())), periphs);
    assert Keeps(Seq(if first then Op(MovCcr(I2cCommands.CommandCcr())) else Skip, loops), periphs);
  }

  lemma {:induction false} RoundsKeep(m: I2cRead.Master, txLeft: nat, pieces: seq<seq<Segment>>, periphs: set<nat>)
    requires periphs == {m.TxPeriph(), m.rxPeriph}
    ensures Keeps(I2cRead.Rounds(m, txLeft, pieces), periphs)
    decreases pieces
  {
    if pieces != [] {
      var count := MemoryCopy.Min(txLeft, m.Half());
      BufferKeeps(I2c(ToMem, m.rxPeriph, m.threshold), m.reg, pieces[0]);
      LargerKeeps(I2cRead.ReadBack(m, pieces[0]), {m.rxPeriph}, periphs);
      CustomKeeps(m.reg, m.TxPeriph(), m.scratch, I2cRead.Decrement(count), true, periphs);
      CustomKeeps(m.reg, m.TxPeriph(), m.scratch + 8, 1, false, periphs);
      CustomKeeps(m.reg, m.TxPeriph(), m.scratch, count, true, periphs);
      assert Keeps(I2cRead.Refill(m, txLeft), periphs);
      RoundsKeep(m, txLeft - count, pieces[1..], periphs);
    }
  }

  /** A read as bus master names the receive line and the one below it. */
  lemma ReadMasterNames(m: I2cRead.Master, size: nat, pieces: seq<seq<Segment>>)
    requires m.Valid()
    ensures forall i | i in Flatten(I2cRead.ReadMaster(m, size, pieces)) && (i.FlushP? || i.Wfp?) ::
              i.periph == m.rxPeriph || i.periph == m.rxPeriph - 1
  {
    var count, periphs := MemoryCopy.Min(size, m.fifo), {m.TxPeriph(), m.rxPeriph};
    CustomKeeps(m.reg, m.TxPeriph(), m.scratch + 12, 1, true, periphs);
    CustomKeeps(m.reg, m.TxPeriph(), m.scratch + 4, 1, true, periphs);
    CustomKeeps(m.reg, m.TxPeriph(), m.scratch, if count > 2 then count - 2 else 0, false, periphs);
    CustomKeeps(m.reg, m.TxPeriph(), m.scratch, I2cRead.Decrement(count), false, periphs);
    CustomKeeps(m.reg, m.TxPeriph(), m.scratch + 8, 1, false, periphs);
    assert Keeps(I2cRead.Prefill(m, size), periphs);
    RoundsKeep(m, size - count, pieces, periphs);
    CodeNames(I2cRead.ReadMaster(m, size, pieces), periphs);
  }

  /** A write as bus master names one line. */
  lemma WriteMasterNames(w: I2cWrite.Writer, size: nat, segs: seq<Segment>)
    ensures forall i | i in Flatten(I2cWrite.WriteMaster(w, size, segs)) && (i.FlushP? || i.Wfp?) ::
              i.periph == w.periph
  {
    var n, periphs := I2cWrite.MiddleSize(w, size), {w.periph};
    CustomKeeps(w.reg, w.periph, w.scratch + 12, 1, true, periphs);
    CustomKeeps(w.reg, w.periph, w.scratch + 4, 1, true, periphs);
    CustomKeeps(w.reg, w.periph, w.scratch + 8, 1, n != 0, periphs);
    BufferKeeps(I2c(FromMem, w.periph, w.threshold), w.reg, segs);
    assert Keeps(I2cWrite.MiddleProgram(w, n, segs), periphs) && Keeps(I2cWrite.LastProgram(w, n), periphs)
           && Keeps(I2cWrite.FirstProgram(w), periphs);
    CodeNames(I2cWrite.WriteMaster(w, size, segs), periphs);
  }
}
