/** Segments between memory and a 16550 UART: bursts first, then single bytes.  The address of
    the memory side is set once, and the loop ends depend on the request that was granted. */
module UartSegments {
  import opened Options
  import opened Pl330
  import opened Assembler
  import opened Transfer
  import opened Turns
  import opened Streams
  import opened LongDivision

  function ByteCcr(d: Direction, len: nat): Ccr {
    StreamCcr(d, 1, len, 1, len)
  }

  function UartSingles(d: Direction, periph: nat, count: nat): Prog {
    Phase(ByteCcr(d, 1), Chunked(count, StreamTurn(d, S, periph, 1, 1), S))
  }

  /** Sixteen bytes under a burst request. */
  function Sixteen(): Prog {
    Seq(Op(Ld(B)), Op(St(B)))
  }

  function UartBurst(periph: nat, burst: nat): Prog {
    Seq(Handshake(B, periph), Loop(burst / 16, Sixteen(), B))
  }

  function UartBursts(d: Direction, periph: nat, burst: nat, count: nat): Prog {
    Phase(ByteCcr(d, 16), Chunked(count, UartBurst(periph, burst), B))
  }

  /** burst is 0 when everything goes byte by byte. */
  function UartPhases(d: Direction, periph: nat, burst: nat, n: nat): Prog {
    if burst == 0 then UartSingles(d, periph, n)
    else
      Seq(if Quotient(n, burst) != 0 then UartBursts(d, periph, burst, Quotient(n, burst)) else Skip,
          if Remainder(n, burst) != 0 then UartSingles(d, periph, Remainder(n, burst)) else Skip)
  }

  /** The bytes that are moved for a segment of n. */
  function UartCovered(burst: nat, n: nat): nat {
    if burst == 0 then n else Covered(n, burst)
  }

  /** The segment sizes for which those are the same. */
  predicate UartSplits(burst: nat, n: nat) {
    burst == 0 || Splits(n, burst)
  }

  function UartSegment(d: Direction, periph: nat, burst: nat, pa: nat, n: nat): Prog {
    Seq(Op(MoveMemory(d, pa)), UartPhases(d, periph, burst, n))
  }

  /** Bursts that one loop counter can count in sixteens. */
  predicate BurstSize(burst: nat) {
    burst % 16 == 0 && burst <= 4096
  }

  datatype TxTrigger = Empty | AlmostEmpty | QuarterFull | HalfFull
  datatype RxTrigger = Any | QuarterFull | HalfFull | AlmostFull

  /** The burst size the generators settle on, from the FIFO size and its trigger level. */
  function Rounded(level: nat): nat {
    if level < 16 then 0 else level / 16 * 16
  }

  /** Two less, as 32-bit unsigned numbers. */
  function LessTwo(fifo: nat): nat {
    Unsigned(fifo - 2)
  }

  function TxLevel(fifo: nat, trigger: TxTrigger): nat {
    match trigger
    case Empty => fifo
    case AlmostEmpty => LessTwo(fifo)
    case QuarterFull => 3 * (fifo / 4)
    case HalfFull => fifo / 2
  }

  function RxLevel(fifo: nat, trigger: RxTrigger): nat {
    match trigger
    case Any => 1
    case QuarterFull => fifo / 4
    case HalfFull => fifo / 2
    case AlmostFull => LessTwo(fifo)
  }

  /** Of the FIFOs that the eight-bit size field can describe, only one of size zero leads to a
      burst that the loop cannot count, and that only with a trigger level of the size less two.
      No other burst asks for more than the trigger level leaves room for, or has received, and none
      for less than that by sixteen. */
  lemma RoundedIsBurstSize(field: nat, tx: TxTrigger, rx: RxTrigger)
    requires field <= 255
    ensures var level := TxLevel(16 * field, tx);
            && (BurstSize(Rounded(level)) <==> field != 0 || !tx.AlmostEmpty?)
            && (BurstSize(Rounded(level)) ==> Rounded(level) <= level <= 16 * field && level < Rounded(level) + 16)
    ensures var level := RxLevel(16 * field, rx);
            && (BurstSize(Rounded(level)) <==> field != 0 || !rx.AlmostFull?)
            && (BurstSize(Rounded(level)) && !rx.Any? ==> Rounded(level) <= level <= 16 * field)
            && level < Rounded(level) + 16
  {
    SixteensRound(TxLevel(16 * field, tx));
    SixteensRound(RxLevel(16 * field, rx));
  }

  lemma SixteensRound(level: nat)
    ensures Rounded(level) % 16 == 0 && Rounded(level) <= level < Rounded(level) + 16
  {
  }

  /** When a FIFO with so many entries in it asks for more, and when one asks to be read. */
  predicate TxAsks(fifo: nat, trigger: TxTrigger, held: nat) {
    match trigger
    case Empty => held == 0
    case AlmostEmpty => held <= 2
    case QuarterFull => 4 * held <= fifo
    case HalfFull => 2 * held <= fifo
  }

  predicate RxAsks(fifo: nat, trigger: RxTrigger, held: nat) {
    match trigger
    case Any => 1 <= held
    case QuarterFull => fifo <= 4 * held
    case HalfFull => fifo <= 2 * held
    case AlmostFull => fifo <= held + 2
  }

  /** The level is the most that there is always room for when the FIFO asks. */
  lemma TxLevelExactlyWhen(field: nat, trigger: TxTrigger, n: nat)
    requires 0 < field <= 255
    ensures n <= TxLevel(16 * field, trigger) <==>
            forall held: nat | TxAsks(16 * field, trigger, held) :: held + n <= 16 * field
  {
    assert TxAsks(16 * field, trigger, 16 * field - TxLevel(16 * field, trigger));
  }

  /** The level is the most that has always been received when the FIFO asks. */
  lemma RxLevelExactlyWhen(field: nat, trigger: RxTrigger, n: nat)
    requires 0 < field <= 255
    ensures n <= RxLevel(16 * field, trigger) <==> forall held: nat | RxAsks(16 * field, trigger, held) :: n <= held
  {
    assert RxAsks(16 * field, trigger, RxLevel(16 * field, trigger));
  }

  method EmitUartSingles(program: Program, status: Status, d: Direction, periph: nat, count: nat) returns (s: Status)
    requires program.Holds(status) && status.Ordinary()
    modifies program
    ensures program.Holds(s) && s.Ordinary()
    ensures program.intended == Append(old(program.intended), UartSingles(d, periph, count))
  {
    s := program.Emit(status, MovCcr(ByteCcr(d, 1)));
    s := EmitTurns(program, s, S, periph, Loads(d, 1, 1), Stores(d, 1, 1), count, S);
  }

  method EmitUartBurst(program: Program, status: Status, periph: nat, burst: nat) returns (s: Status)
    requires program.Holds(status) && status.Ordinary()
    modifies program
    ensures program.Holds(s) && s.Ordinary()
    ensures program.intended == Append(old(program.intended), UartBurst(periph, burst))
  {
    s := program.Emit(status, FlushP(periph));
    s := program.Emit(s, Wfp(periph, BurstRequest));
    assert program.intended == Append(old(program.intended), Handshake(B, periph));
    ghost var c := program.intended;
    s := program.Emit(s, Lp(burst / 16));
    s := program.Emit(s, Ld(B));
    s := program.Emit(s, St(B));
    s := program.Emit(s, LpEnd(B));
    assert Append(Then(c, Lp(burst / 16)), Sixteen()) == Then(Then(Then(c, Lp(burst / 16)), Ld(B)), St(B));
    assert program.intended == Append(c, Loop(burst / 16, Sixteen(), B));
    AppendSeq(old(program.intended), Handshake(B, periph), Loop(burst / 16, Sixteen(), B));
  }

  method EmitUartBursts(program: Program, status: Status, d: Direction, periph: nat, burst: nat, count: nat)
    returns (s: Status)
    requires program.Holds(status) && status.Ordinary()
    modifies program
    ensures program.Holds(s) && s.Ordinary()
    ensures program.intended == Append(old(program.intended), UartBursts(d, periph, burst, count))
  {
    s := program.Emit(status, MovCcr(ByteCcr(d, 16)));
    var left := count;
    ghost var turn := UartBurst(periph, burst);
    ghost var target := Append(program.intended, Chunked(count, turn, B));
    while left > 0
      invariant program.Holds(s) && s.Ordinary()
      invariant Append(program.intended, Chunked(left, turn, B)) == target
    {
      var loopcount := if left < 256 then left else 256;
      if s != Success {
        program.Forgo(s, Chunked(left, turn, B));
        break;
      }
      AppendChunk(program.intended, left, turn, B);
      left := left - loopcount;
      if loopcount > 1 {
        s := program.Emit(s, Lp(loopcount));
      }
      s := EmitUartBurst(program, s, periph, burst);
      if loopcount > 1 {
        s := program.Emit(s, LpEnd(B));
      }
    }
  }

  method EmitUartSegment(program: Program, status: Status, d: Direction, periph: nat, burst: nat, pa: nat, n: nat)
    returns (s: Status)
    requires program.Holds(status) && status.Ordinary() && BurstSize(burst)
    modifies program
    ensures program.Holds(s) && s.Ordinary()
    ensures program.intended == Append(old(program.intended), UartSegment(d, periph, burst, pa, n))
  {
    s := program.Emit(status, MoveMemory(d, pa));
    if burst == 0 {
      s := EmitUartSingles(program, s, d, periph, n);
    } else {
      ghost var c := program.intended;
      var burstCount, left := Quotient(n, burst), Remainder(n, burst);
      if burstCount != 0 {
        s := EmitUartBursts(program, s, d, periph, burst, burstCount);
      }
      ghost var mid := program.intended;
      if left != 0 {
        s := EmitUartSingles(program, s, d, periph, left);
      }
      assert mid == Append(c, if burstCount != 0 then UartBursts(d, periph, burst, burstCount) else Skip);
      assert program.intended == Append(mid, if left != 0 then UartSingles(d, periph, left) else Skip);
    }
    AppendSeq(old(program.intended), Op(MoveMemory(d, pa)), UartPhases(d, periph, burst, n));
  }

  // ---- Well-formedness ----

  lemma UartSinglesWellFormed(d: Direction, periph: nat, count: nat)
    ensures WellFormed(UartSingles(d, periph, count), 2)
  {
    TurnWellFormed(S, periph, Loads(d, 1, 1), Stores(d, 1, 1), 1);
    ChunkedWellFormed(count, StreamTurn(d, S, periph, 1, 1), S, 2);
    assert WellFormed(Op(MovCcr(ByteCcr(d, 1))), 2);
  }

  lemma UartBurstsWellFormed(d: Direction, periph: nat, burst: nat, count: nat)
    requires BurstSize(burst) && 0 < burst
    ensures WellFormed(UartBursts(d, periph, burst, count), 2)
  {
    assert WellFormed(Op(Ld(B)), 0) && WellFormed(Op(St(B)), 0);
    assert WellFormed(Sixteen(), 0);
    assert WellFormed(Op(FlushP(periph)), 1) && WellFormed(Op(Wfp(periph, BurstRequest)), 1);
    assert WellFormed(Handshake(B, periph), 1);
    assert WellFormed(UartBurst(periph, burst), 1);
    ChunkedWellFormed(count, UartBurst(periph, burst), B, 2);
    assert WellFormed(Op(MovCcr(ByteCcr(d, 16))), 2);
  }

  lemma UartSegmentWellFormed(d: Direction, periph: nat, burst: nat, pa: nat, n: nat)
    requires BurstSize(burst)
    ensures WellFormed(UartSegment(d, periph, burst, pa, n), 2)
  {
    assert WellFormed(Op(MoveMemory(d, pa)), 2);
    if burst == 0 {
      UartSinglesWellFormed(d, periph, n);
    } else {
      UartSinglesWellFormed(d, periph, Remainder(n, burst));
      UartBurstsWellFormed(d, periph, burst, Quotient(n, burst));
    }
    assert WellFormed(UartPhases(d, periph, burst, n), 2);
  }

  // ---- What the program of a segment does ----

  lemma UartSinglesCarry(d: Direction, reg: nat, periph: nat, pa: nat, n: nat, count: nat, from: nat)
    requires 0 < count && from + count <= n
    ensures Carries(StreamShape(d, reg, 1, pa, n), UartSingles(d, periph, count), from, from + count)
  {
    var sh, turn := StreamShape(d, reg, 1, pa, n), StreamTurn(d, S, periph, 1, 1);
    StreamTurnMoves(d, reg, 1, pa, n, S, periph, 1, 1, 1, 1, 1, 1);
    ChunkedMoves(sh, turn, ByteCcr(d, 1), 1, 1, None, Leaves(S), count, S, count);
    PhaseCarries(sh, ByteCcr(d, 1), Chunked(count, turn, S), count, 1, Leaves(S), from, from + count);
  }

  /** Under a burst request the unconditional reading of the B forms is right. */
  lemma SixteenMoves(d: Direction, reg: nat, pa: nat, n: nat)
    ensures Moves(StreamShape(d, reg, 1, pa, n), Sixteen(), ByteCcr(d, 16), 16, 1, Some(BurstRequest), None)
  {
    var sh, ccr := StreamShape(d, reg, 1, pa, n), ByteCcr(d, 16);
    forall done: nat, req: Request | done + 16 <= n && req == BurstRequest
      ensures MarkExec(sh, Sixteen(), Level(done, ccr, req)) == Some(Level(done + 16, ccr, After(None, req)))
    {
      MarkSeq(sh, Op(Ld(B)), Op(St(B)), Level(done, ccr, req), Mark(done + 16, done, ccr, req));
    }
  }

  lemma UartBurstMoves(d: Direction, reg: nat, periph: nat, burst: nat, pa: nat, n: nat)
    requires BurstSize(burst) && 0 < burst
    ensures Moves(StreamShape(d, reg, 1, pa, n), UartBurst(periph, burst), ByteCcr(d, 16), burst, 1, None, Leaves(B))
  {
    var sh, ccr, inner := StreamShape(d, reg, 1, pa, n), ByteCcr(d, 16), Loop(burst / 16, Sixteen(), B);
    SixteenMoves(d, reg, pa, n);
    OnceOrLoopMoves(sh, Sixteen(), ccr, 16, 1, Some(BurstRequest), None, burst / 16, B, burst);
    forall done: nat, req: Request | done + burst <= n
      ensures MarkExec(sh, UartBurst(periph, burst), Level(done, ccr, req))
              == Some(Level(done + burst, ccr, After(Leaves(B), req)))
    {
      var granted := Level(done, ccr, BurstRequest);
      MarkSeq(sh, Op(FlushP(periph)), Op(Wfp(periph, BurstRequest)), Level(done, ccr, req), Level(done, ccr, req));
      MarkSeq(sh, Handshake(B, periph), inner, Level(done, ccr, req), granted);
      MovesOne(sh, inner, ccr, burst, 1, Some(BurstRequest), None, done, BurstRequest);
    }
  }

  lemma UartBurstsCarry(d: Direction, reg: nat, periph: nat, burst: nat, pa: nat, n: nat, count: nat, to: nat)
    requires BurstSize(burst) && 0 < burst && 0 < count && to == count * burst <= n
    ensures Carries(StreamShape(d, reg, 1, pa, n), UartBursts(d, periph, burst, count), 0, to)
  {
    var sh, turn := StreamShape(d, reg, 1, pa, n), UartBurst(periph, burst);
    UartBurstMoves(d, reg, periph, burst, pa, n);
    ChunkedMoves(sh, turn, ByteCcr(d, 16), burst, 1, None, Leaves(B), count, B, to);
    PhaseCarries(sh, ByteCcr(d, 16), Chunked(count, turn, B), to, 1, Leaves(B), 0, to);
  }

  lemma UartMixCarries(d: Direction, reg: nat, periph: nat, burst: nat, pa: nat, n: nat, count: nat, mid: nat,
      left: nat)
    requires BurstSize(burst) && 0 < burst && mid == count * burst && n == mid + left
    ensures Carries(StreamShape(d, reg, 1, pa, n),
                    Seq(if count != 0 then UartBursts(d, periph, burst, count) else Skip,
                        if left != 0 then UartSingles(d, periph, left) else Skip), 0, n)
  {
    var sh := StreamShape(d, reg, 1, pa, n);
    var p := if count != 0 then UartBursts(d, periph, burst, count) else Skip;
    var q := if left != 0 then UartSingles(d, periph, left) else Skip;
    if count != 0 { UartBurstsCarry(d, reg, periph, burst, pa, n, count, mid); }
    assert Carries(sh, p, 0, mid);
    if left != 0 { UartSinglesCarry(d, reg, periph, pa, n, left, mid); }
    assert Carries(sh, q, mid, n);
    CarriesSeq(sh, p, q, 0, mid, n);
  }

  /** Bursts and single bytes, off one setting of the address, move as many bytes as the division
      made of the segment, and in order. */
  lemma UartPhasesCarry(d: Direction, reg: nat, periph: nat, burst: nat, pa: nat, n: nat)
    requires BurstSize(burst) && 0 < n
    ensures Carries(StreamShape(d, reg, 1, pa, UartCovered(burst, n)), UartPhases(d, periph, burst, n), 0,
                    UartCovered(burst, n))
  {
    if burst == 0 {
      UartSinglesCarry(d, reg, periph, pa, n, n, 0);
    } else {
      var count, left := Quotient(n, burst), Remainder(n, burst);
      UartMixCarries(d, reg, periph, burst, pa, Covered(n, burst), count, count * burst, left);
    }
  }

  /** That is the segment exactly when its size splits, and more than the segment otherwise. */
  lemma UartCoversExactlyWhen(burst: nat, n: nat)
    requires BurstSize(burst) && (burst != 0 ==> n < WORD)
    ensures UartCovered(burst, n) == n <==> UartSplits(burst, n)
    ensures n <= UartCovered(burst, n)
  {
    if burst != 0 { CoveredExactlyWhen(n, burst); }
  }
}
