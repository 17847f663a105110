/** Segments between memory and an I2C controller's data register, byte by byte or in bursts of
    its FIFO threshold. */
module I2cSegments {
  import opened Options
  import opened Pl330
  import opened Assembler
  import opened Transfer
  import opened Turns
  import opened Streams
  import opened LongDivision

  /** The bytes of a burst; 0 when the threshold does not allow any. */
  function I2cBurst(threshold: nat): nat {
    if threshold > 16 then 16 else if threshold > 1 then threshold else 0
  }

  function I2cBurstCount(threshold: nat, n: nat): nat {
    if I2cBurst(threshold) == 0 then 0 else Quotient(n, I2cBurst(threshold))
  }

  function I2cSingleCount(threshold: nat, n: nat): nat {
    if I2cBurst(threshold) == 0 then n else Remainder(n, I2cBurst(threshold))
  }

  /** The bytes that are moved for a segment of n. */
  function I2cCovered(threshold: nat, n: nat): nat {
    if I2cBurst(threshold) == 0 then n else Covered(n, I2cBurst(threshold))
  }

  /** The segment sizes for which those are the same. */
  predicate I2cSplits(threshold: nat, n: nat) {
    I2cBurst(threshold) == 0 || Splits(n, I2cBurst(threshold))
  }

  function I2cCcr(d: Direction, len: nat): Ccr {
    StreamCcr(d, 1, len, 1, 1)
  }

  /** The register side of a burst is accessed once for every byte. */
  function I2cBursts(d: Direction, periph: nat, burst: nat, count: nat): Prog {
    if count != 0 then Phase(I2cCcr(d, burst), Chunked(count, StreamTurn(d, B, periph, 1, burst), Plain)) else Skip
  }

  function I2cSingles(d: Direction, periph: nat, count: nat): Prog {
    if count != 0 then Phase(I2cCcr(d, 1), Chunked(count, StreamTurn(d, S, periph, 1, 1), Plain)) else Skip
  }

  function I2cPhases(d: Direction, periph: nat, threshold: nat, n: nat): Prog {
    Seq(I2cBursts(d, periph, I2cBurst(threshold), I2cBurstCount(threshold, n)),
        I2cSingles(d, periph, I2cSingleCount(threshold, n)))
  }

  function I2cSegment(d: Direction, periph: nat, threshold: nat, pa: nat, n: nat): Prog {
    Seq(Op(MoveMemory(d, pa)), I2cPhases(d, periph, threshold, n))
  }

  method EmitI2cBursts(program: Program, status: Status, d: Direction, periph: nat, burst: nat, count: nat)
    returns (s: Status)
    requires program.Holds(status) && status.Ordinary()
    modifies program
    ensures program.Holds(s) && s.Ordinary()
    ensures program.intended == Append(old(program.intended), I2cBursts(d, periph, burst, count))
  {
    s := status;
    if count != 0 {
      s := program.Emit(s, MovCcr(I2cCcr(d, burst)));
      s := EmitTurns(program, s, B, periph, Loads(d, 1, burst), Stores(d, 1, burst), count, Plain);
    }
  }

  method EmitI2cSingles(program: Program, status: Status, d: Direction, periph: nat, count: nat) returns (s: Status)
    requires program.Holds(status) && status.Ordinary()
    modifies program
    ensures program.Holds(s) && s.Ordinary()
    ensures program.intended == Append(old(program.intended), I2cSingles(d, periph, count))
  {
    s := status;
    if count != 0 {
      s := program.Emit(s, MovCcr(I2cCcr(d, 1)));
      s := EmitTurns(program, s, S, periph, Loads(d, 1, 1), Stores(d, 1, 1), count, Plain);
    }
  }

  method EmitI2cSegment(program: Program, status: Status, d: Direction, periph: nat, threshold: nat, pa: nat, n: nat)
    returns (s: Status)
    requires program.Holds(status) && status.Ordinary()
    modifies program
    ensures program.Holds(s) && s.Ordinary()
    ensures program.intended == Append(old(program.intended), I2cSegment(d, periph, threshold, pa, n))
  {
    var burstSize, burstCount, sizeLeft := 0, 0, n;
    if threshold > 1 {
      burstSize := if threshold > 16 then 16 else threshold;
      burstCount, sizeLeft := Quotient(n, burstSize), Remainder(n, burstSize);
    }
    s := program.Emit(status, MoveMemory(d, pa));
    s := EmitI2cBursts(program, s, d, periph, burstSize, burstCount);
    s := EmitI2cSingles(program, s, d, periph, sizeLeft);
    var c := Append(old(program.intended), Op(MoveMemory(d, pa)));
    AppendSeq(c, I2cBursts(d, periph, burstSize, burstCount), I2cSingles(d, periph, sizeLeft));
    AppendSeq(old(program.intended), Op(MoveMemory(d, pa)), I2cPhases(d, periph, threshold, n));
  }

  lemma I2cSegmentWellFormed(d: Direction, periph: nat, threshold: nat, pa: nat, n: nat)
    ensures WellFormed(I2cSegment(d, periph, threshold, pa, n), 2)
  {
    var burst, count, left := I2cBurst(threshold), I2cBurstCount(threshold, n), I2cSingleCount(threshold, n);
    assert WellFormed(Op(MoveMemory(d, pa)), 2);
    TurnWellFormed(S, periph, Loads(d, 1, 1), Stores(d, 1, 1), 1);
    TurnWellFormed(B, periph, Loads(d, 1, burst), Stores(d, 1, burst), 1);
    ChunkedWellFormed(left, StreamTurn(d, S, periph, 1, 1), Plain, 2);
    ChunkedWellFormed(count, StreamTurn(d, B, periph, 1, burst), Plain, 2);
    assert WellFormed(Op(MovCcr(I2cCcr(d, 1))), 2);
    assert count != 0 ==> WellFormed(Op(MovCcr(I2cCcr(d, burst))), 2);
    assert WellFormed(I2cBursts(d, periph, burst, count), 2) && WellFormed(I2cSingles(d, periph, left), 2);
  }

  lemma I2cBurstsCarry(d: Direction, reg: nat, periph: nat, burst: nat, pa: nat, n: nat, count: nat, to: nat)
    requires 2 <= burst <= 16 && 0 < count && to == count * burst <= n
    ensures Carries(StreamShape(d, reg, 1, pa, n), I2cBursts(d, periph, burst, count), 0, to)
  {
    var sh, turn := StreamShape(d, reg, 1, pa, n), StreamTurn(d, B, periph, 1, burst);
    StreamTurnMoves(d, reg, 1, pa, n, B, periph, 1, burst, 1, 1, burst, burst);
    ChunkedMoves(sh, turn, I2cCcr(d, burst), burst, 1, None, Leaves(B), count, Plain, to);
    PhaseCarries(sh, I2cCcr(d, burst), Chunked(count, turn, Plain), to, 1, Leaves(B), 0, to);
  }

  lemma I2cSinglesCarry(d: Direction, reg: nat, periph: nat, pa: nat, n: nat, count: nat, from: nat)
    requires from + count <= n
    ensures Carries(StreamShape(d, reg, 1, pa, n), I2cSingles(d, periph, count), from, from + count)
  {
    var sh, turn := StreamShape(d, reg, 1, pa, n), StreamTurn(d, S, periph, 1, 1);
    if count != 0 {
      StreamTurnMoves(d, reg, 1, pa, n, S, periph, 1, 1, 1, 1, 1, 1);
      ChunkedMoves(sh, turn, I2cCcr(d, 1), 1, 1, None, Leaves(S), count, Plain, count);
      PhaseCarries(sh, I2cCcr(d, 1), Chunked(count, turn, Plain), count, 1, Leaves(S), from, from + count);
    }
  }

  lemma I2cMixCarries(d: Direction, reg: nat, periph: nat, burst: nat, pa: nat, n: nat, count: nat, mid: nat, left: nat)
    requires count != 0 ==> 2 <= burst <= 16
    requires mid == count * burst && n == mid + left
    ensures Carries(StreamShape(d, reg, 1, pa, n),
                    Seq(I2cBursts(d, periph, burst, count), I2cSingles(d, periph, left)), 0, n)
  {
    var sh := StreamShape(d, reg, 1, pa, n);
    if count != 0 { I2cBurstsCarry(d, reg, periph, burst, pa, n, count, mid); }
    assert Carries(sh, I2cBursts(d, periph, burst, count), 0, mid);
    I2cSinglesCarry(d, reg, periph, pa, n, left, mid);
    CarriesSeq(sh, I2cBursts(d, periph, burst, count), I2cSingles(d, periph, left), 0, mid, n);
  }

  /** Whatever the threshold, the bursts and the single bytes move as many bytes as the division
      made of the segment, and in order. */
  lemma I2cPhasesCarry(d: Direction, reg: nat, periph: nat, threshold: nat, pa: nat, n: nat)
    ensures Carries(StreamShape(d, reg, 1, pa, I2cCovered(threshold, n)), I2cPhases(d, periph, threshold, n),
                    0, I2cCovered(threshold, n))
  {
    var burst := I2cBurst(threshold);
    if burst == 0 {
      I2cMixCarries(d, reg, periph, 0, pa, n, 0, 0, n);
    } else {
      var count, left := Quotient(n, burst), Remainder(n, burst);
      I2cMixCarries(d, reg, periph, burst, pa, Covered(n, burst), count, count * burst, left);
    }
  }

  /** That is the segment exactly when its size splits, and more than the segment otherwise. */
  lemma I2cCoversExactlyWhen(threshold: nat, n: nat)
    requires I2cBurst(threshold) != 0 ==> n < WORD
    ensures I2cCovered(threshold, n) == n <==> I2cSplits(threshold, n)
    ensures n <= I2cCovered(threshold, n)
  {
    if I2cBurst(threshold) != 0 { CoveredExactlyWhen(n, I2cBurst(threshold)); }
  }
}
