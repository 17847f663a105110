/** Requests for the flash controller, a UART or an I2C slave keep step with the device: they wait
    on its line only, and make exactly the accesses that each granted request is for. */
module PacedRequests {
  import opened Options
  import opened Pl330
  import opened Coalescing
  import opened Transfer
  import opened Turns
  import opened Streams
  import opened Closing
  import opened Pacing
  import opened WatchedRuns
  import opened Requests
  import LongDivision
  import QspiSegments
  import UartSegments
  import I2cSegments

  /** The register of the device has been set, and nothing else is known. */
  function Set(d: Direction, reg: nat): Setting {
    Setting(reg, 0, if d.ToMem? then Some(reg) else None, if d.FromMem? then Some(reg) else None, None, None)
  }

  /** Requests of either type, of n of this form. */
  function Bursts(form: Form, n: nat): nat {
    if form == B then n else 0
  }

  function Singles(form: Form, n: nat): nat {
    if form == S then n else 0
  }

  lemma StreamTurnPaced(
    lines: Lines, l: Line, d: Direction, reg: nat, form: Form, unit: nat, memLen: nat, mem: nat, w: nat, regLen: nat,
    regs: nat)
    requires form != Plain && lines.At(l.periph) == Some(l) && l.write == d.FromMem?
    requires regs * Beats(form, regLen) == l.Credit(RequestOf(form))
    ensures var x := Set(d, reg).(ccr := Some(StreamCcr(d, unit, memLen, w, regLen)));
            Paced(lines, x, StreamTurn(d, form, l.periph, mem, regs), x.(req := Some(RequestOf(form))),
                  Bursts(form, 1), Singles(form, 1))
  {
    var x := Set(d, reg).(ccr := Some(StreamCcr(d, unit, memLen, w, regLen)));
    TurnPaced(lines, l, x, form, Loads(d, mem, regs), Stores(d, mem, regs), Beats(form, regLen));
  }

  /** A turn over and over, behind the setting of its control register. */
  lemma ManyPaced(lines: Lines, x: Setting, c: Ccr, turn: Prog, form: Form, count: nat, end: Form)
    requires form != Plain && x.ccr.None? && x.req.None? && (end == Plain || end == form)
    requires Paced(lines, x.(ccr := Some(c)), turn, x.(ccr := Some(c), req := Some(RequestOf(form))), Bursts(form, 1),
                   Singles(form, 1))
    ensures Paced(lines, x, Phase(c, Chunked(count, turn, end)), x, Bursts(form, count), Singles(form, count))
  {
    var begun := x.(ccr := Some(c));
    var y, p, b, s := begun.(req := Some(RequestOf(form))), Chunked(count, turn, end), Bursts(form, count),
                      Singles(form, count);
    if count == 0 {
      SkipPaced(lines, begun);
      TellsPaced(lines, begun, begun, Skip, begun, x, b, s);
    } else {
      ChunkedPaced(lines, begun, turn, y, Bursts(form, 1), Singles(form, 1), count, end, b, s);
      TellsPaced(lines, begun, begun, p, y, x, b, s);
    }
    PhasePaced(lines, x, c, p, x, b, s);
  }

  // ---- I2C ----

  lemma I2cPhasesPaced(lines: Lines, l: Line, d: Direction, reg: nat, threshold: nat, n: nat)
    requires lines.At(l.periph) == Some(l) && l.write == d.FromMem? && l.single == 1
    requires threshold > 1 ==> l.burst == I2cSegments.I2cBurst(threshold)
    ensures Paced(lines, Set(d, reg), I2cSegments.I2cPhases(d, l.periph, threshold, n), Set(d, reg),
                  I2cSegments.I2cBurstCount(threshold, n), I2cSegments.I2cSingleCount(threshold, n))
  {
    var x, burst := Set(d, reg), I2cSegments.I2cBurst(threshold);
    var count, left := I2cSegments.I2cBurstCount(threshold, n), I2cSegments.I2cSingleCount(threshold, n);
    var bursts, singles := I2cSegments.I2cBursts(d, l.periph, burst, count), I2cSegments.I2cSingles(d, l.periph, left);
    SkipPaced(lines, x);
    if count != 0 {
      StreamTurnPaced(lines, l, d, reg, B, 1, burst, 1, 1, 1, burst);
      ManyPaced(lines, x, I2cSegments.I2cCcr(d, burst), StreamTurn(d, B, l.periph, 1, burst), B, count, Plain);
    }
    StreamTurnPaced(lines, l, d, reg, S, 1, 1, 1, 1, 1, 1);
    ManyPaced(lines, x, I2cSegments.I2cCcr(d, 1), StreamTurn(d, S, l.periph, 1, 1), S, left, Plain);
    SeqPaced(lines, x, bursts, x, singles, x, count, 0, 0, left, count, left);
  }

  // ---- UART ----

  /** Sixteen accesses under a burst request. */
  lemma SixteenUses(lines: Lines, d: Direction, reg: nat, s: State, w: Watcher)
    requires In(s, Set(d, reg).(ccr := Some(UartSegments.ByteCcr(d, 16)), req := Some(BurstRequest)))
    requires w.grant.Held? && w.grant.request == BurstRequest && w.grant.line.write == d.FromMem?
    requires w.grant.used + 16 <= w.grant.line.burst && Exec(UartSegments.Sixteen(), s).Ok?
    ensures var t := Exec(UartSegments.Sixteen(), s).state;
            && In(t, Set(d, reg).(ccr := Some(UartSegments.ByteCcr(d, 16)), req := Some(BurstRequest)))
            && Watch(lines, UartSegments.Sixteen(), s, w)
               == Some(w.(grant := w.grant.(used := w.grant.used + 16)))
  {
    var x := Set(d, reg).(ccr := Some(UartSegments.ByteCcr(d, 16)), req := Some(BurstRequest));
    var mid := Exec(Op(Ld(B)), s).state;
    if d.FromMem? {
      QuietKeeps(lines, x, Ld(B), s, w);
      TouchUses(lines, x, St(B), true, 16, mid, w);
    } else {
      TouchUses(lines, x, Ld(B), false, 16, s, w);
      QuietKeeps(lines, x, St(B), mid, w.(grant := w.grant.(used := w.grant.used + 16)));
    }
  }

  lemma {:induction false} SixteensUse(lines: Lines, d: Direction, reg: nat, n: nat, s: State, w: Watcher)
    requires In(s, Set(d, reg).(ccr := Some(UartSegments.ByteCcr(d, 16)), req := Some(BurstRequest)))
    requires w.grant.Held? && w.grant.request == BurstRequest && w.grant.line.write == d.FromMem?
    requires w.grant.used + 16 * n <= w.grant.line.burst && Iterate(n, UartSegments.Sixteen(), B, s).Ok?
    ensures var t := Iterate(n, UartSegments.Sixteen(), B, s).state;
            && In(t, Set(d, reg).(ccr := Some(UartSegments.ByteCcr(d, 16)), req := Some(BurstRequest)))
            && WatchTurns(lines, n, UartSegments.Sixteen(), B, s, w)
               == Some(w.(grant := w.grant.(used := w.grant.used + 16 * n)))
    decreases n
  {
    if n > 0 {
      SixteenUses(lines, d, reg, s, w);
      SixteensUse(lines, d, reg, n - 1, Exec(UartSegments.Sixteen(), s).state,
                  w.(grant := w.grant.(used := w.grant.used + 16)));
    }
  }

  lemma UartBurstPaced(lines: Lines, l: Line, d: Direction, reg: nat, burst: nat)
    requires UartSegments.BurstSize(burst) && lines.At(l.periph) == Some(l) && l.write == d.FromMem? && l.burst == burst
    ensures var x := Set(d, reg).(ccr := Some(UartSegments.ByteCcr(d, 16)));
            Paced(lines, x, UartSegments.UartBurst(l.periph, burst), x.(req := Some(BurstRequest)), Bursts(B, 1),
                  Singles(B, 1))
  {
    var x, turn := Set(d, reg).(ccr := Some(UartSegments.ByteCcr(d, 16))), UartSegments.UartBurst(l.periph, burst);
    forall s: State, w: Watcher ensures Paces(lines, x, turn, x.(req := Some(BurstRequest)), 1, 0, s, w) {
      if In(s, x) && UsedUp(w.grant) && Exec(turn, s).Ok? {
        var inner, granted := Loop(burst / 16, UartSegments.Sixteen(), B), s.(req := BurstRequest);
        HandshakeGrants(lines, l, B, s, w);
        assert Exec(inner, granted) == Iterate(burst / 16, UartSegments.Sixteen(), B, granted);
        SixteensUse(lines, d, reg, burst / 16, granted, Granted(l, BurstRequest, w));
      }
    }
  }

  function UartBurstCount(burst: nat, n: nat): nat {
    if burst == 0 then 0 else LongDivision.Quotient(n, burst)
  }

  function UartSingleCount(burst: nat, n: nat): nat {
    if burst == 0 then n else LongDivision.Remainder(n, burst)
  }

  lemma UartPhasesPaced(lines: Lines, l: Line, d: Direction, reg: nat, burst: nat, n: nat)
    requires UartSegments.BurstSize(burst) && lines.At(l.periph) == Some(l) && l.write == d.FromMem?
    requires l.burst == burst && l.single == 1
    ensures Paced(lines, Set(d, reg), UartSegments.UartPhases(d, l.periph, burst, n), Set(d, reg),
                  UartBurstCount(burst, n), UartSingleCount(burst, n))
  {
    var x, count, left := Set(d, reg), UartBurstCount(burst, n), UartSingleCount(burst, n);
    var bursts := if count != 0 then UartSegments.UartBursts(d, l.periph, burst, count) else Skip;
    var singles := if left != 0 then UartSegments.UartSingles(d, l.periph, left) else Skip;
    SkipPaced(lines, x);
    StreamTurnPaced(lines, l, d, reg, S, 1, 1, 1, 1, 1, 1);
    ManyPaced(lines, x, UartSegments.ByteCcr(d, 1), StreamTurn(d, S, l.periph, 1, 1), S, left, S);
    if burst != 0 {
      UartBurstPaced(lines, l, d, reg, burst);
      ManyPaced(lines, x, UartSegments.ByteCcr(d, 16), UartSegments.UartBurst(l.periph, burst), B, count, B);
      SeqPaced(lines, x, bursts, x, singles, x, count, 0, 0, left, count, left);
    }
  }

  // ---- Flash ----

  lemma PiecesPaced(lines: Lines, l: Line, d: Direction, reg: nat, form: Form, k: nat, count: nat)
    requires form != Plain && lines.At(l.periph) == Some(l) && l.write == d.FromMem?
    requires count != 0 ==> QspiSegments.Pow2(k) / 4 == l.Credit(RequestOf(form))
    ensures Paced(lines, Set(d, reg), QspiSegments.Pieces(d, form, l.periph, k, count), Set(d, reg),
                  Bursts(form, count), Singles(form, count))
  {
    var x, turn, c := Set(d, reg), QspiSegments.PieceTurn(d, form, l.periph, k), QspiSegments.PieceCcr(d, k);
    SkipPaced(lines, x);
    if count != 0 {
      StreamTurnPaced(lines, l, d, reg, form, QspiSegments.Unit(k), QspiSegments.PieceLength(k),
                      QspiSegments.PieceMultiple(k), 4, 1, QspiSegments.Pow2(k) / 4);
      if d.FromMem? {
        ManyPaced(lines, x, c, turn, form, count, Plain);
      } else {
        var begun := x.(ccr := Some(c));
        var y := begun.(req := Some(RequestOf(form)));
        NestedPaced(lines, begun, turn, y, Bursts(form, 1), Singles(form, 1), count, Bursts(form, count),
                    Singles(form, count));
        TellsPaced(lines, begun, begun, Nested(count, turn), y, x, Bursts(form, count), Singles(form, count));
        PhasePaced(lines, x, c, Nested(count, turn), x, Bursts(form, count), Singles(form, count));
      }
    }
  }

  lemma AlignPaced(lines: Lines, l: Line, d: Direction, reg: nat, pa: nat)
    requires lines.At(l.periph) == Some(l) && l.write == d.FromMem? && (pa % 8 != 0 ==> l.single == 1)
    ensures Paced(lines, Set(d, reg), QspiSegments.QspiAlign(d, l.periph, pa), Set(d, reg), 0,
                  if pa % 8 != 0 then 1 else 0)
  {
    var x, turn, c := Set(d, reg), QspiSegments.PieceTurn(d, S, l.periph, 2), QspiSegments.PieceCcr(d, 2);
    SkipPaced(lines, x);
    if pa % 8 != 0 {
      QspiSegments.SmallPowers();
      StreamTurnPaced(lines, l, d, reg, S, QspiSegments.Unit(2), QspiSegments.PieceLength(2),
                      QspiSegments.PieceMultiple(2), 4, 1, 1);
      TellsPaced(lines, x.(ccr := Some(c)), x.(ccr := Some(c)), turn,
                 x.(ccr := Some(c), req := Some(SingleRequest)), x, 0, 1);
      PhasePaced(lines, x, c, turn, x, 0, 1);
    }
  }

  lemma QspiPhasesPaced(lines: Lines, l: Line, d: Direction, reg: nat, z: QspiSegments.Sizes, pa: nat, left: nat)
    requires lines.At(l.periph) == Some(l) && l.write == d.FromMem? && (pa % 8 != 0 ==> l.single == 1)
    requires QspiSegments.BurstCount(z, left) != 0 ==> l.burst == QspiSegments.Pow2(z.burst) / 4
    requires QspiSegments.SingleCount(z, left) != 0 ==> l.single == QspiSegments.Pow2(z.single) / 4
    ensures Paced(lines, Set(d, reg), QspiSegments.QspiPhases(d, l.periph, z, pa, left), Set(d, reg),
                  QspiSegments.BurstCount(z, left),
                  (if pa % 8 != 0 then 1 else 0) + QspiSegments.SingleCount(z, left))
  {
    var x, count, singles, a := Set(d, reg), QspiSegments.BurstCount(z, left), QspiSegments.SingleCount(z, left),
                                if pa % 8 != 0 then 1 else 0;
    var p, q := QspiSegments.Pieces(d, B, l.periph, z.burst, count),
                QspiSegments.Pieces(d, S, l.periph, z.single, singles);
    AlignPaced(lines, l, d, reg, pa);
    PiecesPaced(lines, l, d, reg, B, z.burst, count);
    PiecesPaced(lines, l, d, reg, S, z.single, singles);
    SeqPaced(lines, x, p, x, q, x, count, 0, 0, singles, count, singles);
    SeqPaced(lines, x, QspiSegments.QspiAlign(d, l.periph, pa), x, Seq(p, q), x, 0, a, count, singles, count,
             a + singles);
  }

  // ---- Whole buffers ----

  /** The devices that are waited for. */
  predicate Waits(g: Generator) {
    g.Valid() && (g.Qspi? || g.Uart? || g.I2c?)
  }

  /** Their line, and how many accesses a request is for: a word for every four bytes of what the
      flash controller is set to, and a word at least; the burst size of a UART, or a byte; and the
      I2C threshold, if it is not more than sixteen, or a byte. */
  function LineOf(g: Generator): Line
    requires Waits(g)
  {
    match g
    case Qspi(d, p, z) =>
      Line(p, d.FromMem?, QspiSegments.Pow2(z.burst) / 4, if z.single < 2 then 1 else QspiSegments.Pow2(z.single) / 4)
    case Uart(d, p, b) => Line(p, d.FromMem?, b, 1)
    case I2c(d, p, th) => Line(p, d.FromMem?, if th < 2 then 0 else if th < 16 then th else 16, 1)
  }

  /** What is accessed under a burst of the flash is never more than the burst is for, and under a
      single request if and only if that is for a word at least. */
  lemma WithinRequestExactlyWhen(g: Generator)
    requires g.Qspi?
    ensures 4 * LineOf(g).burst <= QspiSegments.Pow2(g.sizes.burst)
    ensures 4 * LineOf(g).single <= QspiSegments.Pow2(g.sizes.single) <==> 2 <= g.sizes.single
  {
    QspiSegments.SmallPowers();
  }

  /** Twelve bytes from address 4, in bursts of eight bytes and single requests of one: they are all
      moved, and the first four of them under one single request. */
  lemma AligningWordExceeds(d: Direction, periph: nat)
    ensures var g := Qspi(d, periph, QspiSegments.Sizes(0, 3));
            && InElements(g, Segment(4, 12)) && SegmentBursts(g, Segment(4, 12)) == 1
            && SegmentSingles(g, Segment(4, 12)) == 1 && QspiSegments.Pow2(g.sizes.single) < 4 * LineOf(g).single
  {
    QspiSegments.SmallPowers();
    assert QspiSegments.BurstCount(QspiSegments.Sizes(0, 3), 8) == 1;
    FlashCounts(QspiSegments.Sizes(0, 3), Segment(4, 12));
  }

  /** What is behind the word that aligns a flash segment. */
  function BehindAlign(s: Segment): nat {
    if s.pa % 8 != 0 && 4 <= s.size then s.size - 4 else s.size
  }

  function Fitting(n: nat, b: nat): nat
    requires 0 < b
  {
    n / b
  }

  function Left(n: nat, b: nat): nat
    requires 0 < b
  {
    n % b
  }

  /** How many bursts are asked for in a segment: as many as fit, and none if its size is negative as
      a signed number. */
  function SegmentBursts(g: Generator, s: Segment): nat
    requires Waits(g)
  {
    match g
    case Qspi(_, _, z) => if z.single < z.burst then Fitting(BehindAlign(s), QspiSegments.Pow2(z.burst)) else 0
    case Uart(_, _, b) => if b == 0 || 0x8000_0000 <= s.size then 0 else Fitting(s.size, b)
    case I2c(_, _, th) => if th < 2 || 0x8000_0000 <= s.size then 0 else Fitting(s.size, if th < 16 then th else 16)
  }

  /** How many single requests: for the rest. */
  function SegmentSingles(g: Generator, s: Segment): nat
    requires Waits(g)
  {
    match g
    case Qspi(_, _, z) =>
      (if s.pa % 8 != 0 then 1 else 0)
      + Fitting(if z.single < z.burst then Left(BehindAlign(s), QspiSegments.Pow2(z.burst)) else BehindAlign(s),
                QspiSegments.Pow2(z.single))
    case Uart(_, _, b) => if b == 0 || 0x8000_0000 <= s.size then s.size else Left(s.size, b)
    case I2c(_, _, th) => if th < 2 || 0x8000_0000 <= s.size then s.size else Left(s.size, if th < 16 then th else 16)
  }

  function AllBursts(g: Generator, segs: seq<Segment>): nat
    requires Waits(g)
  {
    if segs == [] then 0 else SegmentBursts(g, segs[0]) + AllBursts(g, segs[1..])
  }

  function AllSingles(g: Generator, segs: seq<Segment>): nat
    requires Waits(g)
  {
    if segs == [] then 0 else SegmentSingles(g, segs[0]) + AllSingles(g, segs[1..])
  }

  lemma SplitDivision(n: nat, b: nat)
    requires 2 <= b && LongDivision.Splits(n, b)
    ensures LongDivision.Quotient(n, b) == if 0x8000_0000 <= n then 0 else Fitting(n, b)
    ensures LongDivision.Remainder(n, b) == if 0x8000_0000 <= n then n else Left(n, b)
  {
    if n < 0x8000_0000 {
      LongDivision.PositiveSize(n, b);
    } else {
      LongDivision.NegativeSize(n, b, 0x1_0000_0000 - n);
      SmallRest(0x1_0000_0000 - n, b);
    }
  }

  lemma SmallRest(m: nat, b: nat)
    requires m < b
    ensures m % b == m
  {
  }

  lemma FlashCounts(z: QspiSegments.Sizes, s: Segment)
    requires QspiSegments.QspiSplits(z, s.pa, s.size)
    ensures var left, g := s.size - QspiSegments.AlignSize(s.pa), Qspi(FromMem, 0, z);
            && QspiSegments.BurstCount(z, left) == SegmentBursts(g, s)
            && (if s.pa % 8 != 0 then 1 else 0) + QspiSegments.SingleCount(z, left) == SegmentSingles(g, s)
  {
    QspiSegments.PartsAndRest(s.size - QspiSegments.AlignSize(s.pa), z.burst);
  }

  /** What comes behind the setting of the address of the memory side. */
  function Phases(g: Generator, s: Segment): Prog
    requires Waits(g)
  {
    match g
    case Qspi(d, p, z) =>
      var align := QspiSegments.AlignSize(s.pa);
      QspiSegments.QspiPhases(d, p, z, s.pa, if align <= s.size then s.size - align else 0)
    case Uart(d, p, b) => UartSegments.UartPhases(d, p, b, s.size)
    case I2c(d, p, th) => I2cSegments.I2cPhases(d, p, th, s.size)
  }

  lemma FlashPaced(lines: Lines, g: Generator, reg: nat, s: Segment)
    requires Waits(g) && g.Qspi? && InElements(g, s) && lines.At(g.periph) == Some(LineOf(g))
    ensures Paced(lines, Set(g.d, reg), Phases(g, s), Set(g.d, reg), SegmentBursts(g, s), SegmentSingles(g, s))
  {
    FlashCounts(g.sizes, s);
    QspiSegments.SmallPowers();
    QspiPhasesPaced(lines, LineOf(g), g.d, reg, g.sizes, s.pa, s.size - QspiSegments.AlignSize(s.pa));
  }

  lemma UartPaced(lines: Lines, g: Generator, reg: nat, s: Segment)
    requires Waits(g) && g.Uart? && InElements(g, s) && lines.At(g.periph) == Some(LineOf(g))
    ensures Paced(lines, Set(g.d, reg), Phases(g, s), Set(g.d, reg), SegmentBursts(g, s), SegmentSingles(g, s))
  {
    if g.burst != 0 { SplitDivision(s.size, g.burst); }
    UartPhasesPaced(lines, LineOf(g), g.d, reg, g.burst, s.size);
  }

  lemma I2cPaced(lines: Lines, g: Generator, reg: nat, s: Segment)
    requires Waits(g) && g.I2c? && InElements(g, s) && lines.At(g.periph) == Some(LineOf(g))
    ensures Paced(lines, Set(g.d, reg), Phases(g, s), Set(g.d, reg), SegmentBursts(g, s), SegmentSingles(g, s))
  {
    if g.threshold > 1 { SplitDivision(s.size, LineOf(g).burst); }
    I2cPhasesPaced(lines, LineOf(g), g.d, reg, g.threshold, s.size);
  }

  lemma PhasesPaced(lines: Lines, g: Generator, reg: nat, s: Segment)
    requires Waits(g) && InElements(g, s) && lines.At(g.periph) == Some(LineOf(g))
    ensures Paced(lines, Set(g.d, reg), Phases(g, s), Set(g.d, reg), SegmentBursts(g, s), SegmentSingles(g, s))
  {
    match g
    case Qspi(_, _, _) => FlashPaced(lines, g, reg, s);
    case Uart(_, _, _) => UartPaced(lines, g, reg, s);
    case I2c(_, _, _) => I2cPaced(lines, g, reg, s);
  }

  lemma SegmentPaced(lines: Lines, g: Generator, reg: nat, s: Segment)
    requires Waits(g) && InElements(g, s) && lines.At(g.periph) == Some(LineOf(g))
    ensures Paced(lines, Set(g.d, reg), SegmentProgram(g, s), Set(g.d, reg), SegmentBursts(g, s), SegmentSingles(g, s))
  {
    var x, move := Set(g.d, reg), MoveMemory(g.d, s.pa);
    var moved := if g.d.FromMem? then x.(sar := Some(s.pa)) else x.(dar := Some(s.pa));
    PhasesPaced(lines, g, reg, s);
    SetPaced(lines, x, move, moved);
    TellsPaced(lines, x, x, Op(move), moved, x, 0, 0);
    SeqPaced(lines, x, Op(move), x, Phases(g, s), x, 0, 0, SegmentBursts(g, s), SegmentSingles(g, s),
             SegmentBursts(g, s), SegmentSingles(g, s));
  }

  lemma {:induction false} EachPaced(lines: Lines, g: Generator, reg: nat, segs: seq<Segment>)
    requires Waits(g) && AllInElements(g, segs) && lines.At(g.periph) == Some(LineOf(g))
    ensures Paced(lines, Set(g.d, reg), EachSegment(g, segs), Set(g.d, reg), AllBursts(g, segs), AllSingles(g, segs))
    decreases segs
  {
    var x := Set(g.d, reg);
    if segs == [] {
      SkipPaced(lines, x);
    } else {
      SegmentPaced(lines, g, reg, segs[0]);
      EachPaced(lines, g, reg, segs[1..]);
      SeqPaced(lines, x, SegmentProgram(g, segs[0]), x, EachSegment(g, segs[1..]), x, SegmentBursts(g, segs[0]),
               SegmentSingles(g, segs[0]), AllBursts(g, segs[1..]), AllSingles(g, segs[1..]), AllBursts(g, segs),
               AllSingles(g, segs));
    }
  }

  /** Nothing is known but where memory ends. */
  function Anything(reg: nat): Setting {
    Setting(reg, 0, None, None, None, None)
  }

  lemma BufferPaced(lines: Lines, g: Generator, reg: nat, segs: seq<Segment>)
    requires Waits(g) && AllInElements(g, segs) && lines.At(g.periph) == Some(LineOf(g))
    ensures Paced(lines, Anything(reg), BufferProgram(g, reg, segs), Set(g.d, reg), AllBursts(g, segs),
                  AllSingles(g, segs))
  {
    var x := Set(g.d, reg);
    SetPaced(lines, Anything(reg), MoveRegister(g.d, reg), x);
    EachPaced(lines, g, reg, segs);
    SeqPaced(lines, Anything(reg), Preface(g, reg), x, EachSegment(g, segs), x, 0, 0, AllBursts(g, segs),
             AllSingles(g, segs), AllBursts(g, segs), AllSingles(g, segs));
  }

  lemma RequestRuns(g: Generator, reg: nat, s: State, segs: seq<Segment>) returns (t: State)
    requires Waits(g) && Ready(g, reg, if g.d.FromMem? then s.(dar := reg) else s.(sar := reg), segs)
    ensures Exec(BufferProgram(g, reg, segs), s) == Ok(t)
  {
    var begun := PrefaceRuns(g, reg, segs, s);
    if g.d.FromMem? {
      t := BufferSent(g, reg, begun, segs);
    } else {
      t := BufferReceived(g, reg, begun, segs);
    }
  }

  /** A watched run of a whole request, from any state in which it is carried out: up to the halt,
      every access to the register is under a request of the device's own line, of the type of the
      access and for this direction, and there are exactly as many as the request is for; and so
      many requests of each type are waited for. */
  lemma RequestKeepsPace(g: Generator, reg: nat, s: State, segs: seq<Segment>, event: Option<nat>)
    returns (t: State, w: Watcher)
    requires Waits(g) && Ready(g, reg, if g.d.FromMem? then s.(dar := reg) else s.(sar := reg), segs)
    ensures WatchedReaches(Lines(LineOf(g), LineOf(g)), ProgramText(BufferProgram(g, reg, segs), event, false),
                           Running(0, [], s), Watcher(Idle, 0, 0), Halted(t), w)
    ensures UsedUp(w.grant) && w.bursts == AllBursts(g, segs) && w.singles == AllSingles(g, segs)
  {
    var done := RequestRuns(g, reg, s, segs);
    var lines, p, start := Lines(LineOf(g), LineOf(g)), BufferProgram(g, reg, segs), Watcher(Idle, 0, 0);
    BufferPaced(lines, g, reg, segs);
    assert Paces(lines, Anything(reg), p, Set(g.d, reg), AllBursts(g, segs), AllSingles(g, segs), s, start);
    w := Watch(lines, p, s, start).value;
    BufferWellFormed(g, reg, segs);
    t := RequestWatched(lines, p, event, false, s, start, done, w);
  }
}
