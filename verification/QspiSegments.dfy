/** Segments between memory and the QSPI flash controller, which asks for data in single requests
    and in bursts, each of a power of two bytes that its registers set. */
module QspiSegments {
  import opened Arithmetic
  import opened Options
  import opened Pl330
  import opened Assembler
  import opened Transfer
  import opened Turns
  import opened Streams

  function Pow2(k: nat): (p: nat)
    ensures 0 < p
  {
    if k == 0 then 1 else 2 * Pow2(k - 1)
  }

  // ---- One request ----

  /** The memory side of a request for 2^k bytes: beats of at most eight bytes, at most sixteen in
      one instruction. */
  function Unit(k: nat): nat {
    if k == 0 then 1 else if k == 1 then 2 else if k == 2 then 4 else 8
  }

  function Beats8(k: nat): nat {
    Pow2(k) / Unit(k)
  }

  function PieceLength(k: nat): nat {
    if Beats8(k) <= 16 then Beats8(k) else 16
  }

  function PieceMultiple(k: nat): nat {
    if Beats8(k) <= 16 then 1 else Beats8(k) / 16
  }

  function PieceCcr(d: Direction, k: nat): Ccr {
    StreamCcr(d, Unit(k), PieceLength(k), 4, 1)
  }

  /** The register side is counted in words. */
  function PieceTurn(d: Direction, form: Form, periph: nat, k: nat): Prog {
    StreamTurn(d, form, periph, PieceMultiple(k), Pow2(k) / 4)
  }

  /** Writes to the flash are short; only reads are nested by 256. */
  function Times(d: Direction, count: nat, turn: Prog): Prog {
    if d.FromMem? then Chunked(count, turn, Plain) else Nested(count, turn)
  }

  /** `count` requests for 2^k bytes each. */
  function Pieces(d: Direction, form: Form, periph: nat, k: nat, count: nat): Prog {
    if count != 0 then Phase(PieceCcr(d, k), Times(d, count, PieceTurn(d, form, periph, k))) else Skip
  }

  // ---- A segment ----

  /** What the flash controller's registers say: single requests and bursts, as powers of two. */
  datatype Sizes = Sizes(single: nat, burst: nat)

  function AlignSize(pa: nat): nat {
    if pa % 8 != 0 then 4 else 0
  }

  function QspiAlign(d: Direction, periph: nat, pa: nat): Prog {
    if pa % 8 != 0 then Phase(PieceCcr(d, 2), PieceTurn(d, S, periph, 2)) else Skip
  }

  function Quotient(a: nat, b: nat): nat
    requires 0 < b
  {
    a / b
  }

  function Parts(n: nat, k: nat): nat {
    Quotient(n, Pow2(k))
  }

  function Rest(n: nat, k: nat): nat {
    n % Pow2(k)
  }

  /** How many bursts are used: none unless they are longer than a single request. */
  function BurstCount(z: Sizes, left: nat): nat {
    if z.burst > z.single then Parts(left, z.burst) else 0
  }

  function SingleCount(z: Sizes, left: nat): nat {
    Parts(if BurstCount(z, left) != 0 then Rest(left, z.burst) else left, z.single)
  }

  function QspiPhases(d: Direction, periph: nat, z: Sizes, pa: nat, left: nat): Prog {
    Seq(QspiAlign(d, periph, pa),
        Seq(Pieces(d, B, periph, z.burst, BurstCount(z, left)), Pieces(d, S, periph, z.single, SingleCount(z, left))))
  }

  function QspiSegment(d: Direction, periph: nat, z: Sizes, pa: nat, n: nat): Prog {
    Seq(Op(MoveMemory(d, pa)), QspiPhases(d, periph, z, pa, if AlignSize(pa) <= n then n - AlignSize(pa) else 0))
  }

  /** Everything else is refused. */
  predicate Suitable(z: Sizes, pa: nat, n: nat) {
    pa % 4 == 0 && n % 4 == 0 && Rest(n, z.single) == 0
  }

  // ---- Generating ----

  method EmitTimes(program: Program, status: Status, d: Direction, form: Form, periph: nat, mem: nat, reg: nat,
      count: nat)
    returns (s: Status)
    requires program.Holds(status) && status.Ordinary()
    modifies program
    ensures program.Holds(s) && s.Ordinary()
    ensures program.intended == Append(old(program.intended), Times(d, count, StreamTurn(d, form, periph, mem, reg)))
  {
    if d.FromMem? {
      s := EmitTurns(program, status, form, periph, Loads(d, mem, reg), Stores(d, mem, reg), count, Plain);
    } else {
      s := EmitNested(program, status, form, periph, Loads(d, mem, reg), Stores(d, mem, reg), count);
    }
  }

  method EmitQspiAlign(program: Program, status: Status, d: Direction, periph: nat, pa: nat) returns (s: Status)
    requires program.Holds(status) && status.Ordinary()
    modifies program
    ensures program.Holds(s) && s.Ordinary()
    ensures program.intended == Append(old(program.intended), QspiAlign(d, periph, pa))
  {
    s := status;
    if pa % 8 != 0 {
      PieceSplits(2);
      s := program.Emit(s, MovCcr(StreamCcr(d, 4, 1, 4, 1)));
      s := EmitTurn(program, s, S, periph, Loads(d, 1, 1), Stores(d, 1, 1));
    }
  }

  method EmitPieces(program: Program, status: Status, d: Direction, form: Form, periph: nat, k: nat, count: nat)
    returns (s: Status)
    requires program.Holds(status) && status.Ordinary()
    modifies program
    ensures program.Holds(s) && s.Ordinary()
    ensures program.intended == Append(old(program.intended), Pieces(d, form, periph, k, count))
  {
    s := status;
    if count != 0 {
      var unit, size := if k < 3 then Pow2(k) else 8, Pow2(k);
      var length, multiple := size / unit, 1;
      if length > 16 {
        length, multiple := 16, size / unit / 16;
      }
      PieceSplits(k);
      s := program.Emit(s, MovCcr(StreamCcr(d, unit, length, 4, 1)));
      s := EmitTimes(program, s, d, form, periph, multiple, size / 4, count);
    }
  }

  /** The bursts, if any are used, and the single requests behind them. */
  method EmitQspiData(program: Program, status: Status, d: Direction, periph: nat, z: Sizes, left: nat)
    returns (s: Status)
    requires program.Holds(status) && status.Ordinary()
    modifies program
    ensures program.Holds(s) && s.Ordinary()
    ensures program.intended
         == Append(Append(old(program.intended), Pieces(d, B, periph, z.burst, BurstCount(z, left))),
                   Pieces(d, S, periph, z.single, SingleCount(z, left)))
  {
    s := status;
    var burstCount, singleCount := Parts(left, z.burst), Parts(left, z.single);
    if z.burst > z.single && burstCount != 0 {
      singleCount := Parts(Rest(left, z.burst), z.single);
      s := EmitPieces(program, s, d, B, periph, z.burst, burstCount);
    }
    s := EmitPieces(program, s, d, S, periph, z.single, singleCount);
  }

  method EmitQspiSegment(program: Program, d: Direction, periph: nat, z: Sizes, pa: nat, n: nat) returns (s: Status)
    requires program.Holds(Success) && 0 < n
    modifies program
    ensures program.Holds(s) && (s.Ordinary() <==> Suitable(z, pa, n))
    ensures s == Error <==> pa % 4 != 0 || n % 4 != 0 || n % Pow2(z.single) != 0
    ensures Suitable(z, pa, n) ==>
      AlignSize(pa) <= n && program.intended == Append(old(program.intended), QspiSegment(d, periph, z, pa, n))
  {
    if pa % 4 != 0 {
      return Error;
    }
    if n % 4 != 0 {
      return Error;
    }
    var left := n;
    s := program.Emit(Success, MoveMemory(d, pa));
    if Rest(n, z.single) != 0 {
      return Error;
    }
    s := EmitQspiAlign(program, s, d, periph, pa);
    if pa % 8 != 0 {
      left := left - 4;
    }
    s := EmitQspiData(program, s, d, periph, z, left);
    QspiText(old(program.intended), d, periph, z, pa, left);
  }

  lemma QspiText(c: Code, d: Direction, periph: nat, z: Sizes, pa: nat, left: nat)
    ensures Append(c, Seq(Op(MoveMemory(d, pa)), QspiPhases(d, periph, z, pa, left)))
         == Append(Append(Append(Append(c, Op(MoveMemory(d, pa))), QspiAlign(d, periph, pa)),
                          Pieces(d, B, periph, z.burst, BurstCount(z, left))),
                   Pieces(d, S, periph, z.single, SingleCount(z, left)))
  {
    var c1 := Append(c, Op(MoveMemory(d, pa)));
    var a, b, e := QspiAlign(d, periph, pa), Pieces(d, B, periph, z.burst, BurstCount(z, left)),
                   Pieces(d, S, periph, z.single, SingleCount(z, left));
    AppendSeq(c, Op(MoveMemory(d, pa)), Seq(a, Seq(b, e)));
    AppendSeq(c1, a, Seq(b, e));
    AppendSeq(Append(c1, a), b, e);
  }

  // ---- Powers of two ----

  lemma Pow2Thrice(k: nat)
    requires 3 <= k
    ensures Pow2(k) == 8 * Pow2(k - 3)
  {
    assert Pow2(k) == 2 * Pow2(k - 1) && Pow2(k - 1) == 2 * Pow2(k - 2) && Pow2(k - 2) == 2 * Pow2(k - 3);
  }

  lemma {:induction false} Pow2Grows(k: nat, m: nat)
    requires k <= m
    ensures 1 <= Pow2(k) <= Pow2(m)
  {
    if k < m { Pow2Grows(k, m - 1); } else if k > 0 { Pow2Grows(k - 1, m - 1); }
  }

  lemma {:induction false} Pow2Divides(k: nat, m: nat)
    requires k <= m
    ensures Pow2(m) % Pow2(k) == 0
  {
    if k == m {
      MulMod(1, Pow2(k));
    } else {
      Pow2Divides(k, m - 1);
      MulModUnit(2, Pow2(m - 1), Pow2(k));
    }
  }

  lemma SmallPowers()
    ensures Pow2(0) == 1 && Pow2(1) == 2 && Pow2(2) == 4 && Pow2(3) == 8 && Pow2(4) == 16
  {
    assert Pow2(1) == 2 && Pow2(2) == 4 && Pow2(3) == 8;
  }

  lemma EighthsSplit(k: nat, eighth: nat, q: nat)
    requires 3 <= k && Pow2(k) == 8 * eighth && 0 < eighth && (eighth <= 16 || eighth == 16 * q)
    ensures Beats8(k) == eighth && 1 <= PieceLength(k) <= 16 && 1 <= PieceMultiple(k) &&
            (2 <= eighth ==> 2 <= PieceLength(k))
    ensures PieceMultiple(k) * (PieceLength(k) * 8) == Pow2(k)
  {
    if eighth > 16 {
      assert PieceMultiple(k) == q && PieceLength(k) == 16;
      assert q * (16 * 8) == Pow2(k);
    }
  }

  /** The instructions for the memory side of a request add up to the request; its words do unless
      it is less than a word. */
  lemma PieceSplits(k: nat)
    ensures Unit(k) == if k < 3 then Pow2(k) else 8
    ensures 1 <= PieceLength(k) <= 16 && 1 <= PieceMultiple(k)
    ensures PieceMultiple(k) * (PieceLength(k) * Unit(k)) == Pow2(k)
    ensures if k <= 3 then PieceLength(k) == 1 && PieceMultiple(k) == 1 else 2 <= PieceLength(k)
    ensures if k < 2 then Pow2(k) / 4 == 0 else Pow2(k) / 4 * 4 == Pow2(k)
  {
    SmallPowers();
    if k >= 3 {
      Pow2Thrice(k);
      if k > 3 { Pow2Grows(1, k - 3); }
      if k < 7 {
        Pow2Grows(k - 3, 4);
        EighthsSplit(k, Pow2(k - 3), 0);
      } else {
        Pow2Thrice(k - 3);
        EighthsSplit(k, Pow2(k - 3), Pow2(k - 7));
      }
    }
  }

  // ---- Well-formedness ----

  lemma PiecesWellFormed(d: Direction, form: Form, periph: nat, k: nat, count: nat)
    ensures WellFormed(Pieces(d, form, periph, k, count), 2)
  {
    PieceSplits(k);
    var mem, reg, turn := PieceMultiple(k), Pow2(k) / 4, PieceTurn(d, form, periph, k);
    assert WellFormed(Op(MovCcr(PieceCcr(d, k))), 2);
    TurnWellFormed(form, periph, Loads(d, mem, reg), Stores(d, mem, reg), 0);
    WellFormedMonotone(turn, 0, 1);
    ChunkedWellFormed(count, turn, Plain, 2);
    NestedWellFormed(count, turn);
  }

  lemma QspiSegmentWellFormed(d: Direction, periph: nat, z: Sizes, pa: nat, n: nat)
    ensures WellFormed(QspiSegment(d, periph, z, pa, n), 2)
  {
    var left := if AlignSize(pa) <= n then n - AlignSize(pa) else 0;
    PieceSplits(2);
    TurnWellFormed(S, periph, Loads(d, 1, 1), Stores(d, 1, 1), 2);
    assert WellFormed(Op(MovCcr(PieceCcr(d, 2))), 2) && WellFormed(Op(MoveMemory(d, pa)), 2);
    assert WellFormed(QspiAlign(d, periph, pa), 2);
    PiecesWellFormed(d, B, periph, z.burst, BurstCount(z, left));
    PiecesWellFormed(d, S, periph, z.single, SingleCount(z, left));
    assert WellFormed(QspiPhases(d, periph, z, pa, left), 2);
  }

  // ---- What the program of a segment does ----

  /** The requests of this form and size that load as much as they store: at least a word, and, as
      the S form of an instruction moves a single beat, at most one beat if they are single. */
  predicate Sound(form: Form, k: nat) {
    2 <= k && (form == S ==> k <= 3)
  }

  lemma TimesMoves(sh: Shape, d: Direction, p: Prog, ccr: Ccr, n: nat, unit: nat, post: Option<Request>, count: nat,
      total: nat)
    requires Moves(sh, p, ccr, n, unit, None, post) && 0 < unit && n % unit == 0 && 0 < count && total == count * n
    ensures Moves(sh, Times(d, count, p), ccr, total, unit, None, post)
  {
    if d.FromMem? {
      ChunkedMoves(sh, p, ccr, n, unit, None, post, count, Plain, total);
    } else {
      NestedMoves(sh, p, ccr, n, unit, post, count, total);
    }
  }

  lemma PieceTurnMoves(d: Direction, reg: nat, form: Form, periph: nat, k: nat, pa: nat, n: nat)
    requires Aligned(4, pa) && Sound(form, k)
    ensures Moves(StreamShape(d, reg, 4, pa, n), PieceTurn(d, form, periph, k), PieceCcr(d, k), Pow2(k), Unit(k),
                  None, Leaves(form))
    ensures Pow2(k) % Unit(k) == 0
  {
    PieceSplits(k);
    MulModUnit(PieceMultiple(k) * PieceLength(k), Unit(k), Unit(k));
    assert PieceMultiple(k) * PieceLength(k) * Unit(k) == Pow2(k);
    StreamTurnMoves(d, reg, 4, pa, n, form, periph, Unit(k), PieceLength(k), PieceMultiple(k), 1, Pow2(k) / 4, Pow2(k));
  }

  lemma PiecesCarry(d: Direction, reg: nat, form: Form, periph: nat, k: nat, pa: nat, n: nat, count: nat, from: nat,
      to: nat)
    requires Aligned(4, pa) && to == from + count * Pow2(k) <= n
    requires count != 0 ==> Sound(form, k) && (pa + from) % Unit(k) == 0
    ensures Carries(StreamShape(d, reg, 4, pa, n), Pieces(d, form, periph, k, count), from, to)
  {
    if count != 0 {
      var sh, turn := StreamShape(d, reg, 4, pa, n), PieceTurn(d, form, periph, k);
      PieceSplits(k);
      PieceTurnMoves(d, reg, form, periph, k, pa, n);
      TimesMoves(sh, d, turn, PieceCcr(d, k), Pow2(k), Unit(k), Leaves(form), count, to - from);
      PhaseCarries(sh, PieceCcr(d, k), Times(d, count, turn), to - from, Unit(k), Leaves(form), from, to);
    } else {
      assert count * Pow2(k) == 0;
    }
  }

  lemma QspiAlignCarries(d: Direction, reg: nat, periph: nat, pa: nat, n: nat)
    requires Aligned(4, pa) && AlignSize(pa) <= n
    ensures Carries(StreamShape(d, reg, 4, pa, n), QspiAlign(d, periph, pa), 0, AlignSize(pa))
  {
    if pa % 8 != 0 {
      SmallPowers();
      PieceSplits(2);
      PieceTurnMoves(d, reg, S, periph, 2, pa, n);
      PhaseCarries(StreamShape(d, reg, 4, pa, n), PieceCcr(d, 2), PieceTurn(d, S, periph, 2), 4, 4, Leaves(S), 0, 4);
    }
  }

  /** What the requests for `left` bytes come to. */
  function Fetched(z: Sizes, left: nat): nat {
    BurstCount(z, left) * Pow2(z.burst) + SingleCount(z, left) * Pow2(z.single)
  }

  /** The bytes that the program of a segment moves. */
  function QspiMoved(z: Sizes, pa: nat, n: nat): nat {
    if AlignSize(pa) <= n then AlignSize(pa) + Fetched(z, n - AlignSize(pa)) else 0
  }

  /** All the requests that are made for `left` bytes load as much as they store. */
  predicate AllSound(z: Sizes, left: nat) {
    && (BurstCount(z, left) != 0 ==> Sound(B, z.burst))
    && (SingleCount(z, left) != 0 ==> Sound(S, z.single))
  }

  lemma PartsAndRest(n: nat, k: nat)
    ensures Parts(n, k) * Pow2(k) + Rest(n, k) == n && Rest(n, k) < Pow2(k)
  {
  }

  /** Whole requests are made until less than a single one is left. */
  lemma FetchedIs(z: Sizes, left: nat)
    ensures Fetched(z, left) == left - Rest(left, z.single)
  {
    var bursts, k := BurstCount(z, left), z.single;
    var mid, one := bursts * Pow2(z.burst), Pow2(k);
    PartsAndRest(left, z.burst);
    var rest := if bursts != 0 then Rest(left, z.burst) else left;
    assert mid + rest == left by { if bursts == 0 { assert mid == 0; } }
    PartsAndRest(rest, k);
    assert mid % one == 0 by {
      if bursts != 0 {
        Pow2Divides(k, z.burst);
        MulModUnit(bursts, Pow2(z.burst), one);
      } else {
        assert mid == 0;
        MulMod(0, one);
      }
    }
    SameRest(mid, rest, left, one);
  }

  lemma SameRest(mid: nat, rest: nat, left: nat, one: nat)
    requires 0 < one && mid % one == 0 && left == mid + rest
    ensures left % one == rest % one
  {
    var p, q, r := mid / one, rest / one, rest % one;
    assert mid == p * one && rest == q * one + r;
    assert left == (p + q) * one + r;
    QuotientOf(left, one, p + q, r);
  }

  lemma QuotientOf(n: nat, one: nat, q: nat, r: nat)
    requires 0 < one && n == q * one + r && r < one
    ensures n % one == r
  {
    var d := q - n / one;
    assert n == n / one * one + n % one;
    assert d * one == n % one - r by { assert d * one == q * one - n / one * one; }
    MultiplesApart(d, one);
  }

  /** Requests behind the aligning word and the bursts begin at a multiple of their beats. */
  lemma PiecesAligned(z: Sizes, pa: nat, left: nat)
    requires pa % 4 == 0 && AllSound(z, left)
    ensures (pa + AlignSize(pa)) % 8 == 0
    ensures BurstCount(z, left) != 0 ==> (pa + AlignSize(pa)) % Unit(z.burst) == 0
    ensures SingleCount(z, left) != 0 ==>
      (pa + AlignSize(pa) + BurstCount(z, left) * Pow2(z.burst)) % Unit(z.single) == 0
  {
    var at, bursts := pa + AlignSize(pa), BurstCount(z, left);
    UnitsDivide(at, z.burst);
    if SingleCount(z, left) != 0 {
      UnitsDivide(at, z.single);
      var unit := Unit(z.single);
      assert bursts * Pow2(z.burst) % unit == 0 by {
        if bursts != 0 {
          PieceSplits(z.single);
          Pow2Divides(z.single, z.burst);
          SmallPowers();
          MulModUnit(bursts, Pow2(z.burst), unit);
        } else {
          assert bursts * Pow2(z.burst) == 0;
        }
      }
      ModAdd(at, bursts * Pow2(z.burst), unit);
    }
  }

  lemma UnitsDivide(at: nat, k: nat)
    requires at % 8 == 0
    ensures at % Unit(k) == 0
  {
    SmallerBeat(at, 8, Unit(k));
  }

  lemma QspiDataCarries(d: Direction, reg: nat, periph: nat, z: Sizes, pa: nat, n: nat, left: nat)
    requires Aligned(4, pa) && AllSound(z, left) && n == AlignSize(pa) + Fetched(z, left)
    ensures Carries(StreamShape(d, reg, 4, pa, n),
                    Seq(Pieces(d, B, periph, z.burst, BurstCount(z, left)),
                        Pieces(d, S, periph, z.single, SingleCount(z, left))),
                    AlignSize(pa), n)
  {
    var a, bursts, singles := AlignSize(pa), BurstCount(z, left), SingleCount(z, left);
    var mid := a + bursts * Pow2(z.burst);
    PiecesAligned(z, pa, left);
    PiecesCarry(d, reg, B, periph, z.burst, pa, n, bursts, a, mid);
    PiecesCarry(d, reg, S, periph, z.single, pa, n, singles, mid, n);
    CarriesSeq(StreamShape(d, reg, 4, pa, n), Pieces(d, B, periph, z.burst, bursts),
               Pieces(d, S, periph, z.single, singles), a, mid, n);
  }

  lemma QspiPartsCarry(d: Direction, reg: nat, periph: nat, z: Sizes, pa: nat, left: nat, moved: nat)
    requires Aligned(4, pa) && AllSound(z, left) && moved == AlignSize(pa) + Fetched(z, left)
    ensures Carries(StreamShape(d, reg, 4, pa, moved), QspiPhases(d, periph, z, pa, left), 0, moved)
  {
    var bursts, singles := BurstCount(z, left), SingleCount(z, left);
    QspiAlignCarries(d, reg, periph, pa, moved);
    QspiDataCarries(d, reg, periph, z, pa, moved, left);
    CarriesSeq(StreamShape(d, reg, 4, pa, moved), QspiAlign(d, periph, pa),
               Seq(Pieces(d, B, periph, z.burst, bursts), Pieces(d, S, periph, z.single, singles)),
               0, AlignSize(pa), moved);
  }

  /** The aligning word, the bursts and the single requests together move as many bytes as they
      come to, and in order, when all requests are sound. */
  lemma QspiPhasesCarry(d: Direction, reg: nat, periph: nat, z: Sizes, pa: nat, n: nat)
    requires Aligned(4, pa) && AlignSize(pa) <= n && AllSound(z, n - AlignSize(pa))
    ensures Carries(StreamShape(d, reg, 4, pa, QspiMoved(z, pa, n)), QspiPhases(d, periph, z, pa, n - AlignSize(pa)),
                    0, QspiMoved(z, pa, n))
  {
    QspiPartsCarry(d, reg, periph, z, pa, n - AlignSize(pa), QspiMoved(z, pa, n));
  }

  /** The size test lets through what is left over behind an aligning word: of single requests
      longer than a word, the last one is then never made. */
  lemma MovedIsAll(z: Sizes, pa: nat, n: nat)
    requires Suitable(z, pa, n) && 0 < n
    ensures AlignSize(pa) <= n && QspiMoved(z, pa, n) <= n
    ensures QspiMoved(z, pa, n) == n <==> pa % 8 == 0 || z.single <= 2
  {
    var left := n - AlignSize(pa);
    FetchedIs(z, left);
    if pa % 8 != 0 {
      RestOfShort(z.single, n);
    }
  }

  lemma NotAMultiple(x: nat, one: nat)
    requires 0 < x < one
    ensures x % one != 0
  {
  }

  lemma RestOfShort(k: nat, n: nat)
    requires 4 <= n && Rest(n, k) == 0
    ensures Rest(n - 4, k) == 0 <==> k <= 2
  {
    SmallPowers();
    if k <= 2 {
      assert Pow2(k) == 1 || Pow2(k) == 2 || Pow2(k) == 4;
      ModSub(n, 4, Pow2(k));
    } else {
      Pow2Grows(3, k);
      NotAMultiple(4, Pow2(k));
      if Rest(n - 4, k) == 0 { ModSub(n, n - 4, Pow2(k)); }
    }
  }

  /** The sizes for which a segment is moved whole. */
  predicate QspiSplits(z: Sizes, pa: nat, n: nat) {
    (pa % 8 == 0 || z.single <= 2) && AlignSize(pa) <= n && AllSound(z, n - AlignSize(pa))
  }

  /** With single requests of four bytes every segment is moved whole, whatever the bursts. */
  lemma FourBytesSplit(burst: nat, pa: nat, n: nat)
    requires Suitable(Sizes(2, burst), pa, n) && 0 < n
    ensures QspiSplits(Sizes(2, burst), pa, n)
  {
  }
}
