/** Filling a segment of memory with zeros. */
module ZeroFill {
  import opened Options
  import opened Pl330
  import opened Assembler
  import opened Transfer
  import opened Turns
  import opened MemoryCopy

  function ZeroCcr(size: nat, len: nat): Ccr {
    Ccr(true, 1, 1, true, size, len)
  }

  function ZeroBurst(size: nat, len: nat): Prog {
    Phase(ZeroCcr(size, len), Op(Stz))
  }

  /** The two loop counts of the next nest for n bursts. */
  function Outer(n: nat): nat {
    if n > 256 then Min(n / 256, 256) else 1
  }

  function Inner(n: nat): nat {
    if n > 256 then 256 else n
  }

  lemma NestFits(n: nat)
    requires 0 < n
    ensures 1 <= Outer(n) <= 256 && 1 <= Inner(n) <= 256 && 0 < Outer(n) * Inner(n) <= n
    ensures n >= 65536 ==> Outer(n) * Inner(n) == 65536
    ensures 256 < n < 65536 ==> n - Outer(n) * Inner(n) == n % 256
    ensures n <= 256 ==> Outer(n) * Inner(n) == n
  {
  }

  function Nest(n: nat): Prog {
    OnceOrLoop(Outer(n), OnceOrLoop(Inner(n), Op(Stz), Plain), Plain)
  }

  function Nests(n: nat): Prog {
    if n == 0 then Skip
    else
      NestFits(n);
      Seq(Nest(n), Nests(n - Outer(n) * Inner(n)))
  }

  /** How many instructions of a program store zeros. */
  function ZeroStores(code: seq<Instr>): nat {
    if code == [] then 0 else (if code[0].Stz? then 1 else 0) + ZeroStores(code[1..])
  }

  lemma {:induction false} ZeroStoresConcat(a: seq<Instr>, b: seq<Instr>)
    ensures ZeroStores(a + b) == ZeroStores(a) + ZeroStores(b)
  {
    if a == [] {
      assert a + b == b;
    } else {
      assert (a + b)[1..] == a[1..] + b;
      ZeroStoresConcat(a[1..], b);
    }
  }

  /** A loop pair adds instructions, but none that stores. */
  lemma OnceOrLoopStores(n: nat, body: Prog)
    ensures ZeroStores(Flatten(OnceOrLoop(n, body, Plain))) == ZeroStores(Flatten(body))
  {
    ZeroStoresConcat([Lp(n)] + Flatten(body), [LpEnd(Plain)]);
    ZeroStoresConcat([Lp(n)], Flatten(body));
    assert [LpEnd(Plain)][1..] == [] && [Lp(n)][1..] == [];
  }

  /** A nest is a single store, and five instructions at most. */
  lemma NestIsOneStore(n: nat)
    requires 0 < n
    ensures ZeroStores(Flatten(Nest(n))) == 1 && |Flatten(Nest(n))| <= 5
  {
    OnceOrLoopStores(Inner(n), Op(Stz));
    OnceOrLoopStores(Outer(n), OnceOrLoop(Inner(n), Op(Stz), Plain));
    assert [Stz][1..] == [];
  }

  /** One for every 65536 bursts, one for the rest if 256 or fewer are left, and two otherwise. */
  function MostNests(n: nat): nat {
    n / 65536 + (if n % 65536 == 0 then 0 else if n % 65536 <= 256 then 1 else 2)
  }

  /** Each nest takes one off the bound. */
  lemma FewerNests(n: nat, rest: nat)
    requires 0 < n && rest == n - (if n > 256 then Min(n / 256, 256) * 256 else n)
    ensures MostNests(rest) + 1 <= MostNests(n)
  {
  }

  /** However many bursts there are, few loop nests are written for them, of one store and at most
      five instructions each. */
  lemma {:induction false} FewNests(n: nat)
    ensures ZeroStores(Flatten(Nests(n))) <= MostNests(n) <= n / 65536 + 2
    ensures |Flatten(Nests(n))| <= 5 * MostNests(n)
    decreases n
  {
    if n > 0 {
      NestFits(n);
      var rest := n - Outer(n) * Inner(n);
      NestIsOneStore(n);
      FewNests(rest);
      ZeroStoresConcat(Flatten(Nest(n)), Flatten(Nests(rest)));
      FewerNests(n, rest);
    }
  }

  function ZeroFullBursts(bursts: nat): Prog {
    if bursts / 16 != 0 then Phase(ZeroCcr(8, 16), Nests(bursts / 16)) else Skip
  }

  function ZeroPhase(size: nat, len: nat): Prog {
    if len != 0 then ZeroBurst(size, len) else Skip
  }

  function ZeroPhases(buf: nat, size: nat): Prog {
    var bursts := BurstCount(buf, size);
    Seq(ZeroPhase(1, AlignCount(buf, size)),
        Seq(ZeroFullBursts(bursts),
            Seq(ZeroPhase(8, bursts % 16), ZeroPhase(1, (size - AlignCount(buf, size)) % 8))))
  }

  function ZeroSegment(buf: nat, size: nat): Prog {
    Seq(Op(MovDar(buf)), ZeroPhases(buf, size))
  }

  method EmitZeroBurst(program: Program, status: Status, size: nat, len: nat) returns (s: Status)
    requires program.Holds(status) && status.Ordinary()
    modifies program
    ensures program.Holds(s) && s.Ordinary()
    ensures program.intended == Append(old(program.intended), ZeroPhase(size, len))
  {
    s := status;
    if len != 0 {
      s := program.Emit(s, MovCcr(ZeroCcr(size, len)));
      s := program.Emit(s, Stz);
    }
  }

  method EmitZeroFullBursts(program: Program, status: Status, bursts: nat) returns (s: Status)
    requires program.Holds(status) && status.Ordinary()
    modifies program
    ensures program.Holds(s) && s.Ordinary()
    ensures program.intended == Append(old(program.intended), ZeroFullBursts(bursts))
  {
    s := status;
    if bursts / 16 != 0 {
      s := program.Emit(s, MovCcr(ZeroCcr(8, 16)));
      s := EmitNests(program, s, bursts / 16);
    }
  }

  method EmitNest(program: Program, status: Status, n: nat) returns (s: Status)
    requires program.Holds(status) && status.Ordinary() && 0 < n
    modifies program
    ensures program.Holds(s) && s.Ordinary()
    ensures program.intended == Append(old(program.intended), Nest(n))
  {
    s := status;
    if Outer(n) > 1 {
      s := program.Emit(s, Lp(Outer(n)));
    }
    if Inner(n) > 1 {
      s := program.Emit(s, Lp(Inner(n)));
    }
    s := program.Emit(s, Stz);
    if Inner(n) > 1 {
      s := program.Emit(s, LpEnd(Plain));
    }
    if Outer(n) > 1 {
      s := program.Emit(s, LpEnd(Plain));
    }
    AppendNest(old(program.intended), n);
  }

  lemma AppendNest(c: Code, n: nat)
    requires 0 < n
    ensures var c1 := if Outer(n) > 1 then Then(c, Lp(Outer(n))) else c;
            var c2 := if Inner(n) > 1 then Then(c1, Lp(Inner(n))) else c1;
            var c3 := if Inner(n) > 1 then Then(Then(c2, Stz), LpEnd(Plain)) else Then(c2, Stz);
            Append(c, Nest(n)) == if Outer(n) > 1 then Then(c3, LpEnd(Plain)) else c3
  {
    var c1 := if Outer(n) > 1 then Then(c, Lp(Outer(n))) else c;
    assert Append(c1, OnceOrLoop(Inner(n), Op(Stz), Plain))
        == if Inner(n) > 1 then Then(Then(Then(c1, Lp(Inner(n))), Stz), LpEnd(Plain)) else Then(c1, Stz);
  }

  method EmitNests(program: Program, status: Status, count: nat) returns (s: Status)
    requires program.Holds(status) && status.Ordinary()
    modifies program
    ensures program.Holds(s) && s.Ordinary()
    ensures program.intended == Append(old(program.intended), Nests(count))
  {
    s := status;
    var length16burstcount: nat := count;
    ghost var target := Append(program.intended, Nests(count));
    while length16burstcount > 0
      invariant program.Holds(s) && s.Ordinary()
      invariant Append(program.intended, Nests(length16burstcount)) == target
    {
      if s != Success {
        program.Forgo(s, Nests(length16burstcount));
        break;
      }
      NestFits(length16burstcount);
      var loop0, loop1 := 1, length16burstcount;
      if length16burstcount > 256 {
        loop0 := Min(length16burstcount / 256, 256);
        loop1 := 256;
      }
      AppendSeq(program.intended, Nest(length16burstcount), Nests(length16burstcount - loop0 * loop1));
      s := EmitNest(program, s, length16burstcount);
      length16burstcount := length16burstcount - loop0 * loop1;
    }
  }

  method ZeroToMemorySegment(program: Program, status: Status, buf: nat, size: nat) returns (s: Status)
    requires program.Holds(status) && status.Ordinary()
    modifies program
    ensures program.Holds(s) && s.Ordinary()
    ensures program.intended == Append(old(program.intended), ZeroSegment(buf, size))
  {
    var sizeleft := size;
    s := program.Emit(status, MovDar(buf));
    var aligncount := 0;
    if buf % 8 != 0 {
      aligncount := Min(8 - buf % 8, sizeleft);
      sizeleft := sizeleft - aligncount;
    }
    s := EmitZeroBurst(program, s, 1, aligncount);
    var burstcount := sizeleft / 8;
    sizeleft := sizeleft % 8;
    s := EmitZeroFullBursts(program, s, burstcount);
    s := EmitZeroBurst(program, s, 8, burstcount % 16);
    s := EmitZeroBurst(program, s, 1, sizeleft);
    AppendPhases(old(program.intended), Op(MovDar(buf)), ZeroPhase(1, aligncount), ZeroFullBursts(burstcount),
                 ZeroPhase(8, burstcount % 16), ZeroPhase(1, sizeleft));
  }

  // ---- Well-formedness ----

  lemma {:induction false} NestsWellFormed(n: nat)
    ensures WellFormed(Nests(n), 2)
  {
    if n > 0 {
      NestFits(n);
      NestsWellFormed(n - Outer(n) * Inner(n));
      var inner := OnceOrLoop(Inner(n), Op(Stz), Plain);
      assert WellFormed(Op(Stz), 0) && WellFormed(Op(Stz), 1) && WellFormed(inner, 1);
      WellFormedMonotone(inner, 1, 2);
      assert WellFormed(Nest(n), 2);
    }
  }

  lemma ZeroPhaseWellFormed(size: nat, len: nat)
    requires BeatSize(size) && len <= 16
    ensures WellFormed(ZeroPhase(size, len), 2)
  {
    assert WellFormed(Op(MovCcr(ZeroCcr(size, if len == 0 then 1 else len))), 2) && WellFormed(Op(Stz), 2);
  }

  lemma ZeroSegmentWellFormed(buf: nat, size: nat)
    ensures WellFormed(ZeroSegment(buf, size), 2)
  {
    var bursts := BurstCount(buf, size);
    var a, f, l, t := ZeroPhase(1, AlignCount(buf, size)), ZeroFullBursts(bursts), ZeroPhase(8, bursts % 16),
                      ZeroPhase(1, (size - AlignCount(buf, size)) % 8);
    ZeroPhaseWellFormed(1, AlignCount(buf, size));
    ZeroPhaseWellFormed(8, bursts % 16);
    ZeroPhaseWellFormed(1, (size - AlignCount(buf, size)) % 8);
    NestsWellFormed(bursts / 16);
    assert WellFormed(Op(MovCcr(ZeroCcr(8, 16))), 2) && WellFormed(Op(MovDar(buf)), 2);
    assert WellFormed(f, 2);
    assert WellFormed(Seq(l, t), 2);
    assert WellFormed(Seq(f, Seq(l, t)), 2);
  }

  // ---- What the program of a segment does ----

  predicate Zeroing(sh: Shape) {
    sh.route.ZeroToMem? && sh.first == sh.size && sh.later == sh.size
  }

  lemma StzMoves(sh: Shape, size: nat, len: nat, n: nat)
    requires Zeroing(sh) && BeatSize(size) && 1 <= len <= 16 && n == len * size
    ensures Moves(sh, Op(Stz), ZeroCcr(size, len), n, size, None, None)
  {
  }

  lemma NestMoves(sh: Shape, n: nat, total: nat)
    requires Zeroing(sh) && 0 < n && total == 128 * (Outer(n) * Inner(n))
    ensures Moves(sh, Nest(n), ZeroCcr(8, 16), total, 8, None, None)
  {
    NestFits(n);
    StzMoves(sh, 8, 16, 128);
    var inner := Inner(n) * 128;
    OnceOrLoopMoves(sh, Op(Stz), ZeroCcr(8, 16), 128, 8, None, None, Inner(n), Plain, inner);
    assert Outer(n) * inner == total;
    OnceOrLoopMoves(sh, OnceOrLoop(Inner(n), Op(Stz), Plain), ZeroCcr(8, 16), inner, 8, None, None, Outer(n), Plain,
                    total);
  }

  /** The nests together store every one of the n bursts once. */
  lemma {:induction false} NestsMoves(sh: Shape, n: nat, total: nat)
    requires Zeroing(sh) && 0 < n && total == 128 * n
    ensures Moves(sh, Nests(n), ZeroCcr(8, 16), total, 8, None, None)
    decreases n
  {
    NestFits(n);
    var done := Outer(n) * Inner(n);
    NestMoves(sh, n, 128 * done);
    if done == n {
      MovesThenSkip(sh, Nest(n), ZeroCcr(8, 16), total, 8, None, None);
    } else {
      NestsMoves(sh, n - done, 128 * (n - done));
      SeqMoves(sh, Nest(n), Nests(n - done), ZeroCcr(8, 16), 128 * done, 128 * (n - done), 8, None, None, total);
    }
  }

  lemma ZeroPhaseCarries(sh: Shape, size: nat, len: nat, from: nat, to: nat)
    requires Zeroing(sh) && BeatSize(size) && len <= 16 && to == from + len * size <= sh.size
    requires len != 0 ==> AtUnit(sh, from, size)
    ensures Carries(sh, ZeroPhase(size, len), from, to)
  {
    if len != 0 {
      StzMoves(sh, size, len, len * size);
      PhaseCarries(sh, ZeroCcr(size, len), Op(Stz), len * size, size, None, from, to);
    }
  }

  lemma ZeroFullBurstsCarry(sh: Shape, bursts: nat, from: nat, to: nat)
    requires Zeroing(sh) && to == from + 128 * (bursts / 16) <= sh.size && (bursts / 16 != 0 ==> AtUnit(sh, from, 8))
    ensures Carries(sh, ZeroFullBursts(bursts), from, to)
  {
    if bursts / 16 != 0 {
      NestsMoves(sh, bursts / 16, 128 * (bursts / 16));
      PhaseCarries(sh, ZeroCcr(8, 16), Nests(bursts / 16), 128 * (bursts / 16), 8, None, from, to);
    }
  }

  lemma ZeroPhasesCarry(sh: Shape, buf: nat)
    requires Zeroing(sh) && buf == sh.route.dst && 0 < sh.size
    ensures Carries(sh, ZeroPhases(buf, sh.size), 0, sh.size)
  {
    var size := sh.size;
    var a, bursts := AlignCount(buf, size), BurstCount(buf, size);
    var b := a + 128 * (bursts / 16);
    var c := b + bursts % 16 * 8;
    PhaseSizes(buf, size);
    ZeroPhaseCarries(sh, 1, a, 0, a);
    ZeroFullBurstsCarry(sh, bursts, a, b);
    ZeroPhaseCarries(sh, 8, bursts % 16, b, c);
    ZeroPhaseCarries(sh, 1, (size - a) % 8, c, size);
    var p, q, r, t := ZeroPhase(1, a), ZeroFullBursts(bursts), ZeroPhase(8, bursts % 16), ZeroPhase(1, (size - a) % 8);
    CarriesSeq(sh, r, t, b, c, size);
    CarriesSeq(sh, q, Seq(r, t), a, b, size);
    CarriesSeq(sh, p, Seq(q, Seq(r, t)), 0, a, size);
  }

  /** Exactly the segment is zeroed. */
  lemma SegmentZeroed(s: State, buf: nat, size: nat) returns (t: State)
    requires 0 < size && buf + size <= |s.mem| && s.fifo == []
    ensures Exec(ZeroSegment(buf, size), s) == Ok(t)
    ensures t.mem == Splice(s.mem, buf, Zeros(size)) && t.fifo == [] && t.rx == s.rx && t.trace == s.trace
  {
    var j := Job(s, ZeroToMem(buf), Zeros(size));
    ZeroPhasesCarry(Whole(j), buf);
    var c, r := JobDone(j, ZeroPhases(buf, size), s.ccr, s.req);
    t := At(j, size, size, c, r);
    assert Zeros(size)[..0] == [] && Zeros(size)[..size] == Zeros(size);
    assert Splice(s.mem, buf, []) == s.mem;
    assert s.(dar := buf) == At(j, 0, 0, s.ccr, s.req);
    ExecSeq(Op(MovDar(buf)), ZeroPhases(buf, size), s, s.(dar := buf));
  }
}
