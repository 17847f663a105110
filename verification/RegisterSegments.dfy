/** Segments between memory and a device register that needs no handshake. */
module RegisterSegments {
  import opened Arithmetic
  import opened Options
  import opened Pl330
  import opened Assembler
  import opened Turns
  import opened Streams

  function ElementCcr(d: Direction, w: nat, len: nat): Ccr {
    StreamCcr(d, w, len, w, len)
  }

  function ElementTurn(d: Direction): Prog {
    StreamTurn(d, Plain, 0, 1, 1)
  }

  function ElementBursts(d: Direction, w: nat, bursts: nat): Prog {
    if bursts != 0 then Phase(ElementCcr(d, w, 16), Nested(bursts, ElementTurn(d))) else Skip
  }

  function LastElements(d: Direction, w: nat, count: nat): Prog {
    if count != 0 then Phase(ElementCcr(d, w, count), ElementTurn(d)) else Skip
  }

  function Elements(d: Direction, w: nat, count: nat): Prog {
    Seq(ElementBursts(d, w, count / 16), LastElements(d, w, count % 16))
  }

  function RegisterSegment(d: Direction, w: nat, pa: nat, count: nat): Prog {
    Seq(Op(MoveMemory(d, pa)), Elements(d, w, count))
  }

  method EmitElementBursts(program: Program, status: Status, d: Direction, w: nat, bursts: nat) returns (s: Status)
    requires program.Holds(status) && status.Ordinary()
    modifies program
    ensures program.Holds(s) && s.Ordinary()
    ensures program.intended == Append(old(program.intended), ElementBursts(d, w, bursts))
  {
    s := status;
    if bursts != 0 {
      s := program.Emit(s, MovCcr(ElementCcr(d, w, 16)));
      s := EmitNested(program, s, Plain, 0, Loads(d, 1, 1), Stores(d, 1, 1), bursts);
    }
  }

  method EmitLastElements(program: Program, status: Status, d: Direction, w: nat, count: nat) returns (s: Status)
    requires program.Holds(status) && status.Ordinary()
    modifies program
    ensures program.Holds(s) && s.Ordinary()
    ensures program.intended == Append(old(program.intended), LastElements(d, w, count))
  {
    s := status;
    if count != 0 {
      s := program.Emit(s, MovCcr(ElementCcr(d, w, count)));
      s := EmitTurn(program, s, Plain, 0, Loads(d, 1, 1), Stores(d, 1, 1));
    }
  }

  method EmitRegisterSegment(program: Program, status: Status, d: Direction, w: nat, pa: nat, count: nat)
    returns (s: Status)
    requires program.Holds(status) && status.Ordinary()
    modifies program
    ensures program.Holds(s) && s.Ordinary()
    ensures program.intended == Append(old(program.intended), RegisterSegment(d, w, pa, count))
  {
    var countleft := count;
    s := program.Emit(status, MoveMemory(d, pa));
    s := EmitElementBursts(program, s, d, w, countleft / 16);
    countleft := countleft % 16;
    s := EmitLastElements(program, s, d, w, countleft);
    var c := Append(old(program.intended), Op(MoveMemory(d, pa)));
    AppendSeq(c, ElementBursts(d, w, count / 16), LastElements(d, w, count % 16));
    AppendSeq(old(program.intended), Op(MoveMemory(d, pa)), Elements(d, w, count));
  }

  lemma RegisterSegmentWellFormed(d: Direction, w: nat, pa: nat, count: nat)
    requires BeatSize(w)
    ensures WellFormed(RegisterSegment(d, w, pa, count), 2)
  {
    TurnWellFormed(Plain, 0, Loads(d, 1, 1), Stores(d, 1, 1), 0);
    TurnWellFormed(Plain, 0, Loads(d, 1, 1), Stores(d, 1, 1), 2);
    NestedWellFormed(count / 16, ElementTurn(d));
    assert WellFormed(Op(MoveMemory(d, pa)), 2) && WellFormed(Op(MovCcr(ElementCcr(d, w, 16))), 2);
    assert WellFormed(LastElements(d, w, count % 16), 2) by {
      if count % 16 != 0 { assert WellFormed(Op(MovCcr(ElementCcr(d, w, count % 16))), 2); }
    }
    assert WellFormed(ElementBursts(d, w, count / 16), 2);
  }

  lemma BurstsAndRest(count: nat, w: nat, n: nat)
    requires n == count * w
    ensures 0 <= (count / 16) * (16 * w) && 0 <= (count % 16) * w
    ensures (count / 16) * (16 * w) + (count % 16) * w == n
    ensures 0 < w ==> ((count / 16) * (16 * w)) % w == 0
  {
    var q, r := count / 16, count % 16;
    assert count == q * 16 + r && q * (16 * w) == (q * 16) * w;
    if 0 < w { MulMod(q * 16, w); }
  }

  /** 16, 256 times 16, 256 times 256 times 16 and the rest: together exactly the elements. */
  lemma ElementsCarry(d: Direction, reg: nat, w: nat, pa: nat, count: nat, n: nat)
    requires Aligned(w, pa) && n == count * w
    ensures Carries(StreamShape(d, reg, w, pa, n), Elements(d, w, count), 0, n)
  {
    var sh := StreamShape(d, reg, w, pa, n);
    var bursts, rest := count / 16, count % 16;
    var mid, tail := bursts * (16 * w), rest * w;
    BurstsAndRest(count, w, n);
    if bursts != 0 {
      StreamTurnMoves(d, reg, w, pa, n, Plain, 0, w, 16, 1, 16, 1, 16 * w);
      MulMod(16, w);
      NestedMoves(sh, ElementTurn(d), ElementCcr(d, w, 16), 16 * w, w, None, bursts, mid);
      PhaseCarries(sh, ElementCcr(d, w, 16), Nested(bursts, ElementTurn(d)), mid, w, None, 0, mid);
    }
    assert Carries(sh, ElementBursts(d, w, bursts), 0, mid);
    if rest != 0 {
      StreamTurnMoves(d, reg, w, pa, n, Plain, 0, w, rest, 1, rest, 1, tail);
      ModAdd(pa, mid, w);
      PhaseCarries(sh, ElementCcr(d, w, rest), ElementTurn(d), tail, w, None, mid, n);
    }
    assert Carries(sh, LastElements(d, w, rest), mid, n);
    CarriesSeq(sh, ElementBursts(d, w, bursts), LastElements(d, w, rest), 0, mid, n);
  }
}
