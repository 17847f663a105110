/** Transfers between a device register and one segment of memory, in either direction. */
module Streams {
  import opened Arithmetic
  import opened Options
  import opened Pl330
  import opened Transfer
  import opened Turns

  /** The side of a transfer that is memory. */
  datatype Direction = FromMem | ToMem

  function StreamRoute(d: Direction, reg: nat, w: nat, pa: nat): Route {
    if d.FromMem? then MemToReg(pa, reg, w) else RegToMem(reg, w, pa)
  }

  /** memLen beats of `unit` bytes on the memory side, regLen elements of w bytes on the other. */
  function StreamCcr(d: Direction, unit: nat, memLen: nat, w: nat, regLen: nat): Ccr {
    if d.FromMem? then Ccr(true, unit, memLen, false, w, regLen) else Ccr(false, w, regLen, true, unit, memLen)
  }

  function Loads(d: Direction, mem: nat, reg: nat): nat {
    if d.FromMem? then mem else reg
  }

  function Stores(d: Direction, mem: nat, reg: nat): nat {
    if d.FromMem? then reg else mem
  }

  /** A turn with `mem` instructions for the memory side and `reg` for the register. */
  function StreamTurn(d: Direction, form: Form, periph: nat, mem: nat, reg: nat): Prog {
    Turn(form, periph, Loads(d, mem, reg), Stores(d, mem, reg))
  }

  function MoveMemory(d: Direction, pa: nat): Instr {
    if d.FromMem? then MovSar(pa) else MovDar(pa)
  }

  function MoveRegister(d: Direction, reg: nat): Instr {
    if d.FromMem? then MovDar(reg) else MovSar(reg)
  }

  function StreamShape(d: Direction, reg: nat, w: nat, pa: nat, n: nat): Shape {
    Shape(StreamRoute(d, reg, w, pa), n, n, n)
  }

  predicate Aligned(w: nat, pa: nat) {
    BeatSize(w) && pa % w == 0
  }

  lemma StreamTurnMoves(
    d: Direction, reg: nat, w: nat, pa: nat, size: nat, form: Form, periph: nat,
    unit: nat, memLen: nat, mem: nat, regLen: nat, regs: nat, n: nat)
    requires Aligned(w, pa) && BeatSize(unit) && w <= unit && 1 <= memLen <= 16 && 1 <= regLen <= 16
    requires mem * (Beats(form, memLen) * unit) == n == regs * (Beats(form, regLen) * w)
    ensures Moves(StreamShape(d, reg, w, pa, size), StreamTurn(d, form, periph, mem, regs),
                  StreamCcr(d, unit, memLen, w, regLen), n, unit, None, Leaves(form))
  {
    TurnMoves(StreamShape(d, reg, w, pa, size), form, periph, Loads(d, mem, regs), Stores(d, mem, regs),
              StreamCcr(d, unit, memLen, w, regLen), n, unit);
  }

  // ---- What a segment's program does to the state ----

  predicate RegisterSet(d: Direction, reg: nat, s: State) {
    if d.FromMem? then s.dar == reg else s.sar == reg
  }

  predicate Streamable(d: Direction, reg: nat, w: nat, s: State, pa: nat, n: nat) {
    && BeatSize(w) && reg % w == 0 && |s.mem| <= reg && RegisterSet(d, reg, s) && s.fifo == []
    && pa + n <= |s.mem| && (d.ToMem? ==> n <= |s.rx|)
  }

  /** What moving n bytes at pa comes to: a buffer is written to the register element by element,
      or what the register yields is written over memory; the rest stays. */
  predicate Streamed(d: Direction, reg: nat, w: nat, s: State, pa: nat, n: nat, t: State)
    requires 0 < w && pa + n <= |s.mem| && (d.ToMem? ==> n <= |s.rx|)
  {
    && t.fifo == [] && RegisterSet(d, reg, t)
    && if d.FromMem? then
         t.mem == s.mem && t.rx == s.rx && t.trace == s.trace + Accesses(true, reg, w, s.mem[pa..pa + n])
       else
         t.mem == Splice(s.mem, pa, s.rx[..n]) && t.rx == s.rx[n..]
         && t.trace == s.trace + Accesses(false, reg, w, s.rx[..n])
  }

  /** Moving m bytes is not moving n. */
  lemma OnlyOneLength(d: Direction, reg: nat, w: nat, s: State, pa: nat, m: nat, n: nat, t: State)
    requires Streamable(d, reg, w, s, pa, n) && m < n && n % w == 0
    ensures !(Streamed(d, reg, w, s, pa, m, t) && Streamed(d, reg, w, s, pa, n, t))
  {
    if d.FromMem? {
      AccessCount(true, reg, w, s.mem[pa..pa + m]);
      AccessCount(true, reg, w, s.mem[pa..pa + n]);
      FewerParts(m, n, w);
    }
  }

  lemma FewerParts(m: nat, n: nat, w: nat)
    requires 0 < w && m < n && n % w == 0
    ensures m / w < n / w
  {
    var p, q := m / w, n / w;
    assert n == q * w && m == p * w + m % w;
    assert (q - p) * w == q * w - p * w;
    MultiplesApart(q - p, w);
  }

  function StreamJob(d: Direction, reg: nat, w: nat, s: State, pa: nat, n: nat): Job
    requires pa + n <= |s.mem| && (d.ToMem? ==> n <= |s.rx|)
  {
    Job(s, StreamRoute(d, reg, w, pa), if d.FromMem? then s.mem[pa..pa + n] else s.rx[..n])
  }

  lemma JobBegins(d: Direction, reg: nat, w: nat, s: State, pa: nat, n: nat)
    requires Streamable(d, reg, w, s, pa, n)
    ensures ExecInstr(MoveMemory(d, pa), s) == Ok(At(StreamJob(d, reg, w, s, pa, n), 0, 0, s.ccr, s.req))
  {
    var j := StreamJob(d, reg, w, s, pa, n);
    assert j.data[..0] == [] && j.data[0..0] == [];
    assert s.rx[0..] == s.rx && Splice(s.mem, pa, []) == s.mem && s.trace + [] == s.trace;
  }

  lemma JobEnds(d: Direction, reg: nat, w: nat, s: State, pa: nat, n: nat, c: Ccr, r: Request)
    requires Streamable(d, reg, w, s, pa, n)
    ensures Streamed(d, reg, w, s, pa, n, At(StreamJob(d, reg, w, s, pa, n), n, n, c, r))
  {
    var j := StreamJob(d, reg, w, s, pa, n);
    assert j.data[..n] == j.data && j.data[n..n] == [];
  }

  /** A program that carries the marks of a segment from end to end streams the segment. */
  lemma SegmentStreams(d: Direction, reg: nat, w: nat, s: State, pa: nat, n: nat, p: Prog) returns (t: State)
    requires Streamable(d, reg, w, s, pa, n) && Carries(StreamShape(d, reg, w, pa, n), p, 0, n)
    ensures Exec(Seq(Op(MoveMemory(d, pa)), p), s) == Ok(t) && Streamed(d, reg, w, s, pa, n, t)
  {
    var j := StreamJob(d, reg, w, s, pa, n);
    JobBegins(d, reg, w, s, pa, n);
    var c, r := JobDone(j, p, s.ccr, s.req);
    ExecSeq(Op(MoveMemory(d, pa)), p, s, At(j, 0, 0, s.ccr, s.req));
    t := At(j, n, n, c, r);
    JobEnds(d, reg, w, s, pa, n, c, r);
  }
}
