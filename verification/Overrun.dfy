/** A program that goes further than its segment.  Byte streams leave one event in the trace for
    every byte, so a run that gets to its end has as many events as the program moves bytes,
    whatever there is in memory. */
module Overrun {
  import opened Pl330
  import opened Transfer
  import opened Turns
  import opened Streams

  /** A state in which the bytes of a stream are being accessed at the register. */
  predicate AtRegister(d: Direction, reg: nat, s: State, m: Mark) {
    s.ccr == m.ccr && s.req == m.req && |s.mem| <= reg && RegisterSet(d, reg, s)
  }

  /** How far the side of the register has come. */
  function Passed(d: Direction, m: Mark): nat {
    if d.FromMem? then m.stored else m.loaded
  }

  /** From s to t there have been as many accesses as the marks have gone on. */
  predicate Counted(d: Direction, reg: nat, s: State, m: Mark, t: State, k: Mark) {
    AtRegister(d, reg, t, k) && |t.trace| - |s.trace| == Passed(d, k) - Passed(d, m)
  }

  lemma LoadCounts(d: Direction, reg: nat, pa: nat, n: nat, beats: nat, s: State, m: Mark)
    requires AtRegister(d, reg, s, m) && s.ccr.Valid() && Load(s, beats).Ok?
    requires MarkLoad(StreamShape(d, reg, 1, pa, n), m, beats).Some?
    ensures Counted(d, reg, s, m, Load(s, beats).state, MarkLoad(StreamShape(d, reg, 1, pa, n), m, beats).value)
  {
    if d.ToMem? {
      LoadFixed(s, beats, beats);
      AccessCount(false, reg, 1, s.rx[..beats]);
    }
  }

  lemma StoreCounts(d: Direction, reg: nat, pa: nat, n: nat, beats: nat, s: State, m: Mark)
    requires AtRegister(d, reg, s, m) && s.ccr.Valid() && Store(s, beats).Ok?
    requires MarkStore(StreamShape(d, reg, 1, pa, n), m, beats).Some?
    ensures Counted(d, reg, s, m, Store(s, beats).state, MarkStore(StreamShape(d, reg, 1, pa, n), m, beats).value)
  {
    if d.FromMem? {
      StoreFixed(s, beats, beats);
      AccessCount(true, reg, 1, s.fifo[..beats]);
    }
  }

  lemma InstrCounts(d: Direction, reg: nat, pa: nat, n: nat, i: Instr, s: State, m: Mark)
    requires AtRegister(d, reg, s, m) && ExecInstr(i, s).Ok? && MarkInstr(StreamShape(d, reg, 1, pa, n), i, m).Some?
    ensures Counted(d, reg, s, m, ExecInstr(i, s).state, MarkInstr(StreamShape(d, reg, 1, pa, n), i, m).value)
  {
    match i
    case Ld(f) => if Enabled(f, s.req) { LoadCounts(d, reg, pa, n, Beats(f, s.ccr.srcLen), s, m); }
    case St(f) => if Enabled(f, s.req) { StoreCounts(d, reg, pa, n, Beats(f, s.ccr.dstLen), s, m); }
    case _ =>
  }

  /** A run that gets through has made every access that the marks count, though they know
      nothing of memory. */
  lemma {:induction false} RunCounts(d: Direction, reg: nat, pa: nat, n: nat, p: Prog, s: State, m: Mark)
    requires AtRegister(d, reg, s, m) && Exec(p, s).Ok? && MarkExec(StreamShape(d, reg, 1, pa, n), p, m).Some?
    ensures Counted(d, reg, s, m, Exec(p, s).state, MarkExec(StreamShape(d, reg, 1, pa, n), p, m).value)
    decreases p, 0
  {
    match p
    case Skip =>
    case Op(i) => InstrCounts(d, reg, pa, n, i, s, m);
    case Seq(a, b) =>
      RunCounts(d, reg, pa, n, a, s, m);
      RunCounts(d, reg, pa, n, b, Exec(a, s).state, MarkExec(StreamShape(d, reg, 1, pa, n), a, m).value);
    case Loop(count, body, end) => LoopCounts(d, reg, pa, n, count, body, end, s, m);
  }

  lemma {:induction false} LoopCounts(
    d: Direction, reg: nat, pa: nat, n: nat, count: nat, body: Prog, end: Form, s: State, m: Mark)
    requires AtRegister(d, reg, s, m) && Iterate(count, body, end, s).Ok?
    requires MarkIterate(StreamShape(d, reg, 1, pa, n), count, body, end, m).Some?
    ensures Counted(d, reg, s, m, Iterate(count, body, end, s).state,
                    MarkIterate(StreamShape(d, reg, 1, pa, n), count, body, end, m).value)
    decreases body, count
  {
    if count > 0 {
      RunCounts(d, reg, pa, n, body, s, m);
      var t, k := Exec(body, s).state, MarkExec(StreamShape(d, reg, 1, pa, n), body, m).value;
      if Enabled(end, t.req) { LoopCounts(d, reg, pa, n, count - 1, body, end, t, k); }
    }
  }

  /** A program that moves m bytes does not move a segment of n, whether there is room for m or
      not. */
  lemma OtherLengthFails(d: Direction, reg: nat, s: State, pa: nat, n: nat, m: nat, p: Prog)
    requires Streamable(d, reg, 1, s, pa, n) && Carries(StreamShape(d, reg, 1, pa, m), p, 0, m) && m != n
    ensures var o := Exec(Seq(Op(MoveMemory(d, pa)), p), s); !(o.Ok? && Streamed(d, reg, 1, s, pa, n, o.state))
  {
    var begun := ExecInstr(MoveMemory(d, pa), s).state;
    ExecSeq(Op(MoveMemory(d, pa)), p, s, begun);
    if Exec(p, begun).Ok? {
      var sh, first := StreamShape(d, reg, 1, pa, m), Level(0, s.ccr, s.req);
      assert MarkExec(sh, p, Level(0, s.ccr, s.req)).Some?;
      RunCounts(d, reg, pa, m, p, begun, first);
      AccessCount(d.FromMem?, reg, 1, if d.FromMem? then s.mem[pa..pa + n] else s.rx[..n]);
    }
  }
}
