/** The instruction set of the DMA-330 controller that the generators target, with two meanings:
    a flat machine with a program counter and two loop counters, which is what the controller
    does, and a structured one over nested loops, which is what the proofs use.  The lemma
    FlatRunsStructured says that the two agree.  Instruction meanings follow section 4.3 of
    ARM DDI 0424. */
module Pl330 {
  import opened Bytes
  import opened Arithmetic

  /** What the last DMAWFP was granted. */
  datatype Request = SingleRequest | BurstRequest

  /** The plain, S and B forms of an instruction. */
  datatype Form = Plain | S | B

  predicate Enabled(f: Form, r: Request) {
    match f
    case Plain => true
    case S => r == SingleRequest
    case B => r == BurstRequest
  }

  predicate BeatSize(w: nat) {
    w == 1 || w == 2 || w == 4 || w == 8
  }

  /** The fields of the channel control register that decide which bytes move.
      Sizes are in bytes, lengths in beats. */
  datatype Ccr = Ccr(srcInc: bool, srcSize: nat, srcLen: nat, dstInc: bool, dstSize: nat, dstLen: nat) {
    predicate Valid() {
      && BeatSize(srcSize) && BeatSize(dstSize)
      && 1 <= srcLen <= 16 && 1 <= dstLen <= 16
    }
  }

  datatype Instr =
    | MovSar(addr: nat) | MovDar(addr: nat) | MovCcr(ccr: Ccr)
    | Ld(form: Form) | St(form: Form) | Stz
    | Wfp(periph: nat, request: Request) | FlushP(periph: nat)
    | Wmb | Sev(evt: nat)
    | Lp(count: nat) | LpEnd(form: Form)
    | End

  /** What a device, or the event lines, can see of a run. */
  datatype Event =
    | RegWrite(reg: nat, value: seq<Byte>)
    | RegRead(reg: nat, value: seq<Byte>)
    | Signal(evt: nat)

  /** Addresses below |mem| are memory; every other address is a device register.
      The bytes that device registers will yield, in order, are rx. */
  datatype State = State(
    mem: seq<Byte>, sar: nat, dar: nat, ccr: Ccr, fifo: seq<Byte>,
    req: Request, rx: seq<Byte>, trace: seq<Event>)

  datatype Outcome = Ok(state: State) | Fault

  // ---- Memory and register accesses ----

  function Splice(mem: seq<Byte>, a: nat, bs: seq<Byte>): (m: seq<Byte>)
    requires a + |bs| <= |mem|
    ensures |m| == |mem|
  {
    mem[..a] + bs + mem[a + |bs|..]
  }

  lemma SpliceAt(mem: seq<Byte>, a: nat, bs: seq<Byte>)
    requires a + |bs| <= |mem|
    ensures forall i :: 0 <= i < |mem| ==> Splice(mem, a, bs)[i] == if a <= i < a + |bs| then bs[i - a] else mem[i]
  {
  }

  function Zeros(n: nat): (z: seq<Byte>)
    ensures |z| == n && forall i :: 0 <= i < n ==> z[i] == 0
  {
    seq(n, _ => 0)
  }

  function Repeat(bs: seq<Byte>, n: nat): seq<Byte> {
    if n == 0 then [] else bs + Repeat(bs, n - 1)
  }

  /** bs as register accesses of w bytes each; a last partial element is dropped. */
  function Accesses(write: bool, reg: nat, w: nat, bs: seq<Byte>): seq<Event>
    requires 0 < w
  {
    if |bs| < w then []
    else [if write then RegWrite(reg, bs[..w]) else RegRead(reg, bs[..w])] + Accesses(write, reg, w, bs[w..])
  }

  lemma {:induction false} AccessesConcat(write: bool, reg: nat, w: nat, a: seq<Byte>, b: seq<Byte>)
    requires BeatSize(w) && |a| % w == 0
    ensures Accesses(write, reg, w, a + b) == Accesses(write, reg, w, a) + Accesses(write, reg, w, b)
  {
    if a == [] {
      assert a + b == b;
    } else {
      ModStep(|a|, w);
      assert (a + b)[..w] == a[..w] && (a + b)[w..] == a[w..] + b;
      AccessesConcat(write, reg, w, a[w..], b);
    }
  }

  /** The k-th access carries the k-th element. */
  lemma {:induction false} AccessesAt(write: bool, reg: nat, w: nat, bs: seq<Byte>, k: nat)
    requires 0 < w && (k + 1) * w <= |bs|
    ensures 0 <= k * w && k < |Accesses(write, reg, w, bs)|
    ensures Accesses(write, reg, w, bs)[k] ==
            var v := bs[k * w..(k + 1) * w]; if write then RegWrite(reg, v) else RegRead(reg, v)
  {
    if k > 0 {
      assert (k + 1) * w == k * w + w && k * w == (k - 1) * w + w;
      AccessesAt(write, reg, w, bs[w..], k - 1);
      assert bs[w..][(k - 1) * w..k * w] == bs[k * w..(k + 1) * w];
    }
  }

  /** There are as many accesses as elements. */
  lemma {:induction false} AccessCount(write: bool, reg: nat, w: nat, bs: seq<Byte>)
    requires 0 < w
    ensures |Accesses(write, reg, w, bs)| == |bs| / w
    decreases |bs|
  {
    if |bs| >= w {
      AccessCount(write, reg, w, bs[w..]);
      assert (|bs| - w) / w == |bs| / w - 1 by { OneFewer(|bs|, w); }
    } else {
      assert |bs| / w == 0;
    }
  }

  /** Fetches the n memory bytes at SAR. */
  function FetchMemory(s: State, n: int): Outcome {
    if 0 <= n && s.sar + n <= |s.mem| then
      Ok(s.(sar := s.sar + n, fifo := s.fifo + s.mem[s.sar..s.sar + n]))
    else Fault
  }

  /** Reads n bytes from the device register at SAR, w at a time. */
  function FetchRegister(s: State, w: nat, n: nat): Outcome
    requires 0 < w
  {
    if |s.mem| <= s.sar && n <= |s.rx| then
      Ok(s.(fifo := s.fifo + s.rx[..n], rx := s.rx[n..],
            trace := s.trace + Accesses(false, s.sar, w, s.rx[..n])))
    else Fault
  }

  function DrainMemory(s: State, n: int): Outcome {
    if 0 <= n <= |s.fifo| && s.dar + n <= |s.mem| then
      Ok(s.(mem := Splice(s.mem, s.dar, s.fifo[..n]), dar := s.dar + n, fifo := s.fifo[n..]))
    else Fault
  }

  function DrainRegister(s: State, w: nat, n: nat): Outcome
    requires 0 < w
  {
    if |s.mem| <= s.dar && n <= |s.fifo| then
      Ok(s.(fifo := s.fifo[n..], trace := s.trace + Accesses(true, s.dar, w, s.fifo[..n])))
    else Fault
  }

  /** A load of `beats` beats.  With an incrementing address the first beat of an unaligned
      burst is short, and the address register ends aligned; with a fixed one every beat
      reads the same memory element or the same register. */
  function Load(s: State, beats: nat): Outcome
    requires s.ccr.Valid()
  {
    var w := s.ccr.srcSize;
    if s.ccr.srcInc then FetchMemory(s, beats * w - s.sar % w)
    else if s.sar % w != 0 then Fault
    else if s.sar + w <= |s.mem| then
      Ok(s.(fifo := s.fifo + Repeat(s.mem[s.sar..s.sar + w], beats)))
    else FetchRegister(s, w, beats * w)
  }

  /** A store of `beats` beats out of the MFIFO; a store of more than it holds is a fault,
      and so is a fixed destination in memory, which no generator uses. */
  function Store(s: State, beats: nat): Outcome
    requires s.ccr.Valid()
  {
    var w := s.ccr.dstSize;
    if s.ccr.dstInc then DrainMemory(s, beats * w - s.dar % w)
    else if s.dar % w != 0 then Fault
    else DrainRegister(s, w, beats * w)
  }

  function StoreZeros(s: State): Outcome
    requires s.ccr.Valid()
  {
    var n := s.ccr.dstLen * s.ccr.dstSize - s.dar % s.ccr.dstSize;
    if s.ccr.dstInc && 0 <= n && s.dar + n <= |s.mem| then
      Ok(s.(mem := Splice(s.mem, s.dar, Zeros(n)), dar := s.dar + n))
    else Fault
  }

  /** One data instruction.  The S form of a load or a store moves one beat whatever the
      burst length says; the S and B forms do nothing when the request is of the other type. */
  function ExecInstr(i: Instr, s: State): Outcome {
    match i
    case MovSar(a) => Ok(s.(sar := a))
    case MovDar(a) => Ok(s.(dar := a))
    case MovCcr(c) => if c.Valid() then Ok(s.(ccr := c)) else Fault
    case Ld(f) =>
      if !Enabled(f, s.req) then Ok(s)
      else if s.ccr.Valid() then Load(s, if f == S then 1 else s.ccr.srcLen) else Fault
    case St(f) =>
      if !Enabled(f, s.req) then Ok(s)
      else if s.ccr.Valid() then Store(s, if f == S then 1 else s.ccr.dstLen) else Fault
    case Stz => if s.ccr.Valid() then StoreZeros(s) else Fault
    case Wfp(_, r) => Ok(s.(req := r))
    case FlushP(_) => Ok(s)
    case Wmb => Ok(s)
    case Sev(e) => Ok(s.(trace := s.trace + [Signal(e)]))
    case Lp(_) => Fault
    case LpEnd(_) => Fault
    case End => Fault
  }

  // ---- The structured meaning ----

  datatype Prog = Skip | Op(instr: Instr) | Seq(first: Prog, rest: Prog) | Loop(count: nat, body: Prog, end: Form)

  function Exec(p: Prog, s: State): Outcome
    decreases p, 0
  {
    match p
    case Skip => Ok(s)
    case Op(i) => ExecInstr(i, s)
    case Seq(a, b) =>
      (match Exec(a, s)
       case Ok(t) => Exec(b, t)
       case Fault => Fault)
    case Loop(n, body, end) => Iterate(n, body, end, s)
  }

  function Iterate(n: nat, body: Prog, end: Form, s: State): Outcome
    decreases body, n
  {
    if n == 0 then Ok(s)
    else
      match Exec(body, s)
      case Fault => Fault
      case Ok(t) => if Enabled(end, t.req) then Iterate(n - 1, body, end, t) else Ok(t)
  }

  /** At most `free` nested loops, each of 1 to 256 turns, only data instructions between
      them, and burst lengths from 1 to 16. */
  predicate WellFormed(p: Prog, free: nat) {
    match p
    case Skip => true
    case Op(i) => !i.Lp? && !i.LpEnd? && !i.End? && (i.MovCcr? ==> i.ccr.Valid())
    case Seq(a, b) => WellFormed(a, free) && WellFormed(b, free)
    case Loop(n, body, _) => 0 < free && 1 <= n <= 256 && WellFormed(body, free - 1)
  }

  /** The instructions of p in program order. */
  function Flatten(p: Prog): seq<Instr> {
    match p
    case Skip => []
    case Op(i) => [i]
    case Seq(a, b) => Flatten(a) + Flatten(b)
    case Loop(n, body, end) => [Lp(n)] + Flatten(body) + [LpEnd(end)]
  }

  // ---- The flat machine ----

  datatype Frame = Frame(start: nat, left: nat)

  datatype Machine = Running(pc: nat, loops: seq<Frame>, st: State) | Halted(st: State) | Faulted

  /** One instruction of the flat machine.  The controller has two loop counters, so a third
      nested DMALP is a fault; so is leaving the program without DMAEND. */
  function Step(code: seq<Instr>, m: Machine): Machine {
    if !m.Running? then m
    else if |code| <= m.pc then Faulted
    else
      match code[m.pc]
      case End => Halted(m.st)
      case Lp(n) =>
        if 1 <= n <= 256 && |m.loops| < 2 then Running(m.pc + 1, m.loops + [Frame(m.pc + 1, n)], m.st) else Faulted
      case LpEnd(f) =>
        if m.loops == [] then Faulted
        else
          var top, below := m.loops[|m.loops| - 1], m.loops[..|m.loops| - 1];
          if !Enabled(f, m.st.req) || top.left <= 1 then Running(m.pc + 1, below, m.st)
          else Running(top.start, below + [Frame(top.start, top.left - 1)], m.st)
      case i =>
        match ExecInstr(i, m.st)
        case Ok(t) => Running(m.pc + 1, m.loops, t)
        case Fault => Faulted
  }

  function Run(code: seq<Instr>, m: Machine, steps: nat): Machine
    decreases steps
  {
    if steps == 0 then m else Run(code, Step(code, m), steps - 1)
  }

  lemma {:induction false} RunSplits(code: seq<Instr>, m: Machine, a: nat, b: nat)
    ensures Run(code, m, a + b) == Run(code, Run(code, m, a), b)
    decreases a
  {
    if a > 0 {
      RunSplits(code, Step(code, m), a - 1, b);
    }
  }

  ghost predicate Reaches(code: seq<Instr>, m: Machine, m': Machine) {
    exists n: nat :: Run(code, m, n) == m'
  }

  lemma ReachesStep(code: seq<Instr>, m: Machine)
    ensures Reaches(code, m, Step(code, m))
  {
    assert Run(code, m, 1) == Run(code, Step(code, m), 0);
  }

  lemma ReachesChains(code: seq<Instr>, a: Machine, b: Machine, c: Machine)
    requires Reaches(code, a, b) && Reaches(code, b, c)
    ensures Reaches(code, a, c)
  {
    var m: nat :| Run(code, a, m) == b;
    var n: nat :| Run(code, b, n) == c;
    RunSplits(code, a, m, n);
  }

  function Resume(o: Outcome, pc: nat, loops: seq<Frame>): Machine {
    match o
    case Ok(t) => Running(pc, loops, t)
    case Fault => Faulted
  }

  /** The code of p lies in `code` at address `at`. */
  ghost predicate Located(code: seq<Instr>, at: nat, p: Prog) {
    at + |Flatten(p)| <= |code| && code[at..at + |Flatten(p)|] == Flatten(p)
  }

  lemma SliceOfConcat(code: seq<Instr>, at: nat, x: seq<Instr>, y: seq<Instr>)
    requires at + |x + y| <= |code| && code[at..at + |x + y|] == x + y
    ensures code[at..at + |x|] == x && code[at + |x|..at + |x| + |y|] == y
  {
    forall i | 0 <= i < |x| ensures code[at + i] == x[i] {
      assert code[at..at + |x + y|][i] == (x + y)[i];
    }
    forall i | 0 <= i < |y| ensures code[at + |x| + i] == y[i] {
      assert code[at..at + |x + y|][|x| + i] == (x + y)[|x| + i];
    }
  }

  lemma LocatedSeq(code: seq<Instr>, at: nat, a: Prog, b: Prog)
    requires Located(code, at, Seq(a, b))
    ensures Located(code, at, a) && Located(code, at + |Flatten(a)|, b)
    ensures |Flatten(Seq(a, b))| == |Flatten(a)| + |Flatten(b)|
  {
    SliceOfConcat(code, at, Flatten(a), Flatten(b));
  }

  lemma SliceElement(code: seq<Instr>, at: nat, x: seq<Instr>, k: nat)
    requires at + |x| <= |code| && code[at..at + |x|] == x && k < |x|
    ensures code[at + k] == x[k]
  {
    assert code[at..at + |x|][k] == code[at + k];
  }

  lemma SliceOfThree(code: seq<Instr>, at: nat, x: Instr, y: seq<Instr>, z: Instr)
    requires at + |y| + 2 <= |code| && code[at..at + |[x] + y + [z]|] == [x] + y + [z]
    ensures code[at] == x && code[at + 1 + |y|] == z && code[at + 1..at + 1 + |y|] == y
  {
    var all := [x] + y + [z];
    SliceElement(code, at, all, 0);
    SliceElement(code, at, all, |y| + 1);
    forall k | 0 <= k < |y| ensures code[at + 1 + k] == y[k] {
      SliceElement(code, at, all, 1 + k);
    }
  }

  lemma LocatedLoop(code: seq<Instr>, at: nat, n: nat, body: Prog, end: Form)
    requires Located(code, at, Loop(n, body, end))
    ensures Located(code, at + 1, body)
    ensures |Flatten(Loop(n, body, end))| == |Flatten(body)| + 2
    ensures code[at] == Lp(n) && code[at + 1 + |Flatten(body)|] == LpEnd(end)
  {
    SliceOfThree(code, at, Lp(n), Flatten(body), LpEnd(end));
  }

  /** The flat machine does to p's instructions what the structured meaning says, fault for
      fault, and comes out just behind them with its loop counters as they were. */
  lemma {:induction false} FlatRunsStructured(code: seq<Instr>, at: nat, p: Prog, loops: seq<Frame>, s: State)
    requires Located(code, at, p)
    requires |loops| <= 2 && WellFormed(p, 2 - |loops|)
    ensures Reaches(code, Running(at, loops, s), Resume(Exec(p, s), at + |Flatten(p)|, loops))
    decreases p, 0
  {
    match p
    case Skip =>
      assert Run(code, Running(at, loops, s), 0) == Running(at, loops, s);
    case Op(i) =>
      assert code[at] == code[at..at + 1][0] == i;
      ReachesStep(code, Running(at, loops, s));
    case Seq(a, b) =>
      LocatedSeq(code, at, a, b);
      FlatRunsStructured(code, at, a, loops, s);
      var mid := at + |Flatten(a)|;
      match Exec(a, s) {
        case Ok(t) =>
          FlatRunsStructured(code, mid, b, loops, t);
          ReachesChains(code, Running(at, loops, s), Running(mid, loops, t),
                        Resume(Exec(b, t), mid + |Flatten(b)|, loops));
        case Fault =>
      }
    case Loop(n, body, end) =>
      LocatedLoop(code, at, n, body, end);
      ReachesStep(code, Running(at, loops, s));
      FlatRunsLoop(code, at, n, n, body, end, loops, s);
      ReachesChains(code, Running(at, loops, s), Running(at + 1, loops + [Frame(at + 1, n)], s),
                    Resume(Iterate(n, body, end, s), at + |Flatten(p)|, loops));
  }

  lemma StepLoopEnd(code: seq<Instr>, pc: nat, loops: seq<Frame>, f: Frame, st: State, form: Form)
    requires pc < |code| && code[pc] == LpEnd(form)
    ensures Step(code, Running(pc, loops + [f], st))
         == if !Enabled(form, st.req) || f.left <= 1 then Running(pc + 1, loops, st)
            else Running(f.start, loops + [Frame(f.start, f.left - 1)], st)
  {
    assert (loops + [f])[..|loops|] == loops;
  }

  lemma ReachesThenStep(code: seq<Instr>, a: Machine, b: Machine)
    requires Reaches(code, a, b)
    ensures Reaches(code, a, Step(code, b))
  {
    ReachesStep(code, b);
    ReachesChains(code, a, b, Step(code, b));
  }

  lemma IterateOnce(n: nat, body: Prog, end: Form, s: State, t: State)
    requires 0 < n && Exec(body, s) == Ok(t)
    ensures Iterate(n, body, end, s)
         == if Enabled(end, t.req) && 1 < n then Iterate(n - 1, body, end, t) else Ok(t)
  {
    if n == 1 { assert Iterate(0, body, end, t) == Ok(t); }
  }

  lemma {:induction false} FlatRunsLoop(code: seq<Instr>, at: nat, n: nat, left: nat, body: Prog, end: Form,
      loops: seq<Frame>, s: State)
    requires Located(code, at, Loop(n, body, end))
    requires |loops| <= 1 && WellFormed(body, 1 - |loops|) && 1 <= left
    ensures Reaches(code, Running(at + 1, loops + [Frame(at + 1, left)], s),
                    Resume(Iterate(left, body, end, s), at + |Flatten(Loop(n, body, end))|, loops))
    decreases body, left
  {
    LocatedLoop(code, at, n, body, end);
    var f, tail := Frame(at + 1, left), at + 1 + |Flatten(body)|;
    var begin := Running(at + 1, loops + [f], s);
    FlatRunsStructured(code, at + 1, body, loops + [f], s);
    if Exec(body, s).Ok? {
      var t := Exec(body, s).state;
      IterateOnce(left, body, end, s, t);
      StepLoopEnd(code, tail, loops, f, t, end);
      ReachesThenStep(code, begin, Running(tail, loops + [f], t));
      if Enabled(end, t.req) && 1 < left {
        FlatRunsLoop(code, at, n, left - 1, body, end, loops, t);
        ReachesChains(code, begin, Running(at + 1, loops + [Frame(at + 1, left - 1)], t),
                      Resume(Iterate(left - 1, body, end, t), tail + 1, loops));
      }
    }
  }

  /** A whole program, closed by DMAEND, halts in the state the structured meaning gives. */
  lemma ProgramHalts(code: seq<Instr>, p: Prog, s: State, t: State)
    requires code == Flatten(p) + [End]
    requires WellFormed(p, 2) && Exec(p, s) == Ok(t)
    ensures Reaches(code, Running(0, [], s), Halted(t))
  {
    FlatRunsStructured(code, 0, p, [], s);
    var last := Running(|Flatten(p)|, [], t);
    ReachesStep(code, last);
    ReachesChains(code, Running(0, [], s), last, Halted(t));
  }

  // ---- Helpers on structured programs ----

  lemma ExecSeq(p: Prog, q: Prog, s: State, t: State)
    requires Exec(p, s) == Ok(t)
    ensures Exec(Seq(p, q), s) == Exec(q, t)
  {
  }

  lemma ExecThenRest(a: Prog, b: Prog, c: Prog, s: State, t: State)
    requires Exec(Seq(a, b), s) == Ok(t)
    ensures Exec(Seq(a, Seq(b, c)), s) == Exec(c, t)
  {
    var mid := Exec(a, s).state;
    ExecSeq(a, b, s, mid);
    ExecSeq(a, Seq(b, c), s, mid);
    ExecSeq(b, c, mid, t);
  }

  /** One body, or a loop of them when there is more than one turn. */
  function OnceOrLoop(n: nat, body: Prog, end: Form): Prog {
    if n > 1 then Loop(n, body, end) else body
  }

  /** n turns of body as consecutive loops of at most 256 turns. */
  function Chunked(n: nat, body: Prog, end: Form): Prog {
    if n == 0 then Skip
    else
      Seq(OnceOrLoop(Turns(n), body, end), Chunked(n - Turns(n), body, end))
  }

  lemma ExecOnceOrLoop(n: nat, body: Prog, s: State, t: State)
    requires 0 < n && Iterate(n, body, Plain, s) == Ok(t)
    ensures Exec(OnceOrLoop(n, body, Plain), s) == Ok(t)
  {
    if n == 1 && Exec(body, s).Ok? {
      IterateOnce(1, body, Plain, s, Exec(body, s).state);
    }
  }

  /** The turns of the first loop of a chunked repetition. */
  function Turns(n: nat): (k: nat)
    ensures k <= n && k <= 256 && (0 < n ==> 0 < k) && (k < n ==> k == 256)
  {
    if n < 256 then n else 256
  }

  lemma ExecChunked(n: nat, body: Prog, end: Form, s: State, t: State)
    requires 0 < n && Exec(OnceOrLoop(Turns(n), body, end), s) == Ok(t)
    ensures Exec(Chunked(n, body, end), s) == Exec(Chunked(n - Turns(n), body, end), t)
  {
    ExecSeq(OnceOrLoop(Turns(n), body, end), Chunked(n - Turns(n), body, end), s, t);
  }

  /** If every turn takes the state from after(i) to after(i + 1), k turns take it from
      after(from) to after(from + k), in one loop or in several. */
  lemma {:induction false} IterateStates(p: Prog, k: nat, from: nat, after: nat -> State)
    requires forall i: nat | from <= i < from + k :: Exec(p, after(i)) == Ok(after(i + 1))
    ensures Iterate(k, p, Plain, after(from)) == Ok(after(from + k))
    decreases k
  {
    if k > 0 {
      assert Exec(p, after(from)) == Ok(after(from + 1));
      IterateStates(p, k - 1, from + 1, after);
    }
  }

  lemma {:induction false} ChunkedStates(p: Prog, k: nat, from: nat, after: nat -> State)
    requires forall i: nat | from <= i < from + k :: Exec(p, after(i)) == Ok(after(i + 1))
    ensures Exec(Chunked(k, p, Plain), after(from)) == Ok(after(from + k))
    decreases k
  {
    if k > 0 {
      var c := Turns(k);
      IterateStates(p, c, from, after);
      ExecOnceOrLoop(c, p, after(from), after(from + c));
      ExecChunked(k, p, Plain, after(from), after(from + c));
      ChunkedStates(p, k - c, from + c, after);
    }
  }

  lemma {:induction false} ChunkedWellFormed(n: nat, body: Prog, end: Form, free: nat)
    requires 0 < free && WellFormed(body, free - 1)
    ensures WellFormed(Chunked(n, body, end), free)
  {
    if n > 0 {
      var k := Turns(n);
      WellFormedMonotone(body, free - 1, free);
      ChunkedWellFormed(n - k, body, end, free);
    }
  }

  lemma {:induction false} WellFormedMonotone(p: Prog, free: nat, more: nat)
    requires WellFormed(p, free) && free <= more
    ensures WellFormed(p, more)
  {
    match p
    case Skip =>
    case Op(_) =>
    case Seq(a, b) => WellFormedMonotone(a, free, more); WellFormedMonotone(b, free, more);
    case Loop(_, body, _) => WellFormedMonotone(body, free - 1, more - 1);
  }

  // ---- Code as it is written ----

  /** Code under construction, the last instruction outermost. */
  datatype Code = Empty | Then(before: Code, instr: Instr)

  function Text(c: Code): seq<Instr> {
    match c
    case Empty => []
    case Then(before, i) => Text(before) + [i]
  }

  /** p written behind c. */
  function Append(c: Code, p: Prog): Code
    decreases p
  {
    match p
    case Skip => c
    case Op(i) => Then(c, i)
    case Seq(a, b) => Append(Append(c, a), b)
    case Loop(n, body, end) => Then(Append(Then(c, Lp(n)), body), LpEnd(end))
  }

  lemma ConcatFour(a: seq<Instr>, b: seq<Instr>, c: seq<Instr>, d: seq<Instr>)
    ensures a + b + c + d == a + (b + c + d)
  {
  }

  lemma {:induction false} AppendText(c: Code, p: Prog)
    ensures Text(Append(c, p)) == Text(c) + Flatten(p)
    decreases p
  {
    match p
    case Skip =>
    case Op(i) =>
    case Seq(a, b) =>
      AppendText(c, a);
      AppendText(Append(c, a), b);
    case Loop(n, body, end) =>
      AppendText(Then(c, Lp(n)), body);
      LoopText(c, n, body, end);
  }

  lemma LoopText(c: Code, n: nat, body: Prog, end: Form)
    requires Text(Append(Then(c, Lp(n)), body)) == Text(Then(c, Lp(n))) + Flatten(body)
    ensures Text(Append(c, Loop(n, body, end))) == Text(c) + Flatten(Loop(n, body, end))
  {
    ConcatFour(Text(c), [Lp(n)], Flatten(body), [LpEnd(end)]);
  }

  lemma AppendSeq(c: Code, a: Prog, b: Prog)
    ensures Append(c, Seq(a, b)) == Append(Append(c, a), b)
  {
  }

  lemma AppendPhases(code: Code, a: Prog, b: Prog, c: Prog, d: Prog, e: Prog)
    ensures Append(code, Seq(a, Seq(b, Seq(c, Seq(d, e)))))
         == Append(Append(Append(Append(Append(code, a), b), c), d), e)
  {
    var code1, code2, code3 := Append(code, a), Append(Append(code, a), b), Append(Append(Append(code, a), b), c);
    AppendSeq(code, a, Seq(b, Seq(c, Seq(d, e))));
    AppendSeq(code1, b, Seq(c, Seq(d, e)));
    AppendSeq(code2, c, Seq(d, e));
    AppendSeq(code3, d, e);
  }

  /** The first loop of a chunked repetition, and what is left of it. */
  lemma AppendChunk(code: Code, n: nat, body: Prog, end: Form)
    requires 0 < n
    ensures var k := Turns(n);
            && Append(code, Chunked(n, body, end))
                == Append(Append(code, OnceOrLoop(k, body, end)), Chunked(n - k, body, end))
            && (k > 1 ==> Append(code, OnceOrLoop(k, body, end)) == Then(Append(Then(code, Lp(k)), body), LpEnd(end)))
            && (k == 1 ==> Append(code, OnceOrLoop(k, body, end)) == Append(code, body))
  {
  }
}
