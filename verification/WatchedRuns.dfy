/** The rules of Pacing, kept by the controller itself: every instruction that the flat machine
    executes is judged, and the verdict is that on the structured program. */
module WatchedRuns {
  import opened Options
  import opened Pl330
  import opened Closing
  import opened Pacing

  /** The instruction that the machine is about to execute. */
  function WatchStep(lines: Lines, code: seq<Instr>, m: Machine, w: Watcher): Option<Watcher> {
    if m.Running? && m.pc < |code| then Judge(lines, code[m.pc], m.st, w) else Some(w)
  }

  function WatchRun(lines: Lines, code: seq<Instr>, m: Machine, w: Watcher, steps: nat): Option<Watcher>
    decreases steps
  {
    if steps == 0 then Some(w)
    else
      match WatchStep(lines, code, m, w)
      case None => None
      case Some(v) => WatchRun(lines, code, Step(code, m), v, steps - 1)
  }

  /** The machine gets there, and no instruction on the way breaks a rule. */
  ghost predicate WatchedReaches(lines: Lines, code: seq<Instr>, m: Machine, w: Watcher, m': Machine, w': Watcher) {
    exists n: nat :: Run(code, m, n) == m' && WatchRun(lines, code, m, w, n) == Some(w')
  }

  lemma {:induction false} WatchSplits(
    lines: Lines, code: seq<Instr>, m: Machine, w: Watcher, v: Watcher, a: nat, b: nat)
    requires WatchRun(lines, code, m, w, a) == Some(v)
    ensures WatchRun(lines, code, m, w, a + b) == WatchRun(lines, code, Run(code, m, a), v, b)
    decreases a
  {
    if a > 0 {
      WatchSplits(lines, code, Step(code, m), WatchStep(lines, code, m, w).value, v, a - 1, b);
    }
  }

  lemma WatchedNothing(lines: Lines, code: seq<Instr>, m: Machine, w: Watcher)
    ensures WatchedReaches(lines, code, m, w, m, w)
  {
    assert Run(code, m, 0) == m && WatchRun(lines, code, m, w, 0) == Some(w);
  }

  lemma WatchedStep(lines: Lines, code: seq<Instr>, m: Machine, w: Watcher, v: Watcher)
    requires WatchStep(lines, code, m, w) == Some(v)
    ensures WatchedReaches(lines, code, m, w, Step(code, m), v)
  {
    assert Run(code, m, 1) == Run(code, Step(code, m), 0);
    assert WatchRun(lines, code, m, w, 1) == WatchRun(lines, code, Step(code, m), v, 0);
  }

  lemma WatchedChains(
    lines: Lines, code: seq<Instr>, a: Machine, w: Watcher, b: Machine, v: Watcher, c: Machine, u: Watcher)
    requires WatchedReaches(lines, code, a, w, b, v) && WatchedReaches(lines, code, b, v, c, u)
    ensures WatchedReaches(lines, code, a, w, c, u)
  {
    var m: nat :| Run(code, a, m) == b && WatchRun(lines, code, a, w, m) == Some(v);
    var n: nat :| Run(code, b, n) == c && WatchRun(lines, code, b, v, n) == Some(u);
    RunSplits(code, a, m, n);
    WatchSplits(lines, code, a, w, v, m, n);
  }

  /** The watcher of the flat machine comes out with what the watcher of the structured program
      comes out with. */
  lemma {:induction false} FlatWatched(
    lines: Lines, code: seq<Instr>, at: nat, p: Prog, loops: seq<Frame>, s: State, w: Watcher)
    requires Located(code, at, p) && |loops| <= 2 && WellFormed(p, 2 - |loops|)
    requires Exec(p, s).Ok? && Watch(lines, p, s, w).Some?
    ensures WatchedReaches(lines, code, Running(at, loops, s), w,
                           Running(at + |Flatten(p)|, loops, Exec(p, s).state), Watch(lines, p, s, w).value)
    decreases p, 0
  {
    match p
    case Skip => WatchedNothing(lines, code, Running(at, loops, s), w);
    case Op(i) =>
      assert code[at] == code[at..at + 1][0] == i;
      WatchedStep(lines, code, Running(at, loops, s), w, Judge(lines, i, s, w).value);
    case Seq(a, b) =>
      LocatedSeq(code, at, a, b);
      var mid, t, v := at + |Flatten(a)|, Exec(a, s).state, Watch(lines, a, s, w).value;
      FlatWatched(lines, code, at, a, loops, s, w);
      FlatWatched(lines, code, mid, b, loops, t, v);
      WatchedChains(lines, code, Running(at, loops, s), w, Running(mid, loops, t), v,
                    Running(mid + |Flatten(b)|, loops, Exec(b, t).state), Watch(lines, b, t, v).value);
    case Loop(n, body, end) =>
      LocatedLoop(code, at, n, body, end);
      WatchedStep(lines, code, Running(at, loops, s), w, w);
      FlatTurns(lines, code, at, n, n, body, end, loops, s, w);
      WatchedChains(lines, code, Running(at, loops, s), w, Running(at + 1, loops + [Frame(at + 1, n)], s), w,
                    Running(at + |Flatten(p)|, loops, Exec(p, s).state), Watch(lines, p, s, w).value);
  }

  /** One turn of a loop, and the loop end behind it. */
  lemma {:induction false} FlatTurn(
    lines: Lines, code: seq<Instr>, at: nat, n: nat, left: nat, body: Prog, end: Form, loops: seq<Frame>, s: State,
    w: Watcher)
    requires Located(code, at, Loop(n, body, end)) && |loops| <= 1 && WellFormed(body, 1 - |loops|) && 1 <= left
    requires Exec(body, s).Ok? && Watch(lines, body, s, w).Some?
    ensures var t, v := Exec(body, s).state, Watch(lines, body, s, w).value;
            WatchedReaches(lines, code, Running(at + 1, loops + [Frame(at + 1, left)], s), w,
                           AfterTurn(at + 1 + |Flatten(body)|, loops, Frame(at + 1, left), t, end), v)
    decreases body, 1
  {
    LocatedLoop(code, at, n, body, end);
    var f, tail := Frame(at + 1, left), at + 1 + |Flatten(body)|;
    var t, v := Exec(body, s).state, Watch(lines, body, s, w).value;
    FlatWatched(lines, code, at + 1, body, loops + [f], s, w);
    LoopEndWatched(lines, code, tail, loops, f, t, end, v);
    WatchedChains(lines, code, Running(at + 1, loops + [f], s), w, Running(tail, loops + [f], t), v,
                  AfterTurn(tail, loops, f, t, end), v);
  }

  /** Where the loop end at pc leads. */
  function AfterTurn(pc: nat, loops: seq<Frame>, f: Frame, s: State, end: Form): Machine {
    if !Enabled(end, s.req) || f.left <= 1 then Running(pc + 1, loops, s)
    else Running(f.start, loops + [Frame(f.start, f.left - 1)], s)
  }

  lemma {:induction false} FlatTurns(
    lines: Lines, code: seq<Instr>, at: nat, n: nat, left: nat, body: Prog, end: Form, loops: seq<Frame>, s: State,
    w: Watcher)
    requires Located(code, at, Loop(n, body, end)) && |loops| <= 1 && WellFormed(body, 1 - |loops|) && 1 <= left
    requires Iterate(left, body, end, s).Ok? && WatchTurns(lines, left, body, end, s, w).Some?
    ensures WatchedReaches(lines, code, Running(at + 1, loops + [Frame(at + 1, left)], s), w,
                           Running(at + 2 + |Flatten(body)|, loops, Iterate(left, body, end, s).state),
                           WatchTurns(lines, left, body, end, s, w).value)
    decreases body, left + 1
  {
    var t, v := Exec(body, s).state, Watch(lines, body, s, w).value;
    FlatTurn(lines, code, at, n, left, body, end, loops, s, w);
    IterateOnce(left, body, end, s, t);
    WatchTurnsOnce(lines, left, body, end, s, w);
    if Enabled(end, t.req) && 1 < left {
      FlatTurns(lines, code, at, n, left - 1, body, end, loops, t, v);
      WatchedChains(lines, code, Running(at + 1, loops + [Frame(at + 1, left)], s), w,
                    Running(at + 1, loops + [Frame(at + 1, left - 1)], t), v,
                    Running(at + 2 + |Flatten(body)|, loops, Iterate(left - 1, body, end, t).state),
                    WatchTurns(lines, left - 1, body, end, t, v).value);
    }
  }

  lemma LoopEndWatched(
    lines: Lines, code: seq<Instr>, pc: nat, loops: seq<Frame>, f: Frame, s: State, form: Form, w: Watcher)
    requires pc < |code| && code[pc] == LpEnd(form)
    ensures WatchedReaches(lines, code, Running(pc, loops + [f], s), w, AfterTurn(pc, loops, f, s, form), w)
  {
    StepLoopEnd(code, pc, loops, f, s, form);
    WatchedStep(lines, code, Running(pc, loops + [f], s), w, w);
  }

  lemma WatchTurnsOnce(lines: Lines, n: nat, body: Prog, end: Form, s: State, w: Watcher)
    requires 0 < n && Exec(body, s).Ok? && Watch(lines, body, s, w).Some?
    ensures var t, v := Exec(body, s).state, Watch(lines, body, s, w).value;
            WatchTurns(lines, n, body, end, s, w)
            == if Enabled(end, t.req) && 1 < n then WatchTurns(lines, n - 1, body, end, t, v) else Some(v)
  {
    var t, v := Exec(body, s).state, Watch(lines, body, s, w).value;
    if n == 1 { assert WatchTurns(lines, 0, body, end, t, v) == Some(v); }
  }

  /** From what has been shown of the body of a request to the whole program, up to its DMAEND. */
  lemma RequestWatched(
    lines: Lines, body: Prog, event: Option<nat>, barrier: bool, s: State, w: Watcher, mid: State, v: Watcher)
    returns (t: State)
    requires WellFormed(body, 2) && Exec(body, s) == Ok(mid) && Watch(lines, body, s, w) == Some(v)
    ensures WatchedReaches(lines, ProgramText(body, event, barrier), Running(0, [], s), w, Halted(t), v)
    ensures t == mid.(trace := mid.trace + Signals(event))
  {
    var ending, p, code := Ending(event, barrier), Seq(body, Ending(event, barrier)), ProgramText(body, event, barrier);
    EndingRuns(mid, event, barrier);
    EndingWatched(lines, event, barrier, mid, v);
    ExecSeq(body, ending, s, mid);
    t := mid.(trace := mid.trace + Signals(event));
    FlatWatched(lines, code, 0, p, [], s, w);
    var last := Running(|Flatten(p)|, [], t);
    WatchedStep(lines, code, last, v, v);
    WatchedChains(lines, code, Running(0, [], s), w, last, v, Halted(t), v);
  }

  lemma EndingWatched(lines: Lines, event: Option<nat>, barrier: bool, s: State, w: Watcher)
    ensures Watch(lines, Ending(event, barrier), s, w) == Some(w)
  {
    assert Watch(lines, Notify(event), s, w) == Some(w);
    if event.Some? && barrier { assert Watch(lines, Op(Wmb), s, w) == Some(w) && Exec(Op(Wmb), s) == Ok(s); }
  }
}
