/** Which request of a device every register access belongs to.  A device is asked whether it has
    one (DMAFLUSHP), the program waits for it (DMAWFP), and the accesses behind that use it up. */
module Pacing {
  import opened Arithmetic
  import opened Options
  import opened Pl330
  import opened Transfer
  import opened Turns

  /** A request line of a device: whether its requests are for writes or for reads of a register,
      and for how many of them a request of each type is. */
  datatype Line = Line(periph: nat, write: bool, burst: nat, single: nat) {
    function Credit(r: Request): nat {
      if r.BurstRequest? then burst else single
    }
  }

  /** The one or two lines that a program may wait on. */
  datatype Lines = Lines(one: Line, other: Line) {
    function At(periph: nat): Option<Line> {
      if one.periph == periph then Some(one) else if other.periph == periph then Some(other) else None
    }
  }

  /** What was granted last, and how many accesses have been made under it. */
  datatype Grant = Idle | Flushed(line: Line) | Held(line: Line, request: Request, used: nat)

  /** No grant is open: the last one has been used up to the last access. */
  predicate UsedUp(g: Grant) {
    g.Idle? || (g.Held? && g.used == g.line.Credit(g.request))
  }

  /** The grant, and how many requests of each type there have been. */
  datatype Watcher = Watcher(grant: Grant, bursts: nat, singles: nat)

  // ---- The rules ----

  /** Under a grant of the right type for this direction, and within it. */
  function Access(write: bool, form: Form, beats: nat, w: Watcher): Option<Watcher> {
    var g := w.grant;
    if g.Held? && g.line.write == write && form != Plain && g.request == RequestOf(form)
       && g.used + beats <= g.line.Credit(g.request) then
      Some(w.(grant := g.(used := g.used + beats)))
    else None
  }

  /** A line may be flushed when the last grant has been used up, and waited on when it has just
      been flushed; every access to a register needs a grant. */
  function Judge(lines: Lines, i: Instr, s: State, w: Watcher): Option<Watcher> {
    match i
    case FlushP(p) =>
      if UsedUp(w.grant) && lines.At(p).Some? then Some(w.(grant := Flushed(lines.At(p).value))) else None
    case Wfp(p, r) =>
      if w.grant.Flushed? && w.grant.line.periph == p then
        Some(Watcher(Held(w.grant.line, r, 0), w.bursts + (if r.BurstRequest? then 1 else 0),
                     w.singles + if r.SingleRequest? then 1 else 0))
      else None
    case Ld(f) =>
      if Enabled(f, s.req) && !s.ccr.srcInc && |s.mem| <= s.sar then Access(false, f, Beats(f, s.ccr.srcLen), w)
      else Some(w)
    case St(f) =>
      if Enabled(f, s.req) && !s.ccr.dstInc && |s.mem| <= s.dar then Access(true, f, Beats(f, s.ccr.dstLen), w)
      else Some(w)
    case _ => Some(w)
  }

  /** A run of p from s, watched: None if a rule is broken, or if there is no such run. */
  function Watch(lines: Lines, p: Prog, s: State, w: Watcher): Option<Watcher>
    decreases p, 0
  {
    match p
    case Skip => Some(w)
    case Op(i) => Judge(lines, i, s, w)
    case Seq(a, b) =>
      var o, v := Exec(a, s), Watch(lines, a, s, w);
      if o.Ok? && v.Some? then Watch(lines, b, o.state, v.value) else None
    case Loop(n, body, end) => WatchTurns(lines, n, body, end, s, w)
  }

  function WatchTurns(lines: Lines, n: nat, body: Prog, end: Form, s: State, w: Watcher): Option<Watcher>
    decreases body, n
  {
    if n == 0 then Some(w)
    else
      var o, v := Exec(body, s), Watch(lines, body, s, w);
      if o.Fault? || v.None? then None
      else if Enabled(end, o.state.req) then WatchTurns(lines, n - 1, body, end, o.state, v.value)
      else v
  }

  // ---- What is known of a state ----

  /** Some of the registers, and bounds for the size of memory. */
  datatype Setting = Setting(
    reg: nat, room: nat, sar: Option<nat>, dar: Option<nat>, ccr: Option<Ccr>, req: Option<Request>)

  predicate In(s: State, x: Setting) {
    && x.room <= |s.mem| <= x.reg
    && (x.sar.Some? ==> s.sar == x.sar.value) && (x.dar.Some? ==> s.dar == x.dar.value)
    && (x.ccr.Some? ==> s.ccr == x.ccr.value) && (x.req.Some? ==> s.req == x.req.value)
  }

  predicate Tells(x: Setting, y: Setting) {
    && x.reg <= y.reg && y.room <= x.room
    && (y.sar.Some? ==> x.sar == y.sar) && (y.dar.Some? ==> x.dar == y.dar)
    && (y.ccr.Some? ==> x.ccr == y.ccr) && (y.req.Some? ==> x.req == y.req)
  }

  /** So many more requests have been made and used up. */
  predicate Advanced(o: Option<Watcher>, w: Watcher, bursts: nat, singles: nat) {
    o.Some? && UsedUp(o.value.grant) && o.value.bursts == w.bursts + bursts && o.value.singles == w.singles + singles
  }

  /** If p runs through from s, it leads to y, keeps the rules and makes so many requests. */
  predicate Paces(lines: Lines, x: Setting, p: Prog, y: Setting, bursts: nat, singles: nat, s: State, w: Watcher) {
    In(s, x) && UsedUp(w.grant) && Exec(p, s).Ok? ==>
      In(Exec(p, s).state, y) && Advanced(Watch(lines, p, s, w), w, bursts, singles)
  }

  /** From every state in x. */
  ghost predicate Paced(lines: Lines, x: Setting, p: Prog, y: Setting, bursts: nat, singles: nat) {
    forall s: State, w: Watcher :: Paces(lines, x, p, y, bursts, singles, s, w)
  }

  // ---- Parts of programs ----

  lemma SkipPaced(lines: Lines, x: Setting)
    ensures Paced(lines, x, Skip, x, 0, 0)
  {
  }

  /** Instructions that set a register, and with it what is known of it. */
  lemma SetPaced(lines: Lines, x: Setting, i: Instr, y: Setting)
    requires i.MovSar? || i.MovDar? || i.MovCcr?
    requires y == match i
                  case MovSar(a) => x.(sar := Some(a))
                  case MovDar(a) => x.(dar := Some(a))
                  case MovCcr(c) => x.(ccr := Some(c))
                  case _ => x
    ensures Paced(lines, x, Op(i), y, 0, 0)
  {
  }

  lemma {:induction false} TellsPaced(
    lines: Lines, x: Setting, x': Setting, p: Prog, y': Setting, y: Setting, bursts: nat, singles: nat)
    requires Paced(lines, x', p, y', bursts, singles) && Tells(x, x') && Tells(y', y)
    ensures Paced(lines, x, p, y, bursts, singles)
  {
    forall s: State, w: Watcher ensures Paces(lines, x, p, y, bursts, singles, s, w) {
      assert Paces(lines, x', p, y', bursts, singles, s, w);
    }
  }

  lemma InstrKeepsSize(i: Instr, s: State)
    requires ExecInstr(i, s).Ok?
    ensures |ExecInstr(i, s).state.mem| == |s.mem|
  {
  }

  lemma {:induction false} RunKeepsSize(p: Prog, s: State)
    requires Exec(p, s).Ok?
    ensures |Exec(p, s).state.mem| == |s.mem|
    decreases p, 0
  {
    match p
    case Skip =>
    case Op(i) => InstrKeepsSize(i, s);
    case Seq(a, b) =>
      RunKeepsSize(a, s);
      RunKeepsSize(b, Exec(a, s).state);
    case Loop(n, body, end) => TurnsKeepSize(n, body, end, s);
  }

  lemma {:induction false} TurnsKeepSize(n: nat, body: Prog, end: Form, s: State)
    requires Iterate(n, body, end, s).Ok?
    ensures |Iterate(n, body, end, s).state.mem| == |s.mem|
    decreases body, n
  {
    if n > 0 {
      RunKeepsSize(body, s);
      var t := Exec(body, s).state;
      if Enabled(end, t.req) { TurnsKeepSize(n - 1, body, end, t); }
    }
  }

  /** Memory does not change its size. */
  lemma {:induction false} RoomPaced(
    lines: Lines, x: Setting, p: Prog, y: Setting, bursts: nat, singles: nat, room: nat)
    requires Paced(lines, x, p, y, bursts, singles) && x.room <= room
    ensures Paced(lines, x.(room := room), p, y.(room := room), bursts, singles)
  {
    forall s: State, w: Watcher
      ensures Paces(lines, x.(room := room), p, y.(room := room), bursts, singles, s, w)
    {
      assert Paces(lines, x, p, y, bursts, singles, s, w);
      if Exec(p, s).Ok? { RunKeepsSize(p, s); }
    }
  }

  lemma {:induction false} SeqPaced(
    lines: Lines, x: Setting, p: Prog, y: Setting, q: Prog, z: Setting, b: nat, s: nat, b': nat, s': nat,
    bs: nat, ss: nat)
    requires Paced(lines, x, p, y, b, s) && Paced(lines, y, q, z, b', s') && bs == b + b' && ss == s + s'
    ensures Paced(lines, x, Seq(p, q), z, bs, ss)
  {
    forall st: State, w: Watcher ensures Paces(lines, x, Seq(p, q), z, bs, ss, st, w) {
      assert Paces(lines, x, p, y, b, s, st, w);
      if In(st, x) && UsedUp(w.grant) && Exec(Seq(p, q), st).Ok? {
        assert Paces(lines, y, q, z, b', s', Exec(p, st).state, Watch(lines, p, st, w).value);
      }
    }
  }

  /** The loop end lets every turn be made. */
  predicate Repeats(end: Form, y: Setting) {
    end == Plain || y.req == Some(RequestOf(end))
  }

  lemma {:induction false} TurnsPaced(
    lines: Lines, x: Setting, p: Prog, y: Setting, b: nat, s: nat, n: nat, end: Form, bs: nat, ss: nat,
    st: State, w: Watcher)
    requires Paced(lines, x, p, y, b, s) && Tells(y, x) && Repeats(end, y) && 0 < n && bs == n * b && ss == n * s
    requires In(st, x) && UsedUp(w.grant) && Iterate(n, p, end, st).Ok?
    ensures In(Iterate(n, p, end, st).state, y) && Advanced(WatchTurns(lines, n, p, end, st, w), w, bs, ss)
    decreases n
  {
    assert Paces(lines, x, p, y, b, s, st, w);
    var mid, v := Exec(p, st).state, Watch(lines, p, st, w).value;
    assert Enabled(end, mid.req);
    if n == 1 {
      assert Iterate(0, p, end, mid) == Ok(mid) && WatchTurns(lines, 0, p, end, mid, v) == Some(v);
    } else {
      OneLess(n, b);
      OneLess(n, s);
      TurnsPaced(lines, x, p, y, b, s, n - 1, end, bs - b, ss - s, mid, v);
    }
  }

  lemma {:induction false} OnceOrLoopPaced(
    lines: Lines, x: Setting, p: Prog, y: Setting, b: nat, s: nat, n: nat, end: Form, bs: nat, ss: nat)
    requires Paced(lines, x, p, y, b, s) && Tells(y, x) && Repeats(end, y) && 0 < n && bs == n * b && ss == n * s
    ensures Paced(lines, x, OnceOrLoop(n, p, end), y, bs, ss)
  {
    if n > 1 {
      forall st: State, w: Watcher ensures Paces(lines, x, Loop(n, p, end), y, bs, ss, st, w) {
        if In(st, x) && UsedUp(w.grant) && Exec(Loop(n, p, end), st).Ok? {
          TurnsPaced(lines, x, p, y, b, s, n, end, bs, ss, st, w);
        }
      }
    }
  }

  lemma {:induction false} ChunkedPaced(
    lines: Lines, x: Setting, p: Prog, y: Setting, b: nat, s: nat, n: nat, end: Form, bs: nat, ss: nat)
    requires Paced(lines, x, p, y, b, s) && Tells(y, x) && Repeats(end, y) && 0 < n && bs == n * b && ss == n * s
    ensures Paced(lines, x, Chunked(n, p, end), y, bs, ss)
    decreases n
  {
    var k := Pl330.Turns(n);
    var first, rest := OnceOrLoop(k, p, end), Chunked(n - k, p, end);
    OnceOrLoopPaced(lines, x, p, y, b, s, k, end, k * b, k * s);
    Distributes(k, n, b);
    Distributes(k, n, s);
    if k < n {
      ChunkedPaced(lines, x, p, y, b, s, n - k, end, (n - k) * b, (n - k) * s);
      TellsPaced(lines, y, x, rest, y, y, (n - k) * b, (n - k) * s);
    } else {
      SkipPaced(lines, y);
    }
    SeqPaced(lines, x, first, y, rest, y, k * b, k * s, (n - k) * b, (n - k) * s, bs, ss);
  }

  // ---- One turn ----

  /** An instruction that touches memory only. */
  predicate Quiet(x: Setting, i: Instr) {
    x.ccr.Some? &&
    match i
    case Ld(_) =>
      if x.ccr.value.srcInc then x.sar.None? else x.sar.Some? && x.sar.value < x.room
    case St(_) => x.ccr.value.dstInc && x.dar.None?
    case _ => false
  }

  /** An instruction that touches the register, and how often. */
  predicate Touches(x: Setting, i: Instr, write: bool, beats: nat) {
    x.ccr.Some? &&
    match i
    case Ld(f) => !write && !x.ccr.value.srcInc && x.sar == Some(x.reg) && beats == Beats(f, x.ccr.value.srcLen)
    case St(f) => write && !x.ccr.value.dstInc && x.dar == Some(x.reg) && beats == Beats(f, x.ccr.value.dstLen)
    case _ => false
  }

  lemma QuietKeeps(lines: Lines, x: Setting, i: Instr, s: State, w: Watcher)
    requires Quiet(x, i) && In(s, x) && ExecInstr(i, s).Ok?
    ensures In(ExecInstr(i, s).state, x) && Judge(lines, i, s, w) == Some(w)
  {
  }

  lemma TouchUses(lines: Lines, x: Setting, i: Instr, write: bool, beats: nat, s: State, w: Watcher)
    requires Touches(x, i, write, beats) && In(s, x) && ExecInstr(i, s).Ok?
    requires w.grant.Held? && w.grant.line.write == write && w.grant.request == s.req
    requires (i == Ld(S) || i == Ld(B) || i == St(S) || i == St(B)) && Enabled(i.form, s.req)
    requires w.grant.used + beats <= w.grant.line.Credit(s.req)
    ensures In(ExecInstr(i, s).state, x)
    ensures Judge(lines, i, s, w) == Some(w.(grant := w.grant.(used := w.grant.used + beats)))
  {
  }

  lemma {:induction false} QuietCopies(lines: Lines, x: Setting, i: Instr, n: nat, s: State, w: Watcher)
    requires Quiet(x, i) && In(s, x) && Exec(Copies(n, Op(i)), s).Ok?
    ensures In(Exec(Copies(n, Op(i)), s).state, x) && Watch(lines, Copies(n, Op(i)), s, w) == Some(w)
    decreases n
  {
    if n > 0 {
      QuietKeeps(lines, x, i, s, w);
      QuietCopies(lines, x, i, n - 1, ExecInstr(i, s).state, w);
    }
  }

  lemma {:induction false} TouchCopies(
    lines: Lines, x: Setting, i: Instr, write: bool, beats: nat, n: nat, total: nat, s: State, w: Watcher)
    requires Touches(x, i, write, beats) && In(s, x) && Exec(Copies(n, Op(i)), s).Ok? && total == n * beats
    requires w.grant.Held? && w.grant.line.write == write && w.grant.request == s.req
    requires i.form != Plain && Enabled(i.form, s.req) && w.grant.used + total <= w.grant.line.Credit(s.req)
    ensures In(Exec(Copies(n, Op(i)), s).state, x)
    ensures Watch(lines, Copies(n, Op(i)), s, w) == Some(w.(grant := w.grant.(used := w.grant.used + total)))
    decreases n
  {
    if n > 0 {
      OneLess(n, beats);
      TouchUses(lines, x, i, write, beats, s, w);
      TouchCopies(lines, x, i, write, beats, n - 1, total - beats, ExecInstr(i, s).state,
                  w.(grant := w.grant.(used := w.grant.used + beats)));
    }
  }

  /** A request of this type has been granted. */
  function Granted(l: Line, r: Request, w: Watcher): Watcher {
    Watcher(Held(l, r, 0), w.bursts + (if r.BurstRequest? then 1 else 0), w.singles + if r.SingleRequest? then 1 else 0)
  }

  lemma HandshakeGrants(lines: Lines, l: Line, form: Form, s: State, w: Watcher)
    requires form != Plain && lines.At(l.periph) == Some(l) && UsedUp(w.grant)
    ensures Exec(Handshake(form, l.periph), s) == Ok(s.(req := RequestOf(form)))
    ensures Watch(lines, Handshake(form, l.periph), s, w) == Some(Granted(l, RequestOf(form), w))
  {
    var flush, wait := Op(FlushP(l.periph)), Op(Wfp(l.periph, RequestOf(form)));
    assert Exec(flush, s) == Ok(s) && Watch(lines, flush, s, w) == Some(w.(grant := Flushed(l)));
    assert Exec(wait, s) == Ok(s.(req := RequestOf(form)));
    assert Watch(lines, wait, s, w.(grant := Flushed(l))) == Some(Granted(l, RequestOf(form), w));
  }

  /** A turn that loads and stores `uses` times at the register, and that is all of a request. */
  predicate TurnFits(l: Line, x: Setting, form: Form, loads: nat, stores: nat, beats: nat) {
    if l.write then
      Quiet(x, Ld(form)) && Touches(x, St(form), true, beats) && stores * beats == l.Credit(RequestOf(form))
    else
      Touches(x, Ld(form), false, beats) && Quiet(x, St(form)) && loads * beats == l.Credit(RequestOf(form))
  }

  lemma {:induction false} MovesUseUp(
    lines: Lines, l: Line, x: Setting, form: Form, loads: nat, stores: nat, beats: nat, s: State, w: Watcher)
    requires form != Plain && TurnFits(l, x, form, loads, stores, beats) && In(s, x) && s.req == RequestOf(form)
    requires w.grant == Held(l, RequestOf(form), 0)
    requires Exec(Seq(Copies(loads, Op(Ld(form))), Copies(stores, Op(St(form)))), s).Ok?
    ensures var p := Seq(Copies(loads, Op(Ld(form))), Copies(stores, Op(St(form))));
            In(Exec(p, s).state, x) && Advanced(Watch(lines, p, s, w), w, 0, 0)
  {
    var first, credit := Copies(loads, Op(Ld(form))), l.Credit(RequestOf(form));
    var mid := Exec(first, s).state;
    var full := w.(grant := w.grant.(used := credit));
    CopiesKeepRequest(loads, Ld(form), s);
    if l.write {
      QuietCopies(lines, x, Ld(form), loads, s, w);
      TouchCopies(lines, x, St(form), true, beats, stores, credit, mid, w);
    } else {
      TouchCopies(lines, x, Ld(form), false, beats, loads, credit, s, w);
      QuietCopies(lines, x, St(form), stores, mid, full);
    }
  }

  lemma {:induction false} CopiesKeepRequest(n: nat, i: Instr, s: State)
    requires (i.Ld? || i.St?) && Exec(Copies(n, Op(i)), s).Ok?
    ensures Exec(Copies(n, Op(i)), s).state.req == s.req
    decreases n
  {
    if n > 0 { CopiesKeepRequest(n - 1, i, ExecInstr(i, s).state); }
  }

  /** A turn waits on its own line, and uses up what it is granted. */
  lemma {:induction false} TurnPaced(
    lines: Lines, l: Line, x: Setting, form: Form, loads: nat, stores: nat, beats: nat)
    requires form != Plain && lines.At(l.periph) == Some(l) && x.req.None? && TurnFits(l, x, form, loads, stores, beats)
    ensures Paced(lines, x, Turn(form, l.periph, loads, stores), x.(req := Some(RequestOf(form))),
                  if form == B then 1 else 0, if form == S then 1 else 0)
  {
    var turn := Turn(form, l.periph, loads, stores);
    var y, b, s := x.(req := Some(RequestOf(form))), if form == B then 1 else 0, if form == S then 1 else 0;
    forall st: State, w: Watcher ensures Paces(lines, x, turn, y, b, s, st, w) {
      if In(st, x) && UsedUp(w.grant) && Exec(turn, st).Ok? {
        HandshakeGrants(lines, l, form, st, w);
        var granted := st.(req := RequestOf(form));
        MovesUseUp(lines, l, y, form, loads, stores, beats, granted, Granted(l, RequestOf(form), w));
      }
    }
  }

  // ---- Many turns ----

  lemma {:induction false} PhasePaced(
    lines: Lines, x: Setting, c: Ccr, p: Prog, y: Setting, bursts: nat, singles: nat)
    requires Paced(lines, x.(ccr := Some(c)), p, y, bursts, singles)
    ensures Paced(lines, x, Phase(c, p), y, bursts, singles)
  {
    SetPaced(lines, x, MovCcr(c), x.(ccr := Some(c)));
    SeqPaced(lines, x, Op(MovCcr(c)), x.(ccr := Some(c)), p, y, 0, 0, bursts, singles, bursts, singles);
  }

  lemma {:induction false} NestedPaced(
    lines: Lines, x: Setting, p: Prog, y: Setting, b: nat, s: nat, n: nat, bs: nat, ss: nat)
    requires Paced(lines, x, p, y, b, s) && Tells(y, x) && 0 < n && bs == n * b && ss == n * s
    ensures Paced(lines, x, Nested(n, p), y, bs, ss)
  {
    var outer, inner := n / 256, n % 256;
    var first, rest := Chunked(outer, Loop(256, p, Plain), Plain), Chunked(inner, p, Plain);
    Regroup(n, b);
    Regroup(n, s);
    OnceOrLoopPaced(lines, x, p, y, b, s, 256, Plain, 256 * b, 256 * s);
    if outer == 0 {
      SkipPaced(lines, x);
      ChunkedPaced(lines, x, p, y, b, s, inner, Plain, inner * b, inner * s);
      SeqPaced(lines, x, first, x, rest, y, 0, 0, inner * b, inner * s, bs, ss);
    } else {
      var b', s' := outer * (256 * b), outer * (256 * s);
      ChunkedPaced(lines, x, Loop(256, p, Plain), y, 256 * b, 256 * s, outer, Plain, b', s');
      if inner == 0 { SkipPaced(lines, y); } else {
        ChunkedPaced(lines, x, p, y, b, s, inner, Plain, inner * b, inner * s);
        TellsPaced(lines, y, x, rest, y, y, inner * b, inner * s);
      }
      SeqPaced(lines, x, first, y, rest, y, b', s', inner * b, inner * s, bs, ss);
    }
  }
}
