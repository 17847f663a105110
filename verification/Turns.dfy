/** The unit that every register and peripheral generator repeats: wait for the device if there
    is one to wait for, load, store.  A turn leaves nothing in the MFIFO, and loops of turns of
    any shape move the data in order. */
module Turns {
  import opened Arithmetic
  import opened Options
  import opened Pl330
  import opened Assembler
  import opened Transfer

  function Copies(n: nat, p: Prog): Prog {
    if n == 0 then Skip else Seq(p, Copies(n - 1, p))
  }

  /** The request type under which instructions of a conditional form run. */
  function RequestOf(form: Form): Request {
    if form == S then SingleRequest else BurstRequest
  }

  function Handshake(form: Form, periph: nat): Prog {
    if form == Plain then Skip else Seq(Op(FlushP(periph)), Op(Wfp(periph, RequestOf(form))))
  }

  function Turn(form: Form, periph: nat, loads: nat, stores: nat): Prog {
    Seq(Handshake(form, periph), Seq(Copies(loads, Op(Ld(form))), Copies(stores, Op(St(form)))))
  }

  /** `count` turns, 256 times 256 at a time as far as possible. */
  function Nested(count: nat, turn: Prog): Prog {
    Seq(Chunked(count / 256, Loop(256, turn, Plain), Plain), Chunked(count % 256, turn, Plain))
  }

  function Phase(ccr: Ccr, p: Prog): Prog {
    Seq(Op(MovCcr(ccr)), p)
  }

  // ---- Emission ----

  method EmitCopies(program: Program, status: Status, n: nat, i: Instr) returns (s: Status)
    requires program.Holds(status) && status.Ordinary()
    modifies program
    ensures program.Holds(s) && s.Ordinary()
    ensures program.intended == Append(old(program.intended), Copies(n, Op(i)))
  {
    s := status;
    ghost var target := Append(program.intended, Copies(n, Op(i)));
    for k := 0 to n
      invariant program.Holds(s) && s.Ordinary()
      invariant Append(program.intended, Copies(n - k, Op(i))) == target
    {
      s := program.Emit(s, i);
    }
  }

  method EmitTurn(program: Program, status: Status, form: Form, periph: nat, loads: nat, stores: nat)
    returns (s: Status)
    requires program.Holds(status) && status.Ordinary()
    modifies program
    ensures program.Holds(s) && s.Ordinary()
    ensures program.intended == Append(old(program.intended), Turn(form, periph, loads, stores))
  {
    s := status;
    if form != Plain {
      s := program.Emit(s, FlushP(periph));
      s := program.Emit(s, Wfp(periph, RequestOf(form)));
    }
    assert program.intended == Append(old(program.intended), Handshake(form, periph));
    s := EmitCopies(program, s, loads, Ld(form));
    s := EmitCopies(program, s, stores, St(form));
    AppendSeq(Append(old(program.intended), Handshake(form, periph)), Copies(loads, Op(Ld(form))),
              Copies(stores, Op(St(form))));
    AppendSeq(old(program.intended), Handshake(form, periph),
              Seq(Copies(loads, Op(Ld(form))), Copies(stores, Op(St(form)))));
  }

  /** Loops of at most 256 turns. */
  method EmitTurns(program: Program, status: Status, form: Form, periph: nat, loads: nat, stores: nat, count: nat,
      end: Form)
    returns (s: Status)
    requires program.Holds(status) && status.Ordinary()
    modifies program
    ensures program.Holds(s) && s.Ordinary()
    ensures program.intended == Append(old(program.intended), Chunked(count, Turn(form, periph, loads, stores), end))
  {
    s := status;
    var left := count;
    ghost var turn := Turn(form, periph, loads, stores);
    ghost var target := Append(program.intended, Chunked(count, turn, end));
    while left > 0
      invariant program.Holds(s) && s.Ordinary()
      invariant Append(program.intended, Chunked(left, turn, end)) == target
    {
      var loopcount := if left < 256 then left else 256;
      if s != Success {
        program.Forgo(s, Chunked(left, turn, end));
        break;
      }
      AppendChunk(program.intended, left, turn, end);
      left := left - loopcount;
      if loopcount > 1 {
        s := program.Emit(s, Lp(loopcount));
      }
      s := EmitTurn(program, s, form, periph, loads, stores);
      if loopcount > 1 {
        s := program.Emit(s, LpEnd(end));
      }
    }
  }

  /** Loops of at most 256 loops of 256 turns. */
  method EmitTurnsBy256(program: Program, status: Status, form: Form, periph: nat, loads: nat, stores: nat, count: nat)
    returns (s: Status)
    requires program.Holds(status) && status.Ordinary()
    modifies program
    ensures program.Holds(s) && s.Ordinary()
    ensures program.intended
         == Append(old(program.intended), Chunked(count, Loop(256, Turn(form, periph, loads, stores), Plain), Plain))
  {
    s := status;
    var left := count;
    ghost var body := Loop(256, Turn(form, periph, loads, stores), Plain);
    ghost var target := Append(program.intended, Chunked(count, body, Plain));
    while left > 0
      invariant program.Holds(s) && s.Ordinary()
      invariant Append(program.intended, Chunked(left, body, Plain)) == target
    {
      var loopcount := if left < 256 then left else 256;
      if s != Success {
        program.Forgo(s, Chunked(left, body, Plain));
        break;
      }
      AppendChunk(program.intended, left, body, Plain);
      left := left - loopcount;
      if loopcount > 1 {
        s := program.Emit(s, Lp(loopcount));
      }
      ghost var before := program.intended;
      s := program.Emit(s, Lp(256));
      s := EmitTurn(program, s, form, periph, loads, stores);
      s := program.Emit(s, LpEnd(Plain));
      assert program.intended == Append(before, body);
      if loopcount > 1 {
        s := program.Emit(s, LpEnd(Plain));
      }
    }
  }

  method EmitNested(program: Program, status: Status, form: Form, periph: nat, loads: nat, stores: nat, count: nat)
    returns (s: Status)
    requires program.Holds(status) && status.Ordinary()
    modifies program
    ensures program.Holds(s) && s.Ordinary()
    ensures program.intended == Append(old(program.intended), Nested(count, Turn(form, periph, loads, stores)))
  {
    s := status;
    var left := count;
    if count / 256 != 0 {
      left := count % 256;
      s := EmitTurnsBy256(program, s, form, periph, loads, stores, count / 256);
    }
    ghost var turn := Turn(form, periph, loads, stores);
    assert program.intended == Append(old(program.intended), Chunked(count / 256, Loop(256, turn, Plain), Plain));
    s := EmitTurns(program, s, form, periph, loads, stores, left, Plain);
    AppendSeq(old(program.intended), Chunked(count / 256, Loop(256, turn, Plain), Plain),
              Chunked(count % 256, turn, Plain));
  }

  // ---- Well-formedness ----

  lemma {:induction false} CopiesWellFormed(n: nat, p: Prog, free: nat)
    requires WellFormed(p, free)
    ensures WellFormed(Copies(n, p), free)
  {
    if n > 0 { CopiesWellFormed(n - 1, p, free); }
  }

  lemma TurnWellFormed(form: Form, periph: nat, loads: nat, stores: nat, free: nat)
    ensures WellFormed(Turn(form, periph, loads, stores), free)
  {
    CopiesWellFormed(loads, Op(Ld(form)), free);
    CopiesWellFormed(stores, Op(St(form)), free);
    assert WellFormed(Op(FlushP(periph)), free) && WellFormed(Op(Wfp(periph, RequestOf(form))), free);
    assert WellFormed(Handshake(form, periph), free);
    assert WellFormed(Seq(Copies(loads, Op(Ld(form))), Copies(stores, Op(St(form)))), free);
  }

  lemma NestedWellFormed(count: nat, turn: Prog)
    requires WellFormed(turn, 0)
    ensures WellFormed(Nested(count, turn), 2)
  {
    assert WellFormed(Loop(256, turn, Plain), 1);
    ChunkedWellFormed(count / 256, Loop(256, turn, Plain), Plain, 2);
    WellFormedMonotone(turn, 0, 1);
    ChunkedWellFormed(count % 256, turn, Plain, 2);
  }

  // ---- What a turn does to the marks ----

  /** Between a device register and memory, every load being allowed. */
  predicate Streaming(sh: Shape) {
    (sh.route.MemToReg? || sh.route.RegToMem?) && sh.first == sh.size && sh.later == sh.size
  }

  predicate LoadReady(sh: Shape, m: Mark) {
    && Suits(sh.route, m.ccr)
    && (if FromMemory(sh.route) then sh.route.src + m.loaded else m.loaded) % m.ccr.srcSize == 0
  }

  predicate StoreReady(sh: Shape, m: Mark) {
    && Suits(sh.route, m.ccr)
    && (if sh.route.MemToReg? then m.stored else sh.route.dst + m.stored) % m.ccr.dstSize == 0
  }

  lemma LoadStep(sh: Shape, form: Form, m: Mark, to: nat)
    requires Streaming(sh) && LoadReady(sh, m) && Enabled(form, m.req)
    requires to == m.loaded + Beats(form, m.ccr.srcLen) * m.ccr.srcSize <= sh.size
    ensures MarkInstr(sh, Ld(form), m) == Some(m.(loaded := to)) && LoadReady(sh, m.(loaded := to))
  {
    var step := Beats(form, m.ccr.srcLen) * m.ccr.srcSize;
    MulMod(Beats(form, m.ccr.srcLen), m.ccr.srcSize);
    ModAdd(if FromMemory(sh.route) then sh.route.src + m.loaded else m.loaded, step, m.ccr.srcSize);
  }

  lemma StoreStep(sh: Shape, form: Form, m: Mark, to: nat)
    requires Streaming(sh) && StoreReady(sh, m) && Enabled(form, m.req)
    requires to == m.stored + Beats(form, m.ccr.dstLen) * m.ccr.dstSize <= m.loaded
    ensures MarkInstr(sh, St(form), m) == Some(m.(stored := to)) && StoreReady(sh, m.(stored := to))
  {
    var step := Beats(form, m.ccr.dstLen) * m.ccr.dstSize;
    MulMod(Beats(form, m.ccr.dstLen), m.ccr.dstSize);
    ModAdd(if sh.route.MemToReg? then m.stored else sh.route.dst + m.stored, step, m.ccr.dstSize);
  }

  lemma {:induction false} LoadsMark(sh: Shape, form: Form, k: nat, m: Mark, step: nat, to: nat)
    requires Streaming(sh) && LoadReady(sh, m) && Enabled(form, m.req)
    requires step == Beats(form, m.ccr.srcLen) * m.ccr.srcSize && to == m.loaded + k * step <= sh.size
    ensures MarkExec(sh, Copies(k, Op(Ld(form))), m) == Some(m.(loaded := to))
    decreases k
  {
    if k > 0 {
      var next := m.(loaded := m.loaded + step);
      OneLess(k, step);
      LoadStep(sh, form, m, m.loaded + step);
      MarkSeq(sh, Op(Ld(form)), Copies(k - 1, Op(Ld(form))), m, next);
      LoadsMark(sh, form, k - 1, next, step, to);
    }
  }

  lemma {:induction false} StoresMark(sh: Shape, form: Form, k: nat, m: Mark, step: nat, to: nat)
    requires Streaming(sh) && StoreReady(sh, m) && Enabled(form, m.req)
    requires step == Beats(form, m.ccr.dstLen) * m.ccr.dstSize && to == m.stored + k * step <= m.loaded
    ensures MarkExec(sh, Copies(k, Op(St(form))), m) == Some(m.(stored := to))
    decreases k
  {
    if k > 0 {
      var next := m.(stored := m.stored + step);
      OneLess(k, step);
      StoreStep(sh, form, m, m.stored + step);
      MarkSeq(sh, Op(St(form)), Copies(k - 1, Op(St(form))), m, next);
      StoresMark(sh, form, k - 1, next, step, to);
    }
  }

  /** The memory address of the first byte. */
  function Base(route: Route): nat {
    if FromMemory(route) then route.src else route.dst
  }

  /** The control register moves memory in beats of `unit` and the register in its own width,
      which divides the unit. */
  predicate Paired(sh: Shape, ccr: Ccr, unit: nat) {
    && Streaming(sh) && Suits(sh.route, ccr)
    && unit == (if FromMemory(sh.route) then ccr.srcSize else ccr.dstSize)
    && BeatSize(sh.route.width) && sh.route.width <= unit && Base(sh.route) % sh.route.width == 0
  }

  lemma SmallerBeat(x: nat, unit: nat, w: nat)
    requires BeatSize(unit) && BeatSize(w) && w <= unit && x % unit == 0
    ensures x % w == 0
  {
    var q := x / unit;
    var k := if unit == w then 1 else if unit == 2 * w then 2 else if unit == 4 * w then 4 else 8;
    assert x == q * unit && unit == k * w;
    assert q * (k * w) == (q * k) * w;
    MulMod(q * k, w);
  }

  lemma BeatSizesDivide(base: nat, done: nat, unit: nat, w: nat)
    requires BeatSize(unit) && BeatSize(w) && w <= unit && (base + done) % unit == 0 && base % w == 0
    ensures done % w == 0
  {
    SmallerBeat(base + done, unit, w);
    ModSub(base + done, base, w);
  }

  lemma TurnMark(sh: Shape, form: Form, periph: nat, loads: nat, stores: nat, ccr: Ccr, n: nat, unit: nat, done: nat,
      req: Request)
    requires Paired(sh, ccr, unit) && AtUnit(sh, done, unit) && done + n <= sh.size
    requires loads * (Beats(form, ccr.srcLen) * ccr.srcSize) == n == stores * (Beats(form, ccr.dstLen) * ccr.dstSize)
    ensures MarkExec(sh, Turn(form, periph, loads, stores), Level(done, ccr, req))
         == Some(Level(done + n, ccr, if form == Plain then req else RequestOf(form)))
  {
    var r := if form == Plain then req else RequestOf(form);
    var m0, m1, m2 := Level(done, ccr, r), Mark(done + n, done, ccr, r), Level(done + n, ccr, r);
    BeatSizesDivide(Base(sh.route), done, unit, sh.route.width);
    assert MarkExec(sh, Handshake(form, periph), Level(done, ccr, req)) == Some(m0) by {
      if form != Plain { MarkSeq(sh, Op(FlushP(periph)), Op(Wfp(periph, r)), Level(done, ccr, req),
                                 Level(done, ccr, req)); }
    }
    LoadsMark(sh, form, loads, m0, Beats(form, ccr.srcLen) * ccr.srcSize, done + n);
    StoresMark(sh, form, stores, m1, Beats(form, ccr.dstLen) * ccr.dstSize, done + n);
    MarkSeq(sh, Copies(loads, Op(Ld(form))), Copies(stores, Op(St(form))), m0, m1);
    MarkSeq(sh, Handshake(form, periph), Seq(Copies(loads, Op(Ld(form))), Copies(stores, Op(St(form)))),
            Level(done, ccr, req), m0);
  }

  function Leaves(form: Form): Option<Request> {
    if form == Plain then None else Some(RequestOf(form))
  }

  /** A turn moves as many bytes into the MFIFO as out of it, when its loads and stores agree. */
  lemma TurnMoves(sh: Shape, form: Form, periph: nat, loads: nat, stores: nat, ccr: Ccr, n: nat, unit: nat)
    requires Paired(sh, ccr, unit)
    requires loads * (Beats(form, ccr.srcLen) * ccr.srcSize) == n == stores * (Beats(form, ccr.dstLen) * ccr.dstSize)
    ensures Moves(sh, Turn(form, periph, loads, stores), ccr, n, unit, None, Leaves(form))
  {
    var p := Turn(form, periph, loads, stores);
    forall done: nat, req: Request | done + n <= sh.size && AtUnit(sh, done, unit)
      ensures MarkExec(sh, p, Level(done, ccr, req)) == Some(Level(done + n, ccr, After(Leaves(form), req)))
    {
      TurnMark(sh, form, periph, loads, stores, ccr, n, unit, done, req);
    }
  }

  /** The nesting by 256 repeats nothing and forgets nothing. */
  lemma NestedMoves(sh: Shape, p: Prog, ccr: Ccr, n: nat, unit: nat, post: Option<Request>, count: nat, total: nat)
    requires Moves(sh, p, ccr, n, unit, None, post) && 0 < unit && n % unit == 0
    requires 0 < count && total == count * n
    ensures Moves(sh, Nested(count, p), ccr, total, unit, None, post)
  {
    var outer, inner := count / 256, count % 256;
    var block, first, rest := 256 * n, outer * (256 * n), inner * n;
    assert first + rest == total by { Regroup(count, n); }
    var a, b := Chunked(outer, Loop(256, p, Plain), Plain), Chunked(inner, p, Plain);
    if outer > 0 {
      MulModUnit(256, n, unit);
      OnceOrLoopMoves(sh, p, ccr, n, unit, None, post, 256, Plain, block);
      ChunkedMoves(sh, Loop(256, p, Plain), ccr, block, unit, None, post, outer, Plain, first);
      MulModUnit(outer, block, unit);
    }
    if inner > 0 { ChunkedMoves(sh, p, ccr, n, unit, None, post, inner, Plain, rest); }
    if outer == 0 {
      SkipThenMoves(sh, b, ccr, rest, unit, post);
    } else if inner == 0 {
      MovesThenSkip(sh, a, ccr, first, unit, None, post);
    } else {
      SeqMoves(sh, a, b, ccr, first, rest, unit, None, post, total);
    }
  }

  lemma SkipThenMoves(sh: Shape, p: Prog, ccr: Ccr, n: nat, unit: nat, post: Option<Request>)
    requires Moves(sh, p, ccr, n, unit, None, post)
    ensures Moves(sh, Seq(Skip, p), ccr, n, unit, None, post)
  {
    forall done: nat, req: Request | done + n <= sh.size && AtUnit(sh, done, unit)
      ensures MarkExec(sh, Seq(Skip, p), Level(done, ccr, req)) == Some(Level(done + n, ccr, After(post, req)))
    {
      MovesOne(sh, p, ccr, n, unit, None, post, done, req);
      MarkSeq(sh, Skip, p, Level(done, ccr, req), Level(done, ccr, req));
    }
  }

  // ---- Phases and segments ----

  /** Whatever the control register and the request type, p takes both marks from `from` to `to`. */
  ghost predicate Carries(sh: Shape, p: Prog, from: nat, to: nat) {
    forall ccr: Ccr, req: Request {:trigger MarkExec(sh, p, Level(from, ccr, req))} ::
      MarkExec(sh, p, Level(from, ccr, req)).Some?
      && LevelAt(MarkExec(sh, p, Level(from, ccr, req)).value, to)
  }

  predicate LevelAt(m: Mark, done: nat) {
    m == Level(done, m.ccr, m.req)
  }

  lemma CarriesSeq(sh: Shape, p: Prog, q: Prog, a: nat, b: nat, c: nat)
    requires Carries(sh, p, a, b) && Carries(sh, q, b, c)
    ensures Carries(sh, Seq(p, q), a, c)
  {
    forall ccr: Ccr, req: Request
      ensures MarkExec(sh, Seq(p, q), Level(a, ccr, req)).Some?
      ensures LevelAt(MarkExec(sh, Seq(p, q), Level(a, ccr, req)).value, c)
    {
      var m := MarkExec(sh, p, Level(a, ccr, req)).value;
      MarkSeq(sh, p, q, Level(a, ccr, req), m);
      assert MarkExec(sh, q, Level(b, m.ccr, m.req)).Some?;
    }
  }

  lemma PhaseCarries(sh: Shape, c: Ccr, p: Prog, n: nat, unit: nat, post: Option<Request>, from: nat, to: nat)
    requires Moves(sh, p, c, n, unit, None, post) && c.Valid()
    requires to == from + n <= sh.size && AtUnit(sh, from, unit)
    ensures Carries(sh, Phase(c, p), from, to)
  {
    forall ccr: Ccr, req: Request
      ensures MarkExec(sh, Phase(c, p), Level(from, ccr, req)).Some?
      ensures LevelAt(MarkExec(sh, Phase(c, p), Level(from, ccr, req)).value, to)
    {
      MarkSeq(sh, Op(MovCcr(c)), p, Level(from, ccr, req), Level(from, c, req));
      MovesOne(sh, p, c, n, unit, None, post, from, req);
    }
  }

  /** A program that carries the marks from end to end carries out the job. */
  lemma JobDone(j: Job, p: Prog, ccr: Ccr, req: Request) returns (c: Ccr, r: Request)
    requires Valid(j) && Fits(j) && Carries(Whole(j), p, 0, |j.data|)
    ensures Exec(p, At(j, 0, 0, ccr, req)) == Ok(At(j, |j.data|, |j.data|, c, r))
  {
    ValidSupplied(j);
    var m := MarkExec(Whole(j), p, Level(0, ccr, req)).value;
    c, r := m.ccr, m.req;
    StateFollowsMarks(j, Whole(j), p, Level(0, ccr, req), m);
  }
}
