/** Which sizes of requests the flash controller may be set to: when some requests load less or
    more than they store, the MFIFO runs dry or keeps what is left over. */
module QspiLimits {
  import opened Arithmetic
  import opened Pl330
  import opened Transfer
  import opened Turns
  import opened Streams
  import opened QspiSegments

  /** The state as requests for 2^k bytes find and leave it. */
  predicate Placed(d: Direction, reg: nat, k: nat, s: State) {
    && s.ccr == PieceCcr(d, k)
    && if d.FromMem? then s.sar % Unit(k) == 0 else s.dar % Unit(k) == 0 && s.sar == reg && |s.mem| <= reg
  }

  function LoadStep(d: Direction, form: Form, k: nat): nat {
    Beats(form, PieceCcr(d, k).srcLen) * PieceCcr(d, k).srcSize
  }

  function StoreStep(d: Direction, form: Form, k: nat): nat {
    Beats(form, PieceCcr(d, k).dstLen) * PieceCcr(d, k).dstSize
  }

  /** A whole number of beats, from a multiple of a beat to another. */
  lemma BeatsAligned(at: nat, form: Form, len: nat, unit: nat, step: nat)
    requires 0 < unit && at % unit == 0 && step == Beats(form, len) * unit
    ensures (at + step) % unit == 0
  {
    MulMod(Beats(form, len), unit);
    ModAdd(at, step, unit);
  }

  lemma LoadGains(d: Direction, reg: nat, form: Form, k: nat, s: State)
    requires Placed(d, reg, k, s) && form != Plain && s.req == RequestOf(form) && Exec(Op(Ld(form)), s).Ok?
    ensures var t := Exec(Op(Ld(form)), s).state;
            Placed(d, reg, k, t) && t.req == s.req && |t.fifo| == |s.fifo| + LoadStep(d, form, k)
  {
    PieceSplits(k);
    var beats, step := Beats(form, s.ccr.srcLen), LoadStep(d, form, k);
    assert Exec(Op(Ld(form)), s) == Load(s, beats);
    if d.FromMem? {
      LoadIncrementing(s, beats, step);
      BeatsAligned(s.sar, form, s.ccr.srcLen, Unit(k), step);
    } else if s.sar % 4 == 0 {
      LoadFixed(s, beats, step);
    }
  }

  lemma StoreGains(d: Direction, reg: nat, form: Form, k: nat, s: State)
    requires Placed(d, reg, k, s) && form != Plain && s.req == RequestOf(form) && Exec(Op(St(form)), s).Ok?
    ensures var t := Exec(Op(St(form)), s).state;
            Placed(d, reg, k, t) && t.req == s.req && |t.fifo| == |s.fifo| - StoreStep(d, form, k)
  {
    PieceSplits(k);
    var beats, step := Beats(form, s.ccr.dstLen), StoreStep(d, form, k);
    assert Exec(Op(St(form)), s) == Store(s, beats);
    if d.ToMem? {
      StoreIncrementing(s, beats, step);
      BeatsAligned(s.dar, form, s.ccr.dstLen, Unit(k), step);
    } else if s.dar % 4 == 0 {
      StoreFixed(s, beats, step);
    }
  }

  lemma {:induction false} LoadsGain(d: Direction, reg: nat, form: Form, k: nat, n: nat, s: State, total: nat)
    requires Placed(d, reg, k, s) && form != Plain && s.req == RequestOf(form) && Exec(Copies(n, Op(Ld(form))), s).Ok?
    requires total == n * LoadStep(d, form, k)
    ensures var t := Exec(Copies(n, Op(Ld(form))), s).state;
            Placed(d, reg, k, t) && t.req == s.req && |t.fifo| == |s.fifo| + total
    decreases n
  {
    if n > 0 {
      LoadGains(d, reg, form, k, s);
      OneLess(n, LoadStep(d, form, k));
      LoadsGain(d, reg, form, k, n - 1, Exec(Op(Ld(form)), s).state, total - LoadStep(d, form, k));
    }
  }

  lemma {:induction false} StoresGain(d: Direction, reg: nat, form: Form, k: nat, n: nat, s: State, total: nat)
    requires Placed(d, reg, k, s) && form != Plain && s.req == RequestOf(form) && Exec(Copies(n, Op(St(form))), s).Ok?
    requires total == n * StoreStep(d, form, k)
    ensures var t := Exec(Copies(n, Op(St(form))), s).state;
            Placed(d, reg, k, t) && t.req == s.req && |t.fifo| == |s.fifo| - total
    decreases n
  {
    if n > 0 {
      StoreGains(d, reg, form, k, s);
      OneLess(n, StoreStep(d, form, k));
      StoresGain(d, reg, form, k, n - 1, Exec(Op(St(form)), s).state, total - StoreStep(d, form, k));
    }
  }

  /** The bytes on the memory side and on the register's side of a request. */
  function MemoryBytes(form: Form, k: nat): nat {
    PieceMultiple(k) * (Beats(form, PieceLength(k)) * Unit(k))
  }

  function RegisterBytes(k: nat): nat {
    Pow2(k) / 4 * 4
  }

  lemma SidesDiffer(form: Form, k: nat)
    requires form != Plain && !Sound(form, k)
    ensures if k < 2 then RegisterBytes(k) < MemoryBytes(form, k) else MemoryBytes(form, k) < RegisterBytes(k)
  {
    PieceSplits(k);
    if k >= 2 {
      assert PieceMultiple(k) * (PieceLength(k) * 8) == PieceMultiple(k) * 8 * PieceLength(k);
      assert PieceMultiple(k) * 8 * PieceLength(k) >= PieceMultiple(k) * 8 * 2;
    }
  }

  /** Whether unsound requests pile up bytes in the MFIFO, or take out more than they put in. */
  predicate PilesUp(d: Direction, k: nat) {
    d.FromMem? <==> k < 2
  }

  predicate Changed(up: bool, before: State, after: State) {
    if up then |before.fifo| < |after.fifo| else |after.fifo| < |before.fifo|
  }

  lemma TurnChanges(d: Direction, reg: nat, form: Form, periph: nat, k: nat, s: State)
    requires Placed(d, reg, k, s) && form != Plain && !Sound(form, k) && Exec(PieceTurn(d, form, periph, k), s).Ok?
    ensures var t := Exec(PieceTurn(d, form, periph, k), s).state; Placed(d, reg, k, t) && Changed(PilesUp(d, k), s, t)
  {
    var mem, words := PieceMultiple(k), Pow2(k) / 4;
    var loads, stores := Loads(d, mem, words), Stores(d, mem, words);
    var granted := s.(req := RequestOf(form));
    PieceSplits(k);
    SidesDiffer(form, k);
    assert Exec(Handshake(form, periph), s) == Ok(granted);
    LoadsGain(d, reg, form, k, loads, granted, loads * LoadStep(d, form, k));
    var loaded := Exec(Copies(loads, Op(Ld(form))), granted).state;
    StoresGain(d, reg, form, k, stores, loaded, stores * StoreStep(d, form, k));
  }

  /** Whenever p runs through, the MFIFO has changed in this direction. */
  ghost predicate Changes(d: Direction, reg: nat, k: nat, p: Prog, up: bool) {
    forall s: State {:trigger Exec(p, s)} | Placed(d, reg, k, s) && Exec(p, s).Ok? ::
      Placed(d, reg, k, Exec(p, s).state) && Changed(up, s, Exec(p, s).state)
  }

  lemma {:induction false} IterateChanges(d: Direction, reg: nat, k: nat, p: Prog, up: bool, n: nat, s: State)
    requires Changes(d, reg, k, p, up) && 0 < n && Placed(d, reg, k, s) && Iterate(n, p, Plain, s).Ok?
    ensures var t := Iterate(n, p, Plain, s).state; Placed(d, reg, k, t) && Changed(up, s, t)
    decreases n
  {
    var t := Exec(p, s).state;
    if n > 1 { IterateChanges(d, reg, k, p, up, n - 1, t); } else { assert Iterate(0, p, Plain, t) == Ok(t); }
  }

  lemma OnceOrLoopChanges(d: Direction, reg: nat, k: nat, p: Prog, up: bool, n: nat)
    requires Changes(d, reg, k, p, up) && 0 < n
    ensures Changes(d, reg, k, OnceOrLoop(n, p, Plain), up)
  {
    forall s: State | Placed(d, reg, k, s) && Exec(OnceOrLoop(n, p, Plain), s).Ok?
      ensures Placed(d, reg, k, Exec(OnceOrLoop(n, p, Plain), s).state) &&
              Changed(up, s, Exec(OnceOrLoop(n, p, Plain), s).state)
    {
      if n > 1 { IterateChanges(d, reg, k, p, up, n, s); }
    }
  }

  lemma SeqChanges(d: Direction, reg: nat, k: nat, p: Prog, q: Prog, up: bool)
    requires p == Skip ==> Changes(d, reg, k, q, up)
    requires p != Skip ==> Changes(d, reg, k, p, up) && (q == Skip || Changes(d, reg, k, q, up))
    ensures Changes(d, reg, k, Seq(p, q), up)
  {
    forall s: State | Placed(d, reg, k, s) && Exec(Seq(p, q), s).Ok?
      ensures Placed(d, reg, k, Exec(Seq(p, q), s).state) && Changed(up, s, Exec(Seq(p, q), s).state)
    {
      var t := Exec(p, s).state;
      assert Exec(Seq(p, q), s) == Exec(q, t);
    }
  }

  lemma {:induction false} ChunkedChanges(d: Direction, reg: nat, k: nat, p: Prog, up: bool, count: nat)
    requires p != Skip && Changes(d, reg, k, p, up) && 0 < count
    ensures Chunked(count, p, Plain) != Skip && Changes(d, reg, k, Chunked(count, p, Plain), up)
    decreases count
  {
    var c := Pl330.Turns(count);
    OnceOrLoopChanges(d, reg, k, p, up, c);
    if c < count { ChunkedChanges(d, reg, k, p, up, count - c); }
    SeqChanges(d, reg, k, OnceOrLoop(c, p, Plain), Chunked(count - c, p, Plain), up);
  }

  lemma TimesChanges(d: Direction, reg: nat, k: nat, p: Prog, up: bool, count: nat)
    requires p != Skip && Changes(d, reg, k, p, up) && 0 < count
    ensures Changes(d, reg, k, Times(d, count, p), up)
  {
    if d.FromMem? {
      ChunkedChanges(d, reg, k, p, up, count);
    } else {
      if count / 256 > 0 {
        OnceOrLoopChanges(d, reg, k, p, up, 256);
        ChunkedChanges(d, reg, k, Loop(256, p, Plain), up, count / 256);
      }
      if count % 256 > 0 { ChunkedChanges(d, reg, k, p, up, count % 256); }
      SeqChanges(d, reg, k, Chunked(count / 256, Loop(256, p, Plain), Plain), Chunked(count % 256, p, Plain), up);
    }
  }

  /** Unsound requests do not run through, or leave bytes in the MFIFO. */
  lemma UnsoundLeaves(d: Direction, reg: nat, form: Form, periph: nat, k: nat, count: nat, s: State)
    requires form != Plain && !Sound(form, k) && 0 < count && s.fifo == []
    requires Placed(d, reg, k, s.(ccr := PieceCcr(d, k)))
    ensures Exec(Pieces(d, form, periph, k, count), s).Ok? ==>
            Exec(Pieces(d, form, periph, k, count), s).state.fifo != []
  {
    var turn := PieceTurn(d, form, periph, k);
    PieceSplits(k);
    forall s: State | Placed(d, reg, k, s) && Exec(turn, s).Ok?
      ensures Placed(d, reg, k, Exec(turn, s).state) && Changed(PilesUp(d, k), s, Exec(turn, s).state)
    {
      TurnChanges(d, reg, form, periph, k, s);
    }
    TimesChanges(d, reg, k, turn, PilesUp(d, k), count);
    var begun := s.(ccr := PieceCcr(d, k));
    assert Exec(Pieces(d, form, periph, k, count), s) == Exec(Times(d, count, turn), begun);
  }

  // ---- A whole segment ----

  /** The requests of a prefix are sound, and what it moves is moved. */
  lemma PrefixRuns(d: Direction, reg: nat, s: State, pa: nat, mid: nat, p: Prog) returns (t: State)
    requires Streamable(d, reg, 4, s, pa, mid) && Carries(StreamShape(d, reg, 4, pa, mid), p, 0, mid)
    ensures Exec(Seq(Op(MoveMemory(d, pa)), p), s) == Ok(t) && t.fifo == [] && |t.mem| == |s.mem| &&
            RegisterSet(d, reg, t)
    ensures if d.FromMem? then t.sar == pa + mid else t.dar == pa + mid
  {
    var j := StreamJob(d, reg, 4, s, pa, mid);
    JobBegins(d, reg, 4, s, pa, mid);
    var c, r := JobDone(j, p, s.ccr, s.req);
    ExecSeq(Op(MoveMemory(d, pa)), p, s, At(j, 0, 0, s.ccr, s.req));
    t := At(j, mid, mid, c, r);
    JobEnds(d, reg, 4, s, pa, mid, c, r);
  }

  /** At most one of the two kinds of requests is unsound in a segment: bursts only if they are of
      two bytes, and then no words are left for single requests. */
  lemma UnsoundBursts(z: Sizes, left: nat)
    requires left % 4 == 0 && BurstCount(z, left) != 0 && !Sound(B, z.burst)
    ensures SingleCount(z, left) == 0
  {
    SmallPowers();
    assert z == Sizes(0, 1);
  }

  /** Where the unsound requests begin, their address is a multiple of their beats. */
  lemma UnsoundAligned(z: Sizes, pa: nat, left: nat)
    requires pa % 4 == 0
    ensures (pa + AlignSize(pa)) % Unit(z.burst) == 0
    ensures BurstCount(z, left) != 0 ==>
            (pa + AlignSize(pa) + BurstCount(z, left) * Pow2(z.burst)) % Unit(z.single) == 0
    ensures (pa + AlignSize(pa)) % Unit(z.single) == 0
  {
    var at, bursts, unit := pa + AlignSize(pa), BurstCount(z, left), Unit(z.single);
    UnitsDivide(at, z.burst);
    UnitsDivide(at, z.single);
    if bursts != 0 {
      UnitOfPower(z.single, z.burst);
      MulModUnit(bursts, Pow2(z.burst), unit);
      ModAdd(at, bursts * Pow2(z.burst), unit);
    }
  }

  lemma UnitOfPower(k: nat, m: nat)
    requires k <= m
    ensures Pow2(m) % Unit(k) == 0
  {
    PieceSplits(k);
    if k < 3 {
      Pow2Divides(k, m);
    } else {
      SmallPowers();
      Pow2Divides(3, m);
    }
  }

  /** Unsound requests behind `mid` bytes that have been moved. */
  lemma UnsoundAfter(d: Direction, reg: nat, form: Form, periph: nat, k: nat, count: nat, s: State, at: nat)
    requires form != Plain && !Sound(form, k) && 0 < count && s.fifo == [] && |s.mem| <= reg && RegisterSet(d, reg, s)
    requires at % Unit(k) == 0 && (if d.FromMem? then s.sar == at else s.dar == at)
    ensures var o := Exec(Pieces(d, form, periph, k, count), s); o.Ok? ==> o.state.fifo != []
  {
    UnsoundLeaves(d, reg, form, periph, k, count, s);
  }

  lemma UnsoundBurstsFail(d: Direction, reg: nat, periph: nat, z: Sizes, pa: nat, left: nat, s: State)
    requires pa % 4 == 0 && left % 4 == 0 && Streamable(d, reg, 4, s, pa, AlignSize(pa))
    requires BurstCount(z, left) != 0 && !Sound(B, z.burst)
    ensures var o := Exec(Seq(Op(MoveMemory(d, pa)), QspiPhases(d, periph, z, pa, left)), s);
            o.Ok? ==> o.state.fifo != []
  {
    var a, count := AlignSize(pa), BurstCount(z, left);
    var move, align, bursts := Op(MoveMemory(d, pa)), QspiAlign(d, periph, pa), Pieces(d, B, periph, z.burst, count);
    UnsoundBursts(z, left);
    UnsoundAligned(z, pa, left);
    QspiAlignCarries(d, reg, periph, pa, a);
    var t := PrefixRuns(d, reg, s, pa, a, align);
    ExecThenRest(move, align, Seq(bursts, Skip), s, t);
    UnsoundAfter(d, reg, B, periph, z.burst, count, t, pa + a);
    ThenNothing(bursts, t);
  }

  lemma ThenNothing(p: Prog, s: State)
    ensures Exec(Seq(p, Skip), s) == Exec(p, s)
  {
  }

  lemma SoundBurstsRun(d: Direction, reg: nat, periph: nat, k: nat, pa: nat, count: nat, mid: nat, s: State)
    returns (t: State)
    requires Streamable(d, reg, 4, s, pa, mid) && pa % 4 == 0 && mid == AlignSize(pa) + count * Pow2(k)
    requires count != 0 ==> Sound(B, k) && (pa + AlignSize(pa)) % Unit(k) == 0
    ensures Exec(Seq(Op(MoveMemory(d, pa)), Seq(QspiAlign(d, periph, pa), Pieces(d, B, periph, k, count))), s) == Ok(t)
    ensures t.fifo == [] && |t.mem| == |s.mem| && RegisterSet(d, reg, t)
    ensures if d.FromMem? then t.sar == pa + mid else t.dar == pa + mid
  {
    var a, align, bursts := AlignSize(pa), QspiAlign(d, periph, pa), Pieces(d, B, periph, k, count);
    QspiAlignCarries(d, reg, periph, pa, mid);
    PiecesCarry(d, reg, B, periph, k, pa, mid, count, a, mid);
    CarriesSeq(StreamShape(d, reg, 4, pa, mid), align, bursts, 0, a, mid);
    t := PrefixRuns(d, reg, s, pa, mid, Seq(align, bursts));
  }

  lemma UnsoundSinglesFail(d: Direction, reg: nat, periph: nat, z: Sizes, pa: nat, left: nat, s: State)
    requires pa % 4 == 0 && Streamable(d, reg, 4, s, pa, AlignSize(pa) + left)
    requires BurstCount(z, left) != 0 ==> Sound(B, z.burst)
    requires SingleCount(z, left) != 0 && !Sound(S, z.single)
    ensures var o := Exec(Seq(Op(MoveMemory(d, pa)), QspiPhases(d, periph, z, pa, left)), s);
            o.Ok? ==> o.state.fifo != []
  {
    var a, count, singles := AlignSize(pa), BurstCount(z, left), SingleCount(z, left);
    var mid := a + count * Pow2(z.burst);
    UnsoundAligned(z, pa, left);
    BurstsWithin(z, left);
    var t := SoundBurstsRun(d, reg, periph, z.burst, pa, count, mid, s);
    ExecThenLast(Op(MoveMemory(d, pa)), QspiAlign(d, periph, pa), Pieces(d, B, periph, z.burst, count),
                 Pieces(d, S, periph, z.single, singles), s, t);
    assert count == 0 ==> mid == a;
    UnsoundAfter(d, reg, S, periph, z.single, singles, t, pa + mid);
  }

  lemma BurstsWithin(z: Sizes, left: nat)
    ensures 0 <= BurstCount(z, left) * Pow2(z.burst) <= left
  {
    PartsAndRest(left, z.burst);
  }

  lemma ExecThenLast(a: Prog, b: Prog, c: Prog, e: Prog, s: State, t: State)
    requires Exec(Seq(a, Seq(b, c)), s) == Ok(t)
    ensures Exec(Seq(a, Seq(b, Seq(c, e))), s) == Exec(e, t)
  {
    var mid := Exec(a, s).state;
    ExecThenRest(b, c, e, mid, t);
  }

  lemma UnsoundFails(d: Direction, reg: nat, periph: nat, z: Sizes, pa: nat, n: nat, s: State)
    requires Suitable(z, pa, n) && Streamable(d, reg, 4, s, pa, n)
    requires AlignSize(pa) <= n && !AllSound(z, n - AlignSize(pa))
    ensures var o := Exec(QspiSegment(d, periph, z, pa, n), s); o.Ok? ==> o.state.fifo != []
  {
    var left := n - AlignSize(pa);
    if BurstCount(z, left) != 0 && !Sound(B, z.burst) {
      UnsoundBurstsFail(d, reg, periph, z, pa, left, s);
    } else {
      UnsoundSinglesFail(d, reg, periph, z, pa, left, s);
    }
  }

  /** A segment that is not refused is moved whole if and only if no request that is made for it is
      unsound, and none is missing behind the aligning word. */
  lemma QspiMovesExactlyWhen(d: Direction, reg: nat, periph: nat, z: Sizes, pa: nat, n: nat, s: State)
    requires Suitable(z, pa, n) && 0 < n && Streamable(d, reg, 4, s, pa, n)
    ensures var o := Exec(QspiSegment(d, periph, z, pa, n), s);
            o.Ok? && Streamed(d, reg, 4, s, pa, n, o.state) <==> QspiSplits(z, pa, n)
  {
    var left, moved := n - AlignSize(pa), QspiMoved(z, pa, n);
    MovedIsAll(z, pa, n);
    if AllSound(z, left) {
      QspiPhasesCarry(d, reg, periph, z, pa, n);
      var t := SegmentStreams(d, reg, 4, s, pa, moved, QspiPhases(d, periph, z, pa, left));
      if moved < n { OnlyOneLength(d, reg, 4, s, pa, moved, n, t); }
    } else {
      UnsoundFails(d, reg, periph, z, pa, n, s);
    }
  }

  /** An aligned word that is accepted and not moved: in single requests of two bytes no word is
      ever loaded or stored whole. */
  lemma TwoByteRequests(d: Direction, reg: nat, periph: nat, s: State)
    requires Streamable(d, reg, 4, s, 0, 4)
    ensures Suitable(Sizes(1, 1), 0, 4)
    ensures var o := Exec(QspiSegment(d, periph, Sizes(1, 1), 0, 4), s);
            !(o.Ok? && Streamed(d, reg, 4, s, 0, 4, o.state))
  {
    SmallPowers();
    assert SingleCount(Sizes(1, 1), 4) == 2;
    QspiMovesExactlyWhen(d, reg, periph, Sizes(1, 1), 0, 4, s);
  }
}
