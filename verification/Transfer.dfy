/** What every transfer looks like half way: of a run of bytes, `loaded` have gone into the
    MFIFO and `stored` have come out of it.  Loads and stores move these two marks, and the
    loops of a generator move them together. */
module Transfer {
  import opened Bytes
  import opened Arithmetic
  import opened Options
  import opened Pl330

  datatype Route =
    | MemToMem(src: nat, dst: nat)
    | MemToReg(src: nat, reg: nat, width: nat)
    | RegToMem(reg: nat, width: nat, dst: nat)
    | ZeroToMem(dst: nat)

  /** Moving `data` along `route`, begun in state `start`. */
  datatype Job = Job(start: State, route: Route, data: seq<Byte>)

  /** The data fits and is where the route says it is.  A memory copy runs upwards, so the
      destination may not begin inside the rest of the source. */
  ghost predicate Valid(j: Job) {
    var n := |j.data|;
    match j.route
    case MemToMem(src, dst) =>
      src + n <= |j.start.mem| && dst + n <= |j.start.mem|
      && j.data == j.start.mem[src..src + n] && (dst <= src || src + n <= dst)
    case MemToReg(src, reg, w) =>
      src + n <= |j.start.mem| <= reg && BeatSize(w) && reg % w == 0
      && j.data == j.start.mem[src..src + n]
    case RegToMem(reg, w, dst) =>
      dst + n <= |j.start.mem| <= reg && BeatSize(w) && reg % w == 0
      && n <= |j.start.rx| && j.data == j.start.rx[..n]
    case ZeroToMem(dst) => dst + n <= |j.start.mem| && j.data == Zeros(n)
  }

  /** Well-formed enough for At to make sense. */
  ghost predicate Fits(j: Job) {
    match j.route
    case MemToMem(_, dst) => dst + |j.data| <= |j.start.mem|
    case MemToReg(_, _, w) => 0 < w
    case RegToMem(_, w, dst) => 0 < w && dst + |j.data| <= |j.start.mem| && |j.data| <= |j.start.rx|
    case ZeroToMem(dst) => dst + |j.data| <= |j.start.mem|
  }

  /** The state with `loaded` bytes fetched and `stored` of them delivered. */
  ghost function At(j: Job, loaded: nat, stored: nat, ccr: Ccr, req: Request): State
    requires Fits(j) && stored <= loaded <= |j.data|
  {
    var s := j.start.(ccr := ccr, req := req, fifo := j.data[stored..loaded]);
    match j.route
    case MemToMem(src, dst) =>
      s.(mem := Splice(s.mem, dst, j.data[..stored]), sar := src + loaded, dar := dst + stored)
    case MemToReg(src, reg, w) =>
      s.(trace := s.trace + Accesses(true, reg, w, j.data[..stored]), sar := src + loaded, dar := reg)
    case RegToMem(reg, w, dst) =>
      s.(mem := Splice(s.mem, dst, j.data[..stored]), dar := dst + stored, sar := reg,
         rx := s.rx[loaded..], trace := s.trace + Accesses(false, reg, w, j.data[..loaded]))
    case ZeroToMem(dst) => s.(mem := Splice(s.mem, dst, j.data[..stored]), dar := dst + stored)
  }

  /** The bytes a load of n would fetch at this point are the next ones of the data. */
  ghost predicate Intact(j: Job, loaded: nat, stored: nat, n: nat)
    requires Fits(j) && stored <= loaded && loaded + n <= |j.data|
  {
    match j.route
    case MemToMem(src, dst) =>
      src + loaded + n <= |j.start.mem|
      && Splice(j.start.mem, dst, j.data[..stored])[src + loaded..src + loaded + n] == j.data[loaded..loaded + n]
    case MemToReg(src, reg, w) =>
      src + loaded + n <= |j.start.mem|
      && j.start.mem[src + loaded..src + loaded + n] == j.data[loaded..loaded + n]
    case RegToMem(reg, w, dst) =>
      |j.start.mem| <= reg && BeatSize(w) && reg % w == 0 && loaded % w == 0
      && j.start.rx[loaded..loaded + n] == j.data[loaded..loaded + n]
    case ZeroToMem(_) => j.data[loaded..loaded + n] == Zeros(n)
  }

  lemma ValidIntact(j: Job, loaded: nat, stored: nat, n: nat)
    requires Valid(j) && stored <= loaded && loaded + n <= |j.data|
    requires j.route.RegToMem? ==> loaded % j.route.width == 0
    ensures Intact(j, loaded, stored, n)
  {
    match j.route
    case MemToMem(src, dst) => CopyIntact(j.start.mem, src, dst, |j.data|, loaded, stored, n);
    case MemToReg(src, _, _) => SliceOfSlice(j.start.mem, src, |j.data|, loaded, n);
    case RegToMem(_, _, _) => SliceOfPrefix(j.start.rx, |j.data|, loaded, n);
    case ZeroToMem(_) => assert Zeros(|j.data|)[loaded..loaded + n] == Zeros(n);
  }

  /** A copy that runs upwards overwrites no source byte it still has to fetch. */
  lemma CopyIntact(mem: seq<Byte>, src: nat, dst: nat, size: nat, loaded: nat, stored: nat, n: nat)
    requires src + size <= |mem| && dst + size <= |mem| && (dst <= src || src + size <= dst)
    requires stored <= loaded && loaded + n <= size
    ensures var data := mem[src..src + size];
            Splice(mem, dst, data[..stored])[src + loaded..src + loaded + n] == data[loaded..loaded + n]
  {
    var data := mem[src..src + size];
    var m := Splice(mem, dst, data[..stored]);
    SpliceAt(mem, dst, data[..stored]);
    assert forall i :: src + loaded <= i < src + loaded + n ==> m[i] == mem[i];
    assert m[src + loaded..src + loaded + n] == mem[src + loaded..src + loaded + n];
    SliceOfSlice(mem, src, size, loaded, n);
  }

  lemma SliceOfPrefix(rx: seq<Byte>, size: nat, i: nat, n: nat)
    requires size <= |rx| && i + n <= size
    ensures rx[..size][i..i + n] == rx[i..i + n]
  {
  }

  lemma SliceOfSlice(mem: seq<Byte>, a: nat, size: nat, i: nat, n: nat)
    requires a + size <= |mem| && i + n <= size
    ensures mem[a..a + size][i..i + n] == mem[a + i..a + i + n]
  {
    var x, y := mem[a..a + size][i..i + n], mem[a + i..a + i + n];
    forall k | 0 <= k < n ensures x[k] == y[k] {
    }
  }

  predicate FromMemory(route: Route) {
    route.MemToMem? || route.MemToReg?
  }

  /** How many bytes a load of `beats` beats fetches. */
  function LoadSize(route: Route, loaded: nat, ccr: Ccr, beats: nat): int
    requires ccr.Valid()
  {
    beats * ccr.srcSize - (if FromMemory(route) then (route.src + loaded) % ccr.srcSize else 0)
  }

  function StoreSize(route: Route, stored: nat, ccr: Ccr, beats: nat): int
    requires ccr.Valid()
  {
    beats * ccr.dstSize - (if route.MemToReg? then 0 else (route.dst + stored) % ccr.dstSize)
  }

  /** The control register suits the route: memory addresses increment, register addresses
      stay and are accessed in whole elements. */
  predicate Suits(route: Route, ccr: Ccr) {
    && ccr.Valid() && !route.ZeroToMem?
    && (ccr.srcInc <==> !route.RegToMem?)
    && (ccr.dstInc <==> !route.MemToReg?)
    && (route.RegToMem? ==> ccr.srcSize == route.width)
    && (route.MemToReg? ==> ccr.dstSize == route.width)
  }

  lemma MemoryFetched(s: State, n: nat, bytes: seq<Byte>)
    requires s.sar + n <= |s.mem| && bytes == s.mem[s.sar..s.sar + n]
    ensures FetchMemory(s, n) == Ok(s.(sar := s.sar + n, fifo := s.fifo + bytes))
  {
  }

  lemma MoreFetched(j: Job, loaded: nat, stored: nat, ccr: Ccr, req: Request, n: nat)
    requires Fits(j) && FromMemory(j.route) && stored <= loaded && loaded + n <= |j.data|
    ensures var s := At(j, loaded, stored, ccr, req);
            At(j, loaded + n, stored, ccr, req) == s.(sar := s.sar + n, fifo := s.fifo + j.data[loaded..loaded + n])
  {
    assert j.data[stored..loaded] + j.data[loaded..loaded + n] == j.data[stored..loaded + n];
  }

  lemma FetchMemoryAdvances(j: Job, loaded: nat, stored: nat, ccr: Ccr, req: Request, n: nat)
    requires Fits(j) && FromMemory(j.route) && stored <= loaded && loaded + n <= |j.data|
    requires Intact(j, loaded, stored, n)
    ensures FetchMemory(At(j, loaded, stored, ccr, req), n) == Ok(At(j, loaded + n, stored, ccr, req))
  {
    MemoryFetched(At(j, loaded, stored, ccr, req), n, j.data[loaded..loaded + n]);
    MoreFetched(j, loaded, stored, ccr, req, n);
  }

  lemma FetchRegisterAdvances(j: Job, loaded: nat, stored: nat, ccr: Ccr, req: Request, n: nat)
    requires Fits(j) && j.route.RegToMem? && stored <= loaded && loaded + n <= |j.data|
    requires Intact(j, loaded, stored, n)
    ensures FetchRegister(At(j, loaded, stored, ccr, req), j.route.width, n) == Ok(At(j, loaded + n, stored, ccr, req))
  {
    var RegToMem(reg, w, dst) := j.route;
    var rx := j.start.rx[loaded..];
    assert rx[..n] == j.data[loaded..loaded + n] by { assert rx[..n] == j.start.rx[loaded..loaded + n]; }
    assert rx[n..] == j.start.rx[loaded + n..];
    assert j.data[stored..loaded] + j.data[loaded..loaded + n] == j.data[stored..loaded + n];
    TraceExtends(j.start.trace, false, reg, w, j.data, loaded, n);
  }

  lemma TraceExtends(trace: seq<Event>, write: bool, reg: nat, w: nat, data: seq<Byte>, done: nat, n: nat)
    requires BeatSize(w) && done % w == 0 && done + n <= |data|
    ensures trace + Accesses(write, reg, w, data[..done]) + Accesses(write, reg, w, data[done..done + n])
         == trace + Accesses(write, reg, w, data[..done + n])
  {
    assert data[..done] + data[done..done + n] == data[..done + n];
    AccessesConcat(write, reg, w, data[..done], data[done..done + n]);
  }

  lemma FifoDrained(data: seq<Byte>, loaded: nat, stored: nat, n: nat)
    requires stored + n <= loaded <= |data|
    ensures data[stored..loaded][..n] == data[stored..stored + n]
    ensures data[stored..loaded][n..] == data[stored + n..loaded]
    ensures data[..stored] + data[stored..stored + n] == data[..stored + n]
  {
  }

  lemma MemoryDrained(s: State, n: nat, out: seq<Byte>, rest: seq<Byte>)
    requires n <= |s.fifo| && s.dar + n <= |s.mem| && out == s.fifo[..n] && rest == s.fifo[n..]
    ensures DrainMemory(s, n) == Ok(s.(mem := Splice(s.mem, s.dar, out), dar := s.dar + n, fifo := rest))
  {
  }

  lemma MoreStored(j: Job, loaded: nat, stored: nat, ccr: Ccr, req: Request, n: nat)
    requires Fits(j) && !j.route.MemToReg? && stored + n <= loaded <= |j.data|
    ensures var s, out := At(j, loaded, stored, ccr, req), j.data[stored..stored + n];
            (At(j, loaded, stored + n, ccr, req)
             == s.(mem := Splice(s.mem, s.dar, out), dar := s.dar + n, fifo := j.data[stored + n..loaded]))
  {
    StoredSoFar(j, loaded, stored, ccr, req);
    StoredSoFar(j, loaded, stored + n, ccr, req);
    MoreSpliced(j.start.mem, j.route.dst, j.data, stored, n);
  }

  /** Storing to memory changes memory, its address and the MFIFO. */
  lemma StoredSoFar(j: Job, loaded: nat, stored: nat, ccr: Ccr, req: Request)
    requires Fits(j) && !j.route.MemToReg? && stored <= loaded <= |j.data|
    ensures At(j, loaded, stored, ccr, req)
            == At(j, loaded, 0, ccr, req).(mem := Splice(j.start.mem, j.route.dst, j.data[..stored]),
                                           dar := j.route.dst + stored, fifo := j.data[stored..loaded])
  {
  }

  lemma MoreSpliced(mem: seq<Byte>, dst: nat, data: seq<Byte>, stored: nat, n: nat)
    requires stored + n <= |data| && dst + |data| <= |mem|
    ensures Splice(Splice(mem, dst, data[..stored]), dst + stored, data[stored..stored + n])
            == Splice(mem, dst, data[..stored + n])
  {
    SpliceExtends(mem, dst, data[..stored], data[stored..stored + n]);
    assert data[..stored] + data[stored..stored + n] == data[..stored + n];
  }

  lemma DrainMemoryAdvances(j: Job, loaded: nat, stored: nat, ccr: Ccr, req: Request, n: nat)
    requires Fits(j) && !j.route.MemToReg? && stored + n <= loaded <= |j.data|
    ensures DrainMemory(At(j, loaded, stored, ccr, req), n) == Ok(At(j, loaded, stored + n, ccr, req))
  {
    FifoDrained(j.data, loaded, stored, n);
    MemoryDrained(At(j, loaded, stored, ccr, req), n, j.data[stored..stored + n], j.data[stored + n..loaded]);
    MoreStored(j, loaded, stored, ccr, req, n);
  }

  lemma DrainRegisterAdvances(j: Job, loaded: nat, stored: nat, ccr: Ccr, req: Request, n: nat)
    requires Fits(j) && j.route.MemToReg? && stored + n <= loaded <= |j.data|
    requires |j.start.mem| <= j.route.reg && BeatSize(j.route.width) && stored % j.route.width == 0
    ensures DrainRegister(At(j, loaded, stored, ccr, req), j.route.width, n) == Ok(At(j, loaded, stored + n, ccr, req))
  {
    FifoDrained(j.data, loaded, stored, n);
    TraceExtends(j.start.trace, true, j.route.reg, j.route.width, j.data, stored, n);
  }

  lemma LoadAdvances(j: Job, loaded: nat, stored: nat, ccr: Ccr, req: Request, beats: nat, n: nat)
    requires Fits(j) && Suits(j.route, ccr) && stored <= loaded && loaded + n <= |j.data|
    requires n == LoadSize(j.route, loaded, ccr, beats) && Intact(j, loaded, stored, n)
    ensures Load(At(j, loaded, stored, ccr, req), beats) == Ok(At(j, loaded + n, stored, ccr, req))
  {
    if j.route.RegToMem? {
      FetchRegisterAdvances(j, loaded, stored, ccr, req, n);
      LoadFixed(At(j, loaded, stored, ccr, req), beats, n);
    } else {
      FetchMemoryAdvances(j, loaded, stored, ccr, req, n);
      LoadIncrementing(At(j, loaded, stored, ccr, req), beats, n);
    }
  }

  lemma LoadFixed(s: State, beats: nat, n: nat)
    requires s.ccr.Valid() && !s.ccr.srcInc && s.sar % s.ccr.srcSize == 0 && |s.mem| <= s.sar
    requires n == beats * s.ccr.srcSize
    ensures Load(s, beats) == FetchRegister(s, s.ccr.srcSize, n)
  {
  }

  lemma LoadIncrementing(s: State, beats: nat, n: int)
    requires s.ccr.Valid() && s.ccr.srcInc && n == beats * s.ccr.srcSize - s.sar % s.ccr.srcSize
    ensures Load(s, beats) == FetchMemory(s, n)
  {
  }

  lemma StoreAdvances(j: Job, loaded: nat, stored: nat, ccr: Ccr, req: Request, beats: nat, n: nat)
    requires Fits(j) && Suits(j.route, ccr) && stored + n <= loaded <= |j.data|
    requires n == StoreSize(j.route, stored, ccr, beats)
    requires j.route.MemToReg? ==>
      stored % j.route.width == 0 && |j.start.mem| <= j.route.reg && j.route.reg % j.route.width == 0
    ensures Store(At(j, loaded, stored, ccr, req), beats) == Ok(At(j, loaded, stored + n, ccr, req))
  {
    if j.route.MemToReg? {
      DrainRegisterAdvances(j, loaded, stored, ccr, req, n);
      StoreFixed(At(j, loaded, stored, ccr, req), beats, n);
    } else {
      DrainMemoryAdvances(j, loaded, stored, ccr, req, n);
      StoreIncrementing(At(j, loaded, stored, ccr, req), beats, n);
    }
  }

  lemma ZerosStored(s: State, n: nat)
    requires s.ccr.Valid() && s.ccr.dstInc && n == s.ccr.dstLen * s.ccr.dstSize - s.dar % s.ccr.dstSize
    requires s.dar + n <= |s.mem|
    ensures StoreZeros(s) == Ok(s.(mem := Splice(s.mem, s.dar, Zeros(n)), dar := s.dar + n))
  {
  }

  lemma MoreZeros(j: Job, done: nat, ccr: Ccr, req: Request, n: nat)
    requires Fits(j) && j.route.ZeroToMem? && done + n <= |j.data| && j.data[done..done + n] == Zeros(n)
    ensures var s := At(j, done, done, ccr, req);
            At(j, done + n, done + n, ccr, req) == s.(mem := Splice(s.mem, s.dar, Zeros(n)), dar := s.dar + n)
  {
    SpliceExtends(j.start.mem, j.route.dst, j.data[..done], Zeros(n));
    assert j.data[..done] + Zeros(n) == j.data[..done + n];
    assert j.data[done..done] == j.data[done + n..done + n];
  }

  lemma ZerosAdvance(j: Job, done: nat, ccr: Ccr, req: Request, n: nat)
    requires Fits(j) && j.route.ZeroToMem? && ccr.Valid() && ccr.dstInc && done + n <= |j.data|
    requires n == StoreSize(j.route, done, ccr, ccr.dstLen) && j.data[done..done + n] == Zeros(n)
    ensures StoreZeros(At(j, done, done, ccr, req)) == Ok(At(j, done + n, done + n, ccr, req))
  {
    ZerosStored(At(j, done, done, ccr, req), n);
    MoreZeros(j, done, ccr, req, n);
  }

  lemma StoreFixed(s: State, beats: nat, n: nat)
    requires s.ccr.Valid() && !s.ccr.dstInc && s.dar % s.ccr.dstSize == 0 && n == beats * s.ccr.dstSize
    ensures Store(s, beats) == DrainRegister(s, s.ccr.dstSize, n)
  {
  }

  lemma StoreIncrementing(s: State, beats: nat, n: int)
    requires s.ccr.Valid() && s.ccr.dstInc && n == beats * s.ccr.dstSize - s.dar % s.ccr.dstSize
    ensures Store(s, beats) == DrainMemory(s, n)
  {
  }

  lemma SpliceExtends(mem: seq<Byte>, a: nat, x: seq<Byte>, y: seq<Byte>)
    requires a + |x| + |y| <= |mem|
    ensures Splice(Splice(mem, a, x), a + |x|, y) == Splice(mem, a, x + y)
  {
  }

  // ---- Running a program on the marks alone ----

  /** Where a transfer stands. */
  datatype Mark = Mark(loaded: nat, stored: nat, ccr: Ccr, req: Request)

  /** What the marks have to know about a transfer: its route, its size, and how far loads may
      go before anything has been stored and after. */
  datatype Shape = Shape(route: Route, size: nat, first: nat, later: nat)

  /** A load may take the first mark to `to`. */
  predicate MayLoad(sh: Shape, stored: nat, to: int) {
    to <= sh.size && to <= if stored == 0 then sh.first else sh.later
  }

  /** How many beats a load or store of this form moves. */
  function Beats(f: Form, len: nat): nat {
    if f == S then 1 else len
  }

  function MarkLoad(sh: Shape, m: Mark, beats: nat): Option<Mark> {
    if !Suits(sh.route, m.ccr) then None
    else
      var n := LoadSize(sh.route, m.loaded, m.ccr, beats);
      if 0 <= n && MayLoad(sh, m.stored, m.loaded + n)
         && (sh.route.RegToMem? ==> m.loaded % m.ccr.srcSize == 0)
      then Some(m.(loaded := m.loaded + n))
      else None
  }

  function MarkStore(sh: Shape, m: Mark, beats: nat): Option<Mark> {
    if !Suits(sh.route, m.ccr) then None
    else
      var n := StoreSize(sh.route, m.stored, m.ccr, beats);
      if 0 <= n && m.stored + n <= m.loaded && (sh.route.MemToReg? ==> m.stored % m.ccr.dstSize == 0)
      then Some(m.(stored := m.stored + n))
      else None
  }

  /** Zeros are stored without being loaded. */
  function MarkZeros(sh: Shape, m: Mark): Option<Mark> {
    if !sh.route.ZeroToMem? || !m.ccr.Valid() || !m.ccr.dstInc then None
    else
      var n := StoreSize(sh.route, m.stored, m.ccr, m.ccr.dstLen);
      if 0 <= n && m.loaded == m.stored && MayLoad(sh, m.stored, m.loaded + n)
      then Some(m.(loaded := m.loaded + n, stored := m.stored + n))
      else None
  }

  function MarkInstr(sh: Shape, i: Instr, m: Mark): Option<Mark> {
    match i
    case MovCcr(c) => if c.Valid() then Some(m.(ccr := c)) else None
    case Ld(f) => if Enabled(f, m.req) then MarkLoad(sh, m, Beats(f, m.ccr.srcLen)) else Some(m)
    case St(f) => if Enabled(f, m.req) then MarkStore(sh, m, Beats(f, m.ccr.dstLen)) else Some(m)
    case Stz => MarkZeros(sh, m)
    case Wfp(_, r) => Some(m.(req := r))
    case FlushP(_) => Some(m)
    case _ => None
  }

  function MarkExec(sh: Shape, p: Prog, m: Mark): Option<Mark>
    decreases p, 0
  {
    match p
    case Skip => Some(m)
    case Op(i) => MarkInstr(sh, i, m)
    case Seq(a, b) =>
      (match MarkExec(sh, a, m)
       case Some(k) => MarkExec(sh, b, k)
       case None => None)
    case Loop(n, body, end) => MarkIterate(sh, n, body, end, m)
  }

  function MarkIterate(sh: Shape, n: nat, body: Prog, end: Form, m: Mark): Option<Mark>
    decreases body, n
  {
    if n == 0 then Some(m)
    else
      match MarkExec(sh, body, m)
      case None => None
      case Some(k) => if Enabled(end, k.req) then MarkIterate(sh, n - 1, body, end, k) else Some(k)
  }

  /** The marks are in order and inside the data. */
  predicate InOrder(sh: Shape, m: Mark) {
    m.stored <= m.loaded <= sh.size
  }

  ghost function StateAt(j: Job, m: Mark): State
    requires Fits(j) && m.stored <= m.loaded <= |j.data|
  {
    At(j, m.loaded, m.stored, m.ccr, m.req)
  }

  /** The data is there for every load that the marks allow. */
  ghost predicate Supplied(j: Job, sh: Shape) {
    && sh.route == j.route && sh.size == |j.data| && Fits(j)
    && (j.route.MemToReg? ==> |j.start.mem| <= j.route.reg && j.route.reg % j.route.width == 0)
    && forall loaded: nat, stored: nat, n: nat
         | stored <= loaded && loaded + n <= |j.data| && MayLoad(sh, stored, loaded + n)
           && (j.route.RegToMem? ==> loaded % j.route.width == 0) ::
         Intact(j, loaded, stored, n)
  }

  function Whole(j: Job): Shape {
    Shape(j.route, |j.data|, |j.data|, |j.data|)
  }

  lemma ValidSupplied(j: Job)
    requires Valid(j)
    ensures Supplied(j, Whole(j))
  {
    forall loaded: nat, stored: nat, n: nat
      | stored <= loaded && loaded + n <= |j.data| && (j.route.RegToMem? ==> loaded % j.route.width == 0)
      ensures Intact(j, loaded, stored, n)
    {
      ValidIntact(j, loaded, stored, n);
    }
  }

  lemma LoadFollows(j: Job, sh: Shape, m: Mark, beats: nat, k: Mark)
    requires Supplied(j, sh) && InOrder(sh, m) && MarkLoad(sh, m, beats) == Some(k)
    ensures InOrder(sh, k) && Load(StateAt(j, m), beats) == Ok(StateAt(j, k))
  {
    var n := k.loaded - m.loaded;
    assert Intact(j, m.loaded, m.stored, n);
    LoadAdvances(j, m.loaded, m.stored, m.ccr, m.req, beats, n);
  }

  lemma StoreFollows(j: Job, sh: Shape, m: Mark, beats: nat, k: Mark)
    requires Supplied(j, sh) && InOrder(sh, m) && MarkStore(sh, m, beats) == Some(k)
    ensures InOrder(sh, k) && Store(StateAt(j, m), beats) == Ok(StateAt(j, k))
  {
    StoreAdvances(j, m.loaded, m.stored, m.ccr, m.req, beats, k.stored - m.stored);
  }

  lemma ZerosFollow(j: Job, sh: Shape, m: Mark, k: Mark)
    requires Supplied(j, sh) && InOrder(sh, m) && MarkZeros(sh, m) == Some(k)
    ensures InOrder(sh, k) && StoreZeros(StateAt(j, m)) == Ok(StateAt(j, k))
  {
    var n := k.stored - m.stored;
    assert Intact(j, m.loaded, m.stored, n);
    ZerosAdvance(j, m.stored, m.ccr, m.req, n);
  }

  lemma InstrFollows(j: Job, sh: Shape, i: Instr, m: Mark, k: Mark)
    requires Supplied(j, sh) && InOrder(sh, m) && MarkInstr(sh, i, m) == Some(k)
    ensures InOrder(sh, k) && ExecInstr(i, StateAt(j, m)) == Ok(StateAt(j, k))
  {
    match i
    case Ld(f) =>
      if Enabled(f, m.req) { LoadFollows(j, sh, m, Beats(f, m.ccr.srcLen), k); }
    case St(f) =>
      if Enabled(f, m.req) { StoreFollows(j, sh, m, Beats(f, m.ccr.dstLen), k); }
    case Stz => ZerosFollow(j, sh, m, k);
    case MovCcr(c) =>
    case Wfp(_, r) =>
    case FlushP(_) =>
  }

  /** The controller does to the state what the program does to the marks. */
  lemma {:induction false} StateFollowsMarks(j: Job, sh: Shape, p: Prog, m: Mark, k: Mark)
    requires Supplied(j, sh) && InOrder(sh, m) && MarkExec(sh, p, m) == Some(k)
    ensures InOrder(sh, k) && Exec(p, StateAt(j, m)) == Ok(StateAt(j, k))
    decreases p, 0
  {
    match p
    case Skip =>
    case Op(i) => InstrFollows(j, sh, i, m, k);
    case Seq(a, b) =>
      var mid := MarkExec(sh, a, m).value;
      StateFollowsMarks(j, sh, a, m, mid);
      StateFollowsMarks(j, sh, b, mid, k);
    case Loop(n, body, end) => LoopFollowsMarks(j, sh, n, body, end, m, k);
  }

  lemma {:induction false} LoopFollowsMarks(j: Job, sh: Shape, n: nat, body: Prog, end: Form, m: Mark, k: Mark)
    requires Supplied(j, sh) && InOrder(sh, m) && MarkIterate(sh, n, body, end, m) == Some(k)
    ensures InOrder(sh, k) && Iterate(n, body, end, StateAt(j, m)) == Ok(StateAt(j, k))
    decreases body, n
  {
    if n > 0 {
      var mid := MarkExec(sh, body, m).value;
      StateFollowsMarks(j, sh, body, m, mid);
      if Enabled(end, mid.req) {
        LoopFollowsMarks(j, sh, n - 1, body, end, mid, k);
      }
    }
  }

  // ---- Programs that move both marks together ----

  lemma MarkSeq(sh: Shape, p: Prog, q: Prog, m: Mark, k: Mark)
    requires MarkExec(sh, p, m) == Some(k)
    ensures MarkExec(sh, Seq(p, q), m) == MarkExec(sh, q, k)
  {
  }

  /** If every turn takes the marks from after(i) to after(i + 1), k turns take them from
      after(0) to after(k), in one loop or in several. */
  lemma {:induction false} IterateSteps(sh: Shape, p: Prog, k: nat, from: nat, after: nat -> Mark)
    requires forall i: nat | from <= i < from + k :: MarkExec(sh, p, after(i)) == Some(after(i + 1))
    ensures MarkIterate(sh, k, p, Plain, after(from)) == Some(after(from + k))
    decreases k
  {
    if k > 0 {
      assert MarkExec(sh, p, after(from)) == Some(after(from + 1));
      IterateSteps(sh, p, k - 1, from + 1, after);
    }
  }

  lemma {:induction false} ChunkedSteps(sh: Shape, p: Prog, k: nat, from: nat, after: nat -> Mark)
    requires forall i: nat | from <= i < from + k :: MarkExec(sh, p, after(i)) == Some(after(i + 1))
    ensures MarkExec(sh, Chunked(k, p, Plain), after(from)) == Some(after(from + k))
    decreases k
  {
    if k > 0 {
      var c := Turns(k);
      IterateSteps(sh, p, c, from, after);
      if c == 1 { assert MarkExec(sh, p, after(from)) == Some(after(from + 1)); }
      MarkSeq(sh, OnceOrLoop(c, p, Plain), Chunked(k - c, p, Plain), after(from), after(from + c));
      ChunkedSteps(sh, p, k - c, from + c, after);
    }
  }

  /** Both marks level. */
  function Level(done: nat, ccr: Ccr, req: Request): Mark {
    Mark(done, done, ccr, req)
  }

  /** The memory side of the transfer stands at a multiple of `unit`. */
  predicate AtUnit(sh: Shape, done: nat, unit: nat) {
    0 < unit && (if FromMemory(sh.route) then sh.route.src + done else sh.route.dst + done) % unit == 0
  }

  /** The request type a program leaves behind. */
  function After(post: Option<Request>, req: Request): Request {
    if post.Some? then post.value else req
  }

  /** Started anywhere in the data at a multiple of `unit`, with request type `pre` if that
      matters, p moves the next n bytes and leaves the MFIFO empty again. */
  ghost predicate Moves(sh: Shape, p: Prog, ccr: Ccr, n: nat, unit: nat, pre: Option<Request>, post: Option<Request>) {
    forall done: nat, req: Request :: MovesFrom(sh, p, ccr, n, unit, pre, post, done, req)
  }

  predicate MovesFrom(
    sh: Shape, p: Prog, ccr: Ccr, n: nat, unit: nat, pre: Option<Request>, post: Option<Request>, done: nat,
        req: Request) {
    done + n <= sh.size && AtUnit(sh, done, unit) && (pre.None? || req == pre.value) ==>
      MarkExec(sh, p, Level(done, ccr, req)) == Some(Level(done + n, ccr, After(post, req)))
  }

  /** Moves, for one starting point. */
  lemma MovesOne(sh: Shape, p: Prog, ccr: Ccr, n: nat, unit: nat, pre: Option<Request>, post: Option<Request>,
      done: nat, req: Request)
    requires Moves(sh, p, ccr, n, unit, pre, post)
    requires done + n <= sh.size && AtUnit(sh, done, unit) && (pre.None? || req == pre.value)
    ensures MarkExec(sh, p, Level(done, ccr, req)) == Some(Level(done + n, ccr, After(post, req)))
  {
    assert MovesFrom(sh, p, ccr, n, unit, pre, post, done, req);
  }

  lemma AtUnitStep(sh: Shape, done: nat, unit: nat, n: nat)
    requires AtUnit(sh, done, unit) && n % unit == 0
    ensures AtUnit(sh, done + n, unit)
  {
    var a := if FromMemory(sh.route) then sh.route.src + done else sh.route.dst + done;
    ModAdd(a, n, unit);
  }

  /** What a loop end needs: it is unconditional, or the request type is the one it names. */
  predicate Closes(end: Form, pre: Option<Request>, post: Option<Request>) {
    end == Plain || (post.Some? && Enabled(end, post.value)) || (post.None? && pre.Some? && Enabled(end, pre.value))
  }

  /** p can be repeated: it leaves the request type it needs and a multiple of the unit. */
  predicate Repeats(n: nat, unit: nat, pre: Option<Request>, post: Option<Request>, end: Form) {
    0 < unit && n % unit == 0 && Closes(end, pre, post) && (pre.None? || post.None? || pre == post)
  }

  lemma {:induction false} IterateMoves(
    sh: Shape, p: Prog, ccr: Ccr, n: nat, unit: nat, pre: Option<Request>, post: Option<Request>,
    k: nat, end: Form, done: nat, total: nat, req: Request)
    requires Moves(sh, p, ccr, n, unit, pre, post) && Repeats(n, unit, pre, post, end)
    requires total == k * n && done + total <= sh.size && AtUnit(sh, done, unit) && (pre.None? || req == pre.value)
    ensures MarkIterate(sh, k, p, end, Level(done, ccr, req))
         == Some(Level(done + total, ccr, if k == 0 then req else After(post, req)))
    decreases k
  {
    if k > 0 {
      var rest := (k - 1) * n;
      assert total == n + rest && 0 <= rest;
      AtUnitStep(sh, done, unit, n);
      MovesOne(sh, p, ccr, n, unit, pre, post, done, req);
      IterateMoves(sh, p, ccr, n, unit, pre, post, k - 1, end, done + n, rest, After(post, req));
    }
  }

  lemma OnceOrLoopMoves(
    sh: Shape, p: Prog, ccr: Ccr, n: nat, unit: nat, pre: Option<Request>, post: Option<Request>,
    k: nat, end: Form, total: nat)
    requires Moves(sh, p, ccr, n, unit, pre, post) && Repeats(n, unit, pre, post, end)
    requires 0 < k && total == k * n
    ensures Moves(sh, Loop(k, p, end), ccr, total, unit, pre, post)
    ensures Moves(sh, OnceOrLoop(k, p, end), ccr, total, unit, pre, post)
  {
    forall done: nat, req: Request
      | done + total <= sh.size && AtUnit(sh, done, unit) && (pre.None? || req == pre.value)
      ensures MarkExec(sh, Loop(k, p, end), Level(done, ccr, req)) == Some(Level(done + total, ccr, After(post, req)))
    {
      IterateMoves(sh, p, ccr, n, unit, pre, post, k, end, done, total, req);
    }
    if k == 1 { assert total == n; }
  }

  lemma SeqMoves(
    sh: Shape, p: Prog, q: Prog, ccr: Ccr, m: nat, n: nat, unit: nat, pre: Option<Request>, post: Option<Request>,
        total: nat)
    requires Moves(sh, p, ccr, m, unit, pre, post) && Moves(sh, q, ccr, n, unit, pre, post)
    requires 0 < unit && m % unit == 0 && (pre.None? || post.None? || pre == post) && total == m + n
    ensures Moves(sh, Seq(p, q), ccr, total, unit, pre, post)
  {
    forall done: nat, req: Request
      | done + total <= sh.size && AtUnit(sh, done, unit) && (pre.None? || req == pre.value)
      ensures MarkExec(sh, Seq(p, q), Level(done, ccr, req)) == Some(Level(done + total, ccr, After(post, req)))
    {
      TwoMoves(sh, p, q, ccr, m, n, unit, pre, post, done, req);
    }
  }

  lemma TwoMoves(
    sh: Shape, p: Prog, q: Prog, ccr: Ccr, m: nat, n: nat, unit: nat, pre: Option<Request>, post: Option<Request>,
    done: nat, req: Request)
    requires Moves(sh, p, ccr, m, unit, pre, post) && Moves(sh, q, ccr, n, unit, pre, post)
    requires 0 < unit && m % unit == 0 && (pre.None? || post.None? || pre == post)
    requires done + m + n <= sh.size && AtUnit(sh, done, unit) && (pre.None? || req == pre.value)
    ensures MarkExec(sh, Seq(p, q), Level(done, ccr, req)) == Some(Level(done + m + n, ccr, After(post, req)))
  {
    AtUnitStep(sh, done, unit, m);
    MovesOne(sh, p, ccr, m, unit, pre, post, done, req);
    MovesOne(sh, q, ccr, n, unit, pre, post, done + m, After(post, req));
    MarkSeq(sh, p, q, Level(done, ccr, req), Level(done + m, ccr, After(post, req)));
  }

  /** However the turns are cut into loops, all of them happen. */
  lemma {:induction false} ChunkedMoves(
    sh: Shape, p: Prog, ccr: Ccr, n: nat, unit: nat, pre: Option<Request>, post: Option<Request>,
    k: nat, end: Form, total: nat)
    requires Moves(sh, p, ccr, n, unit, pre, post) && Repeats(n, unit, pre, post, end)
    requires 0 < k && total == k * n
    ensures Moves(sh, Chunked(k, p, end), ccr, total, unit, pre, post)
    decreases k
  {
    var c := Turns(k);
    var first, rest := c * n, (k - c) * n;
    assert first % unit == 0 && 0 <= rest && first + rest == total by {
      MulModUnit(c, n, unit);
      Distributes(c, k, n);
    }
    OnceOrLoopMoves(sh, p, ccr, n, unit, pre, post, c, end, first);
    if k == c {
      MovesThenSkip(sh, OnceOrLoop(c, p, end), ccr, total, unit, pre, post);
    } else {
      ChunkedMoves(sh, p, ccr, n, unit, pre, post, k - c, end, rest);
      SeqMoves(sh, OnceOrLoop(c, p, end), Chunked(k - c, p, end), ccr, first, rest, unit, pre, post, total);
    }
  }

  lemma MovesThenSkip(sh: Shape, p: Prog, ccr: Ccr, n: nat, unit: nat, pre: Option<Request>, post: Option<Request>)
    requires Moves(sh, p, ccr, n, unit, pre, post)
    ensures Moves(sh, Seq(p, Skip), ccr, n, unit, pre, post)
  {
    forall done: nat, req: Request
      | done + n <= sh.size && AtUnit(sh, done, unit) && (pre.None? || req == pre.value)
      ensures MarkExec(sh, Seq(p, Skip), Level(done, ccr, req)) == Some(Level(done + n, ccr, After(post, req)))
    {
      MovesOne(sh, p, ccr, n, unit, pre, post, done, req);
      MarkSeq(sh, p, Skip, Level(done, ccr, req), Level(done + n, ccr, After(post, req)));
    }
  }
}
