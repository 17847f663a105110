/** Memory to memory transfers. */
module MemoryCopy {
  import opened Bytes
  import opened Options
  import opened Pl330
  import opened Assembler
  import opened Transfer

  function Min(a: nat, b: nat): nat {
    if a < b then a else b
  }

  /** Equal bursts of `len` beats of `size` bytes on both sides. */
  function CopyCcr(size: nat, len: nat): Ccr {
    Ccr(true, size, len, true, size, len)
  }

  function LoadStore(): Prog {
    Seq(Op(Ld(Plain)), Op(St(Plain)))
  }

  function OneBurst(size: nat, len: nat): Prog {
    Seq(Op(MovCcr(CopyCcr(size, len))), LoadStore())
  }

  // ---- The program of one pair of segments ----

  /** Bytes moved singly until the source is 8-byte aligned. */
  function AlignCount(src: nat, size: nat): nat {
    if src % 8 != 0 then Min(8 - src % 8, size) else 0
  }

  function BurstCount(src: nat, size: nat): nat {
    (size - AlignCount(src, size)) / 8
  }

  /** The bytes that the bursts leave in the MFIFO, as the generator computes them. */
  function CorrectCount(dst: nat, src: nat): nat {
    (dst + (8 - src % 8)) % 8
  }

  function AlignPhase(src: nat, size: nat): Prog {
    if src % 8 != 0 then OneBurst(1, AlignCount(src, size)) else Skip
  }

  function FullBursts(bursts: nat): Prog {
    if bursts / 16 != 0 then
      Seq(Op(MovCcr(CopyCcr(8, 16))), Chunked(bursts / 16, LoadStore(), Plain))
    else Skip
  }

  function LastBurst(bursts: nat): Prog {
    if bursts % 16 != 0 then OneBurst(8, bursts % 16) else Skip
  }

  function BurstPhase(bursts: nat): Prog {
    Seq(FullBursts(bursts), LastBurst(bursts))
  }

  function CorrectionPhase(dst: nat, src: nat, bursts: nat): Prog {
    if bursts != 0 && src % 8 != dst % 8 then
      Seq(Op(MovCcr(CopyCcr(1, CorrectCount(dst, src)))), Op(St(Plain)))
    else Skip
  }

  function TailPhase(src: nat, size: nat): Prog {
    var tail := (size - AlignCount(src, size)) % 8;
    if tail != 0 then OneBurst(1, tail) else Skip
  }

  function CopyPhases(dst: nat, src: nat, size: nat): Prog {
    Seq(AlignPhase(src, size),
        Seq(BurstPhase(BurstCount(src, size)),
            Seq(CorrectionPhase(dst, src, BurstCount(src, size)), TailPhase(src, size))))
  }

  function Addresses(dst: nat, src: nat): Prog {
    Seq(Op(MovSar(src)), Op(MovDar(dst)))
  }

  function CopySegment(dst: nat, src: nat, size: nat): Prog {
    Seq(Addresses(dst, src), CopyPhases(dst, src, size))
  }

  method EmitBurst(program: Program, status: Status, size: nat, len: nat) returns (s: Status)
    requires program.Holds(status) && status.Ordinary()
    modifies program
    ensures program.Holds(s) && s.Ordinary()
    ensures program.intended == Append(old(program.intended), OneBurst(size, len))
  {
    s := program.Emit(status, MovCcr(CopyCcr(size, len)));
    s := program.Emit(s, Ld(Plain));
    s := program.Emit(s, St(Plain));
  }

  /** The loops of 16-beat bursts. */
  method EmitBursts(program: Program, status: Status, count: nat) returns (s: Status)
    requires program.Holds(status) && status.Ordinary()
    modifies program
    ensures program.Holds(s) && s.Ordinary()
    ensures program.intended == Append(old(program.intended), Chunked(count, LoadStore(), Plain))
  {
    s := status;
    var left := count;
    ghost var target := Append(program.intended, Chunked(count, LoadStore(), Plain));
    while left > 0
      invariant program.Holds(s) && s.Ordinary()
      invariant Append(program.intended, Chunked(left, LoadStore(), Plain)) == target
    {
      var loopcount := Min(left, 256);
      if s != Success {
        program.Forgo(s, Chunked(left, LoadStore(), Plain));
        break;
      }
      AppendChunk(program.intended, left, LoadStore(), Plain);
      left := left - loopcount;
      if loopcount > 1 {
        s := program.Emit(s, Lp(loopcount));
      }
      s := program.Emit(s, Ld(Plain));
      s := program.Emit(s, St(Plain));
      if loopcount > 1 {
        s := program.Emit(s, LpEnd(Plain));
      }
    }
  }

  method EmitBurstPhase(program: Program, status: Status, count: nat) returns (s: Status)
    requires program.Holds(status) && status.Ordinary()
    modifies program
    ensures program.Holds(s) && s.Ordinary()
    ensures program.intended == Append(old(program.intended), BurstPhase(count))
  {
    s := status;
    var burstcount := count;
    if burstcount / 16 != 0 {
      var length16burstcount := burstcount / 16;
      burstcount := burstcount % 16;
      s := program.Emit(s, MovCcr(CopyCcr(8, 16)));
      s := EmitBursts(program, s, length16burstcount);
    }
    assert program.intended == Append(old(program.intended), FullBursts(count));
    if burstcount != 0 {
      s := EmitBurst(program, s, 8, burstcount);
    }
    AppendSeq(old(program.intended), FullBursts(count), LastBurst(count));
  }

  method EmitCorrection(program: Program, status: Status, dst: nat, src: nat, bursts: nat) returns (s: Status)
    requires program.Holds(status) && status.Ordinary()
    modifies program
    ensures program.Holds(s) && s.Ordinary()
    ensures program.intended == Append(old(program.intended), CorrectionPhase(dst, src, bursts))
  {
    s := status;
    if bursts != 0 && src % 8 != dst % 8 {
      var correctcount := (dst + (8 - src % 8)) % 8;
      s := program.Emit(s, MovCcr(CopyCcr(1, correctcount)));
      s := program.Emit(s, St(Plain));
    }
  }

  method MemoryToMemorySegment(program: Program, dst: nat, src: nat, size: nat) returns (status: Status)
    requires program.Holds(Success)
    modifies program
    ensures program.Holds(status) && status.Ordinary()
    ensures program.intended == Append(old(program.intended), CopySegment(dst, src, size))
  {
    var sizeleft := size;
    status := program.Emit(Success, MovSar(src));
    status := program.Emit(status, MovDar(dst));
    if src % 8 != 0 {
      var aligncount := Min(8 - src % 8, sizeleft);
      sizeleft := sizeleft - aligncount;
      status := EmitBurst(program, status, 1, aligncount);
    }
    var burstcount := sizeleft / 8;
    sizeleft := sizeleft % 8;
    assert burstcount == BurstCount(src, size);
    assert program.intended == Append(Append(old(program.intended), Addresses(dst, src)), AlignPhase(src, size));
    status := EmitBurstPhase(program, status, burstcount);
    status := EmitCorrection(program, status, dst, src, burstcount);
    if sizeleft != 0 {
      status := EmitBurst(program, status, 1, sizeleft);
    }
    AppendPhases(old(program.intended), Addresses(dst, src), AlignPhase(src, size), BurstPhase(burstcount),
                 CorrectionPhase(dst, src, burstcount), TailPhase(src, size));
  }

  lemma OneBurstWellFormed(size: nat, len: nat, free: nat)
    requires BeatSize(size) && 1 <= len <= 16
    ensures WellFormed(LoadStore(), free) && WellFormed(OneBurst(size, len), free)
  {
    assert WellFormed(Op(Ld(Plain)), free) && WellFormed(Op(St(Plain)), free);
    assert WellFormed(LoadStore(), free);
    assert WellFormed(Op(MovCcr(CopyCcr(size, len))), free);
  }

  lemma BurstPhaseWellFormed(bursts: nat)
    ensures WellFormed(BurstPhase(bursts), 1)
  {
    OneBurstWellFormed(8, 1, 0);
    ChunkedWellFormed(bursts / 16, LoadStore(), Plain, 1);
    assert WellFormed(FullBursts(bursts), 1) by {
      assert WellFormed(Op(MovCcr(CopyCcr(8, 16))), 1);
    }
    assert WellFormed(LastBurst(bursts), 1) by {
      if bursts % 16 != 0 { OneBurstWellFormed(8, bursts % 16, 1); }
    }
  }

  /** The program of a segment needs one loop counter, and its bursts are legal ones. */
  lemma CopySegmentWellFormed(dst: nat, src: nat, size: nat)
    requires 0 < size
    ensures WellFormed(CopySegment(dst, src, size), 1)
  {
    var bursts, tail := BurstCount(src, size), (size - AlignCount(src, size)) % 8;
    BurstPhaseWellFormed(bursts);
    assert WellFormed(AlignPhase(src, size), 1) by {
      if src % 8 != 0 { OneBurstWellFormed(1, AlignCount(src, size), 1); }
    }
    assert WellFormed(CorrectionPhase(dst, src, bursts), 1) by {
      if bursts != 0 && src % 8 != dst % 8 {
        CorrectionIsResidue(dst, src, size);
        assert WellFormed(Op(MovCcr(CopyCcr(1, CorrectCount(dst, src)))), 1) && WellFormed(Op(St(Plain)), 1);
      }
    }
    assert WellFormed(TailPhase(src, size), 1) by {
      if tail != 0 { OneBurstWellFormed(1, tail, 1); }
    }
    assert WellFormed(Seq(CorrectionPhase(dst, src, bursts), TailPhase(src, size)), 1);
    assert WellFormed(CopyPhases(dst, src, size), 1);
  }

  // ---- What the program of one pair of segments does to the marks ----

  function FirstLoad(src: nat, size: nat): nat {
    if src % 8 != 0 then AlignCount(src, size)
    else if size >= 128 then 128
    else if size >= 8 then size / 8 * 8
    else size
  }

  /** A copy for which the shape allows the first load, and the later ones if there are any. */
  predicate Copying(sh: Shape) {
    && sh.route.MemToMem? && 0 < sh.size
    && var first := FirstLoad(sh.route.src, sh.size);
       first <= sh.first && (first == sh.size || sh.size <= sh.later)
  }

  /** The source is aligned at `loaded`, and the destination is aligned at `stored` or both
      marks are level; r is the residue, which no whole burst changes. */
  predicate Poised(route: Route, loaded: nat, stored: nat, r: nat) {
    && route.MemToMem? && (route.src + loaded) % 8 == 0 && r == (route.dst + loaded) % 8
    && (stored == loaded || stored == loaded - r)
  }

  lemma PoisedAfter(route: Route, loaded: nat, stored: nat, r: nat, bursts: nat, next: nat)
    requires Poised(route, loaded, stored, r) && 0 < bursts && next == loaded + 8 * bursts
    ensures r < next && Poised(route, next, next - r, r)
  {
  }

  lemma LoadStoreMark(sh: Shape, m: Mark, k: Mark)
    requires MarkLoad(sh, m, m.ccr.srcLen) == Some(m.(loaded := k.loaded))
    requires MarkStore(sh, m.(loaded := k.loaded), m.ccr.dstLen) == Some(k)
    ensures MarkExec(sh, LoadStore(), m) == Some(k)
  {
    MarkSeq(sh, Op(Ld(Plain)), Op(St(Plain)), m, m.(loaded := k.loaded));
  }

  lemma BurstSizes(route: Route, loaded: nat, stored: nat, r: nat, len: nat, next: nat)
    requires Poised(route, loaded, stored, r) && 1 <= len <= 16 && stored <= loaded && next == loaded + 8 * len
    ensures LoadSize(route, loaded, CopyCcr(8, len), len) == 8 * len
    ensures StoreSize(route, stored, CopyCcr(8, len), len) == next - r - stored
  {
  }

  /** From an aligned source, with the destination mark either level with the source mark or
      already held back by the residue, a burst ends held back by the residue. */
  lemma BurstMark(sh: Shape, loaded: nat, stored: nat, r: nat, len: nat, next: nat, req: Request)
    requires Poised(sh.route, loaded, stored, r) && 1 <= len <= 16 && stored <= loaded
    requires next == loaded + 8 * len && MayLoad(sh, stored, next)
    ensures r < next
    ensures MarkExec(sh, LoadStore(), Mark(loaded, stored, CopyCcr(8, len), req))
         == Some(Mark(next, next - r, CopyCcr(8, len), req))
  {
    PoisedAfter(sh.route, loaded, stored, r, len, next);
    var m := Mark(loaded, stored, CopyCcr(8, len), req);
    BurstSizes(sh.route, loaded, stored, r, len, next);
    LoadStoreMark(sh, m, Mark(next, next - r, m.ccr, req));
  }

  /** The marks after i bursts of 16 beats. */
  function AfterBursts(loaded: nat, r: nat, req: Request, i: nat): Mark
    requires r < 8
  {
    var at := loaded + 128 * i;
    if i == 0 then Level(at, CopyCcr(8, 16), req) else Mark(at, at - r, CopyCcr(8, 16), req)
  }

  lemma NextBurst(sh: Shape, loaded: nat, r: nat, i: nat, req: Request)
    requires Poised(sh.route, loaded, loaded, r) && loaded + 128 * i + 128 <= sh.size
    requires if i == 0 then MayLoad(sh, loaded, loaded + 128) else loaded + 128 * i + 128 <= sh.later
    ensures MarkExec(sh, LoadStore(), AfterBursts(loaded, r, req, i)) == Some(AfterBursts(loaded, r, req, i + 1))
  {
    var at := loaded + 128 * i;
    if i > 0 { PoisedAfter(sh.route, loaded, loaded, r, 16 * i, at); }
    BurstMark(sh, at, if i == 0 then at else at - r, r, 16, at + 128, req);
  }

  lemma EachBurst(sh: Shape, k: nat, loaded: nat, r: nat, req: Request)
    requires Poised(sh.route, loaded, loaded, r) && loaded + 128 * k <= sh.size
    requires MayLoad(sh, loaded, loaded + 128) && (k == 1 || loaded + 128 * k <= sh.later)
    ensures forall i: nat | i < k ::
              MarkExec(sh, LoadStore(), AfterBursts(loaded, r, req, i)) == Some(AfterBursts(loaded, r, req, i + 1))
  {
    forall i: nat | i < k
      ensures MarkExec(sh, LoadStore(), AfterBursts(loaded, r, req, i)) == Some(AfterBursts(loaded, r, req, i + 1))
    {
      NextBurst(sh, loaded, r, i, req);
    }
  }

  lemma BurstsFollow(sh: Shape, k: nat, loaded: nat, r: nat, req: Request)
    requires Poised(sh.route, loaded, loaded, r) && loaded + 128 * k <= sh.size
    requires MayLoad(sh, loaded, loaded + 128) && (k == 1 || loaded + 128 * k <= sh.later)
    ensures MarkExec(sh, Chunked(k, LoadStore(), Plain), AfterBursts(loaded, r, req, 0))
         == Some(AfterBursts(loaded, r, req, k))
  {
    EachBurst(sh, k, loaded, r, req);
    ChunkedSteps(sh, LoadStore(), k, 0, (i: nat) => AfterBursts(loaded, r, req, i));
  }

  lemma BurstsChunked(sh: Shape, k: nat, loaded: nat, r: nat, next: nat, req: Request)
    requires Poised(sh.route, loaded, loaded, r) && 0 < k
    requires next == loaded + 128 * k <= sh.size && MayLoad(sh, loaded, loaded + 128) && (k == 1 || next <= sh.later)
    ensures r < next
    ensures MarkExec(sh, Chunked(k, LoadStore(), Plain), Level(loaded, CopyCcr(8, 16), req))
         == Some(Mark(next, next - r, CopyCcr(8, 16), req))
  {
    BurstsFollow(sh, k, loaded, r, req);
  }

  /** Bytes moved singly, with both marks level. */
  lemma SinglesMark(sh: Shape, done: nat, n: nat, next: nat, ccr: Ccr, req: Request)
    requires sh.route.MemToMem? && 1 <= n <= 16 && next == done + n && MayLoad(sh, done, next)
    ensures MarkExec(sh, OneBurst(1, n), Level(done, ccr, req)) == Some(Level(next, CopyCcr(1, n), req))
  {
    MarkSeq(sh, Op(MovCcr(CopyCcr(1, n))), LoadStore(), Level(done, ccr, req), Level(done, CopyCcr(1, n), req));
    LoadStoreMark(sh, Level(done, CopyCcr(1, n), req), Level(next, CopyCcr(1, n), req));
  }

  lemma FullBurstsMark(sh: Shape, bursts: nat, done: nat, r: nat, mid: nat, ccr: Ccr, req: Request)
    requires Poised(sh.route, done, done, r) && 16 <= bursts && mid == done + 128 * (bursts / 16) <= sh.size
    requires MayLoad(sh, done, done + 128) && (bursts / 16 == 1 || mid <= sh.later)
    ensures r < mid
    ensures MarkExec(sh, FullBursts(bursts), Level(done, ccr, req)) == Some(Mark(mid, mid - r, CopyCcr(8, 16), req))
  {
    var full := bursts / 16;
    BurstsChunked(sh, full, done, r, mid, req);
    MarkSeq(sh, Op(MovCcr(CopyCcr(8, 16))), Chunked(full, LoadStore(), Plain), Level(done, ccr, req),
            Level(done, CopyCcr(8, 16), req));
  }

  lemma LastBurstMark(sh: Shape, bursts: nat, m: Mark, r: nat, next: nat)
    requires Poised(sh.route, m.loaded, m.stored, r) && 0 < bursts % 16 && m.stored <= m.loaded
    requires next == m.loaded + 8 * (bursts % 16) && MayLoad(sh, m.stored, next)
    ensures r < next
    ensures MarkExec(sh, LastBurst(bursts), m) == Some(Mark(next, next - r, CopyCcr(8, bursts % 16), m.req))
  {
    var c := CopyCcr(8, bursts % 16);
    BurstMark(sh, m.loaded, m.stored, r, bursts % 16, next, m.req);
    MarkSeq(sh, Op(MovCcr(c)), LoadStore(), m, m.(ccr := c));
  }

  /** The 16-beat bursts, if there are any. */
  lemma FullBurstsMarks(sh: Shape, bursts: nat, done: nat, r: nat, mid: nat, ccr: Ccr, req: Request) returns (m: Mark)
    requires Poised(sh.route, done, done, r) && mid == done + 128 * (bursts / 16) <= sh.size
    requires 16 <= bursts ==> MayLoad(sh, done, done + 128) && (bursts / 16 == 1 || mid <= sh.later)
    ensures MarkExec(sh, FullBursts(bursts), Level(done, ccr, req)) == Some(m) && m.loaded == mid && m.req == req
    ensures m.stored <= mid && Poised(sh.route, mid, m.stored, r) && (16 <= bursts ==> m.stored == mid - r)
    ensures bursts < 16 ==> m == Level(done, ccr, req)
  {
    m := Level(done, ccr, req);
    if 16 <= bursts {
      PoisedAfter(sh.route, done, done, r, 16 * (bursts / 16), mid);
      FullBurstsMark(sh, bursts, done, r, mid, ccr, req);
      m := Mark(mid, mid - r, CopyCcr(8, 16), req);
    }
  }

  /** All the bursts together: everything is fetched, and the residue is left in the MFIFO. */
  lemma BurstPhaseMarks(sh: Shape, bursts: nat, done: nat, r: nat, next: nat, ccr: Ccr, req: Request) returns (c: Ccr)
    requires Poised(sh.route, done, done, r) && 0 < bursts && next == done + 8 * bursts <= sh.size
    requires MayLoad(sh, done, done + if bursts < 16 then 8 * bursts else 128) && (bursts <= 16 || next <= sh.later)
    ensures r < next && MarkExec(sh, BurstPhase(bursts), Level(done, ccr, req)) == Some(Mark(next, next - r, c, req))
  {
    var mid := done + 128 * (bursts / 16);
    var m := FullBurstsMarks(sh, bursts, done, r, mid, ccr, req);
    MarkSeq(sh, FullBursts(bursts), LastBurst(bursts), Level(done, ccr, req), m);
    c := m.ccr;
    if bursts % 16 != 0 {
      LastBurstMark(sh, bursts, m, r, next);
      c := CopyCcr(8, bursts % 16);
    }
  }

  /** The generator's correction is the residue: it drains the MFIFO exactly. */
  lemma CorrectionIsResidue(dst: nat, src: nat, size: nat)
    requires 0 < BurstCount(src, size)
    ensures (src + AlignCount(src, size)) % 8 == 0
    ensures (dst + AlignCount(src, size)) % 8 == if src % 8 == dst % 8 then 0 else CorrectCount(dst, src)
    ensures src % 8 != dst % 8 ==> 0 < CorrectCount(dst, src)
  {
  }

  lemma CorrectionMark(sh: Shape, loaded: nat, r: nat, ccr: Ccr, req: Request)
    requires sh.route.MemToMem? && 0 < r < 8 && r <= loaded
    ensures MarkExec(sh, Seq(Op(MovCcr(CopyCcr(1, r))), Op(St(Plain))), Mark(loaded, loaded - r, ccr, req))
         == Some(Level(loaded, CopyCcr(1, r), req))
  {
    MarkSeq(sh, Op(MovCcr(CopyCcr(1, r))), Op(St(Plain)), Mark(loaded, loaded - r, ccr, req),
            Mark(loaded, loaded - r, CopyCcr(1, r), req));
  }

  /** Where the marks stand after the aligning bytes, the bursts and the tail. */
  lemma PhaseSizes(src: nat, size: nat)
    requires 0 < size
    ensures var a, b := AlignCount(src, size), BurstCount(src, size);
            && a + 8 * b + (size - a) % 8 == size && a <= 7
            && (src % 8 != 0 ==> 0 < a == FirstLoad(src, size))
            && (src % 8 == 0 ==> a == 0)
            && (0 < b ==> (src + a) % 8 == 0)
            && (0 < a || 0 == b || FirstLoad(src, size) >= if b < 16 then 8 * b else 128)
            && (0 < a || 0 < b || FirstLoad(src, size) == size)
            && (FirstLoad(src, size) == size ==>
                  (0 == a || 0 == b) && b <= 16 && ((0 < a || 0 < b) ==> (size - a) % 8 == 0))
  {
  }

  lemma BurstsAndCorrectionMarks(sh: Shape, bursts: nat, a: nat, next: nat, ccr: Ccr, req: Request) returns (c: Ccr)
    requires Copying(sh) && a == AlignCount(sh.route.src, sh.size) && bursts == BurstCount(sh.route.src, sh.size)
    requires next == a + 8 * bursts <= sh.size
    ensures MarkExec(sh, Seq(BurstPhase(bursts), CorrectionPhase(sh.route.dst, sh.route.src, bursts)),
                     Level(a, ccr, req))
         == Some(Level(next, c, req))
  {
    var src, dst := sh.route.src, sh.route.dst;
    PhaseSizes(src, sh.size);
    c := ccr;
    if bursts != 0 {
      CorrectionIsResidue(dst, src, sh.size);
      var r := (dst + a) % 8;
      c := BurstPhaseMarks(sh, bursts, a, r, next, ccr, req);
      MarkSeq(sh, BurstPhase(bursts), CorrectionPhase(dst, src, bursts), Level(a, ccr, req),
              Mark(next, next - r, c, req));
      if r != 0 {
        CorrectionMark(sh, next, r, c, req);
        c := CopyCcr(1, r);
      }
    }
  }

  lemma MarkSeqAssoc(sh: Shape, a: Prog, b: Prog, c: Prog, m: Mark)
    ensures MarkExec(sh, Seq(a, Seq(b, c)), m) == MarkExec(sh, Seq(Seq(a, b), c), m)
  {
  }

  /** For every alignment of both sides, the whole segment is fetched and delivered, and the
      MFIFO ends empty. */
  lemma CopyPhasesMarks(sh: Shape, ccr: Ccr, req: Request) returns (c: Ccr)
    requires Copying(sh)
    ensures MarkExec(sh, CopyPhases(sh.route.dst, sh.route.src, sh.size), Level(0, ccr, req))
            == Some(Level(sh.size, c, req))
  {
    var src, dst, size := sh.route.src, sh.route.dst, sh.size;
    var a, bursts, tail := AlignCount(src, size), BurstCount(src, size), (size - AlignCount(src, size)) % 8;
    PhaseSizes(src, size);
    var next := a + 8 * bursts;
    var c1 := ccr;
    if src % 8 != 0 {
      c1 := CopyCcr(1, a);
      SinglesMark(sh, 0, a, a, ccr, req);
    }
    assert MarkExec(sh, AlignPhase(src, size), Level(0, ccr, req)) == Some(Level(a, c1, req));
    var c2 := BurstsAndCorrectionMarks(sh, bursts, a, next, c1, req);
    c := c2;
    if tail != 0 {
      c := CopyCcr(1, tail);
      SinglesMark(sh, next, tail, size, c2, req);
    }
    var middle := Seq(BurstPhase(bursts), CorrectionPhase(dst, src, bursts));
    MarkSeq(sh, middle, TailPhase(src, size), Level(a, c1, req), Level(next, c2, req));
    MarkSeqAssoc(sh, BurstPhase(bursts), CorrectionPhase(dst, src, bursts), TailPhase(src, size), Level(a, c1, req));
    MarkSeq(sh, AlignPhase(src, size),
            Seq(BurstPhase(bursts), Seq(CorrectionPhase(dst, src, bursts), TailPhase(src, size))),
            Level(0, ccr, req), Level(a, c1, req));
  }

  // ---- What it does to the state ----

  lemma CopySegmentRuns(j: Job, sh: Shape) returns (c: Ccr)
    requires j.route.MemToMem? && Supplied(j, sh) && Copying(sh) && j.start.fifo == []
    ensures Exec(CopySegment(j.route.dst, j.route.src, |j.data|), j.start)
         == Ok(At(j, |j.data|, |j.data|, c, j.start.req))
  {
    var s := j.start;
    assert Exec(Addresses(j.route.dst, j.route.src), s) == Ok(At(j, 0, 0, s.ccr, s.req)) by {
      assert Splice(s.mem, j.route.dst, j.data[..0]) == s.mem;
      ExecSeq(Op(MovSar(j.route.src)), Op(MovDar(j.route.dst)), s, s.(sar := j.route.src));
    }
    c := CopyPhasesMarks(sh, s.ccr, s.req);
    StateFollowsMarks(j, sh, CopyPhases(j.route.dst, j.route.src, |j.data|), Level(0, s.ccr, s.req),
                      Level(|j.data|, c, s.req));
    ExecSeq(Addresses(j.route.dst, j.route.src), CopyPhases(j.route.dst, j.route.src, |j.data|), s,
            At(j, 0, 0, s.ccr, s.req));
  }

  /** The state after a copy of `data` to dst. */
  function Copied(s: State, dst: nat, src: nat, data: seq<Byte>, c: Ccr): State
    requires dst + |data| <= |s.mem|
  {
    s.(mem := Splice(s.mem, dst, data), sar := src + |data|, dar := dst + |data|, ccr := c)
  }

  lemma AllDelivered(j: Job, c: Ccr)
    requires j.route.MemToMem? && Fits(j) && j.start.fifo == []
    ensures At(j, |j.data|, |j.data|, c, j.start.req) == Copied(j.start, j.route.dst, j.route.src, j.data, c)
  {
    assert j.data[..|j.data|] == j.data && j.data[|j.data|..|j.data|] == [];
  }

  /** A segment that does not run into the rest of its own source is copied exactly: these
      bytes and no others change, and no data stays behind. */
  lemma SegmentCopies(s: State, dst: nat, src: nat, size: nat) returns (c: Ccr)
    requires 0 < size && src + size <= |s.mem| && dst + size <= |s.mem| && s.fifo == []
    requires dst <= src || src + size <= dst
    ensures Exec(CopySegment(dst, src, size), s) == Ok(Copied(s, dst, src, s.mem[src..src + size], c))
  {
    var j := Job(s, MemToMem(src, dst), s.mem[src..src + size]);
    ValidSupplied(j);
    c := CopySegmentRuns(j, Whole(j));
    AllDelivered(j, c);
  }

  // ---- Buffers that share one byte ----

  /** What is delivered when the first byte of the destination is the last byte of the source:
      unless one load fetches everything, that byte is overwritten before it is fetched. */
  function LastByteLost(data: seq<Byte>, first: nat): seq<Byte>
    requires data != []
  {
    if first < |data| then data[|data| - 1 := data[0]] else data
  }

  /** Byte i of the source, once `stored` bytes have been delivered: it is as it was, unless it
      is the shared byte and that has been overwritten. */
  lemma SharedByteAt(mem: seq<Byte>, src: nat, size: nat, delivered: seq<Byte>, stored: nat, i: nat)
    requires 2 <= size == |delivered| && src + size - 1 + size <= |mem| && stored <= size && i < size
    ensures Splice(mem, src + size - 1, delivered[..stored])[src + i]
         == if i < size - 1 || stored == 0 then mem[src + i] else delivered[0]
  {
    SpliceAt(mem, src + size - 1, delivered[..stored]);
  }

  lemma SharedByteIntact(mem: seq<Byte>, src: nat, size: nat, delivered: seq<Byte>, loaded: nat, stored: nat, n: nat)
    requires 2 <= size == |delivered| && src + size - 1 + size <= |mem| && stored <= loaded && loaded + n <= size
    requires forall i | loaded <= i < loaded + n ::
      delivered[i] == if i < size - 1 || stored == 0 then mem[src + i] else delivered[0]
    ensures Splice(mem, src + size - 1, delivered[..stored])[src + loaded..src + loaded + n]
            == delivered[loaded..loaded + n]
  {
    var x := Splice(mem, src + size - 1, delivered[..stored])[src + loaded..src + loaded + n];
    var y := delivered[loaded..loaded + n];
    forall i | 0 <= i < n ensures x[i] == y[i] {
      SharedByteAt(mem, src, size, delivered, stored, loaded + i);
    }
  }

  lemma SharedByteSupplied(s: State, src: nat, size: nat, j: Job, first: nat)
    requires 2 <= size && src + size - 1 + size <= |s.mem| && first <= size
    requires j == Job(s, MemToMem(src, src + size - 1), LastByteLost(s.mem[src..src + size], first))
    ensures Supplied(j, Shape(j.route, size, first, if first < size then size else 0))
  {
    var sh := Shape(j.route, size, first, if first < size then size else 0);
    forall loaded: nat, stored: nat, n: nat
      | stored <= loaded && loaded + n <= size && MayLoad(sh, stored, loaded + n)
      ensures Intact(j, loaded, stored, n)
    {
      SharedByteIntact(s.mem, src, size, j.data, loaded, stored, n);
    }
  }

  /** What the program of a segment does when the two sides share exactly one byte. */
  lemma SharedByteCopies(s: State, src: nat, size: nat) returns (c: Ccr)
    requires 2 <= size && src + size - 1 + size <= |s.mem| && s.fifo == []
    ensures Exec(CopySegment(src + size - 1, src, size), s)
         == Ok(Copied(s, src + size - 1, src, LastByteLost(s.mem[src..src + size], FirstLoad(src, size)), c))
  {
    var first := FirstLoad(src, size);
    var j := Job(s, MemToMem(src, src + size - 1), LastByteLost(s.mem[src..src + size], first));
    SharedByteSupplied(s, src, size, j, first);
    c := CopySegmentRuns(j, Shape(j.route, size, first, if first < size then size else 0));
    AllDelivered(j, c);
  }
}
