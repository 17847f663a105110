/** Whole memory to memory requests: source and destination segments are paired off and
    copied piece by piece. */
module BufferCopy {
  import opened Bytes
  import opened Options
  import opened Pl330
  import opened Assembler
  import opened Closing
  import opened Coalescing
  import opened MemoryCopy

  /** The largest piece that stays inside the first segment on both sides. */
  function Piece(dst: seq<Segment>, src: seq<Segment>): nat {
    if dst == [] || src == [] then 0 else Min(dst[0].size, src[0].size)
  }

  lemma TrimTotal(segs: seq<Segment>, n: nat)
    requires segs != [] && n <= segs[0].size
    ensures Total(Trim(segs, n)) == Total(segs) - n
  {
    if n < segs[0].size { assert Trim(segs, n)[1..] == segs[1..]; }
  }

  function PairProgram(dst: seq<Segment>, src: seq<Segment>): Prog
    decreases Total(dst)
  {
    var n := Piece(dst, src);
    if n == 0 then Skip
    else
      TrimTotal(dst, n);
      Seq(CopySegment(dst[0].pa, src[0].pa, n), PairProgram(Trim(dst, n), Trim(src, n)))
  }

  function CopyText(dst: seq<Segment>, src: seq<Segment>, event: Option<nat>): seq<Instr> {
    ProgramText(PairProgram(dst, src), event, true)
  }

  /** A copy with an event waits for its writes before it. */
  lemma CopyEnds(dst: seq<Segment>, src: seq<Segment>, event: Option<nat>)
    ensures CopyText(dst, src, event)
         == Flatten(PairProgram(dst, src)) + if event.Some? then [Wmb, Sev(event.value), End] else [End]
  {
    LastInstructions(PairProgram(dst, src), event, true);
  }

  /** The test for overlapping buffers, in 32-bit arithmetic. */
  predicate SeenToOverlap(dst: nat, src: nat, size: nat) {
    if dst > src then (src + size + ADDRESS_SPACE - 1) % ADDRESS_SPACE > dst
    else (dst + size + ADDRESS_SPACE - 1) % ADDRESS_SPACE > src
  }

  /** A segment in progress and the segments behind it. */
  function Pending(pa: nat, size: nat, rest: seq<Segment>): seq<Segment> {
    if size == 0 then rest else [Segment(pa, size)] + rest
  }

  lemma PieceLeaves(ds: seq<Segment>, ss: seq<Segment>, size: nat)
    requires Covers(ds, size) && Covers(ss, size) && 0 < size
    ensures ds != [] && ss != [] && 0 < Piece(ds, ss) <= size
    ensures var n := Piece(ds, ss); Covers(Trim(ds, n), size - n) && Covers(Trim(ss, n), size - n)
  {
    TrimProper(ds, Piece(ds, ss), ADDRESS_SPACE);
    TrimProper(ss, Piece(ds, ss), ADDRESS_SPACE);
  }

  lemma AppendPair(code: Code, ds: seq<Segment>, ss: seq<Segment>, n: nat)
    requires 0 < n == Piece(ds, ss)
    ensures Append(code, PairProgram(ds, ss))
         == Append(Append(code, CopySegment(ds[0].pa, ss[0].pa, n)), PairProgram(Trim(ds, n), Trim(ss, n)))
  {
    AppendSeq(code, CopySegment(ds[0].pa, ss[0].pa, n), PairProgram(Trim(ds, n), Trim(ss, n)));
  }

  /** Takes the next segment when the one in progress is done. */
  method Refill(c: Coalescer, pa: nat, size: nat) returns (status: Status, pa': nat, size': nat)
    requires Pending(pa, size, c.left) != [] && 0 < Pending(pa, size, c.left)[0].size
    modifies c
    ensures status == Success && 0 < size'
    ensures Pending(pa', size', c.left) == old(Pending(pa, size, c.left))
  {
    status, pa', size' := Success, pa, size;
    if size == 0 {
      status, pa', size' := c.Next();
    }
  }

  /** Moves on by n bytes inside the segment in progress. */
  method Consume(pa: nat, size: nat, n: nat, ghost rest: seq<Segment>) returns (pa': nat, size': nat)
    requires 0 < n <= size
    ensures Pending(pa', size', rest) == Trim(Pending(pa, size, rest), n)
  {
    pa', size' := pa, size - n;
    if size' != 0 {
      pa' := pa + n;
    }
    assert ([Segment(pa, size)] + rest)[1..] == rest;
  }

  /** Pairs off the two lists: neither runs out before the other. */
  method EmitPairs(program: Program, size: nat, dst: Coalescer, src: Coalescer) returns (s: Status)
    requires program.Holds(Success) && dst != src
    requires Covers(dst.left, size) && Covers(src.left, size)
    modifies program, dst, src
    ensures program.Holds(s) && s.Ordinary()
    ensures program.intended == Append(old(program.intended), PairProgram(old(dst.left), old(src.left)))
    ensures s == Success ==> dst.left == [] && src.left == []
  {
    s := Success;
    var sizeleft: nat := size;
    var segpaDst: nat, segpaSrc: nat, segsizeDst: nat, segsizeSrc: nat := 0, 0, 0, 0;
    ghost var ds, ss := dst.left, src.left;
    ghost var target := Append(program.intended, PairProgram(ds, ss));
    while sizeleft > 0
      invariant program.Holds(s) && s.Ordinary()
      invariant ds == Pending(segpaDst, segsizeDst, dst.left) && ss == Pending(segpaSrc, segsizeSrc, src.left)
      invariant Covers(ds, sizeleft) && Covers(ss, sizeleft)
      invariant Append(program.intended, PairProgram(ds, ss)) == target
    {
      if s != Success {
        program.Forgo(s, PairProgram(ds, ss));
        break;
      }
      PieceLeaves(ds, ss, sizeleft);
      s, segpaDst, segsizeDst := Refill(dst, segpaDst, segsizeDst);
      s, segpaSrc, segsizeSrc := Refill(src, segpaSrc, segsizeSrc);
      var segsize := Min(segsizeDst, segsizeSrc);
      AppendPair(program.intended, ds, ss, segsize);
      s := MemoryToMemorySegment(program, segpaDst, segpaSrc, segsize);
      segpaDst, segsizeDst := Consume(segpaDst, segsizeDst, segsize, dst.left);
      segpaSrc, segsizeSrc := Consume(segpaSrc, segsizeSrc, segsize, src.left);
      ds, ss := Trim(ds, segsize), Trim(ss, segsize);
      sizeleft := sizeleft - Min(segsize, sizeleft);
    }
  }

  /** What generating a request comes to: refused, too long for the buffer, or the program. */
  method MemoryToMemory(
    program: Program, dst: nat, src: nat, size: nat, sendEvent: bool, evt: nat,
    dstSegs: seq<Segment>, srcSegs: seq<Segment>) returns (status: Status)
    requires dst < ADDRESS_SPACE && src < ADDRESS_SPACE && size < ADDRESS_SPACE
    requires Covers(dstSegs, size) && Covers(srcSegs, size)
    modifies program
    ensures size == 0 && !sendEvent ==> status == Success && program.code == old(program.code)
    ensures size != 0 || sendEvent ==>
      var text := CopyText(dstSegs, srcSegs, Wanted(sendEvent, evt));
      && status == (if size != 0 && SeenToOverlap(dst, src, size) then BadArg
                    else if size != 0 && !(InAddressSpace(dst, size) && InAddressSpace(src, size)) then Error
                    else if program.capacity < |text| then BufferFull
                    else Success)
      && program.code == if status == Success then text else []
  {
    if size == 0 && !sendEvent {
      return Success;
    }
    status := program.Init();
    if size != 0 {
      if SeenToOverlap(dst, src, size) {
        return BadArg;
      }
      var coalesceDst := new Coalescer([]);
      var coalesceSrc := new Coalescer([]);
      status := coalesceDst.Begin(dst, size, dstSegs);
      if status == Success {
        status := coalesceSrc.Begin(src, size, srcSegs);
      }
      if status == Success {
        status := EmitPairs(program, size, coalesceDst, coalesceSrc);
      }
      if status == Success {
        status := coalesceDst.End();
      }
      if status == Success {
        status := coalesceSrc.End();
      }
    }
    status := Finish(program, status, sendEvent, evt, true, PairProgram(dstSegs, srcSegs));
  }

  // ---- What the program does ----

  lemma {:induction false} PairProgramWellFormed(dst: seq<Segment>, src: seq<Segment>)
    ensures WellFormed(PairProgram(dst, src), 2)
    decreases Total(dst)
  {
    var n := Piece(dst, src);
    if n != 0 {
      TrimTotal(dst, n);
      CopySegmentWellFormed(dst[0].pa, src[0].pa, n);
      WellFormedMonotone(CopySegment(dst[0].pa, src[0].pa, n), 1, 2);
      PairProgramWellFormed(Trim(dst, n), Trim(src, n));
    }
  }

  /** Only memory and the address and control registers have changed. */
  predicate Quiet(s: State, t: State) {
    t.fifo == [] && t.rx == s.rx && t.trace == s.trace && t.req == s.req
  }

  /** However the two buffers are cut into segments, byte i of the source reaches byte i of
      the destination, once, and nothing else changes. */
  lemma {:induction false} PairsRun(s: State, dst: seq<Segment>, src: seq<Segment>) returns (t: State)
    requires Proper(dst, |s.mem|) && Proper(src, |s.mem|) && Total(dst) == Total(src)
    requires Distinct(dst) && AllApart(dst, src) && s.fifo == []
    ensures Exec(PairProgram(dst, src), s) == Ok(t) && Quiet(s, t) && Moved(s.mem, t.mem, dst, src)
    decreases Total(dst)
  {
    var n := Piece(dst, src);
    if n == 0 {
      t := s;
    } else {
      var to, from := dst[0].pa, src[0].pa;
      TrimProper(dst, n, |s.mem|);
      TrimProper(src, n, |s.mem|);
      TrimDistinct(dst, n);
      TrimApart(dst, src, n, n);
      var c := SegmentCopies(s, to, from, n);
      var mid := Copied(s, to, from, s.mem[from..from + n], c);
      t := PairsRun(mid, Trim(dst, n), Trim(src, n));
      ExecSeq(CopySegment(to, from, n), PairProgram(Trim(dst, n), Trim(src, n)), s, mid);
      SplicePieceMoved(s.mem, to, from, n);
      MovedInSteps(s.mem, mid.mem, t.mem, dst, src, n);
    }
  }

  /** What the controller does with the program of a request whose buffers do not overlap: it
      halts, with the buffer copied and nothing else in memory changed, nothing left in the
      MFIFO, and no more than the event sent. */
  lemma CopyHalts(s: State, dst: seq<Segment>, src: seq<Segment>, event: Option<nat>) returns (t: State)
    requires Proper(dst, |s.mem|) && Proper(src, |s.mem|) && Total(dst) == Total(src)
    requires Distinct(dst) && AllApart(dst, src) && s.fifo == []
    ensures Reaches(CopyText(dst, src, event), Running(0, [], s), Halted(t))
    ensures Moved(s.mem, t.mem, dst, src) && t.fifo == [] && t.rx == s.rx && t.trace == s.trace + Signals(event)
  {
    var mid := PairsRun(s, dst, src);
    PairProgramWellFormed(dst, src);
    t := RequestHalts(PairProgram(dst, src), event, true, s, mid);
  }

  // ---- The overlap test ----

  /** How many bytes two buffers of the same size have in common. */
  function Shared(a: nat, b: nat, size: nat): nat {
    var apart := if a < b then b - a else a - b;
    if apart < size then size - apart else 0
  }

  /** Inside the address space the test refuses exactly the buffers that share two bytes or
      more: one shared byte gets through. */
  lemma GuardSeesTwoSharedBytes(dst: nat, src: nat, size: nat)
    requires 0 < size && InAddressSpace(dst, size) && InAddressSpace(src, size)
    ensures SeenToOverlap(dst, src, size) <==> 2 <= Shared(dst, src, size)
  {
    var end := if dst > src then src + size - 1 else dst + size - 1;
    assert (end + ADDRESS_SPACE) % ADDRESS_SPACE == end;
  }

  /** The one shared byte matters: it is the last of the source and the first of the
      destination, it is overwritten before it is fetched, and it was not equal to what
      overwrites it. */
  predicate LastByteSpoilt(mem: seq<Byte>, dst: nat, src: nat, size: nat)
    requires 0 < size && src + size <= |mem|
  {
    src < dst && dst == src + size - 1 && FirstLoad(src, size) < size && mem[src] != mem[dst]
  }

  /** Two contiguous buffers that have no byte in common, or in which no byte is fetched after it
      has been overwritten but perhaps the last: the program copies if and only if that one is
      not spoilt; either way nothing outside the destination changes. */
  lemma ContiguousCopies(s: State, dst: nat, src: nat, size: nat) returns (t: State)
    requires 0 < size && src + size <= |s.mem| && dst + size <= |s.mem| && s.fifo == []
    requires dst <= src || src + size - 1 <= dst
    ensures Exec(PairProgram([Segment(dst, size)], [Segment(src, size)]), s) == Ok(t)
    ensures Quiet(s, t) && |t.mem| == |s.mem|
    ensures forall a: nat | a < |s.mem| && !(dst <= a < dst + size) :: t.mem[a] == s.mem[a]
    ensures t.mem[dst..dst + size] == s.mem[src..src + size] <==> !LastByteSpoilt(s.mem, dst, src, size)
  {
    var data, delivered, c := s.mem[src..src + size], s.mem[src..src + size], s.ccr;
    if src < dst && dst == src + size - 1 {
      delivered := LastByteLost(data, FirstLoad(src, size));
      c := SharedByteCopies(s, src, size);
    } else {
      c := SegmentCopies(s, dst, src, size);
    }
    t := Copied(s, dst, src, delivered, c);
    PairsOnce(s, dst, src, size, t);
    SpliceFound(s.mem, dst, delivered);
    DeliveredUnlessSpoilt(s.mem, dst, src, size, data, delivered);
  }

  /** The same for every two contiguous buffers that the test lets through. */
  lemma CopiesExactlyWhen(s: State, dst: nat, src: nat, size: nat) returns (t: State)
    requires 0 < size && src + size <= |s.mem| && dst + size <= |s.mem| <= ADDRESS_SPACE && s.fifo == []
    requires !SeenToOverlap(dst, src, size)
    ensures Exec(PairProgram([Segment(dst, size)], [Segment(src, size)]), s) == Ok(t)
    ensures Quiet(s, t) && |t.mem| == |s.mem|
    ensures forall a: nat | a < |s.mem| && !(dst <= a < dst + size) :: t.mem[a] == s.mem[a]
    ensures t.mem[dst..dst + size] == s.mem[src..src + size] <==> !LastByteSpoilt(s.mem, dst, src, size)
  {
    GuardSeesTwoSharedBytes(dst, src, size);
    t := ContiguousCopies(s, dst, src, size);
  }

  lemma SpliceFound(mem: seq<Byte>, a: nat, bs: seq<Byte>)
    requires a + |bs| <= |mem|
    ensures Splice(mem, a, bs)[a..a + |bs|] == bs
    ensures forall i: nat | i < |mem| && !(a <= i < a + |bs|) :: Splice(mem, a, bs)[i] == mem[i]
  {
    SpliceAt(mem, a, bs);
  }

  lemma DeliveredUnlessSpoilt(mem: seq<Byte>, dst: nat, src: nat, size: nat, data: seq<Byte>, delivered: seq<Byte>)
    requires 0 < size && src + size <= |mem| && data == mem[src..src + size]
    requires delivered == if src < dst && dst == src + size - 1 then LastByteLost(data, FirstLoad(src, size)) else data
    ensures delivered == data <==> !LastByteSpoilt(mem, dst, src, size)
  {
    assert delivered[size - 1] != data[size - 1] ==> delivered != data;
    assert data[size - 1] == mem[src + size - 1] && data[0] == mem[src];
  }

  lemma PairsOnce(s: State, dst: nat, src: nat, size: nat, t: State)
    requires 0 < size && Exec(CopySegment(dst, src, size), s) == Ok(t)
    ensures Exec(PairProgram([Segment(dst, size)], [Segment(src, size)]), s) == Ok(t)
  {
    var ds, ss := [Segment(dst, size)], [Segment(src, size)];
    assert Trim(ds, size) == [] && Trim(ss, size) == [];
    assert PairProgram([], []) == Skip;
    ExecSeq(CopySegment(dst, src, size), PairProgram([], []), s, t);
  }

  /** A request that is accepted and not carried out. */
  lemma SharedByteCounterexample(s: State) returns (t: State)
    requires |s.mem| == 512 && s.fifo == [] && s.mem[0] == 0 && s.mem[128] == 1
    ensures !SeenToOverlap(128, 0, 129)
    ensures Exec(PairProgram([Segment(128, 129)], [Segment(0, 129)]), s) == Ok(t)
    ensures |t.mem| == 512 && t.mem[128..257] != s.mem[0..129]
  {
    GuardSeesTwoSharedBytes(128, 0, 129);
    t := CopiesExactlyWhen(s, 128, 0, 129);
  }
}
