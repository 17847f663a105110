/** Copies between segmented buffers that have a byte in common.  The overlap test looks at virtual
    addresses and lets one shared byte through, the first of the one buffer and the last of the
    other; where that is in physical memory depends on the translation. */
module SharedBytes {
  import opened Bytes
  import opened Pl330
  import opened Coalescing
  import opened MemoryCopy
  import opened BufferCopy

  // ---- From addresses to segments ----

  lemma InFirst(segs: seq<Segment>, a: nat)
    requires segs != []
    ensures Within(segs[0], a) ==> a - segs[0].pa < Total(segs) && Address(segs, a - segs[0].pa) == a
  {
  }

  /** An address in both, if they overlap. */
  function CommonPoint(a: Segment, b: Segment): (p: nat)
    ensures 0 < a.size && 0 < b.size && !Apart(a, b) ==> Within(a, p) && Within(b, p)
  {
    if a.pa <= b.pa then b.pa else a.pa
  }

  lemma {:induction false} ApartByAddress(a: Segment, segs: seq<Segment>, limit: nat)
    requires 0 < a.size && Proper(segs, limit)
    requires forall k: nat | k < Total(segs) :: !Within(a, Address(segs, k))
    ensures ApartFrom(a, segs)
  {
    if segs != [] {
      var b, rest := segs[0], segs[1..];
      InFirst(segs, CommonPoint(a, b));
      forall k: nat | k < Total(rest) ensures !Within(a, Address(rest, k)) {
        assert Address(segs, b.size + k) == Address(rest, k);
      }
      ApartByAddress(a, rest, limit);
    }
  }

  lemma {:induction false} AllApartByAddress(dst: seq<Segment>, src: seq<Segment>, limit: nat)
    requires Proper(dst, limit) && Proper(src, limit)
    requires forall i: nat, j: nat | i < Total(dst) && j < Total(src) :: Address(dst, i) != Address(src, j)
    ensures AllApart(dst, src)
  {
    if dst != [] {
      var a, rest := dst[0], dst[1..];
      forall j: nat | j < Total(src) ensures !Within(a, Address(src, j)) {
        InFirst(dst, Address(src, j));
      }
      ApartByAddress(a, src, limit);
      forall i: nat, j: nat | i < Total(rest) && j < Total(src) ensures Address(rest, i) != Address(src, j) {
        assert Address(dst, a.size + i) == Address(rest, i);
      }
      AllApartByAddress(rest, src, limit);
    }
  }

  lemma {:induction false} DistinctByAddress(segs: seq<Segment>, limit: nat)
    requires Proper(segs, limit)
    requires forall i: nat, j: nat | i < j < Total(segs) :: Address(segs, i) != Address(segs, j)
    ensures Distinct(segs)
  {
    if segs != [] {
      var a, rest := segs[0], segs[1..];
      forall k: nat | k < Total(rest) ensures !Within(a, Address(rest, k)) {
        assert Address(segs, a.size + k) == Address(rest, k);
        InFirst(segs, Address(rest, k));
      }
      ApartByAddress(a, rest, limit);
      forall i: nat, j: nat | i < j < Total(rest) ensures Address(rest, i) != Address(rest, j) {
        assert Address(segs, a.size + i) == Address(rest, i) && Address(segs, a.size + j) == Address(rest, j);
      }
      DistinctByAddress(rest, limit);
    }
  }

  // ---- Buffers that meet at their ends ----

  /** No physical byte is in both buffers, unless it is the first of the one and the last of the
      other. */
  ghost predicate MeetAtEnds(dst: seq<Segment>, src: seq<Segment>)
    requires Total(dst) == Total(src)
  {
    forall i: nat, j: nat | i < Total(dst) && j < Total(src) && Address(dst, i) == Address(src, j) ::
      (i == 0 && j + 1 == Total(src)) || (j == 0 && i + 1 == Total(dst))
  }

  /** The first byte of the destination is the last of the source; it is overwritten before it is
      fetched, as the copy is made in several pieces or its only piece in several loads; and it
      was not equal to what overwrites it. */
  predicate EndSpoilt(mem: seq<Byte>, dst: seq<Segment>, src: seq<Segment>)
    requires 0 < Total(dst) == Total(src) && Proper(dst, |mem|) && Proper(src, |mem|)
  {
    var size := Total(src);
    AddressInMemory(src, 0, |mem|);
    AddressInMemory(src, size - 1, |mem|);
    && Address(dst, 0) == Address(src, size - 1)
    && (Piece(dst, src) < size || FirstLoad(src[0].pa, size) < size)
    && mem[Address(src, 0)] != mem[Address(src, size - 1)]
  }

  /** Byte k of the source has arrived. */
  ghost predicate Arrived(before: seq<Byte>, after: seq<Byte>, dst: seq<Segment>, src: seq<Segment>, k: nat) {
    InMemory(dst, k, |after|) && InMemory(src, k, |before|) && after[Address(dst, k)] == before[Address(src, k)]
  }

  ghost predicate AllArrived(before: seq<Byte>, after: seq<Byte>, dst: seq<Segment>, src: seq<Segment>) {
    forall k: nat | k < Total(dst) :: Arrived(before, after, dst, src, k)
  }

  /** Nothing outside the destination has changed. */
  ghost predicate RestKept(before: seq<Byte>, after: seq<Byte>, dst: seq<Segment>) {
    |after| == |before| && forall a: nat | a < |before| && Outside(a, dst) :: after[a] == before[a]
  }

  // ---- One piece ----

  lemma SomeBytes(segs: seq<Segment>, limit: nat)
    requires Proper(segs, limit)
    ensures segs == [] <==> Total(segs) == 0
  {
  }

  lemma OneSegment(segs: seq<Segment>, limit: nat)
    requires Proper(segs, limit) && segs != [] && segs[0].size == Total(segs)
    ensures segs == [segs[0]] && forall k: nat | k < Total(segs) :: Address(segs, k) == segs[0].pa + k
  {
    SomeBytes(segs[1..], limit);
  }

  predicate IsOne(segs: seq<Segment>, pa: nat, size: nat) {
    segs == [Segment(pa, size)]
  }

  lemma OneAddress(segs: seq<Segment>, pa: nat, size: nat, k: nat)
    requires IsOne(segs, pa, size) && k < size
    ensures k < Total(segs) == size && Address(segs, k) == pa + k
  {
  }

  lemma OneArrives(
    before: seq<Byte>, after: seq<Byte>, dst: seq<Segment>, src: seq<Segment>, to: nat, from: nat, size: nat)
    requires IsOne(dst, to, size) && IsOne(src, from, size) && |after| == |before|
    requires to + size <= |before| && from + size <= |before|
    ensures AllArrived(before, after, dst, src) <==> after[to..to + size] == before[from..from + size]
  {
    var delivered, data := after[to..to + size], before[from..from + size];
    forall k: nat | k < size ensures Arrived(before, after, dst, src, k) <==> delivered[k] == data[k] {
      OneAddress(dst, to, size, k);
      OneAddress(src, from, size, k);
    }
    if AllArrived(before, after, dst, src) {
      forall k: nat | k < size ensures delivered[k] == data[k] {
        assert Arrived(before, after, dst, src, k);
      }
    }
  }

  lemma OneSpoilt(mem: seq<Byte>, dst: seq<Segment>, src: seq<Segment>, to: nat, from: nat, size: nat)
    requires IsOne(dst, to, size) && IsOne(src, from, size) && 0 < size
    requires to + size <= |mem| && from + size <= |mem| && Proper(dst, |mem|) && Proper(src, |mem|)
    ensures Total(dst) == Total(src) == size
    ensures EndSpoilt(mem, dst, src) <==> LastByteSpoilt(mem, to, from, size)
  {
    OneAddress(dst, to, size, 0);
    OneAddress(src, from, size, 0);
    OneAddress(src, from, size, size - 1);
  }

  lemma OnePieceCopies(s: State, dst: seq<Segment>, src: seq<Segment>) returns (t: State)
    requires Proper(dst, |s.mem|) && Proper(src, |s.mem|) && 0 < Total(dst) == Total(src) == Piece(dst, src)
    requires MeetAtEnds(dst, src) && s.fifo == []
    ensures Exec(PairProgram(dst, src), s) == Ok(t) && Quiet(s, t) && RestKept(s.mem, t.mem, dst)
    ensures AllArrived(s.mem, t.mem, dst, src) <==> !EndSpoilt(s.mem, dst, src)
  {
    var to, from, size := dst[0].pa, src[0].pa, Total(dst);
    OneSegment(dst, |s.mem|);
    OneSegment(src, |s.mem|);
    InFirst(src, to);
    assert Address(dst, 0) == to;
    t := ContiguousCopies(s, to, from, size);
    OneArrives(s.mem, t.mem, dst, src, to, from, size);
    OneSpoilt(s.mem, dst, src, to, from, size);
  }

  // ---- Several pieces ----

  /** What is behind the first piece has no byte in common. */
  lemma RestApart(dst: seq<Segment>, src: seq<Segment>, n: nat, limit: nat)
    requires Proper(dst, limit) && Proper(src, limit) && Total(dst) == Total(src) && MeetAtEnds(dst, src)
    requires 0 < n == Piece(dst, src)
    ensures Proper(Trim(dst, n), limit) && Proper(Trim(src, n), limit)
    ensures Total(Trim(dst, n)) == Total(Trim(src, n)) == Total(dst) - n
    ensures AllApart(Trim(dst, n), Trim(src, n))
  {
    TrimProper(dst, n, limit);
    TrimProper(src, n, limit);
    forall i: nat, j: nat | i < Total(Trim(dst, n)) && j < Total(Trim(src, n))
      ensures Address(Trim(dst, n), i) != Address(Trim(src, n), j)
    {
      TrimAddress(dst, n, n + i);
      TrimAddress(src, n, n + j);
    }
    AllApartByAddress(Trim(dst, n), Trim(src, n), limit);
  }

  /** A byte behind the first piece, as the other pieces find it: as it was, unless it is the shared
      one, which the first piece has overwritten. */
  lemma LaterFound(
    before: seq<Byte>, mid: seq<Byte>, dst: seq<Segment>, src: seq<Segment>, n: nat, k: nat)
    requires Proper(dst, |before|) && Proper(src, |before|) && Total(dst) == Total(src) && MeetAtEnds(dst, src)
    requires 0 < n == Piece(dst, src) && n <= k < Total(src)
    requires PieceMoved(before, mid, dst[0].pa, src[0].pa, n)
    ensures InMemory(src, k, |before|) && InMemory(src, 0, |before|)
    ensures var a := Address(src, k);
            mid[a] == if a == Address(dst, 0) then before[Address(src, 0)] else before[a]
  {
    AddressInMemory(src, k, |before|);
    AddressInMemory(src, 0, |before|);
    var a := Address(src, k);
    if Within(Segment(dst[0].pa, n), a) {
      InFirst(dst, a);
    }
  }

  lemma PiecesCopy(s: State, dst: seq<Segment>, src: seq<Segment>) returns (t: State)
    requires Proper(dst, |s.mem|) && Proper(src, |s.mem|) && Total(dst) == Total(src) && Distinct(dst)
    requires 0 < Piece(dst, src) < Total(dst) && MeetAtEnds(dst, src) && s.fifo == []
    ensures Exec(PairProgram(dst, src), s) == Ok(t) && Quiet(s, t) && RestKept(s.mem, t.mem, dst)
    ensures AllArrived(s.mem, t.mem, dst, src) <==> !EndSpoilt(s.mem, dst, src)
  {
    var n, to, from := Piece(dst, src), dst[0].pa, src[0].pa;
    InFirst(src, to);
    assert Address(dst, 0) == to;
    var c := SegmentCopies(s, to, from, n);
    var mid := Copied(s, to, from, s.mem[from..from + n], c);
    SplicePieceMoved(s.mem, to, from, n);
    RestApart(dst, src, n, |s.mem|);
    TrimDistinct(dst, n);
    t := PairsRun(mid, Trim(dst, n), Trim(src, n));
    ExecSeq(CopySegment(to, from, n), PairProgram(Trim(dst, n), Trim(src, n)), s, mid);
    RestStays(s.mem, mid.mem, t.mem, dst, from, n);
    forall k: nat | k < Total(dst)
      ensures Arrived(s.mem, t.mem, dst, src, k) <==> !(k + 1 == Total(dst) && EndSpoilt(s.mem, dst, src))
    {
      ByteArrives(s.mem, mid.mem, t.mem, dst, src, n, k);
    }
    assert Arrived(s.mem, t.mem, dst, src, Total(dst) - 1) <==> !EndSpoilt(s.mem, dst, src);
  }

  lemma RestStays(before: seq<Byte>, mid: seq<Byte>, after: seq<Byte>, dst: seq<Segment>, from: nat, n: nat)
    requires dst != [] && n <= dst[0].size && PieceMoved(before, mid, dst[0].pa, from, n)
    requires RestKept(mid, after, Trim(dst, n))
    ensures RestKept(before, after, dst)
  {
    forall a: nat | a < |before| && Outside(a, dst) ensures after[a] == before[a] {
      TrimOutside(dst, n, a);
      assert !Within(Segment(dst[0].pa, n), a);
    }
  }

  lemma ByteArrives(
    before: seq<Byte>, mid: seq<Byte>, after: seq<Byte>, dst: seq<Segment>, src: seq<Segment>, n: nat, k: nat)
    requires Proper(dst, |before|) && Proper(src, |before|) && Total(dst) == Total(src) && Distinct(dst)
    requires 0 < n == Piece(dst, src) < Total(dst) && MeetAtEnds(dst, src) && k < Total(dst)
    requires PieceMoved(before, mid, dst[0].pa, src[0].pa, n)
    requires Proper(Trim(dst, n), |mid|) && Proper(Trim(src, n), |mid|) && Total(Trim(dst, n)) == Total(Trim(src, n))
    requires Total(Trim(dst, n)) == Total(dst) - n && Moved(mid, after, Trim(dst, n), Trim(src, n))
    ensures Arrived(before, after, dst, src, k) <==> !(k + 1 == Total(dst) && EndSpoilt(before, dst, src))
  {
    AddressInMemory(dst, k, |before|);
    AddressInMemory(src, k, |before|);
    if k < n {
      FirstByte(before, mid, after, dst, src[0].pa, n, k);
    } else {
      LaterArrives(mid, after, dst, src, n, k);
      LaterFound(before, mid, dst, src, n, k);
      LaterSpoilt(before, dst, src, n, k);
    }
  }

  lemma LaterArrives(mid: seq<Byte>, after: seq<Byte>, dst: seq<Segment>, src: seq<Segment>, n: nat, k: nat)
    requires dst != [] && src != [] && n == Piece(dst, src) <= k < Total(dst) == Total(src)
    requires Proper(Trim(dst, n), |mid|) && Proper(Trim(src, n), |mid|)
    requires Total(Trim(dst, n)) == Total(Trim(src, n)) == Total(dst) - n
    requires Moved(mid, after, Trim(dst, n), Trim(src, n))
    ensures Address(dst, k) < |after| == |mid| && Address(src, k) < |mid|
    ensures after[Address(dst, k)] == mid[Address(src, k)]
  {
    TrimAddress(dst, n, k);
    TrimAddress(src, n, k);
    assert InMemory(Trim(dst, n), k - n, |mid|);
  }

  /** Only the last byte can be spoilt. */
  lemma LaterSpoilt(mem: seq<Byte>, dst: seq<Segment>, src: seq<Segment>, n: nat, k: nat)
    requires Proper(dst, |mem|) && Proper(src, |mem|) && Total(dst) == Total(src) && MeetAtEnds(dst, src)
    requires 0 < n == Piece(dst, src) <= k < Total(src)
    ensures InMemory(src, k, |mem|) && InMemory(src, 0, |mem|)
    ensures k + 1 == Total(dst) && EndSpoilt(mem, dst, src)
       <==> Address(src, k) == Address(dst, 0) && mem[Address(src, 0)] != mem[Address(src, k)]
  {
    AddressInMemory(src, k, |mem|);
    AddressInMemory(src, 0, |mem|);
  }

  /** However two buffers that meet at their ends are cut into segments, the program copies if and
      only if the end they share is not spoilt. */
  lemma SegmentedCopiesExactlyWhen(s: State, dst: seq<Segment>, src: seq<Segment>) returns (t: State)
    requires Proper(dst, |s.mem|) && Proper(src, |s.mem|) && 0 < Total(dst) == Total(src) && Distinct(dst)
    requires MeetAtEnds(dst, src) && s.fifo == []
    ensures Exec(PairProgram(dst, src), s) == Ok(t) && Quiet(s, t) && RestKept(s.mem, t.mem, dst)
    ensures AllArrived(s.mem, t.mem, dst, src) <==> !EndSpoilt(s.mem, dst, src)
  {
    assert dst != [] && src != [];
    if Piece(dst, src) == Total(dst) {
      t := OnePieceCopies(s, dst, src);
    } else {
      t := PiecesCopy(s, dst, src);
    }
  }

  // ---- What the overlap test leaves ----

  /** The segments are what the translation makes of the virtual addresses from va on. */
  ghost predicate Translates(mmu: nat -> nat, va: nat, segs: seq<Segment>) {
    forall k: nat | k < Total(segs) :: Address(segs, k) == mmu(va + k)
  }

  /** No two virtual addresses share a physical byte. */
  ghost predicate OneToOne(mmu: nat -> nat) {
    forall a: nat, b: nat | mmu(a) == mmu(b) :: a == b
  }

  /** Buffers that the overlap test lets through meet at their ends at most, and then do so in
      physical memory as well. */
  lemma TestLeavesEnds(mmu: nat -> nat, dst: nat, src: nat, size: nat, ds: seq<Segment>, ss: seq<Segment>, limit: nat)
    requires OneToOne(mmu) && Translates(mmu, dst, ds) && Translates(mmu, src, ss)
    requires 0 < size == Total(ds) == Total(ss) && Proper(ds, limit) && Proper(ss, limit)
    requires InAddressSpace(dst, size) && InAddressSpace(src, size) && !SeenToOverlap(dst, src, size)
    ensures Distinct(ds) && MeetAtEnds(ds, ss)
  {
    GuardSeesTwoSharedBytes(dst, src, size);
    forall i: nat, j: nat | i < j < Total(ds) ensures Address(ds, i) != Address(ds, j) {
      assert mmu(dst + i) != mmu(dst + j);
    }
    DistinctByAddress(ds, limit);
    forall i: nat, j: nat | i < Total(ds) && j < Total(ss) && Address(ds, i) == Address(ss, j)
      ensures (i == 0 && j + 1 == Total(ss)) || (j == 0 && i + 1 == Total(ds))
    {
      assert mmu(dst + i) == mmu(src + j);
    }
  }

  /** Every copy that the test lets through, under every one-to-one translation. */
  lemma AcceptedCopiesExactlyWhen(
    s: State, mmu: nat -> nat, dst: nat, src: nat, size: nat, ds: seq<Segment>, ss: seq<Segment>) returns (t: State)
    requires OneToOne(mmu) && Translates(mmu, dst, ds) && Translates(mmu, src, ss)
    requires 0 < size == Total(ds) == Total(ss) && Proper(ds, |s.mem|) && Proper(ss, |s.mem|) && s.fifo == []
    requires InAddressSpace(dst, size) && InAddressSpace(src, size) && !SeenToOverlap(dst, src, size)
    ensures Exec(PairProgram(ds, ss), s) == Ok(t) && Quiet(s, t) && RestKept(s.mem, t.mem, ds)
    ensures AllArrived(s.mem, t.mem, ds, ss) <==> !EndSpoilt(s.mem, ds, ss)
  {
    TestLeavesEnds(mmu, dst, src, size, ds, ss, |s.mem|);
    t := SegmentedCopiesExactlyWhen(s, ds, ss);
  }
}
