/** Physical segments: what address translation makes of a buffer. */
module Coalescing {
  import opened Bytes
  import opened Pl330
  import opened Assembler

  datatype Segment = Segment(pa: nat, size: nat)

  predicate Within(s: Segment, a: nat) {
    s.pa <= a < s.pa + s.size
  }

  function Total(segs: seq<Segment>): nat {
    if segs == [] then 0 else segs[0].size + Total(segs[1..])
  }

  /** Every segment is nonempty and lies in memory. */
  predicate Proper(segs: seq<Segment>, limit: nat) {
    segs == [] || (0 < segs[0].size && segs[0].pa + segs[0].size <= limit && Proper(segs[1..], limit))
  }

  predicate Apart(a: Segment, b: Segment) {
    a.pa + a.size <= b.pa || b.pa + b.size <= a.pa
  }

  predicate ApartFrom(a: Segment, segs: seq<Segment>) {
    segs == [] || (Apart(a, segs[0]) && ApartFrom(a, segs[1..]))
  }

  /** No segment of the one list overlaps one of the other. */
  predicate AllApart(segs: seq<Segment>, others: seq<Segment>) {
    segs == [] || (ApartFrom(segs[0], others) && AllApart(segs[1..], others))
  }

  /** No two segments of the list overlap. */
  predicate Distinct(segs: seq<Segment>) {
    segs == [] || (ApartFrom(segs[0], segs[1..]) && Distinct(segs[1..]))
  }

  /** Address a is in none of the segments. */
  predicate Outside(a: nat, segs: seq<Segment>) {
    segs == [] || (!Within(segs[0], a) && Outside(a, segs[1..]))
  }

  /** The physical address of byte k. */
  function Address(segs: seq<Segment>, k: nat): nat
    requires k < Total(segs)
  {
    if k < segs[0].size then segs[0].pa + k else Address(segs[1..], k - segs[0].size)
  }

  /** The segments behind their first n bytes, n being at most the first segment. */
  function Trim(segs: seq<Segment>, n: nat): seq<Segment>
    requires segs != [] && n <= segs[0].size
  {
    if n == segs[0].size then segs[1..]
    else [Segment(segs[0].pa + n, segs[0].size - n)] + segs[1..]
  }

  /** dst now holds, byte for byte, what was in src, and nothing else has changed. */
  ghost predicate Moved(before: seq<Byte>, after: seq<Byte>, dst: seq<Segment>, src: seq<Segment>)
    requires Total(dst) == Total(src) && Proper(dst, |before|) && Proper(src, |before|)
  {
    && |after| == |before|
    && (forall k: nat | k < Total(dst) ::
          InMemory(dst, k, |before|) && InMemory(src, k, |before|)
          && after[Address(dst, k)] == before[Address(src, k)])
    && (forall a: nat | a < |before| && Outside(a, dst) :: after[a] == before[a])
  }

  ghost predicate InMemory(segs: seq<Segment>, k: nat, limit: nat) {
    k < Total(segs) && Address(segs, k) < limit
  }

  lemma {:induction false} AddressInMemory(segs: seq<Segment>, k: nat, limit: nat)
    requires Proper(segs, limit) && k < Total(segs)
    ensures InMemory(segs, k, limit)
  {
    if segs[0].size <= k { AddressInMemory(segs[1..], k - segs[0].size, limit); }
  }

  lemma TrimProper(segs: seq<Segment>, n: nat, limit: nat)
    requires segs != [] && n <= segs[0].size && Proper(segs, limit)
    ensures Proper(Trim(segs, n), limit) && Total(Trim(segs, n)) == Total(segs) - n
  {
    if n < segs[0].size {
      assert Trim(segs, n)[1..] == segs[1..];
    }
  }

  lemma TrimAddress(segs: seq<Segment>, n: nat, k: nat)
    requires segs != [] && n <= segs[0].size && n <= k < Total(segs)
    ensures k - n < Total(Trim(segs, n)) && Address(segs, k) == Address(Trim(segs, n), k - n)
  {
    if n < segs[0].size {
      assert Trim(segs, n)[1..] == segs[1..];
    }
  }

  lemma {:induction false} PartApart(a: Segment, part: Segment, segs: seq<Segment>)
    requires a.pa <= part.pa && part.pa + part.size <= a.pa + a.size && ApartFrom(a, segs)
    ensures ApartFrom(part, segs)
  {
    if segs != [] { PartApart(a, part, segs[1..]); }
  }

  lemma TrimApartFrom(a: Segment, segs: seq<Segment>, n: nat)
    requires segs != [] && n <= segs[0].size && ApartFrom(a, segs)
    ensures ApartFrom(a, Trim(segs, n))
  {
    if n < segs[0].size { assert Trim(segs, n)[1..] == segs[1..]; }
  }

  lemma {:induction false} TrimOthersApart(segs: seq<Segment>, others: seq<Segment>, n: nat)
    requires others != [] && n <= others[0].size && AllApart(segs, others)
    ensures AllApart(segs, Trim(others, n))
  {
    if segs != [] {
      TrimApartFrom(segs[0], others, n);
      TrimOthersApart(segs[1..], others, n);
    }
  }

  lemma TrimApart(segs: seq<Segment>, others: seq<Segment>, m: nat, n: nat)
    requires segs != [] && others != [] && m <= segs[0].size && n <= others[0].size && AllApart(segs, others)
    ensures AllApart(Trim(segs, m), Trim(others, n))
  {
    TrimOthersApart(segs, others, n);
    if m < segs[0].size {
      PartApart(segs[0], Trim(segs, m)[0], Trim(others, n));
      assert Trim(segs, m)[1..] == segs[1..];
    }
  }

  lemma TrimDistinct(segs: seq<Segment>, n: nat)
    requires segs != [] && n <= segs[0].size && Distinct(segs)
    ensures Distinct(Trim(segs, n))
  {
    if n < segs[0].size {
      PartApart(segs[0], Trim(segs, n)[0], segs[1..]);
      assert Trim(segs, n)[1..] == segs[1..];
    }
  }

  lemma {:induction false} ApartOutside(s: Segment, segs: seq<Segment>, a: nat)
    requires ApartFrom(s, segs) && Within(s, a)
    ensures Outside(a, segs)
  {
    if segs != [] { ApartOutside(s, segs[1..], a); }
  }

  lemma {:induction false} AddressNotWithin(s: Segment, segs: seq<Segment>, k: nat)
    requires ApartFrom(s, segs) && k < Total(segs)
    ensures !Within(s, Address(segs, k))
  {
    if segs[0].size <= k { AddressNotWithin(s, segs[1..], k - segs[0].size); }
  }

  lemma TrimOutside(segs: seq<Segment>, n: nat, a: nat)
    requires segs != [] && n <= segs[0].size
    ensures Outside(a, segs) ==> Outside(a, Trim(segs, n))
    ensures ApartFrom(segs[0], segs[1..]) && Within(Segment(segs[0].pa, n), a) ==> Outside(a, Trim(segs, n))
  {
    if n < segs[0].size { assert Trim(segs, n)[1..] == segs[1..]; }
    if ApartFrom(segs[0], segs[1..]) && Within(Segment(segs[0].pa, n), a) {
      ApartOutside(segs[0], segs[1..], a);
    }
  }

  /** The n bytes at `from` have been copied to `to`. */
  ghost predicate PieceMoved(before: seq<Byte>, after: seq<Byte>, to: nat, from: nat, n: nat) {
    && |after| == |before| && to + n <= |before| && from + n <= |before|
    && forall a: nat {:trigger after[a]} | a < |before| ::
         after[a] == if Within(Segment(to, n), a) then before[from + (a - to)] else before[a]
  }

  lemma SplicePieceMoved(mem: seq<Byte>, to: nat, from: nat, n: nat)
    requires to + n <= |mem| && from + n <= |mem|
    ensures PieceMoved(mem, Splice(mem, to, mem[from..from + n]), to, from, n)
  {
    SpliceAt(mem, to, mem[from..from + n]);
  }

  lemma FirstByte(before: seq<Byte>, mid: seq<Byte>, after: seq<Byte>, dst: seq<Segment>, from: nat, n: nat, k: nat)
    requires dst != [] && ApartFrom(dst[0], dst[1..]) && k < n <= dst[0].size
    requires PieceMoved(before, mid, dst[0].pa, from, n) && |after| == |mid|
    requires forall a: nat | a < |mid| && Outside(a, Trim(dst, n)) :: after[a] == mid[a]
    ensures after[dst[0].pa + k] == before[from + k]
  {
    var a := dst[0].pa + k;
    TrimOutside(dst, n, a);
    assert after[a] == mid[a];
  }

  lemma LaterByte(before: seq<Byte>, mid: seq<Byte>, to: Segment, from: nat, n: nat, src: seq<Segment>, k: nat)
    requires ApartFrom(to, src) && n <= to.size && InMemory(src, k, |before|)
    requires PieceMoved(before, mid, to.pa, from, n)
    ensures mid[Address(src, k)] == before[Address(src, k)]
  {
    AddressNotWithin(to, src, k);
    assert !Within(Segment(to.pa, n), Address(src, k));
  }

  /** Moving a first piece and then the rest moves the whole. */
  lemma MovedInSteps(before: seq<Byte>, mid: seq<Byte>, after: seq<Byte>, dst: seq<Segment>, src: seq<Segment>, n: nat)
    requires dst != [] && src != [] && Total(dst) == Total(src) && Proper(dst, |before|) && Proper(src, |before|)
    requires Distinct(dst) && AllApart(dst, src) && n <= dst[0].size && n <= src[0].size
    requires PieceMoved(before, mid, dst[0].pa, src[0].pa, n)
    requires Total(Trim(dst, n)) == Total(Trim(src, n)) && Proper(Trim(dst, n), |mid|) && Proper(Trim(src, n), |mid|)
    requires Moved(mid, after, Trim(dst, n), Trim(src, n))
    ensures Moved(before, after, dst, src)
  {
    forall k: nat | k < Total(dst)
      ensures InMemory(dst, k, |before|) && InMemory(src, k, |before|)
      ensures after[Address(dst, k)] == before[Address(src, k)]
    {
      AddressInMemory(dst, k, |before|);
      AddressInMemory(src, k, |before|);
      if k < n {
        FirstByte(before, mid, after, dst, src[0].pa, n, k);
      } else {
        TrimAddress(dst, n, k);
        TrimAddress(src, n, k);
        assert InMemory(Trim(dst, n), k - n, |mid|);
        LaterByte(before, mid, dst[0], src[0].pa, n, src, k);
      }
    }
    forall a: nat | a < |before| && Outside(a, dst)
      ensures after[a] == before[a]
    {
      TrimOutside(dst, n, a);
      assert !Within(Segment(dst[0].pa, n), a);
    }
  }

  // ---- A buffer as a whole ----

  /** The bytes of the segments, in order. */
  function Gather(mem: seq<Byte>, segs: seq<Segment>): (r: seq<Byte>)
    requires Proper(segs, |mem|)
    ensures |r| == Total(segs)
  {
    if segs == [] then [] else mem[segs[0].pa..segs[0].pa + segs[0].size] + Gather(mem, segs[1..])
  }

  /** Memory with data written over the segments, in order. */
  function Scatter(mem: seq<Byte>, segs: seq<Segment>, data: seq<Byte>): (r: seq<Byte>)
    requires Proper(segs, |mem|) && |data| == Total(segs)
    ensures |r| == |mem|
    decreases segs
  {
    if segs == [] then mem
    else Scatter(Splice(mem, segs[0].pa, data[..segs[0].size]), segs[1..], data[segs[0].size..])
  }

  /** Byte k of what is gathered is the byte at its physical address. */
  lemma {:induction false} GatherAt(mem: seq<Byte>, segs: seq<Segment>, k: nat)
    requires Proper(segs, |mem|) && k < Total(segs)
    ensures Address(segs, k) < |mem| && Gather(mem, segs)[k] == mem[Address(segs, k)]
  {
    if segs[0].size <= k {
      GatherAt(mem, segs[1..], k - segs[0].size);
    }
  }

  /** Scattering leaves every address outside the segments alone. */
  lemma {:induction false} ScatterKeeps(mem: seq<Byte>, segs: seq<Segment>, data: seq<Byte>, a: nat)
    requires Proper(segs, |mem|) && |data| == Total(segs) && a < |mem| && Outside(a, segs)
    ensures Scatter(mem, segs, data)[a] == mem[a]
    decreases segs
  {
    if segs != [] {
      var s := segs[0];
      SpliceAt(mem, s.pa, data[..s.size]);
      ScatterKeeps(Splice(mem, s.pa, data[..s.size]), segs[1..], data[s.size..], a);
    }
  }

  /** What is scattered over segments that do not overlap is found at its addresses. */
  lemma {:induction false} ScatterAt(mem: seq<Byte>, segs: seq<Segment>, data: seq<Byte>, k: nat)
    requires Proper(segs, |mem|) && Distinct(segs) && k < |data| == Total(segs)
    ensures Address(segs, k) < |mem| && Scatter(mem, segs, data)[Address(segs, k)] == data[k]
    decreases segs
  {
    var s := segs[0];
    var m := Splice(mem, s.pa, data[..s.size]);
    if k < s.size {
      SpliceAt(mem, s.pa, data[..s.size]);
      ApartOutside(s, segs[1..], s.pa + k);
      ScatterKeeps(m, segs[1..], data[s.size..], s.pa + k);
    } else {
      ScatterAt(m, segs[1..], data[s.size..], k - s.size);
    }
  }

  const ADDRESS_SPACE: nat := 0x1_0000_0000

  /** The test for a buffer that leaves the address space, in 32-bit arithmetic. */
  predicate Overshoots(va: nat, size: nat) {
    (va + size + ADDRESS_SPACE - 1) % ADDRESS_SPACE < va
  }

  /** An empty buffer counts as inside only at address zero. */
  predicate InAddressSpace(va: nat, size: nat) {
    if size == 0 then va == 0 else va + size <= ADDRESS_SPACE
  }

  /** What the test comes to. */
  lemma OvershootsExactly(va: nat, size: nat)
    requires va < ADDRESS_SPACE && size < ADDRESS_SPACE
    ensures Overshoots(va, size) <==> !InAddressSpace(va, size)
  {
    var end := va + size + ADDRESS_SPACE - 1;
    if end < ADDRESS_SPACE {
      assert end % ADDRESS_SPACE == end;
    } else if end < 2 * ADDRESS_SPACE {
      assert end % ADDRESS_SPACE == end - ADDRESS_SPACE;
    } else {
      assert end % ADDRESS_SPACE == end - 2 * ADDRESS_SPACE;
    }
  }

  /** Walks the segments of a buffer. */
  class Coalescer {
    var left: seq<Segment>

    constructor (segs: seq<Segment>)
      ensures left == segs
    {
      left := segs;
    }

    /** Begins a walk over the `size` bytes at `va`, whose translation is `segs`.  A buffer that
        leaves the 32-bit address space is refused. */
    method Begin(va: nat, size: nat, segs: seq<Segment>) returns (status: Status)
      requires va < ADDRESS_SPACE && size < ADDRESS_SPACE
      modifies this
      ensures status == if InAddressSpace(va, size) then Success else Error
      ensures left == if InAddressSpace(va, size) then segs else old(left)
    {
      OvershootsExactly(va, size);
      if Overshoots(va, size) {
        return Error;
      }
      left := segs;
      status := Success;
    }

    method Next() returns (status: Status, pa: nat, size: nat)
      modifies this
      ensures old(left) == [] ==> status == Error && left == []
      ensures old(left) != [] ==> status == Success && Segment(pa, size) == old(left[0]) && left == old(left[1..])
    {
      if left == [] {
        return Error, 0, 0;
      }
      status, pa, size := Success, left[0].pa, left[0].size;
      left := left[1..];
    }

    method End() returns (status: Status)
      ensures status == if left == [] then Success else Error
    {
      status := if left == [] then Success else Error;
    }
  }

}
