/** Whole requests other than copies: a buffer is walked segment by segment, and each segment is
    zeroed, or streamed from or to a device register. */
module Requests {
  import opened Bytes
  import opened Options
  import opened Pl330
  import opened Assembler
  import opened Coalescing
  import opened Closing
  import opened Streams
  import ZeroFill
  import RegisterSegments
  import QspiSegments
  import QspiLimits
  import Overrun
  import UartSegments
  import I2cSegments

  /** What is done with a segment. */
  datatype Generator =
    | Zeroing
    | Register(d: Direction, width: nat)
    | Qspi(d: Direction, periph: nat, sizes: QspiSegments.Sizes)
    | Uart(d: Direction, periph: nat, burst: nat)
    | I2c(d: Direction, periph: nat, threshold: nat)
  {
    /** The bytes of one register access. */
    function Width(): nat {
      match this
      case Register(_, w) => w
      case Qspi(_, _, _) => 4
      case _ => 1
    }

    predicate Valid() {
      (Register? ==> BeatSize(width)) && (Uart? ==> UartSegments.BurstSize(burst))
    }

    /** The bytes that the program of a segment moves, as long as loads and stores agree. */
    function Moved(s: Segment): nat {
      match this
      case Qspi(_, _, z) => QspiSegments.QspiMoved(z, s.pa, s.size)
      case Uart(_, _, b) => UartSegments.UartCovered(b, s.size)
      case I2c(_, _, th) => I2cSegments.I2cCovered(th, s.size)
      case _ => s.size
    }

    /** The segments that the generator divides right. */
    predicate Splits(s: Segment) {
      match this
      case Qspi(_, _, z) => QspiSegments.QspiSplits(z, s.pa, s.size)
      case Uart(_, _, b) => UartSegments.UartSplits(b, s.size)
      case I2c(_, _, th) => I2cSegments.I2cSplits(th, s.size)
      case _ => true
    }
  }

  /** The only segments that a generator refuses. */
  predicate Accepts(g: Generator, s: Segment) {
    g.Qspi? ==> QspiSegments.Suitable(g.sizes, s.pa, s.size)
  }

  /** A segment that is divided right is moved whole. */
  lemma SplitsMoved(g: Generator, s: Segment)
    requires g.Valid() && Accepts(g, s) && 0 < s.size && g.Splits(s)
    ensures g.Moved(s) == s.size
  {
    match g
    case Qspi(_, _, z) => QspiSegments.MovedIsAll(z, s.pa, s.size);
    case Uart(_, _, b) => UartSegments.UartCoversExactlyWhen(b, s.size);
    case I2c(_, _, th) => I2cSegments.I2cCoversExactlyWhen(th, s.size);
    case _ =>
  }

  function SegmentProgram(g: Generator, s: Segment): Prog {
    match g
    case Zeroing => ZeroFill.ZeroSegment(s.pa, s.size)
    case Register(d, w) => RegisterSegments.RegisterSegment(d, w, s.pa, if w == 0 then 0 else s.size / w)
    case Qspi(d, p, z) => QspiSegments.QspiSegment(d, p, z, s.pa, s.size)
    case Uart(d, p, b) => UartSegments.UartSegment(d, p, b, s.pa, s.size)
    case I2c(d, p, th) => I2cSegments.I2cSegment(d, p, th, s.pa, s.size)
  }

  predicate AllAccepted(g: Generator, segs: seq<Segment>) {
    segs == [] || (Accepts(g, segs[0]) && AllAccepted(g, segs[1..]))
  }

  /** Only the flash generator refuses segments: those that do not begin and end at a word, and those
      that are not a whole number of single requests. */
  lemma {:induction false} AcceptedExactlyWhen(g: Generator, segs: seq<Segment>)
    ensures AllAccepted(g, segs) <==>
            forall i | 0 <= i < |segs| ::
              g.Qspi? ==> segs[i].pa % 4 == 0 && segs[i].size % 4 == 0
                          && segs[i].size % QspiSegments.Pow2(g.sizes.single) == 0
  {
    if segs != [] {
      AcceptedExactlyWhen(g, segs[1..]);
      assert forall i | 0 < i < |segs| :: segs[i] == segs[1..][i - 1];
    }
  }

  function EachSegment(g: Generator, segs: seq<Segment>): Prog {
    if segs == [] then Skip else Seq(SegmentProgram(g, segs[0]), EachSegment(g, segs[1..]))
  }

  /** The register address is set once, before the first segment. */
  function Preface(g: Generator, reg: nat): Prog {
    if g.Zeroing? then Skip else Op(MoveRegister(g.d, reg))
  }

  function BufferProgram(g: Generator, reg: nat, segs: seq<Segment>): Prog {
    Seq(Preface(g, reg), EachSegment(g, segs))
  }

  // ---- Generating ----

  method EmitSegment(program: Program, g: Generator, pa: nat, size: nat) returns (s: Status)
    requires program.Holds(Success) && 0 < size && g.Valid()
    modifies program
    ensures program.Holds(s) && (s.Ordinary() <==> Accepts(g, Segment(pa, size)))
    ensures s.Ordinary() ==> program.intended == Append(old(program.intended), SegmentProgram(g, Segment(pa, size)))
  {
    match g
    case Zeroing => s := ZeroFill.ZeroToMemorySegment(program, Success, pa, size);
    case Register(d, w) => s := RegisterSegments.EmitRegisterSegment(program, Success, d, w, pa, size / w);
    case Qspi(d, p, z) => s := QspiSegments.EmitQspiSegment(program, d, p, z, pa, size);
    case Uart(d, p, b) => s := UartSegments.EmitUartSegment(program, Success, d, p, b, pa, size);
    case I2c(d, p, th) => s := I2cSegments.EmitI2cSegment(program, Success, d, p, th, pa, size);
  }

  method EmitSegments(program: Program, status: Status, g: Generator, size: nat, c: Coalescer) returns (s: Status)
    requires program.Holds(status) && status.Ordinary() && Covers(c.left, size) && g.Valid()
    modifies program, c
    ensures program.Holds(s)
    ensures var segs := old(c.left);
            if AllAccepted(g, segs) then
              s.Ordinary() && program.intended == Append(old(program.intended), EachSegment(g, segs)) &&
                  (s == Success ==> c.left == [])
            else s != Success
  {
    s := status;
    var sizeleft: nat := size;
    ghost var accepted := AllAccepted(g, c.left);
    ghost var target := Append(program.intended, EachSegment(g, c.left));
    while sizeleft > 0
      invariant program.Holds(s) && Covers(c.left, sizeleft) && accepted == AllAccepted(g, c.left)
      invariant s.Ordinary() && Append(program.intended, EachSegment(g, c.left)) == target
    {
      if s != Success {
        program.Forgo(s, EachSegment(g, c.left));
        return;
      }
      var pa, segsize;
      s, pa, segsize := c.Next();
      sizeleft := sizeleft - segsize;
      s := EmitSegment(program, g, pa, segsize);
      if !s.Ordinary() {
        return;
      }
    }
  }

  /** The register, the segments, and a walk that ends where the buffer does. */
  method EmitBuffer(program: Program, status: Status, g: Generator, reg: nat, va: nat, size: nat, segs: seq<Segment>)
    returns (s: Status)
    requires program.Holds(status) && status.Ordinary() && Covers(segs, size) && g.Valid()
    requires va < ADDRESS_SPACE && size < ADDRESS_SPACE
    modifies program
    ensures program.Holds(s)
    ensures if InAddressSpace(va, size) && AllAccepted(g, segs) then
              s.Ordinary() && program.intended == Append(old(program.intended), BufferProgram(g, reg, segs))
            else s != Success
  {
    s := status;
    if !g.Zeroing? {
      s := program.Emit(s, MoveRegister(g.d, reg));
    }
    AppendSeq(old(program.intended), Preface(g, reg), EachSegment(g, segs));
    if s != Success {
      program.Forgo(s, EachSegment(g, segs));
      return;
    }
    var coalesce := new Coalescer([]);
    s := coalesce.Begin(va, size, segs);
    if s == Success {
      s := EmitSegments(program, s, g, size, coalesce);
    }
    if s == Success {
      s := coalesce.End();
    }
  }

  /** Whether a request leaves a program behind, and if so which: the body, the event directly in
      front of DMAEND, and nothing else. */
  ghost predicate Generated(status: Status, program: Program, good: bool, body: Prog, event: Option<nat>)
    reads program
  {
    var text := Flatten(body) + if event.Some? then [Sev(event.value), End] else [End];
    if good then
      && status == (if program.capacity < |text| then BufferFull else Success)
      && program.code == if status == Success then text else []
    else status != Success && program.code == []
  }

  /** An empty request without an event does nothing at all. */
  method ZeroToMemory(program: Program, buf: nat, size: nat, sendEvent: bool, evt: nat, segs: seq<Segment>)
    returns (status: Status)
    requires Covers(segs, size) && buf < ADDRESS_SPACE && size < ADDRESS_SPACE
    modifies program
    ensures size == 0 && !sendEvent ==> status == Success && program.code == old(program.code)
    ensures size != 0 || sendEvent ==>
      Generated(status, program, size == 0 || InAddressSpace(buf, size),
              if size != 0 then BufferProgram(Zeroing, 0, segs) else Skip, Wanted(sendEvent, evt))
  {
    if size == 0 && !sendEvent {
      return Success;
    }
    status := program.Init();
    if size != 0 {
      AllZeroable(segs);
      status := EmitBuffer(program, status, Zeroing, 0, buf, size, segs);
    }
    ghost var body := if size != 0 then BufferProgram(Zeroing, 0, segs) else Skip;
    status := Close(program, status, sendEvent, evt, size == 0 || InAddressSpace(buf, size), body);
  }

  lemma {:induction false} AllZeroable(segs: seq<Segment>)
    ensures AllAccepted(Zeroing, segs)
  {
    if segs != [] { AllZeroable(segs[1..]); }
  }

  method Close(program: Program, status: Status, sendEvent: bool, evt: nat, ghost good: bool, ghost body: Prog)
    returns (s: Status)
    requires program.Holds(status)
    requires if good then status.Ordinary() && program.intended == Append(Empty, body) else status != Success
    modifies program
    ensures Generated(s, program, good, body, Wanted(sendEvent, evt)) && (status != Success ==> s == status)
  {
    LastInstructions(body, Wanted(sendEvent, evt), false);
    if status != Success {
      s := status;
      if status.Ordinary() && good {
        FullText(program.intended, body, Wanted(sendEvent, evt));
      }
      program.Clear();
    } else {
      s := Finish(program, status, sendEvent, evt, false, body);
    }
  }

  lemma FullText(intended: Code, body: Prog, event: Option<nat>)
    requires intended == Append(Empty, body)
    ensures |Text(intended)| <= |ProgramText(body, event, false)|
  {
    AppendText(Empty, body);
  }

  /** The byte count of a register request, in 32-bit arithmetic. */
  function ByteCount(count: nat, width: nat): nat {
    count * width % ADDRESS_SPACE
  }

  predicate RegisterArguments(reg: nat, buf: nat, bits: nat) {
    (bits == 8 || bits == 16 || bits == 32 || bits == 64) && reg % (bits / 8) == 0 && buf % (bits / 8) == 0
  }

  /** Both directions of a register request; they differ in nothing else. */
  method RegisterRequest(
    program: Program, d: Direction, reg: nat, buf: nat, count: nat, bits: nat,
    sendEvent: bool, evt: nat, segs: seq<Segment>) returns (status: Status)
    requires Covers(segs, ByteCount(count, bits / 8)) && buf < ADDRESS_SPACE
    modifies program
    ensures count == 0 && !sendEvent ==> status == Success && program.code == old(program.code)
    ensures count != 0 && bits != 8 && bits != 16 && bits != 32 && bits != 64 ==> status == BadArg
    ensures count != 0 && 8 <= bits && (reg % (bits / 8) != 0 || buf % (bits / 8) != 0) ==> status == BadArg
    ensures count != 0 || sendEvent ==>
      Generated(status, program, count == 0 ||
                (RegisterArguments(reg, buf, bits) && InAddressSpace(buf, ByteCount(count, bits / 8))),
              if count != 0 then BufferProgram(Register(d, bits / 8), reg, segs) else Skip, Wanted(sendEvent, evt))
  {
    if count == 0 && !sendEvent {
      return Success;
    }
    status := program.Init();
    if count != 0 {
      if bits != 8 && bits != 16 && bits != 32 && bits != 64 {
        status := BadArg;
      } else if reg % (bits / 8) != 0 {
        status := BadArg;
      } else if buf % (bits / 8) != 0 {
        status := BadArg;
      } else {
        AllElementsAccepted(d, bits / 8, segs);
        status := EmitBuffer(program, status, Register(d, bits / 8), reg, buf, ByteCount(count, bits / 8), segs);
      }
    }
    ghost var good := count == 0 ||
        (RegisterArguments(reg, buf, bits) && InAddressSpace(buf, ByteCount(count, bits / 8)));
    ghost var body := if count != 0 then BufferProgram(Register(d, bits / 8), reg, segs) else Skip;
    status := Close(program, status, sendEvent, evt, good, body);
  }

  lemma {:induction false} AllElementsAccepted(d: Direction, w: nat, segs: seq<Segment>)
    ensures AllAccepted(Register(d, w), segs)
  {
    if segs != [] { AllElementsAccepted(d, w, segs[1..]); }
  }

  /** Both directions of a request for the flash controller, a UART, or an I2C slave. */
  method PeripheralRequest(
    program: Program, g: Generator, reg: nat, buf: nat, size: nat, sendEvent: bool, evt: nat, segs: seq<Segment>)
    returns (status: Status)
    requires g.Valid() && !g.Zeroing? && !g.Register? && buf < ADDRESS_SPACE && size < ADDRESS_SPACE
    requires Covers(segs, size)
    modifies program
    ensures size == 0 && !sendEvent ==> status == Success && program.code == old(program.code)
    ensures size != 0 && !InAddressSpace(buf, size) ==> status == BadArg
    ensures size != 0 || sendEvent ==>
      Generated(status, program, size == 0 || (InAddressSpace(buf, size) && AllAccepted(g, segs)),
                if size != 0 then BufferProgram(g, reg, segs) else Skip, Wanted(sendEvent, evt))
  {
    if size == 0 && !sendEvent {
      return Success;
    }
    status := program.Init();
    if size != 0 {
      OvershootsExactly(buf, size);
      if Overshoots(buf, size) {
        return BadArg;
      }
      status := EmitBuffer(program, status, g, reg, buf, size, segs);
    }
    ghost var body := if size != 0 then BufferProgram(g, reg, segs) else Skip;
    status := Close(program, status, sendEvent, evt, size == 0 ||
                    (InAddressSpace(buf, size) && AllAccepted(g, segs)), body);
  }

  /** The segments of a register request hold the elements it was asked to move exactly when their
      byte count fits in 32 bits, and otherwise fewer. */
  lemma RegisterRequestComplete(count: nat, width: nat, segs: seq<Segment>)
    requires BeatSize(width) && Covers(segs, ByteCount(count, width))
    ensures Total(segs) / width <= count
    ensures Total(segs) / width == count <==> count * width < ADDRESS_SPACE
    ensures count * width < ADDRESS_SPACE ==> Total(segs) == count * width
  {
    var total := count * width;
    assert ByteCount(count, width) == total % ADDRESS_SPACE <= total;
    if width == 1 {} else if width == 2 {} else if width == 4 {} else {}
  }

  /** A request for more than a thousand million words that is accepted, and made for one. */
  lemma RegisterRequestWraps()
    ensures RegisterArguments(0, 0, 32) && InAddressSpace(0, ByteCount(0x4000_0001, 4))
    ensures var segs := [Segment(0, 4)]; Covers(segs, ByteCount(0x4000_0001, 4)) && Total(segs) / 4 == 1
  {
    assert ByteCount(0x4000_0001, 4) == 4;
    assert [Segment(0, 4)][1..] == [];
  }

  // ---- What the programs do ----

  /** A segment whose bytes are whole register accesses, aligned like them, and that the generator
      accepts and divides right. */
  predicate InElements(g: Generator, s: Segment) {
    Streams.Aligned(g.Width(), s.pa) && s.size % g.Width() == 0 && Accepts(g, s) && g.Splits(s)
  }

  predicate AllInElements(g: Generator, segs: seq<Segment>) {
    segs == [] || (InElements(g, segs[0]) && AllInElements(g, segs[1..]))
  }

  lemma SegmentWellFormed(g: Generator, s: Segment)
    requires g.Valid()
    ensures WellFormed(SegmentProgram(g, s), 2)
  {
    match g
    case Zeroing => ZeroFill.ZeroSegmentWellFormed(s.pa, s.size);
    case Register(d, w) => RegisterSegments.RegisterSegmentWellFormed(d, w, s.pa, s.size / w);
    case Qspi(d, p, z) => QspiSegments.QspiSegmentWellFormed(d, p, z, s.pa, s.size);
    case Uart(d, p, b) => UartSegments.UartSegmentWellFormed(d, p, b, s.pa, s.size);
    case I2c(d, p, th) => I2cSegments.I2cSegmentWellFormed(d, p, th, s.pa, s.size);
  }

  /** Whatever the request, loops nest at most twice, turn 1 to 256 times, and bursts are of 1 to
      16 beats. */
  lemma {:induction false} EachWellFormed(g: Generator, segs: seq<Segment>)
    requires g.Valid()
    ensures WellFormed(EachSegment(g, segs), 2)
  {
    if segs != [] {
      SegmentWellFormed(g, segs[0]);
      EachWellFormed(g, segs[1..]);
    }
  }

  lemma BufferWellFormed(g: Generator, reg: nat, segs: seq<Segment>)
    requires g.Valid()
    ensures WellFormed(BufferProgram(g, reg, segs), 2)
  {
    EachWellFormed(g, segs);
    assert WellFormed(Preface(g, reg), 2);
  }

  /** Zeros reach exactly the bytes of the buffer. */
  lemma {:induction false} ZeroesRun(s: State, segs: seq<Segment>) returns (t: State)
    requires Proper(segs, |s.mem|) && s.fifo == []
    ensures Exec(EachSegment(Zeroing, segs), s) == Ok(t)
    ensures t.mem == Scatter(s.mem, segs, Zeros(Total(segs))) && t.fifo == [] && t.rx == s.rx && t.trace == s.trace
    decreases segs
  {
    if segs == [] {
      t := s;
    } else {
      var n, zeros := segs[0].size, Zeros(Total(segs));
      var mid := ZeroFill.SegmentZeroed(s, segs[0].pa, n);
      t := ZeroesRun(mid, segs[1..]);
      assert zeros[..n] == Zeros(n) && zeros[n..] == Zeros(Total(segs[1..]));
      ExecSeq(SegmentProgram(Zeroing, segs[0]), EachSegment(Zeroing, segs[1..]), s, mid);
    }
  }

  /** One segment, whatever the device: as many bytes are moved as the generator's division makes
      of the segment. */
  lemma SegmentRuns(g: Generator, reg: nat, s: State, seg: Segment) returns (t: State)
    requires g.Valid() && !g.Zeroing? && 0 < seg.size
    requires Streamable(g.d, reg, g.Width(), s, seg.pa, g.Moved(seg))
    requires Streams.Aligned(g.Width(), seg.pa) && seg.size % g.Width() == 0
    requires g.Qspi? ==> Accepts(g, seg) && QspiSegments.QspiSplits(g.sizes, seg.pa, seg.size)
    ensures Exec(SegmentProgram(g, seg), s) == Ok(t) && Streamed(g.d, reg, g.Width(), s, seg.pa, g.Moved(seg), t)
  {
    var d, w, pa, n := g.d, g.Width(), seg.pa, seg.size;
    match g
    case Register(_, _) =>
      RegisterSegments.ElementsCarry(d, reg, w, pa, n / w, n);
      t := SegmentStreams(d, reg, w, s, pa, n, RegisterSegments.Elements(d, w, n / w));
    case Qspi(_, p, z) =>
      QspiSegments.QspiPhasesCarry(d, reg, p, z, pa, n);
      t := SegmentStreams(d, reg, w, s, pa, g.Moved(seg),
                          QspiSegments.QspiPhases(d, p, z, pa, n - QspiSegments.AlignSize(pa)));
    case Uart(_, p, b) =>
      UartSegments.UartPhasesCarry(d, reg, p, b, pa, n);
      t := SegmentStreams(d, reg, w, s, pa, g.Moved(seg), UartSegments.UartPhases(d, p, b, n));
    case I2c(_, p, th) =>
      I2cSegments.I2cPhasesCarry(d, reg, p, th, pa, n);
      t := SegmentStreams(d, reg, w, s, pa, g.Moved(seg), I2cSegments.I2cPhases(d, p, th, n));
  }

  /** A segment that is not refused is moved whole, in order, if and only if the generator divides
      it right. */
  lemma SegmentMovedExactlyWhen(g: Generator, reg: nat, s: State, seg: Segment)
    requires g.Valid() && !g.Zeroing? && 0 < seg.size < ADDRESS_SPACE && Accepts(g, seg)
    requires Streams.Aligned(g.Width(), seg.pa) && seg.size % g.Width() == 0
    requires Streamable(g.d, reg, g.Width(), s, seg.pa, seg.size)
    ensures var o := Exec(SegmentProgram(g, seg), s);
            o.Ok? && Streamed(g.d, reg, g.Width(), s, seg.pa, seg.size, o.state) <==> g.Splits(seg)
  {
    if g.Qspi? {
      QspiLimits.QspiMovesExactlyWhen(g.d, reg, g.periph, g.sizes, seg.pa, seg.size, s);
    } else {
      NothingMissing(g, seg);
      if g.Splits(seg) {
        var t := SegmentRuns(g, reg, s, seg);
      } else {
        OverrunFails(g, reg, s, seg);
      }
    }
  }

  /** A program that goes on behind the end of its segment, in any memory. */
  lemma OverrunFails(g: Generator, reg: nat, s: State, seg: Segment)
    requires g.Valid() && (g.Uart? || g.I2c?) && 0 < seg.size && g.Moved(seg) != seg.size
    requires Streamable(g.d, reg, 1, s, seg.pa, seg.size)
    ensures var o := Exec(SegmentProgram(g, seg), s); !(o.Ok? && Streamed(g.d, reg, 1, s, seg.pa, seg.size, o.state))
  {
    var pa, n := seg.pa, seg.size;
    if g.Uart? {
      UartSegments.UartPhasesCarry(g.d, reg, g.periph, g.burst, pa, n);
      Overrun.OtherLengthFails(g.d, reg, s, pa, n, g.Moved(seg), UartSegments.UartPhases(g.d, g.periph, g.burst, n));
    } else {
      I2cSegments.I2cPhasesCarry(g.d, reg, g.periph, g.threshold, pa, n);
      Overrun.OtherLengthFails(g.d, reg, s, pa, n, g.Moved(seg), I2cSegments.I2cPhases(g.d, g.periph, g.threshold, n));
    }
  }

  lemma NothingMissing(g: Generator, s: Segment)
    requires g.Valid() && !g.Qspi? && s.size < ADDRESS_SPACE
    ensures s.size <= g.Moved(s) && (g.Moved(s) == s.size <==> g.Splits(s))
    ensures g.Moved(s) != s.size ==> g.Uart? || g.I2c?
  {
    match g
    case Uart(_, _, b) => UartSegments.UartCoversExactlyWhen(b, s.size);
    case I2c(_, _, th) => I2cSegments.I2cCoversExactlyWhen(th, s.size);
    case _ =>
  }

  /** The device is ready for the buffer, and so is memory. */
  predicate Ready(g: Generator, reg: nat, s: State, segs: seq<Segment>)
    requires g.Valid() && !g.Zeroing?
  {
    && reg % g.Width() == 0 && |s.mem| <= reg && RegisterSet(g.d, reg, s) && s.fifo == []
    && Proper(segs, |s.mem|) && AllInElements(g, segs) && (g.d.ToMem? ==> Total(segs) <= |s.rx|)
  }

  lemma PrefixParts(rx: seq<Byte>, n: nat, m: nat)
    requires n <= m <= |rx|
    ensures rx[..m][..n] == rx[..n] && rx[n..][..m - n] == rx[..m][n..] && rx[n..][m - n..] == rx[m..]
  {
  }

  lemma ScatterStep(mem: seq<Byte>, segs: seq<Segment>, n: nat, data: seq<Byte>, first: seq<Byte>, rest: seq<Byte>)
    requires segs != [] && Proper(segs, |mem|) && |data| == Total(segs) && n == segs[0].size
    requires first == data[..n] && rest == data[n..]
    ensures Scatter(mem, segs, data) == Scatter(Splice(mem, segs[0].pa, first), segs[1..], rest)
  {
  }

  lemma AccessesStep(trace: seq<Event>, reg: nat, w: nat, rx: seq<Byte>, n: nat, m: nat)
    requires BeatSize(w) && n % w == 0 && n <= m <= |rx|
    ensures trace + Accesses(false, reg, w, rx[..n]) + Accesses(false, reg, w, rx[n..][..m - n])
         == trace + Accesses(false, reg, w, rx[..m])
  {
    assert rx[..m] == rx[..n] + rx[n..][..m - n];
    AccessesConcat(false, reg, w, rx[..n], rx[n..][..m - n]);
  }

  lemma GatherStep(trace: seq<Event>, reg: nat, w: nat, mem: seq<Byte>, segs: seq<Segment>)
    requires segs != [] && Proper(segs, |mem|) && BeatSize(w) && segs[0].size % w == 0
    ensures trace + Accesses(true, reg, w, mem[segs[0].pa..segs[0].pa + segs[0].size]) + Accesses(true, reg, w,
          Gather(mem, segs[1..]))
         == trace + Accesses(true, reg, w, Gather(mem, segs))
  {
    AccessesConcat(true, reg, w, mem[segs[0].pa..segs[0].pa + segs[0].size], Gather(mem, segs[1..]));
  }

  /** From s to t the buffer has gone out to the register, element by element and in order. */
  predicate Sent(reg: nat, w: nat, s: State, segs: seq<Segment>, t: State)
    requires 0 < w && Proper(segs, |s.mem|)
  {
    && t.mem == s.mem && t.rx == s.rx && t.fifo == [] && t.dar == reg
    && t.trace == s.trace + Accesses(true, reg, w, Gather(s.mem, segs))
  }

  lemma {:induction false} SentThenRest(reg: nat, w: nat, s: State, mid: State, segs: seq<Segment>, t: State)
    requires BeatSize(w) && segs != [] && Proper(segs, |s.mem|) && segs[0].size % w == 0
    requires Streamed(FromMem, reg, w, s, segs[0].pa, segs[0].size, mid)
    requires Sent(reg, w, mid, segs[1..], t)
    ensures Sent(reg, w, s, segs, t)
  {
    GatherStep(s.trace, reg, w, s.mem, segs);
  }

  lemma {:induction false} BufferSent(g: Generator, reg: nat, s: State, segs: seq<Segment>) returns (t: State)
    requires g.Valid() && !g.Zeroing? && g.d.FromMem? && Ready(g, reg, s, segs)
    ensures Exec(EachSegment(g, segs), s) == Ok(t) && Sent(reg, g.Width(), s, segs, t)
    decreases segs
  {
    if segs == [] {
      t := s;
      assert s.trace + [] == s.trace;
    } else {
      SplitsMoved(g, segs[0]);
      var mid := SegmentRuns(g, reg, s, segs[0]);
      t := BufferSent(g, reg, mid, segs[1..]);
      ExecSeq(SegmentProgram(g, segs[0]), EachSegment(g, segs[1..]), s, mid);
      SentThenRest(reg, g.Width(), s, mid, segs, t);
    }
  }

  /** From s to t the buffer has been filled with what the register yields, in order, and nothing
      else has changed. */
  predicate Received(reg: nat, w: nat, s: State, segs: seq<Segment>, t: State)
    requires 0 < w && Proper(segs, |s.mem|) && Total(segs) <= |s.rx|
  {
    var n := Total(segs);
    && t.mem == Scatter(s.mem, segs, s.rx[..n]) && t.rx == s.rx[n..] && t.fifo == [] && t.sar == reg
    && t.trace == s.trace + Accesses(false, reg, w, s.rx[..n])
  }

  lemma {:induction false} ReceivedThenRest(reg: nat, w: nat, s: State, mid: State, segs: seq<Segment>, t: State)
    requires BeatSize(w) && segs != [] && Proper(segs, |s.mem|) && Total(segs) <= |s.rx| && segs[0].size % w == 0
    requires Streamed(ToMem, reg, w, s, segs[0].pa, segs[0].size, mid)
    requires Received(reg, w, mid, segs[1..], t)
    ensures Received(reg, w, s, segs, t)
  {
    var n, m := segs[0].size, Total(segs);
    PrefixParts(s.rx, n, m);
    ScatterStep(s.mem, segs, n, s.rx[..m], s.rx[..n], s.rx[n..][..m - n]);
    AccessesStep(s.trace, reg, w, s.rx, n, m);
  }

  lemma {:induction false} BufferReceived(g: Generator, reg: nat, s: State, segs: seq<Segment>) returns (t: State)
    requires g.Valid() && !g.Zeroing? && g.d.ToMem? && Ready(g, reg, s, segs)
    ensures Exec(EachSegment(g, segs), s) == Ok(t) && Received(reg, g.Width(), s, segs, t)
    decreases segs
  {
    if segs == [] {
      t := s;
    } else {
      SplitsMoved(g, segs[0]);
      var mid := SegmentRuns(g, reg, s, segs[0]);
      t := BufferReceived(g, reg, mid, segs[1..]);
      ExecSeq(SegmentProgram(g, segs[0]), EachSegment(g, segs[1..]), s, mid);
      ReceivedThenRest(reg, g.Width(), s, mid, segs, t);
    }
  }

  lemma PrefaceRuns(g: Generator, reg: nat, segs: seq<Segment>, s: State) returns (t: State)
    requires !g.Zeroing?
    ensures t.mem == s.mem && t.rx == s.rx && t.fifo == s.fifo && t.trace == s.trace && RegisterSet(g.d, reg, t)
    ensures Exec(BufferProgram(g, reg, segs), s) == Exec(EachSegment(g, segs), t)
  {
    t := if g.d.FromMem? then s.(dar := reg) else s.(sar := reg);
    ExecSeq(Preface(g, reg), EachSegment(g, segs), s, t);
  }

  // ---- What the controller does with a whole request ----

  lemma ZeroHalts(s: State, segs: seq<Segment>, event: Option<nat>) returns (t: State)
    requires Proper(segs, |s.mem|) && s.fifo == []
    ensures Reaches(ProgramText(BufferProgram(Zeroing, 0, segs), event, false), Running(0, [], s), Halted(t))
    ensures t.mem == Scatter(s.mem, segs, Zeros(Total(segs))) && t.fifo == [] && t.trace == s.trace + Signals(event)
  {
    var mid := ZeroesRun(s, segs);
    ExecSeq(Skip, EachSegment(Zeroing, segs), s, s);
    BufferWellFormed(Zeroing, 0, segs);
    t := RequestHalts(BufferProgram(Zeroing, 0, segs), event, false, s, mid);
  }

  lemma SendHalts(g: Generator, reg: nat, s: State, segs: seq<Segment>, event: Option<nat>) returns (t: State)
    requires g.Valid() && !g.Zeroing? && g.d.FromMem? && Ready(g, reg, s.(dar := reg), segs)
    ensures Reaches(ProgramText(BufferProgram(g, reg, segs), event, false), Running(0, [], s), Halted(t))
    ensures t.mem == s.mem && t.rx == s.rx && t.fifo == []
    ensures t.trace == s.trace + Accesses(true, reg, g.Width(), Gather(s.mem, segs)) + Signals(event)
    ensures |t.trace| == |s.trace| + Total(segs) / g.Width() + |Signals(event)|
  {
    var begun := PrefaceRuns(g, reg, segs, s);
    var mid := BufferSent(g, reg, begun, segs);
    BufferWellFormed(g, reg, segs);
    t := RequestHalts(BufferProgram(g, reg, segs), event, false, s, mid);
    AccessCount(true, reg, g.Width(), Gather(s.mem, segs));
  }

  lemma ReceiveHalts(g: Generator, reg: nat, s: State, segs: seq<Segment>, event: Option<nat>) returns (t: State)
    requires g.Valid() && !g.Zeroing? && g.d.ToMem? && Ready(g, reg, s.(sar := reg), segs)
    ensures Reaches(ProgramText(BufferProgram(g, reg, segs), event, false), Running(0, [], s), Halted(t))
    ensures var n := Total(segs);
            && t.mem == Scatter(s.mem, segs, s.rx[..n]) && t.rx == s.rx[n..] && t.fifo == []
            && t.trace == s.trace + Accesses(false, reg, g.Width(), s.rx[..n]) + Signals(event)
    ensures |t.trace| == |s.trace| + Total(segs) / g.Width() + |Signals(event)|
  {
    var begun := PrefaceRuns(g, reg, segs, s);
    var mid := BufferReceived(g, reg, begun, segs);
    BufferWellFormed(g, reg, segs);
    t := RequestHalts(BufferProgram(g, reg, segs), event, false, s, mid);
    AccessCount(false, reg, g.Width(), s.rx[..Total(segs)]);
  }

  /** Byte i of the k-th access that the device sees of a buffer sent to it: byte k times width
      plus i of the buffer, from its physical address, wherever the segments put it. */
  lemma ElementSent(g: Generator, reg: nat, mem: seq<Byte>, segs: seq<Segment>, k: nat, i: nat, at: nat)
    requires g.Valid() && Proper(segs, |mem|) && i < g.Width() && (k + 1) * g.Width() <= Total(segs)
    requires at == k * g.Width() + i
    ensures var events := Accesses(true, reg, g.Width(), Gather(mem, segs));
            k < |events| && events[k].RegWrite? && events[k].reg == reg && |events[k].value| == g.Width()
    ensures InMemory(segs, at, |mem|)
    ensures Accesses(true, reg, g.Width(), Gather(mem, segs))[k].value[i] == mem[Address(segs, at)]
  {
    var w, data := g.Width(), Gather(mem, segs);
    assert (k + 1) * w == k * w + w;
    AccessesAt(true, reg, w, data, k);
    GatherAt(mem, segs, at);
    var v := data[k * w..(k + 1) * w];
    assert v[i] == data[at];
  }

  /** What a buffer holds after it has been filled from the device: byte k of what the device
      yielded, at the physical address of byte k; and memory outside it is as it was. */
  lemma ByteReceived(mem: seq<Byte>, segs: seq<Segment>, data: seq<Byte>, k: nat, a: nat)
    requires Proper(segs, |mem|) && Distinct(segs) && |data| == Total(segs) && k < |data| && a < |mem|
    ensures InMemory(segs, k, |mem|) && Scatter(mem, segs, data)[Address(segs, k)] == data[k]
    ensures Outside(a, segs) ==> Scatter(mem, segs, data)[a] == mem[a]
  {
    ScatterAt(mem, segs, data, k);
    if Outside(a, segs) { ScatterKeeps(mem, segs, data, a); }
  }

  /** Byte k of the buffer, from its physical address. */
  ghost predicate IsByte(b: Byte, mem: seq<Byte>, segs: seq<Segment>, k: nat) {
    InMemory(segs, k, |mem|) && b == mem[Address(segs, k)]
  }

  /** The bytes of the buffer from `at` on. */
  ghost predicate BytesAt(value: seq<Byte>, mem: seq<Byte>, segs: seq<Segment>, at: nat) {
    forall i | 0 <= i < |value| :: IsByte(value[i], mem, segs, at + i)
  }

  /** The event is element k of the buffer going to the register. */
  ghost predicate CarriesElement(e: Event, reg: nat, w: nat, mem: seq<Byte>, segs: seq<Segment>, k: nat) {
    e.RegWrite? && e.reg == reg && |e.value| == w && 0 <= k * w && BytesAt(e.value, mem, segs, k * w)
  }

  lemma ElementCarried(reg: nat, w: nat, mem: seq<Byte>, segs: seq<Segment>, k: nat)
    requires BeatSize(w) && Proper(segs, |mem|) && k < Total(segs) / w
    ensures var events := Accesses(true, reg, w, Gather(mem, segs));
            k < |events| && CarriesElement(events[k], reg, w, mem, segs, k)
  {
    var data, from, to := Gather(mem, segs), k * w, (k + 1) * w;
    WithinQuotient(k, w, Total(segs));
    AccessesAt(true, reg, w, data, k);
    assert to == from + w;
    SliceIsBytes(mem, segs, from, to);
  }

  lemma SliceIsBytes(mem: seq<Byte>, segs: seq<Segment>, from: nat, to: nat)
    requires Proper(segs, |mem|) && from <= to <= Total(segs)
    ensures BytesAt(Gather(mem, segs)[from..to], mem, segs, from)
  {
    var value := Gather(mem, segs)[from..to];
    forall i | 0 <= i < |value| ensures IsByte(value[i], mem, segs, from + i) {
      GatherAt(mem, segs, from + i);
    }
  }

  lemma WithinQuotient(k: nat, w: nat, n: nat)
    requires 0 < w && k < n / w
    ensures (k + 1) * w <= n
  {
    assert (k + 1) * w <= n / w * w;
  }

  /** Event k is element k of the buffer, for as many as there are. */
  ghost predicate ElementsCarried(events: seq<Event>, reg: nat, w: nat, mem: seq<Byte>, segs: seq<Segment>) {
    forall k | 0 <= k < |events| :: CarriesElement(events[k], reg, w, mem, segs, k)
  }

  /** A request to write `count` elements to a register, whose byte count fits: the device sees
      exactly `count` writes, the k-th of element k of the buffer, and then the event if one was
      wanted. */
  lemma RegisterElementsSent(reg: nat, w: nat, count: nat, s: State, segs: seq<Segment>, event: Option<nat>)
    returns (t: State, e: seq<Event>)
    requires BeatSize(w) && Covers(segs, ByteCount(count, w)) && count * w < ADDRESS_SPACE
    requires Ready(Register(FromMem, w), reg, s.(dar := reg), segs)
    ensures Reaches(ProgramText(BufferProgram(Register(FromMem, w), reg, segs), event, false), Running(0, [], s),
                    Halted(t))
    ensures t.mem == s.mem && t.trace == s.trace + e + Signals(event)
    ensures |e| == count && ElementsCarried(e, reg, w, s.mem, segs)
  {
    t := SendHalts(Register(FromMem, w), reg, s, segs, event);
    RegisterRequestComplete(count, w, segs);
    e := Accesses(true, reg, w, Gather(s.mem, segs));
    AccessCount(true, reg, w, Gather(s.mem, segs));
    forall k | 0 <= k < |e| ensures CarriesElement(e[k], reg, w, s.mem, segs, k) {
      ElementCarried(reg, w, s.mem, segs, k);
    }
  }

  /** The event is the k-th element that the device yields being read. */
  predicate ReadsElement(e: Event, reg: nat, w: nat, rx: seq<Byte>, k: nat) {
    0 <= k * w && (k + 1) * w <= |rx| && e == RegRead(reg, rx[k * w..(k + 1) * w])
  }

  predicate ElementsRead(events: seq<Event>, reg: nat, w: nat, rx: seq<Byte>) {
    forall k | 0 <= k < |events| :: ReadsElement(events[k], reg, w, rx, k)
  }

  lemma ElementRead(reg: nat, w: nat, rx: seq<Byte>, n: nat, k: nat)
    requires BeatSize(w) && n <= |rx| && k < n / w
    ensures var events := Accesses(false, reg, w, rx[..n]); k < |events| && ReadsElement(events[k], reg, w, rx, k)
  {
    var from, to := k * w, (k + 1) * w;
    WithinQuotient(k, w, n);
    AccessesAt(false, reg, w, rx[..n], k);
    assert from <= to by { assert to == from + w; }
    PartOfPrefix(rx, n, from, to);
  }

  lemma PartOfPrefix(rx: seq<Byte>, n: nat, from: nat, to: nat)
    requires from <= to <= n <= |rx|
    ensures rx[..n][from..to] == rx[from..to]
  {
  }

  /** A request to read `count` elements: exactly `count` reads, the k-th of the k-th element that
      the device yields. */
  lemma RegisterElementsReceived(reg: nat, w: nat, count: nat, s: State, segs: seq<Segment>, event: Option<nat>)
    returns (t: State, e: seq<Event>)
    requires BeatSize(w) && Covers(segs, ByteCount(count, w)) && count * w < ADDRESS_SPACE
    requires Ready(Register(ToMem, w), reg, s.(sar := reg), segs)
    ensures Reaches(ProgramText(BufferProgram(Register(ToMem, w), reg, segs), event, false), Running(0, [], s),
                    Halted(t))
    ensures Total(segs) == count * w && t.mem == Scatter(s.mem, segs, s.rx[..Total(segs)])
    ensures t.trace == s.trace + e + Signals(event) && |e| == count && ElementsRead(e, reg, w, s.rx)
  {
    t := ReceiveHalts(Register(ToMem, w), reg, s, segs, event);
    RegisterRequestComplete(count, w, segs);
    var n := Total(segs);
    e := Accesses(false, reg, w, s.rx[..n]);
    AccessCount(false, reg, w, s.rx[..n]);
    forall k | 0 <= k < |e| ensures ReadsElement(e[k], reg, w, s.rx, k) {
      ElementRead(reg, w, s.rx, n, k);
    }
  }
}
