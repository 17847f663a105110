/** Writing to an I2C device as bus master.  The first and the last byte may carry RESTART and
    STOP, and then go through the scratch buffer; the bytes between them go straight out. */
module I2cWrite {
  import opened Bytes
  import opened Options
  import opened Pl330
  import opened Assembler
  import opened Coalescing
  import opened Closing
  import opened Streams
  import opened I2cCommands
  import opened Requests
  import I2cRead

  /** A request to write: the data register, the DMA request line, the physical address of the
      scratch buffer, the transmit threshold, and what the first and last byte carry. */
  datatype Writer = Writer(reg: nat, periph: nat, scratch: nat, threshold: nat, restart: bool, stop: bool)

  /** How many bytes go straight out, and where they begin. */
  function MiddleSize(w: Writer, size: nat): nat {
    var n := size - (if w.stop && 0 < size then 1 else 0);
    n - (if w.restart && 0 < n then 1 else 0)
  }

  function MiddleStart(w: Writer): nat {
    if w.restart then 1 else 0
  }

  function FirstProgram(w: Writer): Prog {
    if w.restart then Custom(w.reg, w.periph, w.scratch + 4, 1, true) else Skip
  }

  function MiddleProgram(w: Writer, n: nat, segs: seq<Segment>): Prog {
    if n > 0 then BufferProgram(I2c(FromMem, w.periph, w.threshold), w.reg, segs) else Skip
  }

  /** The last byte sets the registers again only if the middle has changed them. */
  function LastProgram(w: Writer, n: nat): Prog {
    if w.stop then Custom(w.reg, w.periph, w.scratch + 8, 1, n != 0) else Skip
  }

  function WriteMaster(w: Writer, size: nat, segs: seq<Segment>): Prog {
    if size == 1 then Custom(w.reg, w.periph, w.scratch + 12, 1, true)
    else
      Seq(FirstProgram(w), Seq(MiddleProgram(w, MiddleSize(w, size), segs), LastProgram(w, MiddleSize(w, size))))
  }

  /** The scratch buffer after the program has been generated from `data`. */
  function WriteScratch(w: Writer, data: seq<Byte>, before: seq<Command>): seq<Command>
    requires data != [] && |before| == 4
  {
    if |data| == 1 then before[3 := Send(data[0], w.restart, w.stop)]
    else
      var s := if w.stop then before[2 := Send(data[|data| - 1], false, true)] else before;
      if w.restart then s[1 := Send(data[0], true, false)] else s
  }

  /** Fills the scratch buffer and writes the program.  segs translates the bytes in between. */
  method EmitWriteMaster(
    program: Program, status: Status, w: Writer, scratch: array<Command>, src: nat, data: seq<Byte>, segs: seq<Segment>)
    returns (s: Status)
    requires program.Holds(status) && status.Ordinary() && data != [] && scratch.Length == 4
    requires |data| < ADDRESS_SPACE && InAddressSpace(src, |data|) && Covers(segs, MiddleSize(w, |data|))
    modifies program, scratch
    ensures program.Holds(s) && s.Ordinary()
    ensures program.intended == Append(old(program.intended), WriteMaster(w, |data|, segs))
    ensures scratch[..] == WriteScratch(w, data, old(scratch[..]))
  {
    s := status;
    var size: nat := |data|;
    if size == 1 {
      scratch[3] := Send(data[0], w.restart, w.stop);
      s := EmitCustom(program, s, w.reg, w.periph, w.scratch + 4 * 3, 1, true);
      return;
    }
    var from := src;
    if w.stop {
      scratch[2] := Send(data[size - 1], false, true);
      size := size - 1;
    }
    if w.restart {
      scratch[1] := Send(data[0], true, false);
      size := size - 1;
      s := EmitCustom(program, s, w.reg, w.periph, w.scratch + 4 * 1, 1, true);
      from := from + 1;
    }
    ghost var c1 := program.intended;
    I2cRead.AllBytesAccepted(FromMem, w.periph, w.threshold, segs);
    if s == Success && size > 0 {
      s := EmitBuffer(program, s, I2c(FromMem, w.periph, w.threshold), w.reg, from, size, segs);
    } else if s != Success {
      program.Forgo(s, MiddleProgram(w, size, segs));
    }
    ghost var c2 := program.intended;
    if w.stop {
      s := EmitCustom(program, s, w.reg, w.periph, w.scratch + 4 * 2, 1, size != 0);
    }
    AppendSeq(c1, MiddleProgram(w, size, segs), LastProgram(w, size));
    AppendSeq(old(program.intended), FirstProgram(w), Seq(MiddleProgram(w, size, segs), LastProgram(w, size)));
  }

  /** The whole request. */
  method WriteRequest(
    program: Program, w: Writer, scratch: array<Command>, src: nat, data: seq<Byte>, segs: seq<Segment>,
        sendEvent: bool, evt: nat)
    returns (status: Status)
    requires data != [] && scratch.Length == 4 && src < ADDRESS_SPACE && |data| < ADDRESS_SPACE
    requires Covers(segs, MiddleSize(w, |data|))
    modifies program, scratch
    ensures !InAddressSpace(src, |data|) ==> status == BadArg
    ensures Generated(status, program, InAddressSpace(src, |data|), WriteMaster(w, |data|, segs),
                      Wanted(sendEvent, evt))
    ensures InAddressSpace(src, |data|) ==> scratch[..] == WriteScratch(w, data, old(scratch[..]))
  {
    status := program.Init();
    OvershootsExactly(src, |data|);
    if Overshoots(src, |data|) {
      return BadArg;
    }
    status := EmitWriteMaster(program, status, w, scratch, src, data, segs);
    status := Close(program, status, sendEvent, evt, true, WriteMaster(w, |data|, segs));
  }

  // ---- What the device sees ----

  /** e puts exactly the bytes of data on the bus, in order, RESTART with the first and STOP with
      the last as wanted. */
  predicate Sent(w: Writer, data: seq<Byte>, e: seq<Event>) {
    && |e| == |data|
    && forall i | 0 <= i < |e| ::
         SendsByte(e[i], w.reg, data[i], w.restart && i == 0, w.stop && i + 1 == |data|)
  }

  /** Memory as the program finds it: the scratch buffer as it was filled, and in the segments
      the bytes that go straight out. */
  predicate Prepared(w: Writer, s: State, data: seq<Byte>, words: seq<Command>, segs: seq<Segment>) {
    && s.fifo == [] && |s.mem| <= w.reg && w.reg % 4 == 0 && data != []
    && |words| == 4 && ScratchHolds(s.mem, w.scratch, words) && words == WriteScratch(w, data, words)
    && Proper(segs, |s.mem|) && Total(segs) == MiddleSize(w, |data|)
    && AllInElements(I2c(FromMem, w.periph, w.threshold), segs)
    && (|data| > 1 ==> Gather(s.mem, segs) == data[MiddleStart(w)..MiddleStart(w) + MiddleSize(w, |data|)])
  }

  /** Once filled for some data, the scratch buffer stays as it is. */
  lemma ScratchSettles(w: Writer, data: seq<Byte>, before: seq<Command>)
    requires data != [] && |before| == 4
    ensures var words := WriteScratch(w, data, before); |words| == 4 && WriteScratch(w, data, words) == words
  {
  }

  lemma SendWord(w: Writer, s: State, words: seq<Command>, entry: nat, first: bool) returns (t: State)
    requires s.fifo == [] && |s.mem| <= w.reg && w.reg % 4 == 0 && entry < 4
    requires ScratchHolds(s.mem, w.scratch, words) && words[entry].Send? && (first || WordReady(s, w.reg))
    ensures Exec(Custom(w.reg, w.periph, w.scratch + 4 * entry, 1, first), s) == Ok(t) && WordReady(t, w.reg)
    ensures t.mem == s.mem && t.rx == s.rx && t.trace == s.trace + [RegWrite(w.reg, WordBytes(words[entry]))]
    ensures var c := words[entry]; SendsByte(RegWrite(w.reg, WordBytes(c)), w.reg, c.data, c.restart, c.stop)
  {
    var word := WordBytes(words[entry]);
    assert s.mem[w.scratch + 4 * entry..w.scratch + 4 * entry + 4] == word;
    CustomRuns(s, w.reg, w.periph, w.scratch + 4 * entry, 1, first, word);
    t := Written(s, w.reg, w.scratch + 4 * entry, word, 1);
    assert Many(RegWrite(w.reg, word), 1) == [RegWrite(w.reg, word)];
    WordIsCommand(w.reg, words[entry]);
  }

  lemma MiddleRuns(w: Writer, s: State, n: nat, segs: seq<Segment>) returns (t: State)
    requires s.fifo == [] && |s.mem| <= w.reg && Proper(segs, |s.mem|) && Total(segs) == n
    requires AllInElements(I2c(FromMem, w.periph, w.threshold), segs)
    ensures Exec(MiddleProgram(w, n, segs), s) == Ok(t) && t.mem == s.mem && t.rx == s.rx && t.fifo == []
    ensures t.trace == s.trace + Accesses(true, w.reg, 1, Gather(s.mem, segs)) && (n == 0 ==> t == s)
  {
    if n == 0 {
      t := s;
      assert s.trace + [] == s.trace;
    } else {
      var g := I2c(FromMem, w.periph, w.threshold);
      var begun := PrefaceRuns(g, w.reg, segs, s);
      t := BufferSent(g, w.reg, begun, segs);
    }
  }

  lemma {:induction false} ByteAccesses(reg: nat, bytes: seq<Byte>)
    ensures var e := Accesses(true, reg, 1, bytes);
            |e| == |bytes| && forall i | 0 <= i < |e| :: e[i] == RegWrite(reg, [bytes[i]])
  {
    if bytes != [] {
      ByteAccesses(reg, bytes[1..]);
      var e, rest := Accesses(true, reg, 1, bytes), Accesses(true, reg, 1, bytes[1..]);
      forall i | 0 <= i < |e| ensures e[i] == RegWrite(reg, [bytes[i]]) {
        if i > 0 { assert e[i] == rest[i - 1]; }
      }
    }
  }

  /** The bytes in between, each on its own. */
  predicate SentBare(reg: nat, bytes: seq<Byte>, e: seq<Event>) {
    |e| == |bytes| && forall i | 0 <= i < |e| :: SendsByte(e[i], reg, bytes[i], false, false)
  }

  lemma BytesSentBare(reg: nat, bytes: seq<Byte>)
    ensures SentBare(reg, bytes, Accesses(true, reg, 1, bytes))
  {
    ByteAccesses(reg, bytes);
  }

  /** The three parts put together. */
  lemma PartsSent(w: Writer, data: seq<Byte>, a: seq<Event>, b: seq<Event>, c: seq<Event>)
    requires 2 <= |data| && |a| == MiddleStart(w) && |c| == (if w.stop then 1 else 0)
    requires a != [] ==> SendsByte(a[0], w.reg, data[0], true, false)
    requires SentBare(w.reg, data[MiddleStart(w)..MiddleStart(w) + MiddleSize(w, |data|)], b)
    requires c != [] ==> SendsByte(c[0], w.reg, data[|data| - 1], false, true)
    ensures Sent(w, data, a + b + c)
  {
    var e, middle := a + b + c, data[MiddleStart(w)..MiddleStart(w) + MiddleSize(w, |data|)];
    forall i | 0 <= i < |e|
      ensures SendsByte(e[i], w.reg, data[i], w.restart && i == 0, w.stop && i + 1 == |data|)
    {
      if |a| <= i < |a| + |b| { assert e[i] == b[i - |a|] && middle[i - |a|] == data[i]; }
    }
  }

  lemma TraceOfThree(trace: seq<Event>, a: seq<Event>, b: seq<Event>, c: seq<Event>)
    ensures trace + a + b + c == trace + (a + b + c)
  {
  }

  lemma SeveralSent(w: Writer, s: State, data: seq<Byte>, words: seq<Command>, segs: seq<Segment>)
    returns (t: State, e: seq<Event>)
    requires Prepared(w, s, data, words, segs) && 2 <= |data|
    ensures Exec(WriteMaster(w, |data|, segs), s) == Ok(t) && t.mem == s.mem && t.rx == s.rx && t.fifo == []
    ensures t.trace == s.trace + e && Sent(w, data, e)
  {
    var n := MiddleSize(w, |data|);
    var a, c: seq<Event>, t1, t2 := [], [], s, s;
    if w.restart {
      t1 := SendWord(w, s, words, 1, true);
      a := [RegWrite(w.reg, WordBytes(words[1]))];
    }
    assert t1.trace == s.trace + a;
    t2 := MiddleRuns(w, t1, n, segs);
    var b := Accesses(true, w.reg, 1, Gather(s.mem, segs));
    t := t2;
    if w.stop {
      t := SendWord(w, t2, words, 2, n != 0);
      c := [RegWrite(w.reg, WordBytes(words[2]))];
    }
    assert t.trace == t2.trace + c;
    e := a + b + c;
    TraceOfThree(s.trace, a, b, c);
    ExecSeq(MiddleProgram(w, n, segs), LastProgram(w, n), t1, t2);
    ExecSeq(FirstProgram(w), Seq(MiddleProgram(w, n, segs), LastProgram(w, n)), s, t1);
    BytesSentBare(w.reg, Gather(s.mem, segs));
    PartsSent(w, data, a, b, c);
  }

  lemma WriteWellFormed(w: Writer, size: nat, segs: seq<Segment>)
    ensures WellFormed(WriteMaster(w, size, segs), 2)
  {
    var n := MiddleSize(w, size);
    CustomWellFormed(w.reg, w.periph, w.scratch + 12, 1, true);
    CustomWellFormed(w.reg, w.periph, w.scratch + 4, 1, true);
    CustomWellFormed(w.reg, w.periph, w.scratch + 8, 1, n != 0);
    BufferWellFormed(I2c(FromMem, w.periph, w.threshold), w.reg, segs);
    assert WellFormed(MiddleProgram(w, n, segs), 2) && WellFormed(LastProgram(w, n), 2) &&
           WellFormed(FirstProgram(w), 2);
  }

  /** What the program itself does, before the event. */
  lemma WriteMasterRuns(w: Writer, s: State, data: seq<Byte>, words: seq<Command>, segs: seq<Segment>)
    returns (t: State, e: seq<Event>)
    requires Prepared(w, s, data, words, segs)
    ensures Exec(WriteMaster(w, |data|, segs), s) == Ok(t) && t.trace == s.trace + e && Sent(w, data, e)
    ensures t.mem == s.mem && t.rx == s.rx && t.fifo == []
  {
    if |data| == 1 {
      t := SendWord(w, s, words, 3, true);
      e := [RegWrite(w.reg, WordBytes(words[3]))];
    } else {
      t, e := SeveralSent(w, s, data, words, segs);
    }
  }

  /** A write as bus master, for any data: the bus sees exactly these bytes in this order, RESTART
      on the first only and STOP on the last only, if at all; also when first and last are all
      there is. */
  lemma WriteMasterHalts(w: Writer, s: State, data: seq<Byte>, words: seq<Command>, segs: seq<Segment>,
      event: Option<nat>)
    returns (t: State, e: seq<Event>)
    requires Prepared(w, s, data, words, segs)
    ensures Reaches(ProgramText(WriteMaster(w, |data|, segs), event, false), Running(0, [], s), Halted(t))
    ensures t.trace == s.trace + e + Signals(event) && Sent(w, data, e)
    ensures t.mem == s.mem && t.rx == s.rx && t.fifo == []
  {
    var done;
    done, e := WriteMasterRuns(w, s, data, words, segs);
    WriteWellFormed(w, |data|, segs);
    t := RequestHalts(WriteMaster(w, |data|, segs), event, false, s, done);
  }
}
