/** Reading from an I2C device as bus master.  Every byte has to be asked for, and no more may be
    asked for than the controller's FIFOs hold, so asking and reading take turns. */
module I2cRead {
  import opened Bytes
  import opened Options
  import opened Pl330
  import opened Assembler
  import opened Coalescing
  import opened Closing
  import opened Streams
  import opened MemoryCopy
  import opened I2cCommands
  import opened Requests

  /** What a request to read is made of: the data register, the DMA request line for receiving, the
      physical address of the scratch buffer, the FIFO size and the receive threshold. */
  datatype Master = Master(reg: nat, rxPeriph: nat, scratch: nat, fifo: nat, threshold: nat) {
    predicate Valid() {
      2 <= fifo < ADDRESS_SPACE && 0 < rxPeriph
    }

    /** The request line for transmitting is always the one before. */
    function TxPeriph(): nat {
      if rxPeriph == 0 then 0 else rxPeriph - 1
    }

    function Half(): nat {
      fifo / 2
    }
  }

  /** Command i of n. */
  function AskFor(i: nat, n: nat, restart: bool, stop: bool): Command {
    Ask(restart && i == 0, stop && i + 1 == n)
  }

  /** The scratch buffer: middle, first, last and only request. */
  function ReadScratch(restart: bool, stop: bool): seq<Command> {
    [Ask(false, false), Ask(restart, false), Ask(false, stop), Ask(restart, stop)]
  }

  // ---- The program ----

  function AskProgram(m: Master, entry: nat, count: nat, first: bool): Prog {
    Custom(m.reg, m.TxPeriph(), m.scratch + 4 * entry, count, first)
  }

  function Prefill(m: Master, size: nat): Prog {
    var count := Min(size, m.fifo);
    if count == 1 then AskProgram(m, 3, 1, true)
    else if count == size then
      Seq(AskProgram(m, 1, 1, true),
          Seq(if count > 2 then AskProgram(m, 0, count - 2, false) else Skip, AskProgram(m, 2, 1, false)))
    else
      Seq(AskProgram(m, 1, 1, true), AskProgram(m, 0, Decrement(count), false))
  }

  function Refill(m: Master, txLeft: nat): Prog {
    var count := Min(txLeft, m.Half());
    if txLeft == 0 then Skip
    else if count == txLeft then
      Seq(AskProgram(m, 0, Decrement(count), true), AskProgram(m, 2, 1, false))
    else AskProgram(m, 0, count, true)
  }

  function Decrement(n: nat): nat {
    if n == 0 then 0 else n - 1
  }

  /** The i-th buffer that is read has the i-th translation. */
  predicate Pieces(pieces: seq<seq<Segment>>, size: nat, half: nat)
    decreases pieces
  {
    if size == 0 then pieces == []
    else pieces != [] && Covers(pieces[0], Min(size, half)) && Pieces(pieces[1..], size - Min(size, half), half)
  }

  function ReadBack(m: Master, segs: seq<Segment>): Prog {
    BufferProgram(I2c(ToMem, m.rxPeriph, m.threshold), m.reg, segs)
  }

  function Rounds(m: Master, txLeft: nat, pieces: seq<seq<Segment>>): Prog
    decreases pieces
  {
    if pieces == [] then Skip
    else
      Seq(ReadBack(m, pieces[0]),
          Seq(Refill(m, txLeft), Rounds(m, txLeft - Min(txLeft, m.Half()), pieces[1..])))
  }

  function ReadMaster(m: Master, size: nat, pieces: seq<seq<Segment>>): Prog {
    Seq(Prefill(m, size), Rounds(m, size - Min(size, m.fifo), pieces))
  }

  // ---- Generating ----

  method EmitPrefill(program: Program, status: Status, m: Master, size: nat) returns (s: Status)
    requires program.Holds(status) && status.Ordinary() && 0 < size && m.Valid()
    modifies program
    ensures program.Holds(s) && s.Ordinary() && program.intended == Append(old(program.intended), Prefill(m, size))
  {
    var prefillCount := Min(size, m.fifo);
    if prefillCount == 1 {
      s := EmitCustom(program, status, m.reg, m.TxPeriph(), m.scratch + 4 * 3, 1, true);
    } else if size - prefillCount == 0 {
      s := EmitCustom(program, status, m.reg, m.TxPeriph(), m.scratch + 4 * 1, 1, true);
      ghost var middle := if prefillCount > 2 then AskProgram(m, 0, prefillCount - 2, false) else Skip;
      if prefillCount > 2 {
        s := EmitCustom(program, s, m.reg, m.TxPeriph(), m.scratch + 4 * 0, prefillCount - 2, false);
      }
      s := EmitCustom(program, s, m.reg, m.TxPeriph(), m.scratch + 4 * 2, 1, false);
      var c1 := Append(old(program.intended), AskProgram(m, 1, 1, true));
      AppendSeq(c1, middle, AskProgram(m, 2, 1, false));
      AppendSeq(old(program.intended), AskProgram(m, 1, 1, true), Seq(middle, AskProgram(m, 2, 1, false)));
    } else {
      s := EmitCustom(program, status, m.reg, m.TxPeriph(), m.scratch + 4 * 1, 1, true);
      s := EmitCustom(program, s, m.reg, m.TxPeriph(), m.scratch + 4 * 0, prefillCount - 1, false);
      AppendSeq(old(program.intended), AskProgram(m, 1, 1, true), AskProgram(m, 0, prefillCount - 1, false));
    }
  }

  method EmitRefill(program: Program, status: Status, m: Master, txLeft: nat) returns (s: Status, left: nat)
    requires program.Holds(status) && status.Ordinary() && m.Valid()
    modifies program
    ensures program.Holds(s) && s.Ordinary() && program.intended == Append(old(program.intended), Refill(m, txLeft))
    ensures left == txLeft - Min(txLeft, m.Half())
  {
    s, left := status, txLeft;
    if txLeft > 0 {
      var refillCount := Min(txLeft, m.fifo / 2);
      left := txLeft - refillCount;
      if left == 0 {
        s := EmitCustom(program, s, m.reg, m.TxPeriph(), m.scratch + 4 * 0, refillCount - 1, true);
        s := EmitCustom(program, s, m.reg, m.TxPeriph(), m.scratch + 4 * 2, 1, false);
        AppendSeq(old(program.intended), AskProgram(m, 0, refillCount - 1, true), AskProgram(m, 2, 1, false));
      } else {
        s := EmitCustom(program, s, m.reg, m.TxPeriph(), m.scratch + 4 * 0, refillCount, true);
      }
    }
  }

  lemma {:induction false} AllBytesAccepted(d: Direction, periph: nat, threshold: nat, segs: seq<Segment>)
    ensures AllAccepted(I2c(d, periph, threshold), segs)
  {
    if segs != [] { AllBytesAccepted(d, periph, threshold, segs[1..]); }
  }

  /** One buffer is read, and as much again asked for. */
  method EmitRound(program: Program, status: Status, m: Master, to: nat, count: nat, txLeft: nat, piece: seq<Segment>)
    returns (s: Status, left: nat)
    requires program.Holds(status) && status.Ordinary() && m.Valid() && Covers(piece, count)
    requires to < ADDRESS_SPACE && 0 < count < ADDRESS_SPACE && InAddressSpace(to, count)
    modifies program
    ensures program.Holds(s) && s.Ordinary() && left == txLeft - Min(txLeft, m.Half())
    ensures program.intended == Append(Append(old(program.intended), ReadBack(m, piece)), Refill(m, txLeft))
  {
    AllBytesAccepted(ToMem, m.rxPeriph, m.threshold, piece);
    s := EmitBuffer(program, status, I2c(ToMem, m.rxPeriph, m.threshold), m.reg, to, count, piece);
    s, left := EmitRefill(program, s, m, txLeft);
  }

  /** Reads and refills in turn until everything has been asked for and read. */
  method EmitRounds(program: Program, status: Status, m: Master, dst: nat, size: nat, pieces: seq<seq<Segment>>)
    returns (s: Status)
    requires program.Holds(status) && status.Ordinary() && m.Valid() && size < ADDRESS_SPACE
    requires InAddressSpace(dst, size)
    requires Pieces(pieces, size, m.Half())
    modifies program
    ensures program.Holds(s) && s.Ordinary()
    ensures program.intended == Append(old(program.intended), Rounds(m, size - Min(size, m.fifo), pieces))
  {
    s := status;
    var txLeft: nat, rxLeft: nat, to: nat := size - Min(size, m.fifo), size, dst;
    var rest := pieces;
    ghost var target := Append(program.intended, Rounds(m, txLeft, pieces));
    while rxLeft > 0
      invariant program.Holds(s) && s.Ordinary()
      invariant Pieces(rest, rxLeft, m.Half()) && to + rxLeft == dst + size
      invariant Append(program.intended, Rounds(m, txLeft, rest)) == target
    {
      if s != Success {
        program.Forgo(s, Rounds(m, txLeft, rest));
        break;
      }
      var singleCount := Min(rxLeft, m.fifo / 2);
      RoundText(program.intended, m, txLeft, rest);
      s, txLeft := EmitRound(program, s, m, to, singleCount, txLeft, rest[0]);
      rxLeft := rxLeft - singleCount;
      to := to + singleCount;
      rest := rest[1..];
    }
    if rxLeft == 0 { NoMoreRounds(program.intended, m, txLeft, rest); }
  }

  lemma NoMoreRounds(c: Code, m: Master, txLeft: nat, pieces: seq<seq<Segment>>)
    requires Pieces(pieces, 0, m.Half())
    ensures Append(c, Rounds(m, txLeft, pieces)) == c
  {
  }

  lemma RoundText(c: Code, m: Master, txLeft: nat, pieces: seq<seq<Segment>>)
    requires pieces != []
    ensures Append(c, Rounds(m, txLeft, pieces))
         == Append(Append(Append(c, ReadBack(m, pieces[0])), Refill(m, txLeft)),
                   Rounds(m, txLeft - Min(txLeft, m.Half()), pieces[1..]))
  {
    var a, b, r := ReadBack(m, pieces[0]), Refill(m, txLeft), Rounds(m, txLeft - Min(txLeft, m.Half()), pieces[1..]);
    AppendSeq(c, a, Seq(b, r));
    AppendSeq(Append(c, a), b, r);
  }

  /** Fills the scratch buffer and writes the program. */
  method EmitReadMaster(
    program: Program, status: Status, m: Master, scratch: array<Command>, restart: bool, stop: bool,
    dst: nat, size: nat, pieces: seq<seq<Segment>>) returns (s: Status)
    requires program.Holds(status) && status.Ordinary() && m.Valid() && 0 < size < ADDRESS_SPACE
    requires InAddressSpace(dst, size)
    requires Pieces(pieces, size, m.Half()) && scratch.Length == 4
    modifies program, scratch
    ensures program.Holds(s) && s.Ordinary()
    ensures program.intended == Append(old(program.intended), ReadMaster(m, size, pieces))
    ensures scratch[..] == ReadScratch(restart, stop)
  {
    scratch[0] := Ask(false, false);
    scratch[1] := Ask(restart, false);
    scratch[2] := Ask(false, stop);
    scratch[3] := Ask(restart, stop);
    s := EmitPrefill(program, status, m, size);
    s := EmitRounds(program, s, m, dst, size, pieces);
    AppendSeq(old(program.intended), Prefill(m, size), Rounds(m, size - Min(size, m.fifo), pieces));
  }

  /** The whole request. */
  method ReadRequest(
    program: Program, m: Master, scratch: array<Command>, restart: bool, stop: bool,
    dst: nat, size: nat, pieces: seq<seq<Segment>>, sendEvent: bool, evt: nat) returns (status: Status)
    requires m.Valid() && 0 < size < ADDRESS_SPACE && dst < ADDRESS_SPACE && Pieces(pieces, size, m.fifo / 2)
    requires scratch.Length == 4
    modifies program, scratch
    ensures !InAddressSpace(dst, size) ==> status == BadArg
    ensures Generated(status, program, InAddressSpace(dst, size), ReadMaster(m, size, pieces), Wanted(sendEvent, evt))
    ensures InAddressSpace(dst, size) ==> scratch[..] == ReadScratch(restart, stop)
  {
    status := program.Init();
    OvershootsExactly(dst, size);
    if Overshoots(dst, size) {
      return BadArg;
    }
    status := EmitReadMaster(program, status, m, scratch, restart, stop, dst, size, pieces);
    status := Close(program, status, sendEvent, evt, true, ReadMaster(m, size, pieces));
  }

  // ---- What the device sees ----

  /** The accesses of one kind in a run of events. */
  function Only(writes: bool, e: seq<Event>): seq<Event> {
    if e == [] then []
    else if (if writes then e[0].RegWrite? else e[0].RegRead?) then [e[0]] + Only(writes, e[1..])
    else Only(writes, e[1..])
  }

  /** With `out` requests outstanding before them, the events never have more than `fifo`
      outstanding and never read a byte that has not been asked for; they leave `left`. */
  predicate Window(e: seq<Event>, out: int, left: int, fifo: nat) {
    && 0 <= out <= fifo
    && if e == [] then out == left
       else (e[0].RegWrite? || e[0].RegRead?) && Window(e[1..], if e[0].RegWrite? then out + 1 else out - 1, left, fifo)
  }

  /** The device is asked for `asked`, answers with `read`, and the window is kept. */
  predicate Conversation(e: seq<Event>, asked: seq<Event>, read: seq<Event>, out: int, left: int, fifo: nat) {
    Only(true, e) == asked && Only(false, e) == read && Window(e, out, left, fifo)
  }

  lemma {:induction false} OnlyConcat(writes: bool, a: seq<Event>, b: seq<Event>)
    ensures Only(writes, a + b) == Only(writes, a) + Only(writes, b)
  {
    if a == [] {
      assert a + b == b;
    } else {
      assert (a + b)[1..] == a[1..] + b;
      OnlyConcat(writes, a[1..], b);
    }
  }

  lemma {:induction false} WindowConcat(a: seq<Event>, b: seq<Event>, out: int, mid: int, left: int, fifo: nat)
    requires Window(a, out, mid, fifo) && Window(b, mid, left, fifo)
    ensures Window(a + b, out, left, fifo)
    decreases a
  {
    if a == [] {
      assert a + b == b;
    } else {
      assert (a + b)[1..] == a[1..] + b;
      WindowConcat(a[1..], b, if a[0].RegWrite? then out + 1 else out - 1, mid, left, fifo);
    }
  }

  lemma ConversationConcat(
    a: seq<Event>, b: seq<Event>, asked: seq<Event>, asked': seq<Event>, read: seq<Event>, read': seq<Event>,
    out: int, mid: int, left: int, fifo: nat)
    requires Conversation(a, asked, read, out, mid, fifo) && Conversation(b, asked', read', mid, left, fifo)
    ensures Conversation(a + b, asked + asked', read + read', out, left, fifo)
  {
    OnlyConcat(true, a, b);
    OnlyConcat(false, a, b);
    WindowConcat(a, b, out, mid, left, fifo);
  }

  /** Asking only. */
  lemma {:induction false} AskingOnly(e: seq<Event>, out: int, fifo: nat)
    requires (forall i | 0 <= i < |e| :: e[i].RegWrite?) && 0 <= out && out + |e| <= fifo
    ensures Conversation(e, e, [], out, out + |e|, fifo)
    decreases e
  {
    if e != [] {
      AskingOnly(e[1..], out + 1, fifo);
      assert e == [e[0]] + e[1..];
    }
  }

  /** Reading only. */
  lemma {:induction false} ReadingOnly(reg: nat, bytes: seq<Byte>, out: int, fifo: nat)
    requires |bytes| <= out <= fifo
    ensures Conversation(Accesses(false, reg, 1, bytes), [], Accesses(false, reg, 1, bytes), out, out - |bytes|, fifo)
    decreases bytes
  {
    if bytes != [] {
      var e := Accesses(false, reg, 1, bytes);
      assert e[1..] == Accesses(false, reg, 1, bytes[1..]);
      ReadingOnly(reg, bytes[1..], out - 1, fifo);
      assert e == [e[0]] + e[1..];
    }
  }

  /** These are n requests for a byte, each a word written to the data register with bit 8 set, bit 9
      for STOP on the last only and bit 10 for RESTART on the first only, if at all. */
  predicate Requested(e: seq<Event>, reg: nat, n: nat, restart: bool, stop: bool) {
    && |e| == n
    && forall i | 0 <= i < n ::
         && Puts(e[i], reg, Ask(restart && i == 0, stop && i + 1 == n))
         && e[i].value
            == [0, 1 + (if stop && i + 1 == n then 2 else 0) + (if restart && i == 0 then 4 else 0), 0, 0]
  }

  lemma AskedIsRequested(reg: nat, n: nat, restart: bool, stop: bool)
    ensures Requested(Asked(reg, 0, n, n, restart, stop), reg, n, restart, stop)
  {
    var e := Asked(reg, 0, n, n, restart, stop);
    forall i | 0 <= i < n
      ensures e[i] == RegWrite(reg, WordBytes(AskFor(i, n, restart, stop)))
      ensures Puts(e[i], reg, AskFor(i, n, restart, stop))
    {
      assert e[i] == RegWrite(reg, WordBytes(AskFor(0 + i, n, restart, stop)));
      WordIsCommand(reg, AskFor(i, n, restart, stop));
    }
  }

  /** Commands from to to-1 of n, as the writes that the device sees. */
  function Asked(reg: nat, from: nat, to: nat, n: nat, restart: bool, stop: bool): (e: seq<Event>)
    requires from <= to
    ensures |e| == to - from &&
            forall i | 0 <= i < |e| :: e[i] == RegWrite(reg, WordBytes(AskFor(from + i, n, restart, stop)))
  {
    seq(to - from, i requires 0 <= i => RegWrite(reg, WordBytes(AskFor(from + i, n, restart, stop))))
  }

  /** Memory and registers as the program finds them. */
  predicate Prepared(m: Master, s: State, restart: bool, stop: bool) {
    && s.fifo == [] && |s.mem| <= m.reg && m.reg % 4 == 0
    && ScratchHolds(s.mem, m.scratch, ReadScratch(restart, stop))
  }

  /** The state t is s with more to its trace. */
  predicate Continued(s: State, t: State, e: seq<Event>) {
    t.mem == s.mem && t.rx == s.rx && t.fifo == [] && t.trace == s.trace + e
  }

  lemma AskRuns(m: Master, s: State, restart: bool, stop: bool, entry: nat, count: nat, first: bool) returns (t: State)
    requires Prepared(m, s, restart, stop) && entry < 4 && (first || WordReady(s, m.reg))
    ensures Exec(AskProgram(m, entry, count, first), s) == Ok(t) && WordReady(t, m.reg)
    ensures Continued(s, t, Many(RegWrite(m.reg, WordBytes(ReadScratch(restart, stop)[entry])), count))
  {
    var word := WordBytes(ReadScratch(restart, stop)[entry]);
    assert s.mem[m.scratch + 4 * entry..m.scratch + 4 * entry + 4] == word;
    CustomRuns(s, m.reg, m.TxPeriph(), m.scratch + 4 * entry, count, first, word);
    t := Written(s, m.reg, m.scratch + 4 * entry, word, count);
  }

  /** First, middle and last. */
  lemma AllAtOnceRuns(m: Master, s: State, size: nat, restart: bool, stop: bool) returns (t: State)
    requires 2 <= size <= m.fifo && Prepared(m, s, restart, stop)
    ensures Exec(Prefill(m, size), s) == Ok(t)
    ensures Continued(s, t, Asked(m.reg, 0, size, size, restart, stop))
  {
    var words := ReadScratch(restart, stop);
    var e1, e2, e3 := Many(RegWrite(m.reg, WordBytes(words[1])), 1),
        Many(RegWrite(m.reg, WordBytes(words[0])), size - 2),
                      Many(RegWrite(m.reg, WordBytes(words[2])), 1);
    var middle := if size > 2 then AskProgram(m, 0, size - 2, false) else Skip;
    var t1 := AskRuns(m, s, restart, stop, 1, 1, true);
    var t2 := t1;
    if size > 2 { t2 := AskRuns(m, t1, restart, stop, 0, size - 2, false); }
    assert t2.trace == t1.trace + e2;
    t := AskRuns(m, t2, restart, stop, 2, 1, false);
    ExecSeq(middle, AskProgram(m, 2, 1, false), t1, t2);
    ExecSeq(AskProgram(m, 1, 1, true), Seq(middle, AskProgram(m, 2, 1, false)), s, t1);
    assert e1 + e2 + e3 == Asked(m.reg, 0, size, size, restart, stop);
    assert s.trace + e1 + e2 + e3 == s.trace + (e1 + e2 + e3);
  }

  lemma PrefillRuns(m: Master, s: State, size: nat, restart: bool, stop: bool) returns (t: State)
    requires m.Valid() && 0 < size && Prepared(m, s, restart, stop)
    ensures Exec(Prefill(m, size), s) == Ok(t)
    ensures Continued(s, t, Asked(m.reg, 0, Min(size, m.fifo), size, restart, stop))
  {
    var count := Min(size, m.fifo);
    var e, words := Asked(m.reg, 0, count, size, restart, stop), ReadScratch(restart, stop);
    if count == 1 {
      t := AskRuns(m, s, restart, stop, 3, 1, true);
      assert Many(RegWrite(m.reg, WordBytes(words[3])), 1) == e;
    } else if count == size {
      t := AllAtOnceRuns(m, s, size, restart, stop);
    } else {
      var e1, e2 := Many(RegWrite(m.reg, WordBytes(words[1])), 1),
          Many(RegWrite(m.reg, WordBytes(words[0])), count - 1);
      var t1 := AskRuns(m, s, restart, stop, 1, 1, true);
      t := AskRuns(m, t1, restart, stop, 0, count - 1, false);
      ExecSeq(AskProgram(m, 1, 1, true), AskProgram(m, 0, count - 1, false), s, t1);
      assert e1 + e2 == e;
      assert s.trace + e1 + e2 == s.trace + (e1 + e2);
    }
  }

  lemma RefillRuns(m: Master, s: State, size: nat, txLeft: nat, restart: bool, stop: bool) returns (t: State)
    requires m.Valid() && txLeft < size && Prepared(m, s, restart, stop)
    ensures Exec(Refill(m, txLeft), s) == Ok(t)
    ensures Continued(s, t, Asked(m.reg, size - txLeft, size - txLeft + Min(txLeft, m.Half()), size, restart, stop))
  {
    var count := Min(txLeft, m.Half());
    var e := Asked(m.reg, size - txLeft, size - txLeft + count, size, restart, stop);
    var words := ReadScratch(restart, stop);
    if txLeft == 0 {
      t := s;
      assert s.trace + e == s.trace;
    } else if count == txLeft {
      var e1, e2 := Many(RegWrite(m.reg, WordBytes(words[0])), count - 1),
          Many(RegWrite(m.reg, WordBytes(words[2])), 1);
      var t1 := AskRuns(m, s, restart, stop, 0, count - 1, true);
      t := AskRuns(m, t1, restart, stop, 2, 1, false);
      ExecSeq(AskProgram(m, 0, count - 1, true), AskProgram(m, 2, 1, false), s, t1);
      assert e1 + e2 == e;
      assert s.trace + e1 + e2 == s.trace + (e1 + e2);
    } else {
      t := AskRuns(m, s, restart, stop, 0, count, true);
      assert Many(RegWrite(m.reg, WordBytes(words[0])), count) == e;
    }
  }

  /** Half a FIFO is far below the sizes that the generator divides wrong. */
  lemma {:induction false} BytesInElements(d: Direction, periph: nat, threshold: nat, segs: seq<Segment>)
    requires Total(segs) < 0x8000_0000
    ensures AllInElements(I2c(d, periph, threshold), segs)
  {
    if segs != [] { BytesInElements(d, periph, threshold, segs[1..]); }
  }

  lemma ReadBackRuns(m: Master, s: State, segs: seq<Segment>, restart: bool, stop: bool) returns (t: State)
    requires Prepared(m, s, restart, stop) && Proper(segs, |s.mem|) && Total(segs) <= |s.rx| &&
             Total(segs) < 0x8000_0000
    requires ApartFrom(Segment(m.scratch, 16), segs)
    ensures Exec(ReadBack(m, segs), s) == Ok(t) && Prepared(m, t, restart, stop)
    ensures t.mem == Scatter(s.mem, segs, s.rx[..Total(segs)]) && t.rx == s.rx[Total(segs)..]
    ensures t.trace == s.trace + Accesses(false, m.reg, 1, s.rx[..Total(segs)])
  {
    var g := I2c(ToMem, m.rxPeriph, m.threshold);
    BytesInElements(ToMem, m.rxPeriph, m.threshold, segs);
    var begun := PrefaceRuns(g, m.reg, segs, s);
    t := BufferReceived(g, m.reg, begun, segs);
    ScratchKept(s.mem, m.scratch, ReadScratch(restart, stop), segs, s.rx[..Total(segs)]);
  }

  // ---- The whole read ----

  /** The translations of all the buffers read, one after the other. */
  function Whole(pieces: seq<seq<Segment>>): seq<Segment> {
    if pieces == [] then [] else pieces[0] + Whole(pieces[1..])
  }

  /** All of them in memory, and none over the scratch buffer. */
  predicate Usable(pieces: seq<seq<Segment>>, limit: nat, scratch: nat) {
    pieces == []
    || (Proper(pieces[0], limit) && ApartFrom(Segment(scratch, 16), pieces[0]) && Usable(pieces[1..], limit, scratch))
  }

  lemma {:induction false} TotalConcat(a: seq<Segment>, b: seq<Segment>)
    ensures Total(a + b) == Total(a) + Total(b)
  {
    if a == [] {
      assert a + b == b;
    } else {
      assert (a + b)[1..] == a[1..] + b;
      TotalConcat(a[1..], b);
    }
  }

  lemma {:induction false} ProperConcat(a: seq<Segment>, b: seq<Segment>, limit: nat)
    requires Proper(a, limit) && Proper(b, limit)
    ensures Proper(a + b, limit)
  {
    if a == [] {
      assert a + b == b;
    } else {
      assert (a + b)[1..] == a[1..] + b;
      ProperConcat(a[1..], b, limit);
    }
  }

  lemma {:induction false} ScatterConcat(mem: seq<Byte>, a: seq<Segment>, b: seq<Segment>, x: seq<Byte>, y: seq<Byte>)
    requires Proper(a, |mem|) && Proper(b, |mem|) && |x| == Total(a) && |y| == Total(b)
    ensures Proper(a + b, |mem|) && Total(a + b) == |x + y|
    ensures Scatter(mem, a + b, x + y) == Scatter(Scatter(mem, a, x), b, y)
    decreases a
  {
    ProperConcat(a, b, |mem|);
    TotalConcat(a, b);
    if a == [] {
      assert a + b == b && x + y == y;
    } else {
      var n := a[0].size;
      assert (a + b)[1..] == a[1..] + b && (x + y)[..n] == x[..n] && (x + y)[n..] == x[n..] + y;
      ScatterConcat(Splice(mem, a[0].pa, x[..n]), a[1..], b, x[n..], y);
    }
  }

  lemma {:induction false} UsableWhole(pieces: seq<seq<Segment>>, size: nat, half: nat, limit: nat, scratch: nat)
    requires Pieces(pieces, size, half) && Usable(pieces, limit, scratch)
    ensures Proper(Whole(pieces), limit) && Total(Whole(pieces)) == size
    decreases pieces
  {
    if pieces != [] {
      UsableWhole(pieces[1..], size - Min(size, half), half, limit, scratch);
      ProperConcat(pieces[0], Whole(pieces[1..]), limit);
      TotalConcat(pieces[0], Whole(pieces[1..]));
    }
  }

  lemma FirstPiece(pieces: seq<seq<Segment>>, segs: seq<Segment>, rest: seq<seq<Segment>>, size: nat, c: nat, half: nat,
                   limit: nat, scratch: nat)
    requires pieces != [] && segs == pieces[0] && rest == pieces[1..]
    requires Pieces(pieces, size, half) && Usable(pieces, limit, scratch) && c == Min(size, half)
    ensures 0 < size && Total(segs) == c && Proper(segs, limit) && ApartFrom(Segment(scratch, 16), segs)
    ensures Pieces(rest, size - c, half) && Usable(rest, limit, scratch)
    ensures Proper(Whole(rest), limit) && Total(Whole(rest)) == size - c && Whole(pieces) == segs + Whole(rest)
  {
    UsableWhole(rest, size - c, half, limit, scratch);
  }

  /** How many requests are outstanding between rounds: the window is full while there is
      anything left to ask for. */
  predicate Balanced(m: Master, txLeft: nat, rxLeft: nat) {
    txLeft <= rxLeft <= txLeft + m.fifo && (0 < txLeft ==> rxLeft == txLeft + m.fifo)
  }

  /** c bytes have arrived in the segments, and nothing else has changed. */
  predicate Filled(before: seq<Byte>, rx: seq<Byte>, after: seq<Byte>, rx': seq<Byte>, segs: seq<Segment>, c: nat)
    requires Proper(segs, |before|) && Total(segs) == c <= |rx|
  {
    after == Scatter(before, segs, rx[..c]) && rx' == rx[c..]
  }

  /** Requests from `from` up to `to` have been made, and `bytes` read. */
  predicate Talk(m: Master, e: seq<Event>, size: nat, from: nat, to: nat, bytes: seq<Byte>, out: int, left: int,
                 restart: bool, stop: bool)
    requires from <= to
  {
    Conversation(e, Asked(m.reg, from, to, size, restart, stop), Accesses(false, m.reg, 1, bytes), out, left, m.fifo)
  }

  /** Both, between s and t. */
  predicate Exchanged(m: Master, s: State, t: State, e: seq<Event>, size: nat, from: nat, to: nat, c: nat, out: int,
      left: int,
                      segs: seq<Segment>, restart: bool, stop: bool)
    requires from <= to && Proper(segs, |s.mem|) && Total(segs) == c <= |s.rx|
  {
    && t.trace == s.trace + e && t.fifo == [] && Filled(s.mem, s.rx, t.mem, t.rx, segs, c)
    && Talk(m, e, size, from, to, s.rx[..c], out, left, restart, stop)
  }

  lemma ReadThenAsk(reg: nat, bytes: seq<Byte>, asked: seq<Event>, out: nat, left: nat, fifo: nat)
    requires |bytes| <= out <= fifo && left == out - |bytes| + |asked| <= fifo &&
             forall i | 0 <= i < |asked| :: asked[i].RegWrite?
    ensures Conversation(Accesses(false, reg, 1, bytes) + asked, asked, Accesses(false, reg, 1, bytes), out, left, fifo)
  {
    var read := Accesses(false, reg, 1, bytes);
    ReadingOnly(reg, bytes, out, fifo);
    AskingOnly(asked, out - |bytes|, fifo);
    ConversationConcat(read, asked, [], asked, read, [], out, out - |bytes|, left, fifo);
    assert [] + asked == asked && read + [] == read;
  }

  lemma StaysBalanced(m: Master, txLeft: nat, rxLeft: nat, tx': nat, rx': nat)
    requires m.Valid() && Balanced(m, txLeft, rxLeft)
    requires tx' == txLeft - Min(txLeft, m.Half()) && rx' == rxLeft - Min(rxLeft, m.Half())
    ensures Balanced(m, tx', rx') && rxLeft - rx' <= rxLeft - txLeft <= m.fifo && rx' - tx' <= m.fifo
    ensures rxLeft - rx' < 0x8000_0000
  {
  }

  /** What was asked for and read between s and t: the bytes first, then the requests. */
  lemma {:induction false} RoundExchanges(
    m: Master, s: State, mid: State, t: State, size: nat, from: nat, to: nat, c: nat, out: nat, left: nat,
    segs: seq<Segment>, restart: bool, stop: bool)
    requires from <= to <= size && Proper(segs, |s.mem|) && Total(segs) == c <= |s.rx|
    requires c <= out <= m.fifo && left == out - c + (to - from) <= m.fifo
    requires Filled(s.mem, s.rx, mid.mem, mid.rx, segs, c) &&
             mid.trace == s.trace + Accesses(false, m.reg, 1, s.rx[..c])
    requires t.fifo == [] && Continued(mid, t, Asked(m.reg, from, to, size, restart, stop))
    ensures Exchanged(m, s, t, Accesses(false, m.reg, 1, s.rx[..c]) + Asked(m.reg, from, to, size, restart, stop),
                      size, from, to, c, out, left, segs, restart, stop)
  {
    var read, asked := Accesses(false, m.reg, 1, s.rx[..c]), Asked(m.reg, from, to, size, restart, stop);
    TwoPieces(s.trace, read, asked);
    ReadThenAsk(m.reg, s.rx[..c], asked, out, left, m.fifo);
  }

  lemma {:induction false} RoundExecutes(
    m: Master, s: State, size: nat, txLeft: nat, from: nat, to: nat, c: nat, out: nat, left: nat, segs: seq<Segment>,
    restart: bool, stop: bool) returns (t: State, e: seq<Event>)
    requires m.Valid() && Prepared(m, s, restart, stop) && txLeft < size
    requires from == size - txLeft && to == from + Min(txLeft, m.Half())
    requires c <= out <= m.fifo && left == out - c + (to - from) <= m.fifo && c < 0x8000_0000
    requires Total(segs) == c <= |s.rx| && Proper(segs, |s.mem|) && ApartFrom(Segment(m.scratch, 16), segs)
    ensures Exec(Seq(ReadBack(m, segs), Refill(m, txLeft)), s) == Ok(t) && Prepared(m, t, restart, stop)
    ensures Exchanged(m, s, t, e, size, from, to, c, out, left, segs, restart, stop)
  {
    var mid := ReadBackRuns(m, s, segs, restart, stop);
    t := RefillRuns(m, mid, size, txLeft, restart, stop);
    ExecSeq(ReadBack(m, segs), Refill(m, txLeft), s, mid);
    e := Accesses(false, m.reg, 1, s.rx[..c]) + Asked(m.reg, from, to, size, restart, stop);
    RoundExchanges(m, s, mid, t, size, from, to, c, out, left, segs, restart, stop);
  }

  /** One round: read up to half a FIFO, then ask for as much again. */
  lemma {:induction false} RoundRuns(
    m: Master, s: State, size: nat, txLeft: nat, rxLeft: nat, tx': nat, rx': nat, segs: seq<Segment>,
    restart: bool, stop: bool) returns (t: State, e: seq<Event>)
    requires m.Valid() && Prepared(m, s, restart, stop) && Balanced(m, txLeft, rxLeft) && txLeft < size && 0 < rxLeft
    requires tx' == txLeft - Min(txLeft, m.Half()) && rx' == rxLeft - Min(rxLeft, m.Half())
    requires Total(segs) == rxLeft - rx' <= |s.rx| && Proper(segs, |s.mem|) && ApartFrom(Segment(m.scratch, 16), segs)
    ensures Exec(Seq(ReadBack(m, segs), Refill(m, txLeft)), s) == Ok(t) && Prepared(m, t, restart, stop)
    ensures Balanced(m, tx', rx')
    ensures Exchanged(m, s, t, e, size, size - txLeft, size - tx', rxLeft - rx', rxLeft - txLeft, rx' - tx', segs,
                      restart, stop)
  {
    StaysBalanced(m, txLeft, rxLeft, tx', rx');
    t, e := RoundExecutes(m, s, size, txLeft, size - txLeft, size - tx', rxLeft - rx', rxLeft - txLeft, rx' - tx', segs,
                          restart, stop);
  }

  lemma AskedConcat(reg: nat, a: nat, b: nat, c: nat, n: nat, restart: bool, stop: bool)
    requires a <= b <= c
    ensures Asked(reg, a, b, n, restart, stop) + Asked(reg, b, c, n, restart, stop)
            == Asked(reg, a, c, n, restart, stop)
  {
  }

  /** The rounds can begin. */
  predicate Rounding(m: Master, s: State, size: nat, txLeft: nat, rxLeft: nat, pieces: seq<seq<Segment>>,
      restart: bool, stop: bool) {
    && m.Valid() && Prepared(m, s, restart, stop) && Balanced(m, txLeft, rxLeft) && txLeft < size && rxLeft <= |s.rx|
    && Pieces(pieces, rxLeft, m.Half()) && Usable(pieces, |s.mem|, m.scratch)
    && Proper(Whole(pieces), |s.mem|) && Total(Whole(pieces)) == rxLeft
  }

  lemma FirstRound(m: Master, s: State, size: nat, txLeft: nat, rxLeft: nat, tx': nat, rx': nat,
                   pieces: seq<seq<Segment>>, restart: bool, stop: bool) returns (t: State, e: seq<Event>)
    requires Rounding(m, s, size, txLeft, rxLeft, pieces, restart, stop) && pieces != []
    requires tx' == txLeft - Min(txLeft, m.Half()) && rx' == rxLeft - Min(rxLeft, m.Half())
    ensures Exec(Rounds(m, txLeft, pieces), s) == Exec(Rounds(m, tx', pieces[1..]), t)
    ensures Rounding(m, t, size, tx', rx', pieces[1..], restart, stop)
    ensures Proper(pieces[0], |s.mem|) && Total(pieces[0]) == rxLeft - rx' && |t.mem| == |s.mem|
    ensures Exchanged(m, s, t, e, size, size - txLeft, size - tx', rxLeft - rx', rxLeft - txLeft, rx' - tx',
                      pieces[0], restart, stop)
  {
    var segs, rest := pieces[0], pieces[1..];
    FirstPiece(pieces, segs, rest, rxLeft, rxLeft - rx', m.Half(), |s.mem|, m.scratch);
    t, e := RoundRuns(m, s, size, txLeft, rxLeft, tx', rx', segs, restart, stop);
    ExecThenRest(ReadBack(m, segs), Refill(m, txLeft), Rounds(m, tx', rest), s, t);
  }

  lemma NothingExchanged(m: Master, s: State, size: nat, restart: bool, stop: bool)
    requires s.fifo == []
    ensures Exchanged(m, s, s, [], size, size, size, 0, 0, 0, [], restart, stop)
  {
    assert s.trace + [] == s.trace && Asked(m.reg, size, size, size, restart, stop) == [];
  }

  lemma {:induction false} RoundsRun(
    m: Master, s: State, size: nat, txLeft: nat, rxLeft: nat, pieces: seq<seq<Segment>>, restart: bool, stop: bool)
    returns (t: State, e: seq<Event>)
    requires Rounding(m, s, size, txLeft, rxLeft, pieces, restart, stop)
    ensures Exec(Rounds(m, txLeft, pieces), s) == Ok(t)
    ensures Exchanged(m, s, t, e, size, size - txLeft, size, rxLeft, rxLeft - txLeft, 0, Whole(pieces), restart, stop)
    decreases pieces
  {
    if pieces == [] {
      t, e := s, [];
      NothingExchanged(m, s, size, restart, stop);
    } else {
      var tx', rx' := txLeft - Min(txLeft, m.Half()), rxLeft - Min(rxLeft, m.Half());
      var mid, e1 := FirstRound(m, s, size, txLeft, rxLeft, tx', rx', pieces, restart, stop);
      var e2;
      t, e2 := RoundsRun(m, mid, size, tx', rx', pieces[1..], restart, stop);
      e := e1 + e2;
      RoundThenRest(m, s, mid, t, e1, e2, size, txLeft, rxLeft, tx', rx', pieces, restart, stop);
    }
  }

  lemma {:induction false} RoundThenRest(
    m: Master, s: State, mid: State, t: State, e1: seq<Event>, e2: seq<Event>, size: nat, txLeft: nat, rxLeft: nat,
    tx': nat, rx': nat, pieces: seq<seq<Segment>>, restart: bool, stop: bool)
    requires pieces != [] && tx' <= txLeft < size && rx' <= rxLeft <= |s.rx| && rx' <= |mid.rx|
    requires |mid.mem| == |s.mem|
    requires Proper(Whole(pieces[1..]), |s.mem|) && Total(Whole(pieces[1..])) == rx'
    requires Proper(Whole(pieces), |s.mem|) && Total(Whole(pieces)) == rxLeft
    requires Proper(pieces[0], |s.mem|) && Total(pieces[0]) == rxLeft - rx'
    requires Exchanged(m, s, mid, e1, size, size - txLeft, size - tx', rxLeft - rx', rxLeft - txLeft, rx' - tx',
                       pieces[0], restart, stop)
    requires Exchanged(m, mid, t, e2, size, size - tx', size, rx', rx' - tx', 0, Whole(pieces[1..]), restart, stop)
    ensures Exchanged(m, s, t, e1 + e2, size, size - txLeft, size, rxLeft, rxLeft - txLeft, 0, Whole(pieces),
                      restart, stop)
  {
    RoundsJoin(m, s, mid, t, e1, e2, size, size - txLeft, size - tx', rxLeft - rx', rx', rxLeft, rxLeft - txLeft,
               rx' - tx', pieces[0], Whole(pieces[1..]), Whole(pieces), restart, stop);
  }

  /** The first round and the others are a whole exchange. */
  lemma {:induction false} RoundsJoin(
    m: Master, s: State, mid: State, t: State, e1: seq<Event>, e2: seq<Event>, size: nat, from: nat, between: nat,
    c: nat, n: nat, total: nat, out: int, left: int, segs: seq<Segment>, rest: seq<Segment>, whole: seq<Segment>,
    restart: bool, stop: bool)
    requires from <= between <= size && Proper(segs, |s.mem|) && Proper(rest, |s.mem|) && |mid.mem| == |s.mem|
    requires Total(segs) == c && Total(rest) == n <= |mid.rx| && total == c + n <= |s.rx| && whole == segs + rest
    requires Exchanged(m, s, mid, e1, size, from, between, c, out, left, segs, restart, stop)
    requires Exchanged(m, mid, t, e2, size, between, size, n, left, 0, rest, restart, stop)
    requires Proper(whole, |s.mem|) && Total(whole) == total
    ensures Exchanged(m, s, t, e1 + e2, size, from, size, total, out, 0, whole, restart, stop)
  {
    ExchangesJoin(m, s, mid, t, e1, e2, size, from, between, c, n, out, left, segs, rest, restart, stop);
  }

  /** One exchange and then another are an exchange. */
  lemma {:induction false} ExchangesJoin(
    m: Master, s: State, mid: State, t: State, e1: seq<Event>, e2: seq<Event>, size: nat, from: nat, between: nat,
    c: nat, n: nat, out: int, left: int, segs: seq<Segment>, rest: seq<Segment>, restart: bool, stop: bool)
    requires from <= between <= size && Proper(segs, |s.mem|) && Proper(rest, |s.mem|) && |mid.mem| == |s.mem|
    requires Total(segs) == c <= |s.rx| && Total(rest) == n <= |mid.rx|
    requires Exchanged(m, s, mid, e1, size, from, between, c, out, left, segs, restart, stop)
    requires Exchanged(m, mid, t, e2, size, between, size, n, left, 0, rest, restart, stop)
    ensures c + n <= |s.rx| && Proper(segs + rest, |s.mem|) && Total(segs + rest) == c + n
    ensures Exchanged(m, s, t, e1 + e2, size, from, size, c + n, out, 0, segs + rest, restart, stop)
  {
    FillsJoin(s.mem, mid.mem, t.mem, segs, rest, s.rx, mid.rx, t.rx, c, n);
    TalksJoin(m, e1, e2, size, from, between, s.rx[..c], mid.rx[..n], s.rx[..c + n], out, left, restart, stop);
    TwoPieces(s.trace, e1, e2);
  }

  lemma TwoPieces(trace: seq<Event>, a: seq<Event>, b: seq<Event>)
    ensures trace + a + b == trace + (a + b)
  {
  }

  lemma {:induction false} FillsJoin(
    before: seq<Byte>, between: seq<Byte>, after: seq<Byte>, segs: seq<Segment>, rest: seq<Segment>,
    rx: seq<Byte>, rx': seq<Byte>, rx'': seq<Byte>, c: nat, n: nat)
    requires Proper(segs, |before|) && Proper(rest, |between|) && Total(segs) == c <= |rx| && Total(rest) == n <= |rx'|
    requires Filled(before, rx, between, rx', segs, c) && Filled(between, rx', after, rx'', rest, n)
    ensures c + n <= |rx| && rx[..c] + rx'[..n] == rx[..c + n]
    ensures Proper(segs + rest, |before|) && Total(segs + rest) == c + n
    ensures Filled(before, rx, after, rx'', segs + rest, c + n)
  {
    assert rx[..c] + rx'[..n] == rx[..c + n];
    ScatterConcat(before, segs, rest, rx[..c], rx'[..n]);
  }

  lemma {:induction false} TalksJoin(
    m: Master, e1: seq<Event>, e2: seq<Event>, size: nat, from: nat, between: nat, x: seq<Byte>, y: seq<Byte>,
        all: seq<Byte>,
    out: int, left: int, restart: bool, stop: bool)
    requires from <= between <= size && x + y == all
    requires Talk(m, e1, size, from, between, x, out, left, restart, stop)
    requires Talk(m, e2, size, between, size, y, left, 0, restart, stop)
    ensures Talk(m, e1 + e2, size, from, size, all, out, 0, restart, stop)
  {
    AskedConcat(m.reg, from, between, size, size, restart, stop);
    AccessesConcat(false, m.reg, 1, x, y);
    ConversationConcat(e1, e2, Asked(m.reg, from, between, size, restart, stop),
                       Asked(m.reg, between, size, size, restart, stop),
                       Accesses(false, m.reg, 1, x), Accesses(false, m.reg, 1, y), out, left, 0, m.fifo);
  }

  lemma {:induction false} RoundsWellFormed(m: Master, txLeft: nat, pieces: seq<seq<Segment>>)
    ensures WellFormed(Rounds(m, txLeft, pieces), 2)
    decreases pieces
  {
    if pieces != [] {
      var count := Min(txLeft, m.Half());
      BufferWellFormed(I2c(ToMem, m.rxPeriph, m.threshold), m.reg, pieces[0]);
      CustomWellFormed(m.reg, m.TxPeriph(), m.scratch, Decrement(count), true);
      CustomWellFormed(m.reg, m.TxPeriph(), m.scratch + 8, 1, false);
      CustomWellFormed(m.reg, m.TxPeriph(), m.scratch, count, true);
      assert WellFormed(Refill(m, txLeft), 2);
      RoundsWellFormed(m, txLeft - count, pieces[1..]);
    }
  }

  lemma ReadWellFormed(m: Master, size: nat, pieces: seq<seq<Segment>>)
    ensures WellFormed(ReadMaster(m, size, pieces), 2)
  {
    var count := Min(size, m.fifo);
    CustomWellFormed(m.reg, m.TxPeriph(), m.scratch + 12, 1, true);
    CustomWellFormed(m.reg, m.TxPeriph(), m.scratch + 4, 1, true);
    CustomWellFormed(m.reg, m.TxPeriph(), m.scratch, if count > 2 then count - 2 else 0, false);
    CustomWellFormed(m.reg, m.TxPeriph(), m.scratch, Decrement(count), false);
    CustomWellFormed(m.reg, m.TxPeriph(), m.scratch + 8, 1, false);
    assert WellFormed(Prefill(m, size), 2);
    RoundsWellFormed(m, size - count, pieces);
  }

  lemma OpeningThenRounds(m: Master, e: seq<Event>, size: nat, count: nat, read: seq<Event>, restart: bool, stop: bool)
    requires count <= size && count <= m.fifo
    requires Conversation(e, Asked(m.reg, count, size, size, restart, stop), read, count, 0, m.fifo)
    ensures Conversation(Asked(m.reg, 0, count, size, restart, stop) + e, Asked(m.reg, 0, size, size, restart, stop),
                         read, 0, 0, m.fifo)
  {
    var opening := Asked(m.reg, 0, count, size, restart, stop);
    AskingOnly(opening, 0, m.fifo);
    AskedConcat(m.reg, 0, count, size, size, restart, stop);
    ConversationConcat(opening, e, opening, Asked(m.reg, count, size, size, restart, stop), [], read, 0, count, 0,
                       m.fifo);
    assert [] + read == read;
  }

  /** The first n accesses are requests. */
  predicate Opens(e: seq<Event>, n: nat) {
    n <= |e| && forall i | 0 <= i < n :: e[i].RegWrite?
  }

  lemma RequestsOpen(a: seq<Event>, b: seq<Event>)
    requires forall i | 0 <= i < |a| :: a[i].RegWrite?
    ensures Opens(a + b, |a|)
  {
  }

  /** What the program itself does, before the event. */
  lemma ReadMasterRuns(m: Master, s: State, size: nat, pieces: seq<seq<Segment>>, restart: bool, stop: bool)
    returns (t: State, e: seq<Event>)
    requires m.Valid() && 0 < size <= |s.rx| && Prepared(m, s, restart, stop)
    requires Pieces(pieces, size, m.fifo / 2) && Usable(pieces, |s.mem|, m.scratch)
    ensures Exec(ReadMaster(m, size, pieces), s) == Ok(t)
    ensures t.trace == s.trace + e && t.fifo == [] && t.rx == s.rx[size..]
    ensures Conversation(e, Asked(m.reg, 0, size, size, restart, stop), Accesses(false, m.reg, 1, s.rx[..size]), 0, 0,
                         m.fifo)
    ensures Proper(Whole(pieces), |s.mem|) && Total(Whole(pieces)) == size
    ensures t.mem == Scatter(s.mem, Whole(pieces), s.rx[..size])
    ensures Opens(e, if size < m.fifo then size else m.fifo)
  {
    var count := Min(size, m.fifo);
    UsableWhole(pieces, size, m.Half(), |s.mem|, m.scratch);
    var mid := PrefillRuns(m, s, size, restart, stop);
    var e1 := Asked(m.reg, 0, count, size, restart, stop);
    var e2;
    t, e2 := RoundsRun(m, mid, size, size - count, size, pieces, restart, stop);
    e := e1 + e2;
    TwoPieces(s.trace, e1, e2);
    OpeningThenRounds(m, e2, size, count, Accesses(false, m.reg, 1, s.rx[..size]), restart, stop);
    RequestsOpen(e1, e2);
    ExecSeq(Prefill(m, size), Rounds(m, size - count, pieces), s, mid);
  }

  /** A read as bus master, for any size and any FIFO of two entries or more: the device is asked
      for exactly `size` bytes, RESTART going with the first request and STOP with the last if
      they are wanted; the FIFO is filled with requests first, and then read half of it at a time;
      there are never more requests outstanding than it holds, and no byte is read before it has
      been asked for; and byte k arrives at address k of the buffer. */
  lemma ReadMasterHalts(m: Master, s: State, size: nat, pieces: seq<seq<Segment>>, restart: bool, stop: bool,
      event: Option<nat>)
    returns (t: State, e: seq<Event>)
    requires m.Valid() && 0 < size <= |s.rx| && Prepared(m, s, restart, stop)
    requires Pieces(pieces, size, m.fifo / 2) && Usable(pieces, |s.mem|, m.scratch)
    ensures Reaches(ProgramText(ReadMaster(m, size, pieces), event, false), Running(0, [], s), Halted(t))
    ensures t.trace == s.trace + e + Signals(event) && t.fifo == [] && t.rx == s.rx[size..]
    ensures Conversation(e, Asked(m.reg, 0, size, size, restart, stop), Accesses(false, m.reg, 1, s.rx[..size]), 0, 0,
                         m.fifo)
    ensures Requested(Only(true, e), m.reg, size, restart, stop)
    ensures Proper(Whole(pieces), |s.mem|) && Total(Whole(pieces)) == size
    ensures t.mem == Scatter(s.mem, Whole(pieces), s.rx[..size])
    ensures Opens(e, if size < m.fifo then size else m.fifo)
  {
    var done;
    done, e := ReadMasterRuns(m, s, size, pieces, restart, stop);
    AskedIsRequested(m.reg, size, restart, stop);
    ReadWellFormed(m, size, pieces);
    t := RequestHalts(ReadMaster(m, size, pieces), event, false, s, done);
  }
}
