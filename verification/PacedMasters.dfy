/** Reading and writing as I2C bus master in step with the controller: every command word goes out
    under a single request of the transmit line, and every byte is read under the receive line. */
module PacedMasters {
  import opened Bytes
  import opened Options
  import opened Pl330
  import opened Coalescing
  import opened Closing
  import opened MemoryCopy
  import opened Turns
  import opened Streams
  import opened Requests
  import opened I2cCommands
  import opened Pacing
  import opened WatchedRuns
  import opened PacedRequests
  import I2cRead
  import I2cWrite

  /** The scratch buffer is in memory. */
  function Begun(reg: nat, scratch: nat): Setting {
    Setting(reg, scratch + 16, None, None, None, None)
  }

  /** Command words have been written. */
  function Ready(reg: nat, scratch: nat): Setting {
    Setting(reg, scratch + 16, None, Some(reg), Some(CommandCcr()), None)
  }

  /** A line whose single requests are for one write. */
  predicate Commands(lines: Lines, l: Line) {
    lines.At(l.periph) == Some(l) && l.write && l.single == 1
  }

  lemma WordTurnPaced(lines: Lines, l: Line, reg: nat, scratch: nat, addr: nat)
    requires Commands(lines, l) && addr < scratch + 16
    ensures var x := Ready(reg, scratch).(sar := Some(addr));
            Paced(lines, x, Turn(S, l.periph, 1, 1), x.(req := Some(SingleRequest)), 0, 1)
  {
    TurnPaced(lines, l, Ready(reg, scratch).(sar := Some(addr)), S, 1, 1, 1);
  }

  /** Every word is a single request. */
  lemma {:induction false} WordsPaced(lines: Lines, l: Line, reg: nat, scratch: nat, addr: nat, count: nat)
    requires Commands(lines, l) && addr < scratch + 16
    ensures Paced(lines, Ready(reg, scratch).(sar := Some(addr)), Chunked(count, Turn(S, l.periph, 1, 1), Plain),
                  Ready(reg, scratch), 0, count)
  {
    var x, turn := Ready(reg, scratch).(sar := Some(addr)), Turn(S, l.periph, 1, 1);
    var y, p := x.(req := Some(SingleRequest)), Chunked(count, turn, Plain);
    if count == 0 {
      SkipPaced(lines, x);
      TellsPaced(lines, x, x, p, x, Ready(reg, scratch), 0, 0);
    } else {
      WordTurnPaced(lines, l, reg, scratch, addr);
      ChunkedPaced(lines, x, turn, y, 0, 1, count, Plain, 0, count);
      TellsPaced(lines, x, x, p, y, Ready(reg, scratch), 0, count);
    }
  }

  lemma {:induction false} CustomPaced(
    lines: Lines, l: Line, reg: nat, scratch: nat, addr: nat, count: nat, first: bool)
    requires Commands(lines, l) && addr < scratch + 16
    ensures Paced(lines, if first then Begun(reg, scratch) else Ready(reg, scratch),
                  Custom(reg, l.periph, addr, count, first), Ready(reg, scratch), 0, count)
  {
    var a, b := if first then Op(MovDar(reg)) else Skip, if first then Op(MovCcr(CommandCcr())) else Skip;
    var move, loops := Op(MovSar(addr)), Chunked(count, Turn(S, l.periph, 1, 1), Plain);
    var x0, x3, y := if first then Begun(reg, scratch) else Ready(reg, scratch),
                     Ready(reg, scratch).(sar := Some(addr)), Ready(reg, scratch);
    var x1 := x0.(dar := Some(reg));
    var x2 := x1.(sar := Some(addr));
    if first {
      SetPaced(lines, x0, MovDar(reg), x1);
      SetPaced(lines, x2, MovCcr(CommandCcr()), x3);
    } else {
      SkipPaced(lines, x0);
      SkipPaced(lines, x2);
    }
    SetPaced(lines, x1, MovSar(addr), x2);
    WordsPaced(lines, l, reg, scratch, addr, count);
    SeqPaced(lines, x2, b, x3, loops, y, 0, 0, 0, count, 0, count);
    SeqPaced(lines, x1, move, x2, Seq(b, loops), y, 0, 0, 0, count, 0, count);
    SeqPaced(lines, x0, a, x1, Seq(move, Seq(b, loops)), y, 0, 0, 0, count, 0, count);
  }

  /** The data of a slave request between command words. */
  lemma DataPaced(lines: Lines, g: Generator, reg: nat, scratch: nat, segs: seq<Segment>)
    requires Waits(g) && AllInElements(g, segs) && lines.At(g.periph) == Some(LineOf(g))
    ensures Paced(lines, Begun(reg, scratch), BufferProgram(g, reg, segs), Begun(reg, scratch), AllBursts(g, segs),
                  AllSingles(g, segs))
  {
    var b, s := AllBursts(g, segs), AllSingles(g, segs);
    BufferPaced(lines, g, reg, segs);
    RoomPaced(lines, Anything(reg), BufferProgram(g, reg, segs), Set(g.d, reg), b, s, scratch + 16);
    TellsPaced(lines, Begun(reg, scratch), Begun(reg, scratch), BufferProgram(g, reg, segs),
               Set(g.d, reg).(room := scratch + 16), Begun(reg, scratch), b, s);
  }

  // ---- Writing ----

  /** One line is for all that is written. */
  function WriteLine(w: I2cWrite.Writer): Line {
    LineOf(I2c(FromMem, w.periph, w.threshold))
  }

  function MiddleBursts(w: I2cWrite.Writer, n: nat, segs: seq<Segment>): nat {
    if n == 0 then 0 else AllBursts(I2c(FromMem, w.periph, w.threshold), segs)
  }

  function MiddleSingles(w: I2cWrite.Writer, n: nat, segs: seq<Segment>): nat {
    if n == 0 then 0 else AllSingles(I2c(FromMem, w.periph, w.threshold), segs)
  }

  /** The single requests: those for the first and the last byte if they carry something, or for an
      only byte, and those of the bytes in between. */
  function WriteSingles(w: I2cWrite.Writer, size: nat, segs: seq<Segment>): nat {
    if size == 1 then 1
    else
      (if w.restart then 1 else 0) + MiddleSingles(w, I2cWrite.MiddleSize(w, size), segs) + if w.stop then 1 else 0
  }

  function WriteBursts(w: I2cWrite.Writer, size: nat, segs: seq<Segment>): nat {
    if size == 1 then 0 else MiddleBursts(w, I2cWrite.MiddleSize(w, size), segs)
  }

  /** What is known when the last byte is reached: everything, if nothing came between the first and
      the last. */
  lemma {:induction false} EndsPaced(w: I2cWrite.Writer, size: nat)
    requires 2 <= size
    ensures var lines, x := Lines(WriteLine(w), WriteLine(w)), Begun(w.reg, w.scratch);
            var n := I2cWrite.MiddleSize(w, size);
            && Paced(lines, x, I2cWrite.FirstProgram(w), if n == 0 then Ready(w.reg, w.scratch) else x, 0,
                     if w.restart then 1 else 0)
            && Paced(lines, if n == 0 then Ready(w.reg, w.scratch) else x, I2cWrite.LastProgram(w, n), x, 0,
                     if w.stop then 1 else 0)
  {
    var lines, x, y := Lines(WriteLine(w), WriteLine(w)), Begun(w.reg, w.scratch), Ready(w.reg, w.scratch);
    var n := I2cWrite.MiddleSize(w, size);
    SkipPaced(lines, x);
    if w.restart {
      CustomPaced(lines, WriteLine(w), w.reg, w.scratch, w.scratch + 4, 1, true);
      TellsPaced(lines, x, x, I2cWrite.FirstProgram(w), y, x, 0, 1);
    }
    if w.stop {
      CustomPaced(lines, WriteLine(w), w.reg, w.scratch, w.scratch + 8, 1, n != 0);
      TellsPaced(lines, if n == 0 then y else x, if n == 0 then y else x, I2cWrite.LastProgram(w, n), y, x, 0, 1);
    }
  }

  lemma {:induction false} WriteMasterPaced(w: I2cWrite.Writer, size: nat, segs: seq<Segment>)
    requires 0 < size && AllInElements(I2c(FromMem, w.periph, w.threshold), segs)
    ensures Paced(Lines(WriteLine(w), WriteLine(w)), Begun(w.reg, w.scratch), I2cWrite.WriteMaster(w, size, segs),
                  Begun(w.reg, w.scratch), WriteBursts(w, size, segs), WriteSingles(w, size, segs))
  {
    var lines, x, y := Lines(WriteLine(w), WriteLine(w)), Begun(w.reg, w.scratch), Ready(w.reg, w.scratch);
    if size == 1 {
      CustomPaced(lines, WriteLine(w), w.reg, w.scratch, w.scratch + 12, 1, true);
      TellsPaced(lines, x, x, I2cWrite.WriteMaster(w, size, segs), y, x, 0, 1);
    } else {
      var n := I2cWrite.MiddleSize(w, size);
      var first, last := I2cWrite.FirstProgram(w), I2cWrite.LastProgram(w, n);
      var middle := I2cWrite.MiddleProgram(w, n, segs);
      var z := if n == 0 then y else x;
      var b, s, r, t := MiddleBursts(w, n, segs), MiddleSingles(w, n, segs), if w.restart then 1 else 0,
                        if w.stop then 1 else 0;
      EndsPaced(w, size);
      if n == 0 {
        SkipPaced(lines, z);
      } else {
        DataPaced(lines, I2c(FromMem, w.periph, w.threshold), w.reg, w.scratch, segs);
      }
      SeqPaced(lines, z, middle, z, last, x, b, s, 0, t, b, s + t);
      SeqPaced(lines, x, first, z, Seq(middle, last), x, 0, r, b, s + t, b, r + s + t);
    }
  }

  /** A watched write as bus master: all of it is under requests of one line, the bytes in between
      up to sixteen at a time and the others one by one. */
  lemma WriteKeepsPace(w: I2cWrite.Writer, s: State, data: seq<Byte>, words: seq<Command>, segs: seq<Segment>,
      event: Option<nat>)
    returns (t: State, v: Watcher)
    requires I2cWrite.Prepared(w, s, data, words, segs)
    ensures WatchedReaches(Lines(WriteLine(w), WriteLine(w)),
                           ProgramText(I2cWrite.WriteMaster(w, |data|, segs), event, false), Running(0, [], s),
                           Watcher(Idle, 0, 0), Halted(t), v)
    ensures UsedUp(v.grant) && v.bursts == WriteBursts(w, |data|, segs) && v.singles == WriteSingles(w, |data|, segs)
  {
    var lines, start := Lines(WriteLine(w), WriteLine(w)), Watcher(Idle, 0, 0);
    var p := I2cWrite.WriteMaster(w, |data|, segs);
    var done, e := I2cWrite.WriteMasterRuns(w, s, data, words, segs);
    WriteMasterPaced(w, |data|, segs);
    assert Paces(lines, Begun(w.reg, w.scratch), p, Begun(w.reg, w.scratch), WriteBursts(w, |data|, segs),
                 WriteSingles(w, |data|, segs), s, start);
    v := Watch(lines, p, s, start).value;
    I2cWrite.WriteWellFormed(w, |data|, segs);
    t := RequestWatched(lines, p, event, false, s, start, done, v);
  }

  // ---- Reading ----

  /** The transmit line, which is the one below the receive line and is never waited on for bursts,
      and the receive line. */
  function ReadLines(m: I2cRead.Master): Lines
    requires 0 < m.rxPeriph
  {
    Lines(Line(m.rxPeriph - 1, true, 0, 1), LineOf(Receiver(m)))
  }

  function Receiver(m: I2cRead.Master): Generator {
    I2c(ToMem, m.rxPeriph, m.threshold)
  }

  lemma AskPaced(m: I2cRead.Master, entry: nat, count: nat, first: bool)
    requires m.Valid() && entry < 4
    ensures Paced(ReadLines(m), if first then Begun(m.reg, m.scratch) else Ready(m.reg, m.scratch),
                  I2cRead.AskProgram(m, entry, count, first), Ready(m.reg, m.scratch), 0, count)
  {
    CustomPaced(ReadLines(m), ReadLines(m).one, m.reg, m.scratch, m.scratch + 4 * entry, count, first);
  }

  lemma {:induction false} AllAtOncePaced(m: I2cRead.Master, size: nat)
    requires m.Valid() && 2 <= size <= m.fifo
    ensures Paced(ReadLines(m), Begun(m.reg, m.scratch), I2cRead.Prefill(m, size), Begun(m.reg, m.scratch), 0, size)
  {
    var lines, x, y := ReadLines(m), Begun(m.reg, m.scratch), Ready(m.reg, m.scratch);
    var middle := if size > 2 then I2cRead.AskProgram(m, 0, size - 2, false) else Skip;
    var first, last := I2cRead.AskProgram(m, 1, 1, true), I2cRead.AskProgram(m, 2, 1, false);
    AskPaced(m, 1, 1, true);
    AskPaced(m, 2, 1, false);
    if size > 2 { AskPaced(m, 0, size - 2, false); } else { SkipPaced(lines, y); }
    SeqPaced(lines, y, middle, y, last, y, 0, size - 2, 0, 1, 0, size - 1);
    SeqPaced(lines, x, first, y, Seq(middle, last), y, 0, 1, 0, size - 1, 0, size);
    TellsPaced(lines, x, x, I2cRead.Prefill(m, size), y, x, 0, size);
  }

  lemma {:induction false} PrefillPaced(m: I2cRead.Master, size: nat)
    requires m.Valid() && 0 < size
    ensures Paced(ReadLines(m), Begun(m.reg, m.scratch), I2cRead.Prefill(m, size), Begun(m.reg, m.scratch), 0,
                  Min(size, m.fifo))
  {
    var lines, x, y, count := ReadLines(m), Begun(m.reg, m.scratch), Ready(m.reg, m.scratch), Min(size, m.fifo);
    if count == 1 {
      AskPaced(m, 3, 1, true);
      TellsPaced(lines, x, x, I2cRead.Prefill(m, size), y, x, 0, 1);
    } else if count == size {
      AllAtOncePaced(m, size);
    } else {
      AskPaced(m, 1, 1, true);
      AskPaced(m, 0, count - 1, false);
      SeqPaced(lines, x, I2cRead.AskProgram(m, 1, 1, true), y, I2cRead.AskProgram(m, 0, count - 1, false), y, 0, 1, 0,
               count - 1, 0, count);
      TellsPaced(lines, x, x, I2cRead.Prefill(m, size), y, x, 0, count);
    }
  }

  lemma {:induction false} RefillPaced(m: I2cRead.Master, txLeft: nat)
    requires m.Valid()
    ensures Paced(ReadLines(m), Begun(m.reg, m.scratch), I2cRead.Refill(m, txLeft), Begun(m.reg, m.scratch), 0,
                  Min(txLeft, m.Half()))
  {
    var lines, x, y, count := ReadLines(m), Begun(m.reg, m.scratch), Ready(m.reg, m.scratch), Min(txLeft, m.Half());
    if txLeft == 0 {
      SkipPaced(lines, x);
    } else if count == txLeft {
      AskPaced(m, 0, count - 1, true);
      AskPaced(m, 2, 1, false);
      SeqPaced(lines, x, I2cRead.AskProgram(m, 0, count - 1, true), y, I2cRead.AskProgram(m, 2, 1, false), y, 0,
               count - 1, 0, 1, 0, count);
      TellsPaced(lines, x, x, I2cRead.Refill(m, txLeft), y, x, 0, count);
    } else {
      AskPaced(m, 0, count, true);
      TellsPaced(lines, x, x, I2cRead.Refill(m, txLeft), y, x, 0, count);
    }
  }

  /** The requests of the receive line, buffer by buffer. */
  function ReadBursts(m: I2cRead.Master, pieces: seq<seq<Segment>>): nat {
    if pieces == [] then 0 else AllBursts(Receiver(m), pieces[0]) + ReadBursts(m, pieces[1..])
  }

  function ReadSingles(m: I2cRead.Master, pieces: seq<seq<Segment>>): nat {
    if pieces == [] then 0 else AllSingles(Receiver(m), pieces[0]) + ReadSingles(m, pieces[1..])
  }

  /** One buffer read, and c bytes asked for. */
  ghost predicate RoundKeepsPace(m: I2cRead.Master, txLeft: nat, segs: seq<Segment>, c: nat)
    requires m.Valid()
  {
    var x := Begun(m.reg, m.scratch);
    && Paced(ReadLines(m), x, I2cRead.ReadBack(m, segs), x, AllBursts(Receiver(m), segs), AllSingles(Receiver(m), segs))
    && Paced(ReadLines(m), x, I2cRead.Refill(m, txLeft), x, 0, c)
  }

  lemma {:induction false} RoundPaced(m: I2cRead.Master, txLeft: nat, segs: seq<Segment>, c: nat)
    requires m.Valid() && Total(segs) < 0x8000_0000 && c == Min(txLeft, m.Half())
    ensures RoundKeepsPace(m, txLeft, segs, c)
  {
    I2cRead.BytesInElements(ToMem, m.rxPeriph, m.threshold, segs);
    DataPaced(ReadLines(m), Receiver(m), m.reg, m.scratch, segs);
    RefillPaced(m, txLeft);
  }

  lemma {:induction false} RoundsPaced(m: I2cRead.Master, txLeft: nat, size: nat, pieces: seq<seq<Segment>>)
    requires m.Valid() && I2cRead.Pieces(pieces, size, m.Half()) && txLeft <= size
    ensures Paced(ReadLines(m), Begun(m.reg, m.scratch), I2cRead.Rounds(m, txLeft, pieces), Begun(m.reg, m.scratch),
                  ReadBursts(m, pieces), ReadSingles(m, pieces) + txLeft)
    decreases pieces
  {
    var lines, x := ReadLines(m), Begun(m.reg, m.scratch);
    if pieces == [] {
      SkipPaced(lines, x);
    } else {
      var c := Min(txLeft, m.Half());
      RoundPaced(m, txLeft, pieces[0], c);
      RoundsPaced(m, txLeft - c, size - Min(size, m.Half()), pieces[1..]);
      RoundThenRest(m, txLeft, c, pieces);
    }
  }

  lemma {:induction false} RoundThenRest(m: I2cRead.Master, txLeft: nat, c: nat, pieces: seq<seq<Segment>>)
    requires m.Valid() && pieces != [] && c == Min(txLeft, m.Half()) && RoundKeepsPace(m, txLeft, pieces[0], c)
    requires Paced(ReadLines(m), Begun(m.reg, m.scratch), I2cRead.Rounds(m, txLeft - c, pieces[1..]),
                   Begun(m.reg, m.scratch), ReadBursts(m, pieces[1..]), ReadSingles(m, pieces[1..]) + (txLeft - c))
    ensures Paced(ReadLines(m), Begun(m.reg, m.scratch), I2cRead.Rounds(m, txLeft, pieces), Begun(m.reg, m.scratch),
                  ReadBursts(m, pieces), ReadSingles(m, pieces) + txLeft)
  {
    var x, segs, rest := Begun(m.reg, m.scratch), pieces[0], I2cRead.Rounds(m, txLeft - c, pieces[1..]);
    var b, s, b', s' := AllBursts(Receiver(m), segs), AllSingles(Receiver(m), segs), ReadBursts(m, pieces[1..]),
                        ReadSingles(m, pieces[1..]) + (txLeft - c);
    SeqPaced(ReadLines(m), x, I2cRead.Refill(m, txLeft), x, rest, x, 0, c, b', s', b', c + s');
    SeqPaced(ReadLines(m), x, I2cRead.ReadBack(m, segs), x, Seq(I2cRead.Refill(m, txLeft), rest), x, b, s, b', c + s',
             b + b', s + c + s');
  }

  lemma ReadMasterPaced(m: I2cRead.Master, size: nat, pieces: seq<seq<Segment>>)
    requires m.Valid() && 0 < size && I2cRead.Pieces(pieces, size, m.Half())
    ensures Paced(ReadLines(m), Begun(m.reg, m.scratch), I2cRead.ReadMaster(m, size, pieces), Begun(m.reg, m.scratch),
                  ReadBursts(m, pieces), ReadSingles(m, pieces) + size)
  {
    var x, count, b, s := Begun(m.reg, m.scratch), Min(size, m.fifo), ReadBursts(m, pieces), ReadSingles(m, pieces);
    PrefillPaced(m, size);
    RoundsPaced(m, size - count, size, pieces);
    SeqPaced(ReadLines(m), x, I2cRead.Prefill(m, size), x, I2cRead.Rounds(m, size - count, pieces), x, 0, count, b,
             s + (size - count), b, s + size);
  }

  /** A watched read as bus master: each of the `size` requests for a byte goes out under a single
      request of the transmit line, and the bytes are read under requests of the receive line, up
      to sixteen at a time. */
  lemma ReadKeepsPace(m: I2cRead.Master, s: State, size: nat, pieces: seq<seq<Segment>>, restart: bool, stop: bool,
      event: Option<nat>)
    returns (t: State, v: Watcher)
    requires m.Valid() && 0 < size <= |s.rx| && I2cRead.Prepared(m, s, restart, stop)
    requires I2cRead.Pieces(pieces, size, m.fifo / 2) && I2cRead.Usable(pieces, |s.mem|, m.scratch)
    ensures WatchedReaches(ReadLines(m), ProgramText(I2cRead.ReadMaster(m, size, pieces), event, false),
                           Running(0, [], s), Watcher(Idle, 0, 0), Halted(t), v)
    ensures UsedUp(v.grant) && v.bursts == ReadBursts(m, pieces) && v.singles == ReadSingles(m, pieces) + size
  {
    var lines, p, start := ReadLines(m), I2cRead.ReadMaster(m, size, pieces), Watcher(Idle, 0, 0);
    var done, e := I2cRead.ReadMasterRuns(m, s, size, pieces, restart, stop);
    ReadMasterPaced(m, size, pieces);
    assert Paces(lines, Begun(m.reg, m.scratch), p, Begun(m.reg, m.scratch), ReadBursts(m, pieces),
                 ReadSingles(m, pieces) + size, s, start);
    v := Watch(lines, p, s, start).value;
    I2cRead.ReadWellFormed(m, size, pieces);
    t := RequestWatched(lines, p, event, false, s, start, done, v);
  }
}
