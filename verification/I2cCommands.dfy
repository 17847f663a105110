/** Command words for an I2C master: written one by one to its data register from a scratch
    buffer in memory. */
module I2cCommands {
  import opened Bytes
  import opened Pl330
  import opened Assembler
  import opened Coalescing
  import opened Turns

  /** An entry of the controller's transmit FIFO: a byte to send, or a byte to ask for. */
  datatype Command = Send(data: Byte, restart: bool, stop: bool) | Ask(restart: bool, stop: bool)

  /** The 32-bit word of a command, low byte first: data in bits 0 to 7, then read, stop and
      restart. */
  function WordBytes(c: Command): seq<Byte> {
    var flags := (if c.Ask? then 1 else 0) + (if c.stop then 2 else 0) + (if c.restart then 4 else 0);
    [if c.Send? then c.data else 0, flags, 0, 0]
  }

  /** What the controller makes of a byte or of a word that is written to its data register: a word
      with bit 8 set asks for a byte, any other sends its lowest byte; bit 9 is STOP and bit 10 is
      RESTART; and a lone byte is sent with neither. */
  function Symbol(value: seq<Byte>): Command
    requires |value| == 1 || |value| == 4
  {
    if |value| == 1 then Send(value[0], false, false)
    else
      var restart, stop := value[1] / 4 % 2 == 1, value[1] / 2 % 2 == 1;
      if value[1] % 2 == 1 then Ask(restart, stop) else Send(value[0], restart, stop)
  }

  /** The event puts this command into the controller. */
  predicate Puts(e: Event, reg: nat, c: Command) {
    e.RegWrite? && e.reg == reg && (|e.value| == 1 || |e.value| == 4) && Symbol(e.value) == c
  }

  lemma WordIsCommand(reg: nat, c: Command)
    ensures Puts(RegWrite(reg, WordBytes(c)), reg, c)
    ensures c.Send? ==> SendsByte(RegWrite(reg, WordBytes(c)), reg, c.data, c.restart, c.stop)
  {
  }

  /** The event sends this byte, with RESTART and STOP as wanted: a lone byte, or a word with the
      byte in bits 0 to 7. */
  predicate SendsByte(e: Event, reg: nat, data: Byte, restart: bool, stop: bool) {
    && Puts(e, reg, Send(data, restart, stop))
    && e.value == if |e.value| == 1 then [data] else [data, (if stop then 2 else 0) + (if restart then 4 else 0), 0, 0]
  }

  function CommandCcr(): Ccr {
    Ccr(false, 4, 1, false, 4, 1)
  }

  /** `count` copies of the word at `addr`; the register and the control register are set only
      the first time. */
  function Custom(reg: nat, periph: nat, addr: nat, count: nat, first: bool): Prog {
    Seq(if first then Op(MovDar(reg)) else Skip,
        Seq(Op(MovSar(addr)),
            Seq(if first then Op(MovCcr(CommandCcr())) else Skip, Chunked(count, Turn(S, periph, 1, 1), Plain))))
  }

  method EmitCustom(program: Program, status: Status, reg: nat, periph: nat, addr: nat, count: nat, first: bool)
    returns (s: Status)
    requires program.Holds(status) && status.Ordinary()
    modifies program
    ensures program.Holds(s) && s.Ordinary()
    ensures program.intended == Append(old(program.intended), Custom(reg, periph, addr, count, first))
  {
    s := status;
    if first {
      s := program.Emit(s, MovDar(reg));
    }
    s := program.Emit(s, MovSar(addr));
    if first {
      s := program.Emit(s, MovCcr(CommandCcr()));
    }
    ghost var c := old(program.intended);
    ghost var a, b := if first then Op(MovDar(reg)) else Skip, if first then Op(MovCcr(CommandCcr())) else Skip;
    ghost var loops := Chunked(count, Turn(S, periph, 1, 1), Plain);
    assert program.intended == Append(Append(Append(c, a), Op(MovSar(addr))), b);
    s := EmitTurns(program, s, S, periph, 1, 1, count, Plain);
    AppendSeq(Append(Append(c, a), Op(MovSar(addr))), b, loops);
    AppendSeq(Append(c, a), Op(MovSar(addr)), Seq(b, loops));
    AppendSeq(c, a, Seq(Op(MovSar(addr)), Seq(b, loops)));
  }

  lemma CustomWellFormed(reg: nat, periph: nat, addr: nat, count: nat, first: bool)
    ensures WellFormed(Custom(reg, periph, addr, count, first), 2)
  {
    TurnWellFormed(S, periph, 1, 1, 1);
    ChunkedWellFormed(count, Turn(S, periph, 1, 1), Plain, 2);
    assert WellFormed(Op(MovDar(reg)), 2) && WellFormed(Op(MovSar(addr)), 2) && WellFormed(Op(MovCcr(CommandCcr())), 2);
    assert WellFormed(Seq(if first then Op(MovCcr(CommandCcr())) else Skip,
                          Chunked(count, Turn(S, periph, 1, 1), Plain)), 2);
  }

  /** k times the same event. */
  function Many(e: Event, k: nat): seq<Event> {
    seq(k, _ => e)
  }

  /** Ready for another command word without setting anything. */
  predicate WordReady(s: State, reg: nat) {
    s.fifo == [] && s.dar == reg && s.ccr == CommandCcr()
  }

  predicate CommandAt(s: State, reg: nat, addr: nat, word: seq<Byte>) {
    && |s.mem| <= reg && reg % 4 == 0 && addr % 4 == 0 && addr + 4 <= |s.mem| && s.mem[addr..addr + 4] == word
  }

  /** A state that differs from s in nothing that anyone can see but k more words. */
  function Written(s: State, reg: nat, addr: nat, word: seq<Byte>, k: nat): State {
    s.(sar := addr, dar := reg, ccr := CommandCcr(), trace := s.trace + Many(RegWrite(reg, word), k),
       req := if k == 0 then s.req else SingleRequest)
  }

  lemma WordTurn(s: State, reg: nat, periph: nat, addr: nat, word: seq<Byte>)
    requires WordReady(s, reg) && CommandAt(s, reg, addr, word) && s.sar == addr
    ensures Exec(Turn(S, periph, 1, 1), s) == Ok(s.(req := SingleRequest, trace := s.trace + [RegWrite(reg, word)]))
  {
    var s1 := s.(req := SingleRequest);
    var s2 := s1.(fifo := word);
    var s3 := s1.(trace := s.trace + [RegWrite(reg, word)]);
    ExecSeq(Op(FlushP(periph)), Op(Wfp(periph, SingleRequest)), s, s);
    assert Repeat(word, 1) == word + Repeat(word, 0) == word;
    assert ExecInstr(Ld(S), s1) == Ok(s2);
    assert word[..4] == word && word[4..] == [];
    assert Accesses(true, reg, 4, word) == [RegWrite(reg, word)];
    assert ExecInstr(St(S), s2) == Ok(s3);
    OneCopy(Op(Ld(S)), s1, s2);
    OneCopy(Op(St(S)), s2, s3);
    ExecSeq(Copies(1, Op(Ld(S))), Copies(1, Op(St(S))), s1, s2);
    ExecSeq(Handshake(S, periph), Seq(Copies(1, Op(Ld(S))), Copies(1, Op(St(S)))), s, s1);
  }

  lemma OneCopy(p: Prog, s: State, t: State)
    requires Exec(p, s) == Ok(t)
    ensures Exec(Copies(1, p), s) == Ok(t)
  {
    ExecSeq(p, Copies(0, p), s, t);
  }

  /** The word is written `count` times, and nothing else is to be seen. */
  lemma CustomRuns(s: State, reg: nat, periph: nat, addr: nat, count: nat, first: bool, word: seq<Byte>)
    requires s.fifo == [] && CommandAt(s, reg, addr, word) && (first || WordReady(s, reg))
    ensures Exec(Custom(reg, periph, addr, count, first), s) == Ok(Written(s, reg, addr, word, count))
    ensures WordReady(Written(s, reg, addr, word, count), reg)
  {
    var a, b := if first then Op(MovDar(reg)) else Skip, if first then Op(MovCcr(CommandCcr())) else Skip;
    var loops := Chunked(count, Turn(S, periph, 1, 1), Plain);
    var s1, s2 := s.(dar := reg), s.(dar := reg, sar := addr);
    var s3 := Written(s, reg, addr, word, 0);
    assert s.trace + Many(RegWrite(reg, word), 0) == s.trace;
    ExecSeq(b, loops, s2, s3);
    ExecSeq(Op(MovSar(addr)), Seq(b, loops), s1, s2);
    ExecSeq(a, Seq(Op(MovSar(addr)), Seq(b, loops)), s, s1);
    var after := (i: nat) => Written(s, reg, addr, word, i);
    forall i: nat | i < count ensures Exec(Turn(S, periph, 1, 1), after(i)) == Ok(after(i + 1)) {
      WordTurn(after(i), reg, periph, addr, word);
      assert Many(RegWrite(reg, word), i) + [RegWrite(reg, word)] == Many(RegWrite(reg, word), i + 1);
      assert after(i).trace + [RegWrite(reg, word)] == after(i + 1).trace;
    }
    ChunkedStates(Turn(S, periph, 1, 1), count, 0, after);
  }

  // ---- The scratch buffer ----

  /** Four command words at sp. */
  predicate ScratchHolds(mem: seq<Byte>, sp: nat, words: seq<Command>) {
    && |words| == 4 && sp % 4 == 0 && sp + 16 <= |mem|
    && forall i | 0 <= i < 4 :: mem[sp + 4 * i..sp + 4 * i + 4] == WordBytes(words[i])
  }

  lemma ScratchKept(mem: seq<Byte>, sp: nat, words: seq<Command>, segs: seq<Segment>, data: seq<Byte>)
    requires ScratchHolds(mem, sp, words) && Proper(segs, |mem|) && |data| == Total(segs)
    requires ApartFrom(Segment(sp, 16), segs)
    ensures ScratchHolds(Scatter(mem, segs, data), sp, words)
  {
    var m := Scatter(mem, segs, data);
    forall a: nat | sp <= a < sp + 16 ensures m[a] == mem[a] {
      ApartOutside(Segment(sp, 16), segs, a);
      ScatterKeeps(mem, segs, data, a);
    }
    forall i | 0 <= i < 4 ensures m[sp + 4 * i..sp + 4 * i + 4] == WordBytes(words[i]) {
      assert m[sp + 4 * i..sp + 4 * i + 4] == mem[sp + 4 * i..sp + 4 * i + 4];
    }
  }
}
