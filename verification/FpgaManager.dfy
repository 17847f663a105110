/** Configuring the FPGA through its manager's registers.  The hardware may answer anything: what
    the k-th register read yields is in answers(k), and the k-th call for data yields stream(k). */
module FpgaManager {
  import opened Bytes
  import opened Options

  datatype Status = Success | Timeout | Error | NoSocControl | PowerOff | ConfigError | StreamError | CrcError

  /** The control register by its fields; `others` is all the rest of it. */
  datatype Control = Control(
    en: bool, nce: bool, nConfigPull: bool, cdRatio: nat, axiCfgEn: bool, cfgWdth: bool, others: nat)

  type ThreeBits = n: nat | n < 8

  datatype Stat = Stat(mode: ThreeBits, msel: nat)

  datatype Monitor = Monitor(nStatus: bool, confDone: bool, crcError: bool, powerOn: bool)

  /** An access to one of the manager's registers, or to the data bus. */
  datatype Access =
    | ReadCtl(ctl: Control) | WriteCtl(ctl: Control)
    | ReadStat(stat: Stat) | ReadMon(mon: Monitor)
    | ReadDclkStat(done: nat) | WriteDclkStat(done: nat) | WriteDclkCnt(count: nat)
    | ClearStatusInterrupt
    | WriteData(word: seq<Byte>)

  const RESET_PHASE: nat := 0x1
  const CONFIG_PHASE: nat := 0x2
  const USER_MODE: nat := 0x4
  const POWERED_OFF: nat := 0xf

  const TIMEOUT_STATE: nat := 2048
  const TIMEOUT_DCLK: nat := 2048 + 4 * 2
  const TIMEOUT_CONFIG: nat := 8192
  const DATA_LIMIT: nat := 32 * 1024 * 1024
  const CHUNK: nat := 512

  // ---- Words of data ----

  /** What is meant to be written: whole words, and a last partial one filled up with zeros. */
  function Words(data: seq<Byte>): seq<seq<Byte>> {
    if data == [] then [] else if |data| < 4 then [Padded(data)] else [data[..4]] + Words(data[4..])
  }

  function Padded(data: seq<Byte>): (w: seq<Byte>)
    requires |data| <= 4
    ensures |w| == 4
  {
    data + seq(4 - |data|, _ => 0)
  }

  /** What is written: the last partial word is taken from the front of the buffer. */
  function AxiWords(data: seq<Byte>): seq<seq<Byte>> {
    WordsThen(Front(data, |data| - |data| % 4), Front(data, |data| % 4))
  }

  function Front(data: seq<Byte>, n: nat): (f: seq<Byte>)
    requires n <= |data|
    ensures |f| == n
  {
    data[..n]
  }

  /** Whole words, and one more for what is left over. */
  function WordsThen(whole: seq<Byte>, left: seq<Byte>): seq<seq<Byte>>
    requires |left| < 4
  {
    if left == [] then Words(whole) else Words(whole) + [Padded(left)]
  }

  lemma {:induction false} WordsConcat(a: seq<Byte>, b: seq<Byte>)
    requires |a| % 4 == 0
    ensures Words(a + b) == Words(a) + Words(b)
    decreases |a|
  {
    if a == [] {
      assert a + b == b;
    } else {
      assert (a + b)[..4] == a[..4] && (a + b)[4..] == a[4..] + b;
      WordsConcat(a[4..], b);
    }
  }

  lemma PaddedSame(a: seq<Byte>, b: seq<Byte>)
    requires |a| == |b| <= 4
    ensures Padded(a) == Padded(b) <==> a == b
  {
    assert Padded(a)[..|a|] == a && Padded(b)[..|b|] == b;
  }

  lemma LastWord(a: seq<seq<Byte>>, x: seq<Byte>, y: seq<Byte>)
    ensures a + [x] == a + [y] <==> x == y
  {
    assert (a + [x])[|a|] == x && (a + [y])[|a|] == y;
  }

  lemma PartialWord(whole: seq<Byte>, tail: seq<Byte>, front: seq<Byte>)
    requires |whole| % 4 == 0 && 0 < |tail| < 4 && |front| == |tail|
    ensures Words(whole) + [Padded(front)] == Words(whole + tail) <==> front == tail
  {
    WordsConcat(whole, tail);
    PaddedSame(front, tail);
    LastWord(Words(whole), Padded(front), Padded(tail));
  }

  lemma TailInParts(whole: seq<Byte>, tail: seq<Byte>, front: seq<Byte>)
    requires |whole| % 4 == 0 && |tail| < 4 && |front| == |tail|
    ensures WordsThen(whole, front) == Words(whole + tail) <==> front == tail
  {
    if tail != [] { PartialWord(whole, tail, front); } else { assert whole + tail == whole; }
  }

  lemma WholePart(n: nat)
    ensures (n - n % 4) % 4 == 0 && n % 4 < 4 && n % 4 <= n && (n < 4 ==> n % 4 == n)
  {
  }

  function Back(data: seq<Byte>, n: nat): (b: seq<Byte>)
    requires n <= |data|
    ensures |b| == n
  {
    data[|data| - n..]
  }

  lemma Split(data: seq<Byte>, n: nat)
    requires n <= |data|
    ensures data == Front(data, |data| - n) + Back(data, n)
    ensures n == |data| ==> Front(data, n) == Back(data, n)
  {
  }

  /** There is no partial word, or nothing but a partial word, or the buffer happens to end as it
      begins. */
  predicate TailRight(data: seq<Byte>) {
    var rest := |data| % 4;
    rest == 0 || |data| < 4 || Front(data, rest) == Back(data, rest)
  }

  /** The words written are the words meant exactly then. */
  lemma TailExactlyWhen(data: seq<Byte>)
    ensures AxiWords(data) == Words(data) <==> TailRight(data)
  {
    var n, rest := |data|, |data| % 4;
    WholePart(n);
    Split(data, rest);
    TailInParts(Front(data, n - rest), Back(data, rest), Front(data, rest));
  }

  lemma NextWord(words: seq<seq<Byte>>, left: seq<Byte>)
    requires 4 <= |left|
    ensures words + Words(left) == words + [left[..4]] + Words(left[4..])
  {
  }

  lemma NoWords(words: seq<seq<Byte>>)
    ensures words + Words([]) == words
  {
  }

  lemma LastPartialWord(data: seq<Byte>, words: seq<seq<Byte>>)
    ensures var rest := |data| % 4;
            var whole := words + Words(Front(data, |data| - rest));
            words + AxiWords(data) == if rest != 0 then whole + [Padded(data[..rest])] else whole
  {
    var rest := |data| % 4;
    var whole := Words(Front(data, |data| - rest));
    assert Front(data, rest) == data[..rest];
    assert words + (whole + [Padded(data[..rest])]) == words + whole + [Padded(data[..rest])];
  }

  /** The shortest buffer that is written wrongly. */
  lemma TailCounterexample()
    ensures AxiWords([1, 2, 3, 4, 5]) != Words([1, 2, 3, 4, 5])
  {
    var data: seq<Byte> := [1, 2, 3, 4, 5];
    TailExactlyWhen(data);
    assert Front(data, 1) == [1] && Back(data, 1) == [5];
  }

  // ---- What a log of accesses shows ----

  /** The steps of a successful configuration, in order. */
  predicate Milestone(k: nat, a: Access) {
    match k
    case 0 => a.WriteCtl? && a.ctl.nConfigPull
    case 1 => a.ReadStat? && a.stat.mode == RESET_PHASE
    case 2 => a.WriteCtl? && !a.ctl.nConfigPull
    case 3 => a.ReadStat? && a.stat.mode == CONFIG_PHASE
    case 4 => a.ClearStatusInterrupt?
    case 5 => a.WriteCtl? && a.ctl.axiCfgEn
    case 6 => a.ReadMon? && a.mon.confDone && a.mon.nStatus && !a.mon.crcError
    case 7 => a.WriteCtl? && !a.ctl.axiCfgEn
    case 8 => a == WriteDclkCnt(4)
    case 9 => a == ReadDclkStat(1)
    case 10 => a == WriteDclkStat(1)
    case 11 => a.ReadStat? && a.stat.mode == USER_MODE
    case _ => false
  }

  /** The last access was a read that showed this state. */
  predicate Observed(log: seq<Access>, state: nat) {
    log != [] && log[|log| - 1].ReadStat? && log[|log| - 1].stat.mode == state
  }

  /** The last access was a read that showed the configuration done, and no CRC error. */
  predicate ObservedDone(log: seq<Access>) {
    log != [] && Milestone(6, log[|log| - 1])
  }

  /** A count of clocks has been observed to be done, and acknowledged. */
  predicate Acknowledged(log: seq<Access>) {
    2 <= |log| && log[|log| - 2] == ReadDclkStat(1) && log[|log| - 1] == WriteDclkStat(1)
  }

  /** A count of clocks has been issued since `before`, and then all that. */
  ghost predicate Counted(before: seq<Access>, log: seq<Access>, count: nat) {
    && |before| + 2 < |log| && Acknowledged(log)
    && exists i: nat | |before| <= i < |log| - 2 :: log[i] == WriteDclkCnt(count)
  }

  /** The state that the next step waits for. */
  predicate Awaits(k: nat, state: nat) {
    (k == 1 && state == RESET_PHASE) || (k == 3 && state == CONFIG_PHASE) || (k == 11 && state == USER_MODE)
  }

  /** How many of the steps have happened, each after the one before. */
  function Stage(log: seq<Access>): nat {
    if log == [] then 0
    else
      var k := Stage(log[..|log| - 1]);
      if Milestone(k, log[|log| - 1]) then k + 1 else k
  }

  /** The control register as last written, if it has been. */
  function LastCtl(log: seq<Access>): seq<Control> {
    if log == [] then []
    else if log[|log| - 1].WriteCtl? then [log[|log| - 1].ctl]
    else LastCtl(log[..|log| - 1])
  }

  /** Data was written only while the control register was as it has to be for data: `base`, with
      the data bus enabled. */
  predicate DataGuarded(log: seq<Access>, base: Control) {
    log == []
    || (DataGuarded(log[..|log| - 1], base)
        && (log[|log| - 1].WriteData? ==> LastCtl(log[..|log| - 1]) == [base.(axiCfgEn := true)]))
  }

  /** The fields that a configuration has no business with. */
  predicate OthersKept(c: Control, base: Control) {
    c.en == base.en && c.others == base.others
  }

  /** They were never changed from what they are in `base`. */
  predicate OtherBitsKept(log: seq<Access>, base: Control) {
    forall i | 0 <= i < |log| && log[i].WriteCtl? :: OthersKept(log[i].ctl, base)
  }

  function DataWords(log: seq<Access>): seq<seq<Byte>> {
    if log == [] then []
    else DataWords(log[..|log| - 1]) + if log[|log| - 1].WriteData? then [log[|log| - 1].word] else []
  }

  /** What one more access does to all of these. */
  lemma Appended(log: seq<Access>, a: Access, base: Control)
    ensures Stage(log + [a]) == Stage(log) + if Milestone(Stage(log), a) then 1 else 0
    ensures LastCtl(log + [a]) == if a.WriteCtl? then [a.ctl] else LastCtl(log)
    ensures DataWords(log + [a]) == DataWords(log) + if a.WriteData? then [a.word] else []
    ensures DataGuarded(log + [a], base) ==
            (DataGuarded(log, base) && (a.WriteData? ==> LastCtl(log) == [base.(axiCfgEn := true)]))
  {
    assert (log + [a])[..|log|] == log;
  }

  lemma {:induction false} StageGrows(log: seq<Access>, i: nat)
    requires i <= |log|
    ensures Stage(log[..i]) <= Stage(log)
    decreases |log|
  {
    if i == |log| {
      assert log[..i] == log;
    } else {
      var front := log[..|log| - 1];
      assert front[..i] == log[..i];
      StageGrows(front, i);
    }
  }

  lemma StageOfPrefix(log: seq<Access>, b: nat, a: nat)
    requires b <= a <= |log|
    ensures Stage(log[..b]) <= Stage(log[..a])
  {
    StageGrows(log[..a], b);
    assert log[..a][..b] == log[..b];
  }

  /** Step k of those counted is in the log, behind the k steps before it. */
  lemma {:induction false} StepIn(log: seq<Access>, k: nat) returns (i: nat)
    requires k < Stage(log)
    ensures i < |log| && Milestone(k, log[i]) && Stage(log[..i]) == k
  {
    var front := log[..|log| - 1];
    if k < Stage(front) {
      i := StepIn(front, k);
      assert front[..i] == log[..i];
    } else {
      i := |log| - 1;
    }
  }

  /** The steps counted happened in their order. */
  lemma StepsInOrder(log: seq<Access>, j: nat, k: nat) returns (a: nat, b: nat)
    requires j < k < Stage(log)
    ensures a < b < |log| && Milestone(j, log[a]) && Milestone(k, log[b])
  {
    a := StepIn(log, j);
    b := StepIn(log, k);
    if b <= a { StageOfPrefix(log, b, a); }
  }

  /** Whenever data was written, this is what the control register had last been set to. */
  lemma {:induction false} BusWasEnabled(log: seq<Access>, base: Control, i: nat)
    requires DataGuarded(log, base) && i < |log| && log[i].WriteData?
    ensures LastCtl(log[..i]) == [base.(axiCfgEn := true)]
  {
    if i < |log| - 1 {
      var front := log[..|log| - 1];
      assert front[i] == log[i] && front[..i] == log[..i];
      BusWasEnabled(front, base, i);
    }
  }

  /** Nothing has gone wrong so far: data only on an enabled bus, and no bit changed that is none
      of the manager's business. */
  predicate Sound(log: seq<Access>, base: Control) {
    DataGuarded(log, base) && OtherBitsKept(log, base)
  }

  /** Width of the data bus and clock ratio of a configuration mode. */
  datatype Mode = Mode(wide: bool, ratio: nat) | Unknown

  function ModeSetting(msel: nat): Mode {
    if msel == 0x0 || msel == 0x4 then Mode(false, 0)
    else if msel == 0x1 || msel == 0x5 then Mode(false, 1)
    else if msel == 0x2 || msel == 0x6 then Mode(false, 2)
    else if msel == 0x8 || msel == 0xc then Mode(true, 0)
    else if msel == 0x9 || msel == 0xd then Mode(true, 2)
    else if msel == 0xa || msel == 0xe then Mode(true, 3)
    else Unknown
  }

  /** The modes that are known are the twelve of the datasheet: of the four bits, the highest says
      how wide the bus is, and the two lowest are never both set. */
  lemma ModeWidth(msel: nat)
    ensures ModeSetting(msel).Mode? <==> msel < 16 && msel % 4 != 3
    ensures ModeSetting(msel).Mode? ==>
      && (ModeSetting(msel).wide <==> 8 <= msel)
      && ModeSetting(msel).ratio == if msel < 8 || msel % 4 == 0 then msel % 4 else msel % 4 + 1
  {
  }

  predicate Permitted(log: seq<Access>, a: Access, base: Control) {
    && (a.WriteCtl? ==> OthersKept(a.ctl, base))
    && (a.WriteData? ==> LastCtl(log) == [base.(axiCfgEn := true)])
  }

  /** The control register that a configuration leaves behind. */
  function Settled(base: Control, mode: Mode): Control
    requires !mode.Unknown?
  {
    base.(cdRatio := mode.ratio, cfgWdth := mode.wide, nce := false, nConfigPull := false)
  }

  // ---- The hardware ----

  /** One call for data: its result, and the bytes that are then at the front of the buffer. */
  datatype Chunk = Chunk(status: int, bytes: seq<Byte>)

  /** The result is the number of bytes if there are any and they fit. */
  predicate Fits(c: Chunk) {
    0 < c.status <= CHUNK && |c.bytes| == c.status
  }

  predicate AllFit(stream: nat -> Chunk, n: nat) {
    n == 0 || (AllFit(stream, n - 1) && Fits(stream(n - 1)))
  }

  /** What a register read would yield, register by register. */
  datatype Answer = Answer(ctl: Control, stat: Stat, mon: Monitor, dclkStat: nat)

  datatype Image = Full(data: seq<Byte>) | Streamed

  /** The bytes of n calls for data. */
  function StreamBytes(stream: nat -> Chunk, n: nat): seq<Byte> {
    if n == 0 then [] else StreamBytes(stream, n - 1) + stream(n - 1).bytes
  }

  /** The words that go out for them, chunk by chunk. */
  function StreamWords(stream: nat -> Chunk, n: nat): seq<seq<Byte>> {
    if n == 0 then [] else StreamWords(stream, n - 1) + AxiWords(stream(n - 1).bytes)
  }

  /** The first n chunks have been passed on as words, and left more bytes are allowed. */
  ghost predicate Passed(stream: nat -> Chunk, n: nat, left: nat, before: seq<seq<Byte>>, words: seq<seq<Byte>>) {
    && AllFit(stream, n)
    && left + |StreamBytes(stream, n)| == DATA_LIMIT && n <= |StreamBytes(stream, n)|
    && words == before + StreamWords(stream, n)
  }

  lemma NextChunk(stream: nat -> Chunk, n: nat, left: nat, before: seq<seq<Byte>>, words: seq<seq<Byte>>)
    requires Passed(stream, n, left, before, words)
    requires Fits(stream(n)) && 0 < stream(n).status <= left
    ensures Passed(stream, n + 1, left - stream(n).status, before, words + AxiWords(stream(n).bytes))
  {
    assert before + StreamWords(stream, n) + AxiWords(stream(n).bytes) == before + StreamWords(stream, n + 1);
  }

  lemma NoPartialWord(b: seq<Byte>)
    requires |b| % 4 == 0
    ensures AxiWords(b) == Words(b)
  {
    assert Front(b, |b|) == b && Front(b, 0) == [];
  }

  lemma BothWhole(m: nat, n: nat)
    requires m % 4 == 0 && n % 4 == 0
    ensures (m + n) % 4 == 0
  {
  }

  /** In chunks of whole words the stream goes out as it is. */
  lemma {:induction false} WholeWordStream(stream: nat -> Chunk, n: nat)
    requires forall k: nat | k < n :: |stream(k).bytes| % 4 == 0
    ensures |StreamBytes(stream, n)| % 4 == 0 && StreamWords(stream, n) == Words(StreamBytes(stream, n))
  {
    if n > 0 {
      WholeWordStream(stream, n - 1);
      var a, b := StreamBytes(stream, n - 1), stream(n - 1).bytes;
      NoPartialWord(b);
      WordsConcat(a, b);
      BothWhole(|a|, |b|);
    }
  }

  lemma SameFront(a: seq<seq<Byte>>, x: seq<seq<Byte>>, y: seq<seq<Byte>>)
    ensures a + x == a + y <==> x == y
  {
    assert (a + x)[|a|..] == x && (a + y)[|a|..] == y;
  }

  /** When all chunks but the last are whole words, the stream goes out as it is if and only if the
      last one does. */
  lemma LastChunkExactlyWhen(stream: nat -> Chunk, n: nat)
    requires 0 < n && forall k: nat | k < n - 1 :: |stream(k).bytes| % 4 == 0
    ensures StreamWords(stream, n) == Words(StreamBytes(stream, n)) <==> TailRight(stream(n - 1).bytes)
  {
    var a, b := StreamBytes(stream, n - 1), stream(n - 1).bytes;
    WholeWordStream(stream, n - 1);
    WordsConcat(a, b);
    SameFront(Words(a), AxiWords(b), Words(b));
    TailExactlyWhen(b);
  }

  // ---- When the hardware is ready ----

  /** What a poll for the state that begins with read r shows: the device is off, or its mode. */
  function Shown(answers: nat -> Answer, r: nat): nat {
    if answers(r).mon.powerOn then answers(r + 1).stat.mode else POWERED_OFF
  }

  /** The read behind that poll; the mode is not read of a device that is off. */
  function NextPoll(answers: nat -> Answer, r: nat): nat {
    if answers(r).mon.powerOn then r + 2 else r + 1
  }

  /** The first read of poll k, when the first poll begins with read r. */
  function PollAt(answers: nat -> Answer, r: nat, k: nat): nat {
    if k == 0 then r else NextPoll(answers, PollAt(answers, r, k - 1))
  }

  /** Of the polls that begin with read r, poll k is the first that shows the state. */
  ghost predicate FirstShown(answers: nat -> Answer, r: nat, state: nat, k: nat) {
    && Shown(answers, PollAt(answers, r, k)) == state
    && forall j: nat | j < k :: Shown(answers, PollAt(answers, r, j)) != state
  }

  /** The read behind the first poll that shows the state, if one of the next n does. */
  function AwaitState(answers: nat -> Answer, r: nat, state: nat, n: nat): Option<nat>
    decreases n, r
  {
    if n == 0 then None
    else if Shown(answers, r) == state then Some(NextPoll(answers, r))
    else AwaitState(answers, NextPoll(answers, r), state, n - 1)
  }

  /** Every poll takes two reads at most. */
  lemma {:induction false} PollsBound(answers: nat -> Answer, r: nat, state: nat, n: nat)
    ensures PollAt(answers, r, n) <= r + 2 * n
    ensures AwaitState(answers, r, state, n).Some? ==> AwaitState(answers, r, state, n).value <= r + 2 * n
    decreases n
  {
    if n > 0 {
      PollsBound(answers, NextPoll(answers, r), state, n - 1);
      LaterPoll(answers, r, n - 1);
    }
  }

  lemma {:induction false} LaterPoll(answers: nat -> Answer, r: nat, k: nat)
    ensures PollAt(answers, NextPoll(answers, r), k) == PollAt(answers, r, k + 1)
  {
    if k > 0 { LaterPoll(answers, r, k - 1); }
  }

  lemma LaterShown(answers: nat -> Answer, r: nat, state: nat, k: nat)
    requires Shown(answers, r) != state && FirstShown(answers, NextPoll(answers, r), state, k)
    ensures FirstShown(answers, r, state, k + 1)
  {
    LaterPoll(answers, r, k);
    forall j: nat | j < k + 1 ensures Shown(answers, PollAt(answers, r, j)) != state {
      if j > 0 { LaterPoll(answers, r, j - 1); }
    }
  }

  /** It is found if and only if one of the n polls shows the state, and then it is the first. */
  lemma {:induction false} AwaitStateMeans(answers: nat -> Answer, r: nat, state: nat, n: nat)
    ensures match AwaitState(answers, r, state, n)
            case None => forall k: nat | k < n :: Shown(answers, PollAt(answers, r, k)) != state
            case Some(next) =>
              exists k: nat :: k < n && FirstShown(answers, r, state, k) && next == PollAt(answers, r, k + 1)
    decreases n
  {
    if n == 0 {
    } else if Shown(answers, r) == state {
      assert PollAt(answers, r, 0) == r && PollAt(answers, r, 1) == NextPoll(answers, r);
      assert FirstShown(answers, r, state, 0);
    } else {
      var next := NextPoll(answers, r);
      AwaitStateMeans(answers, next, state, n - 1);
      if AwaitState(answers, next, state, n - 1).None? {
        forall k: nat | k < n ensures Shown(answers, PollAt(answers, r, k)) != state {
          if k > 0 { LaterPoll(answers, r, k - 1); }
        }
      } else {
        var k: nat :| k < n - 1 && FirstShown(answers, next, state, k)
                      && AwaitState(answers, next, state, n - 1).value == PollAt(answers, next, k + 1);
        LaterShown(answers, r, state, k);
        LaterPoll(answers, r, k + 1);
      }
    }
  }

  /** A read of the monitor that decides about the configuration, and what it says. */
  predicate Decides(mon: Monitor) {
    mon.crcError || mon.confDone == mon.nStatus
  }

  function Verdict(mon: Monitor): (status: Status)
    ensures status == Success && Decides(mon) <==> mon.confDone && mon.nStatus && !mon.crcError
    ensures status == ConfigError && Decides(mon) <==> !mon.confDone && !mon.nStatus && !mon.crcError
    ensures status == CrcError <==> mon.crcError
  {
    if mon.crcError then CrcError else if mon.confDone then Success else ConfigError
  }

  /** The first of the next n reads of the monitor that decides, if one does. */
  function AwaitDecision(answers: nat -> Answer, r: nat, n: nat): Option<nat>
    decreases n, r
  {
    if n == 0 then None
    else if Decides(answers(r).mon) then Some(r)
    else AwaitDecision(answers, r + 1, n - 1)
  }

  lemma {:induction false} AwaitDecisionMeans(answers: nat -> Answer, r: nat, n: nat)
    ensures match AwaitDecision(answers, r, n)
            case None => forall i: nat | r <= i < r + n :: !Decides(answers(i).mon)
            case Some(k) =>
              && r <= k < r + n && Decides(answers(k).mon)
              && forall i: nat | r <= i < k :: !Decides(answers(i).mon)
    decreases n
  {
    if n > 0 { AwaitDecisionMeans(answers, r + 1, n - 1); }
  }

  /** The first of the next n reads that shows the clocks counted, if one does. */
  function AwaitClocks(answers: nat -> Answer, r: nat, n: nat): Option<nat>
    decreases n, r
  {
    if n == 0 then None
    else if answers(r).dclkStat == 1 then Some(r)
    else AwaitClocks(answers, r + 1, n - 1)
  }

  lemma {:induction false} AwaitClocksMeans(answers: nat -> Answer, r: nat, n: nat)
    ensures match AwaitClocks(answers, r, n)
            case None => forall i: nat | r <= i < r + n :: answers(i).dclkStat != 1
            case Some(k) =>
              && r <= k < r + n && answers(k).dclkStat == 1
              && forall i: nat | r <= i < k :: answers(i).dclkStat != 1
    decreases n
  {
    if n > 0 { AwaitClocksMeans(answers, r + 1, n - 1); }
  }

  // ---- When an image can be passed on ----

  /** The stream ends after n chunks that fit, and within 32 MiB. */
  ghost predicate EndsAfter(stream: nat -> Chunk, n: nat) {
    AllFit(stream, n) && |StreamBytes(stream, n)| <= 33554432 && stream(n).status == 0
  }

  ghost predicate Ends(stream: nat -> Chunk) {
    exists n: nat :: EndsAfter(stream, n)
  }

  ghost predicate Sendable(stream: nat -> Chunk, image: Image) {
    match image
    case Full(data) => |data| <= 33554432
    case Streamed => Ends(stream)
  }

  lemma {:induction false} FitsBefore(stream: nat -> Chunk, m: nat, n: nat)
    requires m <= n && AllFit(stream, n)
    ensures AllFit(stream, m) && |StreamBytes(stream, m)| <= |StreamBytes(stream, n)|
    ensures m < n ==> Fits(stream(m)) && |StreamBytes(stream, m)| + stream(m).status <= |StreamBytes(stream, n)|
    decreases n - m
  {
    if m < n { FitsBefore(stream, m + 1, n); }
  }

  /** A stream that breaks off at chunk m has no end to come to. */
  lemma BrokenOff(stream: nat -> Chunk, m: nat)
    requires AllFit(stream, m) && stream(m).status != 0
    requires Fits(stream(m)) ==> DATA_LIMIT < |StreamBytes(stream, m)| + stream(m).status
    ensures !Ends(stream)
  {
    forall n: nat ensures !EndsAfter(stream, n) {
      if n < m { FitsBefore(stream, n, m); } else if AllFit(stream, n) { FitsBefore(stream, m, n); }
    }
  }

  /** Words that are those of the whole image; a stream has then ended with the last of its calls. */
  ghost predicate GoneOut(stream: nat -> Chunk, image: Image, calls: nat, words: seq<seq<Byte>>) {
    match image
    case Full(data) => |data| <= DATA_LIMIT && words == AxiWords(data)
    case Streamed => 0 < calls && EndsAfter(stream, calls - 1) && words == StreamWords(stream, calls - 1)
  }

  // ---- What a configuration comes to ----

  /** Steps 9 and 10, from read r. */
  ghost function DataOutcome(answers: nat -> Answer, stream: nat -> Chunk, image: Image, r: nat): Status {
    if !Sendable(stream, image) then (if image.Full? then ConfigError else StreamError)
    else match AwaitDecision(answers, r, 8193)
      case None => ConfigError
      case Some(k) => Verdict(answers(k).mon)
  }

  /** The clocks are counted, and then the device is up, from read r; that read is still of an
      earlier count. */
  predicate ComesUp(answers: nat -> Answer, r: nat) {
    match AwaitClocks(answers, r + 1, 2057)
    case None => false
    case Some(k) => AwaitState(answers, k + 1, 4, 2049).Some?
  }

  /** Steps 7 to 13, from read r. */
  ghost function SendOutcome(answers: nat -> Answer, stream: nat -> Chunk, image: Image, r: nat): Status {
    var data := DataOutcome(answers, stream, image, r);
    if data != Success then data
    else match AwaitDecision(answers, r, 8193)
      case None => ConfigError
      case Some(k) => if ComesUp(answers, k + 1) then Success else ConfigError
  }

  /** The read before this one was the first that decided. */
  predicate DecidedBefore(answers: nat -> Answer, r: nat, next: nat) {
    0 < next && AwaitDecision(answers, r, 8193) == Some(next - 1)
  }

  lemma BehindData(
    answers: nat -> Answer, stream: nat -> Chunk, image: Image, r: nat, data: Status, next: nat)
    requires data == DataOutcome(answers, stream, image, r)
    requires data == Success ==> DecidedBefore(answers, r, next)
    ensures SendOutcome(answers, stream, image, r)
         == if data != Success then data else if ComesUp(answers, next) then Success else ConfigError
  {
  }

  /** Reset and then the configuration phase are seen, from read r: the read behind that. */
  function Enters(answers: nat -> Answer, r: nat): Option<nat> {
    match AwaitState(answers, r, 1, 2049)
    case None => None
    case Some(reset) => AwaitState(answers, reset, 2, 2049)
  }

  ghost function ProgramOutcome(answers: nat -> Answer, stream: nat -> Chunk, image: Image, r: nat): Status {
    match Enters(answers, r)
    case None => ConfigError
    case Some(entered) => SendOutcome(answers, stream, image, entered)
  }

  /** All of it: the device is programmed only if the manager is enabled, the device on and its
      configuration mode one of the twelve. */
  ghost function Outcome(answers: nat -> Answer, stream: nat -> Chunk, image: Image): Status {
    var msel := answers(4).stat.msel;
    if !answers(0).ctl.en then NoSocControl
    else if !answers(1).mon.powerOn then PowerOff
    else if 16 <= msel || msel % 4 == 3 then Error
    else ProgramOutcome(answers, stream, image, 5)
  }

  /** The control register that a configuration sets for its data and leaves behind: as it was read,
      but with the width and the clock ratio of the mode, and with NCE and NCONFIGPULL clear. */
  function ControlFor(answers: nat -> Answer): Control {
    var read, msel := answers(3).ctl, answers(4).stat.msel;
    read.(cfgWdth := 8 <= msel, cdRatio := if msel < 8 || msel % 4 == 0 then msel % 4 else msel % 4 + 1,
          nce := false, nConfigPull := false)
  }

  /** What is found wrong before anything is written. */
  lemma RefusedExactlyWhen(answers: nat -> Answer, stream: nat -> Chunk, image: Image)
    ensures Outcome(answers, stream, image) == NoSocControl <==> !answers(0).ctl.en
    ensures Outcome(answers, stream, image) == PowerOff <==> answers(0).ctl.en && !answers(1).mon.powerOn
    ensures Outcome(answers, stream, image) == Error <==>
            answers(0).ctl.en && answers(1).mon.powerOn && ModeSetting(answers(4).stat.msel).Unknown?
    ensures Outcome(answers, stream, image) != Timeout
  {
    ModeWidth(answers(4).stat.msel);
  }

  /** A configuration succeeds if and only if the image can be passed on and the device shows the
      two phases, is then done before anything else is decided, counts the clocks and comes up. */
  lemma SucceedsExactlyWhen(answers: nat -> Answer, stream: nat -> Chunk, image: Image)
    ensures Outcome(answers, stream, image) == Success <==>
            && answers(0).ctl.en && answers(1).mon.powerOn && ModeSetting(answers(4).stat.msel).Mode?
            && Sendable(stream, image)
            && Enters(answers, 5).Some?
            && var entered := Enters(answers, 5).value;
            && AwaitDecision(answers, entered, 8193).Some?
            && var k := AwaitDecision(answers, entered, 8193).value;
            && answers(k).mon.confDone && answers(k).mon.nStatus && !answers(k).mon.crcError
            && ComesUp(answers, k + 1)
  {
    ModeWidth(answers(4).stat.msel);
    if Enters(answers, 5).Some? { AwaitDecisionMeans(answers, Enters(answers, 5).value, 8193); }
  }

  /** With hardware that is ready whenever it is asked, every image that can be passed on is. */
  lemma ReadyHardware(answers: nat -> Answer, stream: nat -> Chunk, image: Image)
    requires answers(0).ctl.en && answers(4).stat.msel == 0
    requires forall r: nat :: answers(r).mon.powerOn && answers(r).dclkStat == 1
    requires answers(6).stat.mode == 1 && answers(8).stat.mode == 2 && answers(13).stat.mode == 4
    requires answers(9).mon.confDone && answers(9).mon.nStatus && !answers(9).mon.crcError
    ensures Outcome(answers, stream, image) == Success <==> Sendable(stream, image)
  {
    assert answers(7).mon.powerOn && answers(12).mon.powerOn && answers(11).dclkStat == 1;
    assert AwaitState(answers, 5, 1, 2049) == Some(7);
    assert AwaitState(answers, 7, 2, 2049) == Some(9);
    assert AwaitDecision(answers, 9, 8193) == Some(9);
    assert AwaitClocks(answers, 11, 2057) == Some(11);
    assert AwaitState(answers, 12, 4, 2049) == Some(14);
  }

  class Manager {
    const answers: nat -> Answer
    const stream: nat -> Chunk
    var readCount: nat
    var calls: nat
    ghost var log: seq<Access>

    constructor (answers: nat -> Answer, stream: nat -> Chunk)
      ensures log == [] && calls == 0 && this.stream == stream && this.answers == answers
    {
      this.answers, this.stream := answers, stream;
      readCount, calls, log := 0, 0, [];
    }

    /** Every access is recorded. */
    ghost method Record(a: Access, base: Control)
      modifies `log
      ensures log == old(log) + [a]
      ensures Stage(log) == Stage(old(log)) + if Milestone(Stage(old(log)), a) then 1 else 0
      ensures LastCtl(log) == if a.WriteCtl? then [a.ctl] else LastCtl(old(log))
      ensures DataWords(log) == DataWords(old(log)) + if a.WriteData? then [a.word] else []
      ensures Sound(old(log), base) && Permitted(old(log), a, base) ==> Sound(log, base)
    {
      Appended(log, a, base);
      log := log + [a];
    }

    method NextAnswer() returns (answer: Answer)
      modifies `readCount
      ensures answer == answers(old(readCount)) && readCount == old(readCount) + 1
    {
      answer := answers(readCount);
      readCount := readCount + 1;
    }

    method MonStatus(ghost base: Control) returns (mon: Monitor)
      requires Sound(log, base)
      modifies `readCount, `log
      ensures Sound(log, base) && LastCtl(log) == LastCtl(old(log)) && DataWords(log) == DataWords(old(log))
      ensures readCount == old(readCount) + 1 && mon == answers(old(readCount)).mon && log == old(log) + [ReadMon(mon)]
      ensures Stage(log) == Stage(old(log))
        + if Stage(old(log)) == 6 && mon.confDone && mon.nStatus && !mon.crcError then 1 else 0
    {
      var answer := NextAnswer();
      mon := answer.mon;
      Record(ReadMon(mon), base);
    }

    method StateGet(ghost base: Control) returns (state: nat)
      requires Sound(log, base)
      modifies `readCount, `log
      ensures Sound(log, base) && LastCtl(log) == LastCtl(old(log)) && DataWords(log) == DataWords(old(log))
      ensures Stage(log) >= Stage(old(log)) && readCount <= old(readCount) + 2
      ensures state != POWERED_OFF && Awaits(Stage(old(log)), state) ==> Stage(log) == Stage(old(log)) + 1
      ensures Stage(old(log)) != 6 && !Awaits(Stage(old(log)), state) ==> Stage(log) == Stage(old(log))
      ensures state == Shown(answers, old(readCount)) && readCount == NextPoll(answers, old(readCount))
      ensures state != POWERED_OFF ==> Observed(log, state)
      ensures state == POWERED_OFF <==> !answers(old(readCount)).mon.powerOn
    {
      var mon := MonStatus(base);
      if !mon.powerOn {
        return POWERED_OFF;
      }
      var answer := NextAnswer();
      state := answer.stat.mode;
      Record(ReadStat(answer.stat), base);
    }

    /** One poll, and whether it shows the state. */
    method PollState(state: nat, ghost base: Control) returns (found: bool)
      requires Sound(log, base) && state != POWERED_OFF
      modifies `readCount, `log
      ensures Sound(log, base) && LastCtl(log) == LastCtl(old(log)) && DataWords(log) == DataWords(old(log))
      ensures found == (Shown(answers, old(readCount)) == state) && (found ==> Observed(log, state))
      ensures readCount == NextPoll(answers, old(readCount))
      ensures Stage(log) >= Stage(old(log))
      ensures Awaits(Stage(old(log)), state) ==> Stage(log) == Stage(old(log)) + if found then 1 else 0
    {
      var current := StateGet(base);
      found := current == state;
    }

    /** Waits for a state, through timeout + 1 polls at most: successful if and only if one of them
        shows it, and then up at the first that does. */
    method WaitForState(state: nat, timeout: nat, ghost base: Control) returns (status: Status)
      requires Sound(log, base) && state != POWERED_OFF
      modifies `readCount, `log
      ensures match AwaitState(answers, old(readCount), state, timeout + 1)
              case None => status == Timeout && readCount == PollAt(answers, old(readCount), timeout + 1)
              case Some(next) => status == Success && readCount == next && Observed(log, state)
      ensures Sound(log, base) && LastCtl(log) == LastCtl(old(log)) && DataWords(log) == DataWords(old(log))
      ensures Stage(log) >= Stage(old(log)) && readCount <= old(readCount) + 2 * (timeout + 1)
      ensures Awaits(Stage(old(log)), state) ==> Stage(log) == Stage(old(log)) + if status == Success then 1 else 0
    {
      status := Timeout;
      var left := timeout + 1;
      ghost var polls := 0;
      while left > 0
        invariant Sound(log, base) && LastCtl(log) == LastCtl(old(log)) && DataWords(log) == DataWords(old(log))
        invariant Stage(log) >= Stage(old(log)) && 0 <= left <= timeout + 1
        invariant status == Timeout && (Awaits(Stage(old(log)), state) ==> Stage(log) == Stage(old(log)))
        invariant polls + left == timeout + 1 && readCount == PollAt(answers, old(readCount), polls)
        invariant AwaitState(answers, old(readCount), state, timeout + 1) == AwaitState(answers, readCount, state, left)
      {
        var found := PollState(state, base);
        if found {
          status := Success;
          break;
        }
        left, polls := left - 1, polls + 1;
      }
      PollsBound(answers, old(readCount), state, timeout + 1);
    }

    /** Waits until CONF_DONE and nSTATUS agree or there is a CRC error, through timeout + 1 reads
        at most. */
    method WaitForConfigDone(timeout: nat, ghost base: Control) returns (status: Status)
      requires Sound(log, base)
      modifies `readCount, `log
      ensures Sound(log, base) && LastCtl(log) == LastCtl(old(log)) && DataWords(log) == DataWords(old(log))
      ensures status == Success || status == ConfigError || status == CrcError || status == Timeout
      ensures match AwaitDecision(answers, old(readCount), timeout + 1)
              case None => status == Timeout && readCount == old(readCount) + timeout + 1
              case Some(k) => status == Verdict(answers(k).mon) && readCount == k + 1 && Decides(answers(k).mon)
      ensures status == Success ==> ObservedDone(log)
      ensures Stage(log) >= Stage(old(log)) && readCount <= old(readCount) + timeout + 1
      ensures Stage(old(log)) == 6 ==> Stage(log) == if status == Success then 7 else 6
    {
      status := Timeout;
      var left := timeout + 1;
      while left > 0
        invariant Sound(log, base) && LastCtl(log) == LastCtl(old(log)) && DataWords(log) == DataWords(old(log))
        invariant Stage(log) >= Stage(old(log)) && 0 <= left <= timeout + 1
        invariant status == Timeout && (Stage(old(log)) == 6 ==> Stage(log) == 6)
        invariant readCount == old(readCount) + (timeout + 1 - left)
        invariant AwaitDecision(answers, old(readCount), timeout + 1) == AwaitDecision(answers, readCount, left)
      {
        var mon := MonStatus(base);
        if mon.crcError {
          status := CrcError;
          break;
        }
        if mon.confDone == mon.nStatus {
          status := if mon.confDone then Success else ConfigError;
          break;
        }
        left := left - 1;
      }
    }

    /** One poll, and the acknowledgement if the count is done. */
    method PollDclk(ghost base: Control) returns (done: bool)
      requires Sound(log, base)
      modifies `readCount, `log
      ensures Sound(log, base) && LastCtl(log) == LastCtl(old(log)) && DataWords(log) == DataWords(old(log))
      ensures readCount == old(readCount) + 1 && done == (answers(old(readCount)).dclkStat == 1)
      ensures Stage(log) >= Stage(old(log))
      ensures Stage(old(log)) == 9 ==> Stage(log) == if done then 11 else 9
      ensures old(log) <= log && (done ==> |old(log)| + 2 <= |log| && Acknowledged(log))
    {
      var answer := NextAnswer();
      Record(ReadDclkStat(answer.dclkStat), base);
      done := answer.dclkStat == 1;
      if done {
        Record(WriteDclkStat(1), base);
      }
    }

    /** Polls until the clocks have been counted. */
    method WaitForDclk(timeout: nat, ghost base: Control) returns (status: Status)
      requires Sound(log, base)
      modifies `readCount, `log
      ensures Sound(log, base) && LastCtl(log) == LastCtl(old(log)) && DataWords(log) == DataWords(old(log))
      ensures status == Success || status == Timeout
      ensures Stage(log) >= Stage(old(log)) && readCount <= old(readCount) + timeout + 1
      ensures status == Success && Stage(old(log)) == 9 ==> Stage(log) == 11
      ensures match AwaitClocks(answers, old(readCount), timeout + 1)
              case None => status == Timeout && readCount == old(readCount) + timeout + 1
              case Some(k) => status == Success && readCount == k + 1
      ensures old(log) <= log && (status == Success ==> |old(log)| + 2 <= |log| && Acknowledged(log))
    {
      status := Timeout;
      var left := timeout + 1;
      while left > 0
        invariant Sound(log, base) && LastCtl(log) == LastCtl(old(log)) && DataWords(log) == DataWords(old(log))
        invariant Stage(log) >= Stage(old(log)) && 0 <= left <= timeout + 1
        invariant status == Timeout && (Stage(old(log)) == 9 ==> Stage(log) == 9) && old(log) <= log
        invariant readCount == old(readCount) + (timeout + 1 - left)
        invariant AwaitClocks(answers, old(readCount), timeout + 1) == AwaitClocks(answers, readCount, left)
      {
        var done := PollDclk(base);
        if done {
          status := Success;
          break;
        }
        left := left - 1;
      }
    }

    /** Clears what an earlier count may have left. */
    method ClearDclk(ghost base: Control)
      requires Sound(log, base)
      modifies `readCount, `log
      ensures Sound(log, base) && LastCtl(log) == LastCtl(old(log)) && DataWords(log) == DataWords(old(log))
      ensures Stage(log) >= Stage(old(log)) && readCount == old(readCount) + 1 &&
              (Stage(old(log)) == 8 ==> Stage(log) == 8)
      ensures old(log) <= log
    {
      var answer := NextAnswer();
      Record(ReadDclkStat(answer.dclkStat), base);
      if answer.dclkStat != 0 {
        Record(WriteDclkStat(1), base);
      }
    }

    /** Issues a count of clocks and waits until it is done. */
    method DclkSetAndWaitClear(count: nat, timeout: nat, ghost base: Control) returns (status: Status)
      requires Sound(log, base)
      modifies `readCount, `log
      ensures Sound(log, base) && LastCtl(log) == LastCtl(old(log)) && DataWords(log) == DataWords(old(log))
      ensures status == Success || status == Timeout
      ensures Stage(log) >= Stage(old(log)) && readCount <= old(readCount) + timeout + 2
      ensures status == Success && Stage(old(log)) == 8 && count == 4 ==> Stage(log) == 11
      ensures status == Success ==> Counted(old(log), log, count)
      ensures match AwaitClocks(answers, old(readCount) + 1, timeout + 1)
              case None => status == Timeout
              case Some(k) => status == Success && readCount == k + 1
    {
      ClearDclk(base);
      ghost var issued := |log|;
      Record(WriteDclkCnt(count), base);
      status := WaitForDclk(timeout, base);
      assert status == Success ==> log[issued] == WriteDclkCnt(count);
    }

    /** The whole words of a buffer. */
    method WriteWholeWords(data: seq<Byte>, ghost base: Control)
      requires Sound(log, base) && BusEnabled(base)
      modifies `log
      ensures Sound(log, base) && LastCtl(log) == LastCtl(old(log)) && Stage(log) == Stage(old(log))
      ensures DataWords(log) == DataWords(old(log)) + Words(Front(data, |data| - |data| % 4))
    {
      var length, i := |data|, 0;
      ghost var n := |data| - |data| % 4;
      WholePart(|data|);
      ghost var left := Front(data, n);
      ghost var all := DataWords(log) + Words(left);
      while length >= 4
        invariant Sound(log, base) && LastCtl(log) == LastCtl(old(log)) && Stage(log) == Stage(old(log))
        invariant i + length == |data| && i % 4 == 0 && i <= n && left == data[i..n]
        invariant DataWords(log) + Words(left) == all
      {
        NextWord(DataWords(log), left);
        assert left[..4] == data[i..i + 4] && left[4..] == data[i + 4..n];
        WriteDataWord(data[i..i + 4], base);
        left := left[4..];
        i, length := i + 4, length - 4;
      }
      assert left == [];
      NoWords(DataWords(log));
    }

    /** Writes words to the data bus, and the last partial one, while the bus is enabled. */
    method WriteAxi(data: seq<Byte>, ghost base: Control)
      requires Sound(log, base) && BusEnabled(base)
      modifies `log
      ensures Sound(log, base) && LastCtl(log) == LastCtl(old(log)) && Stage(log) == Stage(old(log))
      ensures DataWords(log) == DataWords(old(log)) + AxiWords(data)
    {
      WriteWholeWords(data, base);
      var rest := |data| % 4;
      LastPartialWord(data, DataWords(old(log)));
      if rest != 0 {
        WriteDataWord(Padded(data[..rest]), base);
      }
    }

    /** A call for data that reports some number of bytes has put them into the buffer. */
    ghost predicate Feeds() {
      forall k: nat :: 0 < stream(k).status <= CHUNK ==> Fits(stream(k))
    }

    ghost predicate BusEnabled(base: Control)
      reads `log
    {
      LastCtl(log) == [base.(axiCfgEn := true)]
    }

    method WriteDataWord(word: seq<Byte>, ghost base: Control)
      requires Sound(log, base) && BusEnabled(base)
      modifies `log
      ensures Sound(log, base) && LastCtl(log) == LastCtl(old(log)) && Stage(log) == Stage(old(log))
      ensures DataWords(log) == DataWords(old(log)) + [word]
    {
      Record(WriteData(word), base);
    }

    /** Passes on the stream until it ends, at most 32 MiB of it. */
    method WriteStream(ghost base: Control) returns (status: Status)
      requires Sound(log, base) && BusEnabled(base) && calls == 0
      requires Feeds()
      modifies `calls, `log
      ensures Sound(log, base) && LastCtl(log) == LastCtl(old(log)) && Stage(log) == Stage(old(log))
      ensures status == Success || status == StreamError
      ensures 0 < calls <= DATA_LIMIT + 1 && |StreamBytes(stream, calls - 1)| <= DATA_LIMIT && AllFit(stream, calls - 1)
      ensures DataWords(log) == DataWords(old(log)) + StreamWords(stream, calls - 1)
      ensures status == Success <==> stream(calls - 1).status == 0
      ensures status == Success <==> Ends(stream)
    {
      var dataLimit: nat := DATA_LIMIT;
      status := Success;
      while true
        invariant Sound(log, base) && LastCtl(log) == LastCtl(old(log)) && Stage(log) == Stage(old(log))
        invariant Passed(stream, calls, dataLimit, DataWords(old(log)), DataWords(log)) && status == Success
        decreases dataLimit
      {
        var chunk := stream(calls);
        calls := calls + 1;
        if chunk.status != 0 && (!Fits(chunk) || dataLimit < chunk.status) { BrokenOff(stream, calls - 1); }
        if chunk.status > CHUNK || chunk.status < 0 {
          status := StreamError;
          break;
        } else if chunk.status == 0 {
          break;
        } else if chunk.status > dataLimit {
          status := StreamError;
          break;
        }
        NextChunk(stream, calls - 1, dataLimit, DataWords(old(log)), DataWords(log));
        WriteAxi(chunk.bytes, base);
        dataLimit := dataLimit - chunk.status;
      }
      assert status == Success ==> EndsAfter(stream, calls - 1);
    }

    method WriteImage(image: Image, ghost base: Control) returns (status: Status)
      requires Sound(log, base) && BusEnabled(base) && calls == 0 && Feeds()
      requires DataWords(log) == []
      modifies `calls, `log
      ensures Sound(log, base) && LastCtl(log) == LastCtl(old(log)) && Stage(log) == Stage(old(log))
      ensures calls <= DATA_LIMIT + 1 && (status == Success ==> Delivered(image))
      ensures status == if Sendable(stream, image) then Success else if image.Full? then ConfigError else StreamError
    {
      status := Success;
      match image
      case Full(data) =>
        if |data| > DATA_LIMIT {
          status := ConfigError;
        } else {
          WriteAxi(data, base);
        }
      case Streamed =>
        status := WriteStream(base);
    }

    /** Steps 9 and 10. */
    method ConfigureData(image: Image, ghost base: Control) returns (status: Status)
      requires Sound(log, base) && BusEnabled(base) && calls == 0 && Feeds()
      requires DataWords(log) == []
      modifies `readCount, `calls, `log
      ensures Sound(log, base) && LastCtl(log) == LastCtl(old(log)) && Stage(log) >= Stage(old(log))
      ensures calls <= DATA_LIMIT + 1
      ensures Stage(old(log)) == 6 ==> Stage(log) == if status == Success then 7 else 6
      ensures status == DataOutcome(answers, stream, image, old(readCount))
      ensures status == Success ==> Delivered(image) && DecidedBefore(answers, old(readCount), readCount)
    {
      status := WriteImage(image, base);
      if status != Success {
        return;
      }
      status := WaitForConfigDone(TIMEOUT_CONFIG, base);
      if status != Success && status != CrcError {
        status := ConfigError;
      }
    }

    /** The image is what has gone over the data bus. */
    ghost predicate Delivered(image: Image)
      reads `calls, `log
    {
      GoneOut(stream, image, calls, DataWords(log))
    }

    method WriteControl(ctrl: Control, ghost base: Control)
      requires Sound(log, base) && OthersKept(ctrl, base)
      modifies `log
      ensures Sound(log, base) && LastCtl(log) == [ctrl] && DataWords(log) == DataWords(old(log))
      ensures Stage(log) == Stage(old(log)) + if Milestone(Stage(old(log)), WriteCtl(ctrl)) then 1 else 0
    {
      Record(WriteCtl(ctrl), base);
    }

    /** Steps 1 to 3: the bus width, the clock ratio, and into reset. */
    method AssertReset(read: Control, mode: Mode, ghost base: Control) returns (ctrl: Control)
      requires Sound(log, base) && DataWords(log) == [] && !mode.Unknown? && Stage(log) == 0 && OthersKept(read, base)
      modifies `log
      ensures Sound(log, base) && DataWords(log) == [] && Stage(log) == 1
      ensures ctrl == Settled(read, mode).(nConfigPull := true) && LastCtl(log) == [ctrl]
    {
      ctrl := read.(cdRatio := mode.ratio);
      ctrl := ctrl.(cfgWdth := mode.wide);
      ctrl := ctrl.(nce := false);
      WriteControl(ctrl, base);
      ctrl := ctrl.(nConfigPull := true);
      WriteControl(ctrl, base);
    }

    /** Steps 1 to 6: through reset to the configuration phase. */
    method EnterConfigPhase(read: Control, mode: Mode, ghost base: Control) returns (status: Status, ctrl: Control)
      requires Sound(log, base) && DataWords(log) == [] && !mode.Unknown? && Stage(log) == 0 && OthersKept(read, base)
      modifies `readCount, `log
      ensures status == Success || status == ConfigError
      ensures Sound(log, base) && DataWords(log) == [] && LastCtl(log) == [ctrl]
      ensures ctrl == Settled(read, mode)
      ensures if status == Success then Stage(log) == 4 else Stage(log) <= 3
      ensures Enters(answers, old(readCount)) == if status == Success then Some(readCount) else None
    {
      ctrl := AssertReset(read, mode, base);
      status := WaitForState(RESET_PHASE, TIMEOUT_STATE, base);
      ctrl := ctrl.(nConfigPull := false);
      WriteControl(ctrl, base);
      if status != Success {
        status := ConfigError;
        return;
      }
      status := WaitForState(CONFIG_PHASE, TIMEOUT_STATE, base);
      if status != Success {
        status := ConfigError;
      }
    }

    /** Steps 12 and 13: clocks are counted, and the device comes up. */
    method ComeUp(ghost base: Control) returns (status: Status)
      requires Sound(log, base)
      modifies `readCount, `log
      ensures Sound(log, base) && LastCtl(log) == LastCtl(old(log)) && DataWords(log) == DataWords(old(log))
      ensures status == if ComesUp(answers, old(readCount)) then Success else Timeout
      ensures Stage(log) >= Stage(old(log))
      ensures status == Success && Stage(old(log)) == 8 ==> Stage(log) == 12
    {
      status := DclkSetAndWaitClear(4, TIMEOUT_DCLK, base);
      if status == Success {
        status := WaitForState(USER_MODE, TIMEOUT_STATE, base);
      }
    }

    /** Steps 11 to 13: the bus is disabled, and what has gone wrong with the data matters more than
        what goes wrong behind it. */
    method LeaveConfigPhase(ctrl: Control, ghost base: Control, dataStatus: Status) returns (status: Status)
      requires Sound(log, base) && OthersKept(ctrl, base) && !ctrl.axiCfgEn
      modifies `readCount, `log
      ensures Sound(log, base) && LastCtl(log) == [ctrl] && DataWords(log) == DataWords(old(log))
      ensures Stage(log) >= Stage(old(log))
      ensures status == Success && Stage(old(log)) == 7 ==> Stage(log) == 12
      ensures dataStatus != Success ==> status == dataStatus
      ensures dataStatus == Success ==> status == if ComesUp(answers, old(readCount)) then Success else ConfigError
    {
      WriteControl(ctrl, base);
      status := ComeUp(base);
      if status != Success {
        return if dataStatus != Success then dataStatus else ConfigError;
      }
      status := dataStatus;
    }

    /** Steps 1 to 13, from the control register as it was read. */
    method Program(image: Image, read: Control, mode: Mode, ghost base: Control) returns (status: Status)
      requires Sound(log, base) && DataWords(log) == [] && !mode.Unknown? && Stage(log) == 0
      requires base == Settled(read, mode)
      requires calls == 0 && Feeds()
      modifies `readCount, `calls, `log
      ensures Sound(log, base)
      ensures LastCtl(log)
           == [if Stage(log) >= 6 then base.(axiCfgEn := false) else base]
      ensures status == Success ==> Stage(log) == 12 && Delivered(image)
      ensures calls <= DATA_LIMIT + 1
      ensures status == ProgramOutcome(answers, stream, image, old(readCount))
    {
      var ctrl;
      status, ctrl := EnterConfigPhase(read, mode, base);
      if status == Success {
        status := SendImage(image, ctrl, base);
      }
    }

    /** Steps 7 and 8. */
    method EnableBus(entered: Control, ghost base: Control) returns (ctrl: Control)
      requires Sound(log, base) && Stage(log) == 4 && entered == base
      modifies `log
      ensures Sound(log, base) && DataWords(log) == DataWords(old(log)) && Stage(log) == 6
      ensures ctrl == entered.(axiCfgEn := true) && LastCtl(log) == [ctrl]
    {
      Record(ClearStatusInterrupt, base);
      ctrl := entered.(axiCfgEn := true);
      WriteControl(ctrl, base);
    }

    /** Steps 7 to 10. */
    method SendData(image: Image, entered: Control, ghost base: Control) returns (status: Status, ctrl: Control)
      requires Sound(log, base) && DataWords(log) == [] && Stage(log) == 4 && entered == base
      requires calls == 0 && Feeds()
      modifies `readCount, `calls, `log
      ensures Sound(log, base) && ctrl == entered.(axiCfgEn := true)
      ensures Stage(log) == if status == Success then 7 else 6
      ensures calls <= DATA_LIMIT + 1
      ensures status == DataOutcome(answers, stream, image, old(readCount))
      ensures status == Success ==> Delivered(image) && DecidedBefore(answers, old(readCount), readCount)
    {
      ctrl := EnableBus(entered, base);
      status := ConfigureData(image, base);
    }

    /** Steps 7 to 13. */
    method SendImage(image: Image, entered: Control, ghost base: Control) returns (status: Status)
      requires Sound(log, base) && DataWords(log) == [] && Stage(log) == 4 && entered == base
      requires !entered.nConfigPull
      requires calls == 0 && Feeds()
      modifies `readCount, `calls, `log
      ensures Sound(log, base) && LastCtl(log) == [entered.(axiCfgEn := false)] && Stage(log) >= 6
      ensures status == Success ==> Stage(log) == 12 && Delivered(image)
      ensures calls <= DATA_LIMIT + 1
      ensures status == SendOutcome(answers, stream, image, old(readCount))
    {
      var dataStatus, ctrl := SendData(image, entered, base);
      BehindData(answers, stream, image, old(readCount), dataStatus, readCount);
      ctrl := ctrl.(axiCfgEn := false);
      status := LeaveConfigPhase(ctrl, base, dataStatus);
    }

    /** The manager must be enabled and the device powered. */
    method Usable(ghost base: Control) returns (status: Status)
      requires log == [] && readCount == 0
      modifies `readCount, `log
      ensures Untouched(base) && (status == Success ==> readCount == 3)
      ensures status
           == if !answers(0).ctl.en then NoSocControl else if !answers(1).mon.powerOn then PowerOff else Success
    {
      status := ControlEnabled(base);
      if status == Success {
        status := Powered(base);
      }
    }

    method ControlEnabled(ghost base: Control) returns (status: Status)
      requires log == [] && readCount == 0
      modifies `readCount, `log
      ensures Untouched(base) && readCount == 1
      ensures status == if answers(0).ctl.en then Success else NoSocControl
    {
      var answer := NextAnswer();
      assert Untouched(base);
      Record(ReadCtl(answer.ctl), base);
      status := if answer.ctl.en then Success else NoSocControl;
    }

    method Powered(ghost base: Control) returns (status: Status)
      requires Untouched(base) && readCount == 1
      modifies `readCount, `log
      ensures Untouched(base) && (status == Success ==> readCount == 3)
      ensures status == if answers(1).mon.powerOn then Success else PowerOff
    {
      var power := StateGet(base);
      status := if power == POWERED_OFF then PowerOff else Success;
    }

    /** Only reads so far. */
    ghost predicate Untouched(base: Control)
      reads `log
    {
      Sound(log, base) && LastCtl(log) == [] && DataWords(log) == [] && Stage(log) == 0
    }

    /** Nothing is written before the manager is found enabled, the device powered, and its
        configuration mode known. */
    method CheckFirst(ghost base: Control) returns (status: Status, mode: Mode, ctrl: Control)
      requires log == [] && readCount == 0
      modifies `readCount, `log
      ensures Untouched(base) && (status == Success ==> readCount == 5)
      ensures status == Success <==>
        answers(0).ctl.en && answers(1).mon.powerOn && !ModeSetting(answers(4).stat.msel).Unknown?
      ensures status == Success || status == NoSocControl || status == PowerOff || status == Error
      ensures status == Success ==>
        !mode.Unknown? && ctrl == answers(3).ctl && mode == ModeSetting(answers(4).stat.msel)
      ensures status == NoSocControl <==> !answers(0).ctl.en
      ensures status == PowerOff <==> answers(0).ctl.en && !answers(1).mon.powerOn
    {
      status := Usable(base);
      mode, ctrl := Unknown, answers(0).ctl;
      if status != Success {
        return;
      }
      var answer := NextAnswer();
      Record(ReadCtl(answer.ctl), base);
      ctrl := answer.ctl;
      answer := NextAnswer();
      Record(ReadStat(answer.stat), base);
      mode := ModeSetting(answer.stat.msel);
      status := if mode.Unknown? then Error else Success;
    }

    /** The whole configuration, whatever the hardware answers and the stream yields.  If the
        control register is written at all, the fourth and fifth reads have just been of it and
        of the configuration mode; and it is left with NCONFIGPULL clear, and with AXICFGEN clear
        once that has been set. */
    method Configure(image: Image) returns (status: Status)
      requires log == [] && calls == 0 && readCount == 0 && Feeds()
      modifies `readCount, `calls, `log
      ensures Sound(log, ControlFor(answers))
      ensures status == NoSocControl <==> !answers(0).ctl.en
      ensures status == PowerOff <==> answers(0).ctl.en && !answers(1).mon.powerOn
      ensures LastCtl(log) != [] ==>
        && ModeSetting(answers(4).stat.msel).Mode?
        && LastCtl(log)[0]
           == if Stage(log) >= 6 then ControlFor(answers).(axiCfgEn := false) else ControlFor(answers)
      ensures Stage(log) >= 6 ==> LastCtl(log) != []
      ensures status == Error <==>
        answers(0).ctl.en && answers(1).mon.powerOn && ModeSetting(answers(4).stat.msel).Unknown?
      ensures status == Outcome(answers, stream, image)
      ensures status == Success ==> Stage(log) == 12 && Delivered(image)
      ensures calls <= DATA_LIMIT + 1
    {
      var mode, ctrl;
      status, mode, ctrl := CheckFirst(ControlFor(answers));
      ModeWidth(answers(4).stat.msel);
      RefusedExactlyWhen(answers, stream, image);
      if status == Success {
        status := Program(image, ctrl, mode, ControlFor(answers));
      }
    }
  }
}
