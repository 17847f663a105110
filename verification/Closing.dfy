/** How every request ends: the event if one is wanted, DMAEND, and a cleared buffer on failure. */
module Closing {
  import opened Options
  import opened Pl330
  import opened Assembler
  import opened Coalescing

  /** Segments that translate a buffer of `size` bytes. */
  predicate Covers(segs: seq<Segment>, size: nat) {
    Proper(segs, ADDRESS_SPACE) && Total(segs) == size
  }

  function Notify(event: Option<nat>): Prog {
    if event.Some? then Op(Sev(event.value)) else Skip
  }

  /** Only copies wait for their writes before the event. */
  function Ending(event: Option<nat>, barrier: bool): Prog {
    if event.Some? && barrier then Seq(Op(Wmb), Notify(event)) else Notify(event)
  }

  function ProgramText(body: Prog, event: Option<nat>, barrier: bool): seq<Instr> {
    Flatten(Seq(body, Ending(event, barrier))) + [End]
  }

  /** The last instructions: DMASEV directly in front of DMAEND if there is an event, and directly in
      front of that DMAWMB if the writes before it are to be waited for. */
  lemma LastInstructions(body: Prog, event: Option<nat>, barrier: bool)
    ensures ProgramText(body, event, barrier)
         == Flatten(body)
            + if event.None? then [End] else if barrier then [Wmb, Sev(event.value), End] else [Sev(event.value), End]
  {
    var ending, text := Flatten(Ending(event, barrier)), Flatten(body);
    if event.Some? {
      assert Flatten(Notify(event)) == [Sev(event.value)];
      if barrier { assert Flatten(Op(Wmb)) == [Wmb] && ending == [Wmb] + Flatten(Notify(event)); }
    }
    assert text + ending + [End] == text + (ending + [End]);
  }

  function Wanted(sendEvent: bool, evt: nat): Option<nat> {
    if sendEvent then Some(evt) else None
  }

  /** A finished program is what was asked for, with DMAEND behind it. */
  lemma Finished(body: Prog, event: Option<nat>, barrier: bool, intended: Code)
    requires intended == Then(Append(Append(Empty, body), Ending(event, barrier)), End)
    ensures Text(intended) == ProgramText(body, event, barrier)
  {
    AppendText(Empty, Seq(body, Ending(event, barrier)));
    AppendSeq(Empty, body, Ending(event, barrier));
  }

  method Finish(program: Program, status: Status, sendEvent: bool, evt: nat, barrier: bool, ghost body: Prog)
    returns (s: Status)
    requires program.Holds(status) && (status.Ordinary() ==> program.intended == Append(Empty, body))
    modifies program
    ensures var text := ProgramText(body, Wanted(sendEvent, evt), barrier);
            && s == (if !status.Ordinary() then status else if program.capacity < |text| then BufferFull else Success)
            && program.code == if s == Success then text else []
  {
    s := status;
    if sendEvent {
      if barrier {
        s := program.Emit(s, Wmb);
      }
      s := program.Emit(s, Sev(evt));
    }
    s := program.Emit(s, End);
    if status.Ordinary() {
      Finished(body, Wanted(sendEvent, evt), barrier, program.intended);
    }
    if s != Success {
      program.Clear();
    }
  }

  function Signals(event: Option<nat>): seq<Event> {
    if event.Some? then [Signal(event.value)] else []
  }

  lemma EndingRuns(s: State, event: Option<nat>, barrier: bool)
    ensures WellFormed(Ending(event, barrier), 2)
    ensures Exec(Ending(event, barrier), s) == Ok(s.(trace := s.trace + Signals(event)))
  {
    if event.Some? {
      assert Exec(Notify(event), s) == Ok(s.(trace := s.trace + [Signal(event.value)]));
      assert WellFormed(Notify(event), 2) && WellFormed(Op(Wmb), 2);
      if barrier { ExecSeq(Op(Wmb), Notify(event), s, s); }
    } else {
      assert s.trace + [] == s.trace;
    }
  }

  /** From what the body of a request does to what the controller does with the whole program. */
  lemma RequestHalts(body: Prog, event: Option<nat>, barrier: bool, s: State, mid: State) returns (t: State)
    requires WellFormed(body, 2) && Exec(body, s) == Ok(mid)
    ensures Reaches(ProgramText(body, event, barrier), Running(0, [], s), Halted(t))
    ensures t == mid.(trace := mid.trace + Signals(event))
  {
    EndingRuns(mid, event, barrier);
    ExecSeq(body, Ending(event, barrier), s, mid);
    t := mid.(trace := mid.trace + Signals(event));
    ProgramHalts(ProgramText(body, event, barrier), Seq(body, Ending(event, barrier)), s, t);
  }
}
