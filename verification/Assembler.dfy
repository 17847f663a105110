/** The program buffer that the generators append to, one instruction at a time. */
module Assembler {
  import opened Pl330

  datatype Status = Success | BadArg | Error | BufferFull {
    /** The outcomes of a generator whose arguments are acceptable. */
    predicate Ordinary() {
      Success? || BufferFull?
    }
  }

  /** A buffer of bounded size.  `intended` is everything the generators have asked for so far,
      whether or not it fitted. */
  class Program {
    var code: seq<Instr>
    const capacity: nat
    ghost var intended: Code

    constructor (capacity: nat)
      ensures this.capacity == capacity && code == [] && intended == Empty
    {
      this.capacity := capacity;
      code, intended := [], Empty;
    }

    /** While all is well the buffer holds what was asked for; it overflows only when that
        does not fit. */
    ghost predicate Holds(status: Status)
      reads this
    {
      && (status == Success ==> code == Text(intended) && |code| <= capacity)
      && (status == BufferFull ==> capacity < |Text(intended)|)
    }

    method Init() returns (status: Status)
      modifies this
      ensures status == Success && code == [] && intended == Empty
    {
      code, intended := [], Empty;
      status := Success;
    }

    method Clear()
      modifies this
      ensures code == [] && intended == Empty
    {
      code, intended := [], Empty;
    }

    /** Appends i if nothing has failed yet and there is room. */
    method Emit(status: Status, i: Instr) returns (s: Status)
      requires Holds(status)
      modifies this
      ensures Holds(s) && intended == Then(old(intended), i)
      ensures status != Success ==> s == status && code == old(code)
      ensures status == Success ==> s == if old(|code|) < capacity then Success else BufferFull
    {
      s := status;
      if status == Success {
        if |code| < capacity {
          code := code + [i];
        } else {
          s := BufferFull;
        }
      }
      intended := Then(intended, i);
    }

    /** After a failure the rest of the program is not generated. */
    ghost method Forgo(status: Status, rest: Prog)
      requires Holds(status) && status != Success
      modifies `intended
      ensures Holds(status) && intended == Append(old(intended), rest)
    {
      AppendText(intended, rest);
      intended := Append(intended, rest);
    }
  }
}
