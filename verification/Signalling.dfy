/** The two objects through which the server's coroutines wait for each other.  A coroutine that
    waits is named by a number; signalling it makes it runnable, and it runs later. */
module Signalling {
  import opened Options

  const UINT: nat := 0x1_0000_0000

  /** A queue whose consumers may have to wait. */
  class Queue {
    var items: seq<nat>
    var waiting: seq<nat>
    var woken: seq<nat>

    constructor ()
      ensures items == [] && waiting == [] && woken == []
    {
      items, waiting, woken := [], [], [];
    }

    /** Signals the consumer that has waited longest, if there is one. */
    method Push(item: nat)
      modifies this
      ensures items == old(items) + [item]
      ensures old(waiting) == [] ==> waiting == [] && woken == old(woken)
      ensures old(waiting) != [] ==> waiting == old(waiting[1..]) && woken == old(woken) + [old(waiting[0])]
    {
      items := items + [item];
      if waiting != [] {
        woken := woken + [waiting[0]];
        waiting := waiting[1..];
      }
    }

    method Pop() returns (item: nat)
      requires items != []
      modifies `items
      ensures item == old(items[0]) && items == old(items[1..])
    {
      item := items[0];
      items := items[1..];
    }

    /** A consumer's first try: it takes an item at once or begins to wait. */
    method AsyncPop(consumer: nat) returns (item: Option<nat>)
      modifies this
      ensures woken == old(woken)
      ensures old(items) != [] ==> item == Some(old(items[0])) && items == old(items[1..]) && waiting == old(waiting)
      ensures old(items) == [] ==> item == None && items == [] && waiting == old(waiting) + [consumer]
    {
      if items != [] {
        var front := Pop();
        return Some(front);
      }
      waiting := waiting + [consumer];
      item := None;
    }

    /** A signalled consumer takes the front without looking whether there is one. */
    method Resume(k: nat) returns (consumer: nat, item: nat)
      requires k < |woken| && items != []
      modifies this
      ensures consumer == old(woken[k]) && item == old(items[0])
      ensures items == old(items[1..]) && woken == old(woken[..k] + woken[k + 1..]) && waiting == old(waiting)
    {
      consumer := woken[k];
      woken := woken[..k] + woken[k + 1..];
      item := Pop();
    }
  }

  /** A counter that coroutines can wait on to reach zero. */
  class Counter {
    var val: nat
    var waiting: seq<nat>
    var woken: seq<nat>

    /** Nobody waits unsignalled while the counter is zero, so no wakeup is lost. */
    predicate Valid()
      reads this
    {
      val < UINT && (waiting != [] ==> val != 0)
    }

    constructor ()
      ensures Valid() && val == 0 && waiting == [] && woken == []
    {
      val, waiting, woken := 0, [], [];
    }

    method SignalAll()
      modifies `waiting, `woken
      ensures waiting == [] && woken == old(woken + waiting)
    {
      woken := woken + waiting;
      waiting := [];
    }

    method Incr()
      requires Valid()
      modifies this
      ensures Valid() && val == (old(val) + 1) % UINT && waiting == [] && woken == old(woken + waiting)
    {
      val := (val + 1) % UINT;
      SignalAll();
    }

    /** At zero nothing happens, and nobody needs a signal. */
    method Decr()
      requires Valid()
      modifies this
      ensures Valid() && val == (if old(val) == 0 then 0 else old(val) - 1) && waiting == []
      ensures woken == old(woken + waiting)
    {
      if val == 0 {
        assert waiting == [] && woken == woken + waiting;
        return;
      }
      val := val - 1;
      SignalAll();
    }

    /** A first try or a retry: through at zero, and otherwise waiting. */
    method AsyncWaitZero(waiter: nat) returns (through: bool)
      requires Valid()
      modifies `waiting
      ensures Valid() && through == (val == 0) && waiting == if through then old(waiting) else old(waiting) + [waiter]
    {
      through := val == 0;
      if !through {
        waiting := waiting + [waiter];
      }
    }

    method Resume(k: nat) returns (waiter: nat, through: bool)
      requires Valid() && k < |woken|
      modifies this
      ensures Valid() && val == old(val) && waiter == old(woken[k]) && woken == old(woken[..k] + woken[k + 1..])
      ensures through == (val == 0) && waiting == if through then old(waiting) else old(waiting) + [waiter]
    {
      waiter := woken[k];
      woken := woken[..k] + woken[k + 1..];
      through := AsyncWaitZero(waiter);
    }
  }
}
