/** The handlers of a user's session, each of which is one step of the dispatcher. */
module Sessions {
  import opened Dispatch
  import opened Signalling

  class User {
    const nodesQueue: Queue
    const dataCounter: Counter
    const nodeReceiverCounter: Counter
    var sending: seq<Transfer>
    var sent: seq<Transfer>
    var main: seq<nat>
    var accepted: nat
    ghost var dropped: seq<nat>
    ghost var stages: seq<Stage>
    ghost var log: seq<nat>

    ghost predicate Valid()
      reads this, dataCounter, nodeReceiverCounter
    {
      dataCounter.Valid() && nodeReceiverCounter.Valid() && dataCounter != nodeReceiverCounter && accepted == |stages|
    }

    ghost function View(): State
      reads this, nodesQueue, dataCounter
    {
      State(nodesQueue.items, nodesQueue.waiting, nodesQueue.woken, sending, sent, dropped, stages, dataCounter.val,
            main, log)
    }

    constructor (nodes: seq<nat>)
      ensures Valid() && View() == Initial(nodes) && nodeReceiverCounter.val == 0
      ensures fresh(nodesQueue) && fresh(dataCounter) && fresh(nodeReceiverCounter)
    {
      nodesQueue := new Queue();
      dataCounter := new Counter();
      nodeReceiverCounter := new Counter();
      sending, sent, main, accepted := [], [], [], 0;
      dropped, stages, log := [], [], [];
      new;
      var i := 0;
      while i < |nodes|
        invariant 0 <= i <= |nodes| && nodesQueue.items == nodes[..i] && nodesQueue.waiting == []
        invariant nodesQueue.woken == []
        invariant Valid() && dataCounter.val == 0 && sending == sent == [] && main == dropped == log == []
        invariant stages == []
        invariant fresh(nodesQueue) && fresh(dataCounter) && fresh(nodeReceiverCounter) && nodeReceiverCounter.val == 0
      {
        nodesQueue.Push(nodes[i]);
        i := i + 1;
      }
    }

    /** The write of an input to a node begins. */
    method StartSend(node: nat, input: nat)
      modifies this
      ensures sending == old(sending) + [Transfer(node, input)] && log == old(log) + [node]
      ensures main == if old(main) == [input] then [] else old(main)
      ensures unchanged(`sent, `accepted, `dropped, `stages)
    {
      sending := sending + [Transfer(node, input)];
      log := log + [node];
      if main == [input] {
        main := [];
      }
    }

    method Dispatch(input: nat)
      requires Valid()
      modifies this, nodesQueue
      ensures Valid() && View() == DispatchInput(old(View()), input)
    {
      var node := nodesQueue.AsyncPop(input);
      if node.Some? {
        StartSend(node.value, input);
      }
    }

    /** A valid DATA message from the user.  The counter would wrap around with the last input that
        32 bits can count. */
    method UserInput()
      requires Valid() && Enabled(View(), Accept)
      modifies this, nodesQueue, dataCounter
      ensures Valid() && View() == Next(old(View()), Accept).(counter := (old(View()).counter + 1) % UINT)
      ensures View() == Next(old(View()), Accept) <==> old(View()).counter + 1 < UINT
    {
      dataCounter.Incr();
      var input := accepted;
      accepted, stages, main := accepted + 1, stages + [Held], [input];
      Dispatch(input);
    }

    /** A signalled coroutine runs on. */
    method Resumed(k: nat)
      requires Valid() && Enabled(View(), Resume(k))
      modifies this, nodesQueue
      ensures Valid() && View() == Next(old(View()), Resume(k))
    {
      var input, node := nodesQueue.Resume(k);
      StartSend(node, input);
    }

    /** The last byte of an input has reached its node; the send has still to complete. */
    method Delivered(k: nat)
      requires Valid() && Enabled(View(), Deliver(k)) && sending[k].input < |stages|
      modifies this
      ensures Valid() && View() == Next(old(View()), Deliver(k))
    {
      var transfer := sending[k];
      stages := stages[transfer.input := AtNode(transfer.node)];
      sending, sent := sending[..k] + sending[k + 1..], sent + [transfer];
    }

    /** A send completes; a node whose send failed is not used again, and its input is. */
    method SendCompleted(k: nat)
      requires Valid() && Enabled(View(), SendOk(k))
      modifies this, nodesQueue
      ensures Valid() && View() == Next(old(View()), SendOk(k))
    {
      var node := sent[k].node;
      sent := sent[..k] + sent[k + 1..];
      nodesQueue.Push(node);
    }

    method SendFailed(k: nat)
      requires Valid() && Enabled(View(), SendFail(k))
      modifies this, nodesQueue
      ensures Valid() && View() == Next(old(View()), SendFail(k))
    {
      var transfer := sending[k];
      sending := sending[..k] + sending[k + 1..];
      dropped := dropped + [transfer.node];
      Dispatch(transfer.input);
    }

    /** A node's result has been received, or could not be forwarded: the server counts neither. */
    ghost method ResultReceived(input: nat)
      requires Valid() && Enabled(View(), Reply(input))
      modifies `stages
      ensures Valid() && View() == Next(old(View()), Reply(input))
    {
      stages := stages[input := Forwarding(stages[input].node)];
    }

    ghost method ResultLost(input: nat)
      requires Valid() && Enabled(View(), ForwardFail(input))
      modifies `stages
      ensures Valid() && View() == Next(old(View()), ForwardFail(input))
    {
      stages := stages[input := Lost];
    }

    /** A result has been sent to the user. */
    method ResultForwarded(ghost input: nat)
      requires Valid() && Enabled(View(), Forwarded(input))
      modifies `stages, dataCounter
      ensures Valid() && View() == Next(old(View()), Forwarded(input))
    {
      stages := stages[input := Answered];
      dataCounter.Decr();
    }

    method TakeNodes() returns (nodes: seq<nat>)
      modifies nodesQueue`items
      ensures nodes == old(nodesQueue.items) && nodesQueue.items == []
    {
      nodes := [];
      while nodesQueue.items != []
        invariant nodes + nodesQueue.items == old(nodesQueue.items)
        decreases |nodesQueue.items|
      {
        var node := nodesQueue.Pop();
        nodes := nodes + [node];
      }
    }

    /** Every node in the queue gets a receiver, which is counted, and is back in its place
        afterwards. */
    method StartReceivers() returns (receivers: seq<nat>)
      requires Valid() && nodesQueue.waiting == []
      modifies nodesQueue, nodeReceiverCounter
      ensures Valid() && View() == old(View()) && receivers == nodesQueue.items
      ensures nodeReceiverCounter.val == (old(nodeReceiverCounter.val) + |receivers|) % UINT
    {
      receivers := TakeNodes();
      var i := 0;
      while i < |receivers|
        invariant 0 <= i <= |receivers| && Valid() && nodesQueue.items == receivers[..i]
        invariant nodesQueue.waiting == old(nodesQueue.waiting) && nodesQueue.woken == old(nodesQueue.woken)
        invariant View().(ready := []) == old(View()).(ready := [])
        invariant nodeReceiverCounter.val == (old(nodeReceiverCounter.val) + i) % UINT
      {
        nodeReceiverCounter.Incr();
        nodesQueue.Push(receivers[i]);
        i := i + 1;
      }
    }

    /** A receiver has stopped; whoever waits for the last one looks again. */
    method ReceiverStopped()
      requires Valid()
      modifies nodeReceiverCounter
      ensures Valid() && View() == old(View()) && nodeReceiverCounter.waiting == []
      ensures nodeReceiverCounter.val == if old(nodeReceiverCounter.val)
              == 0 then 0 else old(nodeReceiverCounter.val) - 1
      ensures nodeReceiverCounter.woken == old(nodeReceiverCounter.woken + nodeReceiverCounter.waiting)
    {
      nodeReceiverCounter.Decr();
    }
  }
}
