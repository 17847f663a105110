/** Configuring the nodes: each is sent the configuration, and those that accept it become ready. */
module Configuration {
  import opened Dispatch
  import opened Signalling

  /** How a node answers, or fails to. */
  datatype Answer = Success | OtherStatus | NotAResponse | ConnectionError

  /** A configuration under way: the nodes contacted, in order, those still to answer, and those
      that are ready. */
  datatype Progress = Progress(contacted: seq<nat>, pending: seq<nat>, ready: seq<nat>)

  datatype Completion = Completion(k: nat, answer: Answer)

  function Begun(nodes: seq<nat>): Progress {
    Progress(nodes, nodes, [])
  }

  /** The k-th pending node has answered. */
  function Completed(p: Progress, c: Completion): Progress
    requires c.k < |p.pending|
  {
    p.(pending := Without(p.pending, c.k), ready := if c.answer.Success? then p.ready + [p.pending[c.k]] else p.ready)
  }

  predicate IsHistory(p: Progress, cs: seq<Completion>)
    decreases cs
  {
    cs == [] || (cs[0].k < |p.pending| && IsHistory(Completed(p, cs[0]), cs[1..]))
  }

  function After(p: Progress, cs: seq<Completion>): Progress
    requires IsHistory(p, cs)
    decreases cs
  {
    if cs == [] then p else After(Completed(p, cs[0]), cs[1..])
  }

  /** The nodes that answered with success, and all that answered. */
  function Succeeded(p: Progress, cs: seq<Completion>): multiset<nat>
    requires IsHistory(p, cs)
    decreases cs
  {
    if cs == [] then multiset{}
    else
      (if cs[0].answer.Success? then multiset{p.pending[cs[0].k]} else multiset{})
      + Succeeded(Completed(p, cs[0]), cs[1..])
  }

  function Answerers(p: Progress, cs: seq<Completion>): multiset<nat>
    requires IsHistory(p, cs)
    decreases cs
  {
    if cs == [] then multiset{} else multiset{p.pending[cs[0].k]} + Answerers(Completed(p, cs[0]), cs[1..])
  }

  lemma {:induction false} HistoryAccounts(p: Progress, cs: seq<Completion>)
    requires IsHistory(p, cs)
    ensures var q := After(p, cs);
            && q.contacted == p.contacted && |q.pending| == |p.pending| - |cs|
            && multiset(q.ready) == multiset(p.ready) + Succeeded(p, cs)
            && multiset(p.pending) == multiset(q.pending) + Answerers(p, cs)
            && Succeeded(p, cs) <= Answerers(p, cs)
    decreases cs
  {
    if cs != [] {
      Removed(p.pending, cs[0].k);
      HistoryAccounts(Completed(p, cs[0]), cs[1..]);
    }
  }

  /** When the wait is over, every node has been contacted and has answered exactly once, and the
      ready ones are exactly those that answered with success, each once. */
  lemma ConfiguredExactly(nodes: seq<nat>, cs: seq<Completion>)
    requires IsHistory(Begun(nodes), cs) && After(Begun(nodes), cs).pending == [] && Distinct(nodes)
    ensures var p := After(Begun(nodes), cs);
            && p.contacted == nodes && Answerers(Begun(nodes), cs) == multiset(nodes)
            && multiset(p.ready) == Succeeded(Begun(nodes), cs) && Distinct(p.ready)
  {
    HistoryAccounts(Begun(nodes), cs);
    var p := After(Begun(nodes), cs);
    forall n: nat ensures multiset(p.ready)[n] <= 1 {
      DistinctOnce(nodes, n);
      assert multiset(nodes)[n] <= 1;
    }
    MultisetDistinct(p.ready);
  }

  /** The coroutines of one configuration round. */
  class Configurator {
    const nodesQueue: Queue
    const configCounter: Counter
    var pending: seq<nat>
    ghost var contacted: seq<nat>

    /** The counter is the number of answers still to come. */
    ghost predicate Valid()
      reads this, nodesQueue, configCounter
    {
      configCounter.Valid() && configCounter.val == |pending| && nodesQueue.waiting == [] && nodesQueue.woken == []
    }

    ghost function View(): Progress
      reads this, nodesQueue
    {
      Progress(contacted, pending, nodesQueue.items)
    }

    constructor (queue: Queue)
      requires queue.waiting == [] && queue.woken == []
      ensures Valid() && View() == Progress([], [], queue.items) && nodesQueue == queue && fresh(configCounter)
    {
      nodesQueue := queue;
      configCounter := new Counter();
      pending, contacted := [], [];
    }

    /** Contacts every node in the queue.  Nothing else runs meanwhile. */
    method Contact()
      requires Valid() && pending == contacted == [] && |nodesQueue.items| < UINT
      modifies this, nodesQueue, configCounter
      ensures Valid() && View() == Begun(old(nodesQueue.items))
    {
      while nodesQueue.items != []
        invariant Valid() && pending == contacted && contacted + nodesQueue.items == old(nodesQueue.items)
        decreases |nodesQueue.items|
      {
        var node := nodesQueue.Pop();
        configCounter.Incr();
        pending, contacted := pending + [node], contacted + [node];
      }
    }

    /** A node has answered, or its connection has failed. */
    method NodeAnswered(c: Completion)
      requires Valid() && c.k < |pending|
      modifies this, nodesQueue, configCounter
      ensures Valid() && View() == Completed(old(View()), c)
    {
      var node := pending[c.k];
      pending := pending[..c.k] + pending[c.k + 1..];
      if c.answer == Success {
        nodesQueue.Push(node);
      }
      configCounter.Decr();
    }

    /** The wait for all the answers: over exactly when there are none to come. */
    method Wait() returns (over: bool)
      requires Valid()
      modifies configCounter
      ensures Valid() && View() == old(View()) && (over <==> pending == [])
    {
      over := configCounter.AsyncWaitZero(0);
    }
  }
}
