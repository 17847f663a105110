/** The server's dispatcher as a transition system.  Everything runs on one thread, so a step is
    what one coroutine does between two waits; the scheduler may choose any step that is enabled.
    An input is named by its position among those accepted, a node by a number. */
module Dispatch {

  /** A node connection with an input being written to it. */
  datatype Transfer = Transfer(node: nat, input: nat)

  /** What has become of an accepted input. */
  datatype Stage = Held | AtNode(node: nat) | Forwarding(node: nat) | Answered | Lost

  /** ready is the node queue; the coroutines inside async_pop hold an input each, and are
      either waiting or signalled and about to run.  A transfer is in `sending` until its last
      byte has reached the node and in `sent` from then until the send completes.  main is the
      input that the main loop is dispatching; log lists the nodes taken from the queue. */
  datatype State = State(
    ready: seq<nat>, waiting: seq<nat>, woken: seq<nat>, sending: seq<Transfer>, sent: seq<Transfer>, dropped: seq<nat>,
    stages: seq<Stage>, counter: nat, main: seq<nat>, log: seq<nat>)

  datatype Action =
    | Accept
    | Resume(k: nat)
    | Deliver(k: nat)
    | SendOk(k: nat)
    | SendFail(k: nat)
    | Reply(input: nat)
    | Forwarded(input: nat)
    | ForwardFail(input: nat)

  function Without<T>(s: seq<T>, k: nat): seq<T>
    requires k < |s|
  {
    s[..k] + s[k + 1..]
  }

  /** Whether the scheduler may take the step.  A coroutine that was signalled may run whether or
      not it will find a node. */
  predicate Possible(s: State, a: Action) {
    match a
    case Accept => s.main == []
    case Resume(k) => k < |s.woken|
    case Deliver(k) => k < |s.sending|
    case SendOk(k) => k < |s.sent|
    case SendFail(k) => k < |s.sending|
    case Reply(i) => i < |s.stages| && s.stages[i].AtNode?
    case Forwarded(i) => i < |s.stages| && s.stages[i].Forwarding?
    case ForwardFail(i) => i < |s.stages| && s.stages[i].Forwarding?
  }

  /** The step takes the front of an empty queue. */
  predicate PopsEmpty(s: State, a: Action) {
    a.Resume? && s.ready == []
  }

  predicate Enabled(s: State, a: Action) {
    Possible(s, a) && !PopsEmpty(s, a)
  }

  /** Input i goes to the node at the front of the queue. */
  function Take(s: State, i: nat): State
    requires s.ready != []
  {
    s.(ready := s.ready[1..], sending := s.sending + [Transfer(s.ready[0], i)], log := s.log + [s.ready[0]],
       main := if s.main == [i] then [] else s.main)
  }

  function DispatchInput(s: State, i: nat): State {
    if s.ready != [] then Take(s, i) else s.(waiting := s.waiting + [i])
  }

  /** A node becomes ready; the coroutine that has waited longest is signalled. */
  function Push(s: State, n: nat): State {
    if s.waiting == [] then s.(ready := s.ready + [n])
    else s.(ready := s.ready + [n], woken := s.woken + [s.waiting[0]], waiting := s.waiting[1..])
  }

  function Next(s: State, a: Action): State
    requires Enabled(s, a)
  {
    match a
    case Accept =>
      var i := |s.stages|;
      DispatchInput(s.(stages := s.stages + [Held], counter := s.counter + 1, main := [i]), i)
    case Resume(k) => Take(s.(woken := Without(s.woken, k)), s.woken[k])
    case Deliver(k) =>
      var t := s.sending[k];
      s.(sending := Without(s.sending, k), sent := s.sent + [t],
         stages := if t.input < |s.stages| then s.stages[t.input := AtNode(t.node)] else s.stages)
    case SendOk(k) => Push(s.(sent := Without(s.sent, k)), s.sent[k].node)
    case SendFail(k) =>
      var t := s.sending[k];
      DispatchInput(s.(sending := Without(s.sending, k), dropped := s.dropped + [t.node]), t.input)
    case Reply(i) => s.(stages := s.stages[i := Forwarding(s.stages[i].node)])
    case Forwarded(i) => s.(stages := s.stages[i := Answered], counter := if s.counter == 0 then 0 else s.counter - 1)
    case ForwardFail(i) => s.(stages := s.stages[i := Lost])
  }

  /** The main loop begins with every configured node ready. */
  function Initial(nodes: seq<nat>): State {
    State(nodes, [], [], [], [], [], [], 0, [], [])
  }

  predicate IsRun(s: State, run: seq<Action>)
    decreases run
  {
    run == [] || (Enabled(s, run[0]) && IsRun(Next(s, run[0]), run[1..]))
  }

  function After(s: State, run: seq<Action>): State
    requires IsRun(s, run)
    decreases run
  {
    if run == [] then s else After(Next(s, run[0]), run[1..])
  }

  // ---- What every step keeps ----

  function Nodes(ts: seq<Transfer>): multiset<nat> {
    if ts == [] then multiset{} else multiset{ts[0].node} + Nodes(ts[1..])
  }

  function Inputs(ts: seq<Transfer>): multiset<nat> {
    if ts == [] then multiset{} else multiset{ts[0].input} + Inputs(ts[1..])
  }

  /** Where the nodes are. */
  function NodePlaces(s: State): multiset<nat> {
    multiset(s.ready) + multiset(s.dropped) + (Nodes(s.sending) + Nodes(s.sent))
  }

  /** Who holds an input that no node has received. */
  function Holders(s: State): multiset<nat> {
    multiset(s.waiting) + multiset(s.woken) + Inputs(s.sending)
  }

  function Outstanding(stages: seq<Stage>): nat {
    if stages == [] then 0 else (if stages[0] == Answered then 0 else 1) + Outstanding(stages[1..])
  }

  /** One holder if no node has received input i, and none otherwise. */
  predicate HolderOf(holders: multiset<nat>, stages: seq<Stage>, i: nat) {
    holders[i] == if i < |stages| && stages[i].Held? then 1 else 0
  }

  /** Every input that no node has received has exactly one holder, and no other input has one. */
  ghost predicate OneHolder(s: State) {
    forall i: nat :: HolderOf(Holders(s), s.stages, i)
  }

  /** The main loop's input is in a coroutine that is waiting to pop. */
  predicate MainWaits(s: State) {
    s.main == [] || (|s.main| == 1 && (s.main[0] in s.waiting || s.main[0] in s.woken))
  }

  ghost predicate Inv(s: State, nodes: seq<nat>) {
    && NodePlaces(s) == multiset(nodes)
    && OneHolder(s)
    && s.counter == Outstanding(s.stages)
    && (s.waiting != [] ==> |s.ready| <= |s.woken|)
    && MainWaits(s)
  }

  lemma {:induction false} TransfersConcat(a: seq<Transfer>, b: seq<Transfer>)
    ensures Nodes(a + b) == Nodes(a) + Nodes(b) && Inputs(a + b) == Inputs(a) + Inputs(b)
  {
    if a == [] {
      assert a + b == b;
    } else {
      assert (a + b)[1..] == a[1..] + b;
      TransfersConcat(a[1..], b);
    }
  }

  lemma {:induction false} TransfersWithout(ts: seq<Transfer>, k: nat)
    requires k < |ts|
    ensures Nodes(ts) == Nodes(Without(ts, k)) + multiset{ts[k].node}
    ensures Inputs(ts) == Inputs(Without(ts, k)) + multiset{ts[k].input}
  {
    var a, b := ts[..k], ts[k + 1..];
    assert ts == a + [ts[k]] + b && Without(ts, k) == a + b;
    NodesBetween(a, ts[k], b);
    InputsBetween(a, ts[k], b);
  }

  lemma {:induction false} NodesBetween(a: seq<Transfer>, t: Transfer, b: seq<Transfer>)
    ensures Nodes(a + [t] + b) == Nodes(a + b) + multiset{t.node}
  {
    if a == [] {
      assert a + [t] + b == [t] + b && a + b == b && ([t] + b)[1..] == b;
    } else {
      assert (a + [t] + b)[1..] == a[1..] + [t] + b && (a + b)[1..] == a[1..] + b;
      NodesBetween(a[1..], t, b);
    }
  }

  lemma {:induction false} InputsBetween(a: seq<Transfer>, t: Transfer, b: seq<Transfer>)
    ensures Inputs(a + [t] + b) == Inputs(a + b) + multiset{t.input}
  {
    if a == [] {
      assert a + [t] + b == [t] + b && a + b == b && ([t] + b)[1..] == b;
    } else {
      assert (a + [t] + b)[1..] == a[1..] + [t] + b && (a + b)[1..] == a[1..] + b;
      InputsBetween(a[1..], t, b);
    }
  }

  lemma OneTransfer(t: Transfer)
    ensures Nodes([t]) == multiset{t.node} && Inputs([t]) == multiset{t.input}
  {
    assert [t][1..] == [];
  }

  lemma TransfersWith(ts: seq<Transfer>, t: Transfer)
    ensures Nodes(ts + [t]) == Nodes(ts) + multiset{t.node} && Inputs(ts + [t]) == Inputs(ts) + multiset{t.input}
  {
    TransfersConcat(ts, [t]);
    OneTransfer(t);
  }

  lemma Removed(s: seq<nat>, k: nat)
    requires k < |s|
    ensures multiset(s) == multiset(Without(s, k)) + multiset{s[k]}
  {
    assert s == s[..k] + [s[k]] + s[k + 1..];
  }

  lemma HeadAndRest(s: seq<nat>)
    requires s != []
    ensures multiset(s) == multiset{s[0]} + multiset(s[1..])
  {
    assert s == [s[0]] + s[1..];
  }

  lemma {:induction false} OutstandingUpdate(stages: seq<Stage>, i: nat, st: Stage)
    requires i < |stages|
    ensures Outstanding(stages[i := st])
         == Outstanding(stages) - (if stages[i] == Answered then 0 else 1) + (if st == Answered then 0 else 1)
  {
    if i > 0 {
      assert stages[i := st][1..] == stages[1..][i - 1 := st];
      OutstandingUpdate(stages[1..], i - 1, st);
    } else {
      assert stages[0 := st][1..] == stages[1..];
    }
  }

  lemma {:induction false} OutstandingMore(stages: seq<Stage>)
    ensures Outstanding(stages + [Held]) == Outstanding(stages) + 1
  {
    if stages == [] {
    } else {
      assert (stages + [Held])[1..] == stages[1..] + [Held];
      OutstandingMore(stages[1..]);
    }
  }

  /** Taking a node: it leaves the queue for a transfer, and the input has a new holder. */
  lemma TakeKeeps(s: State, i: nat)
    requires s.ready != []
    ensures NodePlaces(Take(s, i)) == NodePlaces(s) && Holders(Take(s, i)) == Holders(s) + multiset{i}
  {
    HeadAndRest(s.ready);
    TransfersWith(s.sending, Transfer(s.ready[0], i));
  }

  lemma DispatchKeeps(s: State, i: nat)
    ensures NodePlaces(DispatchInput(s, i)) == NodePlaces(s) && Holders(DispatchInput(s, i)) == Holders(s) + multiset{i}
  {
    if s.ready != [] { TakeKeeps(s, i); }
  }

  lemma PushKeeps(s: State, n: nat)
    ensures NodePlaces(Push(s, n)) == NodePlaces(s) + multiset{n} && Holders(Push(s, n)) == Holders(s)
  {
    if s.waiting != [] { HeadAndRest(s.waiting); }
  }

  lemma DeliverKeepsNodes(s: State, k: nat)
    requires k < |s.sending|
    ensures Nodes(Without(s.sending, k)) + Nodes(s.sent + [s.sending[k]]) == Nodes(s.sending) + Nodes(s.sent)
  {
    TransfersWithout(s.sending, k);
    TransfersWith(s.sent, s.sending[k]);
  }

  lemma CompletionKeepsNodes(s: State, k: nat)
    requires k < |s.sent|
    ensures NodePlaces(Push(s.(sent := Without(s.sent, k)), s.sent[k].node)) == NodePlaces(s)
  {
    TransfersWithout(s.sent, k);
    PushKeeps(s.(sent := Without(s.sent, k)), s.sent[k].node);
  }

  lemma FailureKeepsNodes(s: State, k: nat)
    requires k < |s.sending|
    ensures NodePlaces(s.(sending := Without(s.sending, k), dropped := s.dropped + [s.sending[k].node]))
            == NodePlaces(s)
  {
    TransfersWithout(s.sending, k);
  }

  /** No node is lost or doubled. */
  lemma NextKeepsNodes(s: State, a: Action)
    requires Enabled(s, a)
    ensures NodePlaces(Next(s, a)) == NodePlaces(s)
  {
    match a
    case Accept =>
      DispatchKeeps(s.(stages := s.stages + [Held], counter := s.counter + 1, main := [|s.stages|]),
                    |s.stages|);
    case Resume(k) => TakeKeeps(s.(woken := Without(s.woken, k)), s.woken[k]);
    case Deliver(k) => DeliverKeepsNodes(s, k);
    case SendOk(k) => CompletionKeepsNodes(s, k);
    case SendFail(k) =>
      FailureKeepsNodes(s, k);
      DispatchKeeps(s.(sending := Without(s.sending, k), dropped := s.dropped + [s.sending[k].node]),
                    s.sending[k].input);
    case Reply(i) =>
    case Forwarded(i) =>
    case ForwardFail(i) =>
  }

  lemma ResumeKeepsHolders(s: State, k: nat)
    requires k < |s.woken| && s.ready != []
    ensures Holders(Take(s.(woken := Without(s.woken, k)), s.woken[k])) == Holders(s)
  {
    Removed(s.woken, k);
    TakeKeeps(s.(woken := Without(s.woken, k)), s.woken[k]);
  }

  lemma FailureKeepsHolders(s: State, k: nat)
    requires k < |s.sending|
    ensures var t := s.sending[k];
            Holders(DispatchInput(s.(sending := Without(s.sending, k), dropped := s.dropped + [t.node]), t.input))
                == Holders(s)
  {
    TransfersWithout(s.sending, k);
    DispatchKeeps(s.(sending := Without(s.sending, k), dropped := s.dropped + [s.sending[k].node]), s.sending[k].input);
  }

  /** How the holders change. */
  lemma NextHolders(s: State, a: Action)
    requires Enabled(s, a)
    ensures match a
            case Accept => Holders(Next(s, a)) == Holders(s) + multiset{|s.stages|}
            case Deliver(k) => Holders(s) == Holders(Next(s, a)) + multiset{s.sending[k].input}
            case _ => Holders(Next(s, a)) == Holders(s)
  {
    match a
    case Accept =>
      DispatchKeeps(s.(stages := s.stages + [Held], counter := s.counter + 1, main := [|s.stages|]),
                    |s.stages|);
    case Resume(k) => ResumeKeepsHolders(s, k);
    case Deliver(k) => TransfersWithout(s.sending, k);
    case SendOk(k) => PushKeeps(s.(sent := Without(s.sent, k)), s.sent[k].node);
    case SendFail(k) => FailureKeepsHolders(s, k);
    case Reply(i) =>
    case Forwarded(i) =>
    case ForwardFail(i) =>
  }

  lemma AcceptedHolder(holders: multiset<nat>, holders': multiset<nat>, stages: seq<Stage>, i: nat)
    requires HolderOf(holders, stages, i) && holders' == holders + multiset{|stages|}
    ensures HolderOf(holders', stages + [Held], i)
  {
  }

  lemma DeliveredHolder(holders: multiset<nat>, holders': multiset<nat>, stages: seq<Stage>, x: nat, n: nat, i: nat)
    requires HolderOf(holders, stages, i) && HolderOf(holders, stages, x) && holders == holders' + multiset{x}
    ensures x < |stages| && stages[x].Held? && HolderOf(holders', stages[x := AtNode(n)], i)
  {
  }

  lemma NextKeepsHolders(s: State, a: Action)
    requires Enabled(s, a) && OneHolder(s)
    ensures OneHolder(Next(s, a))
    ensures a.Deliver? ==> s.sending[a.k].input < |s.stages| && s.stages[s.sending[a.k].input].Held?
  {
    var t := Next(s, a);
    NextHolders(s, a);
    if a.Deliver? {
      assert HolderOf(Holders(s), s.stages, s.sending[a.k].input);
      DeliveredHolder(Holders(s), Holders(t), s.stages, s.sending[a.k].input, s.sending[a.k].node,
                      s.sending[a.k].input);
    }
    forall i: nat ensures HolderOf(Holders(t), t.stages, i) {
      assert HolderOf(Holders(s), s.stages, i);
      if a.Accept? {
        AcceptedHolder(Holders(s), Holders(t), s.stages, i);
      } else if a.Deliver? {
        DeliveredHolder(Holders(s), Holders(t), s.stages, s.sending[a.k].input, s.sending[a.k].node, i);
      }
    }
  }

  lemma NextKeepsCounter(s: State, a: Action)
    requires Enabled(s, a) && OneHolder(s) && s.counter == Outstanding(s.stages)
    ensures Next(s, a).counter == Outstanding(Next(s, a).stages)
    ensures a.Forwarded? ==> 0 < s.counter
  {
    match a
    case Accept => OutstandingMore(s.stages);
    case Deliver(k) =>
      NextKeepsHolders(s, a);
      OutstandingUpdate(s.stages, s.sending[k].input, AtNode(s.sending[k].node));
    case Reply(i) => OutstandingUpdate(s.stages, i, Forwarding(s.stages[i].node));
    case Forwarded(i) => OutstandingUpdate(s.stages, i, Answered);
    case ForwardFail(i) => OutstandingUpdate(s.stages, i, Lost);
    case Resume(k) =>
    case SendOk(k) =>
    case SendFail(k) =>
  }

  /** No wakeup is lost: if a coroutine waits unsignalled, every ready node has a coroutine on its
      way to take it. */
  lemma NextKeepsWakeups(s: State, a: Action)
    requires Enabled(s, a) && (s.waiting != [] ==> |s.ready| <= |s.woken|)
    ensures var t := Next(s, a); t.waiting != [] ==> |t.ready| <= |t.woken|
  {
  }

  lemma StillThere(s: seq<nat>, k: nat, x: nat)
    requires k < |s| && x in s && x != s[k]
    ensures x in Without(s, k)
  {
    var j :| 0 <= j < |s| && s[j] == x;
    if j < k { assert Without(s, k)[j] == x; } else { assert Without(s, k)[j - 1] == x; }
  }

  lemma NextKeepsMain(s: State, a: Action)
    requires Enabled(s, a) && MainWaits(s)
    ensures MainWaits(Next(s, a))
  {
    match a
    case Accept =>
    case Resume(k) =>
      if s.main != [] && s.main[0] in s.woken && s.main[0] != s.woken[k] {
        StillThere(s.woken, k, s.main[0]);
      }
    case SendOk(k) =>
      if s.main != [] && s.waiting != [] && s.main[0] in s.waiting && s.main[0] != s.waiting[0] {
        StillThere(s.waiting, 0, s.main[0]);
      }
    case SendFail(k) =>
    case Deliver(k) =>
    case Reply(i) =>
    case Forwarded(i) =>
    case ForwardFail(i) =>
  }

  lemma NextKeepsInv(s: State, a: Action, nodes: seq<nat>)
    requires Inv(s, nodes) && Enabled(s, a)
    ensures Inv(Next(s, a), nodes)
  {
    NextKeepsNodes(s, a);
    NextKeepsHolders(s, a);
    NextKeepsCounter(s, a);
    NextKeepsWakeups(s, a);
    NextKeepsMain(s, a);
  }

  /** Every state of every run, failed sends included. */
  lemma {:induction false} RunKeepsInv(s: State, run: seq<Action>, nodes: seq<nat>)
    requires Inv(s, nodes) && IsRun(s, run)
    ensures Inv(After(s, run), nodes)
    decreases run
  {
    if run != [] {
      NextKeepsInv(s, run[0], nodes);
      RunKeepsInv(Next(s, run[0]), run[1..], nodes);
    }
  }

  lemma InitialInv(nodes: seq<nat>)
    ensures Inv(Initial(nodes), nodes)
  {
  }

  // ---- Nodes ----

  predicate Distinct(s: seq<nat>) {
    s == [] || (s[0] !in s[1..] && Distinct(s[1..]))
  }

  lemma {:induction false} DistinctOnce(s: seq<nat>, n: nat)
    requires Distinct(s)
    ensures multiset(s)[n] == if n in s then 1 else 0
  {
    if s != [] {
      HeadAndRest(s);
      DistinctOnce(s[1..], n);
    }
  }

  /** In every state of every run a configured node is in one place only: ready, being written to,
      completing, or dropped. */
  lemma OnePlace(s: State, nodes: seq<nat>, n: nat)
    requires Inv(s, nodes) && Distinct(nodes)
    ensures multiset(s.ready)[n] + Nodes(s.sending)[n] + Nodes(s.sent)[n] + multiset(s.dropped)[n]
            == if n in nodes then 1 else 0
  {
    DistinctOnce(nodes, n);
    assert NodePlaces(s)[n] == multiset(nodes)[n];
  }

  lemma NodesAt(ts: seq<Transfer>, k: nat)
    requires k < |ts|
    ensures Nodes(ts)[ts[k].node] >= 1
  {
    TransfersWithout(ts, k);
  }

  lemma SameNodeTwice(ts: seq<Transfer>, j: nat, k: nat)
    requires j < k < |ts| && ts[j].node == ts[k].node
    ensures Nodes(ts)[ts[j].node] >= 2
  {
    var rest := Without(ts, j);
    TransfersWithout(ts, j);
    assert rest[k - 1] == ts[k];
    NodesAt(rest, k - 1);
  }

  /** No connection ever has two writes in flight, and no ready node has one. */
  lemma NoTwoWrites(s: State, nodes: seq<nat>, j: nat, k: nat)
    requires Inv(s, nodes) && Distinct(nodes) && j < k < |s.sending + s.sent|
    ensures var writes := s.sending + s.sent;
            && writes[j].node != writes[k].node
            && writes[j].node !in s.ready && writes[k].node !in s.ready
            && writes[j].node !in s.dropped && writes[k].node !in s.dropped
  {
    var writes := s.sending + s.sent;
    TransfersConcat(s.sending, s.sent);
    OnePlace(s, nodes, writes[j].node);
    OnePlace(s, nodes, writes[k].node);
    NodesAt(writes, j);
    NodesAt(writes, k);
    if writes[j].node == writes[k].node { SameNodeTwice(writes, j, k); }
  }

  // ---- The counter ----

  function AnsweredCount(stages: seq<Stage>): nat {
    if stages == [] then 0 else (if stages[0] == Answered then 1 else 0) + AnsweredCount(stages[1..])
  }

  lemma {:induction false} CounterMeaning(stages: seq<Stage>)
    ensures Outstanding(stages) == |stages| - AnsweredCount(stages)
    ensures Outstanding(stages) == 0 <==> forall i | 0 <= i < |stages| :: stages[i] == Answered
  {
    if stages != [] {
      CounterMeaning(stages[1..]);
      assert (forall i | 0 <= i < |stages| :: stages[i] == Answered)
        <==> stages[0] == Answered && forall i | 0 <= i < |stages[1..]| :: stages[1..][i] == Answered by {
        if stages[0] == Answered && forall i | 0 <= i < |stages[1..]| :: stages[1..][i] == Answered {
          forall i | 0 <= i < |stages| ensures stages[i] == Answered {
            if i > 0 { assert stages[i] == stages[1..][i - 1]; }
          }
        }
      }
    }
  }

  /** In every reachable state the counter is the inputs accepted less the results forwarded, it
      is zero only when every input has been answered, and forwarding never finds it at zero. */
  lemma CounterInRuns(nodes: seq<nat>, run: seq<Action>, a: Action)
    requires IsRun(Initial(nodes), run) && Enabled(After(Initial(nodes), run), a)
    ensures var s := After(Initial(nodes), run);
            && s.counter == |s.stages| - AnsweredCount(s.stages)
            && (s.counter == 0 <==> forall i | 0 <= i < |s.stages| :: s.stages[i] == Answered)
            && (a.Forwarded? ==> s.counter > 0)
  {
    InitialInv(nodes);
    RunKeepsInv(Initial(nodes), run, nodes);
    NextKeepsCounter(After(Initial(nodes), run), a);
    CounterMeaning(After(Initial(nodes), run).stages);
  }

  lemma RunStep(s: State, a: Action, run: seq<Action>)
    requires Enabled(s, a) && IsRun(Next(s, a), run)
    ensures IsRun(s, [a] + run) && After(s, [a] + run) == After(Next(s, a), run)
  {
    assert ([a] + run)[1..] == run;
  }

  /** All inputs can be answered while a send has not completed yet. */
  lemma AnsweredBeforeSendCompletes() returns (run: seq<Action>)
    ensures IsRun(Initial([0]), run)
    ensures After(Initial([0]), run).counter == 0 && After(Initial([0]), run).sent == [Transfer(0, 0)]
  {
    var s0 := Initial([0]);
    var s1 := Next(s0, Accept);
    var s2 := Next(s1, Deliver(0));
    var s3 := Next(s2, Reply(0));
    var s4 := Next(s3, Forwarded(0));
    assert s2.sent == [Transfer(0, 0)] && s2.stages == [AtNode(0)] && s3.stages == [Forwarding(0)];
    RunStep(s3, Forwarded(0), []);
    RunStep(s2, Reply(0), [Forwarded(0)]);
    RunStep(s1, Deliver(0), [Reply(0)] + [Forwarded(0)]);
    RunStep(s0, Accept, [Deliver(0)] + ([Reply(0)] + [Forwarded(0)]));
    run := [Accept] + ([Deliver(0)] + ([Reply(0)] + [Forwarded(0)]));
  }

  // ---- Popping an empty queue ----

  predicate NoFailures(run: seq<Action>) {
    run == [] || (!run[0].SendFail? && NoFailures(run[1..]))
  }

  /** Only the main loop waits for a node, and a signalled coroutine finds one. */
  predicate OnlyMainPops(s: State) {
    s.waiting + s.woken == s.main && |s.main| <= 1 && |s.woken| <= |s.ready|
  }

  lemma NextOnlyMainPops(s: State, a: Action)
    requires OnlyMainPops(s) && (s.waiting != [] ==> |s.ready| <= |s.woken|) && Enabled(s, a) && !a.SendFail?
    ensures OnlyMainPops(Next(s, a))
  {
    if |s.woken| == 1 { assert s.waiting == [] && s.main == s.woken; }
    if |s.waiting| == 1 { assert s.woken == [] && s.main == s.waiting; }
    if s.main == [] { assert s.waiting == [] && s.woken == []; }
    match a
    case Accept =>
    case Resume(k) => assert Without(s.woken, k) == [];
    case SendOk(k) =>
    case Deliver(k) =>
    case Reply(i) =>
    case Forwarded(i) =>
    case ForwardFail(i) =>
  }

  /** Every coroutine that was signalled would find a node. */
  predicate Safe(s: State) {
    |s.woken| <= |s.ready|
  }

  /** A coroutine that did not wait takes a node that a signalled one was meant to have. */
  predicate Steals(s: State, a: Action) {
    (a.Accept? || a.SendFail?) && s.ready != [] && |s.ready| == |s.woken|
  }

  /** Safety is lost by such a step, and by no other. */
  lemma SafeUntilStolen(s: State, a: Action)
    requires Safe(s) && Enabled(s, a)
    ensures Safe(Next(s, a)) <==> !Steals(s, a)
  {
  }

  function Resumes(n: nat): seq<Action> {
    if n == 0 then [] else [Resume(0)] + Resumes(n - 1)
  }

  /** In a state that is not safe, letting the signalled coroutines run ends with one of them
      facing an empty queue; in a safe one it never does. */
  lemma {:induction false} UnsafePopsEmpty(s: State)
    requires |s.ready| <= |s.woken|
    ensures IsRun(s, Resumes(|s.ready|))
    ensures var t := After(s, Resumes(|s.ready|));
            t.ready == [] && |t.woken| == |s.woken| - |s.ready|
            && ((Possible(t, Resume(0)) && PopsEmpty(t, Resume(0))) <==> !Safe(s))
    decreases |s.ready|
  {
    if s.ready != [] {
      var n := |s.ready|;
      UnsafePopsEmpty(Next(s, Resume(0)));
      RunStep(s, Resume(0), Resumes(n - 1));
    }
  }

  /** No step of the run takes a node from a signalled coroutine. */
  predicate NeverSteals(s: State, run: seq<Action>)
    requires IsRun(s, run)
    decreases run
  {
    run == [] || (!Steals(s, run[0]) && NeverSteals(Next(s, run[0]), run[1..]))
  }

  /** A signalled coroutine faces an empty queue. */
  ghost predicate FacesEmpty(s: State) {
    exists k: nat :: Possible(s, Resume(k)) && PopsEmpty(s, Resume(k))
  }

  /** In a run without such a step, whatever the scheduler may take next is enabled. */
  lemma {:induction false} StealFreeRunsAreSafe(s: State, run: seq<Action>)
    requires Safe(s) && IsRun(s, run) && NeverSteals(s, run)
    ensures Safe(After(s, run)) && !FacesEmpty(After(s, run))
    ensures forall a :: Possible(After(s, run), a) ==> Enabled(After(s, run), a)
    decreases run
  {
    if run != [] {
      SafeUntilStolen(s, run[0]);
      StealFreeRunsAreSafe(Next(s, run[0]), run[1..]);
    }
  }

  /** In a run with one, the scheduler could have gone on from there so that a signalled coroutine
      faces an empty queue. */
  lemma {:induction false} StealingRunsPopEmpty(s: State, run: seq<Action>) returns (bad: seq<Action>)
    requires Safe(s) && IsRun(s, run) && !NeverSteals(s, run)
    ensures IsRun(s, bad) && FacesEmpty(After(s, bad))
    decreases run
  {
    var a, t := run[0], Next(s, run[0]);
    var rest;
    SafeUntilStolen(s, a);
    if Steals(s, a) {
      UnsafePopsEmpty(t);
      rest := Resumes(|t.ready|);
      assert Possible(After(t, rest), Resume(0)) && PopsEmpty(After(t, rest), Resume(0));
    } else {
      rest := StealingRunsPopEmpty(t, run[1..]);
    }
    RunStep(s, a, rest);
    bad := [a] + rest;
  }

  /** Without a failed send nothing is stolen: only the main loop waits, and it does not accept an
      input while it does. */
  lemma {:induction false} NoFailuresNoSteals(s: State, run: seq<Action>, nodes: seq<nat>)
    requires Inv(s, nodes) && OnlyMainPops(s) && IsRun(s, run) && NoFailures(run)
    ensures NeverSteals(s, run)
    decreases run
  {
    if run != [] {
      assert s.main == [] ==> s.woken == [];
      NextKeepsInv(s, run[0], nodes);
      NextOnlyMainPops(s, run[0]);
      NoFailuresNoSteals(Next(s, run[0]), run[1..], nodes);
    }
  }

  /** While no send has failed, async_pop never takes from an empty queue: whatever the scheduler
      may run next is enabled. */
  lemma NeverPopsEmpty(nodes: seq<nat>, run: seq<Action>, a: Action)
    requires IsRun(Initial(nodes), run) && NoFailures(run) && Possible(After(Initial(nodes), run), a)
    ensures Enabled(After(Initial(nodes), run), a)
  {
    InitialInv(nodes);
    NoFailuresNoSteals(Initial(nodes), run, nodes);
    StealFreeRunsAreSafe(Initial(nodes), run);
  }

  /** It happens: two nodes, three inputs, and a send that fails after a coroutine was signalled
      for the only ready node. */
  lemma FailedSendPopsEmpty() returns (run: seq<Action>)
    ensures IsRun(Initial([0, 1]), run)
    ensures var s := After(Initial([0, 1]), run); Possible(s, Resume(0)) && PopsEmpty(s, Resume(0))
  {
    var s0 := Initial([0, 1]);
    var s1 := Next(s0, Accept);
    var s2 := Next(s1, Accept);
    assert s2.sending == [Transfer(0, 0), Transfer(1, 1)] && s2.ready == [] && s2.main == [];
    var s3 := Next(s2, Accept);
    assert s3.waiting == [2] && s3.sending == s2.sending;
    var s4 := Next(s3, Deliver(0));
    assert s4.sent == [Transfer(0, 0)] && s4.sending == [Transfer(1, 1)];
    var s5 := Next(s4, SendOk(0));
    assert s5.ready == [0] && s5.woken == [2] && s5.waiting == [];
    var s6 := Next(s5, SendFail(0));
    assert s6.ready == [] && s6.woken == [2];
    var r1 := [SendFail(0)];
    var r2, r3 := [SendOk(0)] + r1, [Deliver(0)] + ([SendOk(0)] + r1);
    RunStep(s5, SendFail(0), []);
    RunStep(s4, SendOk(0), r1);
    RunStep(s3, Deliver(0), r2);
    RunStep(s2, Accept, r3);
    RunStep(s1, Accept, [Accept] + r3);
    RunStep(s0, Accept, [Accept] + ([Accept] + r3));
    run := [Accept] + ([Accept] + ([Accept] + r3));
  }

  // ---- No deadlock ----

  /** Nothing that involves a node is under way, and no signalled coroutine is about to run. */
  predicate Quiescent(s: State) {
    s.sending == [] && s.sent == [] && s.woken == []
  }

  /** An input is stuck waiting for a node only when every node has been dropped: in any run,
      failed sends included. */
  lemma StuckOnlyWithoutNodes(nodes: seq<nat>, run: seq<Action>)
    requires IsRun(Initial(nodes), run) && Quiescent(After(Initial(nodes), run)) &&
             After(Initial(nodes), run).waiting != []
    ensures multiset(After(Initial(nodes), run).dropped) == multiset(nodes)
  {
    InitialInv(nodes);
    RunKeepsInv(Initial(nodes), run, nodes);
    var s := After(Initial(nodes), run);
    assert s.ready == [];
    assert NodePlaces(s) == multiset(s.dropped);
  }

  // ---- Fairness ----

  /** What has been taken since s, together with what is ready now, begins with what was ready. */
  ghost predicate InOrderSince(s: State, t: State) {
    s.log <= t.log && s.ready <= t.log[|s.log|..] + t.ready
  }

  lemma NextInOrder(s: State, a: Action)
    requires Enabled(s, a)
    ensures InOrderSince(s, Next(s, a))
  {
    var t := Next(s, a);
    if t.log != s.log {
      assert t.log[|s.log|..] == [s.ready[0]] && s.ready == [s.ready[0]] + s.ready[1..];
    }
  }

  lemma InOrderChains(s: State, t: State, u: State)
    requires InOrderSince(s, t) && InOrderSince(t, u)
    ensures InOrderSince(s, u)
  {
    var a, b := t.log[|s.log|..], u.log[|t.log|..];
    assert u.log[|s.log|..] == a + b;
    assert s.ready <= a + t.ready && a + t.ready <= a + (b + u.ready);
    assert a + (b + u.ready) == a + b + u.ready;
  }

  lemma {:induction false} RunInOrder(s: State, run: seq<Action>)
    requires IsRun(s, run)
    ensures InOrderSince(s, After(s, run))
    decreases run
  {
    if run != [] {
      NextInOrder(s, run[0]);
      RunInOrder(Next(s, run[0]), run[1..]);
      InOrderChains(s, Next(s, run[0]), After(s, run));
    }
  }

  /** First in, first out, in all runs: if node n is behind the nodes `ahead` when it becomes
      ready, then what is taken from then on is `ahead`, each once and in order, before n. */
  lemma BoundedBypass(s: State, run: seq<Action>, ahead: seq<nat>, n: nat, nodes: seq<nat>)
    requires IsRun(s, run) && Inv(s, nodes) && Distinct(nodes) && s.ready == ahead + [n]
    ensures s.log <= After(s, run).log
    ensures var taken := After(s, run).log[|s.log|..];
            && (n in taken <==> |ahead| < |taken|)
            && (if n in taken then taken[..|ahead| + 1] == ahead + [n] else taken <= ahead)
            && n !in ahead && Distinct(ahead)
  {
    var t := After(s, run);
    RunInOrder(s, run);
    ReadyDistinct(s, nodes);
    DistinctPrefix(ahead, n);
    TakenInOrder(t.log[|s.log|..], t.ready, ahead, n);
  }

  lemma TakenInOrder(taken: seq<nat>, ready: seq<nat>, ahead: seq<nat>, n: nat)
    requires ahead + [n] <= taken + ready && n !in ahead
    ensures n in taken <==> |ahead| < |taken|
    ensures if n in taken then taken[..|ahead| + 1] == ahead + [n] else taken <= ahead
  {
    var all := taken + ready;
    assert forall i | 0 <= i < |ahead| :: all[i] == (ahead + [n])[i] == ahead[i];
    assert all[|ahead|] == (ahead + [n])[|ahead|] == n;
    if |ahead| < |taken| {
      assert taken[|ahead|] == n;
      assert forall i | 0 <= i < |ahead| :: taken[i] == all[i];
    } else {
      assert forall i | 0 <= i < |taken| :: taken[i] == all[i] == ahead[i];
    }
  }

  lemma {:induction false} MultisetDistinct(s: seq<nat>)
    requires forall n: nat :: multiset(s)[n] <= 1
    ensures Distinct(s)
  {
    if s != [] {
      HeadAndRest(s);
      assert multiset(s)[s[0]] <= 1;
      forall n: nat ensures multiset(s[1..])[n] <= 1 {
        assert multiset(s)[n] <= 1;
      }
      MultisetDistinct(s[1..]);
    }
  }

  lemma ReadyDistinct(s: State, nodes: seq<nat>)
    requires Inv(s, nodes) && Distinct(nodes)
    ensures Distinct(s.ready)
  {
    forall n: nat ensures multiset(s.ready)[n] <= 1 {
      OnePlace(s, nodes, n);
    }
    MultisetDistinct(s.ready);
  }

  lemma {:induction false} DistinctPrefix(ahead: seq<nat>, n: nat)
    requires Distinct(ahead + [n])
    ensures n !in ahead && Distinct(ahead)
  {
    if ahead != [] {
      assert (ahead + [n])[1..] == ahead[1..] + [n];
      DistinctPrefix(ahead[1..], n);
      assert n in (ahead + [n])[1..];
      assert ahead == [ahead[0]] + ahead[1..];
      assert forall x | x in ahead[1..] :: x in (ahead + [n])[1..];
    }
  }
}
