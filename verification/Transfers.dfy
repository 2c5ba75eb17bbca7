/** In every run, with failed writes and timeouts anywhere: how many slots a test writes and where
    they lie, and which commands an agent executes. */
module Transfers {
  import opened Common
  import opened Protocol
  import opened Freshness
  import opened Measurements

  /** The slot writes of a complete test: a window for each round, warm-up included. A ping-pong test
      writes none, a window of zero stands for 64, and rounds are counted in 32 bits. */
  function Total(test: Test): nat {
    var slots := if test.kind == PingPong then 0 else if test.window > 0 then test.window else 64;
    slots * ((test.warmup + test.iterations) % UINT32)
  }

  /** A sender's test fits its buffer, and its slot writes are those of the rounds signalled and of
      the slots already written in this one. */
  ghost predicate SenderOk(ag: Agent) {
    match ag.activity
    case Sending(cmd, round, slot) =>
      cmd.Fits() && slot <= cmd.Slots() && ag.slotWrites == cmd.Slots() * round + slot
    case AwaitingReply(cmd, round) => cmd.Fits() && ag.slotWrites == cmd.Slots() * (round + 1)
    case _ => true
  }

  /** Command k was issued to agent a. */
  ghost predicate IssuedTo(issued: seq<Test>, a: nat, k: nat) {
    0 < k <= |issued| && (issued[k - 1].initiator == a || issued[k - 1].responder == a)
  }

  ghost predicate ExecutedIssued(issued: seq<Test>, a: nat, executed: seq<nat>) {
    forall k | k in executed :: IssuedTo(issued, a, k)
  }

  ghost predicate TransferOk(s: State, k: nat)
    requires k in s.outcomes && 0 < k <= |s.issued|
  {
    s.outcomes[k].status == COMPLETE ==> k in s.transfers && s.transfers[k] == Total(s.issued[k - 1])
  }

  ghost predicate AccountsOk(s: State) {
    && (forall a | 0 <= a < |s.agents| ::
          SenderOk(s.agents[a]) && ExecutedIssued(s.issued, a, s.agents[a].executed))
    && forall k | k in s.outcomes :: 0 < k <= |s.issued| && TransferOk(s, k)
  }

  lemma WindowMore(w: nat, r: nat)
    ensures w * (r + 1) == w * r + w && w * 0 == 0
  {
  }

  /** An agent comes to a result only for a command that has none yet, and to a complete one only
      after all slot writes. */
  ghost predicate ResultOk(issued: seq<Test>, outcomes: map<nat, TestResult>, next: Agent) {
    next.activity.Reporting? ==>
      && 0 < next.lastSeq <= |issued| && next.activity.result.commandSeq == next.lastSeq && next.lastSeq !in outcomes
      && (next.activity.result.status == COMPLETE ==> next.slotWrites == Total(issued[next.lastSeq - 1]))
  }

  lemma SenderStep(issued: seq<Test>, outcomes: map<nat, TestResult>, a: nat, ag: Agent, action: Action)
    requires AgentOk(issued, outcomes, a, ag) && SenderOk(ag)
    requires IsAgentAction(action) && AgentEnabled(ag, action)
    ensures SenderOk(Stepped(a, ag, action)) && ResultOk(issued, outcomes, Stepped(a, ag, action))
  {
    match action
    case Reset(_) => WindowMore(ag.activity.cmd.Slots(), 0);
    case Signal(_, _) => WindowMore(ag.activity.cmd.Slots(), ag.activity.round);
    case _ =>
  }

  lemma ExecutedStep(issued: seq<Test>, outcomes: map<nat, TestResult>, a: nat, ag: Agent, action: Action)
    requires AgentOk(issued, outcomes, a, ag) && ExecutedIssued(issued, a, ag.executed)
    requires IsAgentAction(action) && AgentEnabled(ag, action)
    ensures ExecutedIssued(issued, a, Stepped(a, ag, action).executed)
  {
  }

  lemma TransfersShape(s: State, action: Action)
    requires IsAgentAction(action) && Enabled(s, action)
    ensures var s', next := Apply(s, action), Stepped(action.a, s.agents[action.a], action);
      s'.transfers == if next.activity.Reporting?
                      then s.transfers[next.activity.result.commandSeq := next.slotWrites] else s.transfers
  {
  }

  /** A decided outcome keeps its number of slot writes; a new one gets that of the deciding agent. */
  lemma TransferAfter(s: State, s': State, next: Agent, k: nat)
    requires AccountsOk(s) && s'.issued == s.issued && s'.outcomes == NewOutcomes(s.outcomes, next)
    requires s'.transfers == if next.activity.Reporting?
                             then s.transfers[next.activity.result.commandSeq := next.slotWrites] else s.transfers
    requires ResultOk(s.issued, s.outcomes, next) && k in s'.outcomes
    ensures 0 < k <= |s'.issued| && TransferOk(s', k)
  {
    hide Total;
    assert k in s.outcomes ==> TransferOk(s, k);
  }

  lemma AgentStepAccounts(s: State, n: nat, action: Action)
    requires Consistent(s, n) && AccountsOk(s) && IsAgentAction(action) && Enabled(s, action)
    ensures AccountsOk(Apply(s, action))
  {
    var s', a := Apply(s, action), action.a;
    var ag := s.agents[a];
    var next := Stepped(a, ag, action);
    AgentStepShape(s, action);
    TransfersShape(s, action);
    assert AgentOk(s.issued, s.outcomes, a, ag);
    hide Apply, Stepped, Consistent, AgentOk, ExecutedIssued, TransferOk, ResultOk;
    SenderStep(s.issued, s.outcomes, a, ag, action);
    ExecutedStep(s.issued, s.outcomes, a, ag, action);
    forall k | k in s'.outcomes
      ensures 0 < k <= |s'.issued| && TransferOk(s', k)
    {
      TransferAfter(s, s', next, k);
    }
    forall b | 0 <= b < |s'.agents|
      ensures SenderOk(s'.agents[b]) && ExecutedIssued(s'.issued, b, s'.agents[b].executed)
    {
      SenderButMail(if b == a then next else s.agents[b], s'.agents[b]);
    }
  }

  lemma SenderButMail(ag: Agent, ag': Agent)
    requires SenderOk(ag) && SameButMail(ag, ag')
    ensures SenderOk(ag') && ag'.executed == ag.executed
  {
  }

  lemma ControllerStepAccounts(s: State, n: nat, action: Action)
    requires Consistent(s, n) && AccountsOk(s) && !IsAgentAction(action) && Enabled(s, action)
    ensures AccountsOk(Apply(s, action))
  {
    ControllerShape(s, n, action);
    ControllerTransfers(s, action);
    hide Apply, Consistent, AccountsOk;
    InboxesKeepAccounts(s, Apply(s, action), n);
  }

  lemma ControllerTransfers(s: State, action: Action)
    requires !IsAgentAction(action) && Enabled(s, action)
    ensures Apply(s, action).transfers == s.transfers
  {
  }

  lemma InboxesKeepAccounts(s: State, s': State, n: nat)
    requires AccountsOk(s) && OnlyInboxes(s, s', n) && s'.transfers == s.transfers
    ensures AccountsOk(s')
  {
    forall k | k in s'.outcomes
      ensures 0 < k <= |s'.issued| && TransferOk(s', k)
    {
      hide Total;
      assert TransferOk(s, k) && s'.issued[k - 1] == s.issued[k - 1];
    }
    hide TransferOk, ExecutedIssued;
    forall a | 0 <= a < |s'.agents|
      ensures SenderOk(s'.agents[a]) && ExecutedIssued(s'.issued, a, s'.agents[a].executed)
    {
      assert SenderOk(s.agents[a]) && ExecutedIssued(s.issued, a, s.agents[a].executed);
      IssuedMore(s.issued, s'.issued, a, s.agents[a].executed);
    }
  }

  lemma IssuedMore(issued: seq<Test>, issued': seq<Test>, a: nat, executed: seq<nat>)
    requires issued <= issued' && ExecutedIssued(issued, a, executed)
    ensures ExecutedIssued(issued', a, executed)
  {
    forall k | k in executed
      ensures IssuedTo(issued', a, k)
    {
      assert IssuedTo(issued, a, k) && issued'[k - 1] == issued[k - 1];
    }
  }

  lemma {:induction false} RunAccounts(n: nat, s: State, actions: seq<Action>, s': State)
    requires Consistent(s, n) && AccountsOk(s) && Runs(s, actions, s')
    ensures Consistent(s', n) && AccountsOk(s')
    decreases |actions|
  {
    if actions != [] {
      StepConsistent(s, n, actions[0]);
      if IsAgentAction(actions[0]) {
        AgentStepAccounts(s, n, actions[0]);
      } else {
        ControllerStepAccounts(s, n, actions[0]);
      }
      hide AccountsOk, Consistent;
      RunAccounts(n, Apply(s, actions[0]), actions[1..], s');
    }
  }

  lemma ReachableAccounts(n: nat, s: State)
    requires Reachable(n, s)
    ensures Consistent(s, n) && AccountsOk(s)
  {
    var actions :| Runs(Start(n), actions, s);
    StartConsistent(n);
    RunAccounts(n, Start(n), actions, s);
  }

  // ----- the theorems

  /** In every reachable state, whatever failed before: a test whose initiator has completed it wrote
      a full window of slots in each of its rounds. */
  lemma CompleteTransfersAll(n: nat, s: State, k: nat)
    requires Reachable(n, s) && k in s.outcomes && s.outcomes[k].status == COMPLETE
    ensures 0 < k <= |s.issued| && k in s.transfers && s.transfers[k] == Total(s.issued[k - 1])
  {
    ReachableAccounts(n, s);
    assert TransferOk(s, k);
  }

  /** ... and so did every test that the controller collected as complete. */
  lemma CollectedTransferAll(n: nat, s: State, c: Collected)
    requires Reachable(n, s) && c in s.collected && c.result.status == COMPLETE
    ensures c.commandSeq in s.transfers && s.transfers[c.commandSeq] == Total(c.test)
  {
    ResultsAreFresh(n, s, c);
    CompleteTransfersAll(n, s, c.commandSeq);
  }

  /** Whenever an agent is sending a window, all its slots end at or before the command inbox, if and
      only if the size checked at the start of the test did not wrap around 64 bits. */
  lemma SlotsInBufferIff(n: nat, s: State, a: nat)
    requires Reachable(n, s) && a < |s.agents| && s.agents[a].activity.Sending?
    requires s.agents[a].activity.cmd.kind == Bandwidth
    ensures var cmd := s.agents[a].activity.cmd;
      (forall k: nat | k < cmd.Slots() :: SlotInBuffer(cmd, k)) <==> cmd.Slots() * cmd.SlotSize() < UINT64
  {
    ReachableAccounts(n, s);
    assert SenderOk(s.agents[a]);
    SlotWritesStayInBufferIff(s.agents[a].activity.cmd);
  }

  /** Each agent executes strictly rising sequence numbers, each of a test issued to it. */
  lemma ExecutedWereIssued(n: nat, s: State, a: nat)
    requires Reachable(n, s) && a < n
    ensures a < |s.agents| && Rising(s.agents[a].executed) && ExecutedIssued(s.issued, a, s.agents[a].executed)
  {
    ReachableAccounts(n, s);
    ExecutedOnce(n, s, a);
  }
}
