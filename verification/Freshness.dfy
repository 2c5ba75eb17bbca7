/** Over whole runs, with failed writes and timeouts anywhere: every result the controller takes is
    the outcome of exactly the command it waits for, and each agent executes a command once. */
module Freshness {
  import opened Common
  import opened Protocol

  /** A command that the controller issued to agent a, as issued. */
  ghost predicate Authentic(issued: seq<Test>, a: nat, cmd: Command) {
    && 0 < cmd.commandSeq <= |issued|
    && AgentFor(issued[cmd.commandSeq - 1], cmd.role) == a
    && cmd == CommandFor(issued[cmd.commandSeq - 1], cmd.commandSeq, cmd.role)
  }

  /** The command being executed; an initiator has no outcome for it yet. */
  ghost predicate Executing(issued: seq<Test>, outcomes: map<nat, TestResult>, a: nat, ag: Agent, cmd: Command) {
    && Authentic(issued, a, cmd) && cmd.commandSeq == ag.lastSeq
    && (cmd.role == Initiator ==> cmd.commandSeq !in outcomes)
  }

  /** Rounds past the warm-up, of the first r rounds. */
  function Counted(warmup: nat, r: nat): nat {
    if r < warmup then 0 else r - warmup
  }

  function RoundsOf(test: Test): nat {
    CommandFor(test, 0, Initiator).Rounds()
  }

  /** result is how test number k ended at its initiator a. */
  ghost predicate OutcomeOf(issued: seq<Test>, outcomes: map<nat, TestResult>, k: nat, a: nat, result: TestResult) {
    && 0 < k <= |issued| && issued[k - 1].initiator == a
    && k in outcomes && outcomes[k] == result
    && result.commandSeq == k && result.agentId == a && result.status != PENDING
    && (result.status == COMPLETE ==> |result.samples| == Counted(issued[k - 1].warmup, RoundsOf(issued[k - 1])))
  }

  ghost predicate ActivityOk(issued: seq<Test>, outcomes: map<nat, TestResult>, a: nat, ag: Agent) {
    match ag.activity
    case Polling => true
    case Starting(cmd) => Executing(issued, outcomes, a, ag, cmd)
    case Sending(cmd, round, slot) =>
      Executing(issued, outcomes, a, ag, cmd) && cmd.role == Initiator
      && round < cmd.Rounds() && |ag.samples| == Counted(cmd.warmup, round)
    case AwaitingReply(cmd, round) =>
      Executing(issued, outcomes, a, ag, cmd) && cmd.role == Initiator
      && round < cmd.Rounds() && |ag.samples| == Counted(cmd.warmup, round)
    case AwaitingSignal(cmd, round) => Executing(issued, outcomes, a, ag, cmd) && cmd.role == Responder
      && round < cmd.Rounds()
    case Replying(cmd, round) => Executing(issued, outcomes, a, ag, cmd) && cmd.role == Responder
      && round < cmd.Rounds()
    case Reporting(result) => OutcomeOf(issued, outcomes, ag.lastSeq, a, result)
  }

  ghost predicate Rising(s: seq<nat>) {
    forall i, j | 0 <= i < j < |s| :: s[i] < s[j]
  }

  ghost predicate AgentOk(issued: seq<Test>, outcomes: map<nat, TestResult>, a: nat, ag: Agent) {
    && (ag.inbox.commandSeq > 0 ==> Authentic(issued, a, ag.inbox))
    && ag.lastSeq <= ag.inbox.commandSeq
    && Rising(ag.executed) && ag.lastSeq == (if ag.executed == [] then 0 else ag.executed[|ag.executed| - 1])
    && ActivityOk(issued, outcomes, a, ag)
  }

  ghost predicate SlotOk(s: State, a: nat)
    requires a < |s.agents| == |s.slots|
  {
    s.slots[a] == NO_RESULT
    || (s.slots[a].commandSeq <= s.agents[a].lastSeq
        && OutcomeOf(s.issued, s.outcomes, s.slots[a].commandSeq, a, s.slots[a]))
  }

  ghost predicate OutcomeOk(s: State, k: nat)
    requires k in s.outcomes
  {
    && OutcomeOf(s.issued, s.outcomes, k, s.outcomes[k].agentId, s.outcomes[k])
    && s.outcomes[k].agentId < |s.agents| && k <= s.agents[s.outcomes[k].agentId].lastSeq
  }

  /** What the controller took is the outcome of the test it was waiting for. */
  ghost predicate CollectedOk(s: State, c: Collected) {
    && 0 < c.commandSeq <= |s.issued| && c.test == s.issued[c.commandSeq - 1]
    && OutcomeOf(s.issued, s.outcomes, c.commandSeq, c.test.initiator, c.result)
  }

  ghost predicate PhaseOk(s: State) {
    match s.phase
    case Idle => true
    case Issuing(test) => s.issued != [] && s.issued[|s.issued| - 1] == test
    case Waiting(test) => s.issued != [] && s.issued[|s.issued| - 1] == test
  }

  ghost predicate Consistent(s: State, n: nat) {
    && |s.agents| == |s.slots| == n && PhaseOk(s)
    && (forall k | 0 <= k < |s.issued| :: ValidTest(s.issued[k], n))
    && (forall a | 0 <= a < n :: AgentOk(s.issued, s.outcomes, a, s.agents[a]))
    && (forall a | 0 <= a < n :: SlotOk(s, a))
    && (forall k | k in s.outcomes :: OutcomeOk(s, k))
    && (forall c | c in s.collected :: CollectedOk(s, c))
  }

  lemma StartConsistent(n: nat)
    ensures Consistent(Start(n), n)
  {
  }

  // ----- an agent's own step

  /** Outcomes are only added. */
  ghost predicate Grows(outcomes: map<nat, TestResult>, outcomes': map<nat, TestResult>) {
    forall k | k in outcomes :: k in outcomes' && outcomes'[k] == outcomes[k]
  }

  function NewOutcomes(outcomes: map<nat, TestResult>, ag: Agent): map<nat, TestResult> {
    if ag.activity.Reporting? then outcomes[ag.activity.result.commandSeq := ag.activity.result] else outcomes
  }

  /** No outcome names agent a for a command it has not accepted. */
  ghost predicate NoneAhead(issued: seq<Test>, outcomes: map<nat, TestResult>, a: nat, ag: Agent) {
    forall k: nat | k in outcomes && 0 < k <= |issued| && issued[k - 1].initiator == a :: k <= ag.lastSeq
  }

  /** The agent is still in order; a step that reports adds the outcome of the current command. */
  ghost predicate KeptByStep(issued: seq<Test>, outcomes: map<nat, TestResult>, a: nat, ag: Agent, ag': Agent) {
    var outcomes' := NewOutcomes(outcomes, ag');
    && AgentOk(issued, outcomes', a, ag') && Grows(outcomes, outcomes')
    && ag'.lastSeq >= ag.lastSeq && ag'.inbox == ag.inbox && ag.executed <= ag'.executed
    && (outcomes' == outcomes || (ag'.activity.Reporting? && ag'.lastSeq == ag.lastSeq
         && OutcomeOf(issued, outcomes', ag.lastSeq, a, ag'.activity.result)
         && outcomes' == outcomes[ag.lastSeq := ag'.activity.result]))
  }

  lemma OwnStepPolling(issued: seq<Test>, outcomes: map<nat, TestResult>, a: nat, ag: Agent, action: Action)
    requires AgentOk(issued, outcomes, a, ag) && NoneAhead(issued, outcomes, a, ag)
    requires IsAgentAction(action) && AgentEnabled(ag, action) && (action.Accept? || action.Report?)
    ensures KeptByStep(issued, outcomes, a, ag, Stepped(a, ag, action))
  {
  }

  lemma OwnStepReset(issued: seq<Test>, outcomes: map<nat, TestResult>, a: nat, ag: Agent, action: Action)
    requires AgentOk(issued, outcomes, a, ag) && NoneAhead(issued, outcomes, a, ag)
    requires IsAgentAction(action) && AgentEnabled(ag, action) && action.Reset?
    ensures KeptByStep(issued, outcomes, a, ag, Stepped(a, ag, action))
  {
  }

  lemma OwnStepSending(issued: seq<Test>, outcomes: map<nat, TestResult>, a: nat, ag: Agent, action: Action)
    requires AgentOk(issued, outcomes, a, ag) && NoneAhead(issued, outcomes, a, ag)
    requires IsAgentAction(action) && AgentEnabled(ag, action)
    requires action.WriteSlot? || action.Signal? || action.ReplyTimeout?
    ensures KeptByStep(issued, outcomes, a, ag, Stepped(a, ag, action))
  {
  }

  lemma OwnStepReply(issued: seq<Test>, outcomes: map<nat, TestResult>, a: nat, ag: Agent, action: Action)
    requires AgentOk(issued, outcomes, a, ag) && NoneAhead(issued, outcomes, a, ag)
    requires IsAgentAction(action) && AgentEnabled(ag, action) && action.SeeReply?
    ensures KeptByStep(issued, outcomes, a, ag, Stepped(a, ag, action))
  {
  }

  lemma OwnStepResponding(issued: seq<Test>, outcomes: map<nat, TestResult>, a: nat, ag: Agent, action: Action)
    requires AgentOk(issued, outcomes, a, ag) && NoneAhead(issued, outcomes, a, ag)
    requires IsAgentAction(action) && AgentEnabled(ag, action)
    requires action.SeeSignal? || action.SignalTimeout? || action.Reply?
    ensures KeptByStep(issued, outcomes, a, ag, Stepped(a, ag, action))
  {
  }

  lemma OwnStep(issued: seq<Test>, outcomes: map<nat, TestResult>, a: nat, ag: Agent, action: Action)
    requires AgentOk(issued, outcomes, a, ag) && NoneAhead(issued, outcomes, a, ag)
    requires IsAgentAction(action) && AgentEnabled(ag, action)
    ensures KeptByStep(issued, outcomes, a, ag, Stepped(a, ag, action))
  {
    hide AgentOk, NoneAhead, KeptByStep, Stepped;
    if action.Reset? {
      OwnStepReset(issued, outcomes, a, ag, action);
    } else if action.Accept? || action.Report? {
      OwnStepPolling(issued, outcomes, a, ag, action);
    } else if action.WriteSlot? || action.Signal? || action.ReplyTimeout? {
      OwnStepSending(issued, outcomes, a, ag, action);
    } else if action.SeeReply? {
      OwnStepReply(issued, outcomes, a, ag, action);
    } else {
      OwnStepResponding(issued, outcomes, a, ag, action);
    }
  }

  // ----- everything else stays in order

  /** Nothing but the mailbox differs. */
  predicate SameButMail(x: Agent, y: Agent) {
    y == x.(mailbox := y.mailbox)
  }

  /** More tests and more outcomes of other agents leave an agent in order. */
  lemma AgentFrame(issued: seq<Test>, issued': seq<Test>, outcomes: map<nat, TestResult>,
                   outcomes': map<nat, TestResult>,
                   a: nat, ag: Agent, ag': Agent)
    requires AgentOk(issued, outcomes, a, ag) && issued <= issued' && Grows(outcomes, outcomes')
    requires forall k: nat | k in outcomes' && k !in outcomes && 0 < k <= |issued'| :: issued'[k - 1].initiator != a
    requires SameButMail(ag, ag')
    ensures AgentOk(issued', outcomes', a, ag')
  {
    assert forall k | 0 <= k < |issued| :: issued'[k] == issued[k];
  }

  lemma OutcomeFrame(issued: seq<Test>, issued': seq<Test>, outcomes: map<nat, TestResult>,
                     outcomes': map<nat, TestResult>,
                     k: nat, a: nat, result: TestResult)
    requires OutcomeOf(issued, outcomes, k, a, result) && issued <= issued' && Grows(outcomes, outcomes')
    ensures OutcomeOf(issued', outcomes', k, a, result)
  {
    assert issued'[k - 1] == issued[k - 1];
  }

  lemma NoneAheadHolds(s: State, n: nat, a: nat)
    requires Consistent(s, n) && a < n
    ensures NoneAhead(s.issued, s.outcomes, a, s.agents[a])
  {
    forall k: nat | k in s.outcomes && 0 < k <= |s.issued| && s.issued[k - 1].initiator == a
      ensures k <= s.agents[a].lastSeq
    {
      assert OutcomeOk(s, k);
    }
  }

  /** What an agent's step leaves alone. */
  lemma AgentStepShape(s: State, action: Action)
    requires IsAgentAction(action) && Enabled(s, action)
    ensures var s', a := Apply(s, action), action.a;
      var ag' := Stepped(a, s.agents[a], action);
      && |s'.agents| == |s'.slots| == |s.agents| && s'.issued == s.issued && s'.phase == s.phase
      && s'.collected == s.collected
      && s'.outcomes == NewOutcomes(s.outcomes, ag') && SameButMail(ag', s'.agents[a])
      && forall b | 0 <= b < |s.agents| && b != a :: SameButMail(s.agents[b], s'.agents[b])
  {
  }

  lemma SlotShape(s: State, action: Action)
    requires IsAgentAction(action) && Enabled(s, action)
    ensures var s', a := Apply(s, action), action.a;
      s'.slots == if action.Report? && action.ok then s.slots[a := s.agents[a].activity.result] else s.slots
  {
  }

  /** Order is kept by any change of one agent that keeps its own, adds at most its own outcome,
      and changes only mailboxes elsewhere. */
  ghost predicate OneAgentMoved(s: State, s': State, n: nat, a: nat) {
    && |s.agents| == |s.slots| == |s'.agents| == |s'.slots| == n && a < n
    && s'.issued == s.issued && s'.phase == s.phase && s'.collected == s.collected && Grows(s.outcomes, s'.outcomes)
    && AgentOk(s'.issued, s'.outcomes, a, s'.agents[a]) && s.agents[a].lastSeq <= s'.agents[a].lastSeq
    && (forall b | 0 <= b < n && b != a :: SameButMail(s.agents[b], s'.agents[b]) && s'.slots[b] == s.slots[b])
    && (forall k: nat | k in s'.outcomes && k !in s.outcomes ::
          OutcomeOf(s'.issued, s'.outcomes, k, a, s'.outcomes[k]) && k <= s'.agents[a].lastSeq)
  }

  lemma AgentStepMoves(s: State, n: nat, action: Action)
    requires Consistent(s, n) && IsAgentAction(action) && Enabled(s, action)
    ensures OneAgentMoved(s, Apply(s, action), n, action.a)
  {
    var a := action.a;
    NoneAheadHolds(s, n, a);
    AgentStepShape(s, action);
    SlotShape(s, action);
    assert AgentOk(s.issued, s.outcomes, a, s.agents[a]);
    OwnStep(s.issued, s.outcomes, a, s.agents[a], action);
    var s', ag' := Apply(s, action), Stepped(a, s.agents[a], action);
    AgentFrame(s.issued, s.issued, s'.outcomes, s'.outcomes, a, ag', s'.agents[a]);
  }

  lemma OthersStayOk(s: State, s': State, n: nat, a: nat, b: nat)
    requires OneAgentMoved(s, s', n, a) && b < n && AgentOk(s.issued, s.outcomes, b, s.agents[b])
    ensures AgentOk(s'.issued, s'.outcomes, b, s'.agents[b]) && s'.agents[b].lastSeq >= s.agents[b].lastSeq
  {
    if b != a {
      AgentFrame(s.issued, s.issued, s.outcomes, s'.outcomes, b, s.agents[b], s'.agents[b]);
    }
  }

  lemma OutcomeStaysOk(s: State, s': State, n: nat, a: nat, k: nat)
    requires OneAgentMoved(s, s', n, a) && k in s'.outcomes && (k in s.outcomes ==> OutcomeOk(s, k))
    ensures OutcomeOk(s', k)
  {
    if k in s.outcomes {
      OutcomeFrame(s.issued, s.issued, s.outcomes, s'.outcomes, k, s.outcomes[k].agentId, s.outcomes[k]);
      assert s'.agents[s.outcomes[k].agentId].lastSeq >= s.agents[s.outcomes[k].agentId].lastSeq;
    }
  }

  lemma SlotStaysOk(s: State, n: nat, action: Action, b: nat)
    requires Consistent(s, n) && IsAgentAction(action) && Enabled(s, action) && b < n
    requires OneAgentMoved(s, Apply(s, action), n, action.a)
    ensures SlotOk(Apply(s, action), b) && s.slots[b].commandSeq <= Apply(s, action).slots[b].commandSeq
  {
    var s', a := Apply(s, action), action.a;
    SlotShape(s, action);
    AgentBound(s, n, b);
    OthersStayOk(s, s', n, a, b);
    if b == a && action.Report? && action.ok {
      ReportedIsOutcome(s.issued, s.outcomes, a, s.agents[a]);
      hide Apply, AgentOk, Consistent, OutcomeOf;
      OutcomeFrame(s.issued, s.issued, s.outcomes, s'.outcomes, s.agents[a].lastSeq, a, s.agents[a].activity.result);
      ReportFillsSlot(s, s', a, s.agents[a].activity.result);
    } else {
      hide Apply, AgentOk, Consistent, OutcomeOf;
      SlotUntouched(s, s', b);
    }
  }

  lemma ReportedIsOutcome(issued: seq<Test>, outcomes: map<nat, TestResult>, a: nat, ag: Agent)
    requires AgentOk(issued, outcomes, a, ag) && ag.activity.Reporting?
    ensures OutcomeOf(issued, outcomes, ag.lastSeq, a, ag.activity.result)
    ensures ag.activity.result.commandSeq == ag.lastSeq
  {
  }

  lemma ReportFillsSlot(s: State, s': State, a: nat, result: TestResult)
    requires a < |s.agents| == |s.slots| && a < |s'.agents| == |s'.slots| && SlotOk(s, a) && s'.slots[a] == result
    requires OutcomeOf(s'.issued, s'.outcomes, s.agents[a].lastSeq, a, result)
    requires result.commandSeq == s.agents[a].lastSeq <= s'.agents[a].lastSeq
    ensures SlotOk(s', a) && s.slots[a].commandSeq <= s'.slots[a].commandSeq
  {
  }

  lemma SlotUntouched(s: State, s': State, b: nat)
    requires b < |s.agents| == |s.slots| && b < |s'.agents| == |s'.slots| && SlotOk(s, b) && s'.slots[b] == s.slots[b]
    requires s.issued <= s'.issued && Grows(s.outcomes, s'.outcomes) && s.agents[b].lastSeq <= s'.agents[b].lastSeq
    ensures SlotOk(s', b)
  {
    if s.slots[b] != NO_RESULT {
      OutcomeFrame(s.issued, s'.issued, s.outcomes, s'.outcomes, s.slots[b].commandSeq, b, s.slots[b]);
    }
  }

  lemma CollectedStaysOk(s: State, s': State, c: Collected)
    requires CollectedOk(s, c) && s.issued <= s'.issued && Grows(s.outcomes, s'.outcomes)
    ensures CollectedOk(s', c)
  {
    OutcomeFrame(s.issued, s'.issued, s.outcomes, s'.outcomes, c.commandSeq, c.test.initiator, c.result);
    assert s'.issued[c.commandSeq - 1] == s.issued[c.commandSeq - 1];
  }

  lemma AgentStepConsistent(s: State, n: nat, action: Action)
    requires Consistent(s, n) && IsAgentAction(action) && Enabled(s, action)
    ensures Consistent(Apply(s, action), n)
  {
    var s', a := Apply(s, action), action.a;
    AgentStepMoves(s, n, action);
    forall b | 0 <= b < n
      ensures AgentOk(s'.issued, s'.outcomes, b, s'.agents[b]) && SlotOk(s', b)
    {
      OthersStayOk(s, s', n, a, b);
      SlotStaysOk(s, n, action, b);
    }
    forall k | k in s'.outcomes
      ensures OutcomeOk(s', k)
    {
      OutcomeStaysOk(s, s', n, a, k);
    }
    forall c | c in s'.collected
      ensures CollectedOk(s', c)
    {
      CollectedStaysOk(s, s', c);
    }
  }

  // ----- the controller's steps

  /** What a controller step leaves alone. */
  ghost predicate OnlyInboxes(s: State, s': State, n: nat) {
    && |s.agents| == |s.slots| == |s'.agents| == n && s'.slots == s.slots && s'.outcomes == s.outcomes
    && s.issued <= s'.issued
    && forall b | 0 <= b < n :: s'.agents[b] == s.agents[b].(inbox := s'.agents[b].inbox)
         && (s'.agents[b].inbox == s.agents[b].inbox
             || (Authentic(s'.issued, b, s'.agents[b].inbox) && s'.agents[b].inbox.commandSeq == |s'.issued|))
  }

  lemma ControllerShape(s: State, n: nat, action: Action)
    requires |s.agents| == |s.slots| == n && PhaseOk(s) && !IsAgentAction(action) && Enabled(s, action)
    ensures OnlyInboxes(s, Apply(s, action), n) && PhaseOk(Apply(s, action))
  {
    match action
    case IssueToResponder(_, _) =>
    case IssueToInitiator(_) =>
    case Collect =>
    case GiveUp =>
  }

  lemma InboxKeepsAgent(s: State, s': State, n: nat, b: nat)
    requires OnlyInboxes(s, s', n) && b < n && AgentOk(s.issued, s.outcomes, b, s.agents[b])
    requires s.agents[b].lastSeq <= |s.issued|
    ensures AgentOk(s'.issued, s'.outcomes, b, s'.agents[b])
  {
    AgentFrame(s.issued, s'.issued, s.outcomes, s'.outcomes, b, s.agents[b], s.agents[b]);
  }

  lemma InboxKeepsSlot(s: State, s': State, n: nat, b: nat)
    requires OnlyInboxes(s, s', n) && b < n && SlotOk(s, b)
    ensures SlotOk(s', b)
  {
    if s.slots[b] != NO_RESULT {
      OutcomeFrame(s.issued, s'.issued, s.outcomes, s'.outcomes, s.slots[b].commandSeq, b, s.slots[b]);
    }
  }

  lemma CollectTakesOutcome(s: State, n: nat)
    requires Consistent(s, n) && Enabled(s, Collect)
    ensures var c := Collected(|s.issued|, s.phase.test, s.slots[s.phase.test.initiator]);
      CollectedOk(s, c) && Apply(s, Collect).collected == s.collected + [c]
  {
    assert SlotOk(s, s.phase.test.initiator);
  }

  /** The tests issued stay valid, and only a collection adds to what was collected. */
  lemma ControllerRecords(s: State, n: nat, action: Action)
    requires Consistent(s, n) && !IsAgentAction(action) && Enabled(s, action)
    ensures var s' := Apply(s, action);
      && (forall k | 0 <= k < |s'.issued| :: ValidTest(s'.issued[k], n))
      && forall c | c in s'.collected :: c in s.collected || CollectedOk(s, c)
  {
    if action.Collect? {
      CollectTakesOutcome(s, n);
    }
  }

  lemma InboxesKeepConsistent(s: State, s': State, n: nat)
    requires Consistent(s, n) && OnlyInboxes(s, s', n) && PhaseOk(s')
    requires forall k | 0 <= k < |s'.issued| :: ValidTest(s'.issued[k], n)
    requires forall c | c in s'.collected :: c in s.collected || CollectedOk(s, c)
    ensures Consistent(s', n)
  {
    forall b | 0 <= b < n
      ensures AgentOk(s'.issued, s'.outcomes, b, s'.agents[b]) && SlotOk(s', b)
    {
      AgentBound(s, n, b);
      InboxKeepsAgent(s, s', n, b);
      InboxKeepsSlot(s, s', n, b);
    }
    forall k | k in s'.outcomes
      ensures OutcomeOk(s', k)
    {
      InboxKeepsOutcome(s, s', n, k);
    }
    forall c | c in s'.collected
      ensures CollectedOk(s', c)
    {
      assert CollectedOk(s, c);
      CollectedStaysOk(s, s', c);
    }
    hide AgentOk, SlotOk, OutcomeOk, CollectedOk, ValidTest;
  }

  lemma AgentBound(s: State, n: nat, b: nat)
    requires Consistent(s, n) && b < n
    ensures AgentOk(s.issued, s.outcomes, b, s.agents[b]) && SlotOk(s, b) && s.agents[b].lastSeq <= |s.issued|
  {
  }

  lemma InboxKeepsOutcome(s: State, s': State, n: nat, k: nat)
    requires Consistent(s, n) && OnlyInboxes(s, s', n) && k in s'.outcomes
    ensures OutcomeOk(s', k)
  {
    assert OutcomeOk(s, k);
    OutcomeFrame(s.issued, s'.issued, s.outcomes, s'.outcomes, k, s.outcomes[k].agentId, s.outcomes[k]);
  }

  lemma ControllerStepConsistent(s: State, n: nat, action: Action)
    requires Consistent(s, n) && !IsAgentAction(action) && Enabled(s, action)
    ensures Consistent(Apply(s, action), n)
  {
    ControllerShape(s, n, action);
    ControllerRecords(s, n, action);
    hide Apply, Consistent, OnlyInboxes, PhaseOk, CollectedOk, ValidTest;
    InboxesKeepConsistent(s, Apply(s, action), n);
  }

  lemma StepConsistent(s: State, n: nat, action: Action)
    requires Consistent(s, n) && Enabled(s, action)
    ensures Consistent(Apply(s, action), n)
  {
    if IsAgentAction(action) {
      AgentStepConsistent(s, n, action);
    } else {
      ControllerStepConsistent(s, n, action);
    }
  }

  lemma {:induction false} RunConsistent(n: nat, s: State, actions: seq<Action>, s': State)
    requires Consistent(s, n) && Runs(s, actions, s')
    ensures Consistent(s', n)
    decreases |actions|
  {
    if actions != [] {
      var t := Apply(s, actions[0]);
      StepConsistent(s, n, actions[0]);
      RunConsistent(n, t, actions[1..], s');
    }
  }

  // ----- the theorems

  /** In every reachable state each collected result is the outcome of exactly the test the
      controller was waiting for, at that test's initiator; and a completed one holds one sample
      for each round after the warm-up. */
  lemma ResultsAreFresh(n: nat, s: State, c: Collected)
    requires Reachable(n, s) && c in s.collected
    ensures 0 < c.commandSeq <= |s.issued| && c.test == s.issued[c.commandSeq - 1]
    ensures c.commandSeq in s.outcomes && c.result == s.outcomes[c.commandSeq]
    ensures c.result.commandSeq == c.commandSeq && c.result.agentId == c.test.initiator && c.result.status != PENDING
    ensures c.result.status == COMPLETE ==> |c.result.samples| == Counted(c.test.warmup, RoundsOf(c.test))
  {
    var actions :| Runs(Start(n), actions, s);
    StartConsistent(n);
    RunConsistent(n, Start(n), actions, s);
    assert CollectedOk(s, c);
  }

  /** A completed test has exactly the requested number of samples if and only if warm-up plus
      iterations do not wrap around 32 bits. */
  lemma SampleCountIff(test: Test, n: nat)
    requires ValidTest(test, n)
    ensures Counted(test.warmup, RoundsOf(test)) == test.iterations
      <==> test.warmup + test.iterations < UINT32
  {
  }

  /** Along any run a result slot never goes back to an older command, and the outcome of a test,
      once fixed, never changes. */
  lemma {:induction false} NoOlderResult(n: nat, s: State, actions: seq<Action>, s': State, a: nat)
    requires Consistent(s, n) && Runs(s, actions, s') && a < n
    ensures Consistent(s', n) && s.slots[a].commandSeq <= s'.slots[a].commandSeq
    ensures s.slots[a].commandSeq == s'.slots[a].commandSeq ==> s.slots[a] == s'.slots[a]
    ensures Grows(s.outcomes, s'.outcomes)
    decreases |actions|
  {
    if actions != [] {
      var t := Apply(s, actions[0]);
      StepConsistent(s, n, actions[0]);
      NoOlderInStep(s, n, actions[0], a);
      NoOlderResult(n, t, actions[1..], s', a);
    }
  }

  lemma NoOlderInStep(s: State, n: nat, action: Action, a: nat)
    requires Consistent(s, n) && Enabled(s, action) && a < n
    ensures a < |Apply(s, action).slots| && s.slots[a].commandSeq <= Apply(s, action).slots[a].commandSeq
    ensures s.slots[a].commandSeq == Apply(s, action).slots[a].commandSeq ==> s.slots[a] == Apply(s, action).slots[a]
    ensures Grows(s.outcomes, Apply(s, action).outcomes)
  {
    if IsAgentAction(action) {
      AgentStepMoves(s, n, action);
      SlotStaysOk(s, n, action, a);
      assert SlotOk(s, a);
    } else {
      ControllerShape(s, n, action);
    }
  }

  /** In every reachable state each agent has executed strictly increasing sequence numbers, so no
      command twice, and none beyond the last one issued. */
  lemma ExecutedOnce(n: nat, s: State, a: nat)
    requires Reachable(n, s) && a < n
    ensures a < |s.agents| && Rising(s.agents[a].executed)
    ensures s.agents[a].lastSeq <= |s.issued|
  {
    var actions :| Runs(Start(n), actions, s);
    StartConsistent(n);
    RunConsistent(n, Start(n), actions, s);
    assert AgentOk(s.issued, s.outcomes, a, s.agents[a]);
  }
}
