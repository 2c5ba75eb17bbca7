/** A test that is issued while every agent is quiet runs in lockstep: each reply its initiator reads
    is the reply to its own last signal, whatever is lost or times out, in this test or before. A
    completed test leaves every agent quiet. */
module Lockstep {
  import opened Protocol
  import opened Freshness

  // ----- agents outside the current test

  /** The agent has not yet taken up test number cur, and has no older command that would make it
      write mail. */
  predicate Before(ag: Agent, cur: nat) {
    ag.lastSeq < cur && Resting(ag)
    && (ag.inbox.commandSeq <= ag.lastSeq || ag.inbox.commandSeq == cur || Harmless(ag.inbox))
  }

  /** Not yet taken up, or taken up but the mailbox is not reset yet. */
  predicate Early(ag: Agent, cur: nat) {
    Before(ag, cur) || (ag.lastSeq == cur && ag.activity.Starting?)
  }

  // ----- the two agents of the current test

  function Rounds(test: Test, cur: nat): nat { CommandFor(test, cur, Initiator).Rounds() }
  function Window(test: Test, cur: nat): nat { CommandFor(test, cur, Initiator).Slots() }
  predicate Fits(test: Test, cur: nat) { CommandFor(test, cur, Initiator).Fits() }

  /** Samples of the rounds after the warm-up, in order, each ended by the reply to that round. */
  ghost predicate OwnSamples(samples: seq<Sample>, test: Test, cur: nat) {
    forall k | 0 <= k < |samples| ::
      samples[k].round == test.warmup + k && samples[k].reply == Mail(test.warmup + k + 1, test.responder, cur)
  }

  /** An initiator that has reset its mailbox: r rounds done means r replies read, r or r + 1
      signals sent, and all the slot writes of the rounds signalled. */
  ghost predicate InitiatorOn(ag: Agent, test: Test, cur: nat) {
    && ag.lastSeq == cur && ag.lastSeen == ag.seen && ag.seen <= ag.sent <= ag.seen + 1 && ag.sent <= Rounds(test, cur)
    && OwnSamples(ag.samples, test, cur) && |ag.samples| == Counted(test.warmup, ag.seen)
    && ag.slotWrites >= Window(test, cur) * ag.sent
    && match ag.activity
       case Sending(cmd, round, slot) =>
         cmd == CommandFor(test, cur, Initiator) && ag.sent == ag.seen == round < Rounds(test, cur)
         && slot <= Window(test, cur) && ag.slotWrites == Window(test, cur) * round + slot
       case AwaitingReply(cmd, round) =>
         cmd == CommandFor(test, cur, Initiator) && ag.seen == round < Rounds(test, cur) && ag.sent == round + 1
         && ag.slotWrites == Window(test, cur) * (round + 1)
       case Reporting(result) =>
         result.commandSeq == cur && (result.samples == ag.samples || result.samples == []) && result.errorCode != 10
         && (result.status == COMPLETE ==>
               ag.seen == Rounds(test, cur) && ag.slotWrites == Window(test, cur) * Rounds(test, cur))
       case Polling => true
       case _ => false
  }

  /** Rounds the responder has answered, or tried to. */
  function Answered(ag: Agent): nat {
    if ag.activity.Replying? then ag.activity.round else ag.seen
  }

  ghost predicate ResponderOn(ag: Agent, test: Test, cur: nat) {
    && ag.lastSeq == cur && ag.lastSeen == ag.seen && ag.sent <= Answered(ag) && ag.seen <= Rounds(test, cur)
    && match ag.activity
       case AwaitingSignal(cmd, round) =>
         cmd == CommandFor(test, cur, Responder) && ag.seen == round < Rounds(test, cur)
       case Replying(cmd, round) =>
         cmd == CommandFor(test, cur, Responder) && ag.seen == round + 1 && round < Rounds(test, cur)
       case Polling => true
       case _ => false
  }

  ghost predicate InitiatorOk(ag: Agent, test: Test, cur: nat) {
    Early(ag, cur) || (if Fits(test, cur) then InitiatorOn(ag, test, cur) else InitiatorRefused(ag, cur))
  }

  /** An initiator whose test does not fit its buffer. */
  ghost predicate InitiatorRefused(ag: Agent, cur: nat) {
    && ag.lastSeq == cur
    && match ag.activity
       case Reporting(result) => result.commandSeq == cur && result.samples == [] && result.status != COMPLETE
       case Polling => true
       case _ => false
  }

  ghost predicate ResponderOk(ag: Agent, test: Test, cur: nat) {
    Early(ag, cur)
    || (if Fits(test, cur) then ResponderOn(ag, test, cur) else ag.lastSeq == cur && ag.activity.Polling?)
  }

  /** Taking part: past the reset, in a test that fits. */
  predicate On(ag: Agent, test: Test, cur: nat) {
    Fits(test, cur) && ag.lastSeq == cur && !ag.activity.Starting?
  }

  function SentBy(ag: Agent, test: Test, cur: nat): nat { if On(ag, test, cur) then ag.sent else 0 }
  function SeenBy(ag: Agent, test: Test, cur: nat): nat { if On(ag, test, cur) then ag.seen else 0 }
  function AnsweredBy(ag: Agent, test: Test, cur: nat): nat { if On(ag, test, cur) then Answered(ag) else 0 }

  /** How the two counts and the two mailboxes hang together. */
  ghost predicate Coupled(i: Agent, j: Agent, test: Test, cur: nat) {
    && SeenBy(j, test, cur) <= SentBy(i, test, cur) <= SeenBy(i, test, cur) + 1
    && SeenBy(i, test, cur) <= AnsweredBy(j, test, cur)
    && (On(i, test, cur) ==>
          && SeenBy(i, test, cur) <= i.mailbox.sequence <= AnsweredBy(j, test, cur)
          && (i.mailbox.sequence > 0 ==> i.mailbox == Mail(i.mailbox.sequence, test.responder, cur)))
    && (On(j, test, cur) ==>
          && (j.mailbox.sequence == SentBy(i, test, cur)
              || (j.mailbox.sequence == 0 && SentBy(i, test, cur) <= 1 && SeenBy(j, test, cur) == 0))
          && (j.mailbox.sequence > 0 ==> j.mailbox == Mail(j.mailbox.sequence, test.initiator, cur)))
  }

  ghost predicate PairOk(i: Agent, j: Agent, test: Test, cur: nat) {
    InitiatorOk(i, test, cur) && ResponderOk(j, test, cur) && Coupled(i, j, test, cur)
  }

  /** The result of the current test is made of its own samples; and one that completed, or that was
      refused for its size, was reached by an initiator that is through with the test. */
  ghost predicate ResultOwn(i: Agent, test: Test, cur: nat, result: TestResult) {
    && OwnSamples(result.samples, test, cur)
    && (result.status == COMPLETE ==> On(i, test, cur) && i.seen == Rounds(test, cur))
    && (result.errorCode == 10 ==> !Fits(test, cur) && i.lastSeq == cur && !i.activity.Starting?)
  }

  /** The current test is in lockstep, and nobody else can write mail. */
  ghost predicate TestInStep(s: State, n: nat)
    requires |s.agents| == n && s.issued != []
  {
    var cur := |s.issued|; var test := s.issued[cur - 1];
    && test.initiator < n && test.responder < n && test.initiator != test.responder
    && (forall a | 0 <= a < n && a != test.initiator && a != test.responder :: Quiet(s.agents[a]))
    && PairOk(s.agents[test.initiator], s.agents[test.responder], test, cur)
    && (cur in s.outcomes ==> ResultOwn(s.agents[test.initiator], test, cur, s.outcomes[cur]))
  }

  /** A collected result of a clean test consists of that test's own samples. */
  ghost predicate CollectedOwn(s: State, c: Collected) {
    0 < c.commandSeq <= |s.clean| && s.clean[c.commandSeq - 1] ==> OwnSamples(c.result.samples, c.test, c.commandSeq)
  }

  /** The latest test was issued while every agent was quiet. */
  ghost predicate Clean(s: State) {
    0 < |s.issued| <= |s.clean| && s.clean[|s.issued| - 1]
  }

  ghost predicate InStep(s: State, n: nat) {
    && |s.agents| == n && |s.clean| == |s.issued|
    && (s.issued == [] ==> AllQuiet(s.agents))
    && (Clean(s) ==> TestInStep(s, n))
    && forall c | c in s.collected :: CollectedOwn(s, c)
  }

  // ----- steps of the two agents

  lemma WindowStep(w: nat, r: nat)
    ensures w * (r + 1) == w * r + w
  {
  }

  /** The two agents are still in order after a step of the initiator. */
  ghost predicate InitiatorKeeps(i: Agent, j: Agent, test: Test, cur: nat, action: Action)
    requires IsAgentAction(action) && AgentEnabled(i, action)
  {
    var j' := if Writes(i, action) then j.(mailbox := MailOf(test.initiator, i, action)) else j;
    PairOk(Stepped(test.initiator, i, action), j', test, cur)
  }

  ghost predicate ResponderKeeps(i: Agent, j: Agent, test: Test, cur: nat, action: Action)
    requires IsAgentAction(action) && AgentEnabled(j, action)
  {
    var i' := if Writes(j, action) then i.(mailbox := MailOf(test.responder, j, action)) else i;
    PairOk(i', Stepped(test.responder, j, action), test, cur)
  }

  lemma InitiatorStarts(i: Agent, j: Agent, test: Test, cur: nat, action: Action)
    requires PairOk(i, j, test, cur) && IsAgentAction(action) && AgentEnabled(i, action) && cur > 0
    requires test.initiator != test.responder
    requires i.inbox.commandSeq <= cur && (i.inbox.commandSeq == cur ==> i.inbox == CommandFor(test, cur, Initiator))
    requires i.activity.Starting? && i.lastSeq == cur ==> i.activity.cmd == CommandFor(test, cur, Initiator)
    requires action.Accept? || action.Reset?
    ensures InitiatorKeeps(i, j, test, cur, action)
  {
  }

  lemma InitiatorSends(i: Agent, j: Agent, test: Test, cur: nat, action: Action)
    requires PairOk(i, j, test, cur) && IsAgentAction(action) && AgentEnabled(i, action) && cur > 0
    requires test.initiator != test.responder
    requires i.inbox.commandSeq <= cur && (i.inbox.commandSeq == cur ==> i.inbox == CommandFor(test, cur, Initiator))
    requires i.activity.Starting? && i.lastSeq == cur ==> i.activity.cmd == CommandFor(test, cur, Initiator)
    requires action.WriteSlot? || action.Signal?
    ensures InitiatorKeeps(i, j, test, cur, action)
  {
    if action.Signal? {
      WindowStep(Window(test, cur), i.activity.round);
    }
  }

  lemma InitiatorReads(i: Agent, j: Agent, test: Test, cur: nat, action: Action)
    requires PairOk(i, j, test, cur) && IsAgentAction(action) && AgentEnabled(i, action) && cur > 0
    requires test.initiator != test.responder
    requires i.inbox.commandSeq <= cur && (i.inbox.commandSeq == cur ==> i.inbox == CommandFor(test, cur, Initiator))
    requires i.activity.Starting? && i.lastSeq == cur ==> i.activity.cmd == CommandFor(test, cur, Initiator)
    requires action.SeeReply?
    ensures InitiatorKeeps(i, j, test, cur, action)
  {
  }

  lemma InitiatorEnds(i: Agent, j: Agent, test: Test, cur: nat, action: Action)
    requires PairOk(i, j, test, cur) && IsAgentAction(action) && AgentEnabled(i, action) && cur > 0
    requires test.initiator != test.responder
    requires i.inbox.commandSeq <= cur && (i.inbox.commandSeq == cur ==> i.inbox == CommandFor(test, cur, Initiator))
    requires i.activity.Starting? && i.lastSeq == cur ==> i.activity.cmd == CommandFor(test, cur, Initiator)
    requires action.ReplyTimeout? || action.SignalTimeout? || action.Report?
    ensures InitiatorKeeps(i, j, test, cur, action)
  {
  }

  lemma InitiatorActs(i: Agent, test: Test, cur: nat, action: Action)
    requires InitiatorOk(i, test, cur) && IsAgentAction(action) && AgentEnabled(i, action)
    requires i.activity.Starting? && i.lastSeq == cur ==> i.activity.cmd == CommandFor(test, cur, Initiator)
    ensures !action.SeeSignal? && !action.Reply?
  {
  }

  /** A step of the initiator, seen from both agents. */
  lemma InitiatorStep(i: Agent, j: Agent, test: Test, cur: nat, action: Action)
    requires PairOk(i, j, test, cur) && IsAgentAction(action) && AgentEnabled(i, action) && cur > 0
    requires test.initiator != test.responder
    requires i.inbox.commandSeq <= cur && (i.inbox.commandSeq == cur ==> i.inbox == CommandFor(test, cur, Initiator))
    requires i.activity.Starting? && i.lastSeq == cur ==> i.activity.cmd == CommandFor(test, cur, Initiator)
    ensures InitiatorKeeps(i, j, test, cur, action)
  {
    InitiatorActs(i, test, cur, action);
    hide PairOk, Stepped, InitiatorKeeps;
    if action.Accept? || action.Reset? {
      InitiatorStarts(i, j, test, cur, action);
    } else if action.WriteSlot? || action.Signal? {
      InitiatorSends(i, j, test, cur, action);
    } else if action.SeeReply? {
      InitiatorReads(i, j, test, cur, action);
    } else {
      InitiatorEnds(i, j, test, cur, action);
    }
  }

  lemma ResponderStarts(i: Agent, j: Agent, test: Test, cur: nat, action: Action)
    requires PairOk(i, j, test, cur) && IsAgentAction(action) && AgentEnabled(j, action) && cur > 0
    requires test.initiator != test.responder
    requires j.inbox.commandSeq <= cur && (j.inbox.commandSeq == cur ==> j.inbox == CommandFor(test, cur, Responder))
    requires j.activity.Starting? && j.lastSeq == cur ==> j.activity.cmd == CommandFor(test, cur, Responder)
    requires action.Accept? || action.Reset? || action.Report?
    ensures ResponderKeeps(i, j, test, cur, action)
  {
  }

  lemma ResponderRounds(i: Agent, j: Agent, test: Test, cur: nat, action: Action)
    requires PairOk(i, j, test, cur) && IsAgentAction(action) && AgentEnabled(j, action) && cur > 0
    requires test.initiator != test.responder
    requires j.inbox.commandSeq <= cur && (j.inbox.commandSeq == cur ==> j.inbox == CommandFor(test, cur, Responder))
    requires j.activity.Starting? && j.lastSeq == cur ==> j.activity.cmd == CommandFor(test, cur, Responder)
    requires action.SeeSignal? || action.SignalTimeout?
    ensures ResponderKeeps(i, j, test, cur, action)
  {
  }

  lemma ResponderReplies(i: Agent, j: Agent, test: Test, cur: nat, action: Action)
    requires PairOk(i, j, test, cur) && IsAgentAction(action) && AgentEnabled(j, action) && action.Reply?
    ensures ResponderKeeps(i, j, test, cur, action)
  {
  }

  /** The responder ends an older test of its own. */
  lemma ResponderLeaves(i: Agent, j: Agent, test: Test, cur: nat, action: Action)
    requires PairOk(i, j, test, cur) && IsAgentAction(action) && AgentEnabled(j, action) && cur > 0
    requires test.initiator != test.responder
    requires action.SeeReply? || action.ReplyTimeout?
    ensures ResponderKeeps(i, j, test, cur, action)
  {
  }

  lemma ResponderActs(j: Agent, test: Test, cur: nat, action: Action)
    requires ResponderOk(j, test, cur) && IsAgentAction(action) && AgentEnabled(j, action)
    requires j.activity.Starting? && j.lastSeq == cur ==> j.activity.cmd == CommandFor(test, cur, Responder)
    ensures !action.WriteSlot? && !action.Signal?
  {
  }

  /** A step of the responder, seen from both agents. */
  lemma ResponderStep(i: Agent, j: Agent, test: Test, cur: nat, action: Action)
    requires PairOk(i, j, test, cur) && IsAgentAction(action) && AgentEnabled(j, action) && cur > 0
    requires test.initiator != test.responder
    requires j.inbox.commandSeq <= cur && (j.inbox.commandSeq == cur ==> j.inbox == CommandFor(test, cur, Responder))
    requires j.activity.Starting? && j.lastSeq == cur ==> j.activity.cmd == CommandFor(test, cur, Responder)
    ensures ResponderKeeps(i, j, test, cur, action)
  {
    ResponderActs(j, test, cur, action);
    hide PairOk, Stepped, ResponderKeeps;
    if action.Accept? || action.Reset? || action.Report? {
      ResponderStarts(i, j, test, cur, action);
    } else if action.SeeReply? || action.ReplyTimeout? {
      ResponderLeaves(i, j, test, cur, action);
    } else if action.Reply? {
      ResponderReplies(i, j, test, cur, action);
    } else {
      ResponderRounds(i, j, test, cur, action);
    }
  }

  // ----- steps of the system

  /** A quiet agent stays quiet, and writes no mail. */
  lemma QuietStep(a: nat, ag: Agent, action: Action)
    requires Quiet(ag) && IsAgentAction(action) && AgentEnabled(ag, action)
    ensures Quiet(Stepped(a, ag, action)) && !Writes(ag, action)
  {
  }

  /** What the consistency of a state says about the agent that plays a role in its last test. */
  lemma RoleOf(s: State, n: nat, role: Role)
    requires Consistent(s, n) && s.issued != []
    ensures var cur := |s.issued|; var test := s.issued[cur - 1];
      && test.initiator < n && test.responder < n && test.initiator != test.responder
      && var ag := s.agents[AgentFor(test, role)];
         && ag.inbox.commandSeq <= cur
         && (ag.inbox.commandSeq == cur ==> ag.inbox == CommandFor(test, cur, role))
         && (ag.activity.Starting? && ag.lastSeq == cur ==> ag.activity.cmd == CommandFor(test, cur, role))
  {
    var test := s.issued[|s.issued| - 1];
    assert ValidTest(test, n);
    var a := AgentFor(test, role);
    assert AgentOk(s.issued, s.outcomes, a, s.agents[a]);
  }

  /** A step of agent a that writes to nobody but `to`. */
  lemma StepTouches(s: State, action: Action, to: nat)
    requires IsAgentAction(action) && Enabled(s, action) && to < |s.agents| && to != action.a
    requires Writes(s.agents[action.a], action) ==> MailTo(action.a, s.agents[action.a], action) == to
    ensures var s', a := Apply(s, action), action.a;
      var ag := s.agents[a];
      && |s'.agents| == |s.agents| && s'.agents[a] == Stepped(a, ag, action)
      && s'.agents[to] == if Writes(ag, action) then s.agents[to].(mailbox := MailOf(a, ag, action)) else s.agents[to]
  {
  }

  lemma StepTouchesOnlySelf(s: State, action: Action)
    requires IsAgentAction(action) && Enabled(s, action) && !Writes(s.agents[action.a], action)
    ensures Apply(s, action).agents == s.agents[action.a := Stepped(action.a, s.agents[action.a], action)]
  {
  }

  /** The two agents of the last test after any agent's step. */
  lemma PairAfter(s: State, n: nat, action: Action)
    requires Consistent(s, n) && s.issued != [] && TestInStep(s, n) && IsAgentAction(action) && Enabled(s, action)
    ensures var s', cur := Apply(s, action), |s.issued|; var test := s.issued[cur - 1];
      && |s'.agents| == n && test.initiator < n && test.responder < n
      && PairOk(s'.agents[test.initiator], s'.agents[test.responder], test, cur)
  {
    var test := s.issued[|s.issued| - 1];
    if action.a == test.initiator {
      PairAfterInitiator(s, n, action);
    } else if action.a == test.responder {
      PairAfterResponder(s, n, action);
    } else {
      QuietStep(action.a, s.agents[action.a], action);
      StepTouchesOnlySelf(s, action);
    }
  }

  lemma PairAfterInitiator(s: State, n: nat, action: Action)
    requires Consistent(s, n) && s.issued != [] && TestInStep(s, n) && IsAgentAction(action) && Enabled(s, action)
    requires action.a == s.issued[|s.issued| - 1].initiator
    ensures var s', cur := Apply(s, action), |s.issued|; var test := s.issued[cur - 1];
      && |s'.agents| == n && test.responder < n
      && PairOk(s'.agents[test.initiator], s'.agents[test.responder], test, cur)
  {
    hide Stepped, Apply, Coupled, InitiatorOk, ResponderOk, Quiet, ResultOwn;
    var cur := |s.issued|;
    var test := s.issued[cur - 1];
    var i, j := s.agents[test.initiator], s.agents[test.responder];
    RoleOf(s, n, Initiator);
    InitiatorWritesToResponder(i, test, cur, action);
    InitiatorStep(i, j, test, cur, action);
    StepTouches(s, action, test.responder);
  }

  lemma PairAfterResponder(s: State, n: nat, action: Action)
    requires Consistent(s, n) && s.issued != [] && TestInStep(s, n) && IsAgentAction(action) && Enabled(s, action)
    requires action.a == s.issued[|s.issued| - 1].responder
    ensures var s', cur := Apply(s, action), |s.issued|; var test := s.issued[cur - 1];
      && |s'.agents| == n && test.initiator < n
      && PairOk(s'.agents[test.initiator], s'.agents[test.responder], test, cur)
  {
    hide Stepped, Apply, Coupled, InitiatorOk, ResponderOk, Quiet, ResultOwn;
    var cur := |s.issued|;
    var test := s.issued[cur - 1];
    var i, j := s.agents[test.initiator], s.agents[test.responder];
    RoleOf(s, n, Responder);
    ResponderWritesToInitiator(j, test, cur, action);
    ResponderStep(i, j, test, cur, action);
    StepTouches(s, action, test.initiator);
  }

  lemma InitiatorWritesToResponder(i: Agent, test: Test, cur: nat, action: Action)
    requires InitiatorOk(i, test, cur) && IsAgentAction(action) && AgentEnabled(i, action)
    ensures Writes(i, action) ==> MailTo(test.initiator, i, action) == test.responder
  {
  }

  lemma ResponderWritesToInitiator(j: Agent, test: Test, cur: nat, action: Action)
    requires ResponderOk(j, test, cur) && IsAgentAction(action) && AgentEnabled(j, action)
    ensures Writes(j, action) ==> MailTo(test.responder, j, action) == test.initiator
  {
  }

  /** Quiet agents stay quiet if no mail is written to them. */
  lemma OutsiderAfter(s: State, action: Action, b: nat)
    requires IsAgentAction(action) && Enabled(s, action) && b < |s.agents| && Quiet(s.agents[b])
    requires var ag := s.agents[action.a]; Writes(ag, action) ==> MailTo(action.a, ag, action) != b
    ensures b < |Apply(s, action).agents| && Quiet(Apply(s, action).agents[b])
  {
    MailboxKept(s, action, b);
    if b == action.a {
      QuietStep(b, s.agents[b], action);
    }
  }

  lemma MailboxKept(s: State, action: Action, b: nat)
    requires IsAgentAction(action) && Enabled(s, action) && b < |s.agents|
    requires var ag := s.agents[action.a]; Writes(ag, action) ==> MailTo(action.a, ag, action) != b
    ensures |Apply(s, action).agents| == |s.agents|
    ensures Apply(s, action).agents[b] ==
      if b == action.a then Stepped(b, s.agents[b], action) else s.agents[b]
  {
  }

  /** The agents of the current test write only to each other, and nobody else writes. */
  lemma WritesWithinPair(s: State, n: nat, action: Action)
    requires Consistent(s, n) && s.issued != [] && TestInStep(s, n) && IsAgentAction(action) && Enabled(s, action)
    ensures var test, ag := s.issued[|s.issued| - 1], s.agents[action.a];
      Writes(ag, action) ==>
        MailTo(action.a, ag, action) == test.initiator || MailTo(action.a, ag, action) == test.responder
  {
    var cur := |s.issued|;
    var test := s.issued[cur - 1];
    hide Consistent, InitiatorOk, ResponderOk, Coupled, Quiet, ResultOwn;
    if action.a == test.initiator {
      InitiatorWritesToResponder(s.agents[action.a], test, cur, action);
    } else if action.a == test.responder {
      ResponderWritesToInitiator(s.agents[action.a], test, cur, action);
    } else {
      QuietStep(action.a, s.agents[action.a], action);
    }
  }

  /** Once decided, the result of the current test stays as good as it was. */
  lemma ResultOwnStays(i: Agent, test: Test, cur: nat, result: TestResult, action: Action)
    requires InitiatorOk(i, test, cur) && ResultOwn(i, test, cur, result)
    requires i.inbox.commandSeq <= cur && IsAgentAction(action) && AgentEnabled(i, action)
    ensures ResultOwn(Stepped(test.initiator, i, action), test, cur, result)
  {
    if result.status == COMPLETE || result.errorCode == 10 {
      assert i.activity.Polling? || i.activity.Reporting?;
      assert !action.Accept?;
    }
  }

  lemma ResultOwnButMail(i: Agent, i': Agent, test: Test, cur: nat, result: TestResult)
    requires ResultOwn(i, test, cur, result) && SameButMail(i, i')
    ensures ResultOwn(i', test, cur, result)
  {
  }

  /** An initiator that has come to a result has come to one of its own samples. */
  lemma NewResultOwn(i: Agent, test: Test, cur: nat)
    requires InitiatorOk(i, test, cur) && i.lastSeq == cur && i.activity.Reporting?
    ensures ResultOwn(i, test, cur, i.activity.result)
  {
  }

  /** The result of the current test after any agent's step. */
  lemma ResultAfter(s: State, n: nat, action: Action)
    requires Consistent(s, n) && s.issued != [] && TestInStep(s, n) && IsAgentAction(action) && Enabled(s, action)
    ensures var s', cur := Apply(s, action), |s.issued|; var test := s.issued[cur - 1];
      && |s'.agents| == n && test.initiator < n
      && (cur in s'.outcomes ==> ResultOwn(s'.agents[test.initiator], test, cur, s'.outcomes[cur]))
  {
    InitiatorOf(s, n);
    AgentAfter(s, action, s.issued[|s.issued| - 1].initiator);
    hide Apply, Stepped, Consistent, TestInStep, ResultOwn;
    if |s.issued| in s.outcomes {
      OutcomesKept(s, n, action);
      OldResultAfter(s, n, action);
    } else if |s.issued| in Apply(s, action).outcomes {
      NewResultAfter(s, n, action);
    }
  }

  lemma OutcomesKept(s: State, n: nat, action: Action)
    requires Consistent(s, n) && IsAgentAction(action) && Enabled(s, action)
    ensures Grows(s.outcomes, Apply(s, action).outcomes)
  {
    AgentStepMoves(s, n, action);
  }

  /** What the current test says about its initiator. */
  lemma InitiatorOf(s: State, n: nat)
    requires Consistent(s, n) && s.issued != [] && TestInStep(s, n)
    ensures var cur := |s.issued|; var test := s.issued[cur - 1];
      && test.initiator < n && InitiatorOk(s.agents[test.initiator], test, cur)
      && s.agents[test.initiator].inbox.commandSeq <= cur
      && (cur in s.outcomes ==> ResultOwn(s.agents[test.initiator], test, cur, s.outcomes[cur]))
  {
    RoleOf(s, n, Initiator);
    hide InitiatorOk, ResponderOk, Coupled, ResultOwn, Quiet, AgentOk;
  }

  /** An agent after a step of any agent. */
  lemma AgentAfter(s: State, action: Action, b: nat)
    requires IsAgentAction(action) && Enabled(s, action) && b < |s.agents|
    ensures |Apply(s, action).agents| == |s.agents|
    ensures var ag := if b == action.a then Stepped(b, s.agents[b], action) else s.agents[b];
      SameButMail(ag, Apply(s, action).agents[b])
  {
    AgentStepShape(s, action);
  }

  /** A result that is decided already. */
  lemma OldResultAfter(s: State, n: nat, action: Action)
    requires Consistent(s, n) && s.issued != [] && TestInStep(s, n) && IsAgentAction(action) && Enabled(s, action)
    requires |s.issued| in s.outcomes
    ensures var s', cur := Apply(s, action), |s.issued|; var test := s.issued[cur - 1];
      test.initiator < |s'.agents| && ResultOwn(s'.agents[test.initiator], test, cur, s.outcomes[cur])
  {
    var cur := |s.issued|;
    var test := s.issued[cur - 1];
    var i := s.agents[test.initiator];
    InitiatorOf(s, n);
    AgentAfter(s, action, test.initiator);
    hide Apply, Stepped, Consistent, TestInStep, InitiatorOk, ResultOwn;
    if action.a == test.initiator {
      ResultOwnStays(i, test, cur, s.outcomes[cur], action);
    }
    var next := if action.a == test.initiator then Stepped(test.initiator, i, action) else i;
    ResultOwnButMail(next, Apply(s, action).agents[test.initiator], test, cur, s.outcomes[cur]);
  }

  /** The step that decides the result. */
  lemma NewResultAfter(s: State, n: nat, action: Action)
    requires Consistent(s, n) && s.issued != [] && TestInStep(s, n) && IsAgentAction(action) && Enabled(s, action)
    requires |s.issued| !in s.outcomes && |s.issued| in Apply(s, action).outcomes
    ensures var s', cur := Apply(s, action), |s.issued|; var test := s.issued[cur - 1];
      test.initiator < |s'.agents| && ResultOwn(s'.agents[test.initiator], test, cur, s'.outcomes[cur])
  {
    var cur, a := |s.issued|, action.a;
    var test := s.issued[cur - 1];
    PairAfter(s, n, action);
    NewOutcomeAt(s, n, action, cur);
    hide Apply, Consistent, TestInStep, ResultOwn, Coupled, ResponderOk, InitiatorOk;
    CurrentSeq(Apply(s, action).agents[a], test, cur);
    NewResultOwn(Apply(s, action).agents[a], test, cur);
  }

  lemma RoleOfInitiator(s: State, n: nat)
    requires Consistent(s, n) && s.issued != []
    ensures var i := s.issued[|s.issued| - 1].initiator; i < n && s.agents[i].inbox.commandSeq <= |s.issued|
  {
    RoleOf(s, n, Initiator);
  }

  /** A new outcome is the one its initiator is about to report. */
  lemma NewOutcomeAt(s: State, n: nat, action: Action, k: nat)
    requires Consistent(s, n) && IsAgentAction(action) && Enabled(s, action)
    requires k in Apply(s, action).outcomes && k !in s.outcomes && 0 < k <= |s.issued|
    ensures var s', a := Apply(s, action), action.a;
      && a < |s'.agents| && s.issued[k - 1].initiator == a && k <= s'.agents[a].lastSeq
      && s'.agents[a].activity == Reporting(s'.outcomes[k])
  {
    AgentStepShape(s, action);
    AgentStepMoves(s, n, action);
    var s', a := Apply(s, action), action.a;
    var next := Stepped(a, s.agents[a], action);
    hide Apply, Stepped, Consistent, AgentOk;
    NewOutcomeReported(s.outcomes, next, s'.agents[a], k);
    assert OutcomeOf(s'.issued, s'.outcomes, k, a, s'.outcomes[k]);
  }

  lemma NewOutcomeReported(outcomes: map<nat, TestResult>, next: Agent, ag: Agent, k: nat)
    requires k in NewOutcomes(outcomes, next) && k !in outcomes && SameButMail(next, ag)
    ensures ag.activity == Reporting(NewOutcomes(outcomes, next)[k])
  {
  }

  lemma CurrentSeq(i: Agent, test: Test, cur: nat)
    requires InitiatorOk(i, test, cur) && cur <= i.lastSeq
    ensures i.lastSeq == cur
  {
  }

  lemma RecordsStay(s: State, action: Action)
    requires IsAgentAction(action) && Enabled(s, action)
    ensures var s' := Apply(s, action); s'.clean == s.clean && s'.issued == s.issued && s'.collected == s.collected
  {
  }

  /** Agents and records after an agent's step; enough to keep everything in step. */
  lemma AfterInStep(s: State, s': State, n: nat)
    requires InStep(s, n) && |s'.agents| == n
    requires s'.clean == s.clean && s'.issued == s.issued && s'.collected == s.collected
    requires s.issued == [] ==> AllQuiet(s'.agents)
    requires Clean(s) ==>
      var cur := |s.issued|; var test := s.issued[cur - 1];
      && (forall a | 0 <= a < n && a != test.initiator && a != test.responder :: Quiet(s'.agents[a]))
      && PairOk(s'.agents[test.initiator], s'.agents[test.responder], test, cur)
      && (cur in s'.outcomes ==> ResultOwn(s'.agents[test.initiator], test, cur, s'.outcomes[cur]))
    ensures InStep(s', n)
  {
    hide Quiet, PairOk, ResultOwn, OwnSamples;
    forall c | c in s'.collected
      ensures CollectedOwn(s', c)
    {
      assert CollectedOwn(s, c);
    }
  }

  /** Agents outside the current test stay quiet. */
  lemma OutsidersAfter(s: State, n: nat, action: Action)
    requires Consistent(s, n) && s.issued != [] && TestInStep(s, n) && IsAgentAction(action) && Enabled(s, action)
    ensures var s', test := Apply(s, action), s.issued[|s.issued| - 1];
      |s'.agents| == n
      && forall b | 0 <= b < n && b != test.initiator && b != test.responder :: Quiet(s'.agents[b])
  {
    AgentStepShape(s, action);
    WritesWithinPair(s, n, action);
    var test := s.issued[|s.issued| - 1];
    hide Apply, Stepped, Consistent, Quiet, PairOk, ResultOwn;
    forall b | 0 <= b < n && b != test.initiator && b != test.responder
      ensures Quiet(Apply(s, action).agents[b])
    {
      OutsiderAfter(s, action, b);
    }
  }

  /** While everybody is quiet an agent's step leaves everybody quiet. */
  lemma AllQuietAfter(s: State, action: Action)
    requires IsAgentAction(action) && Enabled(s, action) && AllQuiet(s.agents)
    ensures AllQuiet(Apply(s, action).agents)
  {
    var s' := Apply(s, action);
    AgentStepShape(s, action);
    QuietStep(action.a, s.agents[action.a], action);
    hide Apply, Stepped, Quiet;
    forall b | 0 <= b < |s'.agents|
      ensures Quiet(s'.agents[b])
    {
      OutsiderAfter(s, action, b);
    }
  }

  lemma AgentStepInStep(s: State, n: nat, action: Action)
    requires Consistent(s, n) && InStep(s, n) && IsAgentAction(action) && Enabled(s, action)
    ensures InStep(Apply(s, action), n)
  {
    RecordsStay(s, action);
    AgentStepShape(s, action);
    hide Apply, Stepped, Consistent, Quiet, PairOk, ResultOwn;
    if Clean(s) {
      PairAfter(s, n, action);
      ResultAfter(s, n, action);
      OutsidersAfter(s, n, action);
    } else if s.issued == [] {
      AllQuietAfter(s, action);
    }
    hide InStep;
    AfterInStep(s, Apply(s, action), n);
  }

  // ----- steps of the controller

  /** A test issued while everybody is quiet starts in lockstep. */
  lemma FreshTestPair(s: State, n: nat, test: Test)
    requires Consistent(s, n) && AllQuiet(s.agents) && ValidTest(test, n)
    ensures var cur := |s.issued| + 1;
      var i, j := s.agents[test.initiator], s.agents[test.responder];
      && PairOk(i, j.(inbox := CommandFor(test, cur, Responder)), test, cur) && PairOk(i, j, test, cur)
      && cur !in s.outcomes
  {
    var cur := |s.issued| + 1;
    var i, j := s.agents[test.initiator], s.agents[test.responder];
    assert AgentOk(s.issued, s.outcomes, test.initiator, i);
    assert AgentOk(s.issued, s.outcomes, test.responder, j);
    assert Quiet(i) && Quiet(j);
    assert cur in s.outcomes ==> OutcomeOk(s, cur);
    assert Before(i, cur) && Before(j, cur) && Before(j.(inbox := CommandFor(test, cur, Responder)), cur);
  }

  lemma InboxKeepsPair(i: Agent, j: Agent, test: Test, cur: nat)
    requires PairOk(i, j, test, cur)
    ensures PairOk(i.(inbox := CommandFor(test, cur, Initiator)), j, test, cur)
  {
  }

  lemma InboxKeepsResult(i: Agent, test: Test, cur: nat, inbox: Command, result: TestResult)
    requires ResultOwn(i, test, cur, result)
    ensures ResultOwn(i.(inbox := inbox), test, cur, result)
  {
  }

  lemma IssueKeepsCollected(s: State, n: nat, action: Action, c: Collected)
    requires Consistent(s, n) && InStep(s, n) && Enabled(s, action) && action.IssueToResponder? && c in s.collected
    ensures CollectedOwn(Apply(s, action), c)
  {
    assert CollectedOk(s, c) && CollectedOwn(s, c);
    assert Apply(s, action).clean[c.commandSeq - 1] == s.clean[c.commandSeq - 1];
  }

  lemma IssueShape(s: State, action: Action)
    requires Enabled(s, action) && action.IssueToResponder?
    ensures var s', test := Apply(s, action), action.test;
      && s'.issued == s.issued + [test] && s'.clean == s.clean + [AllQuiet(s.agents)] && s'.outcomes == s.outcomes
      && s'.collected == s.collected
      && (s'.agents == s.agents
          || (test.responder < |s.agents|
              && s'.agents == Deliver(s, test.responder, CommandFor(test, |s.issued| + 1, Responder))))
  {
  }

  lemma FreshTestInStep(s: State, s': State, n: nat, test: Test)
    requires Consistent(s, n) && AllQuiet(s.agents) && ValidTest(test, n)
    requires s'.issued == s.issued + [test] && s'.outcomes == s.outcomes
    requires s'.agents == s.agents
      || s'.agents == Deliver(s, test.responder, CommandFor(test, |s.issued| + 1, Responder))
    ensures |s'.agents| == n && TestInStep(s', n)
  {
    FreshTestPair(s, n, test);
    hide PairOk, ResultOwn, Quiet, Consistent;
    assert forall a | 0 <= a < n :: Quiet(s.agents[a]);
  }

  lemma IssueInStep(s: State, n: nat, action: Action)
    requires Consistent(s, n) && InStep(s, n) && Enabled(s, action) && action.IssueToResponder?
    ensures InStep(Apply(s, action), n)
  {
    var s' := Apply(s, action);
    IssueShape(s, action);
    forall c | c in s'.collected
      ensures CollectedOwn(s', c)
    {
      IssueKeepsCollected(s, n, action, c);
    }
    hide Apply, Consistent, CollectedOwn, AllQuiet, TestInStep;
    if AllQuiet(s.agents) {
      FreshTestInStep(s, s', n, action.test);
    }
  }

  /** Delivering the initiator's command, collecting or giving up leaves the pair in order. */
  lemma ControllerPair(s: State, n: nat, action: Action)
    requires Consistent(s, n) && Enabled(s, action) && !IsAgentAction(action) && !action.IssueToResponder?
    ensures s.issued != []
    ensures var s', test := Apply(s, action), s.issued[|s.issued| - 1];
      && test.initiator < n && s'.issued == s.issued && s'.clean == s.clean && s'.outcomes == s.outcomes
      && |s'.agents| == n && (forall b | 0 <= b < n && b != test.initiator :: s'.agents[b] == s.agents[b])
      && (s'.agents[test.initiator] == s.agents[test.initiator]
          || s'.agents[test.initiator] == s.agents[test.initiator].(inbox := CommandFor(test, |s.issued|, Initiator)))
  {
    RoleOf(s, n, Initiator);
  }

  lemma ControllerKeepsTest(s: State, n: nat, action: Action)
    requires Consistent(s, n) && Enabled(s, action) && !IsAgentAction(action) && !action.IssueToResponder?
    requires s.issued != [] && TestInStep(s, n)
    ensures |Apply(s, action).agents| == n && Apply(s, action).issued == s.issued && TestInStep(Apply(s, action), n)
  {
    ControllerPair(s, n, action);
    hide Apply, Consistent, TestInStep;
    InboxKeepsTest(s, Apply(s, action), n);
  }

  /** Delivering a command to the initiator of the current test changes nothing else. */
  lemma InboxKeepsTest(s: State, s': State, n: nat)
    requires |s.agents| == n && s.issued != [] && TestInStep(s, n)
    requires s'.issued == s.issued && s'.outcomes == s.outcomes && |s'.agents| == n
    requires forall b | 0 <= b < n && b != s.issued[|s.issued| - 1].initiator :: s'.agents[b] == s.agents[b]
    requires var i := s.issued[|s.issued| - 1].initiator;
      i < n && (s'.agents[i] == s.agents[i]
                || s'.agents[i] == s.agents[i].(inbox := CommandFor(s.issued[|s.issued| - 1], |s.issued|, Initiator)))
    ensures TestInStep(s', n)
  {
    hide PairOk, ResultOwn, Quiet;
    var cur := |s.issued|;
    var test := s.issued[cur - 1];
    var i, j := s.agents[test.initiator], s.agents[test.responder];
    InboxKeepsPair(i, j, test, cur);
    if cur in s.outcomes {
      InboxKeepsResult(i, test, cur, CommandFor(test, cur, Initiator), s.outcomes[cur]);
    }
  }

  /** What a collection takes is made of the test's own samples, if the test was clean. */
  lemma CollectOwn(s: State, n: nat)
    requires Consistent(s, n) && InStep(s, n) && Enabled(s, Collect)
    ensures var c := Collected(|s.issued|, s.phase.test, s.slots[s.phase.test.initiator]);
      s.issued != [] && Apply(s, Collect).collected == s.collected + [c] && CollectedOwn(s, c)
  {
    assert SlotOk(s, s.phase.test.initiator);
  }

  lemma CollectedAfter(s: State, n: nat, action: Action, c: Collected)
    requires Consistent(s, n) && InStep(s, n) && Enabled(s, action) && !IsAgentAction(action)
    requires !action.IssueToResponder? && c in Apply(s, action).collected
    ensures CollectedOwn(s, c)
  {
    if action.Collect? {
      CollectOwn(s, n);
    }
    hide Consistent, TestInStep;
    assert c in s.collected ==> CollectedOwn(s, c);
  }

  lemma ControllerInStep(s: State, n: nat, action: Action)
    requires Consistent(s, n) && InStep(s, n) && Enabled(s, action)
    requires !IsAgentAction(action) && !action.IssueToResponder?
    ensures InStep(Apply(s, action), n)
  {
    var s' := Apply(s, action);
    ControllerPair(s, n, action);
    hide Apply, TestInStep, Consistent;
    if Clean(s) {
      ControllerKeepsTest(s, n, action);
    }
    forall c | c in s'.collected
      ensures CollectedOwn(s', c)
    {
      CollectedAfter(s, n, action, c);
    }
    hide CollectedOwn;
  }

  lemma StepInStep(s: State, n: nat, action: Action)
    requires Consistent(s, n) && InStep(s, n) && Enabled(s, action)
    ensures Consistent(Apply(s, action), n) && InStep(Apply(s, action), n)
  {
    StepConsistent(s, n, action);
    hide Consistent, InStep, Apply;
    if IsAgentAction(action) {
      AgentStepInStep(s, n, action);
    } else if action.IssueToResponder? {
      IssueInStep(s, n, action);
    } else {
      ControllerInStep(s, n, action);
    }
  }

  lemma {:induction false} RunInStep(n: nat, s: State, actions: seq<Action>, s': State)
    requires Consistent(s, n) && InStep(s, n) && Runs(s, actions, s')
    ensures Consistent(s', n) && InStep(s', n)
    decreases |actions|
  {
    if actions != [] {
      var t := Apply(s, actions[0]);
      StepInStep(s, n, actions[0]);
      RunInStep(n, t, actions[1..], s');
    }
  }

  lemma ReachableInStep(n: nat, s: State)
    requires Reachable(n, s)
    ensures Consistent(s, n) && InStep(s, n)
  {
    var actions :| Runs(Start(n), actions, s);
    StartConsistent(n);
    RunInStep(n, Start(n), actions, s);
  }

  // ----- the theorems

  /** In every reachable state a clean test is in lockstep. */
  lemma CleanPair(n: nat, s: State)
    requires Reachable(n, s) && Clean(s)
    ensures var cur := |s.issued|; var test := s.issued[cur - 1];
      && test.initiator < |s.agents| && test.responder < |s.agents|
      && PairOk(s.agents[test.initiator], s.agents[test.responder], test, cur)
  {
    ReachableInStep(n, s);
    hide Reachable, Consistent, PairOk, ResultOwn, Quiet;
  }

  /** A test issued while everybody was quiet, in every reachable state until the next test: the
      responder has answered as many rounds as the initiator has completed, or one more; and it has
      never seen more signals than were sent. */
  lemma RoundsInLockstep(n: nat, s: State)
    requires Reachable(n, s) && Clean(s)
    ensures var cur := |s.issued|; var test := s.issued[cur - 1];
      && test.initiator < |s.agents| && test.responder < |s.agents|
      && var i, j := s.agents[test.initiator], s.agents[test.responder];
         && SeenBy(i, test, cur) <= AnsweredBy(j, test, cur) <= SeenBy(i, test, cur) + 1
         && SeenBy(j, test, cur) <= SentBy(i, test, cur) <= SeenBy(i, test, cur) + 1
  {
    CleanPair(n, s);
    hide Reachable;
    var cur := |s.issued|;
    var test := s.issued[cur - 1];
    PairRounds(s.agents[test.initiator], s.agents[test.responder], test, cur);
  }

  lemma PairRounds(i: Agent, j: Agent, test: Test, cur: nat)
    requires PairOk(i, j, test, cur)
    ensures SeenBy(i, test, cur) <= AnsweredBy(j, test, cur) <= SeenBy(i, test, cur) + 1
    ensures SeenBy(j, test, cur) <= SentBy(i, test, cur) <= SeenBy(i, test, cur) + 1
  {
  }

  /** Whatever the initiator of a clean test, waiting in round r, can read next is the responder's
      reply to that round of that test; and whatever the responder, waiting in round r, can read is
      the initiator's signal. */
  lemma NextMailIsOwn(n: nat, s: State)
    requires Reachable(n, s) && Clean(s)
    ensures var cur := |s.issued|; var test := s.issued[cur - 1];
      && test.initiator < |s.agents| && test.responder < |s.agents|
      && var i, j := s.agents[test.initiator], s.agents[test.responder];
         && (i.lastSeq == cur && i.activity.AwaitingReply? && i.mailbox.sequence > i.lastSeen ==>
               i.mailbox == Mail(i.activity.round + 1, test.responder, cur))
         && (j.activity.AwaitingSignal? && j.mailbox.sequence > j.lastSeen ==>
               j.mailbox == Mail(j.activity.round + 1, test.initiator, cur))
  {
    CleanPair(n, s);
    hide Reachable, PairOk;
    var cur := |s.issued|;
    var test := s.issued[cur - 1];
    PairMail(s.agents[test.initiator], s.agents[test.responder], test, cur);
  }

  lemma PairMail(i: Agent, j: Agent, test: Test, cur: nat)
    requires PairOk(i, j, test, cur)
    ensures i.lastSeq == cur && i.activity.AwaitingReply? && i.mailbox.sequence > i.lastSeen ==>
      i.mailbox == Mail(i.activity.round + 1, test.responder, cur)
    ensures j.activity.AwaitingSignal? && j.mailbox.sequence > j.lastSeen ==>
      j.mailbox == Mail(j.activity.round + 1, test.initiator, cur)
  {
  }

  /** Every sample of every collected result of a clean test spans one signal and its own reply. */
  lemma SamplesAreOwn(n: nat, s: State, c: Collected, k: nat)
    requires Reachable(n, s) && c in s.collected && k < |c.result.samples|
    requires 0 < c.commandSeq <= |s.clean| && s.clean[c.commandSeq - 1]
    ensures c.result.samples[k].round == c.test.warmup + k
    ensures c.result.samples[k].reply == Mail(c.result.samples[k].round + 1, c.test.responder, c.commandSeq)
  {
    ReachableInStep(n, s);
    assert CollectedOwn(s, c);
  }

  /** The window of a bandwidth test has one owner at a time. When the receiver can see the signal
      of round r, all slot writes of rounds 0 to r are done; while it holds an unanswered signal the
      sender writes no slots; and the sender writes into window r only after the answer to round
      r - 1 has reached its mailbox. */
  lemma WindowHasOneOwner(n: nat, s: State)
    requires Reachable(n, s) && Clean(s)
    ensures var cur := |s.issued|; var test := s.issued[cur - 1];
      && test.initiator < |s.agents| && test.responder < |s.agents|
      && var i, j := s.agents[test.initiator], s.agents[test.responder];
         && (j.activity.AwaitingSignal? && j.mailbox.sequence > j.lastSeen ==>
               !i.activity.Sending? && i.slotWrites >= Window(test, cur) * (j.activity.round + 1))
         && (j.activity.Replying? ==> !i.activity.Sending?)
         && (i.activity.Sending? && i.activity.round > 0 ==> i.mailbox == Mail(i.activity.round, test.responder, cur))
  {
    CleanPair(n, s);
    hide Reachable, PairOk;
    var cur := |s.issued|;
    var test := s.issued[cur - 1];
    PairWindow(s.agents[test.initiator], s.agents[test.responder], test, cur);
  }

  lemma PairWindow(i: Agent, j: Agent, test: Test, cur: nat)
    requires PairOk(i, j, test, cur)
    ensures j.activity.AwaitingSignal? && j.mailbox.sequence > j.lastSeen ==>
      !i.activity.Sending? && i.slotWrites >= Window(test, cur) * (j.activity.round + 1)
    ensures j.activity.Replying? ==> !i.activity.Sending?
    ensures i.activity.Sending? && i.activity.round > 0 ==> i.mailbox == Mail(i.activity.round, test.responder, cur)
  {
  }

  /** While an agent writes slots into another's buffer in a clean test, that one prepares no message
      there: it neither sends nor answers, and reports at most the result of an older test. */
  lemma SlotsMeetNoMessage(n: nat, s: State, x: nat, y: nat)
    requires Reachable(n, s) && Clean(s) && x < |s.agents| && y < |s.agents|
    requires s.agents[y].activity.Sending? && s.agents[y].activity.cmd.peer == x
    ensures !s.agents[x].activity.Sending? && !s.agents[x].activity.Replying?
    ensures s.agents[x].activity.Reporting? ==> s.agents[x].activity.result.commandSeq < |s.issued|
  {
    ReachableInStep(n, s);
    var cur := |s.issued|;
    var test := s.issued[cur - 1];
    assert AgentOk(s.issued, s.outcomes, x, s.agents[x]);
    hide Reachable, Consistent, ResultOwn;
    assert y == test.initiator by { hide Coupled, InitiatorOk; }
    SenderAlone(s.agents[y], s.agents[test.responder], test, cur);
  }

  lemma SenderAlone(i: Agent, j: Agent, test: Test, cur: nat)
    requires PairOk(i, j, test, cur) && i.activity.Sending?
    ensures i.activity.cmd.peer == test.responder
    ensures !j.activity.Sending? && !j.activity.Replying? && (j.activity.Reporting? ==> j.lastSeq < cur)
  {
  }

  // ----- the next test

  /** k tests have been issued and nothing is under way, everybody being quiet; or the next test has
      been issued, while everybody was quiet. */
  ghost predicate NextClean(s: State, k: nat) {
    && k <= |s.issued| == |s.clean|
    && if |s.issued| == k then s.phase.Idle? && AllQuiet(s.agents) else s.clean[k]
  }

  lemma StepNextClean(s: State, n: nat, action: Action, k: nat)
    requires Consistent(s, n) && NextClean(s, k) && Enabled(s, action)
    ensures NextClean(Apply(s, action), k)
  {
    if IsAgentAction(action) {
      RecordsStay(s, action);
      AgentStepShape(s, action);
      hide Apply, Stepped, Consistent;
      if |s.issued| == k {
        AllQuietAfter(s, action);
      }
    } else if action.IssueToResponder? {
      IssueShape(s, action);
    } else {
      ControllerPair(s, n, action);
    }
  }

  lemma {:induction false} RunNextClean(n: nat, s: State, actions: seq<Action>, s': State, k: nat)
    requires Consistent(s, n) && InStep(s, n) && NextClean(s, k) && Runs(s, actions, s')
    ensures Consistent(s', n) && InStep(s', n) && NextClean(s', k)
    decreases |actions|
  {
    hide Consistent, InStep, NextClean;
    if actions != [] {
      StepInStep(s, n, actions[0]);
      StepNextClean(s, n, actions[0], k);
      hide Apply, Enabled;
      RunNextClean(n, Apply(s, actions[0]), actions[1..], s', k);
    }
  }

  /** Every result that is ever collected of the next test consists of that test's own samples. */
  ghost predicate NextTestIsOwn(s: State) {
    forall s', c |
      LeadsTo(s, s') && c in s'.collected && c.commandSeq == |s.issued| + 1
      :: OwnSamples(c.result.samples, c.test, c.commandSeq)
  }

  /** With every agent quiet, the next test is undisturbed in every run. */
  lemma QuietNextIsOwn(n: nat, s: State)
    requires Reachable(n, s) && s.phase.Idle? && AllQuiet(s.agents)
    ensures NextTestIsOwn(s)
  {
    ReachableInStep(n, s);
    var k := |s.issued|;
    hide AllQuiet, Consistent, Reachable;
    forall s', c | LeadsTo(s, s') && c in s'.collected && c.commandSeq == k + 1
      ensures OwnSamples(c.result.samples, c.test, c.commandSeq)
    {
      var actions :| Runs(s, actions, s');
      RunNextClean(n, s, actions, s', k);
      NextCollectedOwn(n, s', k, c);
    }
  }

  lemma NextCollectedOwn(n: nat, s: State, k: nat, c: Collected)
    requires Consistent(s, n) && InStep(s, n) && NextClean(s, k) && c in s.collected && c.commandSeq == k + 1
    ensures OwnSamples(c.result.samples, c.test, c.commandSeq)
  {
    assert CollectedOk(s, c) && CollectedOwn(s, c);
  }

  // ----- which tests are clean

  /** After a clean test has completed, or was refused for its size, every agent is quiet. */
  lemma SettledIsQuiet(s: State, n: nat)
    requires Consistent(s, n) && InStep(s, n) && Clean(s) && |s.issued| in s.outcomes
    requires s.outcomes[|s.issued|].status == COMPLETE || s.outcomes[|s.issued|].errorCode == 10
    ensures AllQuiet(s.agents)
  {
    var cur := |s.issued|;
    var test := s.issued[cur - 1];
    RoleOf(s, n, Initiator);
    RoleOf(s, n, Responder);
    hide Consistent;
    PairQuiet(s.agents[test.initiator], s.agents[test.responder], test, cur, s.outcomes[cur]);
  }

  lemma PairQuiet(i: Agent, j: Agent, test: Test, cur: nat, result: TestResult)
    requires PairOk(i, j, test, cur) && ResultOwn(i, test, cur, result)
    requires result.status == COMPLETE || result.errorCode == 10
    requires i.inbox.commandSeq <= cur && j.inbox.commandSeq <= cur
    requires j.inbox.commandSeq == cur ==> j.inbox == CommandFor(test, cur, Responder)
    requires j.activity.Starting? && j.lastSeq == cur ==> j.activity.cmd == CommandFor(test, cur, Responder)
    ensures Quiet(i) && Quiet(j)
  {
    assert Harmless(CommandFor(test, cur, Responder)) == Harmless(CommandFor(test, cur, Initiator));
  }

  /** What the controller can see suffices: when the latest initiator's result slot says that the
      latest test, a clean one, has completed (or was refused for its size), every agent is quiet, so
      that the next test is clean as well. */
  lemma CompleteMeansQuiet(n: nat, s: State)
    requires Reachable(n, s) && Clean(s)
    ensures var test := s.issued[|s.issued| - 1];
      && test.initiator < |s.slots|
      && var slot := s.slots[test.initiator];
         slot.commandSeq == |s.issued| && (slot.status == COMPLETE || slot.errorCode == 10) ==> AllQuiet(s.agents)
  {
    ReachableInStep(n, s);
    var test := s.issued[|s.issued| - 1];
    RoleOf(s, n, Initiator);
    assert SlotOk(s, test.initiator);
    var slot := s.slots[test.initiator];
    if slot.commandSeq == |s.issued| && (slot.status == COMPLETE || slot.errorCode == 10) {
      SettledIsQuiet(s, n);
    }
  }

  /** The controller has collected a completed result of test k. */
  ghost predicate Completed(s: State, k: nat) {
    exists c :: c in s.collected && c.commandSeq == k && c.result.status == COMPLETE
  }

  ghost predicate CompletedBefore(s: State, k: nat) {
    forall j: nat | 0 < j < k :: Completed(s, j)
  }

  /** Each test before which all tests completed was clean. */
  ghost predicate CleanWhileComplete(s: State) {
    |s.clean| == |s.issued| && forall k: nat | 0 < k <= |s.issued| && CompletedBefore(s, k) :: s.clean[k - 1]
  }

  lemma CompletedOutcome(s: State, n: nat, k: nat)
    requires Consistent(s, n) && Completed(s, k)
    ensures k in s.outcomes && s.outcomes[k].status == COMPLETE
  {
    var c :| c in s.collected && c.commandSeq == k && c.result.status == COMPLETE;
    assert CollectedOk(s, c);
  }

  lemma IssueCleanWhileComplete(s: State, n: nat, action: Action)
    requires Consistent(s, n) && InStep(s, n) && CleanWhileComplete(s) && Enabled(s, action)
    requires action.IssueToResponder?
    ensures CleanWhileComplete(Apply(s, action))
  {
    var s', cur := Apply(s, action), |s.issued|;
    assert s'.collected == s.collected && s'.clean == s.clean + [AllQuiet(s.agents)] && |s'.issued| == cur + 1;
    hide Consistent, InStep, Apply, AllQuiet, Clean;
    forall k: nat
      ensures CompletedBefore(s', k) <==> CompletedBefore(s, k)
    {
      SameCollected(s, s', k);
    }
    if CompletedBefore(s, cur + 1) {
      NextIsClean(s, n);
    }
    hide CompletedBefore;
    forall k: nat | 0 < k <= cur + 1 && CompletedBefore(s', k)
      ensures s'.clean[k - 1]
    {
    }
  }

  lemma SameCollected(s: State, s': State, k: nat)
    requires s'.collected == s.collected
    ensures CompletedBefore(s', k) <==> CompletedBefore(s, k)
  {
    assert forall j: nat :: Completed(s', j) <==> Completed(s, j);
  }

  /** When all tests so far have completed, every agent is quiet. */
  lemma NextIsClean(s: State, n: nat)
    requires Consistent(s, n) && InStep(s, n) && CleanWhileComplete(s) && CompletedBefore(s, |s.issued| + 1)
    ensures AllQuiet(s.agents)
  {
    var cur := |s.issued|;
    hide Consistent, AllQuiet;
    if cur == 0 {
      NothingIssuedQuiet(s, n);
    } else {
      assert Completed(s, cur) && CompletedBefore(s, cur);
      CompletedOutcome(s, n, cur);
      SettledIsQuiet(s, n);
    }
  }

  lemma NothingIssuedQuiet(s: State, n: nat)
    requires InStep(s, n) && s.issued == []
    ensures AllQuiet(s.agents)
  {
  }

  /** A step that issues nothing collects at most a result of the latest test, so no test becomes
      the successor of completed ones that was not before. */
  lemma OtherCleanWhileComplete(s: State, n: nat, action: Action)
    requires Consistent(s, n) && InStep(s, n) && CleanWhileComplete(s) && Enabled(s, action)
    requires !action.IssueToResponder?
    ensures CleanWhileComplete(Apply(s, action))
  {
    var s' := Apply(s, action);
    if IsAgentAction(action) {
      RecordsStay(s, action);
    } else {
      ControllerPair(s, n, action);
    }
    CollectedGrows(s, action);
    hide Consistent, InStep, Apply;
    forall k: nat | 0 < k <= |s.issued| && CompletedBefore(s', k)
      ensures s.clean[k - 1]
    {
      forall j: nat | 0 < j < k
        ensures Completed(s, j)
      {
        assert Completed(s', j);
        var c :| c in s'.collected && c.commandSeq == j && c.result.status == COMPLETE;
        assert c in s.collected;
      }
      assert CompletedBefore(s, k);
    }
  }

  lemma CollectedGrows(s: State, action: Action)
    requires Enabled(s, action)
    ensures forall c | c in Apply(s, action).collected :: c in s.collected || c.commandSeq == |s.issued|
  {
  }

  lemma {:induction false} RunCleanWhileComplete(n: nat, s: State, actions: seq<Action>, s': State)
    requires Consistent(s, n) && InStep(s, n) && CleanWhileComplete(s) && Runs(s, actions, s')
    ensures CleanWhileComplete(s')
    decreases |actions|
  {
    if actions != [] {
      var action := actions[0];
      var t := Apply(s, action);
      StepInStep(s, n, action);
      if action.IssueToResponder? {
        IssueCleanWhileComplete(s, n, action);
      } else {
        OtherCleanWhileComplete(s, n, action);
      }
      RunCleanWhileComplete(n, t, actions[1..], s');
    }
  }

  /** In every run, a test is clean if the controller has collected a completed result of every test
      before it: a controller that stops at the first result that is not complete never issues a
      test that may be disturbed. */
  lemma CleanAsLongAsComplete(n: nat, s: State, k: nat)
    requires Reachable(n, s) && 0 < k <= |s.issued| && CompletedBefore(s, k)
    ensures k <= |s.clean| && s.clean[k - 1]
  {
    var actions :| Runs(Start(n), actions, s);
    StartConsistent(n);
    RunCleanWhileComplete(n, Start(n), actions, s);
  }
}
