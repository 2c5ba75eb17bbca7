/** What goes wrong when a test is issued while some agent is not quiet: from every such state a run
    leads to a completed result of the next test whose sample holds a message of an older test in
    place of the partner's reply. So the next test is undisturbed if and only if everybody is quiet. */
module CrossTalk {
  import opened Protocol
  import opened Freshness
  import opened Lockstep

  /** A run leads from s to s', and order is kept. */
  ghost predicate Path(n: nat, s: State, s': State) {
    Consistent(s', n) && LeadsTo(s, s')
  }

  /** Between s and s' at most the agents a and b, result slots and recorded outcomes differ. */
  ghost predicate OnlyThese(s: State, s': State, a: nat, b: nat) {
    && |s'.agents| == |s.agents| && |s'.slots| == |s.slots|
    && s'.phase == s.phase && s'.issued == s.issued && s'.collected == s.collected
    && forall c | 0 <= c < |s.agents| && c != a && c != b :: s'.agents[c] == s.agents[c]
  }

  lemma PathOne(n: nat, s: State, action: Action)
    requires Consistent(s, n) && Enabled(s, action)
    ensures Path(n, s, Apply(s, action))
  {
    StepConsistent(s, n, action);
    LeadsToOne(s, action);
  }

  lemma PathThen(n: nat, s: State, t: State, u: State)
    requires Path(n, s, t) && Path(n, t, u)
    ensures Path(n, s, u)
  {
    LeadsToThen(s, t, u);
  }

  /** Two legs of a run in which a alone, and then a and b, are concerned. */
  lemma OnlyTheseThen(n: nat, s: State, t: State, u: State, a: nat, b: nat)
    requires Path(n, s, t) && OnlyThese(s, t, a, a) && Path(n, t, u) && OnlyThese(t, u, a, b)
    ensures Path(n, s, u) && OnlyThese(s, u, a, b)
  {
    PathThen(n, s, t, u);
  }

  /** A step of an agent that writes no mail. */
  lemma SilentStep(n: nat, s: State, a: nat, action: Action) returns (s': State)
    requires Consistent(s, n) && IsAgentAction(action) && action.a == a && Enabled(s, action)
    requires !Writes(s.agents[a], action)
    ensures s' == Apply(s, action)
    ensures Path(n, s, s') && OnlyThese(s, s', a, a) && s'.agents[a] == Stepped(a, s.agents[a], action)
    ensures action == Report(a, true) ==> s'.slots[a] == s.agents[a].activity.result
  {
    PathOne(n, s, action);
    hide Path, Consistent;
    StepTouchesOnlySelf(s, action);
    AgentStepShape(s, action);
    s' := Apply(s, action);
  }

  /** A step of an agent that writes mail to another. */
  lemma MailStep(n: nat, s: State, a: nat, action: Action, to: nat) returns (s': State)
    requires Consistent(s, n) && IsAgentAction(action) && action.a == a && Enabled(s, action)
    requires Writes(s.agents[a], action)
    requires to < |s.agents| && to != a && MailTo(a, s.agents[a], action) == to
    ensures Path(n, s, s') && OnlyThese(s, s', a, to) && s'.agents[a] == Stepped(a, s.agents[a], action)
    ensures s'.agents[to] == s.agents[to].(mailbox := MailOf(a, s.agents[a], action))
  {
    PathOne(n, s, action);
    hide Path, Consistent;
    StepTouches(s, action, to);
    AgentStepShape(s, action);
    s' := Apply(s, action);
    assert s'.agents == s.agents[a := Stepped(a, s.agents[a], action)][to := s'.agents[to]];
  }

  lemma Bounds(n: nat, s: State)
    requires Consistent(s, n)
    ensures |s.agents| == |s.slots| == n
  {
  }

  // ----- an agent can always give up

  /** Own steps until an agent polls again, if its writes fail. */
  function StepsToIdle(ag: Agent): nat {
    match ag.activity
    case Polling => 0
    case Reporting(_) => 1
    case Sending(_, _, _) => 2
    case AwaitingReply(_, _) => if ag.mailbox.sequence > ag.lastSeen then 3 else 2
    case AwaitingSignal(_, _) => if ag.mailbox.sequence > ag.lastSeen then 3 else 1
    case Replying(_, _) => if ag.mailbox.sequence > ag.lastSeen then 4 else 2
    case Starting(_) => 5
  }

  /** The next of those steps. */
  function IdleAction(a: nat, ag: Agent): Action {
    match ag.activity
    case Polling => Collect
    case Reporting(_) => Report(a, false)
    case Sending(cmd, _, slot) => if slot < cmd.Slots() then WriteSlot(a, false) else Signal(a, false)
    case AwaitingReply(_, _) => if ag.mailbox.sequence > ag.lastSeen then SeeReply(a, 0) else ReplyTimeout(a)
    case AwaitingSignal(_, _) => if ag.mailbox.sequence > ag.lastSeen then SeeSignal(a) else SignalTimeout(a)
    case Replying(_, _) => Reply(a, false)
    case Starting(_) => Reset(a)
  }

  /** A step of agent a that is no successful write to anybody. */
  predicate Unnoticed(a: nat, action: Action) {
    && IsAgentAction(action) && action.a == a
    && (action.WriteSlot? || action.Signal? || action.Reply? || action.Report? ==> !action.ok)
  }

  lemma IdleActionHelps(a: nat, ag: Agent)
    requires !ag.activity.Polling?
    ensures var action := IdleAction(a, ag);
      && IsAgentAction(action) && action.a == a && AgentEnabled(ag, action) && !Writes(ag, action)
      && Unnoticed(a, action) && StepsToIdle(Stepped(a, ag, action)) < StepsToIdle(ag)
      && Stepped(a, ag, action).inbox == ag.inbox && Stepped(a, ag, action).lastSeq == ag.lastSeq
  {
  }

  /** Whatever an agent is doing, by failed writes and timeouts of its own it comes to poll its inbox
      again without anybody noticing. */
  lemma {:induction false} GoesIdle(n: nat, s: State, a: nat) returns (actions: seq<Action>, s': State)
    requires Consistent(s, n) && a < n
    ensures Runs(s, actions, s') && forall k | 0 <= k < |actions| :: Unnoticed(a, actions[k])
    ensures Path(n, s, s') && |s.agents| == n && OnlyThese(s, s', a, a)
    ensures var ag := s'.agents[a];
      ag.activity.Polling? && ag.inbox == s.agents[a].inbox && ag.lastSeq == s.agents[a].lastSeq
    decreases if a < |s.agents| then StepsToIdle(s.agents[a]) else 0
  {
    hide Consistent, LeadsTo, Apply, Stepped, AgentEnabled, IdleAction, StepsToIdle;
    Bounds(n, s);
    actions, s' := [], s;
    LeadsToSelf(s);
    if !s.agents[a].activity.Polling? {
      var action := IdleAction(a, s.agents[a]);
      IdleActionHelps(a, s.agents[a]);
      var t := SilentStep(n, s, a, action);
      var rest;
      rest, s' := GoesIdle(n, t, a);
      OnlyTheseThen(n, s, t, s', a, a);
      actions := [action] + rest;
      assert actions[1..] == rest;
    }
  }

  // ----- an agent that is not quiet

  /** The agent writes mail of the test it is in, as things stand: it is sending or about to answer,
      or has unread mail that makes it do either. */
  predicate OwesMail(ag: Agent) {
    match ag.activity
    case Sending(_, _, _) => true
    case Replying(_, _) => true
    case AwaitingSignal(_, _) => ag.mailbox.sequence > ag.lastSeen
    case AwaitingReply(cmd, round) => ag.mailbox.sequence > ag.lastSeen && round + 1 < cmd.Rounds()
    case _ => false
  }

  /** The agent is sending or about to answer, or will be as soon as a first signal reaches it. */
  predicate Ready(ag: Agent) {
    match ag.activity
    case Sending(_, _, _) => true
    case Replying(_, _) => true
    case AwaitingSignal(_, _) => ag.lastSeen == 0
    case AwaitingReply(cmd, round) => ag.lastSeen == 0 && round + 1 < cmd.Rounds()
    case _ => false
  }

  /** The command that an agent which is not quiet may still write mail for. */
  function Unfinished(ag: Agent): Command {
    if Resting(ag) then ag.inbox
    else match ag.activity
      case Polling => ag.inbox
      case Reporting(_) => ag.inbox
      case _ => ag.activity.cmd
  }

  /** cmd was issued to agent b, and asks it to exchange mail with another agent. */
  ghost predicate IssuedTo(s: State, b: nat, cmd: Command) {
    && cmd.peer < |s.agents| && cmd.peer != b && 0 < cmd.commandSeq <= |s.issued|
  }

  lemma UnfinishedIssued(n: nat, s: State, b: nat)
    requires Consistent(s, n) && b < n && !Quiet(s.agents[b])
    ensures IssuedTo(s, b, Unfinished(s.agents[b]))
  {
    var ag := s.agents[b];
    assert AgentOk(s.issued, s.outcomes, b, ag);
    var cmd := Unfinished(ag);
    assert Authentic(s.issued, b, cmd);
    assert ValidTest(s.issued[cmd.commandSeq - 1], n);
  }

  /** An agent that is not quiet may come, by steps that write no mail, to where a first signal at the
      latest makes it write. */
  lemma GetsReady(n: nat, s: State, b: nat) returns (s': State)
    requires Consistent(s, n) && b < n && !Quiet(s.agents[b])
    ensures Path(n, s, s') && |s.agents| == n && OnlyThese(s, s', b, b)
    ensures Ready(s'.agents[b]) && s'.agents[b].activity.cmd == Unfinished(s.agents[b])
  {
    Bounds(n, s);
    hide Apply;
    var ag := s.agents[b];
    if Resting(ag) {
      var _, t := GoesIdle(n, s, b);
      assert Consistent(t, n);
      hide Consistent, LeadsTo;
      var u := SilentStep(n, t, b, Accept(b));
      OnlyTheseThen(n, s, t, u, b, b);
      assert Path(n, t, u);
      s' := Resets(n, u, b);
      OnlyTheseThen(n, s, u, s', b, b);
    } else if ag.activity.Starting? {
      s' := Resets(n, s, b);
    } else if Ready(ag) {
      s' := s;
      LeadsToSelf(s);
    } else if ag.activity.AwaitingSignal? {
      s' := SilentStep(n, s, b, SeeSignal(b));
    } else {
      s' := SilentStep(n, s, b, SeeReply(b, 0));
    }
  }

  lemma Resets(n: nat, s: State, b: nat) returns (s': State)
    requires Consistent(s, n) && b < |s.agents| && s.agents[b].activity.Starting?
    requires !Harmless(s.agents[b].activity.cmd)
    ensures Path(n, s, s') && OnlyThese(s, s', b, b)
    ensures Ready(s'.agents[b]) && s'.agents[b].activity.cmd == s.agents[b].activity.cmd
  {
    Bounds(n, s);
    s' := SilentStep(n, s, b, Reset(b));
  }

  // ----- an old message is delivered

  /** m is a message that b writes in a test of number k. */
  predicate MailFrom(m: Mail, b: nat, k: nat) {
    m.sequence > 0 && m.writer == b && m.test == k
  }

  /** Own steps that come before the next mail. */
  function StepsToMail(ag: Agent): nat {
    match ag.activity
    case AwaitingReply(cmd, _) => cmd.Slots() + 1
    case AwaitingSignal(_, _) => 1
    case Sending(cmd, _, slot) => if slot < cmd.Slots() then cmd.Slots() - slot else 0
    case _ => 0
  }

  /** What an agent owes, it can deliver by its own steps. */
  lemma {:induction false} Delivers(n: nat, s: State, b: nat, p: nat) returns (s': State)
    requires Consistent(s, n) && b < |s.agents| && p < |s.agents| && p != b
    requires OwesMail(s.agents[b]) && s.agents[b].activity.cmd.peer == p
    ensures Path(n, s, s') && OnlyThese(s, s', b, p)
    ensures MailFrom(s'.agents[p].mailbox, b, s.agents[b].activity.cmd.commandSeq)
    ensures s'.agents[p] == s.agents[p].(mailbox := s'.agents[p].mailbox)
    decreases if b < |s.agents| then StepsToMail(s.agents[b]) else 0
  {
    Bounds(n, s);
    hide Consistent, Apply;
    var ag := s.agents[b];
    if ag.activity.Replying? {
      s' := MailStep(n, s, b, Reply(b, true), p);
    } else if ag.activity.Sending? && ag.activity.slot >= ag.activity.cmd.Slots() {
      s' := MailStep(n, s, b, Signal(b, true), p);
    } else {
      var action := if ag.activity.AwaitingSignal? then SeeSignal(b)
                    else if ag.activity.AwaitingReply? then SeeReply(b, 0) else WriteSlot(b, true);
      var t := SilentStep(n, s, b, action);
      assert Consistent(t, n) && OwesMail(t.agents[b]) && StepsToMail(t.agents[b]) < StepsToMail(ag);
      hide Stepped, LeadsTo;
      s' := Delivers(n, t, b, p);
      OnlyTheseThen(n, s, t, s', b, p);
    }
  }

  // ----- the next test takes it for a reply

  /** One ping, without warm-up. */
  function OnePing(p: nat, q: nat): Test { Test(p, q, PingPong, 0, 1, 0, 0) }

  /** The latest test is a ping from p to q, which p has sent and of which it awaits the answer. */
  ghost predicate Pinged(s: State, p: nat, q: nat) {
    && s.issued != [] && s.phase == Waiting(OnePing(p, q)) && p < |s.agents| == |s.slots|
    && var ag := s.agents[p];
       && ag.activity == AwaitingReply(CommandFor(OnePing(p, q), |s.issued|, Initiator), 0)
       && ag.lastSeen == 0 && ag.samples == []
  }

  lemma Issues(n: nat, s: State, p: nat, q: nat) returns (s': State)
    requires Consistent(s, n) && s.phase.Idle? && p < n && q < n && p != q
    ensures Path(n, s, s') && |s.agents| == |s'.agents| == |s'.slots| == n && s'.collected == s.collected
    ensures s'.phase == Waiting(OnePing(p, q)) && s'.issued == s.issued + [OnePing(p, q)]
    ensures s'.agents[p] == s.agents[p].(inbox := CommandFor(OnePing(p, q), |s'.issued|, Initiator))
    ensures s'.agents[q] == s.agents[q].(inbox := CommandFor(OnePing(p, q), |s'.issued|, Responder))
    ensures forall c | 0 <= c < n && c != p && c != q :: s'.agents[c] == s.agents[c]
  {
    Bounds(n, s);
    var test := OnePing(p, q);
    PathOne(n, s, IssueToResponder(test, true));
    var t := Apply(s, IssueToResponder(test, true));
    assert Path(n, s, t);
    hide Consistent, LeadsTo;
    PathOne(n, t, IssueToInitiator(true));
    s' := Apply(t, IssueToInitiator(true));
    assert Path(n, t, s');
    PathThen(n, s, t, s');
  }

  /** The initiator takes up its command and resets its mailbox. */
  lemma TakesUpPing(n: nat, s: State, p: nat, cmd: Command) returns (s': State)
    requires Consistent(s, n) && p < |s.agents| && s.agents[p].inbox == cmd
    requires cmd.role == Initiator && cmd.Rounds() == 1 && cmd.Fits()
    requires s.agents[p].activity.Polling? && s.agents[p].lastSeq < cmd.commandSeq
    ensures Path(n, s, s') && OnlyThese(s, s', p, p)
    ensures var ag := s'.agents[p]; ag.activity == Sending(cmd, 0, 0) && ag.lastSeen == 0 && ag.samples == []
  {
    Bounds(n, s);
    hide Consistent, LeadsTo, Apply;
    var t := SilentStep(n, s, p, Accept(p));
    assert Consistent(t, n) by { assert Path(n, s, t); }
    s' := SilentStep(n, t, p, Reset(p));
    OnlyTheseThen(n, s, t, s', p, p);
  }

  /** The initiator takes up its command and sends its ping. */
  lemma Pings(n: nat, s: State, p: nat, q: nat) returns (s': State)
    requires Consistent(s, n) && p < n && q < n && p != q
    requires s.issued != [] && s.phase == Waiting(OnePing(p, q)) && p < |s.agents|
    requires s.agents[p].inbox == CommandFor(OnePing(p, q), |s.issued|, Initiator)
    requires s.agents[p].activity.Polling? && s.agents[p].lastSeq < |s.issued|
    ensures Path(n, s, s') && |s.agents| == n && OnlyThese(s, s', p, q) && Pinged(s', p, q)
    ensures s'.agents[q] == s.agents[q].(mailbox := Mail(1, p, |s.issued|))
  {
    Bounds(n, s);
    var cmd := CommandFor(OnePing(p, q), |s.issued|, Initiator);
    assert cmd.Rounds() == 1 && cmd.Fits();
    var t := TakesUpPing(n, s, p, cmd);
    assert Consistent(t, n) && |t.slots| == n;
    FirstSignal(p, t.agents[p], cmd);
    hide Consistent, LeadsTo, Apply, Stepped, AgentEnabled, Writes, MailTo, MailOf;
    s' := MailStep(n, t, p, Signal(p, true), q);
    OnlyTheseThen(n, s, t, s', p, q);
  }

  lemma FirstSignal(a: nat, ag: Agent, cmd: Command)
    requires ag.activity == Sending(cmd, 0, 0) && cmd.kind == PingPong
    ensures var action := Signal(a, true);
      && AgentEnabled(ag, action) && Writes(ag, action) && MailTo(a, ag, action) == cmd.peer
      && MailOf(a, ag, action) == Mail(1, a, cmd.commandSeq)
      && Stepped(a, ag, action) == ag.(activity := AwaitingReply(cmd, 0), sent := ag.sent + 1)
  {
  }

  /** A test whose initiator is polling gets as far as its first ping. */
  lemma PingsFromIdle(n: nat, s: State, p: nat, q: nat) returns (s': State)
    requires Consistent(s, n) && s.phase.Idle? && p < n && q < n && p != q && p < |s.agents|
    requires s.agents[p].activity.Polling? && s.agents[p].lastSeq <= |s.issued|
    ensures Path(n, s, s') && |s.agents| == |s'.agents| == n
    ensures s'.issued == s.issued + [OnePing(p, q)] && s'.collected == s.collected && Pinged(s', p, q)
    ensures s'.agents[q] == s.agents[q].(inbox := CommandFor(OnePing(p, q), |s'.issued|, Responder),
                                         mailbox := Mail(1, p, |s'.issued|))
    ensures forall c | 0 <= c < n && c != p && c != q :: s'.agents[c] == s.agents[c]
  {
    hide Consistent, LeadsTo, CommandFor, Pinged, OnePing;
    var t := Issues(n, s, p, q);
    assert Consistent(t, n) by { assert Path(n, s, t); }
    hide Path;
    s' := Pings(n, t, p, q);
    PathThen(n, s, t, s');
  }

  /** From an idle state a test between any two agents can get as far as its first ping, whatever its
      initiator was doing; its responder gets its command and the ping, and nobody else notices. */
  lemma PingIsSent(n: nat, s: State, p: nat, q: nat) returns (s': State)
    requires Consistent(s, n) && s.phase.Idle? && p < n && q < n && p != q
    ensures Path(n, s, s') && |s.agents| == |s'.agents| == n
    ensures s'.issued == s.issued + [OnePing(p, q)] && s'.collected == s.collected && Pinged(s', p, q)
    ensures s'.agents[q] == s.agents[q].(inbox := CommandFor(OnePing(p, q), |s'.issued|, Responder),
                                         mailbox := Mail(1, p, |s'.issued|))
    ensures forall c | 0 <= c < n && c != p && c != q :: s'.agents[c] == s.agents[c]
  {
    AcceptedWereIssued(n, s, p);
    hide Consistent, LeadsTo, CommandFor, Pinged, OnePing;
    var _, t := GoesIdle(n, s, p);
    assert Consistent(t, n) by { assert Path(n, s, t); }
    hide Path;
    s' := PingsFromIdle(n, t, p, q);
    PathThen(n, s, t, s');
  }

  lemma AcceptedWereIssued(n: nat, s: State, p: nat)
    requires Consistent(s, n) && p < n
    ensures |s.agents| == n && s.agents[p].lastSeq <= |s.issued|
  {
    assert AgentOk(s.issued, s.outcomes, p, s.agents[p]);
  }

  /** Whatever message lies in its mailbox ends the initiator's only round, and the controller collects
      it as the result. */
  lemma TakesReply(n: nat, s: State, p: nat, q: nat) returns (s': State, c: Collected)
    requires Consistent(s, n) && Pinged(s, p, q) && s.agents[p].mailbox.sequence > 0
    ensures Path(n, s, s') && s'.collected == s.collected + [c]
    ensures |s'.agents| == |s.agents|
    ensures forall b | 0 <= b < |s.agents| && b != p :: s'.agents[b] == s.agents[b]
    ensures c.commandSeq == |s.issued| && c.test == OnePing(p, q) && c.result.status == COMPLETE
    ensures c.result.samples == [Sample(0, s.agents[p].mailbox, 0)]
  {
    hide Consistent, LeadsTo;
    var cmd := CommandFor(OnePing(p, q), |s.issued|, Initiator);
    assert cmd.Rounds() == 1;
    var result := ResultOf(p, cmd, COMPLETE, 0, [Sample(0, s.agents[p].mailbox, 0)]);
    var t := SilentStep(n, s, p, SeeReply(p, 0));
    assert t.agents[p].samples == [Sample(0, s.agents[p].mailbox, 0)];
    assert t.agents[p].activity == Reporting(result);
    assert Consistent(t, n) by { assert Path(n, s, t); }
    var u := SilentStep(n, t, p, Report(p, true));
    assert Consistent(u, n) by { assert Path(n, t, u); }
    OnlyTheseThen(n, s, t, u, p, p);
    PathOne(n, u, Collect);
    s' := Apply(u, Collect);
    PathThen(n, s, u, s');
    c := Collected(|s.issued|, OnePing(p, q), result);
  }

  /** The one sample of c, a completed result of test number k, is a message of b from test number earlier. */
  ghost predicate HoldsMailOf(c: Collected, k: nat, b: nat, earlier: nat) {
    && c.commandSeq == k && c.result.status == COMPLETE && |c.result.samples| == 1
    && MailFrom(c.result.samples[0].reply, b, earlier)
  }

  /** Once the ping is out, an agent that owes its sender a message may answer in the responder's place. */
  lemma OldMailEnds(n: nat, s: State, b: nat, p: nat, q: nat) returns (s': State, c: Collected)
    requires Consistent(s, n) && Pinged(s, p, q) && b < |s.agents| && b != p
    requires OwesMail(s.agents[b]) && s.agents[b].activity.cmd.peer == p
    ensures Path(n, s, s') && c in s'.collected && c.test == OnePing(p, q) && |s'.agents| == |s.agents|
    ensures HoldsMailOf(c, |s.issued|, b, s.agents[b].activity.cmd.commandSeq)
    ensures forall a | 0 <= a < |s.agents| && a != p && a != b :: s'.agents[a] == s.agents[a]
  {
    hide Consistent, LeadsTo;
    var t := Delivers(n, s, b, p);
    assert Consistent(t, n) by { assert Path(n, s, t); }
    hide OwesMail, Path;
    assert Pinged(t, p, q);
    s', c := TakesReply(n, t, p, q);
    PathThen(n, s, t, s');
  }

  // ----- the theorems

  /** From every reachable state in which the controller is idle and some agent b owes a message of an
      older test to its partner p: whatever p is doing, a run leads to a completed result of a test
      between p and any third agent q whose one sample is b's message in place of a reply by q, who
      has not even read its command. */
  lemma StaleReply(n: nat, s: State, b: nat, q: nat) returns (s': State, c: Collected)
    requires Reachable(n, s) && s.phase.Idle? && b < n && q < n && |s.agents| == n && OwesMail(s.agents[b])
    requires q != b && q != s.agents[b].activity.cmd.peer
    ensures LeadsTo(s, s') && c in s'.collected
    ensures c.test == OnePing(s.agents[b].activity.cmd.peer, q)
    ensures HoldsMailOf(c, |s.issued| + 1, b, s.agents[b].activity.cmd.commandSeq)
    ensures s.agents[b].activity.cmd.commandSeq <= |s.issued|
    ensures |s'.agents| == n && s'.agents[q].executed == s.agents[q].executed
  {
    ReachableInStep(n, s);
    var p := s.agents[b].activity.cmd.peer;
    UnfinishedIssued(n, s, b);
    hide Consistent, LeadsTo, Reachable;
    var t := PingIsSent(n, s, p, q);
    assert Consistent(t, n) by { assert Path(n, s, t); }
    s', c := OldMailEnds(n, t, b, p, q);
    PathThen(n, s, t, s');
    assert LeadsTo(s, s') by { assert Path(n, s, s'); }
  }

  /** From every reachable state in which the controller is idle and some agent b is not quiet, a run
      leads to a completed result of a new test of b by its old partner whose one sample is a message
      that b wrote for the old test. */
  lemma NotQuietIsDisturbed(n: nat, s: State, b: nat) returns (s': State, c: Collected)
    requires Reachable(n, s) && s.phase.Idle? && b < n && |s.agents| == n && !Quiet(s.agents[b])
    ensures LeadsTo(s, s') && c in s'.collected && c.test == OnePing(Unfinished(s.agents[b]).peer, b)
    ensures HoldsMailOf(c, |s.issued| + 1, b, Unfinished(s.agents[b]).commandSeq)
    ensures Unfinished(s.agents[b]).commandSeq <= |s.issued|
  {
    ReachableInStep(n, s);
    var p := Unfinished(s.agents[b]).peer;
    UnfinishedIssued(n, s, b);
    hide Consistent, LeadsTo, Reachable, Quiet, Unfinished;
    var t := GetsReady(n, s, b);
    assert Consistent(t, n) by { assert Path(n, s, t); }
    var u := PingIsSent(n, t, p, b);
    assert Consistent(u, n) by { assert Path(n, t, u); }
    PathThen(n, s, t, u);
    s', c := OldMailEnds(n, u, b, p, b);
    PathThen(n, s, u, s');
    assert LeadsTo(s, s') by { assert Path(n, s, s'); }
  }

  /** When the controller is about to issue a test, the next test is undisturbed in every run if and
      only if every agent is quiet. */
  lemma NextTestIsOwnIff(n: nat, s: State)
    requires Reachable(n, s) && s.phase.Idle?
    ensures NextTestIsOwn(s) <==> AllQuiet(s.agents)
  {
    if AllQuiet(s.agents) {
      QuietNextIsOwn(n, s);
    } else {
      ReachableInStep(n, s);
      Bounds(n, s);
      hide Consistent, LeadsTo, Reachable;
      var b :| 0 <= b < |s.agents| && !Quiet(s.agents[b]);
      hide Quiet, Unfinished;
      var s', c := NotQuietIsDisturbed(n, s, b);
      assert c.result.samples[0].reply.test != c.commandSeq;
    }
  }

  // ----- and there are such states

  const FIRST := Test(0, 1, PingPong, 64, 1, 0, 0)

  const R1 := CommandFor(FIRST, 1, Responder)
  const I1 := CommandFor(FIRST, 1, Initiator)

  const TIMED_OUT := TestResult(1, ERROR, 0, 2, [])
  const PINGED := Mail(1, 0, 1)

  /** Agent 0 once it has sent the first ping, and agent 1 waiting for it. */
  const AGENT0 := Agent(I1, 1, Mail(0, 0, 0), 0, [], AwaitingReply(I1, 0), [1], 1, 0, 0)
  const AGENT1 := Agent(R1, 1, PINGED, 0, [], AwaitingSignal(R1, 0), [1], 0, 0, 0)

  /** Three agents, and the first test, which agent 0 initiates. */
  function World(phase: Phase, a0: Agent, a1: Agent, slot: TestResult, outcomes: map<nat, TestResult>,
                 transfers: map<nat, nat>, collected: seq<Collected>): State
  {
    State(phase, [a0, a1, NEW_AGENT], [slot, NO_RESULT, NO_RESULT], [FIRST], [true], outcomes, transfers, collected)
  }

  lemma StepTo(s: State, action: Action, s': State)
    requires Reachable(3, s) && Enabled(s, action) && s' == Apply(s, action)
    ensures Reachable(3, s')
  {
    ReachableStep(3, s, action);
  }

  lemma FirstTestIssued()
    ensures Reachable(3,
                      World(Waiting(FIRST), NEW_AGENT.(inbox := I1), NEW_AGENT.(inbox := R1), NO_RESULT,
                            map[], map[], []))
  {
    var s0 := State(Idle, [NEW_AGENT, NEW_AGENT, NEW_AGENT],
                   [NO_RESULT, NO_RESULT, NO_RESULT], [], [], map[], map[], []);
    assert Start(3) == s0;
    assert Runs(s0, [], s0);
    assert AllQuiet(s0.agents);
    var s1 := World(Issuing(FIRST), NEW_AGENT, NEW_AGENT.(inbox := R1), NO_RESULT, map[], map[], []);
    StepTo(s0, IssueToResponder(FIRST, true), s1);
    StepTo(s1, IssueToInitiator(true),
           World(Waiting(FIRST), NEW_AGENT.(inbox := I1), NEW_AGENT.(inbox := R1), NO_RESULT, map[], map[], []));
  }

  /** Agent a takes up its command and resets its mailbox; the other agents play no part. */
  lemma TakesUp(s: State, a: nat, accepted: Agent, ready: Agent, s': State)
    requires Reachable(3, s) && |s.agents| == |s.slots| == 3 && a < 3 && AgentEnabled(s.agents[a], Accept(a))
    requires accepted == Stepped(a, s.agents[a], Accept(a)) && ready == Stepped(a, accepted, Reset(a))
    requires accepted.activity.cmd.Fits() && !ready.activity.Reporting?
    requires s' == s.(agents := s.agents[a := ready])
    ensures Reachable(3, s')
  {
    var t := s.(agents := s.agents[a := accepted]);
    StepTo(s, Accept(a), t);
    assert t.agents[a := ready] == s.agents[a := ready];
    StepTo(t, Reset(a), s');
  }

  const WAITING1 := AGENT1.(mailbox := Mail(0, 0, 0))
  const SENDING0 := AGENT0.(activity := Sending(I1, 0, 0), sent := 0)

  lemma FirstTestTakenUp()
    ensures Reachable(3, World(Waiting(FIRST), SENDING0, WAITING1, NO_RESULT, map[], map[], []))
  {
    FirstTestIssued();
    var s0 := World(Waiting(FIRST), NEW_AGENT.(inbox := I1), NEW_AGENT.(inbox := R1), NO_RESULT, map[], map[], []);
    var s1 := World(Waiting(FIRST), NEW_AGENT.(inbox := I1), WAITING1, NO_RESULT, map[], map[], []);
    TakesUp(s0, 1, WAITING1.(activity := Starting(R1)), WAITING1, s1);
    TakesUp(s1, 0, SENDING0.(activity := Starting(I1)), SENDING0,
            World(Waiting(FIRST), SENDING0, WAITING1, NO_RESULT, map[], map[], []));
  }

  lemma FirstTestUnderWay()
    ensures Reachable(3, World(Waiting(FIRST), AGENT0, AGENT1, NO_RESULT, map[], map[], []))
  {
    FirstTestTakenUp();
    StepTo(World(Waiting(FIRST), SENDING0, WAITING1, NO_RESULT, map[], map[], []), Signal(0, true),
           World(Waiting(FIRST), AGENT0, AGENT1, NO_RESULT, map[], map[], []));
  }

  /** Agent 0 times out, its ping still unread in agent 1's mailbox; the controller takes the error. */
  lemma FirstTestTimesOut()
    ensures Reachable(3, World(Idle, AGENT0.(activity := Polling), AGENT1, TIMED_OUT,
                               map[1 := TIMED_OUT], map[1 := 0], [Collected(1, FIRST, TIMED_OUT)]))
  {
    FirstTestUnderWay();
    var s0 := World(Waiting(FIRST), AGENT0, AGENT1, NO_RESULT, map[], map[], []);
    var s1 := World(Waiting(FIRST), AGENT0.(activity := Reporting(TIMED_OUT)), AGENT1, NO_RESULT,
                    map[1 := TIMED_OUT], map[1 := 0], []);
    StepTo(s0, ReplyTimeout(0), s1);
    var s2 := World(Waiting(FIRST), AGENT0.(activity := Polling), AGENT1, TIMED_OUT,
                   map[1 := TIMED_OUT], map[1 := 0], []);
    StepTo(s1, Report(0, true), s2);
    StepTo(s2, Collect, World(Idle, AGENT0.(activity := Polling), AGENT1, TIMED_OUT,
                              map[1 := TIMED_OUT], map[1 := 0], [Collected(1, FIRST, TIMED_OUT)]));
  }

  /** After the first test has timed out, a second one between agents 0 and 2 may complete with agent
      1's late answer to the first, before agent 2 has read its command. */
  lemma StaleReplyIsRecorded() returns (s: State, c: Collected)
    ensures Reachable(3, s) && c in s.collected
    ensures c.commandSeq == 2 && c.test.initiator == 0 && c.test.responder == 2
    ensures c.result.status == COMPLETE && |c.result.samples| == 1
    ensures c.result.samples[0].reply.writer == 1 && c.result.samples[0].reply.test == 1
    ensures |s.agents| == 3 && s.agents[2].executed == []
  {
    FirstTestTimesOut();
    var t := World(Idle, AGENT0.(activity := Polling), AGENT1, TIMED_OUT,
                   map[1 := TIMED_OUT], map[1 := 0], [Collected(1, FIRST, TIMED_OUT)]);
    hide LeadsTo;
    s, c := StaleReply(3, t, 1, 2);
    LeadsToThen(Start(3), t, s);
  }
}
