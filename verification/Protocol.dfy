/** The measurement protocol as a step system. The controller writes commands into agents' inboxes
    and polls their result slots; two agents run a test in rounds by writing sequence numbers into
    each other's mailboxes. One action is one remote write, one successful poll, or one timeout.
    A round of a ping-pong test is a ping and a pong; a round of a bandwidth test is a window of
    slot writes, a signal and an acknowledgement. */
module Protocol {

  import opened Common

  const MAILBOX_SIZE: nat := 131072
  const MAILBOX_HEADER_SIZE: nat := 16
  const COMMAND_INBOX_SIZE: nat := 64
  const TEST_BUFFER_SIZE: nat := 256 * 1024 * 1024
  const COMMAND_INBOX_OFFSET: nat := TEST_BUFFER_SIZE - COMMAND_INBOX_SIZE - MAILBOX_SIZE
  const DEFAULT_WINDOW: nat := 64
  const DEFAULT_MESSAGE_SIZE: nat := 4 * 1024 * 1024

  datatype Kind = PingPong | Bandwidth
  datatype Role = Initiator | Responder

  /** What the controller asks two agents to do. */
  datatype Test = Test(initiator: nat, responder: nat, kind: Kind,
                       messageSize: nat, iterations: nat, warmup: nat, window: nat)

  datatype Command = Command(commandSeq: nat, role: Role, peer: nat, kind: Kind,
                             messageSize: nat, iterations: nat, warmup: nat, window: nat)
  {
    /** Rounds of the test; the sum is taken in 32 bits. */
    function Rounds(): nat { (warmup + iterations) % UINT32 }

    /** Data writes that precede the signal of each round. */
    function Slots(): nat {
      if kind == PingPong then 0 else if window > 0 then window else DEFAULT_WINDOW
    }

    function SlotSize(): nat {
      if messageSize > 0 then messageSize else DEFAULT_MESSAGE_SIZE
    }

    /** The capacity check, in 64 bits. */
    predicate Fits() {
      kind == Bandwidth ==> (Slots() * SlotSize()) % UINT64 <= COMMAND_INBOX_OFFSET
    }
  }

  const NO_COMMAND := Command(0, Responder, 0, PingPong, 0, 0, 0, 0)

  function CommandFor(test: Test, s: nat, role: Role): Command {
    Command(s, role, if role == Initiator then test.responder else test.initiator,
            test.kind, test.messageSize, test.iterations, test.warmup, test.window)
  }

  function AgentFor(test: Test, role: Role): nat {
    if role == Initiator then test.initiator else test.responder
  }

  /** A mailbox word. The code reads only the sequence number; writer and test say where it came from. */
  datatype Mail = Mail(sequence: nat, writer: nat, test: nat)

  /** A recorded round-trip time, with the round it was taken in and the reply that ended it. */
  datatype Sample = Sample(round: nat, reply: Mail, nanoseconds: nat)

  datatype Status = PENDING | COMPLETE | ERROR

  datatype TestResult = TestResult(commandSeq: nat, status: Status, agentId: nat, errorCode: nat, samples: seq<Sample>)

  const NO_RESULT := TestResult(0, PENDING, 0, 0, [])

  datatype Activity =
    | Polling
    | Starting(cmd: Command)
    | Sending(cmd: Command, round: nat, slot: nat)
    | AwaitingReply(cmd: Command, round: nat)
    | AwaitingSignal(cmd: Command, round: nat)
    | Replying(cmd: Command, round: nat)
    | Reporting(result: TestResult)

  /** Inbox, mailbox and local variables of an agent; the last four fields only record what the
      agent did: sequence numbers executed, and mailbox writes, successful polls and slot writes
      since the current test began. */
  datatype Agent = Agent(inbox: Command, lastSeq: nat, mailbox: Mail, lastSeen: nat, samples: seq<Sample>,
                         activity: Activity,
                         executed: seq<nat>, sent: nat, seen: nat, slotWrites: nat)

  const NEW_AGENT := Agent(NO_COMMAND, 0, Mail(0, 0, 0), 0, [], Polling, [], 0, 0, 0)

  datatype Phase = Idle | Issuing(test: Test) | Waiting(test: Test)

  datatype Collected = Collected(commandSeq: nat, test: Test, result: TestResult)

  /** The last five fields only record what happened: the tests issued; for each, whether every agent
      was quiet when it was issued; how each ended at its initiator, and after how many slot writes;
      and what the controller took. */
  datatype State = State(phase: Phase, agents: seq<Agent>, slots: seq<TestResult>,
                         issued: seq<Test>, clean: seq<bool>,
                         outcomes: map<nat, TestResult>, transfers: map<nat, nat>, collected: seq<Collected>)

  function Start(n: nat): State {
    State(Idle, seq(n, _ => NEW_AGENT), seq(n, _ => NO_RESULT), [], [], map[], map[], [])
  }

  /** A command that makes its agent write no mail: it is refused, or asks for no rounds. */
  predicate Harmless(cmd: Command) {
    !cmd.Fits() || cmd.Rounds() == 0
  }

  /** The agent waits for its last reply; or for a message while it has read all it has, one at least,
      so that the first signal of another test, numbered 1, does not end the wait. */
  predicate Stuck(ag: Agent) {
    match ag.activity
    case AwaitingSignal(_, _) => ag.mailbox.sequence <= ag.lastSeen && 1 <= ag.lastSeen
    case AwaitingReply(cmd, round) =>
      round + 1 >= cmd.Rounds() || (ag.mailbox.sequence <= ag.lastSeen && 1 <= ag.lastSeen)
    case _ => false
  }

  predicate Resting(ag: Agent) {
    || ag.activity.Polling? || ag.activity.Reporting? || (ag.activity.Starting? && Harmless(ag.activity.cmd))
    || Stuck(ag)
  }

  /** The agent writes no mail until it takes up another command than those it has, or gets mail
      other than a first signal. */
  predicate Quiet(ag: Agent) {
    Resting(ag) && (ag.inbox.commandSeq <= ag.lastSeq || Harmless(ag.inbox))
  }

  predicate AllQuiet(agents: seq<Agent>) {
    forall a | 0 <= a < |agents| :: Quiet(agents[a])
  }

  /** Steps. `ok` says whether a remote write succeeds. */
  datatype Action =
    | IssueToResponder(test: Test, ok: bool)
    | IssueToInitiator(ok: bool)
    | Collect
    | GiveUp
    | Accept(a: nat)
    | Reset(a: nat)
    | WriteSlot(a: nat, ok: bool)
    | Signal(a: nat, ok: bool)
    | SeeReply(a: nat, nanoseconds: nat)
    | ReplyTimeout(a: nat)
    | SeeSignal(a: nat)
    | SignalTimeout(a: nat)
    | Reply(a: nat, ok: bool)
    | Report(a: nat, ok: bool)

  /** The checks made before a test is issued, and the widths of its parameters. */
  predicate ValidTest(test: Test, n: nat) {
    && test.initiator < n && test.responder < n && test.initiator != test.responder
    && (test.kind == PingPong ==> test.messageSize <= MAILBOX_SIZE - MAILBOX_HEADER_SIZE)
    && test.messageSize < UINT64 && test.iterations < UINT32 && test.warmup < UINT32 && test.window < UINT32
  }

  predicate AgentEnabled(ag: Agent, action: Action) {
    match action
    case Accept(_) => ag.activity.Polling? && ag.inbox.commandSeq > ag.lastSeq
    case Reset(_) => ag.activity.Starting?
    case WriteSlot(_, _) => ag.activity.Sending? && ag.activity.slot < ag.activity.cmd.Slots()
    case Signal(_, _) => ag.activity.Sending? && ag.activity.slot >= ag.activity.cmd.Slots()
    case SeeReply(_, _) => ag.activity.AwaitingReply? && ag.mailbox.sequence > ag.lastSeen
    case ReplyTimeout(_) => ag.activity.AwaitingReply? && ag.mailbox.sequence <= ag.lastSeen
    case SeeSignal(_) => ag.activity.AwaitingSignal? && ag.mailbox.sequence > ag.lastSeen
    case SignalTimeout(_) => ag.activity.AwaitingSignal? && ag.mailbox.sequence <= ag.lastSeen
    case Reply(_, _) => ag.activity.Replying?
    case Report(_, _) => ag.activity.Reporting?
    case _ => false
  }

  predicate IsAgentAction(action: Action) {
    !action.IssueToResponder? && !action.IssueToInitiator? && !action.Collect? && !action.GiveUp?
  }

  predicate Enabled(s: State, action: Action) {
    if IsAgentAction(action) then
      action.a < |s.agents| == |s.slots| && AgentEnabled(s.agents[action.a], action)
    else match action
    case IssueToResponder(test, _) => s.phase.Idle? && ValidTest(test, |s.agents|)
    case IssueToInitiator(_) => s.phase.Issuing? && s.phase.test.initiator < |s.agents|
    case Collect =>
      s.phase.Waiting? && s.phase.test.initiator < |s.slots|
      && s.slots[s.phase.test.initiator].commandSeq == |s.issued| && s.slots[s.phase.test.initiator].status != PENDING
    case GiveUp => s.phase.Waiting?
  }

  // ----- one agent's step

  function ResultOf(a: nat, cmd: Command, status: Status, errorCode: nat, samples: seq<Sample>): TestResult {
    TestResult(cmd.commandSeq, status, a, errorCode, samples)
  }

  /** The initiator stops with an error; what it has measured so far is dropped. */
  function Abort(a: nat, ag: Agent, cmd: Command, errorCode: nat): Agent {
    ag.(activity := Reporting(ResultOf(a, cmd, ERROR, errorCode, [])))
  }

  /** The initiator starts a round, or reports if there are no more. */
  function StartRound(a: nat, ag: Agent, cmd: Command, round: nat): Agent {
    if round < cmd.Rounds() then ag.(activity := Sending(cmd, round, 0))
    else ag.(activity := Reporting(ResultOf(a, cmd, COMPLETE, 0, ag.samples)))
  }

  /** The responder waits for a round, or goes back to polling if there are no more. */
  function AwaitRound(ag: Agent, cmd: Command, round: nat): Agent {
    if round < cmd.Rounds() then ag.(activity := AwaitingSignal(cmd, round)) else ag.(activity := Polling)
  }

  function Begin(a: nat, ag: Agent, cmd: Command): Agent {
    if !cmd.Fits() then
      if cmd.role == Initiator
      then ag.(samples := [], activity := Reporting(ResultOf(a, cmd, ERROR, 10, [])))
      else ag.(activity := Polling)
    else
      var cleared := ag.(mailbox := ag.mailbox.(sequence := 0), lastSeen := 0,
                        samples := [], sent := 0, seen := 0, slotWrites := 0);
      if cmd.role == Initiator then StartRound(a, cleared, cmd, 0) else AwaitRound(cleared, cmd, 0)
  }

  /** The agent after its own step (writes to other memories are done by Apply). */
  function Stepped(a: nat, ag: Agent, action: Action): Agent
    requires IsAgentAction(action) && AgentEnabled(ag, action)
  {
    match action
    case Accept(_) =>
      ag.(lastSeq := ag.inbox.commandSeq,
          executed := ag.executed + [ag.inbox.commandSeq], activity := Starting(ag.inbox))
    case Reset(_) => Begin(a, ag, ag.activity.cmd)
    case WriteSlot(_, ok) =>
      var Sending(cmd, round, slot) := ag.activity;
      if ok then ag.(activity := Sending(cmd, round, slot + 1), slotWrites := ag.slotWrites + 1)
      else Abort(a, ag, cmd, 11)
    case Signal(_, ok) =>
      var Sending(cmd, round, slot) := ag.activity;
      if ok then ag.(activity := AwaitingReply(cmd, round), sent := ag.sent + 1)
      else Abort(a, ag, cmd, if cmd.kind == PingPong then 1 else 12)
    case SeeReply(_, nanoseconds) =>
      var AwaitingReply(cmd, round) := ag.activity;
      var next := ag.(lastSeen := ag.mailbox.sequence, seen := ag.seen + 1,
                      samples := if round < cmd.warmup then ag.samples
                                 else ag.samples + [Sample(round, ag.mailbox, nanoseconds)]);
      StartRound(a, next, cmd, round + 1)
    case ReplyTimeout(_) =>
      Abort(a, ag, ag.activity.cmd, if ag.activity.cmd.kind == PingPong then 2 else 13)
    case SeeSignal(_) =>
      var AwaitingSignal(cmd, round) := ag.activity;
      ag.(lastSeen := ag.mailbox.sequence, seen := ag.seen + 1, activity := Replying(cmd, round))
    case SignalTimeout(_) => ag.(activity := Polling)
    case Reply(_, ok) =>
      var Replying(cmd, round) := ag.activity;
      AwaitRound(if ok then ag.(sent := ag.sent + 1) else ag, cmd, round + 1)
    case Report(_, _) => ag.(activity := Polling)
  }

  /** The mailbox write of a step, if it makes one: to whom, and what. */
  function MailTo(a: nat, ag: Agent, action: Action): nat
    requires IsAgentAction(action) && AgentEnabled(ag, action) && Writes(ag, action)
  {
    ag.activity.cmd.peer
  }

  predicate Writes(ag: Agent, action: Action) {
    (action.Signal? && action.ok && ag.activity.Sending?) || (action.Reply? && action.ok && ag.activity.Replying?)
  }

  function MailOf(a: nat, ag: Agent, action: Action): Mail
    requires IsAgentAction(action) && AgentEnabled(ag, action) && Writes(ag, action)
  {
    Mail(ag.activity.round + 1, a, ag.activity.cmd.commandSeq)
  }

  function PutMail(agents: seq<Agent>, to: nat, mail: Mail): seq<Agent> {
    if to < |agents| then agents[to := agents[to].(mailbox := mail)] else agents
  }

  // ----- the system's step

  function ApplyAgent(s: State, action: Action): State
    requires IsAgentAction(action) && Enabled(s, action)
  {
    var a := action.a;
    var ag := s.agents[a];
    var next := Stepped(a, ag, action);
    var agents := s.agents[a := next];
    s.(agents := if Writes(ag, action) then PutMail(agents, MailTo(a, ag, action), MailOf(a, ag, action)) else agents,
       slots := if action.Report? && action.ok then s.slots[a := ag.activity.result] else s.slots,
       outcomes := if next.activity.Reporting?
                   then s.outcomes[next.activity.result.commandSeq := next.activity.result] else s.outcomes,
       transfers := if next.activity.Reporting?
                    then s.transfers[next.activity.result.commandSeq := next.slotWrites] else s.transfers)
  }

  function Deliver(s: State, to: nat, cmd: Command): seq<Agent>
    requires to < |s.agents|
  {
    s.agents[to := s.agents[to].(inbox := cmd)]
  }

  function Apply(s: State, action: Action): State
    requires Enabled(s, action)
  {
    if IsAgentAction(action) then ApplyAgent(s, action)
    else match action
    case IssueToResponder(test, ok) =>
      var issued, clean := s.issued + [test], s.clean + [AllQuiet(s.agents)];
      if ok
      then s.(issued := issued, clean := clean, phase := Issuing(test),
              agents := Deliver(s, test.responder, CommandFor(test, |issued|, Responder)))
      else s.(issued := issued, clean := clean)
    case IssueToInitiator(ok) =>
      var test := s.phase.test;
      if ok
      then s.(phase := Waiting(test), agents := Deliver(s, test.initiator, CommandFor(test, |s.issued|, Initiator)))
      else s.(phase := Idle)
    case Collect =>
      var test := s.phase.test;
      s.(phase := Idle, collected := s.collected + [Collected(|s.issued|, test, s.slots[test.initiator])])
    case GiveUp => s.(phase := Idle)
  }

  /** The state after a run, if each of its steps was enabled. */
  ghost predicate Runs(s: State, actions: seq<Action>, s': State)
    decreases |actions|
  {
    if actions == [] then s == s'
    else Enabled(s, actions[0]) && Runs(Apply(s, actions[0]), actions[1..], s')
  }

  ghost predicate LeadsTo(s: State, s': State) {
    exists actions :: Runs(s, actions, s')
  }

  ghost predicate Reachable(n: nat, s: State) {
    LeadsTo(Start(n), s)
  }

  /** Two runs in a row are one run. */
  lemma {:induction false} RunsThen(s: State, first: seq<Action>, t: State, second: seq<Action>, u: State)
    requires Runs(s, first, t) && Runs(t, second, u)
    ensures Runs(s, first + second, u)
    decreases |first|
  {
    hide Apply, Enabled;
    if first == [] {
      assert first + second == second;
    } else {
      assert (first + second)[1..] == first[1..] + second;
      RunsThen(Apply(s, first[0]), first[1..], t, second, u);
    }
  }

  lemma LeadsToSelf(s: State)
    ensures LeadsTo(s, s)
  {
    assert Runs(s, [], s);
  }

  lemma LeadsToOne(s: State, action: Action)
    requires Enabled(s, action)
    ensures LeadsTo(s, Apply(s, action))
  {
    hide Apply, Enabled;
    assert [action][1..] == [];
    assert Runs(s, [action], Apply(s, action));
  }

  lemma LeadsToThen(s: State, t: State, u: State)
    requires LeadsTo(s, t) && LeadsTo(t, u)
    ensures LeadsTo(s, u)
  {
    var first :| Runs(s, first, t);
    var second :| Runs(t, second, u);
    RunsThen(s, first, t, second, u);
  }

  lemma ReachableStep(n: nat, s: State, action: Action)
    requires Reachable(n, s) && Enabled(s, action)
    ensures Reachable(n, Apply(s, action))
  {
    hide Apply, Enabled;
    LeadsToOne(s, action);
    LeadsToThen(Start(n), s, Apply(s, action));
  }
}
