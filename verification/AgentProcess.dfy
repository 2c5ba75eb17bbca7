/** The agent's side of the protocol as the loops it runs: polling its inbox, the two tests, and the
    report. Between any two of its own steps the other parties may take steps of theirs. */
module AgentProcess {
  import opened Common
  import opened Protocol
  import opened Freshness
  import opened SharedMemory

  datatype Notice = RendezvousComplete | OtherNotice

  /** The notices of one poll include the controller's signal. */
  predicate Signals(notices: map<string, Notice>, controllerName: string) {
    controllerName in notices && notices[controllerName] == RendezvousComplete
  }

  /** A result is complete or an error, with one of these codes and no samples, of this command. */
  ghost predicate EndsWith(result: TestResult, cmd: Command, id: nat, codes: set<nat>) {
    && result.commandSeq == cmd.commandSeq && result.agentId == id
    && if result.status == COMPLETE then result.errorCode == 0
       else result.status == ERROR && result.errorCode in codes && result.samples == []
  }

  class AgentLoop {
    const id: nat
    const memory: Memory
    var rendezvousComplete: bool
    var lastCommandSeq: nat

    ghost predicate Valid()
      reads this, memory
    {
      memory.Valid() && id < memory.n && lastCommandSeq == Me().lastSeq
    }

    /** This agent's part of the shared state. */
    function Me(): Agent
      reads memory
      requires id < |memory.state.agents|
    {
      memory.state.agents[id]
    }

    /** Nothing issued or decided is undone, and this agent has taken up no other command. */
    ghost predicate Follows(s: State, s': State) {
      && s.issued <= s'.issued && Grows(s.outcomes, s'.outcomes)
      && id < |s.agents| && id < |s'.agents|
      && s'.agents[id].lastSeq == s.agents[id].lastSeq && s'.agents[id].executed == s.agents[id].executed
    }

    constructor (id: nat, memory: Memory)
      requires memory.Valid() && id < memory.n
      ensures this.id == id && this.memory == memory && Valid() && !rendezvousComplete
    {
      this.id, this.memory := id, memory;
      rendezvousComplete, lastCommandSeq := false, memory.state.agents[id].lastSeq;
    }

    /** Polls for the controller's signal, one batch of notices a poll, until it has come or the polls
        are used up. Nothing else lets the agent take up commands. */
    method WaitForRendezvous(polls: seq<map<string, Notice>>, controllerName: string) returns (ok: bool)
      modifies this`rendezvousComplete
      ensures ok == rendezvousComplete
      ensures ok <==>
        (old(rendezvousComplete) || exists t :: 0 <= t < |polls| && controllerName in polls[t]
                                                && polls[t][controllerName] == RendezvousComplete)
    {
      if rendezvousComplete {
        return true;
      }
      for t := 0 to |polls|
        invariant !rendezvousComplete && forall k | 0 <= k < t :: !Signals(polls[k], controllerName)
      {
        if Signals(polls[t], controllerName) {
          rendezvousComplete := true;
          return true;
        }
      }
      return false;
    }

    /** Takes up a command with a new sequence number, runs the test, and reports if it initiated it. */
    method PollAndExecuteCommand() returns (executed: bool)
      requires Valid() && Me().activity.Polling?
      modifies this, memory
      ensures Valid() && Me().activity.Polling? && rendezvousComplete == old(rendezvousComplete)
      ensures executed == (rendezvousComplete && old(Me().inbox.commandSeq) > old(lastCommandSeq))
      ensures !executed ==> memory.state == old(memory.state) && lastCommandSeq == old(lastCommandSeq)
      ensures executed ==>
        lastCommandSeq == old(Me().inbox.commandSeq) && Me().executed == old(Me().executed) + [lastCommandSeq]
      ensures executed && old(Me().inbox.role) == Initiator ==> HasOutcome(lastCommandSeq)
    {
      if !rendezvousComplete {
        return false;
      }
      var cmd := Me().inbox;
      if cmd.commandSeq == 0 || cmd.commandSeq <= lastCommandSeq {
        return false;
      }
      memory.Do(Accept(id));
      lastCommandSeq := cmd.commandSeq;
      var result: TestResult;
      if cmd.kind == PingPong {
        result := ExecutePingPong(cmd);
      } else {
        result := ExecuteBandwidth(cmd);
      }
      if cmd.role == Initiator {
        ReportedHasOutcome();
        var _ := ReportResult(result);
      }
      return true;
    }

    /** Command number k has an outcome, decided by this agent. */
    ghost predicate HasOutcome(k: nat)
      reads memory
    {
      k in memory.state.outcomes
      && OutcomeOf(memory.state.issued, memory.state.outcomes, k, id, memory.state.outcomes[k])
    }

    lemma ReportedHasOutcome()
      requires Valid() && Me().activity.Reporting?
      ensures HasOutcome(lastCommandSeq)
    {
      ReachableConsistent(memory.n, memory.state);
      assert AgentOk(memory.state.issued, memory.state.outcomes, id, Me());
    }

    /** A step of this agent's own. */
    method Step(action: Action)
      requires Valid() && By(action, TheAgent(id)) && AgentEnabled(Me(), action) && !action.Accept?
      modifies memory
      ensures Valid() && Follows(old(memory.state), memory.state)
      ensures SameButMail(Stepped(id, old(Me()), action), Me())
      ensures action == Report(id, true) ==> memory.state.slots[id] == old(Me().activity.result)
    {
      ReachableConsistent(memory.n, memory.state);
      GrowsInStep(memory.state, memory.n, action);
      AgentStepShape(memory.state, action);
      memory.Do(action);
    }

    /** Waits until the mailbox holds a sequence number beyond the last one seen, or time is up. */
    method AwaitMailbox(lastSeen: nat) returns (arrived: bool)
      requires Valid()
      modifies memory
      ensures Valid() && Kept(TheAgent(id), old(memory.state), memory.state)
      ensures arrived == (Me().mailbox.sequence > lastSeen)
    {
      var patience: nat := *;
      while Me().mailbox.sequence <= lastSeen
        invariant Valid() && Kept(TheAgent(id), old(memory.state), memory.state)
        decreases patience
      {
        if patience == 0 {
          return false;
        }
        memory.Others(TheAgent(id));
        patience := patience - 1;
      }
      return true;
    }

    /** An initiator with i rounds behind it. */
    ghost predicate InitiatorAt(cmd: Command, i: nat, lastSeen: nat, samples: seq<Sample>)
      reads memory
      requires id < |memory.state.agents|
    {
      && i <= cmd.Rounds() && Me().lastSeen == lastSeen && Me().samples == samples
      && Me().activity == if i < cmd.Rounds() then Sending(cmd, i, 0)
                              else Reporting(ResultOf(id, cmd, COMPLETE, 0, samples))
    }

    /** A responder with i rounds behind it. */
    ghost predicate ResponderAt(cmd: Command, i: nat, lastSeen: nat)
      reads memory
      requires id < |memory.state.agents|
    {
      && i <= cmd.Rounds() && Me().lastSeen == lastSeen
      && Me().activity == if i < cmd.Rounds() then AwaitingSignal(cmd, i) else Polling
    }

    /** Sends ping after ping and waits for each pong; or waits for each ping and answers it. */
    method ExecutePingPong(cmd: Command) returns (result: TestResult)
      requires Valid() && Me().activity == Starting(cmd) && cmd.kind == PingPong
      modifies memory
      ensures Valid() && Follows(old(memory.state), memory.state)
      ensures if cmd.role == Initiator then Me().activity == Reporting(result) else Me().activity.Polling?
      ensures EndsWith(result, cmd, id, if cmd.role == Initiator then {1, 2} else {3})
    {
      hide Reachable;
      var totalIterations := (cmd.warmup + cmd.iterations) % UINT32;
      Step(Reset(id));
      if cmd.role == Responder {
        result := Respond(cmd, totalIterations, 3);
        return;
      }
      var myLastSeenSeq, latencies, i := 0, [], 0;
      while i < totalIterations
        invariant Valid() && Follows(old(memory.state), memory.state) && InitiatorAt(cmd, i, myLastSeenSeq, latencies)
      {
        memory.Others(TheAgent(id));
        var sent: bool := *;
        Step(Signal(id, sent));
        if !sent {
          return ResultOf(id, cmd, ERROR, 1, []);
        }
        var arrived, reply, rtt := AwaitReply(cmd, i, myLastSeenSeq);
        if !arrived {
          return ResultOf(id, cmd, ERROR, 2, []);
        }
        myLastSeenSeq := reply.sequence;
        if i >= cmd.warmup {
          latencies := latencies + [Sample(i, reply, rtt)];
        }
        i := i + 1;
      }
      result := ResultOf(id, cmd, COMPLETE, 0, latencies);
    }

    /** Writes windows of slots, each followed by a signal, and waits for each acknowledgement; or
        waits for each signal and acknowledges it. */
    method ExecuteBandwidth(cmd: Command) returns (result: TestResult)
      requires Valid() && Me().activity == Starting(cmd) && cmd.kind == Bandwidth
      modifies memory
      ensures Valid() && Follows(old(memory.state), memory.state)
      ensures if cmd.role == Initiator then Me().activity == Reporting(result) else Me().activity.Polling?
      ensures var product := (if cmd.window > 0 then cmd.window else 64)
                             * if cmd.messageSize > 0 then cmd.messageSize else 4 * 1024 * 1024;
        if product % UINT64 > COMMAND_INBOX_OFFSET then result.status == ERROR && EndsWith(result, cmd, id, {10})
        else EndsWith(result, cmd, id, if cmd.role == Initiator then {11, 12, 13} else {14})
    {
      hide Reachable;
      var totalIterations := (cmd.warmup + cmd.iterations) % UINT32;
      var windowSize := if cmd.window > 0 then cmd.window else DEFAULT_WINDOW;
      var messageSize := if cmd.messageSize > 0 then cmd.messageSize else DEFAULT_MESSAGE_SIZE;
      Step(Reset(id));
      if windowSize * messageSize % UINT64 > COMMAND_INBOX_OFFSET {
        return ResultOf(id, cmd, ERROR, 10, []);
      }
      if cmd.role == Responder {
        result := Respond(cmd, totalIterations, 14);
        return;
      }
      var myLastSeenSeq, transfers, i := 0, [], 0;
      while i < totalIterations
        invariant Valid() && Follows(old(memory.state), memory.state) && InitiatorAt(cmd, i, myLastSeenSeq, transfers)
      {
        var failure := SendWindow(cmd, i, windowSize);
        if failure != 0 {
          return ResultOf(id, cmd, ERROR, failure, []);
        }
        var arrived, reply, elapsed := AwaitReply(cmd, i, myLastSeenSeq);
        if !arrived {
          return ResultOf(id, cmd, ERROR, 13, []);
        }
        myLastSeenSeq := reply.sequence;
        if i >= cmd.warmup {
          transfers := transfers + [Sample(i, reply, elapsed)];
        }
        i := i + 1;
      }
      result := ResultOf(id, cmd, COMPLETE, 0, transfers);
    }

    /** One window: a write to every slot, then the signal. */
    method SendWindow(cmd: Command, i: nat, windowSize: nat) returns (failure: nat)
      requires Valid() && cmd.kind == Bandwidth && Me().activity == Sending(cmd, i, 0) && windowSize == cmd.Slots()
      modifies memory
      ensures Valid() && Follows(old(memory.state), memory.state)
      ensures Me().lastSeen == old(Me().lastSeen) && Me().samples == old(Me().samples)
      ensures Me().activity == if failure == 0 then AwaitingReply(cmd, i)
                                     else Reporting(ResultOf(id, cmd, ERROR, failure, []))
      ensures failure == 0 ==> Me().slotWrites == old(Me().slotWrites) + windowSize && Me().sent == old(Me().sent) + 1
      ensures failure == 0 || failure == 11 || failure == 12
    {
      hide Reachable;
      for slot := 0 to windowSize
        invariant Valid() && Follows(old(memory.state), memory.state) && Me().activity == Sending(cmd, i, slot)
        invariant Me().lastSeen == old(Me().lastSeen) && Me().samples == old(Me().samples)
        invariant Me().slotWrites == old(Me().slotWrites) + slot && Me().sent == old(Me().sent)
      {
        memory.Others(TheAgent(id));
        var written: bool := *;
        Step(WriteSlot(id, written));
        if !written {
          return 11;
        }
      }
      memory.Others(TheAgent(id));
      var sent: bool := *;
      Step(Signal(id, sent));
      return if sent then 0 else 12;
    }

    /** Waits for the answer to round i and takes the time. */
    method AwaitReply(cmd: Command, i: nat, lastSeen: nat) returns (arrived: bool, reply: Mail, elapsed: nat)
      requires Valid() && Me().activity == AwaitingReply(cmd, i) && i < cmd.Rounds() && Me().lastSeen == lastSeen
      modifies memory
      ensures Valid() && Follows(old(memory.state), memory.state)
      ensures !arrived ==>
        Me().activity == Reporting(ResultOf(id, cmd, ERROR, if cmd.kind == PingPong then 2 else 13, []))
      ensures arrived ==> lastSeen < reply.sequence
      ensures arrived ==>
        InitiatorAt(cmd, i + 1, reply.sequence,
                    old(Me().samples) + if i < cmd.warmup then [] else [Sample(i, reply, elapsed)])
    {
      hide Reachable;
      reply, elapsed := Me().mailbox, *;
      arrived := AwaitMailbox(lastSeen);
      if arrived {
        reply := Me().mailbox;
        Step(SeeReply(id, elapsed));
      } else {
        Step(ReplyTimeout(id));
      }
    }

    /** The responder's rounds; a failed answer is logged and otherwise ignored. */
    method Respond(cmd: Command, totalIterations: nat, timeoutCode: nat) returns (result: TestResult)
      requires Valid() && ResponderAt(cmd, 0, 0) && totalIterations == cmd.Rounds()
      modifies memory
      ensures Valid() && Follows(old(memory.state), memory.state) && Me().activity.Polling?
      ensures result.status == COMPLETE ==> Me().seen == old(Me().seen) + totalIterations
      ensures EndsWith(result, cmd, id, {timeoutCode})
    {
      hide Reachable;
      var myLastSeenSeq, i := 0, 0;
      while i < totalIterations
        invariant Valid() && Follows(old(memory.state), memory.state) && ResponderAt(cmd, i, myLastSeenSeq)
        invariant Me().seen == old(Me().seen) + i
      {
        var arrived := AwaitMailbox(myLastSeenSeq);
        if !arrived {
          Step(SignalTimeout(id));
          return ResultOf(id, cmd, ERROR, timeoutCode, []);
        }
        myLastSeenSeq := Me().mailbox.sequence;
        Step(SeeSignal(id));
        memory.Others(TheAgent(id));
        var answered: bool := *;
        Step(Reply(id, answered));
        i := i + 1;
      }
      result := ResultOf(id, cmd, COMPLETE, 0, []);
    }

    /** Writes the result into this agent's slot at the controller. */
    method ReportResult(result: TestResult) returns (written: bool)
      requires Valid() && Me().activity == Reporting(result)
      modifies memory
      ensures Valid() && Follows(old(memory.state), memory.state) && Me().activity.Polling?
      ensures written ==> memory.state.slots[id] == result
    {
      memory.Others(TheAgent(id));
      written := *;
      Step(Report(id, written));
    }
  }
}
