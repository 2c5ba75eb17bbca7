/** From registration to the first command: agents register, learn of the rendezvous, connect to
    their peers and announce it; the controller counts the announcements and opens the gate. */
module Rendezvous {
  import opened Common
  datatype Note = AgentRegistered | PeerDiscoveryComplete

  // ----- collecting notices

  function CountTrue(s: seq<bool>): nat {
    if s == [] then 0 else CountTrue(s[..|s| - 1]) + if s[|s| - 1] then 1 else 0
  }

  lemma {:induction false} CountSet(s: seq<bool>, i: nat)
    requires i < |s| && !s[i]
    ensures CountTrue(s[i := true]) == CountTrue(s) + 1
  {
    var t := s[i := true];
    if i < |s| - 1 {
      CountSet(s[..|s| - 1], i);
      assert t[..|t| - 1] == s[..|s| - 1][i := true];
    } else {
      assert t[..|t| - 1] == s[..|s| - 1];
    }
  }

  lemma {:induction false} CountAll(s: seq<bool>)
    ensures CountTrue(s) <= |s|
    ensures CountTrue(s) == |s| <==> forall i | 0 <= i < |s| :: s[i]
  {
    if s != [] {
      var t := s[..|s| - 1];
      CountAll(t);
      assert forall i | 0 <= i < |t| :: t[i] == s[i];
    }
  }

  lemma {:induction false} CountNone(n: nat)
    ensures CountTrue(seq(n, _ => false)) == 0
  {
    if n > 0 {
      CountNone(n - 1);
      assert seq(n, _ => false)[..n - 1] == seq(n - 1, _ => false);
    }
  }

  /** Several messages of one sender collapse to the last. */
  method LastMessages(queued: map<string, seq<Note>>) returns (result: map<string, Note>)
    ensures forall k :: k in result <==> k in queued && queued[k] != []
    ensures forall k | k in result :: result[k] == queued[k][|queued[k]| - 1]
  {
    result := map[];
    var senders := queued.Keys;
    while senders != {}
      invariant senders <= queued.Keys
      invariant forall k :: k in result <==> k in queued && k !in senders && queued[k] != []
      invariant forall k | k in result :: result[k] == queued[k][|queued[k]| - 1]
      decreases senders
    {
      var sender :| sender in senders;
      var messages := queued[sender];
      ghost var before := result;
      for m := 0 to |messages|
        invariant forall k :: k in result <==> k in before || (k == sender && m > 0)
        invariant forall k | k in result :: result[k] == if k == sender then messages[m - 1] else before[k]
      {
        result := result[sender := messages[m]];
      }
      senders := senders - {sender};
    }
  }

  ghost predicate DistinctNames(names: seq<string>) {
    forall i, j | 0 <= i < j < |names| :: names[i] != names[j]
  }

  /** The agent of this name has announced, judging by its last message. */
  predicate Announces(names: seq<string>, result: map<string, Note>, i: nat)
    requires i < |names|
  {
    names[i] in result && result[names[i]] == PeerDiscoveryComplete
  }

  /** One pass over the notices: an agent's flag is set at most once, and the counter keeps up. */
  method MarkDone(names: seq<string>, result: map<string, Note>, done: array<bool>, count: nat) returns (count': nat)
    requires |names| == done.Length && DistinctNames(names) && count == CountTrue(done[..])
    modifies done
    ensures count' == CountTrue(done[..])
    ensures forall i | 0 <= i < |names| :: done[i] == (old(done[i]) || Announces(names, result, i))
  {
    count' := count;
    var senders := result.Keys;
    while senders != {}
      invariant senders <= result.Keys && count' == CountTrue(done[..])
      invariant forall i | 0 <= i < |names| ::
        done[i] == (old(done[i]) || (names[i] !in senders && Announces(names, result, i)))
      decreases senders
    {
      var sender :| sender in senders;
      if result[sender] == PeerDiscoveryComplete {
        count' := MarkSender(names, sender, done, count');
      }
      senders := senders - {sender};
    }
  }

  method MarkSender(names: seq<string>, sender: string, done: array<bool>, count: nat) returns (count': nat)
    requires |names| == done.Length && DistinctNames(names) && count == CountTrue(done[..])
    modifies done
    ensures count' == CountTrue(done[..])
    ensures forall i | 0 <= i < |names| :: done[i] == (old(done[i]) || names[i] == sender)
  {
    count' := count;
    for i := 0 to |names|
      invariant done[..] == old(done[..]) && count' == count
      invariant forall k | 0 <= k < i :: names[k] == sender ==> done[k]
    {
      if names[i] == sender && !done[i] {
        CountSet(done[..], i);
        ghost var was := done[..];
        done[i] := true;
        assert done[..] == was[i := true];
        count' := count' + 1;
        break;
      }
    }
  }

  /** The last notice of a queue is the announcement. */
  predicate SaysDone(queue: seq<Note>) {
    queue != [] && queue[|queue| - 1] == PeerDiscoveryComplete
  }

  /** The notices fetched in one poll end with this sender's announcement. */
  predicate AnnouncedIn(batch: map<string, seq<Note>>, name: string) {
    name in batch && SaysDone(batch[name])
  }

  ghost predicate AnnouncedWithin(batches: seq<map<string, seq<Note>>>, t: nat, name: string) {
    exists b :: 0 <= b < t && b < |batches| && AnnouncedIn(batches[b], name)
  }

  /** One poll: the notices are collapsed and the flags brought up to date. */
  method PollOnce(names: seq<string>, batch: map<string, seq<Note>>, done: array<bool>, count: nat)
    returns (count': nat)
    requires |names| == done.Length && DistinctNames(names) && count == CountTrue(done[..])
    modifies done
    ensures count' == CountTrue(done[..])
    ensures forall i | 0 <= i < |names| :: done[i] == (old(done[i]) || AnnouncedIn(batch, names[i]))
  {
    var notifications := LastMessages(batch);
    count' := MarkDone(names, notifications, done, count);
  }

  /** The flags after t polls. */
  ghost predicate FlagsAfter(names: seq<string>, batches: seq<map<string, seq<Note>>>, t: nat, done: seq<bool>) {
    |done| == |names| && forall i | 0 <= i < |names| :: done[i] <==> AnnouncedWithin(batches, t, names[i])
  }

  lemma FlagsStep(names: seq<string>, batches: seq<map<string, seq<Note>>>, t: nat, done: seq<bool>, done': seq<bool>)
    requires t < |batches| && FlagsAfter(names, batches, t, done) && |done'| == |names|
    requires forall i | 0 <= i < |names| :: done'[i] == (done[i] || AnnouncedIn(batches[t], names[i]))
    ensures FlagsAfter(names, batches, t + 1, done')
  {
    hide AnnouncedIn, AnnouncedWithin;
    forall i | 0 <= i < |names|
      ensures done'[i] <==> AnnouncedWithin(batches, t + 1, names[i])
    {
      AnnouncedStep(batches, t, names[i]);
    }
  }

  lemma AllFlags(names: seq<string>, batches: seq<map<string, seq<Note>>>, t: nat, done: seq<bool>)
    requires t <= |batches| && FlagsAfter(names, batches, t, done)
    ensures CountTrue(done) <= |names|
    ensures CountTrue(done) == |names| || t == |batches| ==>
      (CountTrue(done) == |names| <==> forall i | 0 <= i < |names| :: AnnouncedWithin(batches, |batches|, names[i]))
  {
    CountAll(done);
    forall i | 0 <= i < |names| && AnnouncedWithin(batches, t, names[i])
      ensures AnnouncedWithin(batches, |batches|, names[i])
    {
      var b :| 0 <= b < t && AnnouncedIn(batches[b], names[i]);
    }
  }

  /** Polls for notices, one batch a poll, until everybody has announced or the polls are used up.
      It succeeds if and only if each agent announced itself in some poll as its last message. */
  method WaitForPeerDiscovery(names: seq<string>, batches: seq<map<string, seq<Note>>>) returns (ok: bool)
    requires DistinctNames(names)
    ensures ok <==> forall i | 0 <= i < |names| :: AnnouncedWithin(batches, |batches|, names[i])
  {
    var done := new bool[|names|](_ => false);
    var doneCount, t := 0, 0;
    CountNone(|names|);
    assert done[..] == seq(|names|, _ => false);
    while t < |batches| && doneCount < |names|
      invariant t <= |batches| && doneCount == CountTrue(done[..]) && FlagsAfter(names, batches, t, done[..])
    {
      hide AnnouncedIn, FlagsAfter;
      ghost var before := done[..];
      doneCount := PollOnce(names, batches[t], done, doneCount);
      FlagsStep(names, batches, t, before, done[..]);
      t := t + 1;
    }
    AllFlags(names, batches, t, done[..]);
    ok := doneCount == |names|;
  }

  lemma AnnouncedStep(batches: seq<map<string, seq<Note>>>, t: nat, name: string)
    requires t < |batches|
    ensures AnnouncedWithin(batches, t + 1, name)
      <==> AnnouncedWithin(batches, t, name) || AnnouncedIn(batches[t], name)
  {
    if AnnouncedWithin(batches, t, name) {
      var b :| 0 <= b < t && AnnouncedIn(batches[b], name);
      assert AnnouncedWithin(batches, t + 1, name);
    }
  }

  // ----- the whole protocol

  datatype AgentPhase = Joining | Registered | Released | Connected | Announced | Failed

  datatype Control = Registering | Signalled | Testing | Stopped

  /** populated: slots the agents filled in; connected: peers an agent can write to; queued: notices
      of an agent that the controller has not fetched yet. */
  datatype State = State(agents: seq<AgentPhase>, populated: seq<bool>, connected: seq<set<nat>>,
                         queued: seq<seq<Note>>, done: seq<bool>, doneCount: nat, control: Control, commands: nat)

  function Start(n: nat): State {
    State(seq(n, _ => Joining), seq(n, _ => false), seq(n, _ => {}),
          seq(n, _ => []), seq(n, _ => false), 0, Registering, 0)
  }

  datatype Action =
    | Register(a: nat)
    | SignalRendezvous
    | Release(a: nat)
    | Discover(a: nat, loaded: set<nat>)
    | Announce(a: nat)
    | Fail(a: nat)
    | Gather
    | OpenGate
    | GiveUp
    | IssueCommand

  ghost predicate Shaped(s: State, n: nat) {
    |s.agents| == |s.populated| == |s.connected| == |s.queued| == |s.done| == n
  }

  predicate Enabled(s: State, n: nat, action: Action) {
    && |s.agents| == |s.populated| == |s.connected| == |s.queued| == |s.done| == n
    && match action
       case Register(a) => a < n && s.agents[a] == Joining
       case SignalRendezvous => s.control == Registering && forall a | 0 <= a < n :: s.populated[a]
       case Release(a) => a < n && s.agents[a] == Registered && s.control != Registering
       case Discover(a, _) => a < n && s.agents[a] == Released
       case Announce(a) => a < n && s.agents[a] == Connected
       case Fail(a) => a < n
       case Gather => s.control == Signalled
       case OpenGate => s.control == Signalled && s.doneCount == n
       case GiveUp => s.control != Testing
       case IssueCommand => s.control == Testing
  }

  /** The peers agent a can reach: itself, and those whose slot is populated and whose metadata loads. */
  function Reached(s: State, n: nat, a: nat, loaded: set<nat>): set<nat>
    requires |s.populated| == n
  {
    set p | 0 <= p < n && (p == a || (s.populated[p] && p in loaded))
  }

  function Apply(s: State, n: nat, action: Action): State
    requires Enabled(s, n, action)
  {
    match action
    case Register(a) =>
      s.(agents := s.agents[a := Registered], populated := s.populated[a := true],
         queued := s.queued[a := s.queued[a] + [AgentRegistered]])
    case SignalRendezvous => s.(control := Signalled)
    case Release(a) => s.(agents := s.agents[a := Released])
    case Discover(a, loaded) =>
      var reached := Reached(s, n, a, loaded);
      s.(connected := s.connected[a := reached],
         agents := s.agents[a := if reached == Below(n) then Connected else Failed])
    case Announce(a) =>
      s.(agents := s.agents[a := Announced], queued := s.queued[a := s.queued[a] + [PeerDiscoveryComplete]])
    case Fail(a) => s.(agents := s.agents[a := Failed])
    case Gather =>
      var done := seq(n, i requires 0 <= i < n => s.done[i] || SaysDone(s.queued[i]));
      s.(done := done, doneCount := CountTrue(done), queued := seq(n, _ => []))
    case OpenGate => s.(control := Testing)
    case GiveUp => s.(control := Stopped)
    case IssueCommand => s.(commands := s.commands + 1)
  }

  /** An agent is connected by a discovery exactly when each other slot is populated and its metadata loads. */
  lemma DiscoverConnectsIff(s: State, n: nat, a: nat, loaded: set<nat>)
    requires Enabled(s, n, Discover(a, loaded))
    ensures Apply(s, n, Discover(a, loaded)).agents[a] == Connected
      <==> forall p | 0 <= p < n && p != a :: s.populated[p] && p in loaded
  {
    var reached := Reached(s, n, a, loaded);
    if forall p | 0 <= p < n && p != a :: s.populated[p] && p in loaded {
      assert reached == Below(n);
    }
    if reached == Below(n) {
      forall p: nat | p < n && p != a
        ensures s.populated[p] && p in loaded
      {
        assert p in Below(n);
      }
    }
  }

  /** The part of the invariant about one agent. */
  ghost predicate AgentInOrder(s: State, n: nat, a: nat)
    requires Shaped(s, n) && a < n
  {
    && ((s.agents[a] == Connected || s.agents[a] == Announced || s.done[a] || SaysDone(s.queued[a])) ==>
          s.connected[a] == Below(n))
    && (s.agents[a] == Announced ==> s.done[a] || SaysDone(s.queued[a]))
    && (s.agents[a] == Joining || s.agents[a] == Registered || s.agents[a] == Released || s.agents[a] == Connected ==>
          !s.done[a] && !SaysDone(s.queued[a]))
  }

  ghost predicate InOrder(s: State, n: nat) {
    && Shaped(s, n) && s.doneCount == CountTrue(s.done)
    && (forall a | 0 <= a < n :: AgentInOrder(s, n, a))
    && (s.control == Testing ==> forall a | 0 <= a < n :: s.done[a])
    && (s.commands > 0 ==> s.control == Testing)
  }

  lemma StepKeepsOrder(s: State, n: nat, action: Action)
    requires InOrder(s, n) && Enabled(s, n, action)
    ensures InOrder(Apply(s, n, action), n)
  {
    CountAll(s.done);
    var s' := Apply(s, n, action);
    forall a | 0 <= a < n
      ensures AgentInOrder(s', n, a)
    {
      assert AgentInOrder(s, n, a);
    }
  }

  ghost predicate Runs(s: State, n: nat, actions: seq<Action>, s': State)
    decreases |actions|
  {
    if actions == [] then s == s' else Enabled(s, n, actions[0]) && Runs(Apply(s, n, actions[0]), n, actions[1..], s')
  }

  lemma {:induction false} RunKeepsOrder(s: State, n: nat, actions: seq<Action>, s': State)
    requires InOrder(s, n) && Runs(s, n, actions, s')
    ensures InOrder(s', n)
    decreases |actions|
  {
    if actions != [] {
      StepKeepsOrder(s, n, actions[0]);
      RunKeepsOrder(Apply(s, n, actions[0]), n, actions[1..], s');
    }
  }

  /** In every run, whatever fails or times out on the way: the controller's counter is the number
      of flags set, an agent that has announced is either flagged or its announcement is the last
      message waiting, and no command is written before every agent can reach every peer. */
  lemma NoCommandBeforeAllConnected(n: nat, actions: seq<Action>, s: State)
    requires Runs(Start(n), n, actions, s)
    ensures Shaped(s, n) && s.doneCount == CountTrue(s.done)
    ensures forall a | 0 <= a < n && s.agents[a] == Announced :: s.done[a] || SaysDone(s.queued[a])
    ensures s.commands > 0 ==> forall a | 0 <= a < n :: s.done[a] && s.connected[a] == Below(n)
  {
    CountNone(n);
    RunKeepsOrder(Start(n), n, actions, s);
    forall a | 0 <= a < n
      ensures s.agents[a] == Announced ==> s.done[a] || SaysDone(s.queued[a])
      ensures s.done[a] ==> s.connected[a] == Below(n)
    {
      assert AgentInOrder(s, n, a);
    }
  }

  /** A gathering that follows the last announcement opens the gate. */
  lemma AllAnnouncedOpensGate(n: nat, actions: seq<Action>, s: State)
    requires Runs(Start(n), n, actions, s) && s.control == Signalled
    requires forall a | 0 <= a < |s.agents| :: s.agents[a] == Announced
    ensures Enabled(s, n, Gather) && Enabled(Apply(s, n, Gather), n, OpenGate)
  {
    NoCommandBeforeAllConnected(n, actions, s);
    CountAll(Apply(s, n, Gather).done);
  }

  // ----- the waiting loop and the step system

  /** The messages waiting at each gathering of a run. */
  ghost function Gathered(s: State, n: nat, actions: seq<Action>): seq<seq<seq<Note>>>
    decreases |actions|
  {
    if actions == [] || !Enabled(s, n, actions[0]) then []
    else (if actions[0].Gather? then [s.queued] else []) + Gathered(Apply(s, n, actions[0]), n, actions[1..])
  }

  /** batch delivers under each agent's name the messages that waited for it. */
  ghost predicate Delivers(names: seq<string>, queued: seq<seq<Note>>, batch: map<string, seq<Note>>) {
    && |queued| == |names|
    && forall i | 0 <= i < |names| :: queued[i] == if names[i] in batch then batch[names[i]] else []
  }

  /** One poll of the waiting loop and one gathering set the same flags and count. */
  lemma PollIsGather(s: State, n: nat, names: seq<string>, batch: map<string, seq<Note>>, done: seq<bool>)
    requires Enabled(s, n, Gather) && |names| == |done| == n && Delivers(names, s.queued, batch)
    requires forall i | 0 <= i < n :: done[i] == (s.done[i] || AnnouncedIn(batch, names[i]))
    ensures Apply(s, n, Gather).done == done && Apply(s, n, Gather).doneCount == CountTrue(done)
  {
  }

  ghost predicate SaidDone(gathered: seq<seq<seq<Note>>>, i: nat) {
    exists b :: 0 <= b < |gathered| && i < |gathered[b]| && SaysDone(gathered[b][i])
  }

  lemma SaidDoneMore(first: seq<seq<Note>>, rest: seq<seq<seq<Note>>>, i: nat)
    ensures SaidDone([first] + rest, i) <==> (i < |first| && SaysDone(first[i])) || SaidDone(rest, i)
  {
    if SaidDone(rest, i) {
      var b :| 0 <= b < |rest| && i < |rest[b]| && SaysDone(rest[b][i]);
      assert ([first] + rest)[b + 1] == rest[b];
    }
    assert ([first] + rest)[0] == first;
  }

  /** In every run exactly those agents are flagged whose announcement came last at some gathering. */
  lemma {:induction false} FlagsOfRun(s: State, n: nat, actions: seq<Action>, s': State, i: nat)
    requires Shaped(s, n) && Runs(s, n, actions, s') && i < n
    ensures Shaped(s', n) && (s'.done[i] <==> s.done[i] || SaidDone(Gathered(s, n, actions), i))
    decreases |actions|
  {
    if actions != [] {
      var t := Apply(s, n, actions[0]);
      FlagsOfRun(t, n, actions[1..], s', i);
      if actions[0].Gather? {
        SaidDoneMore(s.queued, Gathered(t, n, actions[1..]), i);
      } else {
        assert Gathered(s, n, actions) == Gathered(t, n, actions[1..]);
      }
    }
  }

  /** The waiting loop refines the gatherings: given the messages that waited at each gathering of a
      run, one batch a gathering, what makes the loop succeed is exactly what lets the gate open. */
  lemma LoopOpensGateIff(n: nat, actions: seq<Action>, s: State, names: seq<string>,
                         batches: seq<map<string, seq<Note>>>)
    requires Runs(Start(n), n, actions, s) && s.control == Signalled && |names| == n
    requires |batches| == |Gathered(Start(n), n, actions)|
    requires forall b | 0 <= b < |batches| :: Delivers(names, Gathered(Start(n), n, actions)[b], batches[b])
    ensures (forall i | 0 <= i < n :: AnnouncedWithin(batches, |batches|, names[i])) <==> Enabled(s, n, OpenGate)
  {
    var gathered := Gathered(Start(n), n, actions);
    NoCommandBeforeAllConnected(n, actions, s);
    CountAll(s.done);
    forall i | 0 <= i < n
      ensures AnnouncedWithin(batches, |batches|, names[i]) <==> s.done[i]
    {
      FlagsOfRun(Start(n), n, actions, s, i);
      SaidDoneNamed(gathered, names, batches, i);
    }
  }

  lemma SaidDoneNamed(gathered: seq<seq<seq<Note>>>, names: seq<string>, batches: seq<map<string, seq<Note>>>, i: nat)
    requires |batches| == |gathered| && i < |names|
    requires forall b | 0 <= b < |batches| :: Delivers(names, gathered[b], batches[b])
    ensures AnnouncedWithin(batches, |batches|, names[i]) <==> SaidDone(gathered, i)
  {
    assert forall b | 0 <= b < |batches| :: AnnouncedIn(batches[b], names[i]) <==> SaysDone(gathered[b][i]);
  }
}
