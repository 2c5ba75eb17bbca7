/** The memory that controller and agents share, as one of them sees it: it takes its own steps, and
    between them the others take theirs, any number and in any order. */
module SharedMemory {
  import opened Protocol
  import opened Freshness

  datatype Party = TheController | TheAgent(id: nat)

  predicate By(action: Action, party: Party) {
    match party
    case TheController => !IsAgentAction(action)
    case TheAgent(id) => IsAgentAction(action) && action.a == id
  }

  /** Results already in a slot are not replaced by older or different ones. */
  ghost predicate SlotsAdvance(s: State, s': State) {
    && |s'.slots| == |s.slots|
    && forall a | 0 <= a < |s.slots| ::
         s.slots[a].commandSeq <= s'.slots[a].commandSeq
         && (s.slots[a].commandSeq == s'.slots[a].commandSeq ==> s.slots[a] == s'.slots[a])
  }

  /** What a party can rely on while the others take steps. */
  ghost predicate Kept(party: Party, s: State, s': State) {
    && |s'.agents| == |s.agents| && s.issued <= s'.issued && Grows(s.outcomes, s'.outcomes) && SlotsAdvance(s, s')
    && match party
       case TheController =>
         && s'.phase == s.phase && s'.issued == s.issued && s'.collected == s.collected
         && forall a | 0 <= a < |s.agents| :: s'.agents[a].inbox == s.agents[a].inbox
       case TheAgent(id) => id < |s.agents| ==>
         s'.agents[id] == s.agents[id].(mailbox := s'.agents[id].mailbox, inbox := s'.agents[id].inbox)
  }

  lemma KeptTransitive(party: Party, s: State, t: State, u: State)
    requires Kept(party, s, t) && Kept(party, t, u)
    ensures Kept(party, s, u)
  {
  }

  lemma StepAdvances(s: State, n: nat, action: Action)
    requires Consistent(s, n) && Enabled(s, action)
    ensures Grows(s.outcomes, Apply(s, action).outcomes) && SlotsAdvance(s, Apply(s, action))
  {
    StepConsistent(s, n, action);
    forall a | 0 <= a < n
      ensures s.slots[a].commandSeq <= Apply(s, action).slots[a].commandSeq
      ensures s.slots[a].commandSeq == Apply(s, action).slots[a].commandSeq ==> s.slots[a] == Apply(s, action).slots[a]
    {
      NoOlderInStep(s, n, action, a);
    }
    GrowsInStep(s, n, action);
  }

  lemma GrowsInStep(s: State, n: nat, action: Action)
    requires Consistent(s, n) && Enabled(s, action)
    ensures Grows(s.outcomes, Apply(s, action).outcomes)
  {
    if IsAgentAction(action) {
      AgentStepMoves(s, n, action);
    } else {
      ControllerShape(s, n, action);
    }
  }

  lemma OthersKeep(s: State, n: nat, action: Action, party: Party)
    requires Consistent(s, n) && Enabled(s, action) && !By(action, party)
    ensures Kept(party, s, Apply(s, action))
  {
    StepAdvances(s, n, action);
    if IsAgentAction(action) {
      AgentStepShape(s, action);
      assert Stepped(action.a, s.agents[action.a], action).inbox == s.agents[action.a].inbox;
    } else {
      ControllerShape(s, n, action);
    }
  }

  lemma ReachableConsistent(n: nat, s: State)
    requires Reachable(n, s)
    ensures Consistent(s, n)
  {
    var actions :| Runs(Start(n), actions, s);
    StartConsistent(n);
    RunConsistent(n, Start(n), actions, s);
  }

  class Memory {
    const n: nat
    var state: State

    ghost predicate Valid()
      reads this
    {
      Reachable(n, state) && |state.agents| == |state.slots| == n
    }

    constructor (n: nat)
      ensures Valid() && this.n == n && state == Start(n)
    {
      this.n := n;
      state := Start(n);
      new;
      LeadsToSelf(state);
    }

    /** One atomic step. */
    method Do(action: Action)
      requires Valid() && Enabled(state, action)
      modifies this
      ensures Valid() && state == Apply(old(state), action)
    {
      ReachableStep(n, state, action);
      ReachableConsistent(n, Apply(state, action));
      state := Apply(state, action);
    }

    /** The others take any number of steps. */
    method Others(party: Party)
      requires Valid()
      modifies this
      ensures Valid() && Kept(party, old(state), state)
    {
      var turns: nat := *;
      while turns > 0
        invariant Valid() && Kept(party, old(state), state)
        decreases turns
      {
        var action: Action := *;
        if !By(action, party) && Enabled(state, action) {
          ReachableConsistent(n, state);
          OthersKeep(state, n, action, party);
          KeptTransitive(party, old(state), state, Apply(state, action));
          Do(action);
        }
        turns := turns - 1;
      }
    }
  }
}
