/** The controller's side of the protocol as the loops it runs: issuing a test, waiting for its
    result, and going through all pairs of agents. Between its steps the agents take theirs. */
module ControllerProcess {
  import opened Common
  import opened Protocol
  import opened Freshness
  import opened SharedMemory
  import Measurements
  import LatencyCsv

  /** The result is that of a test between the two agents it names, as its initiator decided it. */
  ghost predicate Recorded(s: State, r: LatencyCsv.LatencyResult) {
    exists k :: RecordOf(s, k, r)
  }

  ghost predicate RecordOf(s: State, k: nat, r: LatencyCsv.LatencyResult) {
    && 0 < k <= |s.issued| && s.issued[k - 1].initiator == r.initiatorId && s.issued[k - 1].responder == r.responderId
    && k in s.outcomes && OutcomeOf(s.issued, s.outcomes, k, r.initiatorId, s.outcomes[k])
    && Summarizes(r, s.outcomes[k])
  }

  /** What the controller keeps of a result: average, least and greatest sample (zeros if there is
      none), and whether the test completed. */
  ghost predicate Summarizes(r: LatencyCsv.LatencyResult, result: TestResult) {
    var latencies := Nanoseconds(result.samples);
    && r.success == (result.status == COMPLETE) && r.avgLatencyNs == Measurements.Average(latencies)
    && if latencies == [] then r.minLatencyNs == r.maxLatencyNs == 0
       else r.minLatencyNs in latencies && r.maxLatencyNs in latencies
            && forall x | x in latencies :: r.minLatencyNs <= x <= r.maxLatencyNs
  }

  /** The stored average never exceeds the stored maximum; it reaches the stored minimum if and only if
      what is left of the sum in 64 bits is large enough. */
  lemma StoredAverageBetweenIff(s: State, k: nat, r: LatencyCsv.LatencyResult)
    requires RecordOf(s, k, r)
    ensures var latencies := Nanoseconds(s.outcomes[k].samples);
      && r.avgLatencyNs <= r.maxLatencyNs
      && (r.minLatencyNs <= r.avgLatencyNs
          <==> r.minLatencyNs * |latencies| <= Measurements.Sum(latencies) % UINT64)
  {
    var latencies := Nanoseconds(s.outcomes[k].samples);
    if latencies != [] {
      Measurements.AverageBetweenIff(latencies, r.minLatencyNs, r.maxLatencyNs);
    }
  }

  function Nanoseconds(samples: seq<Sample>): (r: seq<nat>)
    ensures |r| == |samples| && forall k | 0 <= k < |samples| :: r[k] == samples[k].nanoseconds
  {
    seq(|samples|, k requires 0 <= k < |samples| => samples[k].nanoseconds)
  }

  lemma RecordedStays(s: State, s': State, r: LatencyCsv.LatencyResult)
    requires Recorded(s, r) && s.issued <= s'.issued && Grows(s.outcomes, s'.outcomes)
    ensures Recorded(s', r)
  {
    var k :| RecordOf(s, k, r);
    OutcomeFrame(s.issued, s'.issued, s.outcomes, s'.outcomes, k, r.initiatorId, s.outcomes[k]);
    assert s'.issued[k - 1] == s.issued[k - 1];
    assert RecordOf(s', k, r);
  }

  /** The agent's slot holds a final result of this test. */
  predicate Arrived(s: State, id: nat, expectedSeq: nat) {
    id < |s.slots| && s.slots[id].commandSeq == expectedSeq && s.slots[id].status != PENDING
  }

  /** Pairs in the order of the double loop over i < j. */
  predicate Earlier(r: LatencyCsv.LatencyResult, q: LatencyCsv.LatencyResult) {
    r.initiatorId < q.initiatorId || (r.initiatorId == q.initiatorId && r.responderId < q.responderId)
  }

  /** All stored results are recorded, in order, and come before pair (i, j). */
  ghost predicate AllStored(s: State, n: nat, results: seq<LatencyCsv.LatencyResult>, i: nat, j: nat) {
    && (forall r | r in results :: r.initiatorId < r.responderId < n && Recorded(s, r)
          && (r.initiatorId < i || (r.initiatorId == i && r.responderId < j)))
    && forall a, b | 0 <= a < b < |results| :: Earlier(results[a], results[b])
  }

  /** One more result, or none, for pair (i, j). */
  ghost predicate Stored(s: State, before: seq<LatencyCsv.LatencyResult>, after: seq<LatencyCsv.LatencyResult>, i: nat,
                         j: nat) {
    after == before
    || (|after| == |before| + 1 && after[..|before|] == before
        && var r := after[|before|]; r.initiatorId == i && r.responderId == j && Recorded(s, r))
  }

  lemma StoredStep(s: State, s': State, n: nat, before: seq<LatencyCsv.LatencyResult>,
                   after: seq<LatencyCsv.LatencyResult>, i: nat, j: nat)
    requires AllStored(s, n, before, i, j) && i < j < n && Stored(s', before, after, i, j)
    requires s.issued <= s'.issued && Grows(s.outcomes, s'.outcomes)
    ensures AllStored(s', n, after, i, j + 1)
  {
    forall r | r in before
      ensures Recorded(s', r)
    {
      RecordedStays(s, s', r);
    }
    hide Recorded;
    forall a | 0 <= a < |before|
      ensures after[a] == before[a] && before[a] in before
    {
      assert after[..|before|][a] == before[a];
    }
  }

  ghost predicate IssuedSince(s: State, s': State, tests: seq<Test>) {
    s'.issued == s.issued + tests
  }

  lemma RowAfterRows(s0: State, s: State, s': State, loaded: seq<bool>, like: Test, i: nat)
    requires IssuedSince(s0, s, TestsBefore(loaded, like, i))
    requires IssuedSince(s, s', RowTests(loaded, like, i, |loaded|))
    ensures IssuedSince(s0, s', TestsBefore(loaded, like, i + 1))
  {
    hide RowTests;
  }

  /** Nothing issued or decided is undone. */
  ghost predicate Follows(s: State, s': State) {
    s.issued <= s'.issued && Grows(s.outcomes, s'.outcomes)
  }

  lemma FollowsThen(s: State, t: State, u: State)
    requires Follows(s, t) && Follows(t, u)
    ensures Follows(s, u)
  {
  }

  lemma NothingYet(s: State, n: nat, loaded: seq<bool>, like: Test)
    ensures AllStored(s, n, [], 0, 1) && TakenSince(s, s, []) && Follows(s, s)
    ensures IssuedSince(s, s, TestsBefore(loaded, like, 0))
  {
  }

  lemma StoredRow(s: State, n: nat, results: seq<LatencyCsv.LatencyResult>, i: nat)
    requires AllStored(s, n, results, i, n)
    ensures AllStored(s, n, results, i + 1, i + 2)
  {
    hide Recorded;
  }

  /** The checks made before a command is numbered. */
  predicate Accepts(loaded: seq<bool>, test: Test) {
    && test.initiator < |loaded| && test.responder < |loaded| && test.initiator != test.responder
    && (test.kind == PingPong ==> test.messageSize <= MAILBOX_SIZE - MAILBOX_HEADER_SIZE)
    && loaded[test.initiator] && loaded[test.responder]
  }

  /** The accepted tests of row i, columns below j; all with the parameters of `like`. */
  function RowTests(loaded: seq<bool>, like: Test, i: nat, j: nat): seq<Test> {
    if j <= i + 1 then []
    else
      var test := like.(initiator := i, responder := j - 1);
      RowTests(loaded, like, i, j - 1) + if Accepts(loaded, test) then [test] else []
  }

  /** The accepted tests of all rows below i. */
  function TestsBefore(loaded: seq<bool>, like: Test, i: nat): seq<Test> {
    if i == 0 then [] else TestsBefore(loaded, like, i - 1) + RowTests(loaded, like, i - 1, |loaded|)
  }

  /** An accepted test of a pair, the smaller id first, with the parameters of `like`. */
  predicate IsPairTest(loaded: seq<bool>, like: Test, test: Test) {
    test == like.(initiator := test.initiator, responder := test.responder)
    && test.initiator < test.responder && Accepts(loaded, test)
  }

  predicate PairEarlier(t: Test, u: Test) {
    t.initiator < u.initiator || (t.initiator == u.initiator && t.responder < u.responder)
  }

  ghost predicate PairsInOrder(tests: seq<Test>) {
    forall k, m | 0 <= k < m < |tests| :: PairEarlier(tests[k], tests[m])
  }

  /** All accepted tests of row i with columns below j, in order. */
  ghost predicate RowOf(loaded: seq<bool>, like: Test, tests: seq<Test>, i: nat, j: nat) {
    && PairsInOrder(tests)
    && forall t :: t in tests <==> IsPairTest(loaded, like, t) && t.initiator == i && t.responder < j
  }

  /** All accepted tests of the rows below i, in order. */
  ghost predicate RowsOf(loaded: seq<bool>, like: Test, tests: seq<Test>, i: nat) {
    && PairsInOrder(tests)
    && forall t :: t in tests <==> IsPairTest(loaded, like, t) && t.initiator < i
  }

  lemma {:induction false} RowTestsExact(loaded: seq<bool>, like: Test, i: nat, j: nat)
    ensures RowOf(loaded, like, RowTests(loaded, like, i, j), i, j)
  {
    if j > i + 1 {
      RowTestsExact(loaded, like, i, j - 1);
    }
  }

  lemma {:induction false} TestsBeforeExact(loaded: seq<bool>, like: Test, i: nat)
    ensures RowsOf(loaded, like, TestsBefore(loaded, like, i), i)
  {
    hide RowOf, RowTests;
    if i > 0 {
      hide RowsOf;
      TestsBeforeExact(loaded, like, i - 1);
      RowTestsExact(loaded, like, i - 1, |loaded|);
      var rows := TestsBefore(loaded, like, i - 1);
      assert TestsBefore(loaded, like, i) == rows + RowTests(loaded, like, i - 1, |loaded|);
      hide TestsBefore;
      RowsAndRow(loaded, like, rows, RowTests(loaded, like, i - 1, |loaded|), i - 1);
    }
  }

  lemma RowsAndRow(loaded: seq<bool>, like: Test, rows: seq<Test>, row: seq<Test>, i: nat)
    requires RowsOf(loaded, like, rows, i) && RowOf(loaded, like, row, i, |loaded|)
    ensures RowsOf(loaded, like, rows + row, i + 1)
  {
    assert forall t :: IsPairTest(loaded, like, t) ==> t.responder < |loaded|;
    hide IsPairTest;
  }

  /** The double loop meets exactly the accepted pairs i < j, each once, in order. */
  lemma PairTestsExact(loaded: seq<bool>, like: Test)
    ensures forall t :: t in TestsBefore(loaded, like, |loaded|) <==> IsPairTest(loaded, like, t)
    ensures PairsInOrder(TestsBefore(loaded, like, |loaded|))
  {
    TestsBeforeExact(loaded, like, |loaded|);
  }

  /** r is what is kept of c. */
  ghost predicate Keeps(r: LatencyCsv.LatencyResult, c: Collected) {
    r.initiatorId == c.test.initiator && r.responderId == c.test.responder && Summarizes(r, c.result)
  }

  ghost predicate AllKept(results: seq<LatencyCsv.LatencyResult>, collected: seq<Collected>) {
    |results| == |collected| && forall k | 0 <= k < |results| :: Keeps(results[k], collected[k])
  }

  /** Every result collected between s0 and s is stored, and no other. */
  ghost predicate TakenSince(s0: State, s: State, results: seq<LatencyCsv.LatencyResult>) {
    s0.collected <= s.collected && AllKept(results, s.collected[|s0.collected|..])
  }

  /** One more result has been collected, and it has been stored. */
  ghost predicate TookOne(s: State, s': State, before: seq<LatencyCsv.LatencyResult>,
                          after: seq<LatencyCsv.LatencyResult>) {
    && |s'.collected| == |s.collected| + 1 && s'.collected[..|s.collected|] == s.collected
    && |after| == |before| + 1 && after[..|before|] == before
    && Keeps(after[|before|], s'.collected[|s.collected|])
  }

  lemma KeptStep(s0: State, s: State, s': State, before: seq<LatencyCsv.LatencyResult>,
                 after: seq<LatencyCsv.LatencyResult>)
    requires TakenSince(s0, s, before) && TookOne(s, s', before, after)
    ensures TakenSince(s0, s', after)
  {
    hide Keeps;
    var c := s'.collected[|s.collected|];
    assert s'.collected == s.collected + [c];
    assert s'.collected[|s0.collected|..] == s.collected[|s0.collected|..] + [c];
    assert after == before + [after[|before|]];
  }

  /** What the samples of a collected result average to. */
  ghost function AverageOf(c: Collected): nat {
    Measurements.Average(Nanoseconds(c.result.samples))
  }

  /** c is the result of a completed test between i and j. */
  ghost predicate CompletedBetween(c: Collected, i: nat, j: nat) {
    && c.result.status == COMPLETE
    && ((c.test.initiator == i && c.test.responder == j) || (c.test.initiator == j && c.test.responder == i))
  }

  /** The cells of a pair hold the average of its completed test, or zero if none of its tests completed. */
  ghost predicate HoldsAverages(cells: LatencyCsv.Cells, collected: seq<Collected>, i: nat, j: nat)
    requires i < |cells| && j < |cells[i]|
  {
    && (forall c | c in collected && CompletedBetween(c, i, j) && AverageOf(c) < LatencyCsv.INT64_LIMIT ::
          cells[i][j] == AverageOf(c))
    && ((forall c | c in collected :: !CompletedBetween(c, i, j)) ==> cells[i][j] == 0)
  }

  /** Results of different pairs, in order, each with the smaller id first. */
  ghost predicate InPairOrder(results: seq<LatencyCsv.LatencyResult>) {
    && (forall r | r in results :: r.initiatorId < r.responderId)
    && forall a, b | 0 <= a < b < |results| :: Earlier(results[a], results[b])
  }

  lemma OnlyOneOfPair(results: seq<LatencyCsv.LatencyResult>, i: nat, j: nat, k: nat, m: nat)
    requires InPairOrder(results) && k < m < |results|
    requires (results[k].initiatorId == i && results[k].responderId == j)
      || (results[k].initiatorId == j && results[k].responderId == i)
    ensures !(results[m].initiatorId == i && results[m].responderId == j)
    ensures !(results[m].initiatorId == j && results[m].responderId == i)
  {
    assert results[k] in results && results[m] in results;
    assert Earlier(results[k], results[m]);
  }

  lemma CellOfPair(results: seq<LatencyCsv.LatencyResult>, collected: seq<Collected>, i: nat, j: nat, k: nat)
    requires AllKept(results, collected) && InPairOrder(results)
    requires k < |collected| && CompletedBetween(collected[k], i, j) && AverageOf(collected[k]) < LatencyCsv.INT64_LIMIT
    ensures LatencyCsv.Latest(results, i, j) == AverageOf(collected[k])
  {
    assert Keeps(results[k], collected[k]);
    forall m | k < m < |results|
      ensures !(results[m].initiatorId == i && results[m].responderId == j)
      ensures !(results[m].initiatorId == j && results[m].responderId == i)
    {
      OnlyOneOfPair(results, i, j, k, m);
    }
    LatencyCsv.LatestExact(results, i, j, k);
  }

  lemma CellOfNone(results: seq<LatencyCsv.LatencyResult>, collected: seq<Collected>, i: nat, j: nat)
    requires AllKept(results, collected) && forall c | c in collected :: !CompletedBetween(c, i, j)
    ensures LatencyCsv.Latest(results, i, j) == 0
  {
    forall r | r in results && r.success
      ensures !(r.initiatorId == i && r.responderId == j) && !(r.initiatorId == j && r.responderId == i)
    {
      var k :| 0 <= k < |results| && results[k] == r;
      assert Keeps(results[k], collected[k]) && collected[k] in collected;
    }
    LatencyCsv.UnmeasuredIsZero(results, i, j);
  }

  lemma CellsHoldAverages(n: nat, results: seq<LatencyCsv.LatencyResult>, collected: seq<Collected>, i: nat, j: nat)
    requires AllKept(results, collected) && InPairOrder(results) && i < n && j < n
    ensures HoldsAverages(LatencyCsv.LatestTable(n, results), collected, i, j)
  {
    hide AllKept, InPairOrder, LatencyCsv.Latest;
    forall c | c in collected && CompletedBetween(c, i, j) && AverageOf(c) < LatencyCsv.INT64_LIMIT
      ensures LatencyCsv.Latest(results, i, j) == AverageOf(c)
    {
      var k :| 0 <= k < |collected| && collected[k] == c;
      CellOfPair(results, collected, i, j, k);
    }
    if forall c | c in collected :: !CompletedBetween(c, i, j) {
      CellOfNone(results, collected, i, j);
    }
  }

  lemma StoredInPairOrder(s: State, n: nat, results: seq<LatencyCsv.LatencyResult>, i: nat, j: nat)
    requires AllStored(s, n, results, i, j)
    ensures InPairOrder(results)
  {
    hide Recorded;
  }

  /** The tests of a latency phase, one for each accepted pair i < j, in row order: ping-pong, with the
      parameters of the phase. */
  ghost predicate IsLatencyPhase(loaded: seq<bool>, tests: seq<Test>, messageSize: nat, iterations: nat, warmup: nat) {
    && (forall t :: t in tests <==>
          && t.kind == PingPong && t.messageSize == messageSize && t.iterations == iterations
          && t.warmup == warmup && t.window == 0
          && t.initiator < t.responder < |loaded| && loaded[t.initiator] && loaded[t.responder]
          && messageSize <= MAILBOX_SIZE - MAILBOX_HEADER_SIZE)
    && forall k, m | 0 <= k < m < |tests| ::
         tests[k].initiator < tests[m].initiator
         || (tests[k].initiator == tests[m].initiator && tests[k].responder < tests[m].responder)
  }

  lemma PhaseTests(loaded: seq<bool>, messageSize: nat, iterations: nat, warmup: nat)
    ensures var like := Test(0, 0, PingPong, messageSize, iterations, warmup, 0);
      IsLatencyPhase(loaded, TestsBefore(loaded, like, |loaded|), messageSize, iterations, warmup)
  {
    PairTestsExact(loaded, Test(0, 0, PingPong, messageSize, iterations, warmup, 0));
    hide TestsBefore;
  }

  /** How one latency test ends for the controller. */
  datatype TestEnd = Refused | NotDelivered | NotArrived | Taken

  predicate AllRegistered(poll: seq<bool>) {
    forall i | 0 <= i < |poll| :: poll[i]
  }

  /** Agent i was registered in one of the first t polls. */
  ghost predicate SeenIn(polls: seq<seq<bool>>, t: nat, i: nat) {
    exists k :: 0 <= k < t && k < |polls| && i < |polls[k]| && polls[k][i]
  }

  lemma ArrivedIsOutcome(n: nat, s: State, id: nat, k: nat)
    requires Reachable(n, s) && Arrived(s, id, k)
    ensures OutcomeOf(s.issued, s.outcomes, k, id, s.slots[id])
  {
    ReachableConsistent(n, s);
    assert SlotOk(s, id);
  }

  lemma LatestIs(n: nat, s: State, test: Test)
    requires Reachable(n, s) && s.phase == Waiting(test)
    ensures s.issued != [] && s.issued[|s.issued| - 1] == test
  {
    ReachableConsistent(n, s);
  }

  /** What collecting and storing a result that has arrived amounts to. */
  lemma TakenResult(n: nat, s: State, test: Test, before: seq<LatencyCsv.LatencyResult>,
                    after: seq<LatencyCsv.LatencyResult>)
    requires Reachable(n, s) && Enabled(s, Collect) && s.phase == Waiting(test)
    requires Arrived(s, test.initiator, |s.issued|)
    requires |after| == |before| + 1 && after[..|before|] == before
    requires var r := after[|before|];
      && r.initiatorId == test.initiator && r.responderId == test.responder
      && Summarizes(r, s.slots[test.initiator])
    ensures var s' := Apply(s, Collect);
      && s'.issued == s.issued && TookOne(s, s', before, after)
      && Stored(s', before, after, test.initiator, test.responder)
  {
    ArrivedIsOutcome(n, s, test.initiator, |s.issued|);
    LatestIs(n, s, test);
    hide Reachable, Summarizes;
    assert RecordOf(Apply(s, Collect), |s.issued|, after[|before|]);
  }

  class ControllerLoop {
    const memory: Memory
    var metadataLoaded: seq<bool>
    var commandSeq: nat
    var latencyResults: seq<LatencyCsv.LatencyResult>

    ghost predicate Valid()
      reads this, memory
    {
      memory.Valid() && commandSeq == |memory.state.issued| && |metadataLoaded| == memory.n
    }

    constructor (memory: Memory)
      requires memory.Valid()
      ensures this.memory == memory && Valid() && latencyResults == []
      ensures forall i | 0 <= i < memory.n :: !metadataLoaded[i]
    {
      this.memory := memory;
      metadataLoaded := seq(memory.n, _ => false);
      commandSeq, latencyResults := |memory.state.issued|, [];
    }

    /** Polls the agents' slots until all are filled in, or the polls are used up, and loads the metadata
        of each agent seen on the way; loading may fail, and is then tried again at the next poll. */
    method WaitForAllAgents(polls: seq<seq<bool>>) returns (ok: bool)
      requires Valid() && forall t | 0 <= t < |polls| :: |polls[t]| == memory.n
      modifies this`metadataLoaded
      ensures Valid() && (ok <==> exists t :: 0 <= t < |polls| && AllRegistered(polls[t]))
      ensures forall i | 0 <= i < memory.n :: old(metadataLoaded)[i] ==> metadataLoaded[i]
      ensures forall i | 0 <= i < memory.n && metadataLoaded[i] && !old(metadataLoaded)[i] :: SeenIn(polls, |polls|, i)
    {
      for t := 0 to |polls|
        invariant Valid() && forall k | 0 <= k < t :: !AllRegistered(polls[k])
        invariant forall i | 0 <= i < memory.n :: old(metadataLoaded)[i] ==> metadataLoaded[i]
        invariant forall i | 0 <= i < memory.n && metadataLoaded[i] && !old(metadataLoaded)[i] :: SeenIn(polls, t, i)
      {
        var allRegistered := ScanRegistered(polls, t, old(metadataLoaded));
        if allRegistered {
          return true;
        }
      }
      return false;
    }

    method ScanRegistered(polls: seq<seq<bool>>, t: nat, ghost before: seq<bool>) returns (allRegistered: bool)
      requires Valid() && t < |polls| && |polls[t]| == memory.n == |before|
      requires forall i | 0 <= i < memory.n && metadataLoaded[i] && !before[i] :: SeenIn(polls, t, i)
      modifies this`metadataLoaded
      ensures Valid() && allRegistered == AllRegistered(polls[t])
      ensures forall i | 0 <= i < memory.n :: old(metadataLoaded)[i] ==> metadataLoaded[i]
      ensures forall i | 0 <= i < memory.n && metadataLoaded[i] && !before[i] :: SeenIn(polls, t + 1, i)
    {
      allRegistered := true;
      for i := 0 to memory.n
        invariant Valid() && (allRegistered <==> forall k | 0 <= k < i :: polls[t][k])
        invariant forall k | 0 <= k < memory.n :: old(metadataLoaded)[k] ==> metadataLoaded[k]
        invariant forall k | 0 <= k < memory.n && metadataLoaded[k] && !before[k] :: SeenIn(polls, t + 1, k)
      {
        if !polls[t][i] {
          allRegistered := false;
        } else if !metadataLoaded[i] {
          assert SeenIn(polls, t + 1, i);
          var loads: bool := *;
          metadataLoaded := metadataLoaded[i := loads];
        }
      }
    }

    /** A step of the controller's own. */
    method Step(action: Action)
      requires memory.Valid() && Enabled(memory.state, action) && !IsAgentAction(action)
      modifies memory
      ensures memory.Valid() && memory.state == Apply(old(memory.state), action)
      ensures Follows(old(memory.state), memory.state)
    {
      ReachableConsistent(memory.n, memory.state);
      GrowsInStep(memory.state, memory.n, action);
      StepAdvances(memory.state, memory.n, action);
      memory.Do(action);
    }

    /** The agent that plays a role in the latest test has its command in the inbox. */
    ghost predicate Delivered(test: Test, role: Role)
      reads this, memory
    {
      var agent, peer := if role == Initiator then test.initiator else test.responder,
                         if role == Initiator then test.responder else test.initiator;
      agent < |memory.state.agents|
      && memory.state.agents[agent].inbox == Command(commandSeq, role, peer, test.kind, test.messageSize,
                                                     test.iterations, test.warmup, test.window)
    }

    /** Numbers a test and writes its commands, the responder's first. A refused test is not
        numbered; a failed write leaves a number that no later test takes. */
    method IssueTest(test: Test) returns (ok: bool)
      requires Valid() && memory.state.phase.Idle?
      requires test.messageSize < UINT64 && test.iterations < UINT32 && test.warmup < UINT32 && test.window < UINT32
      modifies this`commandSeq, memory
      ensures Valid() && Follows(old(memory.state), memory.state)
      ensures !Accepts(metadataLoaded, test) ==> !ok && memory.state == old(memory.state)
      ensures Accepts(metadataLoaded, test) ==> memory.state.issued == old(memory.state).issued + [test]
      ensures memory.state.collected == old(memory.state).collected
      ensures memory.state.phase == if ok then Waiting(test) else Idle
      ensures ok ==> Delivered(test, Responder) && Delivered(test, Initiator)
    {
      if !Accepts(metadataLoaded, test) {
        return false;
      }
      commandSeq := commandSeq + 1;
      var written: bool := *;
      Step(IssueToResponder(test, written));
      if !written {
        return false;
      }
      memory.Others(TheController);
      written := *;
      Step(IssueToInitiator(written));
      return written;
    }

    /** Polls the result slots until all hold a final result of the expected test, or time is up (after
        so many polls); then one of them was still missing at the last poll.
        The slots are read one after another; for the latest test a slot that has been seen filled
        stays as it is, so on success all of them still hold that test's result. */
    method WaitForResults(agentIds: seq<nat>, expectedSeq: nat, polls: nat) returns (ok: bool, ghost last: State)
      requires Valid()
      modifies memory
      ensures Valid() && Kept(TheController, old(memory.state), memory.state)
      ensures ok ==> forall id | id in agentIds :: id < memory.n && memory.state.slots[id].commandSeq >= expectedSeq
      ensures ok && expectedSeq == commandSeq ==> forall id | id in agentIds :: Arrived(memory.state, id, expectedSeq)
      ensures Kept(TheController, old(memory.state), last) && Kept(TheController, last, memory.state)
      ensures !ok && polls > 0 ==> exists id :: id in agentIds && !Arrived(last, id, expectedSeq)
    {
      ok, last := false, memory.state;
      for k := 0 to polls
        invariant Valid() && Kept(TheController, old(memory.state), memory.state)
        invariant Kept(TheController, old(memory.state), last) && Kept(TheController, last, memory.state)
        invariant k > 0 ==> exists id :: id in agentIds && !Arrived(last, id, expectedSeq)
      {
        ok := ScanSlots(agentIds, expectedSeq);
        last := memory.state;
        if ok {
          return;
        }
        memory.Others(TheController);
      }
    }

    /** One pass over the slots, up to the first that is not there yet. */
    method ScanSlots(agentIds: seq<nat>, expectedSeq: nat) returns (allComplete: bool)
      requires Valid()
      modifies memory
      ensures Valid() && Kept(TheController, old(memory.state), memory.state)
      ensures allComplete ==> forall id | id in agentIds ::
        id < memory.n && memory.state.slots[id].commandSeq >= expectedSeq
      ensures allComplete && expectedSeq == commandSeq ==> forall id | id in agentIds ::
        Arrived(memory.state, id, expectedSeq)
      ensures !allComplete ==> exists id :: id in agentIds && !Arrived(memory.state, id, expectedSeq)
    {
      hide Reachable;
      for k := 0 to |agentIds|
        invariant Valid() && Kept(TheController, old(memory.state), memory.state)
        invariant forall m | 0 <= m < k ::
          agentIds[m] < memory.n && memory.state.slots[agentIds[m]].commandSeq >= expectedSeq
        invariant expectedSeq == commandSeq ==> forall m | 0 <= m < k :: Arrived(memory.state, agentIds[m], expectedSeq)
      {
        ghost var s := memory.state;
        memory.Others(TheController);
        forall m | 0 <= m < k && expectedSeq == commandSeq
          ensures Arrived(memory.state, agentIds[m], expectedSeq)
        {
          ArrivedStays(s, agentIds[m]);
        }
        var id := agentIds[k];
        if id >= memory.n || memory.state.slots[id].commandSeq != expectedSeq
           || memory.state.slots[id].status == PENDING {
          assert id in agentIds && !Arrived(memory.state, id, expectedSeq);
          return false;
        }
      }
      return true;
    }

    lemma ArrivedStays(s: State, id: nat)
      requires Valid() && Kept(TheController, s, memory.state) && |s.slots| == memory.n && Arrived(s, id, commandSeq)
      ensures Arrived(memory.state, id, commandSeq)
    {
      ReachableConsistent(memory.n, memory.state);
      assert SlotOk(memory.state, id);
    }

    method StoreTestResult(initiatorId: nat, responderId: nat, result: TestResult)
      modifies this`latencyResults
      ensures |latencyResults| == |old(latencyResults)| + 1
      ensures latencyResults[..|old(latencyResults)|] == old(latencyResults)
      ensures var r := latencyResults[|old(latencyResults)|];
        r.initiatorId == initiatorId && r.responderId == responderId && Summarizes(r, result)
    {
      var latencies := Nanoseconds(result.samples);
      var minimum, maximum, average := 0, 0, 0;
      if latencies != [] {
        minimum, maximum, average := Measurements.Summarize(latencies);
      }
      var r := LatencyCsv.LatencyResult(initiatorId, responderId, average, minimum, maximum, result.status == COMPLETE);
      latencyResults := latencyResults + [r];
    }

    /** One latency test: issued if it is accepted, and for no other reason not; awaited for so many
        polls; and stored if its result has arrived by the last of them. */
    method RunLatencyTest(test: Test, polls: nat) returns (end: TestEnd, ghost last: State)
      requires Valid() && memory.state.phase.Idle?
      requires test.messageSize < UINT64 && test.iterations < UINT32 && test.warmup < UINT32 && test.window < UINT32
      modifies this`commandSeq, this`latencyResults, memory
      ensures Valid() && memory.state.phase.Idle? && Follows(old(memory.state), memory.state)
      ensures end.Refused? <==> !Accepts(metadataLoaded, test)
      ensures memory.state.issued == old(memory.state).issued + if end.Refused? then [] else [test]
      ensures if end.Taken? then TookOne(old(memory.state), memory.state, old(latencyResults), latencyResults)
              else latencyResults == old(latencyResults) && memory.state.collected == old(memory.state).collected
      ensures Stored(memory.state, old(latencyResults), latencyResults, test.initiator, test.responder)
      ensures end.NotArrived? && polls > 0 ==>
        !Arrived(last, test.initiator, commandSeq) && last.issued == memory.state.issued
    {
      hide Reachable;
      last := memory.state;
      if !Accepts(metadataLoaded, test) {
        return Refused, last;
      }
      var issued := IssueTest(test);
      if !issued {
        return NotDelivered, last;
      }
      var arrived;
      arrived, last := WaitForResults([test.initiator], commandSeq, polls);
      if !arrived {
        Step(GiveUp);
        return NotArrived, last;
      }
      assert test.initiator in [test.initiator];
      TakeResult(test);
      return Taken, last;
    }

    /** The result that has arrived for the latest test is taken and stored. */
    method TakeResult(test: Test)
      requires Valid() && memory.state.phase == Waiting(test) && Arrived(memory.state, test.initiator, commandSeq)
      modifies this`latencyResults, memory
      ensures Valid() && memory.state.phase.Idle? && Follows(old(memory.state), memory.state)
      ensures memory.state.issued == old(memory.state).issued
      ensures TookOne(old(memory.state), memory.state, old(latencyResults), latencyResults)
      ensures Stored(memory.state, old(latencyResults), latencyResults, test.initiator, test.responder)
    {
      hide Reachable, Summarizes, Stored, TookOne, Follows;
      Step(Collect);
      StoreTestResult(test.initiator, test.responder, memory.state.slots[test.initiator]);
      TakenResult(memory.n, old(memory.state), test, old(latencyResults), latencyResults);
    }

    /** Latency tests of all pairs i < j, one after another: exactly the accepted pairs are issued, in
        order; every result that is collected is stored; and every stored result belongs to a test of
        just its pair, decided by its initiator. */
    method RunLatencyTests(like: Test, polls: nat)
      requires Valid() && memory.state.phase.Idle? && latencyResults == []
      requires like.messageSize < UINT64 && like.iterations < UINT32 && like.warmup < UINT32 && like.window < UINT32
      modifies this`commandSeq, this`latencyResults, memory
      ensures Valid() && memory.state.phase.Idle? && Follows(old(memory.state), memory.state)
      ensures IssuedSince(old(memory.state), memory.state, TestsBefore(metadataLoaded, like, memory.n))
      ensures TakenSince(old(memory.state), memory.state, latencyResults)
      ensures AllStored(memory.state, memory.n, latencyResults, memory.n, memory.n + 1)
    {
      hide AllStored, TakenSince, Accepts, Reachable, Follows, TestsBefore, RowTests, IssuedSince;
      ghost var s0, loaded := memory.state, metadataLoaded;
      NothingYet(s0, memory.n, loaded, like);
      for i := 0 to memory.n
        invariant Valid() && metadataLoaded == loaded && memory.state.phase.Idle? && Follows(s0, memory.state)
        invariant IssuedSince(s0, memory.state, TestsBefore(loaded, like, i))
        invariant TakenSince(s0, memory.state, latencyResults)
        invariant AllStored(memory.state, memory.n, latencyResults, i, i + 1)
      {
        ghost var s := memory.state;
        RunRow(i, like, polls, s0);
        RowAfterRows(s0, s, memory.state, loaded, like, i);
      }
    }

    /** The inner loop. */
    method RunRow(i: nat, like: Test, polls: nat, ghost s0: State)
      requires Valid() && memory.state.phase.Idle? && i < memory.n
      requires Follows(s0, memory.state) && TakenSince(s0, memory.state, latencyResults)
      requires like.messageSize < UINT64 && like.iterations < UINT32 && like.warmup < UINT32 && like.window < UINT32
      requires AllStored(memory.state, memory.n, latencyResults, i, i + 1)
      modifies this`commandSeq, this`latencyResults, memory
      ensures Valid() && memory.state.phase.Idle?
      ensures Follows(s0, memory.state) && TakenSince(s0, memory.state, latencyResults)
      ensures IssuedSince(old(memory.state), memory.state, RowTests(metadataLoaded, like, i, memory.n))
      ensures AllStored(memory.state, memory.n, latencyResults, i + 1, i + 2)
    {
      hide AllStored, TookOne, Stored, Accepts, Reachable, Grows;
      for j := i + 1 to memory.n
        invariant Valid() && memory.state.phase.Idle?
        invariant Follows(s0, memory.state) && TakenSince(s0, memory.state, latencyResults)
        invariant IssuedSince(old(memory.state), memory.state, RowTests(metadataLoaded, like, i, j))
        invariant AllStored(memory.state, memory.n, latencyResults, i, j)
      {
        ghost var s, results := memory.state, latencyResults;
        var end, _ := RunLatencyTest(like.(initiator := i, responder := j), polls);
        FollowsThen(s0, s, memory.state);
        StoredStep(s, memory.state, memory.n, results, latencyResults, i, j);
        if end.Taken? {
          KeptStep(s0, s, memory.state, results, latencyResults);
        }
      }
      StoredRow(memory.state, memory.n, latencyResults, i);
    }

    /** The latency phase: all accepted pairs are tested, then the matrix is written. The cells of a pair
        hold the average of its completed test, or zero. */
    method MeasureLatencies(messageSize: nat, iterations: nat, warmup: nat, polls: nat)
      returns (text: string, ghost tests: seq<Test>, ghost cells: LatencyCsv.Cells)
      requires Valid() && memory.state.phase.Idle? && latencyResults == []
      requires messageSize < UINT64 && iterations < UINT32 && warmup < UINT32
      modifies this`commandSeq, this`latencyResults, memory
      ensures Valid() && Follows(old(memory.state), memory.state)
      ensures memory.state.issued == old(memory.state).issued + tests
      ensures IsLatencyPhase(metadataLoaded, tests, messageSize, iterations, warmup)
      ensures old(memory.state).collected <= memory.state.collected
      ensures text == LatencyCsv.CsvText(cells) && |cells| == memory.n
      ensures forall i, j | 0 <= i < memory.n && 0 <= j < memory.n ::
        |cells[i]| == memory.n
        && HoldsAverages(cells, memory.state.collected[|old(memory.state).collected|..], i, j)
    {
      hide IsLatencyPhase, TestsBefore, AllStored, AllKept, InPairOrder, Follows, Reachable, HoldsAverages;
      ghost var s0 := memory.state;
      var like := Test(0, 0, PingPong, messageSize, iterations, warmup, 0);
      RunLatencyTests(like, polls);
      PhaseTests(metadataLoaded, messageSize, iterations, warmup);
      tests := TestsBefore(metadataLoaded, like, memory.n);
      text := LatencyCsv.WriteCsv(memory.n, latencyResults);
      cells := LatencyCsv.LatestTable(memory.n, latencyResults);
      StoredInPairOrder(memory.state, memory.n, latencyResults, memory.n, memory.n + 1);
      forall i: nat, j: nat | i < memory.n && j < memory.n
        ensures HoldsAverages(cells, memory.state.collected[|s0.collected|..], i, j)
      {
        CellsHoldAverages(memory.n, latencyResults, memory.state.collected[|s0.collected|..], i, j);
      }
    }
  }
}
