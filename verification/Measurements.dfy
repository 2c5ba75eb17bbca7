/** Latency statistics of a completed test, and the fit of a transfer window into the test buffer. */
module Measurements {
  import opened Common
  import opened Protocol

  // ----- statistics

  ghost function Sum(s: seq<nat>): nat {
    if s == [] then 0 else Sum(s[..|s| - 1]) + s[|s| - 1]
  }

  /** The average of a test without samples is zero; the sum is taken in 64 bits. */
  ghost function Average(latencies: seq<nat>): nat {
    if latencies == [] then 0 else Sum(latencies) % UINT64 / |latencies|
  }

  /** The statistics an initiator reports. */
  method Summarize(latencies: seq<nat>) returns (minimum: nat, maximum: nat, average: nat)
    requires latencies != []
    ensures minimum in latencies && maximum in latencies
    ensures forall x | x in latencies :: minimum <= x <= maximum
    ensures average == Average(latencies)
  {
    minimum, maximum := Extremes(latencies);
    var sum := WrappedSum(latencies);
    average := sum / |latencies|;
  }

  method Extremes(latencies: seq<nat>) returns (minimum: nat, maximum: nat)
    requires latencies != []
    ensures minimum in latencies && maximum in latencies
    ensures forall x | x in latencies :: minimum <= x <= maximum
  {
    minimum, maximum := latencies[0], latencies[0];
    for i := 0 to |latencies|
      invariant minimum in latencies && maximum in latencies
      invariant forall k | 0 <= k < i :: minimum <= latencies[k] <= maximum
    {
      if latencies[i] < minimum { minimum := latencies[i]; }
      if latencies[i] > maximum { maximum := latencies[i]; }
    }
  }

  method WrappedSum(latencies: seq<nat>) returns (sum: nat)
    ensures sum == Sum(latencies) % UINT64
  {
    sum := 0;
    for i := 0 to |latencies|
      invariant sum == Sum(latencies[..i]) % UINT64
    {
      assert latencies[..i + 1][..i] == latencies[..i];
      SumWraps(Sum(latencies[..i]), latencies[i]);
      sum := (sum + latencies[i]) % UINT64;
    }
    assert latencies[..|latencies|] == latencies;
  }

  lemma SumWraps(a: nat, x: nat)
    ensures (a % UINT64 + x) % UINT64 == (a + x) % UINT64
  {
  }

  lemma OneMore(a: nat, k: nat)
    ensures a * (k + 1) == a * k + a
  {
  }

  lemma {:induction false} SumBounds(s: seq<nat>, low: nat, high: nat)
    requires forall x | x in s :: low <= x <= high
    ensures low * |s| <= Sum(s) <= high * |s|
  {
    if s != [] {
      var t := s[..|s| - 1];
      assert s == t + [s[|s| - 1]];
      assert s[|s| - 1] in s && forall x | x in t :: x in s;
      SumBounds(t, low, high);
      OneMore(low, |t|);
      OneMore(high, |t|);
    }
  }

  /** What the sum is: nothing for no samples, the sample for one, and additive over parts. */
  lemma {:induction false} SumAdds(a: seq<nat>, b: seq<nat>)
    ensures Sum([]) == 0 && Sum(a + b) == Sum(a) + Sum(b)
    ensures |a| == 1 ==> Sum(a) == a[0]
  {
    if |a| == 1 {
      assert a[..0] == [];
    }
    if b == [] {
      assert a + b == a;
    } else {
      assert (a + b)[..|a + b| - 1] == a + b[..|b| - 1];
      SumAdds(a, b[..|b| - 1]);
    }
  }

  /** One more factor of n fits below a larger multiple of it. */
  lemma {:induction false} StepMul(q: nat, p: nat, n: nat)
    requires q < p
    ensures q * n + n <= p * n
    decreases p
  {
    assert p * n == (p - 1) * n + n;
    if q < p - 1 {
      StepMul(q, p - 1, n);
    }
  }

  lemma QuotientAtMost(sum: nat, n: nat, high: nat)
    requires n > 0 && sum <= high * n
    ensures sum / n <= high
  {
    var q := sum / n;
    assert sum == q * n + sum % n;
    if q > high {
      StepMul(high, q, n);
    }
  }

  lemma QuotientAtLeastIff(sum: nat, n: nat, low: nat)
    requires n > 0
    ensures low <= sum / n <==> low * n <= sum
  {
    var q := sum / n;
    assert sum == q * n + sum % n;
    if q < low {
      StepMul(q, low, n);
    } else {
      MoreSlots(low, q, n);
    }
  }

  /** The reported average never exceeds the maximum; and it reaches the minimum if and only if what is
      left of the sum in 64 bits is at least as many times the minimum as there are samples. */
  lemma AverageBetweenIff(latencies: seq<nat>, low: nat, high: nat)
    requires latencies != [] && forall x | x in latencies :: low <= x <= high
    ensures Average(latencies) <= high
    ensures low <= Average(latencies) <==> low * |latencies| <= Sum(latencies) % UINT64
  {
    SumBounds(latencies, low, high);
    WrapsDown(Sum(latencies));
    QuotientAtMost(Sum(latencies) % UINT64, |latencies|, high);
    QuotientAtLeastIff(Sum(latencies) % UINT64, |latencies|, low);
  }

  /** So it lies between the two as long as the sum stays below 2^64. */
  lemma AverageBetween(latencies: seq<nat>, low: nat, high: nat)
    requires latencies != [] && forall x | x in latencies :: low <= x <= high
    requires Sum(latencies) < UINT64
    ensures low <= Average(latencies) <= high
  {
    SumBounds(latencies, low, high);
    AverageBetweenIff(latencies, low, high);
  }

  /** Two samples whose reported average lies below both. */
  lemma AverageBelowMinimum() returns (latencies: seq<nat>)
    ensures |latencies| == 2 && forall x | x in latencies :: Average(latencies) < x < UINT64
  {
    var x := UINT64 - 1;
    latencies := [x, x];
    assert latencies[..1] == [x] && [x][..0] == [];
    assert Sum(latencies) == Sum([x]) + x && Sum([x]) == Sum([]) + x;
    assert Sum(latencies) == UINT64 + (UINT64 - 2);
  }

  /** The average of at least one sample is the whole part of their sum, in 64 bits, over their number. */
  lemma AverageIsQuotient(latencies: seq<nat>)
    requires latencies != []
    ensures var average, n, left := Average(latencies), |latencies|, Sum(latencies) % UINT64;
      average * n <= left < average * n + n
  {
    var n, left := |latencies|, Sum(latencies) % UINT64;
    assert left == left / n * n + left % n;
  }

  /** The reported average is the true one if and only if the sum of the samples did not wrap around. */
  lemma AverageExactIff(latencies: seq<nat>)
    requires 0 < |latencies| < UINT32
    ensures Average(latencies) == Sum(latencies) / |latencies| <==> Sum(latencies) < UINT64
  {
    WrappedQuotientIff(Sum(latencies), |latencies|);
  }

  lemma WrappedQuotientIff(sum: nat, n: nat)
    requires 0 < n < UINT32
    ensures sum % UINT64 / n == sum / n <==> sum < UINT64
  {
    var r := sum % UINT64;
    if sum >= UINT64 {
      assert sum >= r + n;
      QuotientGrows(r, sum, n);
    }
  }

  lemma QuotientGrows(a: nat, b: nat, n: nat)
    requires n > 0 && b >= a + n
    ensures b / n > a / n
  {
    var p, q := a / n, b / n;
    assert a == p * n + a % n && b == q * n + b % n;
    if q < p {
      StepMul(q, p, n);
    }
  }

  // ----- windows

  /** The k-th slot of a bandwidth test ends at or before the command inbox. */
  predicate SlotInBuffer(cmd: Command, k: nat) {
    k * cmd.SlotSize() + cmd.SlotSize() <= COMMAND_INBOX_OFFSET
  }

  lemma SlotsInside(k: nat, slots: nat, size: nat)
    requires k < slots
    ensures k * size + size <= slots * size
  {
    StepMul(k, slots, size);
  }

  /** For a test that passes the agent's capacity check, no slot write reaches the inbox or the
      mailbox behind it, if and only if the checked product did not wrap around 64 bits. */
  lemma SlotWritesStayInBufferIff(cmd: Command)
    requires cmd.kind == Bandwidth && cmd.Fits()
    ensures (forall k: nat | k < cmd.Slots() :: SlotInBuffer(cmd, k)) <==> cmd.Slots() * cmd.SlotSize() < UINT64
  {
    var slots, size := cmd.Slots(), cmd.SlotSize();
    if slots * size < UINT64 {
      forall k: nat | k < slots
        ensures SlotInBuffer(cmd, k)
      {
        SlotsInside(k, slots, size);
      }
    } else {
      assert (slots - 1) * size + size == slots * size;
      assert !SlotInBuffer(cmd, slots - 1);
    }
  }

  const ACK_OFFSET: nat := COMMAND_INBOX_OFFSET - 64

  /** length bytes from offset on have none in common with the k-th of a row of slots. */
  predicate Misses(k: nat, size: nat, offset: nat, length: nat) {
    k * size + size <= offset || offset + length <= k * size
  }

  lemma MissIff(slots: nat, size: nat, offset: nat, length: nat)
    requires size > 0 && length > 0
    ensures (forall k: nat | k < slots :: Misses(k, size, offset, length)) <==> slots * size <= offset
  {
    if slots * size <= offset {
      forall k: nat | k < slots
        ensures Misses(k, size, offset, length)
      {
        SlotsInside(k, slots, size);
      }
    } else {
      var k := SlotOf(offset, size, slots);
      assert !Misses(k, size, offset, length);
    }
  }

  /** The slot in which an offset lies. */
  lemma SlotOf(offset: nat, size: nat, slots: nat) returns (k: nat)
    requires size > 0 && offset < slots * size
    ensures k < slots && k * size <= offset < k * size + size
  {
    k := offset / size;
    assert offset == k * size + offset % size;
    if k >= slots {
      MoreSlots(slots, k, size);
    }
  }

  /** The word at the end of the buffer where an agent prepares its signals and acknowledgements is out
      of reach of the slots written to that agent, if and only if they leave 64 bytes to the inbox;
      its words at the start of the buffer, where pings and results are prepared, are always hit. */
  lemma SlotsMissAckIff(cmd: Command)
    requires cmd.kind == Bandwidth
    ensures (forall k: nat | k < cmd.Slots() :: Misses(k, cmd.SlotSize(), ACK_OFFSET, MAILBOX_HEADER_SIZE))
      <==> cmd.Slots() * cmd.SlotSize() <= ACK_OFFSET
    ensures cmd.Slots() > 0 && !Misses(0, cmd.SlotSize(), 0, MAILBOX_HEADER_SIZE)
  {
    MissIff(cmd.Slots(), cmd.SlotSize(), ACK_OFFSET, MAILBOX_HEADER_SIZE);
  }

  /** The configured window, if its checked size fits; or else the most messages that the buffer
      holds, possibly none. */
  ghost predicate Clamped(window: nat, msgSize: nat, effective: nat) {
    && effective <= window && effective * msgSize % UINT64 <= COMMAND_INBOX_OFFSET
    && (effective == window <==> window * msgSize % UINT64 <= COMMAND_INBOX_OFFSET)
    && (effective < window ==> effective * msgSize <= COMMAND_INBOX_OFFSET < (effective + 1) * msgSize)
  }

  /** The window the controller uses for a message size. */
  method ClampWindow(window: nat, msgSize: nat) returns (effective: nat)
    requires window < UINT32 && msgSize < UINT64
    ensures Clamped(window, msgSize, effective)
  {
    effective := window;
    if window * msgSize % UINT64 > COMMAND_INBOX_OFFSET {
      DividedIsClamped(window, msgSize);
      effective := COMMAND_INBOX_OFFSET / msgSize;
    }
  }

  lemma DividedIsClamped(window: nat, msgSize: nat)
    requires window * msgSize % UINT64 > COMMAND_INBOX_OFFSET
    ensures msgSize > 0 && Clamped(window, msgSize, COMMAND_INBOX_OFFSET / msgSize)
  {
    var product := window * msgSize;
    WrapsDown(product);
    assert msgSize == 0 ==> product == 0;
    QuotientFits(COMMAND_INBOX_OFFSET, msgSize);
    var q := COMMAND_INBOX_OFFSET / msgSize;
    NoWrap(q * msgSize);
    if q >= window {
      MoreSlots(window, q, msgSize);
    }
  }

  lemma WrapsDown(x: nat)
    ensures x % UINT64 <= x
  {
  }

  lemma NoWrap(x: nat)
    requires x < UINT64
    ensures x % UINT64 == x
  {
  }

  lemma QuotientFits(n: nat, k: nat)
    requires k > 0
    ensures n / k * k <= n < (n / k + 1) * k
  {
    var q := n / k;
    assert n == k * q + n % k;
    OneMore(k, q);
  }

  lemma MoreSlots(a: nat, b: nat, size: nat)
    requires a <= b
    ensures a * size <= b * size
  {
    if a < b {
      StepMul(a, b, size);
    }
  }

  /** Whether a test with the clamped window (clamping to none skips the test) passes the agent's
      capacity check: always, if a positive window and message size are configured. A window of zero
      becomes the agent's default of 64, which nobody has clamped; and a message size of zero becomes
      four megabytes, of which 63 fit. */
  lemma ClampedTestFitsIff(window: nat, effective: nat, cmd: Command)
    requires Clamped(window, cmd.messageSize, effective) && (effective == window || effective > 0)
    requires window < UINT32 && cmd.kind == Bandwidth && cmd.window == effective
    ensures cmd.Fits() <==>
      if window == 0 then DEFAULT_WINDOW * cmd.SlotSize() % UINT64 <= COMMAND_INBOX_OFFSET
      else cmd.messageSize > 0 || window <= 63
  {
    if cmd.messageSize == 0 {
      assert effective * 0 == 0 && window * 0 == 0;
      DefaultSizeFitsIff(cmd);
    }
  }

  /** A message size of zero escapes the controller's clamping, because the agent then falls back to
      four megabytes: such a test passes the agent's check if and only if the window has at most 63
      slots, so the default window of 64 fails. */
  lemma DefaultSizeFitsIff(cmd: Command)
    requires cmd.kind == Bandwidth && cmd.messageSize == 0 && cmd.window < UINT32
    ensures cmd.Fits() <==> cmd.Slots() <= 63
  {
    assert cmd.Slots() * cmd.SlotSize() < UINT64;
  }
}
