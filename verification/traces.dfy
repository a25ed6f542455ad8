/**
  The whole debounce engine as one sequential state machine: the hook
  callback and the three configuration commands, interleaved in any order,
  each taken as one atomic step.  The lemmas here are about whole traces.
*/
module Traces {
  import opened Results
  import opened Debounce
  import opened Commands
  import opened Hook

  /** One atomic step: an OS keyboard event with its clock readings, or a command. */
  datatype Input =
    | Keyboard(ev: KeyboardEvent, decideClock: Clock, recordClock: Clock)
    | SetInterval(intervalMs: U64)
    | SetEnabled(enabled: bool)
    | ReadCount

  /** What the step returns to its caller. */
  datatype Output =
    | Hooked(verdict: Verdict)
    | Replied(result: Result<(), string>)
    | Counted(count: U64)

  function Apply(s: State, i: Input): (Output, State) {
    match i
    case Keyboard(ev, dc, rc) =>
      var (v, t) := LowLevelKeyboardProc(s, ev, dc, rc); (Hooked(v), t)
    case SetInterval(ms) =>
      var (res, t) := SetDebounceInterval(s, ms); (Replied(res), t)
    case SetEnabled(b) =>
      var (res, t) := SetKeyfixEnabled(s, b); (Replied(res), t)
    case ReadCount =>
      (Counted(GetBlockedKeypressCount(s)), s)
  }

  /** The state after running `inputs` from `s`, one step at a time. */
  function Run(s: State, inputs: seq<Input>): State
    decreases |inputs|
  {
    if |inputs| == 0 then s
    else Apply(Run(s, inputs[..|inputs| - 1]), inputs[|inputs| - 1]).1
  }

  /** The output of step `m` of `inputs`, taken in the state that precedes it. */
  function OutputAt(s: State, inputs: seq<Input>, m: nat): Output
    requires m < |inputs|
  {
    Apply(Run(s, inputs[..m]), inputs[m]).0
  }

  /** How many of the steps of `inputs` swallowed a key event. */
  function Swallowed(s: State, inputs: seq<Input>): nat
    decreases |inputs|
  {
    if |inputs| == 0 then 0
    else
      var p := inputs[..|inputs| - 1];
      Swallowed(s, p) + (if OutputAt(s, inputs, |inputs| - 1) == Hooked(Swallow) then 1 else 0)
  }

  lemma RunStep(s: State, inputs: seq<Input>, m: nat)
    requires m < |inputs|
    ensures Run(s, inputs[..m + 1]) == Apply(Run(s, inputs[..m]), inputs[m]).1
  {
    assert inputs[..m + 1][..m] == inputs[..m];
  }

  /**
    The blocked counter counts exactly the swallowed events, modulo 2^64,
    whatever the interleaving of key events and commands.
  */
  lemma {:induction false} CounterCountsSwallowed(s: State, inputs: seq<Input>)
    ensures Run(s, inputs).blockedCount == (s.blockedCount + Swallowed(s, inputs)) % U64_MODULUS
    decreases |inputs|
  {
    if |inputs| > 0 {
      var n := |inputs| - 1;
      var p := inputs[..n];
      CounterCountsSwallowed(s, p);
      var before := Run(s, p);
      var step := Apply(before, inputs[n]);
      assert step == Apply(Run(s, inputs[..n]), inputs[n]);
      if step.0 == Hooked(Swallow) {
        ModIncrement(s.blockedCount + Swallowed(s, p));
      }
    }
  }

  lemma ModIncrement(x: nat)
    ensures (x % U64_MODULUS + 1) % U64_MODULUS == (x + 1) % U64_MODULUS
  {
  }

  /**
    `get_blocked_keypress_count` reports the number of key events the hook
    has swallowed since the process started, modulo 2^64.
  */
  lemma ReadCountReportsSwallowed(inputs: seq<Input>, m: nat)
    requires m < |inputs| && inputs[m] == ReadCount
    ensures OutputAt(Initial(), inputs, m) == Counted(Swallowed(Initial(), inputs[..m]) % U64_MODULUS)
  {
    CounterCountsSwallowed(Initial(), inputs[..m]);
  }

  /** The interval stays inside [5, 1000] under every trace. */
  lemma {:induction false} IntervalStaysInRange(s: State, inputs: seq<Input>)
    requires IntervalInRange(s)
    ensures IntervalInRange(Run(s, inputs))
    decreases |inputs|
  {
    if |inputs| > 0 {
      IntervalStaysInRange(s, inputs[..|inputs| - 1]);
    }
  }

  /** From process start, the interval is always in [5, 1000]. */
  lemma {:induction false} IntervalAlwaysInRange(inputs: seq<Input>)
    ensures IntervalInRange(Run(Initial(), inputs))
  {
    IntervalStaysInRange(Initial(), inputs);
  }

  /**
    While the feature stays disabled nothing is swallowed and the counter
    does not move.
  */
  lemma {:induction false} DisabledSwallowsNothing(s: State, inputs: seq<Input>)
    requires !s.enabled
    requires forall m :: 0 <= m < |inputs| ==> inputs[m] != SetEnabled(true)
    ensures !Run(s, inputs).enabled
    ensures Swallowed(s, inputs) == 0
    ensures Run(s, inputs).blockedCount == s.blockedCount
    decreases |inputs|
  {
    if |inputs| > 0 {
      var p := inputs[..|inputs| - 1];
      DisabledSwallowsNothing(s, p);
    }
  }

  /** Step `i` is a key-down for `vk` that the hook let through. */
  ghost predicate AllowedKeyDown(s: State, i: Input, vk: VirtualKey) {
    && i.Keyboard?
    && i.ev.nCode == HC_ACTION
    && IsKeyDown(i.ev)
    && KeyOf(i.ev) == vk
    && !ShouldBlockKey(s, vk, i.decideClock)
  }

  /** Step `k` of `inputs`, run from `s`, is a key-down for `vk` that the hook let through. */
  ghost predicate AllowedAt(s: State, inputs: seq<Input>, k: nat, vk: VirtualKey)
    requires k < |inputs|
  {
    AllowedKeyDown(Run(s, inputs[..k]), inputs[k], vk)
  }

  /** An allowed key-down whose clock read succeeds records its time for its key. */
  lemma AllowedKeyDownRecords(before: State, i: Input, vk: VirtualKey)
    requires AllowedKeyDown(before, i, vk) && i.recordClock.Some?
    ensures vk in Apply(before, i).1.lastKeyTimes
    ensures Apply(before, i).1.lastKeyTimes[vk] == ReadMillis(i.recordClock).value
  {
    assert LowLevelKeyboardProc(before, i.ev, i.decideClock, i.recordClock).0 == CallNext;
  }

  /** A step that is not an allowed key-down for `vk` leaves the entry for `vk` alone. */
  lemma OtherStepKeepsEntry(before: State, i: Input, vk: VirtualKey)
    requires vk in before.lastKeyTimes
    requires !AllowedKeyDown(before, i, vk)
    ensures vk in Apply(before, i).1.lastKeyTimes
    ensures Apply(before, i).1.lastKeyTimes[vk] == before.lastKeyTimes[vk]
  {
    if i.Keyboard? {
      var step := LowLevelKeyboardProc(before, i.ev, i.decideClock, i.recordClock);
      assert step.0 == CallNext && i.ev.nCode == HC_ACTION && IsKeyDown(i.ev) ==> KeyOf(i.ev) != vk;
    }
  }

  /**
    After an allowed key-down for `vk` at step `i` whose time was recorded,
    the entry for `vk` keeps that time until the next allowed key-down for
    `vk`: blocked presses, other keys and commands leave it alone.
  */
  lemma {:induction false} EntryKeptUntilNextAllowed(s: State, inputs: seq<Input>, i: nat, m: nat, vk: VirtualKey)
    requires i < m <= |inputs|
    requires AllowedAt(s, inputs, i, vk)
    requires inputs[i].recordClock.Some?
    requires forall k :: i < k < m ==> !AllowedAt(s, inputs, k, vk)
    ensures vk in Run(s, inputs[..m]).lastKeyTimes
    ensures Run(s, inputs[..m]).lastKeyTimes[vk] == ReadMillis(inputs[i].recordClock).value
    decreases m
  {
    RunStep(s, inputs, m - 1);
    if m == i + 1 {
      AllowedKeyDownRecords(Run(s, inputs[..i]), inputs[i], vk);
    } else {
      EntryKeptUntilNextAllowed(s, inputs, i, m - 1, vk);
      assert !AllowedAt(s, inputs, m - 1, vk);
      OtherStepKeepsEntry(Run(s, inputs[..m - 1]), inputs[m - 1], vk);
    }
  }

  /**
    With the feature enabled, the next allowed key-down for the same key
    reads a time at least the current interval after the time recorded for
    the previous one (no clock failure, no backwards step, no wrap of the
    truncated clock in between).
  */
  lemma AllowedKeyDownsAreSpaced(s: State, inputs: seq<Input>, i: nat, j: nat, vk: VirtualKey)
    requires i < j < |inputs|
    requires AllowedAt(s, inputs, i, vk)
    requires AllowedAt(s, inputs, j, vk)
    requires forall k :: i < k < j ==> !AllowedAt(s, inputs, k, vk)
    requires Run(s, inputs[..j]).enabled
    requires inputs[i].recordClock.Some? && inputs[j].decideClock.Some?
    requires inputs[i].recordClock.value <= inputs[j].decideClock.value < U64_MODULUS
    ensures inputs[j].decideClock.value - inputs[i].recordClock.value >= Run(s, inputs[..j]).intervalMs
  {
    EntryKeptUntilNextAllowed(s, inputs, i, j, vk);
  }

  /** Every clock reading succeeds, fits in 64 bits, and readings never go backwards. */
  ghost predicate MonotonicClock(inputs: seq<Input>) {
    && (forall m :: 0 <= m < |inputs| && inputs[m].Keyboard? ==>
          && inputs[m].decideClock.Some? && inputs[m].recordClock.Some?
          && inputs[m].decideClock.value <= inputs[m].recordClock.value < U64_MODULUS)
    && (forall m1, m2 :: 0 <= m1 < m2 < |inputs| && inputs[m1].Keyboard? && inputs[m2].Keyboard? ==>
          inputs[m1].recordClock.value <= inputs[m2].decideClock.value)
  }

  /**
    Under a monotonic clock and with the feature enabled, two consecutive
    allowed key-downs for the same key are at least the interval apart,
    both in the times the decision read and in the times recorded.
  */
  lemma ConsecutiveAllowedKeyDownsApart(s: State, inputs: seq<Input>, i: nat, j: nat, vk: VirtualKey)
    requires MonotonicClock(inputs)
    requires i < j < |inputs|
    requires AllowedAt(s, inputs, i, vk)
    requires AllowedAt(s, inputs, j, vk)
    requires forall k :: i < k < j ==> !AllowedAt(s, inputs, k, vk)
    requires Run(s, inputs[..j]).enabled
    ensures inputs[j].decideClock.value - inputs[i].decideClock.value >= Run(s, inputs[..j]).intervalMs
    ensures inputs[j].recordClock.value - inputs[i].recordClock.value >= Run(s, inputs[..j]).intervalMs
  {
    AllowedKeyDownsAreSpaced(s, inputs, i, j, vk);
  }
}
