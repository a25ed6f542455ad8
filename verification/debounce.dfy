/**
  The debounce state store and decision engine of keyfix
  (src-tauri/src/keyboard/debounce.rs).

  The four process-wide statics become the fields of one immutable `State`
  value, and every operation is a pure function from a state to a state.
  The wall clock is a parameter: a `Clock` reading is either `None` (the
  clock is before the UNIX epoch, so `duration_since` failed) or the number
  of milliseconds since the epoch, before the truncating cast to `u64`.

  Integer overflow follows the release build of the program, where Rust
  arithmetic on `u64` wraps: the elapsed-time subtraction and the blocked
  counter are both computed modulo 2^64.  (A debug build would panic
  instead; that variant is not modelled.)
*/
module Debounce {
  import opened Results

  const U64_MODULUS: nat := 0x1_0000_0000_0000_0000
  const U16_MODULUS: nat := 0x1_0000

  /** A Rust `u64`. */
  type U64 = x: nat | x < U64_MODULUS

  /** A Rust `u16`, the type of the keys of the key-time map. */
  type VirtualKey = k: nat | k < U16_MODULUS

  /** Initial values of the statics. */
  const DEFAULT_ENABLED: bool := true
  const DEFAULT_INTERVAL_MS: U64 := 50

  /** Bounds the configuration command enforces on the interval. */
  const MIN_INTERVAL_MS: U64 := 5
  const MAX_INTERVAL_MS: U64 := 1000

  /**
    LAST_KEY_TIMES, ENABLE_KEYFIX, DEBOUNCE_INTERVAL_MS and
    BLOCKED_KEYPRESS_COUNT, as one snapshot.
  */
  datatype State = State(
    lastKeyTimes: map<VirtualKey, U64>,
    enabled: bool,
    intervalMs: U64,
    blockedCount: U64)

  /** A reading of `SystemTime::now().duration_since(UNIX_EPOCH)` in milliseconds. */
  type Clock = Option<nat>

  /** The interval lies in the range the configuration command accepts. */
  predicate IntervalInRange(s: State) {
    MIN_INTERVAL_MS <= s.intervalMs <= MAX_INTERVAL_MS
  }

  /** `m2` agrees with `m1` on every key other than `vk`. */
  ghost predicate AgreeExcept(m1: map<VirtualKey, U64>, m2: map<VirtualKey, U64>, vk: VirtualKey) {
    forall k :: k != vk ==>
      (k in m1 <==> k in m2) && (k in m1 ==> m1[k] == m2[k])
  }

  /** The state a fresh process starts in. */
  function Initial(): (s: State)
    ensures s.enabled && s.intervalMs == 50 && s.blockedCount == 0
    ensures s.lastKeyTimes == map[]
    ensures IntervalInRange(s)
    ensures forall vk, c :: !ShouldBlockKey(s, vk, c)
  {
    State(map[], DEFAULT_ENABLED, DEFAULT_INTERVAL_MS, 0)
  }

  /** `duration.as_millis() as u64`: the failed read is kept, the value truncated. */
  function ReadMillis(c: Clock): (r: Option<U64>)
    ensures c.None? <==> r.None?
    ensures c.Some? && c.value < U64_MODULUS ==> r == Some(c.value)
    ensures c.Some? ==> (c.value - r.value) % U64_MODULUS == 0
  {
    match c
    case None => None
    case Some(ms) => Some(ms % U64_MODULUS)
  }

  /** `now - last` on `u64` with release-mode wrap-around. */
  function WrappingSub(now: U64, last: U64): (r: U64)
    ensures (last + r) % U64_MODULUS == now
    ensures last <= now ==> r == now - last
    ensures now < last ==> r >= U64_MODULUS - last
  {
    if last <= now then now - last else now + U64_MODULUS - last
  }

  /**
    `should_block_key`: block only when the feature is enabled, the clock
    can be read, the key has a recorded time, and strictly less than the
    interval has elapsed since it.  Every failure answers "allow".
  */
  function ShouldBlockKey(s: State, vk: VirtualKey, c: Clock): (r: bool)
    ensures !s.enabled ==> !r
    ensures c.None? ==> !r
    ensures vk !in s.lastKeyTimes ==> !r
    ensures r ==> s.intervalMs > 0
    ensures s.enabled && vk in s.lastKeyTimes && c.Some? && c.value < U64_MODULUS
              && s.lastKeyTimes[vk] <= c.value
            ==> (r <==> c.value - s.lastKeyTimes[vk] < s.intervalMs)
  {
    if !s.enabled then false
    else
      match ReadMillis(c)
      case None => false
      case Some(now) =>
        vk in s.lastKeyTimes && WrappingSub(now, s.lastKeyTimes[vk]) < s.intervalMs
  }

  /** `record_key_press`: remember `now` for `vk`; a failed clock read changes nothing. */
  function RecordKeyPress(s: State, vk: VirtualKey, c: Clock): (r: State)
    ensures c.None? ==> r == s
    ensures c.Some? ==> vk in r.lastKeyTimes && r.lastKeyTimes[vk] == ReadMillis(c).value
    ensures c.Some? && c.value < U64_MODULUS ==> r.lastKeyTimes[vk] == c.value
    ensures AgreeExcept(s.lastKeyTimes, r.lastKeyTimes, vk)
    ensures r.enabled == s.enabled && r.intervalMs == s.intervalMs
    ensures r.blockedCount == s.blockedCount
  {
    match ReadMillis(c)
    case None => s
    case Some(now) => s.(lastKeyTimes := s.lastKeyTimes[vk := now])
  }

  /** `increment_blocked_count`: one more swallowed key-down, wrapping at 2^64. */
  function IncrementBlockedCount(s: State): (r: State)
    ensures s.blockedCount + 1 < U64_MODULUS ==> r.blockedCount == s.blockedCount + 1
    ensures s.blockedCount + 1 == U64_MODULUS ==> r.blockedCount == 0
    ensures r.lastKeyTimes == s.lastKeyTimes
    ensures r.enabled == s.enabled && r.intervalMs == s.intervalMs
  {
    s.(blockedCount := (s.blockedCount + 1) % U64_MODULUS)
  }

  /**
    The wrap-around subtraction of truncated readings measures true elapsed
    time: two readings less than 2^64 ms apart give their exact difference,
    even when the truncated clock has wrapped between them.
  */
  lemma {:induction false} TruncatedElapsedIsExact(t1: nat, t2: nat)
    requires t1 <= t2 < t1 + U64_MODULUS
    ensures WrappingSub(ReadMillis(Some(t2)).value, ReadMillis(Some(t1)).value) == t2 - t1
  {
    var a := t1 % U64_MODULUS;
    var b := t2 % U64_MODULUS;
    var q1 := t1 / U64_MODULUS;
    var q2 := t2 / U64_MODULUS;
    assert t1 == q1 * U64_MODULUS + a;
    assert t2 == q2 * U64_MODULUS + b;
    // The quotients differ by one exactly when the truncated clock wrapped.
    assert q1 <= q2 <= q1 + 1 by {
      assert (q2 - q1) * U64_MODULUS == (t2 - t1) - (b - a);
      assert -(U64_MODULUS as int) < (q2 - q1) * U64_MODULUS < 2 * U64_MODULUS;
    }
    assert q2 == q1 <==> a <= b;
  }

  /**
    The strict window holds for true elapsed time: if the key was recorded
    from the reading `t1` and the clock now reads `t2`, less than 2^64 ms
    later, the press is blocked exactly when `t2 - t1` is below the
    interval, however large the readings are before truncation.
  */
  lemma BlockIffTrueElapsedBelowInterval(s: State, vk: VirtualKey, t1: nat, t2: nat)
    requires s.enabled
    requires vk in s.lastKeyTimes && s.lastKeyTimes[vk] == ReadMillis(Some(t1)).value
    requires t1 <= t2 < t1 + U64_MODULUS
    ensures ShouldBlockKey(s, vk, Some(t2)) <==> t2 - t1 < s.intervalMs
  {
    TruncatedElapsedIsExact(t1, t2);
  }

  /**
    A wall clock that steps backwards does not block: the wrapped elapsed
    time is enormous, so with an interval the configuration command accepts
    the press is allowed unless the step back is within 1000 ms of 2^64.
  */
  lemma BackwardClockAllows(s: State, vk: VirtualKey, now: U64)
    requires IntervalInRange(s)
    requires vk in s.lastKeyTimes && now < s.lastKeyTimes[vk]
    requires s.lastKeyTimes[vk] - now <= U64_MODULUS - MAX_INTERVAL_MS
    ensures !ShouldBlockKey(s, vk, Some(now))
  {
  }
}
