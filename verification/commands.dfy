/**
  The configuration commands of keyfix (src-tauri/src/commands/mod.rs):
  the only code outside the hook that touches the debounce statics.
*/
module Commands {
  import opened Results
  import opened Debounce

  /** The error text `set_debounce_interval` returns for an out-of-range interval. */
  const INTERVAL_RANGE_ERROR: string := "Interval must be between 5 and 1000 milliseconds."

  /**
    `set_debounce_interval`: reject an interval outside [5, 1000] with no
    change, otherwise store exactly the requested value.
  */
  function SetDebounceInterval(s: State, intervalMs: U64): (r: (Result<(), string>, State))
    ensures r.0.Err? <==> intervalMs < 5 || 1000 < intervalMs
    ensures r.0.Err? ==> r.0.error == INTERVAL_RANGE_ERROR && r.1 == s
    ensures r.0.Ok? ==> r.1.intervalMs == intervalMs && IntervalInRange(r.1)
    ensures IntervalInRange(s) ==> IntervalInRange(r.1)
    ensures r.1.lastKeyTimes == s.lastKeyTimes
    ensures r.1.enabled == s.enabled && r.1.blockedCount == s.blockedCount
  {
    if intervalMs < MIN_INTERVAL_MS || intervalMs > MAX_INTERVAL_MS then
      (Err(INTERVAL_RANGE_ERROR), s)
    else
      (Ok(()), s.(intervalMs := intervalMs))
  }

  /** `set_keyfix_enabled`: always succeeds and leaves the flag equal to `enabled`. */
  function SetKeyfixEnabled(s: State, enabled: bool): (r: (Result<(), string>, State))
    ensures r.0.Ok?
    ensures r.1.enabled == enabled
    ensures r.1.lastKeyTimes == s.lastKeyTimes
    ensures r.1.intervalMs == s.intervalMs && r.1.blockedCount == s.blockedCount
  {
    (Ok(()), s.(enabled := enabled))
  }

  /** `get_blocked_keypress_count`: a read of the counter; it returns no new state. */
  function GetBlockedKeypressCount(s: State): (n: U64)
  {
    s.blockedCount
  }
}
