/**
  The decision logic of the low-level keyboard hook callback
  (`low_level_keyboard_proc` in src-tauri/src/keyboard/hook.rs) as a pure
  step over an abstract OS event.

  Calling the next hook in the chain and returning `LRESULT(1)` become the
  two verdicts `CallNext` and `Swallow`.  The decision and the recording of
  a key press each read the clock on their own, so a step takes two
  readings.
*/
module Hook {
  import opened Debounce

  const U32_MODULUS: nat := 0x1_0000_0000

  /** A Rust `i32`. */
  type I32 = x: int | -0x8000_0000 <= x < 0x8000_0000

  /** A Rust `u32`. */
  type U32 = x: nat | x < U32_MODULUS

  /** Windows constants the callback compares against. */
  const HC_ACTION: I32 := 0
  const WM_KEYDOWN: U32 := 0x0100
  const WM_SYSKEYDOWN: U32 := 0x0104

  /**
    What the OS passes in: the hook code, the message identifier carried
    by the (64-bit) `WPARAM`, and the `vkCode` of the `KBDLLHOOKSTRUCT`
    that `LPARAM` points to.
  */
  datatype KeyboardEvent = KeyboardEvent(nCode: I32, wParam: U64, vkCode: U32)

  /** `Swallow` is `LRESULT(1)`; `CallNext` hands the event to `CallNextHookEx`. */
  datatype Verdict = Swallow | CallNext

  /** `w_param.0 as u32`. */
  function MessageId(ev: KeyboardEvent): U32 {
    ev.wParam % U32_MODULUS
  }

  /** A key-down or a system key-down. */
  predicate IsKeyDown(ev: KeyboardEvent) {
    MessageId(ev) == WM_KEYDOWN || MessageId(ev) == WM_SYSKEYDOWN
  }

  /** `kbd_struct.vkCode as u16`. */
  function KeyOf(ev: KeyboardEvent): VirtualKey {
    ev.vkCode % U16_MODULUS
  }

  /**
    One invocation of the callback.  A key-down that the decision blocks is
    counted and swallowed without refreshing the key's time; any other
    key-down is recorded and passed on; everything else is passed on
    untouched.  The hook never changes the configuration.
  */
  function LowLevelKeyboardProc(s: State, ev: KeyboardEvent, decideClock: Clock, recordClock: Clock)
    : (r: (Verdict, State))
    ensures r.1.enabled == s.enabled && r.1.intervalMs == s.intervalMs
    ensures ev.nCode != HC_ACTION ==> r == (CallNext, s)
    ensures !IsKeyDown(ev) ==> r == (CallNext, s)
    ensures r.0 == Swallow <==>
              ev.nCode == HC_ACTION && IsKeyDown(ev) && ShouldBlockKey(s, KeyOf(ev), decideClock)
    ensures r.0 == Swallow ==>
              && s.enabled && decideClock.Some? && KeyOf(ev) in s.lastKeyTimes
              && r.1.lastKeyTimes == s.lastKeyTimes
              && r.1.blockedCount == (s.blockedCount + 1) % U64_MODULUS
    ensures r.0 == CallNext ==> r.1.blockedCount == s.blockedCount
    ensures r.0 == CallNext && ev.nCode == HC_ACTION && IsKeyDown(ev) ==>
              && AgreeExcept(s.lastKeyTimes, r.1.lastKeyTimes, KeyOf(ev))
              && (recordClock.None? ==> r.1 == s)
              && (recordClock.Some? ==>
                    KeyOf(ev) in r.1.lastKeyTimes
                    && r.1.lastKeyTimes[KeyOf(ev)] == ReadMillis(recordClock).value)
  {
    if ev.nCode != HC_ACTION then
      (CallNext, s)
    else if IsKeyDown(ev) then
      var vk := KeyOf(ev);
      if ShouldBlockKey(s, vk, decideClock) then
        (Swallow, IncrementBlockedCount(s))
      else
        (CallNext, RecordKeyPress(s, vk, recordClock))
    else
      (CallNext, s)
  }
}
