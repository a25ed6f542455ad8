# keyfix debounce engine in Dafny

keyfix is a Windows tray application that installs a global low-level
keyboard hook and swallows a key-down that comes too soon after the last
accepted key-down of the same key. This happens when a worn switch
"chatters". This project models the core of that program as one
sequential state machine and proves properties of it:

- the debounce state, which is the key-time map, the enabled flag, the
  interval and the blocked counter (`debounce.dfy`, module `Debounce`);
- the block/allow decision and the two state updates (`Debounce`);
- the three configuration commands (`commands.dfy`, module `Commands`);
- the hook callback as a pure step over an abstract OS event
  (`hook.dfy`, module `Hook`);
- arbitrary interleavings of key events and commands (`traces.dfy`,
  module `Traces`);
- the hook thread's install-then-pump lifecycle over the shared
  `is_running` flag (`message_loop.dfy`, module `MessageLoop`).

`results.dfy` holds the `Option`/`Result` datatypes.

Modelling choices:

- **Clock as a parameter.** A reading is `None` when
  `duration_since(UNIX_EPOCH)` fails. Otherwise it is the millisecond
  count, which is then truncated to `u64` as `as u64` does.
  `should_block_key` and `record_key_press` each read the clock, so one
  hook step takes two readings as parameters. The decision reads the
  clock only for an HC_ACTION key-down while the feature is enabled. The
  recording reads it only for a key-down that is allowed.
- **Release-build integer semantics.** `now - last` wraps modulo 2^64.
  The blocked counter wraps modulo 2^64 too. A wall clock that steps
  backwards therefore yields a huge elapsed time and the key is allowed
  (`BackwardClockAllows`). Debug builds would panic instead.
- **Casts.** `vkCode as u16` and `w_param.0 as u32` are written out as
  truncations.
- **Message loop.** The loop sees a stream of observations. Each one is
  a stop request (the owner clears the flag), an empty poll, `WM_QUIT`,
  or another message, which the loop dispatches.
- **Read-only decision.** `should_block_key` is a function from a state
  to a verdict, so it cannot change the map, the flag, the interval or the
  counter. The hook step's contract says which fields each verdict changes.
- **`get_blocked_keypress_count`.** It is a plain read. What it reports
  is stated over traces (`Traces.ReadCountReportsSwallowed`).

What the code does with a key-down:

- While the feature is enabled and the decision's clock read succeeds, every key-down inside the window is blocked.
- A blocked key-down does not refresh the key's recorded time.
- While the feature is disabled, allowed key-downs still record their
  time. The decision answers "allow", and the hook then records the press.

## Model

| member | source | states |
|---|---|---|
| Debounce.Initial | src-tauri/src/keyboard/debounce.rs:8-11 | A fresh process is enabled, has interval 50 ms (inside [5, 1000]), counter 0 and no recorded key, so no key is blocked at start. |
| Debounce.ReadMillis | src-tauri/src/keyboard/debounce.rs:26-32 | A failed clock read stays a failure. A successful one is congruent to the real millisecond count modulo 2^64, and equals it when it fits in 64 bits. |
| Debounce.WrappingSub | src-tauri/src/keyboard/debounce.rs:44 | The elapsed time plus the last time equals now modulo 2^64. It is the plain difference when the clock did not go back, and at least 2^64 - last when it did. |
| Debounce.ShouldBlockKey | src-tauri/src/keyboard/debounce.rs:13-45 | Never blocks when disabled, when the clock read fails, or when the key has no record. On a forward-moving clock it blocks exactly when now - last < interval, so exactly the interval elapsed is allowed. Blocking implies a positive interval. |
| Debounce.RecordKeyPress | src-tauri/src/keyboard/debounce.rs:47-57 | A failed clock read changes nothing. Otherwise the key maps to the truncated now and every other key keeps its entry. Flag, interval and counter are unchanged. |
| Debounce.IncrementBlockedCount | src-tauri/src/keyboard/debounce.rs:59-64 | Raises the counter by exactly one, wrapping to 0 at 2^64, and leaves map, flag and interval alone. |
| Debounce.TruncatedElapsedIsExact | src-tauri/src/keyboard/debounce.rs:27-44 | Truncating both readings to u64 and subtracting with wrap-around gives the true elapsed time for readings less than 2^64 ms apart, even across a wrap of the truncated clock. |
| Debounce.BlockIffTrueElapsedBelowInterval | src-tauri/src/keyboard/debounce.rs:26-44 | While enabled, a key recorded from clock reading t1 is blocked at reading t2 (less than 2^64 ms later) exactly when t2 - t1 is below the interval, even when the truncated clock wrapped in between. |
| Debounce.BackwardClockAllows | src-tauri/src/keyboard/debounce.rs:42-44 | With an interval in [5, 1000], a clock that stepped back by at most 2^64 - 1000 ms never causes a block. |
| Commands.SetDebounceInterval | src-tauri/src/commands/mod.rs:4-11 | Fails with the range message exactly when the value is below 5 or above 1000, and then changes nothing. Otherwise it stores exactly the value. It never touches map, flag or counter, and it keeps the interval in range. |
| Commands.SetKeyfixEnabled | src-tauri/src/commands/mod.rs:14-18 | Always succeeds, leaves the flag equal to the argument, and changes nothing else. |
| Hook.LowLevelKeyboardProc | src-tauri/src/keyboard/hook.rs:33-61 | Anything other than an HC_ACTION key-down or system key-down is passed on with no change. Such a key-down is swallowed exactly when the decision blocks it, and then only the counter moves, by one. Any other key-down is passed on with the counter unchanged. Its time is recorded when the recording's clock read succeeds; otherwise the state stays as it was. The configuration never changes. |
| Traces.CounterCountsSwallowed | src-tauri/src/keyboard/hook.rs:47-51 | After any interleaving of key events and commands, the counter equals its start value plus the number of swallowed events, modulo 2^64. |
| Traces.ReadCountReportsSwallowed | src-tauri/src/commands/mod.rs:21-23 | Reading the count at any point after process start returns the number of events swallowed before it, modulo 2^64. |
| Traces.IntervalStaysInRange | src-tauri/src/commands/mod.rs:5-8 | If the interval starts in [5, 1000], it stays there after any trace. |
| Traces.IntervalAlwaysInRange | src-tauri/src/keyboard/debounce.rs:10 | Starting from the default of 50, the interval is in [5, 1000] after any trace. |
| Traces.DisabledSwallowsNothing | src-tauri/src/keyboard/debounce.rs:22-24 | While the feature is disabled and not re-enabled, nothing is swallowed and the counter stays put. |
| Traces.AllowedKeyDownRecords | src-tauri/src/keyboard/hook.rs:52-54 | A key-down the hook lets through records the time of its own clock read for that key, when that read succeeds. |
| Traces.OtherStepKeepsEntry | src-tauri/src/keyboard/hook.rs:47-60 | A blocked key-down, another key's key-down, a non-key-down event or a command leaves a key's recorded time as it was. |
| Traces.EntryKeptUntilNextAllowed | src-tauri/src/keyboard/hook.rs:47-54 | The time recorded by an allowed key-down survives blocked presses, other keys and commands until the next allowed key-down of that key. |
| Traces.AllowedKeyDownsAreSpaced | src-tauri/src/keyboard/debounce.rs:42-44 | While enabled, the next allowed key-down of a key reads a time at least the current interval after the time recorded for the previous one. This holds when both clock reads succeed, the clock did not go back between them, and the reading is below 2^64. |
| Traces.ConsecutiveAllowedKeyDownsApart | src-tauri/src/keyboard/hook.rs:47-54 | Under a monotonic clock with the feature enabled, two consecutive allowed key-downs of the same key are at least the interval apart, both in decision time and in recorded time. |
| MessageLoop.ExitPoint | src-tauri/src/keyboard/hook.rs:109-117 | Locates the first stop request or WM_QUIT. Nothing before it ends the loop. |
| MessageLoop.RunMessageLoop | src-tauri/src/keyboard/hook.rs:106-131 | The loop only ever clears the flag. It ends right after the first stop request or WM_QUIT, with the flag false. It dispatches exactly the other messages before that point, in order. A loop started with the flag false does nothing. |
| MessageLoop.RunKeyboardHookLoop | src-tauri/src/keyboard/hook.rs:64-103 | Each of the four installation failures returns its own error, and the loop never runs. A successful installation runs the loop and returns its run, which never sets the flag true. |

## Left out

- Windows API calls are outside the model: `SetWindowsHookExW`, `GetModuleHandleW`, `PeekMessageW`, `TranslateMessage`, `DispatchMessageW`, `CallNextHookEx` and `UnhookWindowsHookEx`. They are foreign OS code, so they appear only as abstract outcomes and verdicts.
- The hook-handle static and `cleanup_hook` are left out. They only manage an OS resource and hold no debounce policy.
- Locks and atomics are left out: `DashMap`, `Mutex` and `AtomicBool`. The model is one thread of atomic steps.
- Poisoned-lock branches are left out. If ENABLE_KEYFIX or DEBOUNCE_INTERVAL_MS were poisoned, `should_block_key` would answer "allow" (src-tauri/src/keyboard/debounce.rs:14-19, 34-39). If BLOCKED_KEYPRESS_COUNT were poisoned, `increment_blocked_count` would skip the increment (src-tauri/src/keyboard/debounce.rs:62). The `unwrap` calls at src-tauri/src/commands/mod.rs:8, 15 and 22 and src-tauri/src/keyboard/hook.rs:39 and 58 would panic. A `Mutex` is poisoned only by a panic while its guard is held. In a release build no critical section over these statics can panic: the only arithmetic, `*count += 1`, wraps. So in a release build no lock is ever poisoned.
- Logging (`println!`, `eprintln!`) and the 10 ms idle sleep are left out. They have no effect on state.
- Debug-build overflow panics are left out. Only release-build wrap-around is modelled.
- Commands.GetBlockedKeypressCount: it has no contract of its own. What it returns is stated by `Traces.ReadCountReportsSwallowed`.
- MessageLoop.RunKeyboardHookLoop: its contract does not repeat where the loop stops or what it dispatches. `MessageLoop.RunMessageLoop` states both, and this method returns that loop's run unchanged.
- MessageLoop.RunMessageLoop works on a finite stream of observations. A loop that is still running when the stream ends is reported as such, since it would keep polling forever.
- How `PeekMessageW` runs the hook callback is not modelled. The OS calls the callback on the installing thread while that thread is inside `PeekMessageW`.
- src-tauri/src/state/mod.rs: its drop only stores false into the flag. It appears as the `StopRequested` observation.
- src-tauri/src/lib.rs, src-tauri/src/tray/mod.rs and src-tauri/src/keyboard/types.rs are not part of this model. They cover application wiring, the tray UI and a Send/Sync wrapper.
