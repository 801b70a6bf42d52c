# Pomodoro timer — a verified Dafny model of `timer.js`

The page's script keeps a countdown that alternates between a work interval ("pomodoro")
and a break. A repeating one-second interval calls `tickTimer` while the timer runs. The
start/pause button toggles the interval. The reset button reloads the current mode's length.
Each mode has a `+`/`-` button pair that changes its length in whole minutes, with a floor of
one minute.

The model keeps the script's own representation: every text the script reads or writes is a
string. This covers the countdown `"MM:SS"`, the minute boxes `#pomodoro-min`/`#break-min`,
the `"MM:00"` entries of `modeLengths` and the page title. `Value` is the script's unary
plus: the tick and the `+`/`-` click read their numbers with it. The other integer views
(`Minutes`, `Seconds`, `TotalSeconds`) are used only in contracts and proofs.

- `clock.dfy` (module `Clock`) covers the text of the clock:
  - rendering numbers (`Decimal`, `Pad2`) and reading them back (`Value`, the unary plus);
  - `split(":")` (`Split`) and the shape of a display the page can show (`IsDisplay`, `IsPadded`);
  - the textual zero test and the one-second step (`CountDown`, whose result is `NextDisplay`
    by `NextDisplayUnique`);
  - the countdown over k seconds (`Ticks`) and the `"MM:00"` length text (`DurationString`).
- `durations.dfy` (module `Durations`) holds the two modes and their alternation, the ±1
  minute rule, the agreement between a mode's minute box and its length (`Configured`), and
  the value-level work of a `+`/`-` click (`ChangeDuration`).
- `timer.dfy` (module `Timer`) holds the class `PomodoroTimer`. Its fields are the script's
  module-level state and the page texts it writes. Its methods are the script's functions and
  the bodies of the click handlers. `Valid()` is the invariant every handler keeps:
  - both modes are configured;
  - the countdown is a display the page can show;
  - the interval is registered exactly while `isTicking`;
  - the button reads "pause" exactly while ticking.

Initial state: `timer.js` sets `modeLengths` (lines 11-14), `isTicking` and `currentMode`
(lines 27-28). The other starting texts come from the page's HTML, which is not part of this
model. The constructor assumes the countdown `"25:00"`, the minute boxes `"25"` and `"5"`, the
start button in its "start" state, the title `"Pomodoro Timer"`, and both controls visible.
The initial break length `"5:00"` is not zero-padded. `IsDisplay` therefore admits an unpadded
minutes part when it has no leading zero. Every countdown text a tick's one-second step writes,
and every length text a `+`/`-` click writes, is padded (`IsPadded`). A reset, and a tick that
expires, load the stored length instead, which may still be the unpadded `"5:00"`. The minute
box a click rewrites holds the count unpadded (`Decimal`).

## Model

| member | source | states |
|---|---|---|
| Clock.Decimal | timer.js:118 | a number is written as digits that read back as the number; one digit exactly below 10, at most two below 100, no leading zero unless it is 0 |
| Clock.Pad2 | timer.js:52-58 | `n < 10 ? "0" + n : n` gives at least two digits that read back as n; exactly two below 100; a leading zero only when exactly two digits |
| Clock.SplitJoin | timer.js:31 | joining the pieces of `split(":")` with colons gives the text back: splitting loses nothing |
| Clock.SplitWithoutColon | timer.js:31 | a text without a colon splits into itself alone |
| Clock.SplitTwo | timer.js:31 | `"a:b"` splits into exactly `[a, b]` when neither piece holds a colon |
| Clock.SplitDisplay | timer.js:31 | on a display, the destructured pieces are exactly its minutes text and its seconds text |
| Clock.TwoZeroDigits | timer.js:33 | two digits worth 0 are the text `"00"` |
| Clock.ZeroTest | timer.js:33 | on every display the page can show, the string test `minutes === "00" && seconds === "00"` holds exactly when the time left is 0 seconds |
| Clock.TickTest | timer.js:31-33 | a display splits into exactly two pieces, and both are `"00"` exactly when no time is left |
| Clock.FormatRoundTrip | timer.js:52-60 | `${minutes}:${seconds}` with both padded is a padded display that reads back as the same minutes and seconds |
| Clock.NextDisplay | timer.js:42-61 | the display after one tick of a non-zero display is padded and shows exactly one second less |
| Clock.CountDown | timer.js:42-60 | the tick's arithmetic on the split pieces (unary plus, decrement or borrow, padding) yields a padded display exactly one second shorter |
| Clock.NextDisplayUnique | timer.js:42-61 | any padded display one second short of a non-zero display is exactly the next display, so the tick's contract fixes its text |
| Clock.Ticks | timer.js:30-63 | after k uninterrupted ticks the countdown is a display with k seconds less |
| Clock.CountdownLength | timer.js:33 | the countdown shows `"00:00"` after exactly as many ticks as it had seconds, never before |
| Clock.LoadedCountdown | timer.js:33-50 | from a freshly loaded length of n minutes, `"00:00"` is reached after exactly 60·n ticks |
| Clock.DurationString | timer.js:120-122 | the length text written for a count is padded and reads back as that many minutes and 0 seconds |
| Clock.CountValue | timer.js:108 | a minute box text (digits, no leading zero) is worth at least 10^(length-1), so at least 1 |
| Clock.ValueBelow | timer.js:42-43 | k digits read by unary plus are worth less than 10^k (used by `LongerIsLarger`) |
| Clock.SameValue | timer.js:42-43 | digit texts of equal length and equal value are the same text |
| Clock.LongerIsLarger | timer.js:56-58 | a longer digit text without a leading zero is worth more than a shorter one, so a minutes text or a minute box is fixed by its length and value (used by `PaddedMinutes` and `CountUnique`) |
| Clock.CountUnique | timer.js:118 | two minute-box texts with the same count are the same text |
| Clock.PaddedMinutes | timer.js:56-58 | two minutes texts as a tick writes them, with the same value, are the same text |
| Clock.PaddedUnique | timer.js:52-61 | two padded displays of the same time are the same text |
| Clock.CountIsOne | timer.js:108 | the guard's comparison with the text `"1"` holds exactly when the box's count is 1 |
| Durations.Other | timer.js:36 | expiry always switches to the other mode |
| Durations.Adjusted | timer.js:108-116 | a click moves the count by exactly +1 or -1, except a decrement of 1, which leaves it unchanged; the count stays at least 1 |
| Durations.RepeatedDecrements | timer.js:108-116 | k clicks of `-` on a count n give n - k while that is positive, and 1 from then on |
| Durations.DefaultsConfigured | timer.js:11-14 | the starting lengths and minute boxes agree for both modes |
| Durations.Reconfigured | timer.js:118-123 | writing a count text and a length of that many minutes for one mode keeps both modes configured |
| Durations.ChangeDuration | timer.js:102-123 | the work of a `+`/`-` click, detailed below |
| Timer.PomodoroTimer.constructor | timer.js:11-28 | the page starts in pomodoro mode, not ticking, with the button on "start"; the lengths are exactly `"25:00"` and `"5:00"` and the minute boxes `"25"` and `"5"`; the countdown is `"25:00"` (1500 seconds) and the title `"Pomodoro Timer"` |
| Timer.PomodoroTimer.ResetTimer | timer.js:75-82 | ticking stops, the interval is cancelled and the button reads "start"; the countdown is the current mode's length (60 × its minutes); the title is reset; the mode and the lengths are untouched |
| Timer.PomodoroTimer.SetStartButtonState | timer.js:84-88 | the button takes the given state |
| Timer.PomodoroTimer.SwitchStartButtonState | timer.js:90-96 | the button flips between "start" and "pause" |
| Timer.PomodoroTimer.StartOrPauseTimer | timer.js:65-73 | the ticking flag flips; the interval is registered exactly when ticking starts; starting hides the duration panel |
| Timer.PomodoroTimer.OnStartPauseClick | timer.js:130-133 | the ticking flag and the button flip together, keeping `isTicking ⇔ pause`; the countdown and the mode are untouched |
| Timer.PomodoroTimer.OnResetClick | timer.js:135-141 | as `resetTimer`, and the start button and duration panel become visible again; the mode never changes |
| Timer.PomodoroTimer.Tick | timer.js:30-63 | the effect of one tick, detailed below |
| Timer.PomodoroTimer.RunInterval | timer.js:69 | an interval firing with no click in between runs exactly the time left plus one tick (its loop invariant keeps the countdown at `Ticks(start, k)`); the last tick switches the mode and loads its length, stopped, with the title reset and the start button hidden |
| Timer.PomodoroTimer.ChangeModeDuration | timer.js:102-128 | the effect of a `+`/`-` click on the timer, detailed below |

Details of the three longer rows:

- `Durations.ChangeDuration`:
  - A decrement of a box reading `"1"` changes nothing.
  - Otherwise the count becomes `Adjusted(count)`.
  - The mode's length becomes a padded display of that many minutes.
  - The other mode is untouched, and both modes stay configured.
- `Timer.PomodoroTimer.Tick`:
  - On `"00:00"` the bell rings once, the mode switches, the start button is hidden, and the timer is reset to the new mode's length without starting.
  - Otherwise the countdown becomes a padded display one second shorter, and the title shows it.
- `Timer.PomodoroTimer.ChangeModeDuration`:
  - The mode's count becomes `Adjusted(count)`, and only that mode's box and length change.
  - A decrement at `"1"` changes nothing.
  - Otherwise the new length is padded, and the countdown is reloaded with it exactly when the edited mode is the current one.

## Left out

- DOM plumbing is not modelled: `querySelector`, `classList`, `style.display` and listener registration (timer.js:16-24, 98-100, 143-145). The visible texts and the visibility of the start button and duration panel are plain fields. `setStartButtonState` sets one field for the button's class and label together.
- Audio (timer.js:34, 136-137): a ghost counter `bellPlays` counts `bell.play()`. `bell.pause()` and the rewind on reset are not modelled.
- `setInterval`/`clearInterval` (timer.js:35, 67, 69, 77) and wall-clock time are not modelled. A boolean `intervalActive` stands for the registered interval. `Tick` requires it, and `RunInterval` models the interval firing repeatedly with no click in between. Clicks interleaved with ticks are the handlers called in any order.
- The page's HTML (initial texts of the countdown, minute boxes, button and title) is not part of this model; the constructor's starting values are assumptions.
- The `data-for-mode` and `value` attributes of a duration button (timer.js:103-104) are the parameters `mode` and `increment`. A button naming a mode other than pomodoro or break is not modelled.
- JavaScript numbers are modelled as unbounded naturals. Counts past 2^53 and the exponent notation JavaScript uses for very large numbers are not modelled.
- Unary plus on a text that is not decimal digits does not arise: `Valid()` keeps every text read by `+` a digit string.
- Timer.PomodoroTimer.Tick: the new countdown text is stated by its meaning, padded and one second shorter, not as `NextDisplay(old text)`. `Clock.NextDisplayUnique` shows that this fixes the text, and `RunInterval` uses it.
- A long-break mode and a counter of completed intervals do not exist in `timer.js`, so they are not modelled. The model follows the code's two strictly alternating modes.
