# pretty-sleepy, modelled in Dafny

pretty-sleepy is a command-line sleep timer written as a single Node.js
script, `index.js`. It reads one duration argument, fixes a deadline, and
then repaints a countdown line `H:MM:SS.mmm left...` until the deadline
passes. At that point it erases the line and exits with code 0.

This project models the three parts of that script that have a behaviour
worth stating. It also models how the script starts up.

- **The duration parser `parseTime`** (`parse_time.dfy`, module `Parser`).
  - A digits-only argument counts as seconds.
  - Otherwise the argument must match the anchored pattern
    `^((\d+)h)?((\d+)m)?((\d+)s)?((\d+)ms)?$`.
  - Anything else counts as 0.
  - The pattern has a reference meaning: a string matches when some
    well-formed choice of optional parts spells it (`Matches`, `Text`).
  - A deterministic recogniser (`MatchHms`) reads the four optional
    groups in order. The minutes group backs off when the `m` it took is
    followed by `s`, which is the one backtracking step the pattern can
    need. The recogniser is proved to accept exactly the matching strings,
    with the only possible captures.
- **The formatter `format`** (`format.dfy`, module `Formatter`).
  - It slices the decimal text of the count. The last three characters
    are the milliseconds. The rest is the whole seconds, and an empty rest
    counts as 0.
  - The model proves that this slicing gives the same result as division
    and remainder: `Display(Fields(n))`.
  - It also proves that the rendered fields read back and recompose to
    the count, so `format` is injective.
- **The interval callback** (`timer.dfy`). Module `Timer` holds:
  - the decision at each clock reading (`TickAt`);
  - what that decision writes (`Output`);
  - runs over a list of readings (`RunTicks`).

  Module `Process` holds the mutable process state: class `Countdown`,
  with the fixed deadline, running or stopped, the exit code and
  everything written so far. Its `Tick` method is the callback, and
  `RunInterval` calls it once per reading, as the interval timer does.
- **Start-up** (`cli.dfy`, module `Cli`). It covers:
  - the missing-argument check, which gives exit code 1;
  - the deadline `now + parseTime(argument)`;
  - the precedence `PRETTY_SLEEPY_FPS ?? FPS ?? 30`.

`decimal.dfy` (module `Decimal`) models the JavaScript string and number
conversions the script relies on for non-negative integers:
- `String(n)` is `Show`;
- `Number` and `parseInt` of a digit string are `Value`;
- `padStart` is `PadStart`.

It also defines the reference meaning of zero-padding, `Pad`.

The clock (`Date.now()`) and the environment variables are parameters.
Output is a returned or recorded string. The exit code is a value.

## Model

| member | source | states |
|---|---|---|
| Decimal.ShowValue | index.js:56 | `String(n)` of a non-negative integer is a non-empty digit string with no leading zero (unless it is "0"), and it reads back as `n` |
| Decimal.ShowInjective | index.js:56 | different counts have different decimal texts |
| Decimal.PadStart | index.js:57 | `padStart(w, c)` keeps the string as its suffix, fills with `c` on the left, and reaches length `w` unless the string was already longer |
| Decimal.PadStartZeros | index.js:61-62 | padding a digit string that fits with '0' gives the reference zero-padded form of its value |
| Decimal.PadFits | index.js:61-63 | a value below 10^w, padded to w digits, is exactly w digits that read back as the value |
| Parser.DigitRun | index.js:43 | `\d+` is greedy: the run is all digits and is followed by a non-digit or the end |
| Parser.Group | index.js:43 | one optional group `((\d+)suffix)?`: the capture, its suffix and the rest put back together give the input |
| Parser.MinutesGroup | index.js:43 | the minutes group never leaves an `s` right after the `m` it took, so `ms` is never read as minutes and a stray `s` |
| Parser.MatchSound | index.js:43 | every match the recogniser reports is a well-formed spelling of the input |
| Parser.MatchComplete | index.js:43 | on every well-formed spelling the recogniser finds exactly those captures |
| Parser.MatchExact | index.js:43-44 | the recogniser succeeds if and only if the pattern matches, and its captures are the only possible ones |
| Parser.ParseWholeSeconds | index.js:39-41 | a digits-only argument `n` gives `n * 1000` |
| Parser.TextNotSeconds | index.js:39-43 | a compound spelling is never digits only, so the seconds branch never catches it |
| Parser.ParseCompound | index.js:43-49 | a compound argument gives hours·3600000 + minutes·60000 + seconds·1000 + milliseconds, an omitted part counting as 0 |
| Parser.ParseCompoundAmounts | index.js:43-49 | the same for parts written as numbers `Xh`, `Ym`, `Zs`, `Wms` |
| Parser.ParseFallback | index.js:52 | an argument of neither form gives 0 |
| Parser.ParseCases | index.js:38-53 | the three cases together: digits only, a match with its total, and otherwise 0 |
| Parser.OutOfOrder | index.js:43-52 | seconds before minutes (`As Bm`) does not match and gives 0 |
| Parser.RepeatedPart | index.js:43-52 | a part given twice (`Am Bm`) does not match and gives 0 |
| Parser.ExampleMinutes | index.js:27 | "5m" gives 300000 |
| Parser.ExampleHoursMinutes | index.js:28 | "7h3m" gives 25380000 |
| Parser.ExampleMinutesMillis | index.js:29 | "1m350ms" gives 60350 |
| Parser.ExampleAllParts | index.js:30-31 | "98h40m37s973ms" gives 355237973 |
| Parser.ExampleSecondsSuffix | index.js:32 | "86400s" gives 86400000 |
| Parser.ExampleDigitsOnly | index.js:39-40 | "86400" gives 86400000 |
| Parser.ExampleMillis | index.js:43 | "5ms" gives 5 |
| Parser.ExampleEmpty | index.js:43-49 | "" matches with every part omitted and gives 0 |
| Parser.ExampleZeroSeconds | index.js:43-49 | "0s" gives 0 |
| Parser.FallbackOutOfOrder | index.js:52 | "5s5m" gives 0 |
| Parser.FallbackRepeated | index.js:52 | "1m1m" gives 0 |
| Parser.FallbackWord | index.js:52 | "garbage" gives 0 |
| Formatter.ChainedDivision | index.js:59-60 | flooring by 1000 and then twice by 60 is flooring by 60000 and by 3600000, and the remainders recompose the count |
| Formatter.Fields | index.js:59-62 | the fields are in range (minutes and seconds below 60, milliseconds below 1000) and recompose to the count |
| Formatter.FieldsOfMillis | index.js:59-63 | fields in range are the fields of the count they stand for |
| Formatter.ReadDisplay | index.js:63 | the rendering `H:MM:SS.mmm` reads back as its fields |
| Formatter.SplitDecimal | index.js:56-58 | the prefix before the last three characters reads as `n div 1000`, and the last three, padded, are `n mod 1000` in three digits |
| Formatter.TwoDigits | index.js:61-62 | a value below 60, padded to two, is that value in exactly two digits |
| Formatter.FormatIsDisplay | index.js:55-64 | `format(n)` is `H:MM:SS.mmm` with H = n div 3600000 unpadded, MM = (n div 60000) mod 60, SS = (n div 1000) mod 60 and mmm = n mod 1000 |
| Formatter.FormatReadsBack | index.js:55-64 | the fields read back from `format(n)` are those of `n` and recompose to `n` |
| Formatter.FormatInjective | index.js:55-64 | different counts never share a rendering |
| Formatter.FormatExample | index.js:55-64 | fields in range that render as a text are what `format` writes for their count |
| Formatter.FormatZero | index.js:55-64 | 0 renders as "0:00:00.000" |
| Formatter.FormatFiveMinutes | index.js:55-64 | 300000 renders as "0:05:00.000" |
| Formatter.FormatAllParts | index.js:55-64 | 355237973 renders as "98:40:37.973" |
| Formatter.FormatJustUnderAMinute | index.js:55-64 | 59999 renders as "0:00:59.999" |
| Timer.TickStops | index.js:82-85 | the callback stops exactly when the reading is at or after the deadline, with exit code 0, and otherwise repaints with the positive time left |
| Timer.FinishWritesClear | index.js:84 | stopping writes exactly ESC `[0K`, with no line terminator |
| Timer.RedrawShowsRemaining | index.js:87-88 | a countdown line ends in " left...\r", holds no other carriage return or newline, and after that tail reads back as the fields of the time left |
| Timer.ZeroDurationFinishesAtOnce | index.js:73-85 | a zero duration finishes on the first tick at or after the start |
| Timer.UnreadableFinishesAtOnce | index.js:73-85 | an argument of neither form finishes on the first tick at or after the start |
| Timer.RunFollowsReadings | index.js:80-89 | each step of a run is the callback's decision at the reading it saw, one step per reading until the exit |
| Timer.RunExitsIffDeadline | index.js:80-89 | the process exits if and only if some reading is at or after the deadline |
| Timer.RunExitsAtFirstDeadline | index.js:82-85 | it exits with code 0 at the first such reading, and every earlier reading repainted |
| Timer.RunWithoutDeadline | index.js:82-88 | with no reading at the deadline, every reading repaints and there is no exit |
| Process.Countdown.constructor | index.js:73-74 | the deadline is the start reading plus the parsed duration, and nothing has been written yet |
| Process.Countdown.Tick | index.js:80-89 | the callback appends what its decision writes, stops exactly at the deadline, and records exit code 0 when it stops |
| Process.RunInterval | index.js:80-89 | calling the callback once per reading while the process runs appends everything the run writes, yields the run's exit code, and consumes one reading per step |
| Cli.ChooseFps | index.js:76 | `PRETTY_SLEEPY_FPS` wins when set (even to ""), then `FPS`, and 30 only when neither is set |
| Cli.Startup | index.js:67-74 | with no argument the usage text is shown with exit code 1; otherwise the deadline is no earlier than the start, and the frame rate comes from `ChooseFps` |
| Cli.StartupDeadline | index.js:67-74 | only the first argument is read, and the deadline lies its parsed duration after the start |
| Cli.ZeroSecondsEndsAtOnce | index.js:73-85 | `pretty-sleepy 0s` finishes on the first tick at or after the start |
| Cli.GarbageEndsAtOnce | index.js:73-85 | `pretty-sleepy garbage` finishes on the first tick at or after the start |
| Cli.FiveMinutes | index.js:73-88 | `pretty-sleepy 5m` repaints exactly while less than 300000 ms have passed |

## Left out

- JavaScript numbers are doubles. The model uses exact integers, so `time * 1000` and `parseInt` lose no precision above 2^53. `String(n)` never switches to exponent notation, which JavaScript does from 10^21.
- `format` is only ever called with a positive remaining time, so negative arguments to it are not modelled.
- The usage text (index.js:7-34) is not modelled. Only its exit code 1 is kept, as `Cli.Startup`'s `ShowUsage(1)`.
- The actual writes to standard output (index.js:2-4) and `process.exit` are not effects here. They are a recorded string and an exit-code value.
- `Date.now()` is a parameter. The "Sleeping until" line (index.js:78) depends on the host's locale through `toLocaleString`, so it is not modelled.
- The interval length `1000 / FPS` is a floating-point division of an unvalidated environment string, so its value is not modelled. The model fixes only which source the frame rate text comes from.
- `setInterval` scheduling is not modelled. `Process.RunInterval` takes an explicit, finite list of clock readings. Elapsed time between readings, and the real callback order as the runtime schedules it, are not modelled.
- Cli.ChooseFps: reports which source supplies the frame rate, not the number JavaScript would read from that text.
