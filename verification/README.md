# Interval schedule calculators and product-key decoder, in Dafny

This project models the pure cores of three small Java desktop utilities and
proves properties of them.

- **TimeCalculator.java** is a schedule calculator. The user types a list of
  interval fields, each "MM" minutes or "HMM" hours and minutes. The
  calculation adds the non-blank fields to the current time. It latches, for
  each of the 3 PM, 5 PM and 7 PM cutoffs, the first interval whose running
  projected time goes past it, and warns about the latest cutoff crossed. A
  countdown targets the first interval, writes the minutes left into its
  field every second, and on expiry shifts the rows up and targets the next
  one. "Stop" puts the starting interval back.
- **Time.java** is a second calculator over numbered rows. Its parser,
  `parseInput`, is stricter and answers -1 for what it refuses. It shows an
  ETA per row, renumbers rows after every insert or remove, stops at the
  first refused row, and measures minutes past a cutoff from the current
  time.
- **WinKey.java** holds the decoder part. It reads the registry's hex dump
  into bytes and extracts 25 base-24 key characters from the
  DigitalProductId, exactly as its loop does. It groups them in fives with
  dashes and names the Windows release from the build number.

The modules follow that structure:

| file | module | what it holds |
|---|---|---|
| `wrappers.dfy` | `Wrappers` | `Option` |
| `java_lang.dfy` | `JavaLang` | `int` wrap-around, truncating `/` and `%`, `String.trim`, `Integer.parseInt`, `String.valueOf` |
| `clock.dfy` | `Clock` | `LocalTime` as seconds of the day: `plusMinutes`, `isAfter`, `Duration.between(..).toMinutes()` |
| `cutoffs.dfy` | `Cutoffs` | the cutoff pass both calculators run, with a reference definition and the proof that they agree |
| `calculator.dfy` | `Calculator` | TimeCalculator.java's field rule, `calculateResult`, `formatDuration` |
| `interval_panel.dfy` | `IntervalPanel` | TimeCalculator.java's list of rows: add, remove-last, shift-up |
| `countdown.dfy` | `Countdown` | TimeCalculator.java's countdown: retarget, start, stop, tick |
| `time_rows.dfy` | `TimeRows` | Time.java: rows, `parseInput`, ETA, `calculateResult` |
| `win_key.dfy` | `WinKey` | WinKey.java: hex reading, key decoding and formatting, build classification |

Modelling choices:

- **Time of day.** A time of day is a whole number of seconds since
  midnight, 0..86399. Whole minutes modulo 1440 are not enough:
  - `LocalTime.now()` carries seconds, and `isAfter` on a cutoff is decided
    by them when the projected minute equals the cutoff minute.
  - Time.java's count of minutes past a cutoff differs from
    TimeCalculator.java's by one, depending on the seconds of `now`
    (`TimeRows.MinutesPastRelation`).
- **Wall clock.** The clock is the `now` parameter of every event.
- **Time formatting.** The "hh:mm a" formatter is an uninterpreted `clock`
  parameter.
- **Totals.** Running `int` totals wrap at 32 bits (`JavaLang.Wrap32`).
  TimeCalculator.java accepts any `Integer.parseInt` value, so a list of
  large intervals can overflow.
- **The key decoder** is a method over an array with loop invariants. It is
  modelled as written: the inner loop divides byte `52 + i` fifteen times,
  not fifteen different bytes. The key therefore depends only on bytes
  52..76, one byte per character (`WinKey.KeyReadsOnlyItsWindow`). The
  intended decoder, which divides the 15-byte number in bytes 52..66 by 24
  once per character, is modelled beside it (`WinKey.CorrectedKeyChars`).
- **Where the documented behaviour and the code differ, the model follows the
  code:**
  - TimeCalculator.java's field rule accepts signed values and values of
    four or more digits. Only three-digit fields are read as "HMM".
  - After the last interval expires the countdown stays active, ticking with
    "--:--" (`Countdown.SingleIntervalRunsOut`). Starting on a blank field
    likewise leaves the tick running with no target.

## Model

| member | source | states |
|---|---|---|
| `JavaLang.Wrap32` | TimeCalculator.java:463 | an `int` addition keeps the exact sum modulo 2^32, in the `int` range, and is exact when the sum fits |
| `JavaLang.WrapAdd` | TimeCalculator.java:463 | adding into an `int` one interval at a time wraps like wrapping the exact total once |
| `JavaLang.JDiv` | Time.java:194 | Java `/` rounds toward zero: the bounds on `b*q` for each sign of the dividend |
| `JavaLang.JRem` | Time.java:195 | Java `%` completes the division, is smaller than the divisor and takes the dividend's sign |
| `JavaLang.Trim` | TimeCalculator.java:446 | `trim` leaves no white character at either end and is empty exactly for all-white text |
| `JavaLang.TrimIsSlice` | TimeCalculator.java:446 | `trim` returns a slice of its argument with only white characters cut from the two ends |
| `JavaLang.TrimIdempotent` | TimeCalculator.java:401 | trimming the shifted texts again changes nothing |
| `JavaLang.ParseInt` | TimeCalculator.java:457 | `Integer.parseInt` refuses empty text and a bad first character, reads plain digits as their value, and gives only `int` values |
| `JavaLang.ParseIntMeaning` | TimeCalculator.java:457 | `Integer.parseInt` succeeds exactly on all digits, or '+' or '-' followed by at least one digit, with a magnitude up to 2147483647 (2147483648 after '-'); the value is the digits' value, negated after '-' |
| `JavaLang.ParsePrintedInt` | TimeCalculator.java:356 | `String.valueOf` of an `int` is read back by `Integer.parseInt` as the same `int` |
| `JavaLang.IntToString` | TimeCalculator.java:139 | `String.valueOf` is all digits exactly for non-negative values and starts with '-' exactly for negative ones |
| `Clock.Of` | TimeCalculator.java:22-24 | `LocalTime.of(h, m)` is on a whole minute, h hours and m minutes after midnight |
| `Clock.PlusMinutes` | TimeCalculator.java:465 | `plusMinutes` is congruent to the exact sum modulo a day and keeps the seconds |
| `Clock.MinutesBetween` | TimeCalculator.java:469 | `Duration.between(a, b).toMinutes()` is the signed distance in whole minutes, rounded toward zero |
| `Cutoffs.Latest` | TimeCalculator.java:491-493 | the reported cutoff is a latched one, no later cutoff is latched, and there is none exactly when no cutoff is latched |
| `Cutoffs.RunTotal` | TimeCalculator.java:463 | the pass's total is the exact sum of the non-blank intervals, wrapped to an `int` |
| `Cutoffs.ProjectedAtEnd` | TimeCalculator.java:487 | the time after the last interval is `now` plus the pass's total |
| `Cutoffs.RunLatch` | TimeCalculator.java:465-478 | each cutoff's latch is unset exactly when no interval crosses it, else it holds the first crossing and its projected time |
| `Cutoffs.RunMeaning` | TimeCalculator.java:463-478 | the whole pass: the wrapped sum, and every cutoff latched at its first crossing |
| `Cutoffs.LatchesNest` | TimeCalculator.java:467-478 | a later cutoff latched at interval i means every earlier cutoff is latched at i or before |
| `Cutoffs.Step` | TimeCalculator.java:463-478 | a blank interval changes nothing; otherwise the total grows by the interval, wrapped to an `int`; a latched cutoff stays as it was; an unlatched one is latched at this interval and its projected time exactly when that time is after the cutoff |
| `Cutoffs.Run` | TimeCalculator.java:463-478 | every latch the whole pass sets names an interval 1..N whose projected time is after its cutoff (the full meaning is `Cutoffs.RunMeaning`) |
| `Cutoffs.ReportedCrossing` | TimeCalculator.java:491-500 | the reported cutoff is the latest crossed anywhere, at its first crossing; with none reported, no cutoff is crossed |
| `Calculator.ParseField` | TimeCalculator.java:446-458 | a field that reads gives an `int` number of minutes |
| `Calculator.ParseFieldMeaning` | TimeCalculator.java:446-460 | blank exactly when all white; three digits are H*60+MM and refused when MM >= 60; any other text is what `Integer.parseInt` makes of it |
| `Calculator.ParseTrimmed` | TimeCalculator.java:446 | a field reads the same after `trim` |
| `Calculator.Accumulate` | TimeCalculator.java:463-478 | the loop body: wrapped addition, projection, latch of each cutoff crossed for the first time |
| `Calculator.PassOverFields` | TimeCalculator.java:445-479 | the loop gets through every field exactly when none is unreadable, and then its state is the cutoff pass over the fields |
| `Calculator.CalculateResult` | TimeCalculator.java:436-493 | invalid input exactly when some field does not read; otherwise the wrapped total, `now` plus it, and the warning of the latest latched cutoff |
| `Calculator.WarningMeaning` | TimeCalculator.java:465-493 | the warning: the latest cutoff crossed, at its first crossing, by the non-negative whole minutes from the cutoff to the projected time |
| `Calculator.WarningText` | TimeCalculator.java:481-500 | the warning label is empty exactly on invalid input or when no cutoff is crossed; otherwise it names the cutoff and the interval number, and ends with a duration that reads back as the minutes past |
| `Calculator.ResultText` | TimeCalculator.java:481-489 | the result label is the invalid-input message exactly on invalid input; otherwise it names the resulting time and ends with the total in parentheses, as a duration that reads back as the total |
| `Calculator.ReadFormattedDuration` | TimeCalculator.java:426-434 | `formatDuration` loses nothing: its "N min" / "H hr" / "H hr M min" text reads back as the minutes |
| `Calculator.FormatDuration` | TimeCalculator.java:426-434 | the text ends in " min" exactly when the minutes are under an hour or not a whole number of hours, and in " hr" otherwise (that it reads back is `Calculator.ReadFormattedDuration`) |
| `IntervalPanel.Add` | TimeCalculator.java:193-200 | "+" keeps the rows, appends one empty row numbered count+1 and labelled as such, and keeps the rows well formed |
| `IntervalPanel.RemoveLast` | TimeCalculator.java:236-247 | "-" drops only the last row when there are more than one, and otherwise changes nothing |
| `IntervalPanel.RemoveUndoesAdd` | TimeCalculator.java:236-247 | "-" right after "+" gives back the rows as they were |
| `IntervalPanel.ShiftUp` | TimeCalculator.java:389-423 | a single row is cleared; otherwise the first row goes, the rest keep their trimmed texts in order and are numbered and labelled 1..N-1; never empty |
| `IntervalPanel.LabelText` | TimeCalculator.java:168 | the label is "Interval ", the row number, then " (MM / HMM):", and the number in it reads back as the row number |
| `Countdown.Retarget` | TimeCalculator.java:317-357 | no rows, a blank field or unreadable text clears the target; an out-of-range HMM changes nothing; v minutes targets `now+v` and rewrites field 1 as the printed v (`String.valueOf`); other rows untouched |
| `Countdown.Start` | TimeCalculator.java:120-130 | the countdown runs after a retarget, keeping the state valid |
| `Countdown.Stop` | TimeCalculator.java:132-145 | the countdown stops and the ETA resets; field 1 shows the starting interval; the target, the readings, the last-change time, the other fields and the row numbering are unchanged |
| `Countdown.StopRestoresStartingInterval` | TimeCalculator.java:132-145 | start then stop on a field reading v minutes writes v in decimal, which reads back as v exactly when v is not 100..999 |
| `Countdown.StopRereadsHmm` | TimeCalculator.java:138-139 | start then stop on field "500" writes "300", which then reads as 180 minutes |
| `Countdown.PrintedReadsBack` | TimeCalculator.java:139 | an `int` printed in decimal reads back under the field rule as itself exactly when it is not 100..999 |
| `Countdown.Shift` | TimeCalculator.java:389-423 | the shift of one row clears the target; of more rows it keeps the target and shifts the rows |
| `Countdown.Tick` | TimeCalculator.java:359-387 | a tick keeps the rows non-empty and the state valid |
| `Countdown.TickCountsDown` | TimeCalculator.java:368-374 | with time left, field 1 becomes the printed whole minutes left, the ETA splits the seconds left, target and other rows stay |
| `Countdown.TickExpires` | TimeCalculator.java:375-386 | at expiry the change time is the target, the running flag stays, and the rows shift up |
| `Countdown.TickExpiresRetargets` | TimeCalculator.java:375-386 | at expiry with more rows, the trimmed next field t is targeted: v minutes when t reads v and the countdown is stopped, the re-read of the printed v when it runs; an out-of-range HMM keeps the old target; blank or unreadable t clears it; field 1 becomes t or the printed minutes; the ETA shows the change time unless the target was cleared |
| `Countdown.TickIdle` | TimeCalculator.java:360-363 | without a positive interval or a target a tick changes only the ETA |
| `Countdown.ShiftKeepsReadings` | TimeCalculator.java:399-413 | the shifted rows read as the old rows after the first |
| `Countdown.SingleIntervalRunsOut` | TimeCalculator.java:359-397 | a single five-minute interval expires after five minutes, clears its field and target, and the countdown stays active |
| `Countdown.RetargetRereadsHmm` | TimeCalculator.java:337-356 | field "500" is targeted as 300 minutes, rewritten "300", and a second retarget reads it as 180 |
| `Countdown.ExpiryRereadsNextInterval` | TimeCalculator.java:381-385 | at expiry a next interval of "500" is targeted as 180 minutes, not 300 |
| `Countdown.CountdownWritesUnreadableField` | TimeCalculator.java:369-370 | a tick with 299 minutes left writes a field the calculation refuses |
| `Countdown.FieldText` | TimeCalculator.java:356 | the corrected field text reads back as exactly the minutes targeted |
| `Countdown.RetargetReadingBack` | TimeCalculator.java:317-357 | the corrected retarget leaves field 1 reading as it read |
| `Countdown.RetargetReadingBackTwice` | TimeCalculator.java:317-357 | with the corrected field text, retargeting twice is retargeting once |
| `Countdown.StartReadingBack` | TimeCalculator.java:120-130 | the corrected start runs the countdown, field 1 keeping its reading and the starting interval being what it reads |
| `Countdown.StopReadingBack` | TimeCalculator.java:132-145 | the corrected stop writes the starting interval so that field 1 reads back as it; it stops the countdown and resets the ETA |
| `Countdown.StopReadingBackRestores` | TimeCalculator.java:132-145 | with the corrected field text, start then stop leaves field 1 reading the v minutes it read before |
| `Countdown.TickReadingBack` | TimeCalculator.java:359-387 | the corrected tick keeps the rows non-empty |
| `Countdown.TickReadingBackCountsDown` | TimeCalculator.java:368-374 | with the corrected field text, field 1 reads as the whole minutes left |
| `Countdown.TickReadingBackExpires` | TimeCalculator.java:375-386 | with the corrected field text, a next field reading v minutes is targeted as v minutes from `now`, and field 1 reads v |
| `Countdown.CountdownPastMidnightEndsAtOnce` | TimeCalculator.java:365-368 | five minutes started at 23:58 expire on the next tick |
| `Countdown.SecondsLeft` | TimeCalculator.java:366 | `Duration.between(now, target)` in seconds: positive exactly while the target is ahead on the same day, zero exactly at it, within a day either way, and `now` moved on by it shows the target |
| `Countdown.CountsDownAcrossMidnight` | TimeCalculator.java:366-368 | with the corrected count on an absolute deadline, v minutes started at any instant have exactly 60v-e seconds left e seconds later, for every v and e; the deadline shows as the target `plusMinutes` gives |
| `Countdown.DeadlineAgreesWithinTheDay` | TimeCalculator.java:366 | when neither the target nor `now` passes midnight, the corrected count equals the count as written |
| `Countdown.DeadlinePastMidnight` | TimeCalculator.java:366-368 | five minutes started at 23:58 still have 299 seconds left at 23:58:01 under the corrected count |
| `TimeRows.Revalidate` | Time.java:258-262 | renumbering numbers the rows 1..N in list order and keeps their texts |
| `TimeRows.LastRowIsLast` | Time.java:211-213 | in numbered rows, `isLastRow` holds of exactly the last row |
| `TimeRows.IsLastRow` | Time.java:211-213 | in numbered rows, a row of the list is the last row exactly when it is the list's final element |
| `TimeRows.AddRowAt` | Time.java:225-229 | an empty row goes in at position k-1, the others keep their order, and all are renumbered |
| `TimeRows.AddNewRow` | Time.java:237-239 | a new row goes at the end |
| `TimeRows.FirstArmed` | Time.java:244-246 | the search finds the first armed button, or none exactly when no button is armed |
| `TimeRows.RemoveRow` | Time.java:241-256 | with one row or no armed button nothing changes; otherwise exactly the first armed row goes and the rest are renumbered |
| `TimeRows.RemoveKeepsOne` | Time.java:241-256 | a remove never empties the rows and takes at most one row |
| `TimeRows.RemoveUndoesAdd` | Time.java:225-256 | removing the row just inserted at k gives back the texts |
| `TimeRows.ParseInput` | Time.java:189-209 | -1 for unparsable text and for more than three characters; up to two characters are the value itself |
| `TimeRows.ParseInputThreeChars` | Time.java:191-199 | three digits are H*60+MM, -1 when MM >= 60; "-dd" is the negative value; "+dd" is refused when dd >= 60 |
| `TimeRows.ParseInputRange` | Time.java:189-209 | every answer lies between -99 and 599 |
| `TimeRows.EtaText` | Time.java:169-187 | the ETA is empty exactly for blank text and "Invalid input" exactly when `parseInput` refuses the trimmed text |
| `TimeRows.SingleRowEta` | Time.java:173-177 | an accepted row's ETA is `now` plus its minutes, the time a calculation over that row alone gives |
| `TimeRows.RefusedMeaning` | Time.java:288-292 | a row is refused exactly when its trimmed text is non-blank and `parseInput` answers negative |
| `TimeRows.PassOverRows` | Time.java:286-319 | the loop stops at the first refused row; when it reaches the end, its state is the cutoff pass over the rows |
| `TimeRows.CalculateRows` | Time.java:275-326 | an error exactly when some row is refused, naming the first one (1-based) and its trimmed text; otherwise the wrapped total and `now` plus it |
| `TimeRows.MinutesPastRelation` | Time.java:304 | Time.java's minutes past is TimeCalculator.java's count, plus one exactly when `now` is before the cutoff and not on a whole minute |
| `TimeRows.WarningMeaning` | Time.java:301-343 | the warning: the latest cutoff crossed, at its first crossing, by a non-negative count that is TimeCalculator.java's or one more |
| `TimeRows.WarningSuffix` | Time.java:328-343 | the suffix is empty exactly without a warning; otherwise it names the cutoff and the interval number, and the number before " minutes" reads back as the minutes past |
| `TimeRows.ResultText` | Time.java:293-345 | a refused row gives "Error: Invalid input in Interval ", a number that reads back as the row's 1-based index, ": " and the trimmed text; otherwise the resulting time and total, then the warning suffix |
| `TimeRows.AcceptedReadsTheSame` | Time.java:189-209 | a text `parseInput` accepts reads as the same minutes under TimeCalculator.java's rule |
| `TimeRows.SamePassAsCalculator` | Time.java:286-313 | with no refused row, Time.java runs the same cutoff pass as TimeCalculator.java over the same texts |
| `WinKey.HexToBytes` | WinKey.java:189-197 | `hexStringToByteArray` gives len/2 bytes, byte k read from characters 2k and 2k+1; odd length gives none |
| `WinKey.HexRoundTrip` | WinKey.java:189-197 | reading the hex dump of bytes gives back the bytes |
| `WinKey.HexRoundTripText` | WinKey.java:189-197 | an even-length upper-case hex string read as bytes and dumped again is the same string |
| `WinKey.HexDigit` | WinKey.java:193-194 | `Character.digit(c, 16)` is a digit 0..15 exactly for 0-9, a-f and A-F, and -1 otherwise; the digit prints back as the character, upper-cased |
| `WinKey.Divide` | WinKey.java:121-123 | one inner step: 256*carry + byte = 24*new byte + new carry, with the carry below 24 |
| `WinKey.DivideInPlace` | WinKey.java:119-124 | the inner loop leaves the extracted digit and rewrites only its byte |
| `WinKey.KeyChars` | WinKey.java:115-126 | the 25 key characters are all from the alphabet "BCDFGHJKMPQRTVWXY2346789" |
| `WinKey.KeyCharFromByte` | WinKey.java:125 | iteration i fills position 24-i, from byte 52+i |
| `WinKey.DigestStep` | WinKey.java:121-122 | iteration i rewrites byte 52+i and no other byte |
| `WinKey.DigestKeepsOutside` | WinKey.java:118-126 | decoding leaves every byte outside 52..76 unchanged |
| `WinKey.KeyReadsOnlyItsWindow` | WinKey.java:118-126 | as written, the key depends only on bytes 52..76 |
| `WinKey.AsWrittenMissesTheCarry` | WinKey.java:118-126 | as written, the id whose bytes 52..66 hold the number 24 gets 'B' at key position 23 |
| `WinKey.DivideNumber` | WinKey.java:119-124 | the intended inner loop divides the whole little-endian number by 24: number = 24 * quotient + remainder, remainder below 24 |
| `WinKey.RoundsAreDigits` | WinKey.java:118-126 | round k of the intended loop leaves base-24 digit k of the number |
| `WinKey.CorrectedKeyChars` | WinKey.java:114-126 | the intended key position p is the alphabet letter of base-24 digit 24-p of the number in bytes 52..66 |
| `WinKey.CorrectedCarries` | WinKey.java:114-126 | the intended key for the number 24 has 'C' at position 23 |
| `WinKey.CorrectedDecode` | WinKey.java:110-135 | the intended decoding gives a key exactly when the id is present with at least 164 bytes, and the key's 25 characters are the base-24 digits |
| `WinKey.DecodeKey` | WinKey.java:110-135 | no key when the id is missing or shorter than 164 bytes; otherwise the grouped key characters, and the bytes as the loop leaves them |
| `WinKey.GroupedShape` | WinKey.java:128-134 | the grouped prefix puts a dash at every sixth position and key character p - p/6 at every other position p |
| `WinKey.Format` | WinKey.java:128-135 | the printed key has 29 characters with dashes at positions 5, 11, 17 and 23 and the key characters in order elsewhere |
| `WinKey.GroupKey` | WinKey.java:128-135 | the formatting loop builds that printed key |
| `WinKey.UngroupFormat` | WinKey.java:128-135 | dropping the dashes gives back the 25 key characters |
| `WinKey.Classify` | WinKey.java:80-92 | each release is chosen exactly on its band of builds: >=22000, 10240.., 7600.., 6000.., 2600.., below 2600 |
| `WinKey.ClassifyMonotone` | WinKey.java:81-91 | a later build is never classified as an earlier release |
| `WinKey.VersionLabel` | WinKey.java:80-92 | the label starts with the release name, then " (Build ", and ends with ")"; the text between reads back through `Integer.parseInt` as the build |
| `WinKey.LabelsOfBandsDiffer` | WinKey.java:80-92 | builds classified as different releases get different labels, whatever their ReleaseIds |

## Left out

- Swing is left out: layout, labels, buttons, focus and key listeners, and
  the HTML markup of the labels. The model keeps the text values the logic
  produces.
- `javax.swing.Timer` is left out, and so is restarting it. A tick is
  `Countdown.Tick` at the time it runs, and the running flag is
  `Machine.active`.
- `LocalTime.now()` becomes the `now` parameter. Each event reads it once,
  although the source reads it again inside `updateCountdownTarget` after a
  tick. Readings are whole seconds; the nanosecond part is left out.
- `DateTimeFormatter` ("hh:mm a" and the zone) is the uninterpreted `clock`
  parameter. The current-time label is left out.
- The registry is left out: `reg query`, the regular-expression scraping and
  the choice between the two registry paths (WinKey.java:95-108, 138-187).
  `WinKey.DecodeKey` takes the value that was read, or none.
- The `os.version` floating-point fallback of `detectWindowsVersion`
  (WinKey.java:72-78) is left out.
- CalendarCreator.java and Recent.java are not part of this model. They are
  image I/O, printing, a file-system scan on a thread, and date formatting.
- `Integer.parseInt` is modelled for ASCII digits with an optional sign and
  the `int` range. Other Unicode decimal digits, which Java also accepts, are
  left out. `Character.digit(c, 16)` likewise covers ASCII only.
- The 32-bit wrap of the `(int)` casts of the minutes past a cutoff is left
  out. The minutes past stay far inside the `int` range for times of one
  day.
- Calculator.ReadFormattedDuration covers the totals `formatDuration` is
  given as `int`s. Its `long` parameter adds nothing.
- Countdown.Tick: its contract states only that the rows stay non-empty
  and the state stays valid. The three cases are stated by `TickCountsDown`,
  `TickExpires`, `TickExpiresRetargets` and `TickIdle`.
- WinKey.HexToBytes: counts characters as code points, where Java's
  `length` and `charAt` count UTF-16 units. The two agree on the ASCII hex
  text the registry dump holds.
- Countdown.SecondsToDeadline: the corrected count is stated on its own.
  The machine keeps the as-written `SecondsLeft` on times of day; a machine
  holding an absolute deadline is not modelled.
- Countdown.Start: its contract does not restate the retarget it begins
  with (see `Countdown.Retarget`).

## Findings

| source | as written | input that shows it | evidently intended | confidence | as-written member | corrected member |
|---|---|---|---|---|---|---|
| TimeCalculator.java:353-356 | The retarget writes the minutes back into field 1 as plain decimal text. The countdown writes the whole minutes left the same way (line 370), and so does "Stop" with the starting interval (line 139). Any later read takes three-digit text as "HMM". | Field "500" (five hours) is targeted as 300 minutes and rewritten "300". At expiry the next interval is targeted twice (lines 382 and 384), so "500" there counts 180 minutes. Start then stop on "500" leaves "300", read as 180 minutes. While counting down with 299 minutes left, the field shows "299", which `calculateResult` refuses as invalid input. | Field 1 reads back as the minutes the countdown holds | not executed; high | `Countdown.RetargetRereadsHmm`, `Countdown.StopRereadsHmm`, `Countdown.CountdownWritesUnreadableField` | `Countdown.RetargetReadingBackTwice`, `Countdown.StopReadingBackRestores`, `Countdown.TickReadingBackCountsDown`, `Countdown.TickReadingBackExpires` |
| TimeCalculator.java:366-368 | The seconds left are `Duration.between(now, target)`. That difference does not wrap at midnight. | Five minutes started at 23:58 target 00:03. At the next tick, 23:58:01, the difference is negative, so the interval expires at once. | The countdown runs its full length across midnight, counted to an absolute deadline | not executed; medium | `Countdown.CountdownPastMidnightEndsAtOnce` | `Countdown.CountsDownAcrossMidnight`, `Countdown.DeadlinePastMidnight` |
| WinKey.java:114-126 | The comment names the standard decoding, which divides the 15-byte number in bytes 52..66 by 24 once per character. The inner loop instead divides byte `52 + i` fifteen times (lines 121-122), leaving `j` unused, so each key character comes from one byte on its own. | Bytes 52..66 hold the number 24: byte 52 is 24 and every other byte is 0. Its base-24 digits are 1 and 0, so the intended key has 'C' at position 23. The loop takes position 23 from byte 53 alone, which is 0, and prints 'B'. | The key is the base-24 expansion of the number in bytes 52..66 | not executed; high | `WinKey.KeyReadsOnlyItsWindow`, `WinKey.AsWrittenMissesTheCarry` | `WinKey.CorrectedKeyChars`, `WinKey.CorrectedCarries`, `WinKey.CorrectedDecode` |
