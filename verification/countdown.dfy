/** The countdown of TimeCalculator.java: "Calculate" targets the first
    interval from the current time and starts a one-second tick; each tick
    writes the whole minutes left into the first field until the target is
    reached, when the rows shift up and the next interval is targeted;
    "Stop" halts the tick and puts the interval it started from back into
    the first field. The wall clock is the `now` parameter of each event. */
module Countdown {
  import opened Wrappers
  import opened JavaLang
  import opened Clock
  import opened Calculator
  import opened IntervalPanel

  /** What the ETA label says: "--:--", the time left, or when the order changed. */
  datatype Eta = Idle | Remaining(minutes: int, seconds: int) | ChangedAt(at: TimeOfDay)

  /** The countdown state next to the rows: the interval the countdown
      started from, the minutes last displayed, the target time if any,
      whether the tick is running, the ETA label and the last change time. */
  datatype Machine = Machine(panel: Panel, initial: int, displayed: int, target: Option<TimeOfDay>,
                             active: bool, eta: Eta, lastChange: Option<TimeOfDay>)
  {
    /** The rows are well formed and no target is held without the interval it came from. */
    predicate Valid() {
      panel.WellFormed() && (target.None? ==> initial == 0 && displayed == 0)
    }
  }

  /** The state as the window opens. */
  const Opened: Machine := Machine(Fresh, 0, 0, None, false, Idle, None)

  /** The three fields `updateCountdownTarget` and `shiftIntervalsUp` clear together. */
  function Cleared(m: Machine): Machine {
    m.(initial := 0, displayed := 0, target := None)
  }

  /** `updateCountdownTarget`: read the first field like the calculation
      does; an empty list, a blank field or unreadable text clears the
      target; an out-of-range "HMM" changes nothing; a reading of `v`
      minutes targets `now + v` and rewrites the field as `v` printed in
      decimal, which need not read back as `v`. */
  function Retarget(m: Machine, now: TimeOfDay): (r: Machine)
    ensures r.active == m.active && r.lastChange == m.lastChange
    ensures r.panel.numbers == m.panel.numbers && r.panel.count == m.panel.count
    ensures |r.panel.fields| == |m.panel.fields|
    ensures forall i :: 1 <= i < |m.panel.fields| ==> r.panel.fields[i] == m.panel.fields[i]
    ensures m.Valid() ==> r.Valid()
    ensures |m.panel.fields| == 0 ==> r == Cleared(m).(eta := Idle)
    ensures |m.panel.fields| > 0 ==>
      match ParseField(m.panel.fields[0])
      case HmmOutOfRange => r == m
      case Minutes(v) =>
        && r.target == Some(PlusMinutes(now, v))
        && r.initial == r.displayed == v
        && r.panel.fields[0] == IntToString(v)
        && ParseInt(r.panel.fields[0]) == Some(v)
        && r.eta == m.eta
      case _ => r == Cleared(m).(eta := Idle, panel := m.panel)
  {
    if |m.panel.fields| == 0 then Cleared(m).(eta := Idle)
    else
      match ParseField(m.panel.fields[0])
      case Blank => Cleared(m).(eta := Idle)
      case NotANumber => Cleared(m).(eta := Idle)
      case HmmOutOfRange => m
      case Minutes(v) =>
        ParsePrintedInt(v);
        m.(initial := v, displayed := v, target := Some(PlusMinutes(now, v)),
           panel := Edit(m.panel, 0, IntToString(v)))
  }

  /** `startCountdown`: retarget, then the tick runs. */
  function Start(m: Machine, now: TimeOfDay): (r: Machine)
    ensures r.active
    ensures r.lastChange == m.lastChange
    ensures m.Valid() ==> r.Valid()
  {
    Retarget(m, now).(active := true)
  }

  /** `stopCountdown`: the tick stops, the first field shows the interval
      the countdown started from, and the ETA goes back to "--:--". */
  function Stop(m: Machine): (r: Machine)
    ensures !r.active && r.eta == Idle
    ensures r.target == m.target && r.initial == m.initial && r.displayed == m.displayed
    ensures r.lastChange == m.lastChange
    ensures r.panel.numbers == m.panel.numbers && r.panel.count == m.panel.count
    ensures |r.panel.fields| == |m.panel.fields|
    ensures |m.panel.fields| > 0 ==> r.panel.fields[0] == IntToString(m.initial)
    ensures forall i :: 1 <= i < |m.panel.fields| ==> r.panel.fields[i] == m.panel.fields[i]
    ensures m.Valid() ==> r.Valid()
  {
    var panel := if |m.panel.fields| > 0 then Edit(m.panel, 0, IntToString(m.initial)) else m.panel;
    m.(active := false, panel := panel, eta := Idle)
  }

  /** Starting from a field that reads as `v` minutes and stopping again
      leaves that field reading `v` under the field rule exactly when `v`
      does not print with three digits: the printed text of 100..999
      minutes is read back as "HMM". */
  lemma StopRestoresStartingInterval(m: Machine, now: TimeOfDay, v: int)
    requires |m.panel.fields| > 0 && ParseField(m.panel.fields[0]) == Minutes(v)
    ensures !Stop(Start(m, now)).active
    ensures Stop(Start(m, now)).panel.fields[0] == IntToString(v)
    ensures ParseField(Stop(Start(m, now)).panel.fields[0]) == Minutes(v) <==> !(100 <= v < 1000)
  {
    PrintedReadsBack(v);
  }

  /** Field "500" (five hours), started and stopped, is left as "300",
      which reads as three hours. */
  lemma StopRereadsHmm(m: Machine, now: TimeOfDay)
    requires |m.panel.fields| > 0 && m.panel.fields[0] == "500"
    ensures Stop(Start(m, now)).panel.fields[0] == "300"
    ensures ParseField(Stop(Start(m, now)).panel.fields[0]) == Minutes(180)
  {
    RetargetRereadsHmm(m, now);
  }

  /** The whole seconds from `now` to the target, without wrap-around at
      midnight: positive exactly while the target is still ahead on the same
      day, and `now` moved on by that many seconds shows the target. */
  function SecondsLeft(target: TimeOfDay, now: TimeOfDay): (r: int)
    ensures r > 0 <==> IsAfter(target, now)
    ensures r == 0 <==> target == now
    ensures -SecondsPerDay < r < SecondsPerDay
    ensures PlusSeconds(now, r) == target
  {
    target - now
  }

  /** The machine part of `shiftIntervalsUp`: the rows shift up, and a
      single row also clears the countdown target. */
  function Shift(m: Machine): (r: Machine)
    requires |m.panel.fields| >= 1
    ensures |r.panel.fields| >= 1
    ensures m.Valid() ==> r.Valid()
    ensures |m.panel.fields| == 1 ==> r.target.None? && r.panel.fields == [""]
    ensures |m.panel.fields| > 1 ==> r.target == m.target && r.panel == ShiftUp(m.panel)
  {
    if |m.panel.fields| <= 1 then Cleared(m).(panel := ShiftUp(m.panel))
    else m.(panel := ShiftUp(m.panel))
  }

  /** `updateCountdown`, one tick at time `now`: without a positive interval
      or a target nothing counts down; while time is left the first field
      shows the whole minutes left; once none is left the change time is
      recorded, the rows shift up, the next interval is targeted and, if the
      countdown is running, started again. */
  function Tick(m: Machine, now: TimeOfDay): (r: Machine)
    requires |m.panel.fields| >= 1
    ensures |r.panel.fields| >= 1
    ensures m.Valid() ==> r.Valid()
  {
    if m.initial <= 0 || m.target.None? then m.(eta := Idle)
    else
      var left := SecondsLeft(m.target.value, now);
      if left > 0 then
        m.(displayed := left / 60, panel := Edit(m.panel, 0, IntToString(left / 60)),
           eta := Remaining(left / 60, left % 60))
      else
        var changed := m.(lastChange := m.target, eta := ChangedAt(m.target.value));
        var next := Retarget(Shift(changed), now);
        if next.active then Start(next, now) else next
  }

  /** While time is left, a tick counts down: the target stays, the first
      field reads the whole minutes left, and the ETA splits the seconds
      left into minutes and seconds. */
  lemma TickCountsDown(m: Machine, now: TimeOfDay)
    requires |m.panel.fields| >= 1
    requires m.initial > 0 && m.target.Some? && m.target.value > now
    ensures var r := Tick(m, now);
      && r.target == m.target && r.initial == m.initial && r.active == m.active
      && r.panel.fields[0] == IntToString((m.target.value - now) / 60)
      && ParseInt(r.panel.fields[0]) == Some(r.displayed)
      && r.eta.Remaining?
      && 60 * r.eta.minutes + r.eta.seconds == m.target.value - now
      && 0 <= r.eta.seconds < 60
      && r.displayed == r.eta.minutes
      && r.panel.fields[1..] == m.panel.fields[1..]
  {
    ParsePrintedInt((m.target.value - now) / 60);
  }

  /** At expiry the change time is the target, and what is left is the
      retarget of the shifted rows, started if the countdown was running. */
  lemma TickExpires(m: Machine, now: TimeOfDay)
    requires |m.panel.fields| >= 1
    requires m.initial > 0 && m.target.Some? && m.target.value <= now
    ensures var r := Tick(m, now);
      && r.lastChange == m.target
      && r.active == m.active
      && (|m.panel.fields| == 1 ==> r.panel.fields == [""] && r.target.None? && r.eta == Idle)
      && (|m.panel.fields| > 1 ==>
            && |r.panel.fields| == |m.panel.fields| - 1
            && forall i :: 1 <= i < |r.panel.fields| ==> r.panel.fields[i] == Trim(m.panel.fields[i + 1]))
  {
  }

  /** At expiry with more than one row, the next interval `t` (the trimmed
      second field) is targeted: read once when the countdown is stopped and,
      as the restart reads the rewritten field again, twice when it runs. An
      out-of-range "HMM" keeps the expired target; a blank or unreadable `t`
      clears it. The ETA shows the change time unless the target was cleared. */
  lemma TickExpiresRetargets(m: Machine, now: TimeOfDay)
    requires |m.panel.fields| > 1
    requires m.initial > 0 && m.target.Some? && m.target.value <= now
    ensures var r := Tick(m, now);
      var t := Trim(m.panel.fields[1]);
      match ParseField(t)
      case Minutes(v) =>
        && r.eta == ChangedAt(m.target.value)
        && (!m.active ==> Targets(r, now, v))
        && (m.active ==>
              match ParseField(IntToString(v))
              case Minutes(w) => Targets(r, now, w)
              case _ => Targets(r, now, v))
      case HmmOutOfRange =>
        && r.initial == m.initial && r.displayed == m.displayed && r.target == m.target
        && r.eta == ChangedAt(m.target.value) && r.panel.fields[0] == t
      case _ =>
        r.initial == 0 && r.displayed == 0 && r.target.None? && r.eta == Idle && r.panel.fields[0] == t
  {
    var changed := m.(lastChange := m.target, eta := ChangedAt(m.target.value));
    var shifted := Shift(changed);
    var t := Trim(m.panel.fields[1]);
    assert shifted.panel.fields[0] == t;
    var next := Retarget(shifted, now);
    match ParseField(t)
    case Minutes(v) =>
      assert Targets(next, now, v);
      if m.active {
        RetargetTargets(next, now, v);
      }
    case HmmOutOfRange =>
    case Blank =>
    case NotANumber =>
  }

  /** The countdown targets `v` minutes from `now`, with field 1 showing `v`. */
  predicate Targets(r: Machine, now: TimeOfDay, v: int) {
    && |r.panel.fields| > 0
    && r.initial == v && r.displayed == v
    && r.target == Some(PlusMinutes(now, v))
    && r.panel.fields[0] == IntToString(v)
  }

  /** A retarget of a countdown targeting `v` reads the printed `v` again. */
  lemma RetargetTargets(m: Machine, now: TimeOfDay, v: int)
    requires Targets(m, now, v) && InInt(v)
    ensures match ParseField(IntToString(v))
      case Minutes(w) => Targets(Retarget(m, now).(active := true), now, w)
      case _ => Targets(Retarget(m, now).(active := true), now, v)
  {
    PrintedReadsBack(v);
    if 100 <= v < 1000 {
      var s := IntToString(v);
      NoWhiteInNumber(v);
      TrimOfTrimmed(s);
      DigitCount(v);
      ParsePrintedInt(v);
      assert |Trim(s)| == 3;
    }
  }

  /** A tick with no positive interval or no target changes nothing but the ETA. */
  lemma TickIdle(m: Machine, now: TimeOfDay)
    requires |m.panel.fields| >= 1
    requires m.initial <= 0 || m.target.None?
    ensures Tick(m, now) == m.(eta := Idle)
  {
  }

  /** The calculation over shifted rows is the calculation over every row
      but the first: the trimming the shift applies is undone by the trim
      every read applies. */
  lemma ShiftKeepsReadings(p: Panel)
    requires |p.fields| > 1
    ensures Parsed(ShiftUp(p).fields) == Parsed(p.fields[1..])
  {
    var q := ShiftUp(p).fields;
    var rest := p.fields[1..];
    forall i | 0 <= i < |q|
      ensures Parsed(q)[i] == Parsed(rest)[i]
    {
      assert q[i] == Trim(rest[i]);
      ParseTrimmed(rest[i]);
      assert Parsed(q)[i] == ParseField(q[i]);
      assert Parsed(rest)[i] == ParseField(rest[i]);
    }
  }

  // ------------------------------------------------------------ scenarios

  /** One interval of five minutes, started at `now`: the tick five minutes
      later records the change, clears the only field and the target, and
      the tick keeps running with nothing to count down. */
  lemma SingleIntervalRunsOut(now: TimeOfDay)
    requires now + 300 < SecondsPerDay
    ensures var started := Start(Opened.(panel := Edit(Fresh, 0, "5")), now);
      && started.target == Some(now + 300)
      && started.panel.fields == ["5"]
      && var after := Tick(started, now + 300);
      && after.lastChange == Some(now + 300)
      && after.panel.fields == [""]
      && after.target.None? && after.initial == 0
      && after.active
      && after.eta == Idle
  {
    assert Trim("5") == "5";
    assert ParseInt("5") == Some(5) by {
      assert AllDigits("5") && DigitsValue("5") == 5;
    }
  }

  // ------------------------------------------------- the minutes read back

  /** The retarget writes the minutes back into the first field as plain
      decimal text, which the next read takes as "HMM" when it has three
      digits: "500" (five hours) is targeted as 300 minutes and rewritten as
      "300", which a second retarget reads as three hours. */
  lemma RetargetRereadsHmm(m: Machine, now: TimeOfDay)
    requires |m.panel.fields| > 0 && m.panel.fields[0] == "500"
    ensures Retarget(m, now).initial == 300
    ensures Retarget(m, now).panel.fields[0] == "300"
    ensures Retarget(Retarget(m, now), now).initial == 180
  {
    ReadsAs("500", 5, 0);
    assert NatToString(300) == "300" by {
      assert NatToString(3) == "3";
      assert NatToString(30) == "30";
    }
    ReadsAs("300", 3, 0);
  }

  lemma ReadsAs(s: string, h: nat, m: nat)
    requires |s| == 3 && AllDigits(s)
    requires DigitValue(s[0]) == h && 10 * DigitValue(s[1]) + DigitValue(s[2]) == m && m < 60
    ensures ParseField(s) == Minutes(60 * h + m)
  {
    TrimOfTrimmed(s);
    ThreeDigitsValue(s);
  }

  /** At expiry the next interval is targeted twice, once by the shift and
      once by the restart, so a next interval of "500" runs for three hours
      instead of five. */
  lemma ExpiryRereadsNextInterval(m: Machine, now: TimeOfDay)
    requires |m.panel.fields| >= 2 && m.panel.fields[1] == "500"
    requires m.initial > 0 && m.target.Some? && m.target.value <= now
    requires m.active
    ensures Tick(m, now).initial == 180
    ensures Tick(m, now).target == Some(PlusMinutes(now, 180))
  {
    var changed := m.(lastChange := m.target, eta := ChangedAt(m.target.value));
    var shifted := Shift(changed);
    assert shifted.panel.fields[0] == Trim("500");
    TrimOfTrimmed("500");
    RetargetRereadsHmm(shifted, now);
  }

  /** While counting down, a tick that leaves 299 whole minutes writes "299"
      into the first field, which the calculation then refuses. */
  lemma CountdownWritesUnreadableField(m: Machine, now: TimeOfDay)
    requires |m.panel.fields| >= 1
    requires m.initial > 0 && m.target.Some? && m.target.value - now == 299 * 60
    ensures ParseField(Tick(m, now).panel.fields[0]) == HmmOutOfRange
  {
    var s := Tick(m, now).panel.fields[0];
    assert s == NatToString(299);
    assert NatToString(299) == "299" by {
      assert NatToString(2) == "2";
      assert NatToString(29) == "29";
    }
    TrimOfTrimmed(s);
    ThreeDigitsValue(s);
  }

  /** The text a retarget would have to write for the field to read back as
      the same minutes: a three-digit count gets a leading zero, which keeps
      it out of the "HMM" form. */
  function FieldText(v: int): (s: string)
    ensures InInt(v) ==> ParseField(s) == Minutes(v)
  {
    var s := IntToString(v);
    var r := if |s| == 3 && v >= 0 then "0" + s else s;
    if InInt(v) then FieldTextReadsBack(v); r else r
  }

  lemma FieldTextReadsBack(v: int)
    requires InInt(v)
    ensures var s := IntToString(v);
      ParseField(if |s| == 3 && v >= 0 then "0" + s else s) == Minutes(v)
  {
    var s := IntToString(v);
    NoWhiteInNumber(v);
    ParsePrintedInt(v);
    if |s| == 3 && v >= 0 {
      var z := "0" + s;
      LeadingZero(s);
      assert forall k :: 0 <= k < |z| ==> IsDigit(z[k]);
      TrimOfTrimmed(z);
    } else {
      TrimOfTrimmed(s);
    }
  }

  /** The printed text of an `int` reads back as that `int` under the field
      rule exactly when it does not have three digits. */
  lemma PrintedReadsBack(v: int)
    requires InInt(v)
    ensures ParseField(IntToString(v)) == Minutes(v) <==> !(100 <= v < 1000)
  {
    var s := IntToString(v);
    NoWhiteInNumber(v);
    TrimOfTrimmed(s);
    ParsePrintedInt(v);
    if v >= 0 {
      assert s == NatToString(v);
      DigitCount(v);
      if 100 <= v < 1000 {
        ThreeDigitsValue(s);
      }
    }
  }

  /** A natural number prints with three digits exactly when it is 100..999. */
  lemma DigitCount(n: nat)
    ensures |NatToString(n)| == 3 <==> 100 <= n < 1000
  {
    var s := NatToString(n);
    assert Pow10(1) == 10 && Pow10(2) == 100 && Pow10(3) == 1000;
    if n < 100 {
      NatToStringLength(n, 2);
    } else if n < 1000 {
      NatToStringLength(n, 3);
    } else {
      assert |s| != 3;
    }
  }

  lemma NoWhiteInNumber(v: int)
    ensures forall k :: 0 <= k < |IntToString(v)| ==> !IsWhite(IntToString(v)[k])
  {
    if v < 0 {
      assert IntToString(v) == "-" + NatToString(-v);
    }
  }

  /** A leading zero does not change the value of a string of digits. */
  lemma {:induction false} LeadingZero(s: string)
    requires AllDigits(s)
    ensures AllDigits("0" + s) && DigitsValue("0" + s) == DigitsValue(s)
  {
    var z := "0" + s;
    assert AllDigits(z) by {
      assert forall k :: 1 <= k < |z| ==> z[k] == s[k - 1];
    }
    if |s| > 0 {
      var init := s[..|s| - 1];
      assert z[..|z| - 1] == "0" + init;
      LeadingZero(init);
    }
  }

  /** `updateCountdownTarget` writing `FieldText` instead of the plain minutes. */
  function RetargetReadingBack(m: Machine, now: TimeOfDay): (r: Machine)
    ensures |r.panel.fields| == |m.panel.fields|
    ensures |m.panel.fields| > 0 && ParseField(m.panel.fields[0]).Minutes? ==>
      && ParseField(r.panel.fields[0]) == ParseField(m.panel.fields[0])
      && r.initial == ParseField(m.panel.fields[0]).value
      && r.target == Some(PlusMinutes(now, r.initial))
  {
    if |m.panel.fields| == 0 then Cleared(m).(eta := Idle)
    else
      match ParseField(m.panel.fields[0])
      case Blank => Cleared(m).(eta := Idle)
      case NotANumber => Cleared(m).(eta := Idle)
      case HmmOutOfRange => m
      case Minutes(v) =>
        m.(initial := v, displayed := v, target := Some(PlusMinutes(now, v)),
           panel := Edit(m.panel, 0, FieldText(v)))
  }

  /** With the field read back as written, targeting twice is targeting once. */
  lemma RetargetReadingBackTwice(m: Machine, now: TimeOfDay)
    ensures RetargetReadingBack(RetargetReadingBack(m, now), now) == RetargetReadingBack(m, now)
  {
    if |m.panel.fields| > 0 {
      match ParseField(m.panel.fields[0])
      case Minutes(v) => ReadingBackMinutes(m, now, v);
      case _ =>
    }
  }

  lemma ReadingBackMinutes(m: Machine, now: TimeOfDay, v: int)
    requires |m.panel.fields| > 0 && ParseField(m.panel.fields[0]) == Minutes(v)
    ensures RetargetReadingBack(RetargetReadingBack(m, now), now) == RetargetReadingBack(m, now)
  {
    var r := RetargetReadingBack(m, now);
    assert r == m.(initial := v, displayed := v, target := Some(PlusMinutes(now, v)),
                   panel := Edit(m.panel, 0, FieldText(v)));
    assert ParseField(r.panel.fields[0]) == Minutes(v);
    assert Edit(r.panel, 0, FieldText(v)) == r.panel by {
      assert r.panel.fields[0 := FieldText(v)] == r.panel.fields;
    }
  }

  /** `startCountdown` with the corrected retarget. */
  function StartReadingBack(m: Machine, now: TimeOfDay): (r: Machine)
    ensures r.active && |r.panel.fields| == |m.panel.fields|
    ensures |m.panel.fields| > 0 && ParseField(m.panel.fields[0]).Minutes? ==>
      r.initial == ParseField(m.panel.fields[0]).value && ParseField(r.panel.fields[0]) == ParseField(m.panel.fields[0])
  {
    RetargetReadingBack(m, now).(active := true)
  }

  /** `stopCountdown` writing `FieldText` instead of the plain minutes. */
  function StopReadingBack(m: Machine): (r: Machine)
    ensures !r.active && r.eta == Idle && r.initial == m.initial
    ensures |r.panel.fields| == |m.panel.fields|
    ensures |m.panel.fields| > 0 && InInt(m.initial) ==> ParseField(r.panel.fields[0]) == Minutes(m.initial)
  {
    var panel := if |m.panel.fields| > 0 then Edit(m.panel, 0, FieldText(m.initial)) else m.panel;
    m.(active := false, panel := panel, eta := Idle)
  }

  /** With the corrected writes, starting from a field that reads as `v`
      minutes and stopping again leaves it reading `v`, for every `v`. */
  lemma StopReadingBackRestores(m: Machine, now: TimeOfDay, v: int)
    requires |m.panel.fields| > 0 && ParseField(m.panel.fields[0]) == Minutes(v)
    ensures ParseField(StopReadingBack(StartReadingBack(m, now)).panel.fields[0]) == Minutes(v)
  {
    assert StartReadingBack(m, now).initial == v;
  }

  /** `updateCountdown` writing `FieldText` for the minutes left and
      retargeting with the corrected retarget. */
  function TickReadingBack(m: Machine, now: TimeOfDay): (r: Machine)
    requires |m.panel.fields| >= 1
    ensures |r.panel.fields| >= 1
  {
    if m.initial <= 0 || m.target.None? then m.(eta := Idle)
    else
      var left := SecondsLeft(m.target.value, now);
      if left > 0 then
        m.(displayed := left / 60, panel := Edit(m.panel, 0, FieldText(left / 60)),
           eta := Remaining(left / 60, left % 60))
      else
        var changed := m.(lastChange := m.target, eta := ChangedAt(m.target.value));
        var next := RetargetReadingBack(Shift(changed), now);
        if next.active then StartReadingBack(next, now) else next
  }

  /** While time is left, the corrected tick leaves a first field that the
      calculation reads as the whole minutes left. */
  lemma TickReadingBackCountsDown(m: Machine, now: TimeOfDay)
    requires |m.panel.fields| >= 1
    requires m.initial > 0 && m.target.Some? && m.target.value > now
    ensures ParseField(TickReadingBack(m, now).panel.fields[0]) == Minutes((m.target.value - now) / 60)
  {
    assert InInt((m.target.value - now) / 60);
  }

  /** At expiry the corrected tick targets the next interval as it reads,
      running or not: a next interval of `v` minutes runs for `v` minutes. */
  lemma TickReadingBackExpires(m: Machine, now: TimeOfDay, v: int)
    requires |m.panel.fields| >= 2 && ParseField(m.panel.fields[1]) == Minutes(v)
    requires m.initial > 0 && m.target.Some? && m.target.value <= now
    ensures TickReadingBack(m, now).initial == v
    ensures TickReadingBack(m, now).target == Some(PlusMinutes(now, v))
    ensures ParseField(TickReadingBack(m, now).panel.fields[0]) == Minutes(v)
  {
    var changed := m.(lastChange := m.target, eta := ChangedAt(m.target.value));
    var shifted := Shift(changed);
    assert shifted.panel.fields[0] == Trim(m.panel.fields[1]);
    ParseTrimmed(m.panel.fields[1]);
    var next := RetargetReadingBack(shifted, now);
    assert next.initial == v && next.target == Some(PlusMinutes(now, v));
    if next.active {
      ReadingBackMinutes(shifted, now, v);
    }
  }

  // ---------------------------------------------------------- midnight

  /** A countdown of five minutes started at 23:58 ends at the next tick,
      since its target, 00:03, compares as earlier than 23:58:01. */
  lemma CountdownPastMidnightEndsAtOnce()
    ensures var started := Start(Opened.(panel := Edit(Fresh, 0, "5")), 86280);
      && started.target == Some(180)
      && var after := Tick(started, 86281);
      && after.lastChange == Some(180)
      && after.panel.fields == [""]
  {
    assert Trim("5") == "5";
    assert ParseInt("5") == Some(5) by {
      assert AllDigits("5") && DigitsValue("5") == 5;
    }
  }

  /** A moment on a clock that does not wrap at midnight: whole seconds
      since a fixed origin, the date included. */
  type Instant = int

  /** The time of day an instant shows. */
  function FaceOf(t: Instant): TimeOfDay {
    t % SecondsPerDay
  }

  /** The corrected seconds left: the target is held as an absolute
      deadline, as a `LocalDateTime` would hold it, so the difference needs
      neither wrap-around nor a bound on the interval. */
  function SecondsToDeadline(deadline: Instant, now: Instant): int {
    deadline - now
  }

  /** Adding a whole number of days does not move the clock face. */
  lemma FaceOfShift(t: Instant, d: int)
    ensures FaceOf(t + SecondsPerDay * d) == FaceOf(t)
  {
    var q := t / SecondsPerDay;
    assert t == SecondsPerDay * q + FaceOf(t);
    assert t + SecondsPerDay * d == SecondsPerDay * (q + d) + FaceOf(t);
  }

  /** With the corrected count, `v` minutes started at any instant have
      exactly `60 * v - e` seconds left `e` seconds later, across midnight
      or not and however long the interval; the deadline shows on the clock
      face as the target `plusMinutes` computes, and the instant `e` seconds
      on as the time `plusSeconds` computes. */
  lemma CountsDownAcrossMidnight(start: Instant, v: int, e: int)
    ensures SecondsToDeadline(start + 60 * v, start + e) == 60 * v - e
    ensures FaceOf(start + 60 * v) == PlusMinutes(FaceOf(start), v)
    ensures FaceOf(start + e) == PlusSeconds(FaceOf(start), e)
  {
    var q := start / SecondsPerDay;
    assert start == SecondsPerDay * q + FaceOf(start);
    FaceOfShift(FaceOf(start) + 60 * v, q);
    FaceOfShift(FaceOf(start) + e, q);
  }

  /** When neither the target nor `now` passes midnight, the corrected
      count is the count as written. */
  lemma DeadlineAgreesWithinTheDay(start: Instant, v: int, e: int)
    requires 0 <= FaceOf(start) + 60 * v < SecondsPerDay
    requires 0 <= FaceOf(start) + e < SecondsPerDay
    ensures SecondsLeft(PlusMinutes(FaceOf(start), v), PlusSeconds(FaceOf(start), e))
         == SecondsToDeadline(start + 60 * v, start + e)
  {
  }

  /** Five minutes started at 23:58 on day 0 still have 299 seconds left
      at 23:58:01 under the corrected count. */
  lemma DeadlinePastMidnight()
    ensures SecondsToDeadline(86280 + 60 * 5, 86281) == 299
    ensures FaceOf(86280 + 60 * 5) == 180
  {
  }
}
