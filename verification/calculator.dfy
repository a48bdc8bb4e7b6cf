/** The calculation of TimeCalculator.java: each interval field is read as
    "MM" or "HMM" minutes, the non-blank fields are added up in order and
    projected from the current time, and the latest of the 3 PM, 5 PM and
    7 PM cutoffs the running projection crossed is reported with the interval
    at which it was first crossed. Any unreadable field voids the result. */
module Calculator {
  import opened Wrappers
  import opened JavaLang
  import opened Clock
  import opened Cutoffs

  /** How one interval field reads. `HmmOutOfRange` is a three-digit field
      whose last two digits are 60 or more; `NotANumber` is text that
      `Integer.parseInt` refuses. */
  datatype Field = Blank | Minutes(value: int) | HmmOutOfRange | NotANumber {
    predicate Invalid() {
      HmmOutOfRange? || NotANumber?
    }
  }

  /** The reading of a field, after `trim`: exactly three digits are hours
      and minutes, anything else goes through `Integer.parseInt`. */
  function ParseField(text: string): (r: Field)
    ensures r.Minutes? ==> InInt(r.value)
  {
    var t := Trim(text);
    if |t| == 0 then Blank
    else if |t| == 3 && AllDigits(t) then
      var v := DigitsValue(t);
      var h, m := v / 100, v % 100;
      if h >= 10 || m >= 60 then HmmOutOfRange else Minutes(h * 60 + m)
    else
      match ParseInt(t)
      case Some(v) => Minutes(v)
      case None => NotANumber
  }

  /** What a field reads as: blank exactly when it is all white space;
      three digits "HMM" are H hours and MM minutes, refused when MM is 60 or
      more; any other text is whatever `Integer.parseInt` makes of it, so
      signed values and values of four or more digits are accepted. */
  lemma ParseFieldMeaning(text: string)
    ensures ParseField(text) == Blank <==> forall k :: 0 <= k < |text| ==> IsWhite(text[k])
    ensures var t := Trim(text);
      |t| == 3 && AllDigits(t) ==>
        ParseField(text) == (if 10 * DigitValue(t[1]) + DigitValue(t[2]) >= 60 then HmmOutOfRange
              else Minutes(60 * DigitValue(t[0]) + 10 * DigitValue(t[1]) + DigitValue(t[2])))
    ensures var t := Trim(text);
      |t| > 0 && !(|t| == 3 && AllDigits(t)) ==>
        match ParseInt(t)
        case Some(v) => ParseField(text) == Minutes(v)
        case None => ParseField(text) == NotANumber
  {
    var t := Trim(text);
    if |t| == 3 && AllDigits(t) {
      ThreeDigitsValue(t);
    }
  }

  /** A field reads the same after `trim`. */
  lemma ParseTrimmed(text: string)
    ensures ParseField(Trim(text)) == ParseField(text)
  {
    TrimIdempotent(text);
  }

  /** Every field's reading, in order. */
  function Parsed(fields: seq<string>): (r: seq<Field>)
    ensures |r| == |fields|
    ensures forall i {:trigger ParseField(fields[i])} :: 0 <= i < |fields| ==> r[i] == ParseField(fields[i])
  {
    if |fields| == 0 then []
    else Parsed(fields[..|fields| - 1]) + [ParseField(fields[|fields| - 1])]
  }

  function SlotOf(f: Field): Slot {
    if f.Minutes? then Some(f.value) else None
  }

  /** The slots the cutoff pass sees: blank fields are skipped. */
  function Slots(fields: seq<string>): (r: seq<Slot>)
    ensures |r| == |fields|
    ensures forall i :: 0 <= i < |fields| ==> r[i] == SlotOf(Parsed(fields)[i])
  {
    var parsed := Parsed(fields);
    seq(|fields|, i requires 0 <= i < |fields| => SlotOf(parsed[i]))
  }

  /** A warning: the cutoff, the 1-based interval and the whole minutes past it. */
  datatype Warning = Warning(cutoff: CutoffId, index: nat, minutesPast: int)

  /** What `calculateResult` shows: the invalid-input message, or the total
      added, the resulting time and the warning if any. */
  datatype Outcome = InvalidInput | Projected(total: int, finish: TimeOfDay, warning: Option<Warning>)

  /** Minutes past a cutoff, measured from the cutoff to the projected time. */
  function MinutesPast(at: TimeOfDay, k: CutoffId): int {
    MinutesBetween(Cutoff[k], at)
  }

  function WarningOf(c: Option<Crossing>): Option<Warning> {
    match c
    case None => None
    case Some(x) => Some(Warning(x.cutoff, x.latch.index, MinutesPast(x.latch.at, x.cutoff)))
  }

  /** The body of the source's loop for a non-blank interval: add its
      minutes to the `int` total, project, and latch each cutoff crossed for
      the first time. */
  method Accumulate(total: int, latches: seq<Option<Latch>>, minutes: int, index: nat, now: TimeOfDay)
    returns (total': int, latches': seq<Option<Latch>>)
    requires |latches| == 3
    ensures Pass(total', latches') == Step(Pass(total, latches), Some(minutes), index, now)
  {
    total' := Wrap32(total + minutes);
    var temp := PlusMinutes(now, total');
    latches' := latches;
    if latches'[0].None? && IsAfter(temp, Cutoff[0]) {
      latches' := latches'[0 := Some(Latch(index, temp))];
    }
    if latches'[1].None? && IsAfter(temp, Cutoff[1]) {
      latches' := latches'[1 := Some(Latch(index, temp))];
    }
    if latches'[2].None? && IsAfter(temp, Cutoff[2]) {
      latches' := latches'[2 := Some(Latch(index, temp))];
    }
    assert latches' == [latches'[0], latches'[1], latches'[2]];
  }

  /** The loop of `calculateResult`: reads the fields in order and stops at
      the first one that does not read; returns whether all fields read, and
      the pass over them. */
  method PassOverFields(fields: seq<string>, now: TimeOfDay) returns (ok: bool, p: Pass)
    ensures ok <==> forall i :: 0 <= i < |fields| ==> !ParseField(fields[i]).Invalid()
    ensures ok ==> p == Run(Slots(fields), now)
  {
    var parsed := Parsed(fields);
    var slots := Slots(fields);
    var total := 0;
    var latches: seq<Option<Latch>> := [None, None, None];
    var i := 0;
    while i < |fields|
      invariant 0 <= i <= |fields|
      invariant forall j :: 0 <= j < i ==> !parsed[j].Invalid()
      invariant Pass(total, latches) == Run(slots[..i], now)
    {
      RunExtend(slots, i, now);
      var f := parsed[i];
      if f.Invalid() {
        assert ParseField(fields[i]) == f;
        return false, Pass(total, latches);
      }
      assert !parsed[i].Invalid();
      ghost var before := Pass(total, latches);
      if f.Blank? {
        assert slots[i] == None;
        assert Run(slots[..i + 1], now) == Run(slots[..i], now);
      }
      if f.Minutes? {
        assert slots[i] == Some(f.value);
        total, latches := Accumulate(total, latches, f.value, i + 1, now);
      }
      assert Pass(total, latches) == Step(before, slots[i], i + 1, now);
      i := i + 1;
    }
    assert slots[..i] == slots;
    return true, Pass(total, latches);
  }

  /** `calculateResult`: the invalid-input message when any field does not
      read; otherwise the wrapped total of the non-blank fields, the time it
      projects to, and the warning for the latest cutoff latched. */
  method CalculateResult(fields: seq<string>, now: TimeOfDay) returns (r: Outcome)
    ensures r.InvalidInput? <==> exists i :: 0 <= i < |fields| && ParseField(fields[i]).Invalid()
    ensures r.Projected? ==> r.total == Wrap32(Sum(Slots(fields)))
    ensures r.Projected? ==> r.finish == PlusMinutes(now, r.total)
    ensures r.Projected? ==> r.warning == WarningOf(Latest(Run(Slots(fields), now).latches))
  {
    var ok, p := PassOverFields(fields, now);
    if !ok {
      return InvalidInput;
    }
    RunTotal(Slots(fields), now);
    r := Projected(p.total, PlusMinutes(now, p.total), WarningOf(Latest(p.latches)));
  }

  /** What the warning of a valid calculation means: none exactly when no
      cutoff is ever crossed; otherwise the latest cutoff crossed, at the
      first interval crossing it, by the whole minutes from the cutoff to the
      projected time there; no later cutoff is crossed anywhere. */
  lemma WarningMeaning(fields: seq<string>, now: TimeOfDay)
    ensures var slots := Slots(fields);
      match WarningOf(Latest(Run(slots, now).latches))
      case None => forall k: CutoffId, i :: !CrossesAt(slots, now, k, i)
      case Some(w) =>
        && FirstCrossing(slots, now, w.cutoff, w.index)
        && w.minutesPast >= 0
        && w.minutesPast == (ProjectedAt(slots, now, w.index) - Cutoff[w.cutoff]) / 60
        && forall k: CutoffId, i :: w.cutoff < k ==> !CrossesAt(slots, now, k, i)
  {
    ReportedCrossing(Slots(fields), now);
  }

  // ------------------------------------------------------------ rendering

  /** `formatDuration`: "N min" below an hour, else "H hr" with " M min" when M > 0. */
  function FormatDuration(minutes: int): (s: string)
    ensures |s| >= 4
    ensures s[|s| - 4..] == " min" <==> minutes < 60 || minutes % 60 != 0
    ensures minutes >= 60 && minutes % 60 == 0 ==> s[|s| - 3..] == " hr"
  {
    if minutes < 60 then IntToString(minutes) + " min"
    else
      var hrs := minutes / 60;
      var mins := minutes % 60;
      var s := IntToString(hrs) + " hr" + (if mins > 0 then " " + IntToString(mins) + " min" else "");
      assert mins == 0 ==> s[|s| - 1] == 'r' && s[|s| - 3..] == " hr";
      s
  }

  /** The text of the warning label, without its HTML markup: empty
      without a warning; otherwise it names the cutoff and the interval,
      and ends with the minutes past as a duration that reads back. */
  function WarningText(r: Outcome): (s: string)
    ensures s == "" <==> r.InvalidInput? || r.warning.None?
    ensures r.Projected? && r.warning.Some? ==>
      var w := r.warning.value;
      var lead := "Warning: exceeds " + CutoffName[w.cutoff] + " at Interval " + IntToString(w.index) + " by ";
      && |lead| <= |s| && s[..|lead|] == lead
      && (InInt(w.minutesPast) ==> ReadDuration(s[|lead|..]) == Some(w.minutesPast))
  {
    if r.InvalidInput? || r.warning.None? then ""
    else
      var w := r.warning.value;
      var lead := "Warning: exceeds " + CutoffName[w.cutoff] + " at Interval " + IntToString(w.index) + " by ";
      var d := FormatDuration(w.minutesPast);
      var s := lead + d;
      assert s[..|lead|] == lead && s[|lead|..] == d;
      if InInt(w.minutesPast) then ReadFormattedDuration(w.minutesPast); s else s
  }

  /** The message of the result label when some field does not read. */
  const InvalidMessage: string := "Invalid input – check fields"

  /** The text of the result label, without its HTML markup; `clock` is the
      "hh:mm a" time formatter. Invalid input gives the fixed message;
      otherwise the text names the resulting time and, in parentheses, the
      total as a duration that reads back. */
  function ResultText(r: Outcome, clock: TimeOfDay -> string): (s: string)
    ensures r.InvalidInput? <==> s == InvalidMessage
    ensures r.Projected? ==>
      var head := "Resulting Time: " + clock(r.finish) + " (Added ";
      && |head| < |s| && s[..|head|] == head && s[|s| - 1] == ')'
      && (InInt(r.total) ==> ReadDuration(s[|head|..|s| - 1]) == Some(r.total))
  {
    match r
    case InvalidInput => InvalidMessage
    case Projected(total, finish, _) =>
      var head := "Resulting Time: " + clock(finish) + " (Added ";
      var d := FormatDuration(total);
      var s := head + d + ")";
      assert s[..|head|] == head && s[|head|..|s| - 1] == d;
      assert s[0] == 'R' && InvalidMessage[0] == 'I';
      if InInt(total) then ReadFormattedDuration(total); s else s
  }

  // ------------------------------------------- reading a duration back

  /** The position of the first space in `s`, or |s| when there is none. */
  function SpaceAt(s: string): (i: nat)
    ensures i <= |s|
    ensures forall k :: 0 <= k < i ==> s[k] != ' '
    ensures i < |s| ==> s[i] == ' '
  {
    if |s| == 0 || s[0] == ' ' then 0 else 1 + SpaceAt(s[1..])
  }

  /** `s` cut at every space. */
  function Words(s: string): seq<string>
    decreases |s|, 1
  {
    CutAt(s, SpaceAt(s))
  }

  /** `s` cut at its first space, at `i`, and the rest cut at every space. */
  function CutAt(s: string, i: nat): seq<string>
    requires i == SpaceAt(s)
    decreases |s|, 0
  {
    if i == |s| then [s] else [s[..i]] + Words(s[i + 1..])
  }

  lemma WordsCons(w: string, rest: string)
    requires forall k :: 0 <= k < |w| ==> w[k] != ' '
    ensures Words(w + " " + rest) == [w] + Words(rest)
  {
    var s := w + " " + rest;
    assert s == w + (" " + rest);
    SpaceAtPrefix(w, " " + rest);
    assert s[..|w|] == w;
    assert s[|w| + 1..] == rest;
  }

  lemma {:induction false} SpaceAtPrefix(w: string, rest: string)
    requires forall k :: 0 <= k < |w| ==> w[k] != ' '
    requires |rest| > 0 && rest[0] == ' '
    ensures SpaceAt(w + rest) == |w|
  {
    if |w| > 0 {
      assert (w + rest)[1..] == w[1..] + rest;
      SpaceAtPrefix(w[1..], rest);
    }
  }

  /** A text without spaces is a single word. */
  lemma WordsSingle(w: string)
    requires forall k :: 0 <= k < |w| ==> w[k] != ' '
    ensures Words(w) == [w]
  {
  }

  /** Two space-free words joined by one space cut back into those two words. */
  lemma WordsPair(a: string, b: string)
    requires forall k :: 0 <= k < |a| ==> a[k] != ' '
    requires forall k :: 0 <= k < |b| ==> b[k] != ' '
    ensures Words(a + " " + b) == [a, b]
  {
    WordsCons(a, b);
    WordsSingle(b);
  }

  /** Reads the text `formatDuration` writes back into minutes; only the
      forms it writes are accepted. */
  function ReadDuration(s: string): Option<int> {
    var ws := Words(s);
    if |ws| == 2 && ws[1] == "min" then
      match ParseInt(ws[0])
      case Some(v) => if v < 60 then Some(v) else None
      case None => None
    else if |ws| == 2 && ws[1] == "hr" then
      match ParseInt(ws[0])
      case Some(h) => if h >= 1 then Some(60 * h) else None
      case None => None
    else if |ws| == 4 && ws[1] == "hr" && ws[3] == "min" then
      match (ParseInt(ws[0]), ParseInt(ws[2]))
      case (Some(h), Some(m)) => if h >= 1 && 1 <= m < 60 then Some(60 * h + m) else None
      case _ => None
    else None
  }

  lemma NoSpaceInNumber(n: int)
    ensures forall k :: 0 <= k < |IntToString(n)| ==> IntToString(n)[k] != ' '
  {
    if n < 0 {
      assert IntToString(n) == "-" + NatToString(-n);
    }
  }

  lemma ReadShortDuration(n: int)
    requires InInt(n) && n < 60
    ensures ReadDuration(FormatDuration(n)) == Some(n)
  {
    var s := FormatDuration(n);
    assert Words(s) == [IntToString(n), "min"] by {
      NoSpaceInNumber(n);
      assert s == IntToString(n) + " " + "min";
      WordsPair(IntToString(n), "min");
    }
    ParsePrintedInt(n);
    ReadTwoWords(s, n);
  }

  lemma ReadTwoWords(s: string, n: int)
    requires Words(s) == [IntToString(n), "min"] && ParseInt(IntToString(n)) == Some(n) && n < 60
    ensures ReadDuration(s) == Some(n)
  {
  }

  lemma ReadWholeHours(n: int)
    requires InInt(n) && n >= 60 && n % 60 == 0
    ensures ReadDuration(FormatDuration(n)) == Some(n)
  {
    var h := n / 60;
    NoSpaceInNumber(h);
    ParsePrintedInt(h);
    assert FormatDuration(n) == IntToString(h) + " " + "hr";
    WordsPair(IntToString(h), "hr");
  }

  lemma WordsOfHoursAndMinutes(hs: string, ms: string)
    requires forall k :: 0 <= k < |hs| ==> hs[k] != ' '
    requires forall k :: 0 <= k < |ms| ==> ms[k] != ' '
    ensures Words(hs + " " + ("hr" + " " + (ms + " " + "min"))) == [hs, "hr", ms, "min"]
  {
    var tail := ms + " " + "min";
    var mid := "hr" + " " + tail;
    WordsPair(ms, "min");
    WordsOfHr(tail);
    WordsCons(hs, mid);
  }

  lemma WordsOfHr(tail: string)
    ensures Words("hr" + " " + tail) == ["hr"] + Words(tail)
  {
    WordsCons("hr", tail);
  }

  lemma FormatHoursAndMinutes(n: int)
    requires n >= 60 && n % 60 != 0
    ensures FormatDuration(n) == IntToString(n / 60) + " " + ("hr" + " " + (IntToString(n % 60) + " " + "min"))
  {
    var a, b := IntToString(n / 60), IntToString(n % 60);
    assert FormatDuration(n) == a + " hr" + (" " + b + " min");
    assert " hr" == " " + "hr" && " min" == " " + "min";
    assert a + " hr" + (" " + b + " min") == a + " " + ("hr" + " " + (b + " " + "min"));
  }

  lemma ReadHoursAndMinutes(n: int)
    requires InInt(n) && n >= 60 && n % 60 != 0
    ensures ReadDuration(FormatDuration(n)) == Some(n)
  {
    var h, m := n / 60, n % 60;
    NoSpaceInNumber(h);
    NoSpaceInNumber(m);
    ParsePrintedInt(h);
    ParsePrintedInt(m);
    FormatHoursAndMinutes(n);
    WordsOfHoursAndMinutes(IntToString(h), IntToString(m));
    ReadFourWords(FormatDuration(n), h, m);
  }

  lemma ReadFourWords(s: string, h: int, m: int)
    requires Words(s) == [IntToString(h), "hr", IntToString(m), "min"]
    requires ParseInt(IntToString(h)) == Some(h) && ParseInt(IntToString(m)) == Some(m)
    requires h >= 1 && 1 <= m < 60
    ensures ReadDuration(s) == Some(60 * h + m)
  {
  }

  /** `formatDuration` loses nothing: the minutes can be read back from its text. */
  lemma ReadFormattedDuration(n: int)
    requires InInt(n)
    ensures ReadDuration(FormatDuration(n)) == Some(n)
  {
    if n < 60 {
      ReadShortDuration(n);
    } else if n % 60 == 0 {
      ReadWholeHours(n);
    } else {
      ReadHoursAndMinutes(n);
    }
  }
}
