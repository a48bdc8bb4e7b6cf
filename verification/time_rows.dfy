/** The second schedule calculator, Time.java: rows of intervals numbered
    1..N, each read by a stricter rule (`parseInput`) that answers -1 for
    anything it refuses, an ETA per row, and a calculation that stops at the
    first refused row and otherwise runs the same cutoff pass, measuring
    minutes past a cutoff from the current time. */
module TimeRows {
  import opened Wrappers
  import opened JavaLang
  import opened Clock
  import opened Cutoffs
  import Calculator

  // --------------------------------------------------------------- rows

  /** A row: its 1-based index and the text of its field. */
  datatype Row = Row(index: int, text: string)

  function Texts(rows: seq<Row>): (t: seq<string>)
    ensures |t| == |rows|
    ensures forall i :: 0 <= i < |rows| ==> t[i] == rows[i].text
  {
    seq(|rows|, i requires 0 <= i < |rows| => rows[i].text)
  }

  /** The rows are numbered 1..N in list order. */
  predicate Numbered(rows: seq<Row>) {
    forall i :: 0 <= i < |rows| ==> rows[i].index == i + 1
  }

  /** `revalidateIntervals`: give every row its position, from 1. */
  function Revalidate(rows: seq<Row>): (r: seq<Row>)
    ensures Numbered(r)
    ensures Texts(r) == Texts(rows)
  {
    seq(|rows|, i requires 0 <= i < |rows| => rows[i].(index := i + 1))
  }

  /** `isLastRow`: the row's index is the number of rows. */
  predicate IsLastRow(rows: seq<Row>, row: Row)
    ensures Numbered(rows) && row in rows ==> (IsLastRow(rows, row) <==> row == rows[|rows| - 1])
  {
    row.index == |rows|
  }

  /** In numbered rows, exactly the last row is the last row. */
  lemma LastRowIsLast(rows: seq<Row>, i: nat)
    requires Numbered(rows) && i < |rows|
    ensures IsLastRow(rows, rows[i]) <==> i == |rows| - 1
  {
  }

  /** `addIntervalRow(k)`: an empty row goes in at position k - 1 and the
      rows are renumbered. The list insert fails unless 1 <= k <= N + 1. */
  function AddRowAt(rows: seq<Row>, k: int): (r: seq<Row>)
    requires 1 <= k <= |rows| + 1
    ensures Numbered(r) && |r| == |rows| + 1
    ensures Texts(r) == Texts(rows)[..k - 1] + [""] + Texts(rows)[k - 1..]
  {
    var r := Revalidate(rows[..k - 1] + [Row(k, "")] + rows[k - 1..]);
    assert Texts(r) == Texts(rows)[..k - 1] + [""] + Texts(rows)[k - 1..];
    r
  }

  /** `addNewRow`: an empty row at the end. */
  function AddNewRow(rows: seq<Row>): (r: seq<Row>)
    ensures Numbered(r) && Texts(r) == Texts(rows) + [""]
  {
    assert Texts(rows)[..|rows|] == Texts(rows);
    AddRowAt(rows, |rows| + 1)
  }

  /** The position of the first row whose remove button is armed. */
  function FirstArmed(armed: seq<bool>): (r: Option<nat>)
    ensures r.None? <==> forall i :: 0 <= i < |armed| ==> !armed[i]
    ensures r.Some? ==> r.value < |armed| && armed[r.value] && forall j :: 0 <= j < r.value ==> !armed[j]
  {
    if |armed| == 0 then None
    else if armed[0] then Some(0)
    else match FirstArmed(armed[1..])
      case None => None
      case Some(i) => Some(i + 1)
  }

  /** `removeRow`: with more than one row, the first row whose button is
      armed (`armed[i]` for the row at position i) goes and the rest are
      renumbered; otherwise nothing changes. */
  function RemoveRow(rows: seq<Row>, armed: seq<bool>): (r: seq<Row>)
    requires |armed| == |rows|
    ensures |rows| <= 1 || FirstArmed(armed).None? ==> r == rows
    ensures |rows| > 1 && FirstArmed(armed).Some? ==>
      var i := FirstArmed(armed).value;
      Numbered(r) && Texts(r) == Texts(rows)[..i] + Texts(rows)[i + 1..]
  {
    if |rows| <= 1 then rows
    else match FirstArmed(armed)
      case None => rows
      case Some(i) =>
        var r := Revalidate(rows[..i] + rows[i + 1..]);
        assert Texts(r) == Texts(rows)[..i] + Texts(rows)[i + 1..];
        r
  }

  /** Removing a row never empties the list, and a removed row takes
      exactly one row with it. */
  lemma RemoveKeepsOne(rows: seq<Row>, armed: seq<bool>)
    requires |armed| == |rows| && |rows| >= 1
    ensures |RemoveRow(rows, armed)| >= 1
    ensures |RemoveRow(rows, armed)| == |rows| || |RemoveRow(rows, armed)| == |rows| - 1
  {
  }

  /** Adding a row at k and removing the row at k gives back the rows, renumbered. */
  lemma RemoveUndoesAdd(rows: seq<Row>, k: int)
    requires 1 <= k <= |rows| + 1 && |rows| >= 1
    ensures var added := AddRowAt(rows, k);
      Texts(RemoveRow(added, seq(|added|, i => i == k - 1))) == Texts(rows)
  {
    var added := AddRowAt(rows, k);
    var armed := seq(|added|, i => i == k - 1);
    assert armed[k - 1];
    assert forall j :: 0 <= j < k - 1 ==> !armed[j];
    assert FirstArmed(armed) == Some(k - 1);
    var t := Texts(rows);
    assert (t[..k - 1] + [""] + t[k - 1..])[..k - 1] == t[..k - 1];
    assert (t[..k - 1] + [""] + t[k - 1..])[k..] == t[k - 1..];
    assert t[..k - 1] + t[k - 1..] == t;
  }

  // ----------------------------------------------------------- parseInput

  /** `parseInput`: `Integer.parseInt`, then three characters are read as
      "HMM" with Java's truncating `/` and `%` by 100, up to two characters
      are the value itself, and anything longer or unparsable is -1. */
  function ParseInput(input: string): (r: int)
    ensures |input| > 3 ==> r == -1
    ensures ParseInt(input).None? ==> r == -1
    ensures |input| <= 2 && ParseInt(input).Some? ==> r == ParseInt(input).value
  {
    match ParseInt(input)
    case None => -1
    case Some(value) =>
      if |input| == 3 then
        var hours, minutes := JDiv(value, 100), JRem(value, 100);
        if hours >= 10 || minutes >= 60 then -1 else hours * 60 + minutes
      else if |input| <= 2 then value
      else -1
  }

  /** What `Integer.parseInt` reads from at most three characters. */
  lemma ShortParse(s: string)
    requires |s| <= 3 && ParseInt(s).Some?
    ensures -100 < ParseInt(s).value < 1000
    ensures |s| <= 2 ==> -10 < ParseInt(s).value < 100
  {
    assert Pow10(1) == 10 && Pow10(2) == 100 && Pow10(3) == 1000;
    if s[0] == '-' || s[0] == '+' {
      assert Pow10(|s[1..]|) <= 100;
    } else {
      assert Pow10(|s|) <= 1000;
    }
  }

  /** Every answer lies between -99 ("-99") and 599 ("959"). */
  lemma ParseInputRange(input: string)
    ensures -99 <= ParseInput(input) <= 599
  {
    if ParseInt(input).Some? && |input| <= 3 {
      ShortParse(input);
    }
  }

  /** Three digits "HMM" are H hours and MM minutes, refused when MM is 60
      or more; a sign and two digits are the signed value of the two digits. */
  lemma ParseInputThreeChars(input: string)
    requires |input| == 3
    ensures AllDigits(input) ==>
      ParseInput(input) == (if 10 * DigitValue(input[1]) + DigitValue(input[2]) >= 60 then -1
        else 60 * DigitValue(input[0]) + 10 * DigitValue(input[1]) + DigitValue(input[2]))
    ensures input[0] == '-' && AllDigits(input[1..]) ==> ParseInput(input) == 0 - DigitsValue(input[1..])
    ensures input[0] == '+' && AllDigits(input[1..]) ==>
      ParseInput(input) == (if DigitsValue(input[1..]) >= 60 then -1 else DigitsValue(input[1..]))
  {
    if AllDigits(input) {
      ThreeDigitsValue(input);
    }
    if (input[0] == '-' || input[0] == '+') && AllDigits(input[1..]) {
      SignedTwoDigits(input);
    }
  }

  lemma SignedTwoDigits(input: string)
    requires |input| == 3 && (input[0] == '-' || input[0] == '+') && AllDigits(input[1..])
    ensures input[0] == '-' ==> ParseInput(input) == 0 - DigitsValue(input[1..])
    ensures input[0] == '+' ==>
      ParseInput(input) == (if DigitsValue(input[1..]) >= 60 then -1 else DigitsValue(input[1..]))
  {
    assert !IsDigit(input[0]);
    ShortParse(input);
    TwoDigitsValue(input[1..]);
  }

  // ------------------------------------------------------------------ ETA

  /** What `updateETA` shows for the text of a row; `clock` is the
      "hh:mm a" formatter. */
  function EtaText(text: string, now: TimeOfDay, clock: TimeOfDay -> string): (s: string)
    ensures s == "" <==> forall k :: 0 <= k < |text| ==> IsWhite(text[k])
    ensures s == "Invalid input" <==> |Trim(text)| > 0 && ParseInput(Trim(text)) < 0
  {
    var input := Trim(text);
    if |input| == 0 then ""
    else
      var m := ParseInput(input);
      if m >= 0 then
        var s := "ETA: " + clock(PlusMinutes(now, m));
        assert s[0] == 'E';
        s
      else "Invalid input"
  }

  // ----------------------------------------------------------- calculation

  /** How a row enters the pass: blank rows are skipped, others carry their `parseInput`. */
  function RowSlot(text: string): Slot {
    var t := Trim(text);
    if |t| == 0 then None else Some(ParseInput(t))
  }

  /** A slot holding one of `parseInput`'s refusals. */
  predicate NegativeSlot(s: Slot) {
    s.Some? && s.value < 0
  }

  function RowSlots(rows: seq<Row>): (r: seq<Slot>)
    ensures |r| == |rows|
    ensures forall i {:trigger RowSlot(rows[i].text)} :: 0 <= i < |rows| ==> r[i] == RowSlot(rows[i].text)
  {
    if |rows| == 0 then []
    else RowSlots(rows[..|rows| - 1]) + [RowSlot(rows[|rows| - 1].text)]
  }

  /** Row `i` is non-blank and `parseInput` refuses it. */
  predicate Refused(rows: seq<Row>, i: nat)
    requires i < |rows|
  {
    NegativeSlot(RowSlots(rows)[i])
  }

  lemma RefusedMeaning(rows: seq<Row>, i: nat)
    requires i < |rows|
    ensures Refused(rows, i) <==> |Trim(rows[i].text)| > 0 && ParseInput(Trim(rows[i].text)) < 0
  {
    assert RowSlots(rows)[i] == RowSlot(rows[i].text);
  }

  /** Minutes past cutoff `k` the way Time.java measures it: the whole
      minutes from now to the projected time less the whole minutes from
      now to the cutoff. */
  function MinutesPast(now: TimeOfDay, at: TimeOfDay, k: CutoffId): int {
    MinutesBetween(now, at) - MinutesBetween(now, Cutoff[k])
  }

  function WarningOf(c: Option<Crossing>, now: TimeOfDay): Option<Calculator.Warning> {
    match c
    case None => None
    case Some(x) => Some(Calculator.Warning(x.cutoff, x.latch.index, MinutesPast(now, x.latch.at, x.cutoff)))
  }

  /** What `calculateResult` shows: the first refused row (1-based) with its
      trimmed text, or the total, the resulting time and the warning if any. */
  datatype RowsOutcome =
    | RowError(index: nat, input: string)
    | RowsProjected(total: int, finish: TimeOfDay, warning: Option<Calculator.Warning>)

  /** The loop of `calculateResult`: runs the pass over the rows in order
      and stops at the first refused row; returns where it stopped and the
      pass, which covers every row when none is refused. */
  method PassOverRows(rows: seq<Row>, now: TimeOfDay) returns (stop: nat, p: Pass)
    ensures stop <= |rows|
    ensures forall j :: 0 <= j < stop ==> !Refused(rows, j)
    ensures stop < |rows| ==> Refused(rows, stop)
    ensures stop == |rows| ==> p == Run(RowSlots(rows), now)
  {
    var slots := RowSlots(rows);
    var total := 0;
    var latches: seq<Option<Latch>> := [None, None, None];
    var i := 0;
    while i < |rows|
      invariant 0 <= i <= |rows|
      invariant forall j :: 0 <= j < i ==> !NegativeSlot(slots[j])
      invariant Pass(total, latches) == Run(slots[..i], now)
    {
      RunExtend(slots, i, now);
      match slots[i] {
        case None =>
        case Some(minutes) =>
          if minutes < 0 {
            return i, Pass(total, latches);
          }
          total, latches := Calculator.Accumulate(total, latches, minutes, i + 1, now);
      }
      i := i + 1;
    }
    assert slots[..i] == slots;
    return i, Pass(total, latches);
  }

  /** `calculateResult`. */
  method CalculateRows(rows: seq<Row>, now: TimeOfDay) returns (r: RowsOutcome)
    ensures r.RowError? <==> exists i :: 0 <= i < |rows| && Refused(rows, i)
    ensures r.RowError? ==>
      && 1 <= r.index <= |rows|
      && Refused(rows, r.index - 1)
      && r.input == Trim(rows[r.index - 1].text)
      && forall j :: 0 <= j < r.index - 1 ==> !Refused(rows, j)
    ensures r.RowsProjected? ==>
      var slots := RowSlots(rows);
      && r.total == Wrap32(Sum(slots))
      && r.finish == PlusMinutes(now, r.total)
      && r.warning == WarningOf(Latest(Run(slots, now).latches), now)
  {
    var stop, p := PassOverRows(rows, now);
    if stop < |rows| {
      r := RowError(stop + 1, Trim(rows[stop].text));
      assert r.index - 1 == stop && Refused(rows, stop);
      return;
    }
    r := Project(RowSlots(rows), now, p);
  }

  /** The projected result of a pass that covered every row. */
  function Project(slots: seq<Slot>, now: TimeOfDay, p: Pass): (r: RowsOutcome)
    requires p == Run(slots, now)
    ensures r.RowsProjected?
    ensures r.total == Wrap32(Sum(slots))
    ensures r.finish == PlusMinutes(now, r.total)
    ensures r.warning == WarningOf(Latest(Run(slots, now).latches), now)
  {
    RunTotal(slots, now);
    RowsProjected(p.total, PlusMinutes(now, p.total), WarningOf(Latest(p.latches), now))
  }

  // ---------------------------------------------------------------- text

  /** The warning suffix of the result text: none without a warning;
      otherwise it names the cutoff and the interval, and the number before
      " minutes" reads back as the minutes past. */
  function WarningSuffix(w: Option<Calculator.Warning>): (s: string)
    ensures s == "" <==> w.None?
    ensures w.Some? ==>
      var x := w.value;
      var lead := " - WARNING: Exceeds " + CutoffName[x.cutoff] + " at Interval " + IntToString(x.index) + " by ";
      && |lead| + 8 < |s| && s[..|lead|] == lead && s[|s| - 8..] == " minutes"
      && (InInt(x.minutesPast) ==> ParseInt(s[|lead|..|s| - 8]) == Some(x.minutesPast))
  {
    match w
    case None => ""
    case Some(x) =>
      var lead := " - WARNING: Exceeds " + CutoffName[x.cutoff] + " at Interval " + IntToString(x.index) + " by ";
      var n := IntToString(x.minutesPast);
      var s := lead + n + " minutes";
      assert s[..|lead|] == lead && s[|lead|..|s| - 8] == n && s[|s| - 8..] == " minutes";
      if InInt(x.minutesPast) then ParsePrintedInt(x.minutesPast); s else s
  }

  /** The text of the result label; `clock` is the "hh:mm a" formatter. A
      refused row gives an error naming the row's 1-based number, which reads
      back, and ending with its trimmed text; otherwise the resulting time and
      the total in minutes, then the warning suffix. */
  function ResultText(r: RowsOutcome, clock: TimeOfDay -> string): (s: string)
    ensures r.RowError? ==>
      var lead := "Error: Invalid input in Interval ";
      && |lead| + 2 + |r.input| < |s| && s[..|lead|] == lead
      && s[|s| - |r.input|..] == r.input && s[|s| - |r.input| - 2..|s| - |r.input|] == ": "
      && (InInt(r.index) ==> ParseInt(s[|lead|..|s| - |r.input| - 2]) == Some(r.index))
    ensures r.RowsProjected? ==>
      var head := "Resulting Time: " + clock(r.finish) + " (Added " + IntToString(r.total) + " minutes)";
      |head| <= |s| && s[..|head|] == head && s[|head|..] == WarningSuffix(r.warning)
  {
    match r
    case RowError(k, input) =>
      var lead := "Error: Invalid input in Interval ";
      var n := IntToString(k);
      var s := lead + n + ": " + input;
      assert s[..|lead|] == lead && s[|lead|..|s| - |input| - 2] == n;
      assert s[|s| - |input| - 2..|s| - |input|] == ": " && s[|s| - |input|..] == input;
      if InInt(k) then ParsePrintedInt(k); s else s
    case RowsProjected(total, finish, warning) =>
      var head := "Resulting Time: " + clock(finish) + " (Added " + IntToString(total) + " minutes)";
      var s := head + WarningSuffix(warning);
      assert s[..|head|] == head && s[|head|..] == WarningSuffix(warning);
      s
  }

  // ---------------------------------------------------- relating the two

  /** A row `parseInput` accepts reads as the same minutes under
      TimeCalculator.java's rule. */
  lemma AcceptedReadsTheSame(text: string)
    requires RowSlot(text).Some? && RowSlot(text).value >= 0
    ensures Calculator.ParseField(text) == Calculator.Minutes(RowSlot(text).value)
  {
    var t := Trim(text);
    Calculator.ParseFieldMeaning(text);
    ParseInputRange(t);
    if |t| == 3 {
      ParseInputThreeChars(t);
      if AllDigits(t) {
        ThreeDigitsValue(t);
      } else {
        assert t[0] == '-' || t[0] == '+';
        assert AllDigits(t[1..]);
        ShortParse(t);
        TwoDigitsValue(t[1..]);
      }
    }
  }

  /** When no row is refused, the pass Time.java runs is the pass
      TimeCalculator.java runs on the same texts: the same total, resulting
      time and latches. */
  lemma SamePassAsCalculator(rows: seq<Row>, now: TimeOfDay)
    requires forall i :: 0 <= i < |rows| ==> !Refused(rows, i)
    ensures RowSlots(rows) == Calculator.Slots(Texts(rows))
    ensures Run(RowSlots(rows), now) == Run(Calculator.Slots(Texts(rows)), now)
  {
    var a, b := RowSlots(rows), Calculator.Slots(Texts(rows));
    forall i | 0 <= i < |rows|
      ensures a[i] == b[i]
    {
      assert !Refused(rows, i);
      assert a[i] == RowSlot(rows[i].text);
      assert b[i] == Calculator.SlotOf(Calculator.ParseField(Texts(rows)[i]));
      SameSlot(rows[i].text);
    }
  }

  /** A row text `parseInput` does not refuse enters both passes alike. */
  lemma SameSlot(t: string)
    requires !NegativeSlot(RowSlot(t))
    ensures RowSlot(t) == Calculator.SlotOf(Calculator.ParseField(t))
  {
    if RowSlot(t).Some? {
      AcceptedReadsTheSame(t);
    } else {
      Calculator.ParseFieldMeaning(t);
    }
  }

  /** The two ways of counting minutes past a cutoff: for a projected time
      after the cutoff with the same seconds as `now`, Time.java's count is
      one more than TimeCalculator.java's exactly when `now` is before the
      cutoff and not on a whole minute; otherwise they agree. */
  lemma MinutesPastRelation(now: TimeOfDay, at: TimeOfDay, k: CutoffId)
    requires IsAfter(at, Cutoff[k]) && at % 60 == now % 60
    ensures MinutesPast(now, at, k) ==
      Calculator.MinutesPast(at, k) + (if now < Cutoff[k] && now % 60 != 0 then 1 else 0)
  {
    var c := Cutoff[k];
    var s := now % 60;
    var q, a, kk := now / 60, at / 60, c / 60;
    assert now == 60 * q + s && at == 60 * a + s && c == 60 * kk;
    assert Calculator.MinutesPast(at, k) == a - kk;
    assert MinutesBetween(now, at) == a - q;
    if now < c && s != 0 {
      assert c - now == 60 * (kk - q - 1) + (60 - s);
      assert MinutesBetween(now, c) == kk - q - 1;
    } else {
      assert MinutesBetween(now, c) == kk - q;
    }
  }

  /** What the warning of a valid calculation means: the latest cutoff
      crossed, at its first crossing, by Time.java's count of minutes past,
      which is never negative and is TimeCalculator.java's count or one more. */
  lemma WarningMeaning(rows: seq<Row>, now: TimeOfDay)
    ensures var slots := RowSlots(rows);
      match WarningOf(Latest(Run(slots, now).latches), now)
      case None => forall k: CutoffId, i :: !CrossesAt(slots, now, k, i)
      case Some(w) =>
        && FirstCrossing(slots, now, w.cutoff, w.index)
        && (forall k: CutoffId, i :: w.cutoff < k ==> !CrossesAt(slots, now, k, i))
        && var at := ProjectedAt(slots, now, w.index);
        && w.minutesPast == Calculator.MinutesPast(at, w.cutoff)
             + (if now < Cutoff[w.cutoff] && now % 60 != 0 then 1 else 0)
        && w.minutesPast >= 0
  {
    var slots := RowSlots(rows);
    ReportedCrossing(slots, now);
    match Latest(Run(slots, now).latches)
    case None =>
    case Some(c) =>
      var at := ProjectedAt(slots, now, c.latch.index);
      assert at % 60 == now % 60;
      MinutesPastRelation(now, at, c.cutoff);
  }

  /** A single row's ETA is the resulting time of a calculation over that row alone. */
  lemma SingleRowEta(row: Row, now: TimeOfDay, clock: TimeOfDay -> string)
    requires RowSlot(row.text).Some? && RowSlot(row.text).value >= 0
    ensures EtaText(row.text, now, clock) == "ETA: " + clock(PlusMinutes(now, Wrap32(Sum(RowSlots([row])))))
  {
    var v := RowSlot(row.text).value;
    ParseInputRange(Trim(row.text));
    assert RowSlots([row]) == [Some(v)];
    assert Sum([Some(v)]) == v by {
      assert [Some(v)][..0] == [];
    }
  }
}
