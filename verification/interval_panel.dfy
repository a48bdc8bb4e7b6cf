/** The list of interval rows of TimeCalculator.java, without its widgets:
    the texts of the interval fields in order, the number shown in each
    row's label, and the interval count the buttons keep. Rows are appended
    by "+", dropped from the end by "-", and shifted up when the countdown
    of the first interval expires. */
module IntervalPanel {
  import opened Wrappers
  import opened JavaLang

  /** The label of row `k` (1-based): "Interval ", the number, then the
      format hint; the number reads back as `k`. */
  function LabelText(k: int): (s: string)
    ensures |s| > 9 + 12 && s[..9] == "Interval " && s[|s| - 12..] == " (MM / HMM):"
    ensures InInt(k) ==> ParseInt(s[9..|s| - 12]) == Some(k)
  {
    var n := IntToString(k);
    var s := "Interval " + n + " (MM / HMM):";
    assert s[..9] == "Interval " && s[9..|s| - 12] == n && s[|s| - 12..] == " (MM / HMM):";
    if InInt(k) then ParsePrintedInt(k); s else s
  }

  /** The interval rows: field texts, label numbers and the interval count. */
  datatype Panel = Panel(fields: seq<string>, numbers: seq<int>, count: int) {

    /** The rows are numbered 1..N in list order, there is at least one row,
        and the count is the number of rows. */
    predicate WellFormed() {
      && |fields| == |numbers| == count
      && count >= 1
      && forall i :: 0 <= i < |numbers| ==> numbers[i] == i + 1
    }

    /** The label the row at position `i` shows. */
    function Label(i: nat): string
      requires i < |numbers|
    {
      LabelText(numbers[i])
    }
  }

  /** The panel as the window opens it: one empty row numbered 1. */
  const Fresh: Panel := Panel([""], [1], 1)

  /** The "+" action: bump the count and append an empty row labelled with it. */
  function Add(p: Panel): (r: Panel)
    ensures p.WellFormed() ==> r.WellFormed()
    ensures |r.fields| == |p.fields| + 1 && r.fields[..|p.fields|] == p.fields && r.fields[|p.fields|] == ""
    ensures r.count == p.count + 1 && |r.numbers| == |p.numbers| + 1 && r.numbers[|p.numbers|] == r.count
    ensures r.Label(|p.numbers|) == LabelText(p.count + 1)
  {
    Panel(p.fields + [""], p.numbers + [p.count + 1], p.count + 1)
  }

  /** The "-" action: only when there is more than one interval, drop the last row. */
  function RemoveLast(p: Panel): (r: Panel)
    requires p.WellFormed()
    ensures r.WellFormed()
    ensures p.count > 1 ==> r.count == p.count - 1 && r.fields == p.fields[..p.count - 1]
    ensures p.count <= 1 ==> r == p
  {
    if p.count > 1 then
      Panel(p.fields[..|p.fields| - 1], p.numbers[..|p.numbers| - 1], p.count - 1)
    else p
  }

  /** Removing the row just added gives back the panel it was added to. */
  lemma RemoveUndoesAdd(p: Panel)
    requires p.WellFormed()
    ensures RemoveLast(Add(p)) == p
  {
    assert (p.fields + [""])[..|p.fields|] == p.fields;
    assert (p.numbers + [p.count + 1])[..|p.numbers|] == p.numbers;
  }

  /** Typing into the row at position `i`. */
  function Edit(p: Panel, i: nat, text: string): (r: Panel)
    requires i < |p.fields|
    ensures p.WellFormed() ==> r.WellFormed()
    ensures |r.fields| == |p.fields| && r.fields[i] == text
    ensures forall j :: 0 <= j < |p.fields| && j != i ==> r.fields[j] == p.fields[j]
  {
    p.(fields := p.fields[i := text])
  }

  /** The numbers 1..n. */
  function OneTo(n: nat): (r: seq<int>)
    ensures |r| == n
    ensures forall i :: 0 <= i < n ==> r[i] == i + 1
  {
    seq(n, i => i + 1)
  }

  /** The list part of `shiftIntervalsUp`: a single row is cleared in place;
      otherwise the rows are rebuilt from the trimmed texts of every row but
      the first and numbered from 1, so the result is well formed whatever
      state the rows were in. */
  function ShiftUp(p: Panel): (r: Panel)
    requires |p.fields| >= 1
    ensures |r.fields| >= 1
    ensures p.WellFormed() || |p.fields| > 1 ==> r.WellFormed()
    ensures |p.fields| == 1 ==> r == p.(fields := [""])
    ensures |p.fields| > 1 ==> |r.fields| == |p.fields| - 1
    ensures |p.fields| > 1 ==> forall i :: 0 <= i < |r.fields| ==> r.fields[i] == Trim(p.fields[i + 1])
    ensures |p.fields| > 1 ==> forall i :: 0 <= i < |r.numbers| ==> r.Label(i) == LabelText(i + 1)
  {
    if |p.fields| <= 1 then p.(fields := p.fields[0 := ""])
    else
      var values := seq(|p.fields| - 1, i requires 0 <= i < |p.fields| - 1 => Trim(p.fields[i + 1]));
      Panel(values, OneTo(|values|), |values|)
  }
}
