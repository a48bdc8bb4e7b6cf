/** The cutoff detector both schedule calculators share: one forward pass over
    the parsed intervals that keeps a running `int` total, projects the time
    of day after each non-blank interval, and latches, for each of the 3 PM,
    5 PM and 7 PM cutoffs, the first interval whose projected time is after
    it. The latest cutoff crossed is the one reported. */
module Cutoffs {
  import opened Wrappers
  import opened JavaLang
  import opened Clock

  /** The cutoffs in the order the source's arrays hold them: 3 PM, 5 PM, 7 PM. */
  const Cutoff: seq<TimeOfDay> := [Of(15, 0), Of(17, 0), Of(19, 0)]

  /** The names the warnings print for the cutoffs. */
  const CutoffName: seq<string> := ["3:00 PM", "5:00 PM", "7:00 PM"]

  type CutoffId = k: int | 0 <= k < 3

  /** A parsed interval: `None` for a blank field, which the pass skips, or
      `Some(m)` for an interval of `m` minutes. */
  type Slot = Option<int>

  /** A latched crossing: the 1-based interval at which the projected time
      first went past the cutoff, and that projected time. */
  datatype Latch = Latch(index: nat, at: TimeOfDay)

  /** The state of the pass: the running `int` total of minutes and, per
      cutoff, its latch if it has been crossed. */
  datatype Pass = Pass(total: int, latches: seq<Option<Latch>>)

  const Initial: Pass := Pass(0, [None, None, None])

  /** A cutoff's latch after an interval that projects to `temp`: set once, never overwritten. */
  function Relatch(l: Option<Latch>, k: CutoffId, temp: TimeOfDay, index: nat): Option<Latch> {
    if l.None? && IsAfter(temp, Cutoff[k]) then Some(Latch(index, temp)) else l
  }

  /** One iteration of the pass over the interval at 1-based position `index`. */
  function Step(p: Pass, slot: Slot, index: nat, now: TimeOfDay): (r: Pass)
    requires |p.latches| == 3
    ensures |r.latches| == 3
    ensures slot.None? ==> r == p
    ensures slot.Some? ==> r.total == Wrap32(p.total + slot.value)
    ensures forall k :: 0 <= k < 3 && p.latches[k].Some? ==> r.latches[k] == p.latches[k]
    ensures forall k :: 0 <= k < 3 && p.latches[k].None? && slot.Some? ==>
      (r.latches[k].Some? <==> IsAfter(PlusMinutes(now, r.total), Cutoff[k]))
    ensures forall k :: 0 <= k < 3 && p.latches[k].None? && r.latches[k].Some? ==>
      r.latches[k].value == Latch(index, PlusMinutes(now, r.total))
  {
    match slot
    case None => p
    case Some(m) =>
      var total := Wrap32(p.total + m);
      var temp := PlusMinutes(now, total);
      Pass(total, [Relatch(p.latches[0], 0, temp, index),
                   Relatch(p.latches[1], 1, temp, index),
                   Relatch(p.latches[2], 2, temp, index)])
  }

  /** The pass over all of `slots`, in order. */
  function Run(slots: seq<Slot>, now: TimeOfDay): (r: Pass)
    ensures |r.latches| == 3
    ensures forall k :: 0 <= k < 3 && r.latches[k].Some? ==>
      1 <= r.latches[k].value.index <= |slots| && IsAfter(r.latches[k].value.at, Cutoff[k])
    decreases |slots|, 1
  {
    if |slots| == 0 then Initial else RunLast(slots, now)
  }

  /** The pass over a non-empty list: the pass over all but the last slot, then one step. */
  function RunLast(slots: seq<Slot>, now: TimeOfDay): (r: Pass)
    requires |slots| > 0
    ensures |r.latches| == 3
    ensures forall k :: 0 <= k < 3 && r.latches[k].Some? ==>
      1 <= r.latches[k].value.index <= |slots| && IsAfter(r.latches[k].value.at, Cutoff[k])
    decreases |slots|, 0
  {
    Step(Run(slots[..|slots| - 1], now), slots[|slots| - 1], |slots|, now)
  }

  lemma RunExtend(slots: seq<Slot>, i: nat, now: TimeOfDay)
    requires i < |slots|
    ensures Run(slots[..i + 1], now) == Step(Run(slots[..i], now), slots[i], i + 1, now)
  {
    assert slots[..i + 1][..i] == slots[..i];
  }

  // ------------------------------------------------- reference definition

  /** The exact sum of the minutes of the non-blank slots. */
  function Sum(slots: seq<Slot>): int {
    if |slots| == 0 then 0 else Sum(slots[..|slots| - 1]) + slots[|slots| - 1].GetOr(0)
  }

  /** The projected time of day after the first `i` slots. */
  function ProjectedAt(slots: seq<Slot>, now: TimeOfDay, i: nat): TimeOfDay
    requires i <= |slots|
  {
    PlusMinutes(now, Wrap32(Sum(slots[..i])))
  }

  /** Interval `i` (1-based) is non-blank and its projected time is after cutoff `k`. */
  predicate CrossesAt(slots: seq<Slot>, now: TimeOfDay, k: CutoffId, i: int) {
    1 <= i <= |slots| && slots[i - 1].Some? && IsAfter(ProjectedAt(slots, now, i), Cutoff[k])
  }

  /** Interval `i` is the first interval at which cutoff `k` is crossed. */
  ghost predicate FirstCrossing(slots: seq<Slot>, now: TimeOfDay, k: CutoffId, i: int) {
    CrossesAt(slots, now, k, i) && forall j :: 1 <= j < i ==> !CrossesAt(slots, now, k, j)
  }

  /** What a latch means: unset exactly when the cutoff is never crossed;
      otherwise the first crossing and the projected time there. */
  ghost predicate LatchMeans(slots: seq<Slot>, now: TimeOfDay, k: CutoffId, l: Option<Latch>) {
    match l
    case None => forall i :: !CrossesAt(slots, now, k, i)
    case Some(x) => FirstCrossing(slots, now, k, x.index) && x.at == ProjectedAt(slots, now, x.index)
  }

  lemma ProjectedAtPrefix(slots: seq<Slot>, now: TimeOfDay, i: nat)
    requires i < |slots|
    ensures ProjectedAt(slots, now, i) == ProjectedAt(slots[..|slots| - 1], now, i)
  {
    assert slots[..|slots| - 1][..i] == slots[..i];
  }

  /** The pass keeps the exact sum of the non-blank slots, wrapped to an `int`. */
  lemma {:induction false} RunTotal(slots: seq<Slot>, now: TimeOfDay)
    ensures Run(slots, now).total == Wrap32(Sum(slots))
  {
    if |slots| > 0 {
      var prefix := slots[..|slots| - 1];
      RunTotal(prefix, now);
      WrapAdd(Sum(prefix), slots[|slots| - 1].GetOr(0));
    }
  }

  /** The projected time after the whole list is the time the pass projects. */
  lemma ProjectedAtEnd(slots: seq<Slot>, now: TimeOfDay)
    ensures ProjectedAt(slots, now, |slots|) == PlusMinutes(now, Run(slots, now).total)
  {
    RunTotal(slots, now);
    assert slots[..|slots|] == slots;
  }

  /** The pass latches cutoff `k` exactly at its first crossing, if any. */
  lemma {:induction false} RunLatch(slots: seq<Slot>, now: TimeOfDay, k: CutoffId)
    ensures LatchMeans(slots, now, k, Run(slots, now).latches[k])
  {
    if |slots| == 0 {
      return;
    }
    var n := |slots|;
    var prefix := slots[..n - 1];
    RunLatch(prefix, now, k);
    forall i | i < n
      ensures CrossesAt(slots, now, k, i) == CrossesAt(prefix, now, k, i)
    {
      if 1 <= i {
        ProjectedAtPrefix(slots, now, i);
      }
    }
    ProjectedAtEnd(slots, now);
    match Run(prefix, now).latches[k]
    case Some(x) =>
      ProjectedAtPrefix(slots, now, x.index);
    case None =>
  }

  /** The pass computes the wrapped sum and latches every cutoff at its first crossing. */
  lemma RunMeaning(slots: seq<Slot>, now: TimeOfDay)
    ensures Run(slots, now).total == Wrap32(Sum(slots))
    ensures forall k: CutoffId :: LatchMeans(slots, now, k, Run(slots, now).latches[k])
  {
    RunTotal(slots, now);
    forall k: CutoffId
      ensures LatchMeans(slots, now, k, Run(slots, now).latches[k])
    {
      RunLatch(slots, now, k);
    }
  }

  // ------------------------------------------------------------- priority

  /** The cutoff a warning reports, with its latch. */
  datatype Crossing = Crossing(cutoff: CutoffId, latch: Latch)

  /** The 7 PM latch wins over the 5 PM latch, which wins over the 3 PM latch. */
  function Latest(latches: seq<Option<Latch>>): (r: Option<Crossing>)
    requires |latches| == 3
    ensures r.None? <==> forall k: CutoffId :: latches[k].None?
    ensures r.Some? ==> latches[r.value.cutoff] == Some(r.value.latch)
    ensures r.Some? ==> forall k: CutoffId :: r.value.cutoff < k ==> latches[k].None?
  {
    if latches[2].Some? then Some(Crossing(2, latches[2].value))
    else if latches[1].Some? then Some(Crossing(1, latches[1].value))
    else if latches[0].Some? then Some(Crossing(0, latches[0].value))
    else None
  }

  /** A later cutoff is never latched before an earlier one: whenever cutoff
      `k2` is latched at interval `i`, every earlier cutoff `k1` is latched at
      `i` or before. */
  lemma LatchesNest(slots: seq<Slot>, now: TimeOfDay, k1: CutoffId, k2: CutoffId)
    requires k1 < k2
    requires Run(slots, now).latches[k2].Some?
    ensures Run(slots, now).latches[k1].Some?
    ensures Run(slots, now).latches[k1].value.index <= Run(slots, now).latches[k2].value.index
  {
    RunMeaning(slots, now);
    var i := Run(slots, now).latches[k2].value.index;
    assert CrossesAt(slots, now, k2, i);
    assert CrossesAt(slots, now, k1, i);
  }

  /** The reported crossing is the latest cutoff crossed anywhere in the list,
      latched at its first crossing. */
  lemma ReportedCrossing(slots: seq<Slot>, now: TimeOfDay)
    ensures match Latest(Run(slots, now).latches)
      case None => forall k: CutoffId, i :: !CrossesAt(slots, now, k, i)
      case Some(c) =>
        && FirstCrossing(slots, now, c.cutoff, c.latch.index)
        && c.latch.at == ProjectedAt(slots, now, c.latch.index)
        && forall k: CutoffId, i :: c.cutoff < k ==> !CrossesAt(slots, now, k, i)
  {
    RunMeaning(slots, now);
  }
}
