/** `java.time.LocalTime` as the utilities use it: a time of day read from the
    wall clock, moved forward by minutes with wrap-around at midnight, and
    compared or subtracted without wrap-around. Clock readings are taken at
    whole seconds, so a time of day is a number of seconds since midnight. */
module Clock {
  import opened JavaLang

  const SecondsPerDay: int := 86400

  /** A `LocalTime`, as seconds since midnight. */
  type TimeOfDay = t: int | 0 <= t < 86400

  /** `LocalTime.of(h, m)`. */
  function Of(h: nat, m: nat): (t: TimeOfDay)
    requires h < 24 && m < 60
    ensures t % 60 == 0 && t / 60 == 60 * h + m
  {
    3600 * h + 60 * m
  }

  lemma ShiftByMinutesKeepsSeconds(t: int, k: int)
    ensures (t + 60 * k) % 60 == t % 60
  {
    var q := t / 60;
    assert t == 60 * q + t % 60;
    assert t + 60 * k == 60 * (q + k) + t % 60;
  }

  /** `LocalTime.plusMinutes`: wraps around midnight and keeps the seconds. */
  function PlusMinutes(t: TimeOfDay, minutes: int): (r: TimeOfDay)
    ensures (t + 60 * minutes - r) % SecondsPerDay == 0
    ensures r % 60 == t % 60
  {
    var x := t + 60 * minutes;
    var r := x % SecondsPerDay;
    assert x == SecondsPerDay * (x / SecondsPerDay) + r;
    assert r == t + 60 * (minutes - 1440 * (x / SecondsPerDay));
    ShiftByMinutesKeepsSeconds(t, minutes - 1440 * (x / SecondsPerDay));
    r
  }

  /** `LocalTime.plusSeconds`: wraps around midnight. */
  function PlusSeconds(t: TimeOfDay, seconds: int): (r: TimeOfDay)
    ensures (t + seconds - r) % SecondsPerDay == 0
  {
    (t + seconds) % SecondsPerDay
  }

  /** `a.isAfter(b)`: compares the two times of day as they are, without wrap-around. */
  predicate IsAfter(a: TimeOfDay, b: TimeOfDay) {
    a > b
  }

  /** `Duration.between(a, b).toMinutes()`: the signed distance from `a` to
      `b` on the same day, in whole minutes rounded toward zero. */
  function MinutesBetween(a: TimeOfDay, b: TimeOfDay): (r: int)
    ensures b >= a ==> 0 <= 60 * r <= b - a < 60 * r + 60
    ensures b < a ==> 60 * r - 60 < b - a <= 60 * r <= 0
  {
    JDiv(b - a, 60)
  }
}
