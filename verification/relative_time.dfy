/**
 Unit selection of formatRelativeTime: the age of a tweet in milliseconds is
 rounded to minutes; under 60 rounded minutes it is shown in minutes, else the
 rounded minutes are rounded to hours; under 24 such hours it is shown in
 hours, else those hours are rounded to days. The phrase Intl.RelativeTimeFormat
 builds from the (value, unit) pair is not modelled.
 */
module RelativeTime {

  datatype TimeUnit = Minutes | Hours | Days

  datatype Relative = Relative(value: int, unit: TimeUnit)

  const MsPerMinute: int := 1000 * 60

  /** Math.round(x / y) for y > 0: the integer nearest to x / y, halves going
      up (towards +infinity), so also for negative x. */
  function JsRound(x: int, y: int): (r: int)
    requires y > 0
    ensures 2 * y * r - y <= 2 * x < 2 * y * r + y
  {
    var q := (2 * x + y) / (2 * y);
    assert 2 * y * q <= 2 * x + y < 2 * y * q + 2 * y by {
      var m := (2 * x + y) % (2 * y);
      assert 2 * x + y == 2 * y * q + m;
    }
    q
  }

  /** Rounding to the nearest integer never reverses the order of its input. */
  lemma JsRoundMonotone(x1: int, x2: int, y: int)
    requires y > 0 && x1 <= x2
    ensures JsRound(x1, y) <= JsRound(x2, y)
  {
    var r1 := JsRound(x1, y);
    var r2 := JsRound(x2, y);
    assert 2 * y * r1 < 2 * y * (r2 + 1);
    MulCancel(2 * y, r1, r2 + 1);
  }

  lemma MulCancel(a: int, b: int, c: int)
    requires a > 0 && a * b < a * c
    ensures b < c
  {
  }

  /** The (value, unit) pair formatRelativeTime hands to the formatter, for an
      age of `diff` milliseconds (negated there, shown as "… ago"). Each unit
      covers a fixed range of ages: minutes below 59.5 minutes, hours from
      there up to 23.5 hours less 30 seconds, days from then on. */
  function UnitAndValue(diff: int): (r: Relative)
    ensures r.unit == Minutes <==> diff < 3_570_000
    ensures r.unit == Hours <==> 3_570_000 <= diff < 84_570_000
    ensures r.unit == Days <==> 84_570_000 <= diff
    ensures r.unit == Minutes ==> r.value < 60 && 120_000 * r.value - 60_000 <= 2 * diff < 120_000 * r.value + 60_000
    ensures r.unit == Minutes && diff >= 0 ==> r.value >= 0
    ensures r.unit == Hours ==> 1 <= r.value <= 23
    ensures r.unit == Days ==> r.value >= 1
  {
    var minutes := JsRound(diff, MsPerMinute);
    if minutes < 60 then
      Relative(minutes, Minutes)
    else
      var hours := JsRound(minutes, 60);
      if hours < 24 then
        Relative(hours, Hours)
      else
        Relative(JsRound(hours, 24), Days)
  }

  /** formatRelativeTime for a tweet created at `createdAt`, read at `now`
      (both in milliseconds since the epoch). */
  function FormatRelativeTime(createdAt: int, now: int): (r: Relative)
    ensures r.unit == Minutes <==> now - createdAt < 3_570_000
    ensures r.unit == Hours <==> 3_570_000 <= now - createdAt < 84_570_000
    ensures r.unit == Days <==> 84_570_000 <= now - createdAt
    ensures r.unit == Minutes ==> 120_000 * r.value - 60_000 <= 2 * (now - createdAt) < 120_000 * r.value + 60_000
    ensures r.unit == Hours ==> 3_600_000 * r.value - 1_830_000 <= now - createdAt < 3_600_000 * r.value + 1_770_000
    ensures r.unit == Days ==> 86_400_000 * r.value - 45_030_000 <= now - createdAt < 86_400_000 * r.value + 41_370_000
    ensures createdAt <= now ==> r.value >= 0
  {
    RelativeTimeValue(now - createdAt);
    UnitAndValue(now - createdAt)
  }

  /** Only the age counts: moving creation and reading time by the same
      amount changes nothing, and reading later never shows a smaller unit. */
  lemma FormatRelativeTimeShift(createdAt: int, now: int, shift: int, wait: nat)
    ensures FormatRelativeTime(createdAt + shift, now + shift) == FormatRelativeTime(createdAt, now)
    ensures UnitRank(FormatRelativeTime(createdAt, now).unit) <= UnitRank(FormatRelativeTime(createdAt, now + wait).unit)
  {
    assert (now + shift) - (createdAt + shift) == now - createdAt;
    RelativeTimeMonotone(now - createdAt, now + wait - createdAt);
  }

  /** The value shown is the age rounded to that unit, up to the error the
      double rounding adds: an hour count h covers ages within
      [h hours - 30.5 minutes, h hours + 29.5 minutes), a day count d covers
      ages within [d days - 12.5 hours - 30 s, d days + 11.5 hours - 30 s). */
  lemma RelativeTimeValue(diff: int)
    ensures var r := UnitAndValue(diff);
            r.unit == Hours ==> 3_600_000 * r.value - 1_830_000 <= diff < 3_600_000 * r.value + 1_770_000
    ensures var r := UnitAndValue(diff);
            r.unit == Days ==> 86_400_000 * r.value - 45_030_000 <= diff < 86_400_000 * r.value + 41_370_000
  {
    var m := JsRound(diff, MsPerMinute);
    assert 60_000 * m - 30_000 <= diff < 60_000 * m + 30_000;
    if m >= 60 {
      var h := JsRound(m, 60);
      assert 60 * h - 30 <= m < 60 * h + 30;
      if h >= 24 {
        var d := JsRound(h, 24);
        assert 24 * d - 12 <= h < 24 * d + 12;
      }
    }
  }

  function UnitRank(u: TimeUnit): nat {
    match u
    case Minutes => 0
    case Hours => 1
    case Days => 2
  }

  /** An older tweet never shows a smaller unit, nor, in the same unit, a
      smaller value. */
  lemma RelativeTimeMonotone(d1: int, d2: int)
    requires d1 <= d2
    ensures UnitRank(UnitAndValue(d1).unit) <= UnitRank(UnitAndValue(d2).unit)
    ensures UnitAndValue(d1).unit == UnitAndValue(d2).unit ==> UnitAndValue(d1).value <= UnitAndValue(d2).value
  {
    var m1 := JsRound(d1, MsPerMinute);
    var m2 := JsRound(d2, MsPerMinute);
    JsRoundMonotone(d1, d2, MsPerMinute);
    JsRoundMonotone(m1, m2, 60);
    JsRoundMonotone(JsRound(m1, 60), JsRound(m2, 60), 24);
  }

  /** Exactly one hour old reads "1 hour ago", not "60 minutes ago". */
  lemma ExactlyOneHour()
    ensures UnitAndValue(60 * MsPerMinute) == Relative(1, Hours)
  {
  }

  /** Exactly one day old reads "1 day ago" (the formatter says "yesterday"),
      not "24 hours ago". */
  lemma ExactlyOneDay()
    ensures UnitAndValue(24 * 60 * MsPerMinute) == Relative(1, Days)
  {
  }

  /** The hours are rounded from the already rounded minutes: 89 minutes 30
      seconds is 1.49 hours, yet it rounds to 90 minutes and then to 2 hours. */
  lemma HoursRoundTwice()
    ensures UnitAndValue(89 * MsPerMinute + 30_000) == Relative(2, Hours)
    ensures JsRound(89 * MsPerMinute + 30_000, 60 * MsPerMinute) == 1
  {
  }
}
