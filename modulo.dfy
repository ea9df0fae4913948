/**
 * The `time` and `total_time` template filters, which render an optional
 * duration as hours and minutes ("1h30m", "45m"; "0m" when there is none).
 */
module Modulo {
  import opened Wrappers
  import opened Decimal
  import opened Durations

  /** Splitting a duration at whole hours: a day is exactly 24 of them. */
  lemma SplitAtHours(d: Duration)
    ensures Seconds(d) / 3600 == d.days * 24 + d.secs / 3600
    ensures Seconds(d) % 3600 == d.secs % 3600
  {
  }

  /** Whole hours of a duration, every whole day counted as 24 of them. */
  function Hours(d: Duration): (h: nat)
    ensures h == Seconds(d) / 3600
  {
    SplitAtHours(d);
    d.days * 24 + d.secs / 3600
  }

  /** Minutes past the whole hours; leftover seconds are dropped. */
  function Minutes(d: Duration): (m: nat)
    ensures m < 60
    ensures m == Seconds(d) % 3600 / 60
  {
    SplitAtHours(d);
    (d.secs % 3600) / 60
  }

  /**
   * The text `time` writes for given hours and minutes: with no hours it is
   * the minutes' digits and 'm'; otherwise the hours' digits, 'h', the
   * minutes' digits and 'm'.
   */
  function HoursMinutesText(hrs: nat, mins: nat): (r: string)
    ensures |r| >= 2 && r[|r| - 1] == 'm'
    ensures 'h' in r <==> hrs > 0
    ensures hrs == 0 ==> Canonical(r[..|r| - 1], mins)
    ensures hrs > 0 ==>
      var k := DigitPrefixLength(r);
      k < |r| - 1 && r[k] == 'h' && Canonical(r[..k], hrs) && Canonical(r[k + 1..|r| - 1], mins)
  {
    var m := NatToString(mins);
    NatToStringCanonical(mins);
    if hrs == 0 then
      var r := m + "m";
      assert r[..|r| - 1] == m;
      r
    else
      var h := NatToString(hrs);
      NatToStringCanonical(hrs);
      var r := h + "h" + m + "m";
      assert r == h + ("h" + m + "m");
      DigitPrefixOfNumber(h, "h" + m + "m");
      assert r[..|h|] == h && r[|h|] == 'h' && r[|h| + 1..|r| - 1] == m;
      r
  }

  /** The `time` filter: "{hrs}h{mins}m", or "{mins}m" when there are no whole hours. */
  function Time(num: Option<Duration>): (r: string)
    ensures num.None? ==> r == "0m"
    ensures |r| >= 2 && r[|r| - 1] == 'm'
    ensures 'h' in r <==> num.Some? && Hours(num.value) > 0
    ensures num.Some? && Hours(num.value) == 0 ==> Canonical(r[..|r| - 1], Minutes(num.value))
    ensures num.Some? && Hours(num.value) > 0 ==>
      var k := DigitPrefixLength(r);
      k < |r| - 1 && r[k] == 'h' && Canonical(r[..k], Hours(num.value)) && Canonical(r[k + 1..|r| - 1], Minutes(num.value))
  {
    if num.None? then "0m"
    else HoursMinutesText(Hours(num.value), Minutes(num.value))
  }

  /** The `total_time` filter: "{hours}h", or "{mins}m" when there are no whole hours. */
  function TotalTime(num: Option<Duration>): (r: string)
    ensures num.None? ==> r == "0m"
    ensures |r| >= 2 && forall i :: 0 <= i < |r| - 1 ==> IsDigit(r[i])
    ensures 'h' in r <==> num.Some? && Hours(num.value) > 0
    ensures num.Some? && Hours(num.value) == 0 ==> r[|r| - 1] == 'm' && Canonical(r[..|r| - 1], Minutes(num.value))
    ensures num.Some? && Hours(num.value) > 0 ==> r[|r| - 1] == 'h' && Canonical(r[..|r| - 1], Hours(num.value))
  {
    if num.None? then "0m"
    else
      var hours := Hours(num.value);
      if hours == 0 then
        var r := NatToString(Minutes(num.value)) + "m";
        assert r[..|r| - 1] == NatToString(Minutes(num.value));
        NatToStringCanonical(Minutes(num.value));
        r
      else
        var r := NatToString(hours) + "h";
        assert r[..|r| - 1] == NatToString(hours);
        NatToStringCanonical(hours);
        r
  }

  /** A worked case: 90 minutes, in both filters. */
  lemma FormatNinetyMinutes()
    ensures Time(Some(FromSeconds(90 * 60))) == "1h30m"
    ensures TotalTime(Some(FromSeconds(90 * 60))) == "1h"
  {
    var d := FromSeconds(90 * 60);
    assert d == Duration(0, 5400);
    assert Hours(d) == 1 && Minutes(d) == 30;
    assert NatToString(1) == "1" && NatToString(30) == "30";
    assert Time(Some(d)) == HoursMinutesText(1, 30);
  }

  /** A worked case: 45 minutes has no hour part. */
  lemma FormatFortyFiveMinutes()
    ensures Time(Some(FromSeconds(45 * 60))) == "45m"
    ensures TotalTime(Some(FromSeconds(45 * 60))) == "45m"
  {
    var d := FromSeconds(45 * 60);
    assert d == Duration(0, 2700);
    assert Hours(d) == 0 && Minutes(d) == 45;
    assert NatToString(45) == "45";
  }

  /** A worked case: a whole hour still writes its zero minutes. */
  lemma FormatWholeHour()
    ensures Time(Some(FromSeconds(3600))) == "1h0m"
  {
    var d := FromSeconds(3600);
    assert d == Duration(0, 3600);
    assert Hours(d) == 1 && Minutes(d) == 0;
    assert HoursMinutesText(1, 0) == "1h0m";
  }

  /** A worked case: minutes below ten are written without padding. */
  lemma FormatMinutesWithoutPadding()
    ensures Time(Some(FromSeconds(3900))) == "1h5m"
  {
    var d := FromSeconds(3900);
    assert d == Duration(0, 3900);
    assert Hours(d) == 1 && Minutes(d) == 5;
    assert HoursMinutesText(1, 5) == "1h5m";
  }

  /** Hours and minutes together are the duration's whole minutes. */
  lemma HoursAndMinutesAreWholeMinutes(d: Duration)
    ensures Hours(d) * 60 + Minutes(d) == Seconds(d) / 60
  {
  }

  /**
   * `total_time` is always a prefix of `time`, and the two are equal exactly
   * when there is nothing to drop (no duration, or no whole hours).
   */
  lemma TotalTimeIsPrefixOfTime(num: Option<Duration>)
    ensures TotalTime(num) <= Time(num)
    ensures TotalTime(num) == Time(num) <==> num.None? || Hours(num.value) == 0
  {
  }

  /** The length of the leading run of digits of `s`. */
  function DigitPrefixLength(s: string): (k: nat)
    ensures k <= |s|
    ensures forall i :: 0 <= i < k ==> IsDigit(s[i])
    ensures k < |s| ==> !IsDigit(s[k])
  {
    if s == [] || !IsDigit(s[0]) then 0 else 1 + DigitPrefixLength(s[1..])
  }

  lemma {:induction false} DigitPrefixOfNumber(a: string, b: string)
    requires forall i :: 0 <= i < |a| ==> IsDigit(a[i])
    requires b != [] && !IsDigit(b[0])
    ensures DigitPrefixLength(a + b) == |a|
    decreases |a|
  {
    if a != [] {
      assert (a + b)[1..] == a[1..] + b;
      DigitPrefixOfNumber(a[1..], b);
    }
  }

  /** Hours and minutes can be read back from the text `time` writes. */
  lemma HoursMinutesTextInjective(h1: nat, m1: nat, h2: nat, m2: nat)
    requires HoursMinutesText(h1, m1) == HoursMinutesText(h2, m2)
    ensures h1 == h2 && m1 == m2
  {
  }

  /** The rendering of `time` is unambiguous: equal strings mean equal hours and minutes. */
  lemma TimeDeterminesHoursAndMinutes(d1: Duration, d2: Duration)
    requires Time(Some(d1)) == Time(Some(d2))
    ensures Hours(d1) == Hours(d2) && Minutes(d1) == Minutes(d2)
  {
  }
}
