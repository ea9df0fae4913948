/**
 * The duration validator attached to the practice create and update forms.
 * A candidate duration is a signed second count: the form may hand it a
 * negative timedelta, which it must refuse.
 */
module DurationValidator {
  import opened Wrappers
  import opened Durations
  import opened Modulo

  /** 23 hours, 59 minutes and 59 seconds: the longest session the form accepts. */
  const MaxSessionSeconds: int := 23 * 3600 + 59 * 60 + 59

  /** Refuses a negative duration first, then one longer than 23:59:59. */
  function ValidateDuration(value: int): (r: Outcome)
    ensures r.Pass? <==> 0 <= value <= MaxSessionSeconds
    ensures value < 0 ==> r == Fail("duration is too low")
    ensures value > MaxSessionSeconds ==> r == Fail("duration is too high")
  {
    if value < 0 then Fail("duration is too low")
    else if value > MaxSessionSeconds then Fail("duration is too high")
    else Pass
  }

  /**
   * The validator accepts exactly the durations shorter than one day, that is
   * those whose normalised form has no whole days.
   */
  lemma AcceptedIffLessThanADay(value: int)
    ensures ValidateDuration(value).Pass? <==> value >= 0 && FromSeconds(value).days == 0
  {
  }

  /** An accepted session is shown by `time` with at most 23 hours. */
  lemma AcceptedSessionHasAtMost23Hours(value: int)
    requires ValidateDuration(value).Pass?
    ensures Hours(FromSeconds(value)) <= 23
  {
  }

  /** Both ends of the range are accepted, and the neighbours outside are refused. */
  lemma ValidatorBoundaries()
    ensures ValidateDuration(0).Pass? && ValidateDuration(MaxSessionSeconds).Pass?
    ensures ValidateDuration(-1) == Fail("duration is too low")
    ensures ValidateDuration(MaxSessionSeconds + 1) == Fail("duration is too high")
  {
  }
}
