/**
 * A non-negative Python `timedelta` at one-second resolution. Python keeps a
 * timedelta normalised as whole days plus a seconds part in [0, 86399]; the
 * durations summed and compared elsewhere in the model are plain second counts,
 * and `FromSeconds` is the normalisation between the two views.
 */
module Durations {

  const SecondsPerDay: nat := 86400

  type DaySeconds = s: int | 0 <= s < 86400

  datatype Duration = Duration(days: nat, secs: DaySeconds)

  /** The total number of seconds a duration stands for. */
  function Seconds(d: Duration): nat {
    d.days * SecondsPerDay + d.secs
  }

  /** Normalises a second count into days and leftover seconds. */
  function FromSeconds(n: nat): (d: Duration)
    ensures Seconds(d) == n
  {
    Duration(n / SecondsPerDay, n % SecondsPerDay)
  }

  /** Every duration is the normalisation of its own second count. */
  lemma FromSecondsOfSeconds(d: Duration)
    ensures FromSeconds(Seconds(d)) == d
  {
  }
}
