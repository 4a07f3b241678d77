/** The part of Chromium's base::Time that the enrollment manager relies on.

    A Time is a count of whole seconds since the Windows epoch
    (1601-01-01 00:00:00 UTC); the value 0 is the "null" time. Preferences
    store times as seconds since the Unix epoch, converted by FromDoubleT and
    ToDoubleT, which both treat 0 as "no time at all". */
module BaseTime {

  /** Seconds from 1601-01-01 to 1970-01-01. */
  const UnixEpochOffset: int := 11644473600

  const SecondsPerMinute: int := 60
  const SecondsPerDay: int := 24 * 60 * 60

  /** The null time: what a default-constructed base::Time holds. */
  const NullTime: int := 0

  predicate IsNull(t: int) {
    t == NullTime
  }

  /** Converts Unix seconds to a Time; 0 is kept as the null time. */
  function FromDoubleT(unixSeconds: int): (t: int)
    ensures unixSeconds == 0 ==> IsNull(t)
    ensures unixSeconds != 0 ==> t - UnixEpochOffset == unixSeconds
  {
    if unixSeconds == 0 then NullTime else unixSeconds + UnixEpochOffset
  }

  /** Converts a Time to Unix seconds; the null time becomes 0. */
  function ToDoubleT(t: int): (unixSeconds: int)
    ensures IsNull(t) ==> unixSeconds == 0
    ensures !IsNull(t) ==> unixSeconds + UnixEpochOffset == t
  {
    if IsNull(t) then 0 else t - UnixEpochOffset
  }

  /** Storing a time and reading it back gives the same time, except for
      the Unix epoch instant itself, which is stored as 0 and so reads back
      as the null time. */
  lemma TimeRoundTrip(t: int)
    ensures FromDoubleT(ToDoubleT(t)) == t <==> t != UnixEpochOffset
    ensures t == UnixEpochOffset ==> IsNull(FromDoubleT(ToDoubleT(t)))
  {
  }

  /** Reading a stored value and storing it again gives the same value,
      except for the one non-zero value that lands on the null time. */
  lemma SecondsRoundTrip(unixSeconds: int)
    ensures ToDoubleT(FromDoubleT(unixSeconds)) == unixSeconds <==> unixSeconds != -UnixEpochOffset
  {
  }
}
