/** The calendar event as the occupancy engine reads it. Instants are integer
    milliseconds since the Unix epoch; time zones are already folded into them. */
module CalendarEvents {

  datatype CalendarEvent = CalendarEvent(id: string, summary: string, start: int, end: int)

  /** `instant.unix()`: whole seconds since the epoch, rounded down. */
  function UnixSeconds(instant: int): (s: int)
    ensures s * 1000 <= instant < s * 1000 + 1000
  {
    instant / 1000
  }

  /** Rounding down to whole seconds keeps the order of instants. */
  lemma UnixSecondsMonotone(a: int, b: int)
    requires a <= b
    ensures UnixSeconds(a) <= UnixSeconds(b)
  {
  }
}
