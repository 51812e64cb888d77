/** The values shared by the patterns and the itinerary records. */
module Common {
  /** A value that may be absent: an optional field of a record, or the result of a
      `match` that may find nothing. */
  datatype Option<+T> = None | Some(value: T)
  {
    /** The first of two optional values that is present. */
    function OrElse(other: Option<T>): Option<T> {
      if Some? then this else other
    }
  }

  /** The three time-of-day sections of a day. */
  datatype Section = Morning | Afternoon | Evening
}
