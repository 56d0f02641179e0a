/**
  The unit argument the library's functions take as a string. Each function
  lists the names it accepts; `Other(name)` stands for every other string, so
  its `name` is never one of the nine names that have a constructor of their
  own (`Other("year")` is not a way to write `Year`).
*/
module Units {
  datatype Unit = Year | Month | Week | Date | Day | Hour | Minute | Second | Millisecond | Other(name: string)

  /** The string the caller passed, as an error message prints it. */
  function Name(u: Unit): string {
    match u
    case Year => "year"
    case Month => "month"
    case Week => "week"
    case Date => "date"
    case Day => "day"
    case Hour => "hour"
    case Minute => "minute"
    case Second => "second"
    case Millisecond => "millisecond"
    case Other(name) => name
  }
}
