/** The time units a CrptApi client can be configured with, and the length of
    one unit in milliseconds as `java.util.concurrent.TimeUnit.toMillis(1)`
    reports it. */
module TimeUnits {

  datatype TimeUnit = Nanoseconds | Microseconds | Milliseconds | Seconds | Minutes | Hours | Days

  const NanosPerMilli: nat := 1_000_000

  /** Length of one unit in nanoseconds: the common scale every unit is
      converted through. */
  function NanosPerUnit(u: TimeUnit): nat
  {
    match u
    case Nanoseconds => 1
    case Microseconds => 1_000
    case Milliseconds => 1_000_000
    case Seconds => 1_000_000_000
    case Minutes => 60_000_000_000
    case Hours => 3_600_000_000_000
    case Days => 86_400_000_000_000
  }

  /** `timeUnit.toMillis(1)`: the conversion truncates, so the two units
      shorter than a millisecond give a window of zero milliseconds. */
  function ToMillis(u: TimeUnit): (ms: nat)
    ensures ms == NanosPerUnit(u) / NanosPerMilli
    ensures ms == 0 <==> NanosPerUnit(u) < NanosPerMilli
    ensures ms == 0 <==> u == Nanoseconds || u == Microseconds
  {
    match u
    case Nanoseconds => 0
    case Microseconds => 0
    case Milliseconds => 1
    case Seconds => 1_000
    case Minutes => 60_000
    case Hours => 3_600_000
    case Days => 86_400_000
  }
}
