/**
 * When src/main.py runs at all: never on Saturday or Sunday (line 138), and on
 * a weekday only when the override is set, no success is on record, or the
 * configured number of hours has passed since the last success (line 229).
 *
 * Times are whole seconds on one clock; the day of the week and the current
 * time are inputs.
 */
module Schedule {
  import opened Wrappers

  /** `datetime.weekday()`: Monday is 0 and Sunday is 6. */
  type Weekday = d: int | 0 <= d <= 6

  predicate IsWeekend(d: Weekday) {
    d > 4
  }

  const SecondsPerHour: int := 60 * 60

  /** The test of line 229. */
  predicate GateOpen(override: bool, last: Option<int>, hoursDelay: int, now: int) {
    override || last.None? || now - last.value >= SecondsPerHour * hoursDelay
  }

  /** The wait line 336 reports: time until the delay period ends. */
  function Remaining(last: int, hoursDelay: int, now: int): int {
    last + SecondsPerHour * hoursDelay - now
  }

  /** The run is held back exactly when it is not overridden, a success is on
      record, and the delay period has time left. */
  lemma ClosedIffTimeLeft(override: bool, last: Option<int>, hoursDelay: int, now: int)
    ensures !GateOpen(override, last, hoursDelay, now) <==>
      !override && last.Some? && Remaining(last.value, hoursDelay, now) > 0
  {
  }

  /** Once the gate is open it stays open as time goes on. */
  lemma OpenStaysOpen(override: bool, last: Option<int>, hoursDelay: int, now: int, later: int)
    requires GateOpen(override, last, hoursDelay, now) && now <= later
    ensures GateOpen(override, last, hoursDelay, later)
  {
  }
}
