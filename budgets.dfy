/** The time limits of the exercise, in microseconds, in declaration order. */
module Budgets {

  datatype TimeBudget = TimeBudget(name: string, micros: int)

  const MICROS_PER_SECOND := 1_000_000

  /** The `TIMES` table: a Python dict, so its order is the order of declaration. */
  const TIMES: seq<TimeBudget> := [
    TimeBudget("1 second", MICROS_PER_SECOND),
    TimeBudget("1 minute", 60 * MICROS_PER_SECOND),
    TimeBudget("1 hour", 3600 * MICROS_PER_SECOND),
    TimeBudget("1 day", 86400 * MICROS_PER_SECOND),
    TimeBudget("1 month", 30 * 86400 * MICROS_PER_SECOND),
    TimeBudget("1 year", 365 * 86400 * MICROS_PER_SECOND),
    TimeBudget("1 century", 100 * 365 * 86400 * MICROS_PER_SECOND)
  ]

  /** Seven budgets from "1 second" to "1 century", each a positive whole number
      of seconds, strictly increasing, with distinct labels. */
  lemma TimesShape()
    ensures |TIMES| == 7
    ensures TIMES[0] == TimeBudget("1 second", 1_000_000)
    ensures TIMES[6] == TimeBudget("1 century", 3_153_600_000_000_000)
    ensures forall i :: 0 <= i < |TIMES| ==>
      TIMES[i].micros >= 1_000_000 && TIMES[i].micros % 1_000_000 == 0
    ensures forall i, j :: 0 <= i < j < |TIMES| ==> TIMES[i].micros < TIMES[j].micros
    ensures forall i, j :: 0 <= i < j < |TIMES| ==> TIMES[i].name != TIMES[j].name
  {
  }
}
