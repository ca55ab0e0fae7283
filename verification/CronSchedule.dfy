/** The compiled form of a cron expression and the tests that decide whether an instant fires. */
module CronSchedule {
  import opened Bits
  import opened Calendar

  type Word = m: nat | m < WORD

  datatype CronExpr = CronExpr(sec: Word, min: Word, hour: Word, dom: Word, month: Word, dow: Word)

  const DOM_BLANK: Word := 0xfffffffe
  const DOW_BLANK: Word := 0x7f

  /** `1<<uint(i) & mask != 0`. */
  predicate Has(mask: Word, i: nat) {
    And(Shl(1, i), mask) != 0
  }

  predicate MatchDay(e: CronExpr, t: int) {
    if e.dom == DOM_BLANK then Has(e.dow, Weekday(t))
    else if e.dow == DOW_BLANK then Has(e.dom, MonthDay(t))
    else Has(e.dow, Weekday(t)) || Has(e.dom, MonthDay(t))
  }

  predicate MonthOk(e: CronExpr, t: int) { Has(e.month, Month(t)) }
  predicate HourOk(e: CronExpr, t: int) { Has(e.hour, Hour(t)) }
  predicate MinuteOk(e: CronExpr, t: int) { Has(e.min, Minute(t)) }
  predicate SecondOk(e: CronExpr, t: int) { Has(e.sec, Second(t)) }

  /** All five tests of the search pass at `t`. */
  predicate Matches(e: CronExpr, t: int) {
    MonthOk(e, t) && MatchDay(e, t) && HourOk(e, t) && MinuteOk(e, t) && SecondOk(e, t)
  }
}
