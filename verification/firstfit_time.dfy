/**
 * `getTimeRange(period)` of the first-fit engine: periods are half-hour steps from
 * 09:00, printed as zero-padded `HH:MM - HH:MM`.
 */
module FirstFitTime {
  import opened Text

  /** `9 + Math.floor((period - 1) / 2)`; Dafny's `/` by a positive divisor is the floor. */
  function StartHour(period: nat): nat {
    9 + (period - 1) / 2
  }

  /** `period % 2 === 1 ? 0 : 30` */
  function StartMinute(period: nat): nat {
    if period % 2 == 1 then 0 else 30
  }

  /** `9 + Math.floor(period / 2)` */
  function EndHour(period: nat): nat {
    9 + period / 2
  }

  /** `period % 2 === 1 ? 30 : 0` */
  function EndMinute(period: nat): nat {
    if period % 2 == 1 then 30 else 0
  }

  /** The minute of the day at which `period` begins: period 1 at 09:00, each period 30 minutes. */
  function StartClock(period: nat): int {
    540 + 30 * (period - 1)
  }

  /** `getTimeRange(period)` */
  function TimeRange(period: nat): string
  {
    PadTwo(StartHour(period)) + ":" + PadTwo(StartMinute(period)) + " - " +
    PadTwo(EndHour(period)) + ":" + PadTwo(EndMinute(period))
  }

  /** The printed start is minute `540 + 30(p - 1)` and the printed end half an hour later. */
  lemma TimeRangeSpan(period: nat)
    ensures StartHour(period) * 60 + StartMinute(period) == StartClock(period)
    ensures EndHour(period) * 60 + EndMinute(period) == StartClock(period) + 30
  {
    if period % 2 == 1 {
      assert period == 2 * ((period - 1) / 2) + 1;
      assert period / 2 == (period - 1) / 2;
    } else if period > 0 {
      assert period == 2 * (period / 2);
      assert (period - 1) / 2 == period / 2 - 1;
    }
  }

  /** Periods are back to back: each ends where the next begins. */
  lemma Contiguous(period: nat)
    ensures EndHour(period) == StartHour(period + 1) && EndMinute(period) == StartMinute(period + 1)
  {
    TimeRangeSpan(period);
    TimeRangeSpan(period + 1);
  }

  /**
   * While the hours stay below 100 the text has the fixed layout `HH:MM - HH:MM`, and
   * reading its four numbers back gives the period's start and end minute.
   */
  lemma TimeRangeReads(period: nat)
    requires period < 182
    ensures var r := TimeRange(period);
      |r| == 13 && r[2] == ':' && r[5..8] == " - " && r[10] == ':' &&
      ParseNat(r[..2]) * 60 + ParseNat(r[3..5]) == StartClock(period) &&
      ParseNat(r[8..10]) * 60 + ParseNat(r[11..13]) == StartClock(period) + 30
  {
    var sh, sm, eh, em := PadTwo(StartHour(period)), PadTwo(StartMinute(period)), PadTwo(EndHour(period)), PadTwo(EndMinute(period));
    var r := TimeRange(period);
    assert r == sh + ":" + sm + " - " + eh + ":" + em;
    assert r[..2] == sh && r[3..5] == sm && r[8..10] == eh && r[11..13] == em;
    TimeRangeSpan(period);
  }
}
