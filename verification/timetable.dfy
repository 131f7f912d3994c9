/**
 * The shapes shared by both engines: subjects, the weekly grid of (day, period)
 * cells, the reserved break periods, and the enumeration of candidate lab blocks.
 */
module Timetable {
  import opened Text
  import opened Seqs

  /** The day names both engines index by day number. */
  const DAYS: seq<string> := ["Monday", "Tuesday", "Wednesday", "Thursday", "Friday"]

  /** A subject of the configuration: its candidate staff, lab flag and length in periods. */
  datatype Subject = Subject(id: string, name: string, code: string, staff: seq<string>, isLab: bool, duration: int)

  /** `subjects.flatMap(s => s.staff)`: every staff entry of every subject, in order. */
  function StaffEntries(subjects: seq<Subject>): (r: seq<string>)
    ensures forall x :: x in r <==> exists i :: 0 <= i < |subjects| && x in subjects[i].staff
  {
    if |subjects| == 0 then []
    else
      var init := subjects[..|subjects| - 1];
      var r := StaffEntries(init) + subjects[|subjects| - 1].staff;
      assert forall x :: x in r <==> exists i :: 0 <= i < |subjects| && x in subjects[i].staff by {
        forall x ensures x in r <==> exists i :: 0 <= i < |subjects| && x in subjects[i].staff {
          if x in StaffEntries(init) {
            var i :| 0 <= i < |init| && x in init[i].staff;
            assert subjects[i] == init[i];
          }
          if exists i :: 0 <= i < |subjects| && x in subjects[i].staff {
            var i :| 0 <= i < |subjects| && x in subjects[i].staff;
            if i < |init| {
              assert init[i] == subjects[i];
            }
          }
        }
      }
      r
  }

  /** One (day, period) cell of a week; days count from 0, periods from 1. */
  datatype Cell = Cell(day: nat, period: nat)

  /** `a` comes strictly before `b` in day-then-period order. */
  predicate CellBefore(a: Cell, b: Cell) {
    a.day < b.day || (a.day == b.day && a.period < b.period)
  }

  /** The cells are listed in strictly increasing day-then-period order (so without repeats). */
  ghost predicate StrictlyOrdered(cs: seq<Cell>) {
    forall i, j :: 0 <= i < j < |cs| ==> CellBefore(cs[i], cs[j])
  }

  /** Cells in strictly increasing order are distinct. */
  lemma OrderedDistinct(cs: seq<Cell>)
    requires StrictlyOrdered(cs)
    ensures Distinct(cs)
  {
    forall i, j | 0 <= i < j < |cs| ensures cs[i] != cs[j] {
      assert CellBefore(cs[i], cs[j]);
    }
  }

  /** The number of periods a block of `duration` covers: `Array.from({length})` clamps below at 0. */
  function Width(duration: int): nat {
    if duration < 0 then 0 else duration
  }

  /** The cells of the block of `duration` periods starting at `start` on `day`. */
  function BlockCells(day: nat, start: nat, duration: int): (r: seq<Cell>)
    ensures |r| == Width(duration)
    ensures forall k :: 0 <= k < |r| ==> r[k] == Cell(day, start + k)
  {
    seq(Width(duration), k requires 0 <= k => Cell(day, start + k))
  }

  /** The periods of that block, in order. */
  function BlockPeriods(start: nat, duration: int): (r: seq<nat>)
    ensures |r| == Width(duration)
    ensures forall k :: 0 <= k < |r| ==> r[k] == start + k
  {
    seq(Width(duration), k requires 0 <= k => start + k)
  }

  /** The start periods `1 .. periodsPerDay - duration + 1` of one day. */
  function DayStarts(day: nat, periodsPerDay: nat, duration: int): (r: seq<Cell>)
    ensures forall i :: 0 <= i < |r| ==> r[i] == Cell(day, i + 1)
    ensures |r| == if periodsPerDay - duration + 1 >= 1 then periodsPerDay - duration + 1 else 0
  {
    var n: nat := if periodsPerDay - duration + 1 >= 1 then periodsPerDay - duration + 1 else 0;
    seq(n, k requires 0 <= k => Cell(day, k + 1))
  }

  /**
   * The (day, start) pairs both engines try for a lab of `duration` periods, in the
   * order their nested loops visit them: day by day, start period ascending.
   */
  function Blocks(days: nat, periodsPerDay: nat, duration: int): (r: seq<Cell>)
    ensures forall i :: 0 <= i < |r| ==>
      r[i].day < days && 1 <= r[i].period && r[i].period + duration - 1 <= periodsPerDay
    ensures forall day: nat, start: nat ::
      (day < days && 1 <= start && start + duration - 1 <= periodsPerDay ==> Cell(day, start) in r)
    ensures StrictlyOrdered(r)
  {
    if days == 0 then []
    else
      var front := Blocks(days - 1, periodsPerDay, duration);
      var last := DayStarts(days - 1, periodsPerDay, duration);
      assert forall day: nat, start: nat ::
        (day == days - 1 && 1 <= start && start + duration - 1 <= periodsPerDay ==> last[start - 1] == Cell(day, start));
      front + last
  }

  /** `breakPeriods[DAYS[day]]?.includes(period)` */
  predicate IsBreak(breaks: map<string, seq<int>>, day: nat, period: nat)
    requires day < |DAYS|
  {
    DAYS[day] in breaks && (period as int) in breaks[DAYS[day]]
  }

  /** The periods `1 .. periodsPerDay` of one day that are not breaks, as cells. */
  function DayCatalog(day: nat, periodsPerDay: nat, breaks: map<string, seq<int>>): (r: seq<Cell>)
    requires day < |DAYS|
    ensures forall c :: c in r <==> c.day == day && 1 <= c.period <= periodsPerDay && !IsBreak(breaks, day, c.period)
    ensures forall i, j :: 0 <= i < j < |r| ==> r[i].day == day && r[i].period < r[j].period
    decreases periodsPerDay
  {
    if periodsPerDay == 0 then []
    else
      var front := DayCatalog(day, periodsPerDay - 1, breaks);
      front + (if IsBreak(breaks, day, periodsPerDay) then [] else [Cell(day, periodsPerDay)])
  }

  /**
   * The cells a class can be taught in: every (day, period) with `day < days` and
   * `1 <= period <= periodsPerDay` except the breaks, listed day by day, period ascending.
   */
  function Catalog(days: nat, periodsPerDay: nat, breaks: map<string, seq<int>>): (r: seq<Cell>)
    requires days <= |DAYS|
    ensures forall c :: c in r <==> c.day < days && 1 <= c.period <= periodsPerDay && !IsBreak(breaks, c.day, c.period)
    ensures StrictlyOrdered(r)
  {
    if days == 0 then []
    else
      var front := Catalog(days - 1, periodsPerDay, breaks);
      var last := DayCatalog(days - 1, periodsPerDay, breaks);
      assert forall i :: 0 <= i < |front| ==> front[i] in front;
      OrderedDays(front, last, days - 1);
      front + last
  }

  /** Ordered cells of earlier days followed by one day's cells in period order stay ordered. */
  lemma OrderedDays(front: seq<Cell>, last: seq<Cell>, day: nat)
    requires StrictlyOrdered(front) && forall i :: 0 <= i < |front| ==> front[i].day < day
    requires forall i, j :: 0 <= i < j < |last| ==> last[i].day == day && last[i].period < last[j].period
    requires |last| > 0 ==> last[|last| - 1].day == day
    ensures StrictlyOrdered(front + last)
  {
    var r := front + last;
    forall i, j | 0 <= i < j < |r| ensures CellBefore(r[i], r[j]) {
      if j >= |front| {
        assert r[j] == last[j - |front|];
        assert last[j - |front|].day == day;
        if i >= |front| {
          assert r[i] == last[i - |front|];
        }
      }
    }
  }
}
