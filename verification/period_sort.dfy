/**
 * `daySchedule.sort((a, b) => a.period - b.period)`: the stable sort (as every
 * ECMAScript engine since 2019 performs it) of one day's entries by period.
 */
module PeriodSort {
  import opened Timetable
  import opened Seqs
  import opened ScoredLedger

  /** The entries are in non-decreasing period order. */
  predicate SortedByPeriod(s: seq<Slot>) {
    forall i, j :: 0 <= i < j < |s| ==> s[i].period <= s[j].period
  }

  /** The entries of `s` at period `p`, in their order in `s`. */
  function AtPeriod(s: seq<Slot>, p: nat): seq<Slot>
  {
    if |s| == 0 then []
    else AtPeriod(s[..|s| - 1], p) + (if s[|s| - 1].period == p then [s[|s| - 1]] else [])
  }

  lemma {:induction false} AtPeriodConcat(a: seq<Slot>, b: seq<Slot>, p: nat)
    ensures AtPeriod(a + b, p) == AtPeriod(a, p) + AtPeriod(b, p)
  {
    if |b| > 0 {
      var last := b[|b| - 1];
      assert (a + b)[..|a + b| - 1] == a + b[..|b| - 1];
      AtPeriodConcat(a, b[..|b| - 1], p);
    } else {
      assert a + b == a;
    }
  }

  /**
   * One step of the insertion: `x` goes after every entry whose period is at most its own,
   * so it lands behind the entries it ties with.
   */
  function InsertByPeriod(t: seq<Slot>, x: Slot): (r: seq<Slot>)
    ensures |r| == |t| + 1
  {
    if |t| == 0 || t[|t| - 1].period <= x.period then t + [x]
    else InsertByPeriod(t[..|t| - 1], x) + [t[|t| - 1]]
  }

  /** The sorted day: each entry in turn inserted into the sorted entries before it. */
  function SortByPeriod(s: seq<Slot>): (r: seq<Slot>)
    ensures |r| == |s|
  {
    if |s| == 0 then [] else InsertByPeriod(SortByPeriod(s[..|s| - 1]), s[|s| - 1])
  }

  lemma {:induction false} InsertSorted(t: seq<Slot>, x: Slot)
    requires SortedByPeriod(t)
    ensures SortedByPeriod(InsertByPeriod(t, x))
    ensures forall k :: 0 <= k < |t| + 1 ==> InsertByPeriod(t, x)[k] == x || InsertByPeriod(t, x)[k] in t
  {
    if |t| == 0 || t[|t| - 1].period <= x.period {
    } else {
      var init := t[..|t| - 1];
      InsertSorted(init, x);
      var r := InsertByPeriod(init, x);
      forall k | 0 <= k < |r| ensures r[k].period <= t[|t| - 1].period {
        if r[k] != x {
          assert r[k] in init;
        }
      }
    }
  }

  lemma {:induction false} InsertMultiset(t: seq<Slot>, x: Slot)
    ensures multiset(InsertByPeriod(t, x)) == multiset(t) + multiset{x}
  {
    if |t| == 0 || t[|t| - 1].period <= x.period {
    } else {
      var init := t[..|t| - 1];
      InsertMultiset(init, x);
      InitLast(t);
    }
  }

  lemma {:induction false} InsertAtPeriod(t: seq<Slot>, x: Slot, p: nat)
    ensures AtPeriod(InsertByPeriod(t, x), p) == AtPeriod(t, p) + (if x.period == p then [x] else [])
  {
    if |t| == 0 || t[|t| - 1].period <= x.period {
      AtPeriodConcat(t, [x], p);
    } else {
      var init := t[..|t| - 1];
      var last := t[|t| - 1];
      InsertAtPeriod(init, x, p);
      AtPeriodConcat(InsertByPeriod(init, x), [last], p);
      AtPeriodConcat(init, [last], p);
      InitLast(t);
    }
  }

  /** The cells of a list of entries, counted with multiplicity. */
  function CellBag(xs: seq<Slot>): multiset<Cell>
  {
    if |xs| == 0 then multiset{} else CellBag(xs[..|xs| - 1]) + multiset{CellOf(xs[|xs| - 1])}
  }

  lemma {:induction false} CellBagConcat(a: seq<Slot>, b: seq<Slot>)
    ensures CellBag(a + b) == CellBag(a) + CellBag(b)
  {
    if |b| > 0 {
      assert (a + b)[..|a + b| - 1] == a + b[..|b| - 1];
      CellBagConcat(a, b[..|b| - 1]);
    } else {
      assert a + b == a;
    }
  }

  lemma {:induction false} CellBagCells(xs: seq<Slot>)
    ensures CellBag(xs) == multiset(CellsOf(xs))
  {
    if |xs| > 0 {
      CellBagCells(xs[..|xs| - 1]);
      CellsOfLast(xs);
    }
  }

  lemma {:induction false} InsertCells(t: seq<Slot>, x: Slot)
    ensures CellBag(InsertByPeriod(t, x)) == CellBag(t) + multiset{CellOf(x)}
  {
    if |t| == 0 || t[|t| - 1].period <= x.period {
      CellBagConcat(t, [x]);
    } else {
      var init := t[..|t| - 1];
      var last := t[|t| - 1];
      InsertCells(init, x);
      CellBagConcat(InsertByPeriod(init, x), [last]);
      InitLast(t);
      CellBagConcat(init, [last]);
    }
  }

  /** The sort orders the entries by period. */
  lemma {:induction false} SortSorted(s: seq<Slot>)
    ensures SortedByPeriod(SortByPeriod(s))
  {
    if |s| > 0 {
      SortSorted(s[..|s| - 1]);
      InsertSorted(SortByPeriod(s[..|s| - 1]), s[|s| - 1]);
    }
  }

  /** The sort rearranges the entries: nothing is lost, added or duplicated. */
  lemma {:induction false} SortPermutes(s: seq<Slot>)
    ensures multiset(SortByPeriod(s)) == multiset(s)
  {
    if |s| > 0 {
      SortPermutes(s[..|s| - 1]);
      InsertMultiset(SortByPeriod(s[..|s| - 1]), s[|s| - 1]);
      assert s == s[..|s| - 1] + [s[|s| - 1]];
    }
  }

  /** The sort is stable: the entries of each period keep their original relative order. */
  lemma {:induction false} SortStable(s: seq<Slot>, p: nat)
    ensures AtPeriod(SortByPeriod(s), p) == AtPeriod(s, p)
  {
    if |s| > 0 {
      SortStable(s[..|s| - 1], p);
      InsertAtPeriod(SortByPeriod(s[..|s| - 1]), s[|s| - 1], p);
    }
  }

  /** A day already in period order is left as it is. */
  lemma {:induction false} SortKeepsSorted(s: seq<Slot>)
    requires SortedByPeriod(s)
    ensures SortByPeriod(s) == s
  {
    if |s| > 0 {
      var init := s[..|s| - 1];
      SortKeepsSorted(init);
    }
  }

  /** Sorting a sorted day again changes nothing. */
  lemma SortIdempotent(s: seq<Slot>)
    ensures SortByPeriod(SortByPeriod(s)) == SortByPeriod(s)
  {
    SortSorted(s);
    SortKeepsSorted(SortByPeriod(s));
  }

  /** The sort moves entries but not the cells they occupy. */
  lemma {:induction false} SortCells(s: seq<Slot>)
    ensures CellBag(SortByPeriod(s)) == CellBag(s)
  {
    if |s| > 0 {
      SortCells(s[..|s| - 1]);
      InsertCells(SortByPeriod(s[..|s| - 1]), s[|s| - 1]);
    }
  }

  /** Every day of a schedule sorted by period. */
  function SortDays(days: seq<seq<Slot>>): (r: seq<seq<Slot>>)
    ensures |r| == |days|
    ensures forall d :: 0 <= d < |days| ==> r[d] == SortByPeriod(days[d])
  {
    seq(|days|, d requires 0 <= d < |days| => SortByPeriod(days[d]))
  }

  /** Sorting each day leaves a class's cells as they were. */
  lemma {:induction false} SortDaysCells(days: seq<seq<Slot>>)
    ensures multiset(ClassCells(SortDays(days))) == multiset(ClassCells(days))
  {
    if |days| > 0 {
      var n := |days| - 1;
      assert SortDays(days)[..n] == SortDays(days[..n]);
      SortDaysCells(days[..n]);
      SortCells(days[n]);
      CellBagCells(days[n]);
      CellBagCells(SortByPeriod(days[n]));
    }
  }
}
