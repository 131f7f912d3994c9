/**
 * The state the scored engine shares across classes: every staff member's schedule
 * (one list of entries per day) and the `{ daily[], total }` workload ledger, plus
 * `findOptimalStaff`, which reads both to pick the least-loaded free candidate.
 */
module ScoredLedger {
  import opened Wrappers
  import opened Text
  import opened Seqs
  import opened Timetable

  /**
   * A schedule entry (`TimeSlot`): the day as an index (the source stores `DAYS[day]`,
   * a one-to-one naming), the period, the subject label, the staff name and the class.
   */
  datatype Slot = Slot(day: nat, period: nat, subject: string, staff: string, className: string)

  /** A staff member's bookings per day and in all. */
  datatype Load = Load(daily: seq<nat>, total: nat)

  /** The staff schedules and workloads of one run over `days` days a week. */
  datatype Ledger = Ledger(days: nat, schedules: map<string, seq<seq<Slot>>>, workload: map<string, Load>)

  /** Every known staff member has a schedule and a workload with one entry per day. */
  predicate Shaped(l: Ledger) {
    l.schedules.Keys == l.workload.Keys &&
    forall s :: s in l.schedules ==> |l.schedules[s]| == l.days && |l.workload[s].daily| == l.days
  }

  /**
   * The ledger invariant: each daily count is the number of entries in that day's
   * schedule, and the total is the sum of the daily counts.
   */
  predicate Balanced(l: Ledger) {
    Shaped(l) &&
    forall s :: s in l.schedules ==>
      l.workload[s].total == Sum(l.workload[s].daily) &&
      forall d :: 0 <= d < l.days ==> l.workload[s].daily[d] == |l.schedules[s][d]|
  }

  /** A fresh ledger: an empty schedule and a zero workload for every staff member in `staff`. */
  function Empty(days: nat, staff: set<string>): (l: Ledger)
    ensures Balanced(l) && l.schedules.Keys == staff && l.days == days
  {
    var zeros := seq(days, d => 0);
    var empty := seq(days, d => []);
    ZerosSum(days);
    Ledger(days, map s | s in staff :: empty, map s | s in staff :: Load(zeros, 0))
  }

  lemma {:induction false} ZerosSum(n: nat)
    ensures Sum(seq(n, d => 0)) == 0
  {
    if n > 0 {
      assert seq(n, d => 0)[..n - 1] == seq(n - 1, d => 0);
      ZerosSum(n - 1);
    }
  }

  /**
   * One booking: `entry` goes on `staff`'s schedule for `day`, and that staff member's
   * `daily[day]` and `total` each go up by one.
   */
  function Book(l: Ledger, staff: string, day: nat, entry: Slot): (r: Ledger)
    requires Shaped(l) && staff in l.schedules && day < l.days
    ensures Shaped(r) && r.days == l.days && r.schedules.Keys == l.schedules.Keys
  {
    var sched := l.schedules[staff];
    var load := l.workload[staff];
    var load' := Load(load.daily[day := load.daily[day] + 1], load.total + 1);
    Ledger(l.days, l.schedules[staff := sched[day := sched[day] + [entry]]], l.workload[staff := load'])
  }

  /** A booking adds exactly one entry and one count for `staff` on `day`; nothing else changes. */
  lemma BookEffect(l: Ledger, staff: string, day: nat, entry: Slot)
    requires Shaped(l) && staff in l.schedules && day < l.days
    ensures var r := Book(l, staff, day, entry);
      && r.schedules[staff][day] == l.schedules[staff][day] + [entry]
      && r.workload[staff].daily[day] == l.workload[staff].daily[day] + 1
      && r.workload[staff].total == l.workload[staff].total + 1
    ensures forall d :: 0 <= d < l.days && d != day ==>
      Book(l, staff, day, entry).schedules[staff][d] == l.schedules[staff][d] &&
      Book(l, staff, day, entry).workload[staff].daily[d] == l.workload[staff].daily[d]
    ensures forall s :: s in l.schedules && s != staff ==>
      Book(l, staff, day, entry).schedules[s] == l.schedules[s] && Book(l, staff, day, entry).workload[s] == l.workload[s]
  {
  }

  /** A booking appends its entry to `staff`'s list for `day`. */
  lemma BookOwnDay(l: Ledger, staff: string, day: nat, entry: Slot)
    requires Shaped(l) && staff in l.schedules && day < l.days
    ensures Book(l, staff, day, entry).schedules[staff][day] == l.schedules[staff][day] + [entry]
  {
  }

  /** A booking keeps the ledger balanced. */
  lemma BookBalanced(l: Ledger, staff: string, day: nat, entry: Slot)
    requires Balanced(l) && staff in l.schedules && day < l.days
    ensures Balanced(Book(l, staff, day, entry))
  {
    SumIncrement(l.workload[staff].daily, day);
  }

  /** Books each of `entries` in turn for `staff` on `day`. */
  function BookAll(l: Ledger, staff: string, day: nat, entries: seq<Slot>): (r: Ledger)
    requires Shaped(l) && staff in l.schedules && day < l.days
    ensures Shaped(r) && r.days == l.days && r.schedules.Keys == l.schedules.Keys
  {
    if |entries| == 0 then l else Book(BookAll(l, staff, day, entries[..|entries| - 1]), staff, day, entries[|entries| - 1])
  }

  /** Booking a run of entries appends them all to `staff`'s day and counts each once; nothing else changes. */
  lemma BookAllEffect(l: Ledger, staff: string, day: nat, entries: seq<Slot>)
    requires Shaped(l) && staff in l.schedules && day < l.days
    ensures BookAll(l, staff, day, entries).schedules[staff][day] == l.schedules[staff][day] + entries
    ensures BookAll(l, staff, day, entries).workload[staff].daily[day] == l.workload[staff].daily[day] + |entries|
    ensures BookAll(l, staff, day, entries).workload[staff].total == l.workload[staff].total + |entries|
    ensures forall d :: 0 <= d < l.days && d != day ==>
      BookAll(l, staff, day, entries).schedules[staff][d] == l.schedules[staff][d] &&
      BookAll(l, staff, day, entries).workload[staff].daily[d] == l.workload[staff].daily[d]
    ensures forall s :: s in l.schedules && s != staff ==>
      BookAll(l, staff, day, entries).schedules[s] == l.schedules[s] &&
      BookAll(l, staff, day, entries).workload[s] == l.workload[s]
  {
    BookAllOwnDay(l, staff, day, entries);
    BookAllOwnCounts(l, staff, day, entries);
    BookAllElsewhere(l, staff, day, entries);
  }

  lemma {:induction false} BookAllOwnDay(l: Ledger, staff: string, day: nat, entries: seq<Slot>)
    requires Shaped(l) && staff in l.schedules && day < l.days
    ensures BookAll(l, staff, day, entries).schedules[staff][day] == l.schedules[staff][day] + entries
  {
    if |entries| > 0 {
      var init := entries[..|entries| - 1];
      var last := entries[|entries| - 1];
      var mid := BookAll(l, staff, day, init);
      BookAllOwnDay(l, staff, day, init);
      BookOwnDay(mid, staff, day, last);
      InitLast(entries);
      AppendSnoc(l.schedules[staff][day], init, last, entries);
    }
  }

  lemma {:induction false} BookAllOwnCounts(l: Ledger, staff: string, day: nat, entries: seq<Slot>)
    requires Shaped(l) && staff in l.schedules && day < l.days
    ensures BookAll(l, staff, day, entries).workload[staff].daily[day] == l.workload[staff].daily[day] + |entries|
    ensures BookAll(l, staff, day, entries).workload[staff].total == l.workload[staff].total + |entries|
  {
    if |entries| > 0 {
      var init := entries[..|entries| - 1];
      BookAllOwnCounts(l, staff, day, init);
      BookEffect(BookAll(l, staff, day, init), staff, day, entries[|entries| - 1]);
    }
  }

  lemma {:induction false} BookAllElsewhere(l: Ledger, staff: string, day: nat, entries: seq<Slot>)
    requires Shaped(l) && staff in l.schedules && day < l.days
    ensures forall d :: 0 <= d < l.days && d != day ==>
      BookAll(l, staff, day, entries).schedules[staff][d] == l.schedules[staff][d] &&
      BookAll(l, staff, day, entries).workload[staff].daily[d] == l.workload[staff].daily[d]
    ensures forall s :: s in l.schedules && s != staff ==>
      BookAll(l, staff, day, entries).schedules[s] == l.schedules[s] &&
      BookAll(l, staff, day, entries).workload[s] == l.workload[s]
  {
    if |entries| > 0 {
      var init := entries[..|entries| - 1];
      var mid := BookAll(l, staff, day, init);
      BookAllElsewhere(l, staff, day, init);
      BookEffect(mid, staff, day, entries[|entries| - 1]);
    }
  }

  /** Booking a run of entries keeps the ledger balanced. */
  lemma {:induction false} BookAllBalanced(l: Ledger, staff: string, day: nat, entries: seq<Slot>)
    requires Balanced(l) && staff in l.schedules && day < l.days
    ensures Balanced(BookAll(l, staff, day, entries))
  {
    if |entries| > 0 {
      var init := entries[..|entries| - 1];
      BookAllBalanced(l, staff, day, init);
      BookBalanced(BookAll(l, staff, day, init), staff, day, entries[|entries| - 1]);
    }
  }

  /** `staff` has no entry on `day` at any of `periods`. */
  predicate FreeAt(l: Ledger, staff: string, day: nat, periods: seq<nat>)
    requires Shaped(l) && staff in l.schedules && day < l.days
  {
    forall p, x :: p in periods && x in l.schedules[staff][day] ==> x.period != p
  }

  /** A candidate `findOptimalStaff` keeps: a non-blank name, free at every requested period. */
  predicate Eligible(l: Ledger, staff: string, day: nat, periods: seq<nat>)
    requires Shaped(l) && day < l.days
  {
    !IsBlank(staff) && staff in l.schedules && FreeAt(l, staff, day, periods)
  }

  /** `a` carries strictly less load than `b`: fewer bookings that day, or as many and fewer in all. */
  predicate Lighter(l: Ledger, a: string, b: string, day: nat)
    requires Shaped(l) && a in l.schedules && b in l.schedules && day < l.days
  {
    var la := l.workload[a];
    var lb := l.workload[b];
    la.daily[day] < lb.daily[day] || (la.daily[day] == lb.daily[day] && la.total < lb.total)
  }

  /** What `findOptimalStaff` asks of its inputs: every non-blank candidate is a known staff member. */
  predicate Known(l: Ledger, cands: seq<string>) {
    forall c :: c in cands && !IsBlank(c) ==> c in l.schedules
  }

  /**
   * `cands[k]` is a choice `findOptimalStaff` may hold after the first `n` candidates:
   * eligible, no eligible one among them lighter, and every eligible one before it
   * strictly heavier.
   */
  ghost predicate ChosenAt(l: Ledger, cands: seq<string>, day: nat, periods: seq<nat>, n: nat, k: nat)
    requires Shaped(l) && day < l.days && k < n <= |cands|
  {
    Eligible(l, cands[k], day, periods) &&
    (forall j :: 0 <= j < n && Eligible(l, cands[j], day, periods) ==> !Lighter(l, cands[j], cands[k], day)) &&
    (forall j :: 0 <= j < k && Eligible(l, cands[j], day, periods) ==> Lighter(l, cands[k], cands[j], day))
  }

  /**
   * `r` is what `findOptimalStaff` must return after looking at the first `n` candidates:
   * nothing when none of them is eligible, and otherwise a candidate chosen as above.
   */
  ghost predicate OptimalAmong(l: Ledger, cands: seq<string>, day: nat, periods: seq<nat>, n: nat, r: Option<string>)
    requires Shaped(l) && day < l.days && n <= |cands|
  {
    (r.None? <==> forall j :: 0 <= j < n ==> !Eligible(l, cands[j], day, periods)) &&
    (r.Some? ==> exists k :: 0 <= k < n && cands[k] == r.value && ChosenAt(l, cands, day, periods, n, k))
  }

  /**
   * The filter-then-reduce of `findOptimalStaff`, fused into one pass: `best` is the
   * reduction so far over `cands[..i]`, and an eligible candidate replaces it only when
   * it is strictly lighter.
   */
  function LightestFrom(l: Ledger, cands: seq<string>, day: nat, periods: seq<nat>, i: nat, best: Option<string>): (r: Option<string>)
    requires Shaped(l) && day < l.days && i <= |cands| && Known(l, cands)
    requires OptimalAmong(l, cands, day, periods, i, best)
    ensures OptimalAmong(l, cands, day, periods, |cands|, r)
    decreases |cands| - i
  {
    if i == |cands| then best
    else
      var c := cands[i];
      var best' :=
        if !Eligible(l, c, day, periods) then best
        else if best.None? then Some(c)
        else if Lighter(l, c, best.value, day) then Some(c)
        else best;
      assert OptimalAmong(l, cands, day, periods, i + 1, best') by {
        StepKeepsOptimal(l, cands, day, periods, i, best, best');
      }
      LightestFrom(l, cands, day, periods, i + 1, best')
  }

  lemma StepKeepsOptimal(l: Ledger, cands: seq<string>, day: nat, periods: seq<nat>, i: nat, best: Option<string>, best': Option<string>)
    requires Shaped(l) && day < l.days && i < |cands| && Known(l, cands)
    requires OptimalAmong(l, cands, day, periods, i, best)
    requires best' ==
        if !Eligible(l, cands[i], day, periods) then best
        else if best.None? then Some(cands[i])
        else if Lighter(l, cands[i], best.value, day) then Some(cands[i])
        else best
    ensures OptimalAmong(l, cands, day, periods, i + 1, best')
  {
    if best' == best {
      StepSkips(l, cands, day, periods, i, best);
    } else {
      StepTakes(l, cands, day, periods, i, best);
    }
  }

  /** A candidate that is not eligible, or not lighter than the choice so far, leaves the choice optimal. */
  lemma StepSkips(l: Ledger, cands: seq<string>, day: nat, periods: seq<nat>, i: nat, best: Option<string>)
    requires Shaped(l) && day < l.days && i < |cands| && Known(l, cands)
    requires OptimalAmong(l, cands, day, periods, i, best)
    requires !Eligible(l, cands[i], day, periods) || (best.Some? && !Lighter(l, cands[i], best.value, day))
    ensures OptimalAmong(l, cands, day, periods, i + 1, best)
  {
    if best.Some? {
      var k :| 0 <= k < i && cands[k] == best.value && ChosenAt(l, cands, day, periods, i, k);
      ChosenStays(l, cands, day, periods, i, k);
    }
  }

  /** A chosen candidate stays chosen past a candidate that is not eligible or not lighter than it. */
  lemma ChosenStays(l: Ledger, cands: seq<string>, day: nat, periods: seq<nat>, i: nat, k: nat)
    requires Shaped(l) && day < l.days && k < i < |cands| && ChosenAt(l, cands, day, periods, i, k)
    requires !Eligible(l, cands[i], day, periods) || !Lighter(l, cands[i], cands[k], day)
    ensures ChosenAt(l, cands, day, periods, i + 1, k)
  {
  }

  /** An eligible candidate that is the first eligible one, or lighter than the choice so far, is optimal. */
  lemma StepTakes(l: Ledger, cands: seq<string>, day: nat, periods: seq<nat>, i: nat, best: Option<string>)
    requires Shaped(l) && day < l.days && i < |cands| && Known(l, cands)
    requires OptimalAmong(l, cands, day, periods, i, best)
    requires Eligible(l, cands[i], day, periods) && (best.None? || Lighter(l, cands[i], best.value, day))
    ensures OptimalAmong(l, cands, day, periods, i + 1, Some(cands[i]))
  {
    var c := cands[i];
    if best.Some? {
      var k :| 0 <= k < i && cands[k] == best.value && ChosenAt(l, cands, day, periods, i, k);
      assert forall j :: 0 <= j < i && Eligible(l, cands[j], day, periods) ==> Lighter(l, c, cands[j], day);
    }
    assert ChosenAt(l, cands, day, periods, i + 1, i);
  }

  /**
   * `findOptimalStaff(candidateStaff, day, periods, ...)`: among the non-blank candidates
   * free at every one of `periods` on `day`, the one with the fewest bookings that day,
   * ties broken by the fewest bookings in all, remaining ties by list order; `None`
   * (`null`) when no candidate is eligible.
   */
  function FindOptimalStaff(l: Ledger, cands: seq<string>, day: nat, periods: seq<nat>): (r: Option<string>)
    requires Shaped(l) && day < l.days && Known(l, cands)
    ensures r.None? <==> forall c :: c in cands ==> !Eligible(l, c, day, periods)
    ensures r.Some? ==> r.value in cands && Eligible(l, r.value, day, periods)
    ensures r.Some? ==> forall c :: c in cands && Eligible(l, c, day, periods) ==> !Lighter(l, c, r.value, day)
    ensures r.Some? ==> exists i :: (0 <= i < |cands| && cands[i] == r.value &&
      forall j :: 0 <= j < i && Eligible(l, cands[j], day, periods) ==> Lighter(l, r.value, cands[j], day))
  {
    LightestFrom(l, cands, day, periods, 0, None)
  }

  /**
   * The state of one class while it is being filled: its schedule (one list per day),
   * the cells still free (`availableSlots`), and the ledger shared with every class.
   */
  datatype ClassRun = ClassRun(days: seq<seq<Slot>>, avail: seq<Cell>, ledger: Ledger)

  /** The label a staff schedule shows for a class entry: `${subject} (${className})`. */
  function Mirror(subject: string, className: string): string
  {
    subject + " (" + className + ")"
  }

  function CellOf(x: Slot): Cell {
    Cell(x.day, x.period)
  }

  /** The cells of a list of entries, in order. */
  function CellsOf(xs: seq<Slot>): (r: seq<Cell>)
    ensures |r| == |xs|
    ensures forall k :: 0 <= k < |xs| ==> r[k] == CellOf(xs[k])
  {
    if |xs| == 0 then [] else CellsOf(xs[..|xs| - 1]) + [CellOf(xs[|xs| - 1])]
  }

  /** The cells a class schedule occupies, day after day. */
  function ClassCells(days: seq<seq<Slot>>): seq<Cell>
  {
    if |days| == 0 then [] else ClassCells(days[..|days| - 1]) + CellsOf(days[|days| - 1])
  }

  /** Appending an entry to one day adds exactly its cell to the class's cells. */
  lemma {:induction false} ClassCellsAppend(days: seq<seq<Slot>>, d: nat, x: Slot)
    requires d < |days|
    ensures multiset(ClassCells(days[d := days[d] + [x]])) == multiset(ClassCells(days)) + multiset{CellOf(x)}
  {
    var days' := days[d := days[d] + [x]];
    var last := |days| - 1;
    if d == last {
      assert days'[..last] == days[..last];
      assert (days[d] + [x])[..|days[d]|] == days[d];
    } else {
      assert days'[..last] == days[..last][d := days[d] + [x]];
      ClassCellsAppend(days[..last], d, x);
    }
  }

  /** Extending one day by a run of entries is extending it by all but the last, then by the last. */
  lemma ExtendLast(days: seq<seq<Slot>>, d: nat, xs: seq<Slot>)
    requires d < |days| && xs != []
    ensures days[d := days[d] + xs] == days[d := days[d] + xs[..|xs| - 1]][d := days[d] + xs[..|xs| - 1] + [xs[|xs| - 1]]]
  {
    assert days[d] + xs == (days[d] + xs[..|xs| - 1]) + [xs[|xs| - 1]];
  }

  lemma CellsOfLast(xs: seq<Slot>)
    requires xs != []
    ensures multiset(CellsOf(xs)) == multiset(CellsOf(xs[..|xs| - 1])) + multiset{CellOf(xs[|xs| - 1])}
  {
  }

  /** Appending a run of entries to one day adds exactly their cells to the class's cells. */
  lemma {:induction false} ClassCellsExtend(days: seq<seq<Slot>>, d: nat, xs: seq<Slot>)
    requires d < |days|
    ensures multiset(ClassCells(days[d := days[d] + xs])) == multiset(ClassCells(days)) + multiset(CellsOf(xs))
  {
    if |xs| > 0 {
      var init := xs[..|xs| - 1];
      ClassCellsExtend(days, d, init);
      ClassCellsAppend(days[d := days[d] + init], d, xs[|xs| - 1]);
      ExtendLast(days, d, xs);
      CellsOfLast(xs);
    } else {
      assert days[d] + xs == days[d];
      assert days[d := days[d]] == days;
    }
  }

  /** A class's cells and its still-free cells together are the week's catalog, each exactly once. */
  ghost predicate Covers(run: ClassRun, catalog: seq<Cell>) {
    multiset(ClassCells(run.days)) + multiset(run.avail) == multiset(catalog)
  }

  /** `x` is the name of one of `subjects`. */
  predicate NameOf(subjects: seq<Subject>, x: string) {
    exists i :: 0 <= i < |subjects| && subjects[i].name == x
  }

  /** Every entry of `after` past the length of `before` names one of `subjects`. */
  ghost predicate NewEntriesNamed(before: seq<Slot>, after: seq<Slot>, subjects: seq<Subject>) {
    forall k :: |before| <= k < |after| ==> NameOf(subjects, after[k].subject)
  }

  /** `after` extends every day of `before`, and every entry it adds names one of `subjects`. */
  ghost predicate AddsNamed(before: seq<seq<Slot>>, after: seq<seq<Slot>>, subjects: seq<Subject>) {
    |after| == |before| &&
    forall d :: 0 <= d < |before| ==> before[d] <= after[d] && NewEntriesNamed(before[d], after[d], subjects)
  }

  lemma AddsNamedTrans(a: seq<seq<Slot>>, b: seq<seq<Slot>>, c: seq<seq<Slot>>, subjects: seq<Subject>)
    requires AddsNamed(a, b, subjects) && AddsNamed(b, c, subjects)
    ensures AddsNamed(a, c, subjects)
  {
    forall d | 0 <= d < |a| ensures a[d] <= c[d] && NewEntriesNamed(a[d], c[d], subjects) {
      assert a[d] <= b[d] && b[d] <= c[d];
      assert NewEntriesNamed(b[d], c[d], subjects);
      forall k | |a[d]| <= k < |c[d]| ensures NameOf(subjects, c[d][k].subject) {
        if k < |b[d]| {
          assert c[d][k] == b[d][k];
        }
      }
    }
  }

  /** Naming one of a smaller list of subjects is naming one of a larger. */
  lemma AddsNamedWiden(a: seq<seq<Slot>>, b: seq<seq<Slot>>, small: seq<Subject>, large: seq<Subject>)
    requires AddsNamed(a, b, small)
    requires forall x :: NameOf(small, x) ==> NameOf(large, x)
    ensures AddsNamed(a, b, large)
  {
    forall d | 0 <= d < |a| ensures NewEntriesNamed(a[d], b[d], large) {
      assert NewEntriesNamed(a[d], b[d], small);
    }
  }

  /** Appending entries that name one of `subjects` to one day adds only such entries. */
  lemma ExtendAddsNamed(days: seq<seq<Slot>>, d: nat, xs: seq<Slot>, subjects: seq<Subject>)
    requires d < |days| && forall k :: 0 <= k < |xs| ==> NameOf(subjects, xs[k].subject)
    ensures AddsNamed(days, days[d := days[d] + xs], subjects)
  {
    var after := days[d := days[d] + xs];
    forall e | 0 <= e < |days| ensures days[e] <= after[e] && NewEntriesNamed(days[e], after[e], subjects) {
      if e == d {
        forall k | |days[d]| <= k < |after[d]| ensures NameOf(subjects, after[d][k].subject) {
          assert after[d][k] == xs[k - |days[d]|];
        }
      }
    }
  }
}
