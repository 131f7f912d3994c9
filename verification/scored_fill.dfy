/**
 * The regular phase of the scored engine (`fillRegularSubjects`, `placeRegularSubject`,
 * `findAlternativeSubject`): every cell the lab phase left free, visited in shuffled
 * order, gets the next subject from the shared pool, or another subject when the pool's
 * pick has already reached its daily cap.
 */
module ScoredFill {
  import opened Wrappers
  import opened Text
  import opened Seqs
  import opened Oracle
  import opened Timetable
  import opened ScoredLedger

  /** Length of every per-day counter in `dailySubjectCount` (`new Array(5)`). */
  const CounterDays: nat := 5

  /** `Math.ceil(periodsPerDay / 3)`: the most periods one subject should take in a day. */
  function MaxPerDay(periodsPerDay: nat): (r: nat)
    ensures 3 * r >= periodsPerDay
    ensures r == 0 || 3 * (r - 1) < periodsPerDay
  {
    (periodsPerDay + 2) / 3
  }

  /** `dailySubjectCount`: per subject name, how often it was placed on each day. */
  type Counts = map<string, seq<nat>>

  /** Every subject has a counter with one entry per weekday. */
  predicate CountsReady(counts: Counts, subjects: seq<Subject>) {
    forall i :: 0 <= i < |subjects| ==> subjects[i].name in counts && |counts[subjects[i].name]| == CounterDays
  }

  /** The counters `fillRegularSubjects` starts from: zero for every regular subject's name. */
  function InitCounts(regular: seq<Subject>): (r: Counts)
    ensures CountsReady(r, regular)
    ensures forall n :: n in r ==> r[n] == seq(CounterDays, d => 0) && exists i :: 0 <= i < |regular| && regular[i].name == n
  {
    var names := set s | s in regular :: s.name;
    map n | n in names :: seq(CounterDays, d => 0)
  }

  /** Whether `s` is still under the daily cap on `day`. */
  predicate UnderCap(counts: Counts, s: Subject, day: nat, maxPerDay: nat)
    requires s.name in counts && day < |counts[s.name]|
  {
    counts[s.name][day] < maxPerDay
  }

  /** Index of the first subject from `from` on that is under the cap on `day`. */
  function FirstUnderCap(subjects: seq<Subject>, day: nat, counts: Counts, maxPerDay: nat, from: nat): (r: Option<nat>)
    requires CountsReady(counts, subjects) && day < CounterDays && from <= |subjects|
    ensures r.None? <==> forall i :: from <= i < |subjects| ==> !UnderCap(counts, subjects[i], day, maxPerDay)
    ensures r.Some? ==> (from <= r.value < |subjects| && UnderCap(counts, subjects[r.value], day, maxPerDay) &&
      forall i :: from <= i < r.value ==> !UnderCap(counts, subjects[i], day, maxPerDay))
    decreases |subjects| - from
  {
    if from == |subjects| then None
    else if UnderCap(counts, subjects[from], day, maxPerDay) then Some(from)
    else FirstUnderCap(subjects, day, counts, maxPerDay, from + 1)
  }

  /**
   * `findAlternativeSubject`: the first subject still under the cap on `day`, or the first
   * subject of all when every one has reached it.
   */
  function FindAlternativeSubject(subjects: seq<Subject>, day: nat, counts: Counts, maxPerDay: nat): (r: Subject)
    requires |subjects| > 0 && CountsReady(counts, subjects) && day < CounterDays
    ensures r in subjects
    ensures (exists i :: 0 <= i < |subjects| && UnderCap(counts, subjects[i], day, maxPerDay)) ==>
      exists i :: 0 <= i < |subjects| && subjects[i] == r && UnderCap(counts, subjects[i], day, maxPerDay) &&
        forall j :: 0 <= j < i ==> !UnderCap(counts, subjects[j], day, maxPerDay)
    ensures (forall i :: 0 <= i < |subjects| ==> !UnderCap(counts, subjects[i], day, maxPerDay)) ==> r == subjects[0]
  {
    match FirstUnderCap(subjects, day, counts, maxPerDay, 0)
    case Some(i) => subjects[i]
    case None => subjects[0]
  }

  /** `subjects.find(s => s.name === name)`. */
  function FindByName(subjects: seq<Subject>, name: string): (r: Option<nat>)
    ensures r.None? <==> forall i :: 0 <= i < |subjects| ==> subjects[i].name != name
    ensures r.Some? ==> (r.value < |subjects| && subjects[r.value].name == name &&
      forall i :: 0 <= i < r.value ==> subjects[i].name != name)
  {
    if |subjects| == 0 then None
    else if subjects[0].name == name then Some(0)
    else match FindByName(subjects[1..], name)
      case None => None
      case Some(i) => Some(i + 1)
  }

  /** `staff.find(s => s.trim())`: the first teacher whose name is not blank. */
  function FirstNonBlank(staff: seq<string>): (r: Option<string>)
    ensures r.None? <==> forall i :: 0 <= i < |staff| ==> IsBlank(staff[i])
    ensures r.Some? ==> exists i :: (0 <= i < |staff| && staff[i] == r.value && !IsBlank(r.value) &&
      forall j :: 0 <= j < i ==> IsBlank(staff[j]))
  {
    if |staff| == 0 then None
    else if !IsBlank(staff[0]) then Some(staff[0])
    else
      var r := FirstNonBlank(staff[1..]);
      assert r.Some? ==> exists i :: (0 <= i < |staff| && staff[i] == r.value && !IsBlank(r.value) &&
          forall j :: 0 <= j < i ==> IsBlank(staff[j])) by {
        if r.Some? {
          var i :| 0 <= i < |staff[1..]| && staff[1..][i] == r.value && !IsBlank(r.value) &&
            forall j :: 0 <= j < i ==> IsBlank(staff[1..][j]);
          assert staff[i + 1] == r.value;
          forall j | 0 <= j < i + 1 ensures IsBlank(staff[j]) {
            if j > 0 {
              assert staff[j] == staff[1..][j - 1];
            }
          }
        }
      }
      assert r.None? ==> forall i :: 0 <= i < |staff| ==> IsBlank(staff[i]) by {
        if r.None? {
          forall i | 0 <= i < |staff| ensures IsBlank(staff[i]) {
            if i > 0 {
              assert staff[i] == staff[1..][i - 1];
            }
          }
        }
      }
      r
  }

  /** What placing a regular subject on `day` asks of the class run. */
  predicate CanPlace(run: ClassRun, subject: Subject, day: nat) {
    Shaped(run.ledger) && |run.days| == run.ledger.days && day < run.ledger.days && Known(run.ledger, subject.staff)
  }

  /**
   * The teacher `placeRegularSubject` writes: when some teacher of the subject is free at
   * the period, a free one that no free one is lighter than, the first such in the list
   * (every free teacher before it is heavier); otherwise the first non-blank
   * teacher, busy or not; otherwise the literal `Unassigned`.
   */
  function PickStaff(run: ClassRun, subject: Subject, day: nat, period: nat): (r: string)
    requires CanPlace(run, subject, day)
    ensures (exists c :: c in subject.staff && Eligible(run.ledger, c, day, [period])) ==>
      r in subject.staff && Eligible(run.ledger, r, day, [period]) &&
      forall c :: c in subject.staff && Eligible(run.ledger, c, day, [period]) ==> !Lighter(run.ledger, c, r, day)
    ensures (exists c :: c in subject.staff && Eligible(run.ledger, c, day, [period])) ==>
      exists i :: (0 <= i < |subject.staff| && subject.staff[i] == r &&
        forall j :: 0 <= j < i && Eligible(run.ledger, subject.staff[j], day, [period]) ==> Lighter(run.ledger, r, subject.staff[j], day))
    ensures FindOptimalStaff(run.ledger, subject.staff, day, [period]).Some? ==> r == FindOptimalStaff(run.ledger, subject.staff, day, [period]).value
    ensures (forall c :: c in subject.staff ==> !Eligible(run.ledger, c, day, [period])) ==>
      r == (match FirstNonBlank(subject.staff) case Some(s) => s case None => "Unassigned")
  {
    match FindOptimalStaff(run.ledger, subject.staff, day, [period])
    case Some(s) => s
    case None =>
      match FirstNonBlank(subject.staff)
      case Some(s) => s
      case None => "Unassigned"
  }

  /** The class, the ledger and the counters while the regular phase runs. */
  datatype Fill = Fill(run: ClassRun, counts: Counts, poolIndex: nat)

  /**
   * `placeRegularSubject(subject, day, period, ...)`: one class entry on `day` with the
   * picked teacher; when that name is a known staff member, the mirrored entry and one
   * count on their ledger (a fallback of `Unassigned` books nobody); and one more on the
   * subject's counter for `day`.
   */
  function PlaceRegularSubject(f: Fill, subject: Subject, day: nat, period: nat, className: string): (r: Fill)
    requires CanPlace(f.run, subject, day) && day < CounterDays && subject.name in f.counts && |f.counts[subject.name]| == CounterDays
    ensures var staff := PickStaff(f.run, subject, day, period);
      && r.run.days == f.run.days[day := f.run.days[day] + [Slot(day, period, subject.name, staff, className)]]
      && r.run.ledger == (if staff in f.run.ledger.schedules
                          then Book(f.run.ledger, staff, day, Slot(day, period, Mirror(subject.name, className), staff, className))
                          else f.run.ledger)
    ensures r.run.avail == f.run.avail && r.poolIndex == f.poolIndex
    ensures r.counts.Keys == f.counts.Keys && |r.counts[subject.name]| == CounterDays
    ensures r.counts[subject.name][day] == f.counts[subject.name][day] + 1
    ensures forall d :: 0 <= d < CounterDays && d != day ==> r.counts[subject.name][d] == f.counts[subject.name][d]
    ensures forall n :: n in f.counts && n != subject.name ==> r.counts[n] == f.counts[n]
    ensures Shaped(r.run.ledger) && r.run.ledger.days == f.run.ledger.days && r.run.ledger.schedules.Keys == f.run.ledger.schedules.Keys
    ensures Balanced(f.run.ledger) ==> Balanced(r.run.ledger)
  {
    var staff := PickStaff(f.run, subject, day, period);
    var entry := Slot(day, period, subject.name, staff, className);
    var ledger := BookIfKnown(f.run.ledger, staff, day, Slot(day, period, Mirror(subject.name, className), staff, className));
    var count := f.counts[subject.name];
    Fill(ClassRun(f.run.days[day := f.run.days[day] + [entry]], f.run.avail, ledger),
         f.counts[subject.name := count[day := count[day] + 1]],
         f.poolIndex)
  }

  /** A booking for `staff` when they are registered; no change otherwise (the `Unassigned` fallback). */
  function BookIfKnown(l: Ledger, staff: string, day: nat, entry: Slot): (r: Ledger)
    requires Shaped(l) && day < l.days
    ensures r == if staff in l.schedules then Book(l, staff, day, entry) else l
    ensures Shaped(r) && r.days == l.days && r.schedules.Keys == l.schedules.Keys
    ensures Balanced(l) ==> Balanced(r)
  {
    if staff !in l.schedules then l
    else
      assert Balanced(l) ==> Balanced(Book(l, staff, day, entry)) by {
        if Balanced(l) {
          BookBalanced(l, staff, day, entry);
        }
      }
      Book(l, staff, day, entry)
  }

  /** What the regular phase asks of its state: a shaped ledger, at most five days, known teachers, a counter per subject. */
  predicate FillReady(f: Fill, regular: seq<Subject>) {
    Shaped(f.run.ledger) && |f.run.days| == f.run.ledger.days && f.run.ledger.days <= CounterDays &&
    (forall i :: 0 <= i < |regular| ==> Known(f.run.ledger, regular[i].staff)) &&
    CountsReady(f.counts, regular)
  }

  /**
   * The subject one pass of `fillRegularSubjects`' loop places: the pool's next name,
   * replaced by `findAlternativeSubject` when that subject already reached the cap on
   * `day`; nothing when the pool is empty or names no regular subject.
   */
  function RegularChoice(regular: seq<Subject>, pool: seq<string>, poolIndex: nat, counts: Counts, day: nat, maxPerDay: nat): (r: Option<Subject>)
    requires CountsReady(counts, regular) && day < CounterDays
    ensures r.Some? <==> |pool| > 0 && NameOf(regular, pool[poolIndex % |pool|])
    ensures r.Some? ==> exists i :: (0 <= i < |regular| && regular[i] == r.value &&
      (UnderCap(counts, regular[i], day, maxPerDay) || forall j :: 0 <= j < |regular| ==> !UnderCap(counts, regular[j], day, maxPerDay)))
    ensures (r.Some? && FindByName(regular, pool[poolIndex % |pool|]).Some? &&
             UnderCap(counts, regular[FindByName(regular, pool[poolIndex % |pool|]).value], day, maxPerDay)) ==>
      r.value == regular[FindByName(regular, pool[poolIndex % |pool|]).value]
    ensures (r.Some? && FindByName(regular, pool[poolIndex % |pool|]).Some? &&
             !UnderCap(counts, regular[FindByName(regular, pool[poolIndex % |pool|]).value], day, maxPerDay)) ==>
      r.value == FindAlternativeSubject(regular, day, counts, maxPerDay)
  {
    if |pool| == 0 then None
    else
      var name := pool[poolIndex % |pool|];
      match FindByName(regular, name)
      case None => None
      case Some(i) =>
        if !UnderCap(counts, regular[i], day, maxPerDay) then
          var alt := FindAlternativeSubject(regular, day, counts, maxPerDay);
          assert exists k :: (0 <= k < |regular| && regular[k] == alt &&
            (UnderCap(counts, regular[k], day, maxPerDay) || forall j :: 0 <= j < |regular| ==> !UnderCap(counts, regular[j], day, maxPerDay))) by {
            if forall j :: 0 <= j < |regular| ==> !UnderCap(counts, regular[j], day, maxPerDay) {
              assert regular[0] == alt;
            }
          }
          Some(alt)
        else
          Some(regular[i])
  }

  /** One pass of `fillRegularSubjects`' loop over the free cell `cell`. */
  function RegularStep(f: Fill, regular: seq<Subject>, pool: seq<string>, cell: Cell, periodsPerDay: nat, className: string): (r: Fill)
    requires FillReady(f, regular) && cell.day < f.run.ledger.days
    ensures FillReady(r, regular) && r.run.ledger.days == f.run.ledger.days
    ensures r.run.ledger.schedules.Keys == f.run.ledger.schedules.Keys && r.run.avail == f.run.avail
    ensures Balanced(f.run.ledger) ==> Balanced(r.run.ledger)
  {
    match RegularChoice(regular, pool, f.poolIndex, f.counts, cell.day, MaxPerDay(periodsPerDay))
    case None => f
    case Some(s) =>
      var g := PlaceRegularSubject(f, s, cell.day, cell.period, className);
      assert CountsReady(g.counts, regular) by {
        forall i | 0 <= i < |regular| ensures regular[i].name in g.counts && |g.counts[regular[i].name]| == CounterDays {
          if regular[i].name != s.name {
            assert g.counts[regular[i].name] == f.counts[regular[i].name];
          }
        }
      }
      g.(poolIndex := g.poolIndex + 1)
  }

  /** Every cell lies on a day of the ledger. */
  predicate CellsWithin(cells: seq<Cell>, days: nat) {
    forall k :: 0 <= k < |cells| ==> cells[k].day < days
  }

  /** The loop of `fillRegularSubjects` over `cells`, in order. */
  function FillCells(f: Fill, regular: seq<Subject>, pool: seq<string>, cells: seq<Cell>, periodsPerDay: nat, className: string): (r: Fill)
    requires FillReady(f, regular) && CellsWithin(cells, f.run.ledger.days)
    ensures FillReady(r, regular) && r.run.ledger.days == f.run.ledger.days
    ensures r.run.ledger.schedules.Keys == f.run.ledger.schedules.Keys && r.run.avail == f.run.avail
    ensures Balanced(f.run.ledger) ==> Balanced(r.run.ledger)
  {
    if |cells| == 0 then f
    else
      var mid := FillCells(f, regular, pool, cells[..|cells| - 1], periodsPerDay, className);
      RegularStep(mid, regular, pool, cells[|cells| - 1], periodsPerDay, className)
  }

  /** Every name in the pool is some regular subject's name. */
  predicate PoolNamesRegular(pool: seq<string>, regular: seq<Subject>) {
    forall x :: x in pool ==> NameOf(regular, x)
  }

  /** With a pool of regular names, one pass places exactly one entry, on the visited cell, and advances the pool. */
  lemma RegularStepPlaces(f: Fill, regular: seq<Subject>, pool: seq<string>, cell: Cell, periodsPerDay: nat, className: string)
    requires FillReady(f, regular) && cell.day < f.run.ledger.days
    requires |pool| > 0 && PoolNamesRegular(pool, regular)
    ensures multiset(ClassCells(RegularStep(f, regular, pool, cell, periodsPerDay, className).run.days)) ==
      multiset(ClassCells(f.run.days)) + multiset{cell}
    ensures RegularStep(f, regular, pool, cell, periodsPerDay, className).poolIndex == f.poolIndex + 1
  {
    assert pool[f.poolIndex % |pool|] in pool;
    var s := RegularChoice(regular, pool, f.poolIndex, f.counts, cell.day, MaxPerDay(periodsPerDay)).value;
    var staff := PickStaff(f.run, s, cell.day, cell.period);
    ClassCellsAppend(f.run.days, cell.day, Slot(cell.day, cell.period, s.name, staff, className));
  }

  /** With a pool of regular names, the loop places exactly one entry on each visited cell. */
  lemma {:induction false} FillCellsPlaces(f: Fill, regular: seq<Subject>, pool: seq<string>, cells: seq<Cell>, periodsPerDay: nat, className: string)
    requires FillReady(f, regular) && CellsWithin(cells, f.run.ledger.days)
    requires |pool| > 0 && PoolNamesRegular(pool, regular)
    ensures multiset(ClassCells(FillCells(f, regular, pool, cells, periodsPerDay, className).run.days)) ==
      multiset(ClassCells(f.run.days)) + multiset(cells)
    ensures FillCells(f, regular, pool, cells, periodsPerDay, className).poolIndex == f.poolIndex + |cells|
  {
    if |cells| > 0 {
      assert CellsWithin(cells[..|cells| - 1], f.run.ledger.days);
      FillCellsPlaces(f, regular, pool, cells[..|cells| - 1], periodsPerDay, className);
      FillCellsPlacesStep(f, regular, pool, cells, periodsPerDay, className);
    }
  }

  lemma FillCellsPlacesStep(f: Fill, regular: seq<Subject>, pool: seq<string>, cells: seq<Cell>, periodsPerDay: nat, className: string)
    requires FillReady(f, regular) && CellsWithin(cells, f.run.ledger.days) && |cells| > 0
    requires |pool| > 0 && PoolNamesRegular(pool, regular)
    requires CellsWithin(cells[..|cells| - 1], f.run.ledger.days)
    requires var mid := FillCells(f, regular, pool, cells[..|cells| - 1], periodsPerDay, className);
      multiset(ClassCells(mid.run.days)) == multiset(ClassCells(f.run.days)) + multiset(cells[..|cells| - 1]) &&
      mid.poolIndex == f.poolIndex + |cells| - 1
    ensures multiset(ClassCells(FillCells(f, regular, pool, cells, periodsPerDay, className).run.days)) ==
      multiset(ClassCells(f.run.days)) + multiset(cells)
    ensures FillCells(f, regular, pool, cells, periodsPerDay, className).poolIndex == f.poolIndex + |cells|
  {
    var init := cells[..|cells| - 1];
    var last := cells[|cells| - 1];
    var mid := FillCells(f, regular, pool, init, periodsPerDay, className);
    FillCellsLast(f, regular, pool, cells, periodsPerDay, className);
    RegularStepPlaces(mid, regular, pool, last, periodsPerDay, className);
    MultisetInit(cells);
  }

  /** The loop over a non-empty list of cells is the loop over all but the last, then one pass. */
  lemma FillCellsLast(f: Fill, regular: seq<Subject>, pool: seq<string>, cells: seq<Cell>, periodsPerDay: nat, className: string)
    requires FillReady(f, regular) && CellsWithin(cells, f.run.ledger.days) && |cells| > 0
    ensures CellsWithin(cells[..|cells| - 1], f.run.ledger.days)
    ensures var mid := FillCells(f, regular, pool, cells[..|cells| - 1], periodsPerDay, className);
      cells[|cells| - 1].day < mid.run.ledger.days &&
      FillCells(f, regular, pool, cells, periodsPerDay, className).run.days ==
        RegularStep(mid, regular, pool, cells[|cells| - 1], periodsPerDay, className).run.days &&
      FillCells(f, regular, pool, cells, periodsPerDay, className).poolIndex ==
        RegularStep(mid, regular, pool, cells[|cells| - 1], periodsPerDay, className).poolIndex
  {
  }

  /** With an empty pool every pass is skipped: the class, the ledger and the counters stay as they were. */
  lemma {:induction false} EmptyPoolPlacesNothing(f: Fill, regular: seq<Subject>, cells: seq<Cell>, periodsPerDay: nat, className: string)
    requires FillReady(f, regular) && CellsWithin(cells, f.run.ledger.days)
    ensures FillCells(f, regular, [], cells, periodsPerDay, className) == f
  {
    if |cells| > 0 {
      EmptyPoolPlacesNothing(f, regular, cells[..|cells| - 1], periodsPerDay, className);
    }
  }

  /** One pass adds at most one entry, and it names a regular subject. */
  lemma RegularStepAddsNamed(f: Fill, regular: seq<Subject>, pool: seq<string>, cell: Cell, periodsPerDay: nat, className: string)
    requires FillReady(f, regular) && cell.day < f.run.ledger.days
    ensures AddsNamed(f.run.days, RegularStep(f, regular, pool, cell, periodsPerDay, className).run.days, regular)
  {
    var choice := RegularChoice(regular, pool, f.poolIndex, f.counts, cell.day, MaxPerDay(periodsPerDay));
    if choice.Some? {
      var s := choice.value;
      var after := RegularStep(f, regular, pool, cell, periodsPerDay, className).run.days;
      var d0 := cell.day;
      assert after[d0] == f.run.days[d0] + [after[d0][|f.run.days[d0]|]];
      var i :| 0 <= i < |regular| && regular[i] == s;
      assert regular[i].name == after[d0][|f.run.days[d0]|].subject;
      assert NameOf(regular, after[d0][|f.run.days[d0]|].subject);
    }
  }

  /** The loop only adds entries, each naming a regular subject. */
  lemma {:induction false} FillCellsAddsNamed(f: Fill, regular: seq<Subject>, pool: seq<string>, cells: seq<Cell>, periodsPerDay: nat, className: string)
    requires FillReady(f, regular) && CellsWithin(cells, f.run.ledger.days)
    ensures AddsNamed(f.run.days, FillCells(f, regular, pool, cells, periodsPerDay, className).run.days, regular)
  {
    if |cells| > 0 {
      var init := cells[..|cells| - 1];
      assert CellsWithin(init, f.run.ledger.days);
      FillCellsAddsNamed(f, regular, pool, init, periodsPerDay, className);
      var mid := FillCells(f, regular, pool, init, periodsPerDay, className);
      FillCellsLast(f, regular, pool, cells, periodsPerDay, className);
      RegularStepAddsNamed(mid, regular, pool, cells[|cells| - 1], periodsPerDay, className);
      AddsNamedTrans(f.run.days, mid.run.days, FillCells(f, regular, pool, cells, periodsPerDay, className).run.days, regular);
    } else {
      assert AddsNamed(f.run.days, f.run.days, regular);
    }
  }

  /** What `fillRegularSubjects` asks of the class run it is given. */
  predicate FillInput(run: ClassRun, regular: seq<Subject>) {
    Shaped(run.ledger) && |run.days| == run.ledger.days && run.ledger.days <= CounterDays &&
    (forall i :: 0 <= i < |regular| ==> Known(run.ledger, regular[i].staff)) &&
    CellsWithin(run.avail, run.ledger.days)
  }

  /**
   * `fillRegularSubjects`: shuffles a copy of `availableSlots` (drawing from `rnd` at
   * `cursor`) and runs the loop over it from pool index 0 with fresh counters. The free
   * cells themselves are left as they were; the ledger stays balanced.
   */
  function FillRegularSubjects(run: ClassRun, regular: seq<Subject>, pool: seq<string>, periodsPerDay: nat, className: string,
                               rnd: Rng, cursor: nat): (r: Drawn<ClassRun>)
    requires Valid(rnd) && FillInput(run, regular)
    ensures |r.value.days| == |run.days| && r.value.avail == run.avail
    ensures Shaped(r.value.ledger) && r.value.ledger.days == run.ledger.days && r.value.ledger.schedules.Keys == run.ledger.schedules.Keys
    ensures Balanced(run.ledger) ==> Balanced(r.value.ledger)
    ensures r.next == cursor + (if |run.avail| == 0 then 0 else |run.avail| - 1)
  {
    var shuffled := Shuffle(run.avail, rnd, cursor);
    ShuffledWithin(run.avail, shuffled.value, run.ledger.days);
    var f := FillCells(Fill(run, InitCounts(regular), 0), regular, pool, shuffled.value, periodsPerDay, className);
    Drawn(f.run, shuffled.next)
  }

  /** A permutation of cells within the week stays within the week. */
  lemma ShuffledWithin(cells: seq<Cell>, shuffled: seq<Cell>, days: nat)
    requires CellsWithin(cells, days) && multiset(shuffled) == multiset(cells)
    ensures CellsWithin(shuffled, days)
  {
    forall k | 0 <= k < |shuffled| ensures shuffled[k].day < days {
      assert shuffled[k] in multiset(cells);
    }
  }

  /**
   * With a pool of regular names, the regular phase places exactly one entry on each cell
   * the lab phase left free: a class that covered the week's catalog with its entries and
   * its free cells ends with its entries alone covering it.
   */
  lemma FillCoversCatalog(run: ClassRun, regular: seq<Subject>, pool: seq<string>, periodsPerDay: nat, className: string,
                          rnd: Rng, cursor: nat, catalog: seq<Cell>)
    requires Valid(rnd) && FillInput(run, regular)
    requires |pool| > 0 && PoolNamesRegular(pool, regular) && Covers(run, catalog)
    ensures multiset(ClassCells(FillRegularSubjects(run, regular, pool, periodsPerDay, className, rnd, cursor).value.days)) == multiset(catalog)
  {
    var shuffled := Shuffle(run.avail, rnd, cursor);
    ShuffledWithin(run.avail, shuffled.value, run.ledger.days);
    FillCellsPlaces(Fill(run, InitCounts(regular), 0), regular, pool, shuffled.value, periodsPerDay, className);
  }

  /** The regular phase only adds entries, and each names a regular subject. */
  lemma FillAddsNamed(run: ClassRun, regular: seq<Subject>, pool: seq<string>, periodsPerDay: nat, className: string,
                        rnd: Rng, cursor: nat)
    requires Valid(rnd) && FillInput(run, regular)
    ensures AddsNamed(run.days, FillRegularSubjects(run, regular, pool, periodsPerDay, className, rnd, cursor).value.days, regular)
  {
    var shuffled := Shuffle(run.avail, rnd, cursor);
    ShuffledWithin(run.avail, shuffled.value, run.ledger.days);
    FillCellsAddsNamed(Fill(run, InitCounts(regular), 0), regular, pool, shuffled.value, periodsPerDay, className);
  }

  /** With an empty pool the regular phase changes nothing but the draws it consumes. */
  lemma EmptyPoolFillsNothing(run: ClassRun, regular: seq<Subject>, periodsPerDay: nat, className: string, rnd: Rng, cursor: nat)
    requires Valid(rnd) && FillInput(run, regular)
    ensures FillRegularSubjects(run, regular, [], periodsPerDay, className, rnd, cursor).value == run
  {
    var shuffled := Shuffle(run.avail, rnd, cursor);
    ShuffledWithin(run.avail, shuffled.value, run.ledger.days);
    EmptyPoolPlacesNothing(Fill(run, InitCounts(regular), 0), regular, shuffled.value, periodsPerDay, className);
  }
}
