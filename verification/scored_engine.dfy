/**
 * `generateTimetable` of the scored engine: validate the subjects, register their staff,
 * build one subject pool, then for each class place the labs, fill the remaining cells
 * from the pool and sort every day by period; finally sort every staff day.
 */
module ScoredEngine {
  import opened Wrappers
  import opened Text
  import opened Seqs
  import opened Oracle
  import opened Timetable
  import opened ScoredPool
  import opened ScoredLedger
  import opened ScoredLabs
  import opened ScoredFill
  import opened PeriodSort

  /** `GeneratorInput` of the scored engine. */
  datatype Input = Input(numClasses: nat, subjects: seq<Subject>, daysPerWeek: nat, periodsPerDay: nat)

  datatype ClassTimetable = ClassTimetable(className: string, schedule: seq<seq<Slot>>)
  datatype StaffTimetable = StaffTimetable(staffName: string, schedule: seq<seq<Slot>>)
  datatype TimetableData = TimetableData(classes: seq<ClassTimetable>, staff: seq<StaffTimetable>)

  /** Some entry of the staff list is not blank. */
  predicate HasTeacher(staff: seq<string>) {
    exists i :: 0 <= i < |staff| && !IsBlank(staff[i])
  }

  /** A subject the engine schedules: a non-blank name and at least one non-blank teacher. */
  predicate IsValid(s: Subject) {
    !IsBlank(s.name) && HasTeacher(s.staff)
  }

  /** `subjects.filter(...)` keeping the valid subjects, in order. */
  function ValidSubjects(subjects: seq<Subject>): (r: seq<Subject>)
    ensures forall s :: s in r <==> s in subjects && IsValid(s)
  {
    if |subjects| == 0 then []
    else ValidSubjects(subjects[..|subjects| - 1]) + (if IsValid(subjects[|subjects| - 1]) then [subjects[|subjects| - 1]] else [])
  }

  /** `validSubjects.filter(s => s.isLab)` */
  function Labs(subjects: seq<Subject>): (r: seq<Subject>)
    ensures forall s :: s in r <==> s in subjects && s.isLab
  {
    if |subjects| == 0 then []
    else Labs(subjects[..|subjects| - 1]) + (if subjects[|subjects| - 1].isLab then [subjects[|subjects| - 1]] else [])
  }

  /** `x` is a non-blank entry of some subject's staff list. */
  predicate Teaches(subjects: seq<Subject>, x: string) {
    !IsBlank(x) && exists i :: 0 <= i < |subjects| && x in subjects[i].staff
  }

  /** `seen` extended, in order, by the non-blank names of `names` it does not hold yet. */
  function AddStaff(seen: seq<string>, names: seq<string>): (r: seq<string>)
    requires Distinct(seen)
    ensures seen <= r && Distinct(r)
    ensures forall x :: x in r <==> x in seen || (x in names && !IsBlank(x))
  {
    if |names| == 0 then seen
    else
      var front := AddStaff(seen, names[..|names| - 1]);
      var x := names[|names| - 1];
      assert forall y :: y in names <==> y in names[..|names| - 1] || y == x;
      if IsBlank(x) || x in front then front else front + [x]
  }

  /** `AddStaff` keeps the first-seen order of the names it has been given so far. */
  lemma {:induction false} AddStaffOrder(seen: seq<string>, prior: seq<string>, names: seq<string>)
    requires Distinct(seen) && FirstSeenOrder(seen, prior)
    requires forall x :: x in seen <==> x in prior && !IsBlank(x)
    ensures FirstSeenOrder(AddStaff(seen, names), prior + names)
  {
    if |names| > 0 {
      var n := |names| - 1;
      var front := AddStaff(seen, names[..n]);
      var x := names[n];
      var before := prior + names[..n];
      AddStaffOrder(seen, prior, names[..n]);
      assert forall y :: y in front <==> y in before && !IsBlank(y);
      AppendOrder(front, before, x);
      if !IsBlank(x) && x !in front {
        assert x !in before;
      }
      assert before + [x] == prior + names;
    } else {
      assert prior + names == prior;
    }
  }

  /** A teacher is registered exactly when they are a non-blank staff entry. */
  lemma TeachesEntries(subjects: seq<Subject>)
    ensures forall x :: Teaches(subjects, x) <==> !IsBlank(x) && x in StaffEntries(subjects)
  {
  }

  /**
   * The `allStaff` set in insertion order: every non-blank teacher of every subject
   * (valid or not), each once, in order of first appearance. The staff map and the
   * returned staff timetables keep this order.
   */
  function StaffOrder(subjects: seq<Subject>): (r: seq<string>)
    ensures Distinct(r)
    ensures forall x :: x in r <==> Teaches(subjects, x)
    ensures FirstSeenOrder(r, StaffEntries(subjects))
  {
    if |subjects| == 0 then []
    else
      var init := subjects[..|subjects| - 1];
      var names := subjects[|subjects| - 1].staff;
      var front := StaffOrder(init);
      TeachesEntries(init);
      TeachesEntries(subjects);
      assert StaffEntries(subjects) == StaffEntries(init) + names;
      AddStaffOrder(front, StaffEntries(init), names);
      AddStaff(front, names)
  }

  /** `Class ${String.fromCharCode(65 + i)}` */
  function ClassName(i: nat): (r: string)
    requires 65 + i < 0xD800
    ensures |r| == 7 && r[..6] == "Class " && r[6] as int == 65 + i
  {
    "Class " + [FromCharCode(65 + i)]
  }

  /** Class names are distinct: `ClassName` is one-to-one. */
  lemma ClassNamesDistinct(i: nat, j: nat)
    requires 65 + i < 0xD800 && 65 + j < 0xD800 && i != j
    ensures ClassName(i) != ClassName(j)
  {
    assert ClassName(i)[6] != ClassName(j)[6];
  }

  /** The ledger the engine threads through the classes: balanced, over a fixed set of staff that knows every teacher. */
  predicate EngineLedger(l: Ledger, subjects: seq<Subject>, days: nat) {
    Balanced(l) && l.days == days && days <= CounterDays &&
    forall i :: 0 <= i < |subjects| ==> Known(l, subjects[i].staff)
  }

  /** A class before either phase: no entries, every cell of the week free. */
  function StartRun(days: nat, periodsPerDay: nat, ledger: Ledger): (r: ClassRun)
    requires days <= |DAYS|
    ensures |r.days| == days && forall d :: 0 <= d < days ==> r.days[d] == []
    ensures forall c :: c in r.avail <==> c.day < days && 1 <= c.period <= periodsPerDay
  {
    ClassRun(seq(days, d => []), Catalog(days, periodsPerDay, map[]), ledger)
  }

  /** The subjects a list of valid subjects feeds to each phase are teacher-known when the list is. */
  lemma PhasesReady(l: Ledger, valid: seq<Subject>, days: nat)
    requires EngineLedger(l, valid, days)
    ensures AllReady(l, Labs(valid))
    ensures forall i :: 0 <= i < |Regular(valid)| ==> Known(l, Regular(valid)[i].staff)
  {
    forall i | 0 <= i < |Labs(valid)| ensures Known(l, Labs(valid)[i].staff) {
      assert Labs(valid)[i] in valid;
    }
    forall i | 0 <= i < |Regular(valid)| ensures Known(l, Regular(valid)[i].staff) {
      assert Regular(valid)[i] in valid;
    }
  }

  /** The lab phase of one class, from the empty class. */
  function LabbedClass(valid: seq<Subject>, periodsPerDay: nat, className: string, ledger: Ledger): (r: ClassRun)
    requires EngineLedger(ledger, valid, ledger.days)
    ensures |r.days| == ledger.days && r.ledger.days == ledger.days && r.ledger.schedules.Keys == ledger.schedules.Keys
    ensures Balanced(r.ledger) && CellsWithin(r.avail, ledger.days)
    ensures FillInput(r, Regular(valid))
  {
    var run0 := StartRun(ledger.days, periodsPerDay, ledger);
    OrderedDistinct(run0.avail);
    PhasesReady(ledger, valid, ledger.days);
    var r := PlaceLaboratorySubjects(run0, Labs(valid), periodsPerDay, className);
    assert forall i :: 0 <= i < |Regular(valid)| ==> Known(r.ledger, Regular(valid)[i].staff);
    assert CellsWithin(r.avail, ledger.days) by {
      forall k | 0 <= k < |r.avail| ensures r.avail[k].day < ledger.days {
        assert r.avail[k] in run0.avail;
      }
    }
    r
  }

  /** Both phases for one class: the filled class (its days not yet sorted) and the next draw. */
  function FilledClass(valid: seq<Subject>, pool: seq<string>, periodsPerDay: nat, className: string,
                       ledger: Ledger, rnd: Rng, cursor: nat): (r: Drawn<ClassRun>)
    requires Valid(rnd) && EngineLedger(ledger, valid, ledger.days)
    ensures |r.value.days| == ledger.days
    ensures r.value.ledger.schedules.Keys == ledger.schedules.Keys && EngineLedger(r.value.ledger, valid, ledger.days)
  {
    var labbed := LabbedClass(valid, periodsPerDay, className, ledger);
    var r := FillRegularSubjects(labbed, Regular(valid), pool, periodsPerDay, className, rnd, cursor);
    assert forall i :: 0 <= i < |valid| ==> Known(r.value.ledger, valid[i].staff);
    r
  }

  /** The classes built so far, the shared ledger, and the next draw. */
  datatype Progress = Progress(classes: seq<ClassTimetable>, ledger: Ledger, next: nat)

  /** Every day of every class is in period order. */
  ghost predicate ClassesSorted(classes: seq<ClassTimetable>) {
    forall i, d :: 0 <= i < |classes| && 0 <= d < |classes[i].schedule| ==> SortedByPeriod(classes[i].schedule[d])
  }

  /** Each day of a schedule, sorted. */
  function SortedDays(days: seq<seq<Slot>>): (r: seq<seq<Slot>>)
    ensures |r| == |days| && forall d :: 0 <= d < |r| ==> SortedByPeriod(r[d])
    ensures forall d :: 0 <= d < |r| ==> multiset(r[d]) == multiset(days[d])
  {
    forall d | 0 <= d < |days| ensures SortedByPeriod(SortByPeriod(days[d])) && multiset(SortByPeriod(days[d])) == multiset(days[d]) {
      SortSorted(days[d]);
      SortPermutes(days[d]);
    }
    SortDays(days)
  }

  /**
   * The per-class loop for the first `n` classes: each class in turn gets its labs, its
   * regular fill and its sort, against the ledger the classes before it left. The ledger
   * stays balanced and keeps its staff; every class has one list per day, in period order.
   */
  function BuildClasses(n: nat, valid: seq<Subject>, pool: seq<string>, periodsPerDay: nat,
                        ledger: Ledger, rnd: Rng, cursor: nat): (r: Progress)
    requires Valid(rnd) && EngineLedger(ledger, valid, ledger.days) && 65 + n <= 0xD800
    ensures |r.classes| == n && EngineLedger(r.ledger, valid, ledger.days)
    ensures r.ledger.schedules.Keys == ledger.schedules.Keys
    ensures forall i :: 0 <= i < n ==> r.classes[i].className == ClassName(i) && |r.classes[i].schedule| == ledger.days
    ensures ClassesSorted(r.classes)
  {
    if n == 0 then Progress([], ledger, cursor)
    else
      var prev := BuildClasses(n - 1, valid, pool, periodsPerDay, ledger, rnd, cursor);
      var filled := FilledClass(valid, pool, periodsPerDay, ClassName(n - 1), prev.ledger, rnd, prev.next);
      var c := ClassTimetable(ClassName(n - 1), SortedDays(filled.value.days));
      ClassesSnoc(prev.classes, c, ledger.days);
      Progress(prev.classes + [c], filled.value.ledger, filled.next)
  }

  /** Appending class `Class X` at its place keeps the names, the day counts and the sorting. */
  lemma ClassesSnoc(classes: seq<ClassTimetable>, c: ClassTimetable, days: nat)
    requires 65 + |classes| < 0xD800
    requires forall i :: 0 <= i < |classes| ==> classes[i].className == ClassName(i) && |classes[i].schedule| == days
    requires ClassesSorted(classes)
    requires c.className == ClassName(|classes|) && |c.schedule| == days && forall d :: 0 <= d < days ==> SortedByPeriod(c.schedule[d])
    ensures forall i :: 0 <= i <= |classes| ==> (classes + [c])[i].className == ClassName(i) && |(classes + [c])[i].schedule| == days
    ensures ClassesSorted(classes + [c])
  {
    var r := classes + [c];
    forall i | 0 <= i <= |classes| ensures r[i].className == ClassName(i) && |r[i].schedule| == days {
      if i < |classes| {
        assert r[i] == classes[i];
      }
    }
    forall i, d | 0 <= i < |r| && 0 <= d < |r[i].schedule| ensures SortedByPeriod(r[i].schedule[d]) {
      if i < |classes| {
        assert r[i] == classes[i];
      }
    }
  }

  /** The staff timetables: each registered teacher, in registration order, with each day sorted. */
  function StaffTimetables(staff: seq<string>, l: Ledger): (r: seq<StaffTimetable>)
    requires forall i :: 0 <= i < |staff| ==> staff[i] in l.schedules
    ensures |r| == |staff|
    ensures forall i :: 0 <= i < |r| ==> (r[i].staffName == staff[i] &&
      |r[i].schedule| == |l.schedules[staff[i]]| &&
      forall d :: 0 <= d < |r[i].schedule| ==> (SortedByPeriod(r[i].schedule[d]) &&
        multiset(r[i].schedule[d]) == multiset(l.schedules[staff[i]][d])))
  {
    seq(|staff|, i requires 0 <= i < |staff| => StaffTimetable(staff[i], SortedDays(l.schedules[staff[i]])))
  }

  /** `daysPerWeek * periodsPerDay`: the number of cells of a class's week, the pool's length. */
  function WeekSize(days: nat, periodsPerDay: nat): nat {
    days * periodsPerDay
  }

  /** What `generateTimetable` asks of its input in this model (see the README's "Left out"). */
  predicate Admissible(input: Input) {
    input.daysPerWeek <= CounterDays && 65 + input.numClasses <= 0xD800
  }

  /** The registered staff: an empty, balanced ledger over every teacher named anywhere. */
  function StartLedger(input: Input): (l: Ledger)
    requires Admissible(input)
    ensures EngineLedger(l, input.subjects, input.daysPerWeek)
    ensures forall x :: x in l.schedules <==> Teaches(input.subjects, x)
  {
    var staff := StaffOrder(input.subjects);
    var l := Empty(input.daysPerWeek, set x | x in staff);
    assert forall i :: 0 <= i < |input.subjects| ==> Known(l, input.subjects[i].staff) by {
      forall i, c | 0 <= i < |input.subjects| && c in input.subjects[i].staff && !IsBlank(c) ensures c in l.schedules {
        assert Teaches(input.subjects, c);
      }
    }
    l
  }

  lemma ValidKnown(l: Ledger, subjects: seq<Subject>, days: nat)
    requires EngineLedger(l, subjects, days)
    ensures EngineLedger(l, ValidSubjects(subjects), days)
  {
    forall i | 0 <= i < |ValidSubjects(subjects)| ensures Known(l, ValidSubjects(subjects)[i].staff) {
      assert ValidSubjects(subjects)[i] in subjects;
    }
  }

  lemma NoValidIff(subjects: seq<Subject>)
    ensures |ValidSubjects(subjects)| == 0 <==> forall s :: s in subjects ==> !IsValid(s)
  {
    if |ValidSubjects(subjects)| > 0 {
      assert ValidSubjects(subjects)[0] in subjects;
    }
  }

  /** The classes are `Class A`, `Class B`, ..., each with one list per day, every day in period order. */
  ghost predicate ClassesShaped(classes: seq<ClassTimetable>, input: Input)
    requires Admissible(input)
  {
    |classes| == input.numClasses &&
    (forall i :: 0 <= i < input.numClasses ==>
      classes[i].className == ClassName(i) && |classes[i].schedule| == input.daysPerWeek) &&
    ClassesSorted(classes)
  }

  /** One timetable per teacher named by any subject, each once, with one list per day, every day in period order. */
  ghost predicate StaffShaped(staff: seq<StaffTimetable>, input: Input) {
    (forall x :: (exists i :: 0 <= i < |staff| && staff[i].staffName == x) <==> Teaches(input.subjects, x)) &&
    (forall i, j :: 0 <= i < j < |staff| ==> staff[i].staffName != staff[j].staffName) &&
    (forall i :: 0 <= i < |staff| ==>
      |staff[i].schedule| == input.daysPerWeek &&
      forall d :: 0 <= d < input.daysPerWeek ==> SortedByPeriod(staff[i].schedule[d]))
  }

  /** The state after the per-class loop for all classes, from a fresh ledger and the pool's draws. */
  function Run(input: Input, valid: seq<Subject>, rnd: Rng): (r: Progress)
    requires Valid(rnd) && Admissible(input) && valid == ValidSubjects(input.subjects)
    ensures ClassesShaped(r.classes, input)
    ensures forall x :: x in r.ledger.schedules <==> Teaches(input.subjects, x)
    ensures EngineLedger(r.ledger, input.subjects, input.daysPerWeek)
  {
    var ledger := StartLedger(input);
    ValidKnown(ledger, input.subjects, input.daysPerWeek);
    var pool := CreateSubjectPool(valid, WeekSize(input.daysPerWeek, input.periodsPerDay), rnd, 0);
    var r := BuildClasses(input.numClasses, valid, pool.value, input.periodsPerDay, ledger, rnd, pool.next);
    assert forall i :: 0 <= i < |input.subjects| ==> Known(r.ledger, input.subjects[i].staff) by {
      forall i | 0 <= i < |input.subjects| ensures Known(r.ledger, input.subjects[i].staff) {
        assert Known(ledger, input.subjects[i].staff);
      }
    }
    r
  }

  /** The output's staff list: every registered teacher in registration order. */
  function Staff(input: Input, l: Ledger): (r: seq<StaffTimetable>)
    requires forall x :: x in l.schedules <==> Teaches(input.subjects, x)
    requires Shaped(l) && l.days == input.daysPerWeek
    ensures StaffShaped(r, input)
    ensures |r| == |StaffOrder(input.subjects)| &&
      forall i :: 0 <= i < |r| ==> r[i].staffName == StaffOrder(input.subjects)[i]
  {
    var staff := StaffOrder(input.subjects);
    StaffListShaped(staff, l, input);
    StaffTimetables(staff, l)
  }

  /** The timetables of a repeat-free list of every teacher, over a shaped ledger, are shaped. */
  lemma StaffListShaped(staff: seq<string>, l: Ledger, input: Input)
    requires Shaped(l) && l.days == input.daysPerWeek
    requires Distinct(staff) && forall x :: x in staff <==> Teaches(input.subjects, x)
    requires forall x :: x in l.schedules <==> Teaches(input.subjects, x)
    ensures forall i :: 0 <= i < |staff| ==> staff[i] in l.schedules
    ensures StaffShaped(StaffTimetables(staff, l), input)
  {
    assert forall i :: 0 <= i < |staff| ==> staff[i] in l.schedules by {
      forall i | 0 <= i < |staff| ensures staff[i] in l.schedules {
        assert staff[i] in staff;
      }
    }
    var r := StaffTimetables(staff, l);
    forall x ensures (exists i :: 0 <= i < |r| && r[i].staffName == x) <==> Teaches(input.subjects, x) {
      if x in staff {
        var i :| 0 <= i < |staff| && staff[i] == x;
        assert r[i].staffName == x;
      }
    }
  }

  /**
   * `generateTimetable`. It fails with "No valid subjects provided" exactly when no subject
   * has a non-blank name and a non-blank teacher. Otherwise it returns the classes
   * `Class A`, `Class B`, ... with one sorted list per day, and one timetable per teacher
   * named by any subject, each once, with one sorted list per day.
   */
  function Generate(input: Input, rnd: Rng): (r: Result<TimetableData, string>)
    requires Valid(rnd) && Admissible(input)
    ensures r.Failure? <==> forall s :: s in input.subjects ==> !IsValid(s)
    ensures r.Failure? ==> r.error == "No valid subjects provided"
    ensures r.Success? ==> ClassesShaped(r.value.classes, input) && StaffShaped(r.value.staff, input)
    ensures r.Success? ==>
      && |r.value.staff| == |StaffOrder(input.subjects)|
      && forall i :: 0 <= i < |r.value.staff| ==> r.value.staff[i].staffName == StaffOrder(input.subjects)[i]
  {
    var valid := ValidSubjects(input.subjects);
    NoValidIff(input.subjects);
    if |valid| == 0 then Failure("No valid subjects provided")
    else
      var built := Run(input, valid, rnd);
      Success(TimetableData(built.classes, Staff(input, built.ledger)))
  }

  /** A schedule whose days are all empty occupies no cell. */
  lemma {:induction false} NoCells(days: seq<seq<Slot>>)
    requires forall d :: 0 <= d < |days| ==> days[d] == []
    ensures ClassCells(days) == []
  {
    if |days| > 0 {
      NoCells(days[..|days| - 1]);
    }
  }

  /** A name of a subject of `part`, when every subject of `part` is one of `whole`, is a name of `whole`. */
  lemma NamesWiden(part: seq<Subject>, whole: seq<Subject>)
    requires forall s :: s in part ==> s in whole
    ensures forall x :: NameOf(part, x) ==> NameOf(whole, x)
  {
    forall x | NameOf(part, x) ensures NameOf(whole, x) {
      var i :| 0 <= i < |part| && part[i].name == x;
      assert part[i] in whole;
      var j :| 0 <= j < |whole| && whole[j] == part[i];
    }
  }

  lemma SortedDaysCells(days: seq<seq<Slot>>)
    ensures multiset(ClassCells(SortedDays(days))) == multiset(ClassCells(days))
  {
    SortDaysCells(days);
  }

  /** Every entry both phases give one class names a valid subject. */
  lemma FilledNamed(valid: seq<Subject>, pool: seq<string>, periodsPerDay: nat, className: string,
                    ledger: Ledger, rnd: Rng, cursor: nat)
    requires Valid(rnd) && EngineLedger(ledger, valid, ledger.days)
    ensures var days := FilledClass(valid, pool, periodsPerDay, className, ledger, rnd, cursor).value.days;
      forall d, k :: 0 <= d < |days| && 0 <= k < |days[d]| ==> NameOf(valid, days[d][k].subject)
  {
    var run0 := StartRun(ledger.days, periodsPerDay, ledger);
    OrderedDistinct(run0.avail);
    PhasesReady(ledger, valid, ledger.days);
    var labbed := LabbedClass(valid, periodsPerDay, className, ledger);
    LabPhaseAddsNamed(run0, Labs(valid), periodsPerDay, className);
    NamesWiden(Labs(valid), valid);
    AddsNamedWiden(run0.days, labbed.days, Labs(valid), valid);
    FillAddsNamed(labbed, Regular(valid), pool, periodsPerDay, className, rnd, cursor);
    var filled := FillRegularSubjects(labbed, Regular(valid), pool, periodsPerDay, className, rnd, cursor);
    NamesWiden(Regular(valid), valid);
    AddsNamedWiden(labbed.days, filled.value.days, Regular(valid), valid);
    AddsNamedTrans(run0.days, labbed.days, filled.value.days, valid);
    forall d, k | 0 <= d < |filled.value.days| && 0 <= k < |filled.value.days[d]| ensures NameOf(valid, filled.value.days[d][k].subject) {
      assert NewEntriesNamed(run0.days[d], filled.value.days[d], valid);
    }
  }

  /** Every entry of every class built names a valid subject. */
  ghost predicate EntriesNamed(classes: seq<ClassTimetable>, valid: seq<Subject>) {
    forall i, d, x :: 0 <= i < |classes| && 0 <= d < |classes[i].schedule| && x in classes[i].schedule[d] ==>
      NameOf(valid, x.subject)
  }

  lemma {:induction false} BuildClassesNamed(n: nat, valid: seq<Subject>, pool: seq<string>, periodsPerDay: nat,
                                             ledger: Ledger, rnd: Rng, cursor: nat)
    requires Valid(rnd) && EngineLedger(ledger, valid, ledger.days) && 65 + n <= 0xD800
    ensures EntriesNamed(BuildClasses(n, valid, pool, periodsPerDay, ledger, rnd, cursor).classes, valid)
  {
    if n > 0 {
      var prev := BuildClasses(n - 1, valid, pool, periodsPerDay, ledger, rnd, cursor);
      BuildClassesNamed(n - 1, valid, pool, periodsPerDay, ledger, rnd, cursor);
      var filled := FilledClass(valid, pool, periodsPerDay, ClassName(n - 1), prev.ledger, rnd, prev.next);
      FilledNamed(valid, pool, periodsPerDay, ClassName(n - 1), prev.ledger, rnd, prev.next);
      var sorted := SortedDays(filled.value.days);
      forall d, x: Slot | 0 <= d < |sorted| && x in sorted[d] ensures NameOf(valid, x.subject) {
        assert x in multiset(filled.value.days[d]);
        var k :| 0 <= k < |filled.value.days[d]| && filled.value.days[d][k] == x;
      }
      var classes := prev.classes + [ClassTimetable(ClassName(n - 1), sorted)];
      assert BuildClasses(n, valid, pool, periodsPerDay, ledger, rnd, cursor).classes == classes;
      forall i, d, x | 0 <= i < |classes| && 0 <= d < |classes[i].schedule| && x in classes[i].schedule[d]
        ensures NameOf(valid, x.subject)
      {
        if i < n - 1 {
          assert classes[i] == prev.classes[i];
        }
      }
    }
  }

  lemma RunNamed(input: Input, valid: seq<Subject>, rnd: Rng)
    requires Valid(rnd) && Admissible(input) && valid == ValidSubjects(input.subjects)
    ensures EntriesNamed(Run(input, valid, rnd).classes, valid)
  {
    var ledger := StartLedger(input);
    ValidKnown(ledger, input.subjects, input.daysPerWeek);
    var pool := CreateSubjectPool(valid, WeekSize(input.daysPerWeek, input.periodsPerDay), rnd, 0);
    BuildClassesNamed(input.numClasses, valid, pool.value, input.periodsPerDay, ledger, rnd, pool.next);
  }

  /** Only valid subjects are scheduled: every class entry of a generated timetable names one. */
  lemma GeneratedEntriesValid(input: Input, rnd: Rng)
    requires Valid(rnd) && Admissible(input) && Generate(input, rnd).Success?
    ensures EntriesNamed(Generate(input, rnd).value.classes, ValidSubjects(input.subjects))
  {
    RunNamed(input, ValidSubjects(input.subjects), rnd);
  }

  /** The week a scored class is laid out on: every (day, period) of the grid, no breaks. */
  function Week(days: nat, periodsPerDay: nat): (r: seq<Cell>)
    requires days <= |DAYS|
    ensures forall c :: c in r <==> c.day < days && 1 <= c.period <= periodsPerDay
  {
    Catalog(days, periodsPerDay, map[])
  }

  /** Every cell of the week occurs in it exactly once. */
  lemma WeekOnce(days: nat, periodsPerDay: nat, c: Cell)
    requires days <= |DAYS|
    ensures multiset(Week(days, periodsPerDay))[c] == if c.day < days && 1 <= c.period <= periodsPerDay then 1 else 0
  {
    OrderedDistinct(Week(days, periodsPerDay));
    DistinctCount(Week(days, periodsPerDay), c);
  }

  lemma EmptyWeek(days: nat, periodsPerDay: nat)
    requires days <= |DAYS| && days * periodsPerDay == 0
    ensures Week(days, periodsPerDay) == []
  {
    var w := Week(days, periodsPerDay);
    if days > 0 {
      assert periodsPerDay == 0;
    }
    if |w| > 0 {
      FirstIn(w);
    }
  }

  /**
   * With at most one lab subject, a pool of regular names, and a pool that is not empty
   * unless the week is, both phases leave every cell of the week holding exactly one entry.
   */
  lemma FilledCovers(valid: seq<Subject>, pool: seq<string>, periodsPerDay: nat, className: string,
                     ledger: Ledger, rnd: Rng, cursor: nat)
    requires Valid(rnd) && EngineLedger(ledger, valid, ledger.days)
    requires |Labs(valid)| <= 1 && PoolNamesRegular(pool, Regular(valid))
    requires |pool| > 0 || ledger.days * periodsPerDay == 0
    ensures multiset(ClassCells(FilledClass(valid, pool, periodsPerDay, className, ledger, rnd, cursor).value.days)) ==
      multiset(Week(ledger.days, periodsPerDay))
  {
    var week := Week(ledger.days, periodsPerDay);
    var run0 := StartRun(ledger.days, periodsPerDay, ledger);
    OrderedDistinct(run0.avail);
    PhasesReady(ledger, valid, ledger.days);
    NoCells(run0.days);
    assert Covers(run0, week);
    SingleLabCovers(run0, Labs(valid), periodsPerDay, className, week);
    var labbed := LabbedClass(valid, periodsPerDay, className, ledger);
    if |pool| > 0 {
      FillCoversCatalog(labbed, Regular(valid), pool, periodsPerDay, className, rnd, cursor, week);
    } else {
      EmptyWeek(ledger.days, periodsPerDay);
      EmptyPoolFillsNothing(labbed, Regular(valid), periodsPerDay, className, rnd, cursor);
    }
  }

  /** Every class built holds exactly one entry in every cell of the week. */
  ghost predicate ClassesCover(classes: seq<ClassTimetable>, days: nat, periodsPerDay: nat)
    requires days <= |DAYS|
  {
    forall i :: 0 <= i < |classes| ==> multiset(ClassCells(classes[i].schedule)) == multiset(Week(days, periodsPerDay))
  }

  lemma {:induction false} BuildClassesCover(n: nat, valid: seq<Subject>, pool: seq<string>, periodsPerDay: nat,
                                             ledger: Ledger, rnd: Rng, cursor: nat)
    requires Valid(rnd) && EngineLedger(ledger, valid, ledger.days) && 65 + n <= 0xD800
    requires |Labs(valid)| <= 1 && PoolNamesRegular(pool, Regular(valid))
    requires |pool| > 0 || ledger.days * periodsPerDay == 0
    ensures ClassesCover(BuildClasses(n, valid, pool, periodsPerDay, ledger, rnd, cursor).classes, ledger.days, periodsPerDay)
  {
    if n > 0 {
      var prev := BuildClasses(n - 1, valid, pool, periodsPerDay, ledger, rnd, cursor);
      BuildClassesCover(n - 1, valid, pool, periodsPerDay, ledger, rnd, cursor);
      var filled := FilledClass(valid, pool, periodsPerDay, ClassName(n - 1), prev.ledger, rnd, prev.next);
      FilledCovers(valid, pool, periodsPerDay, ClassName(n - 1), prev.ledger, rnd, prev.next);
      SortedDaysCells(filled.value.days);
      var built := BuildClasses(n, valid, pool, periodsPerDay, ledger, rnd, cursor);
      forall i | 0 <= i < |built.classes|
        ensures multiset(ClassCells(built.classes[i].schedule)) == multiset(Week(ledger.days, periodsPerDay))
      {
        if i < n - 1 {
          assert built.classes[i] == prev.classes[i];
        } else {
          assert built.classes[i].schedule == SortedDays(filled.value.days);
        }
      }
    }
  }

  /** The pool built from the valid subjects holds only regular names, and `totalSlots` of them when there is a regular subject. */
  lemma PoolFromValid(valid: seq<Subject>, totalSlots: nat, rnd: Rng)
    requires Valid(rnd) && |Regular(valid)| > 0
    ensures PoolNamesRegular(CreateSubjectPool(valid, totalSlots, rnd, 0).value, Regular(valid))
    ensures |CreateSubjectPool(valid, totalSlots, rnd, 0).value| == totalSlots
  {
    var pool := CreateSubjectPool(valid, totalSlots, rnd, 0).value;
    forall x | x in pool ensures NameOf(Regular(valid), x) {
      var s :| s in valid && !s.isLab && s.name == x;
      assert s in Regular(valid);
      var i :| 0 <= i < |Regular(valid)| && Regular(valid)[i] == s;
    }
  }

  /**
   * With at most one lab subject and at least one regular subject among the valid ones,
   * every generated class holds exactly one entry in each (day, period) of the week.
   */
  lemma GeneratedCoverage(input: Input, rnd: Rng)
    requires Valid(rnd) && Admissible(input) && Generate(input, rnd).Success?
    requires |Labs(ValidSubjects(input.subjects))| <= 1 && |Regular(ValidSubjects(input.subjects))| > 0
    ensures forall i, c: Cell :: 0 <= i < input.numClasses ==>
      multiset(ClassCells(Generate(input, rnd).value.classes[i].schedule))[c] ==
        if c.day < input.daysPerWeek && 1 <= c.period <= input.periodsPerDay then 1 else 0
  {
    var valid := ValidSubjects(input.subjects);
    RunCovers(input, valid, rnd);
    assert Generate(input, rnd).value.classes == Run(input, valid, rnd).classes;
    WeekCounts(input.daysPerWeek, input.periodsPerDay);
  }

  /** With at most one lab and some regular subject, every class of the run covers the week. */
  lemma RunCovers(input: Input, valid: seq<Subject>, rnd: Rng)
    requires Valid(rnd) && Admissible(input) && valid == ValidSubjects(input.subjects)
    requires |Labs(valid)| <= 1 && |Regular(valid)| > 0
    ensures ClassesCover(Run(input, valid, rnd).classes, input.daysPerWeek, input.periodsPerDay)
  {
    var ledger := StartLedger(input);
    ValidKnown(ledger, input.subjects, input.daysPerWeek);
    var pool := CreateSubjectPool(valid, WeekSize(input.daysPerWeek, input.periodsPerDay), rnd, 0);
    PoolFromValid(valid, WeekSize(input.daysPerWeek, input.periodsPerDay), rnd);
    BuildClassesCover(input.numClasses, valid, pool.value, input.periodsPerDay, ledger, rnd, pool.next);
    assert Run(input, valid, rnd).classes == BuildClasses(input.numClasses, valid, pool.value, input.periodsPerDay, ledger, rnd, pool.next).classes;
  }

  /** Each cell of the week is listed once, and nothing else is. */
  lemma WeekCounts(days: nat, periodsPerDay: nat)
    requires days <= |DAYS|
    ensures forall c: Cell :: multiset(Week(days, periodsPerDay))[c] == if c.day < days && 1 <= c.period <= periodsPerDay then 1 else 0
  {
    forall c: Cell ensures multiset(Week(days, periodsPerDay))[c] == if c.day < days && 1 <= c.period <= periodsPerDay then 1 else 0 {
      WeekOnce(days, periodsPerDay, c);
    }
  }
}
