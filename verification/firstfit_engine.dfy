/**
 * `generateTimetable` of the first-fit engine: enumerate the classes, register every
 * teacher, then for each class list its free periods, shuffle the named subjects, place
 * the labs first-fit and fill the remaining periods; report every unstaffed slot.
 */
module FirstFitEngine {
  import opened Wrappers
  import opened Text
  import opened Seqs
  import opened Oracle
  import opened Timetable
  import opened FirstFitStaff
  import opened FirstFitLabs
  import opened FirstFitFill

  /** `GeneratorInput` of the first-fit engine, with `breakPeriods` defaulting to `{}`. */
  datatype Input = Input(departments: seq<string>, yearsPerDepartment: nat, sectionsPerYear: nat,
                         subjects: seq<Subject>, daysPerWeek: nat, periodsPerDay: nat,
                         breakPeriods: map<string, seq<int>>)

  /** A class's timetable: its schedule is one flat list of slots, as this engine fills it. */
  datatype ClassTimetable = ClassTimetable(className: string, department: string, year: nat, section: string, schedule: seq<Slot>)
  datatype StaffTimetable = StaffTimetable(staffName: string, schedule: seq<Slot>)
  datatype TimetableData = TimetableData(classes: seq<ClassTimetable>, staff: seq<StaffTimetable>, warnings: seq<Unassigned>)

  /** `String.fromCharCode(65 + sectionIndex)`: `A`, `B`, ... */
  function SectionLetter(sectionIndex: nat): (r: string)
    requires 65 + sectionIndex < 0xD800
    ensures |r| == 1 && r[0] as int == 65 + sectionIndex
  {
    [FromCharCode(65 + sectionIndex)]
  }

  /** `${dept} - Year ${year} - Section ${section}` */
  function ClassNameOf(dept: string, year: nat, section: string): string {
    dept + " - Year " + NatToString(year) + " - Section " + section
  }

  /** The class the three loops push for (`dept`, `year`, `sectionIndex`), with an empty schedule. */
  function NewClass(dept: string, year: nat, sectionIndex: nat): ClassTimetable
    requires 65 + sectionIndex < 0xD800
  {
    var section := SectionLetter(sectionIndex);
    ClassTimetable(ClassNameOf(dept, year, section), dept, year, section, [])
  }

  /** The innermost loop: sections `A`, `B`, ... of one year. */
  function SectionsOf(dept: string, year: nat, sections: nat): (r: seq<ClassTimetable>)
    requires 65 + sections <= 0xD800
    ensures |r| == sections && forall s :: 0 <= s < sections ==> r[s] == NewClass(dept, year, s)
  {
    seq(sections, s requires 0 <= s < sections => NewClass(dept, year, s))
  }

  /** `n` rows of `m` entries: `n * m`, counted row by row. */
  function Times(n: nat, m: nat): nat {
    if n == 0 then 0 else Times(n - 1, m) + m
  }

  /** Counting row by row is multiplying. */
  lemma {:induction false} TimesMul(n: nat, m: nat)
    ensures Times(n, m) == n * m
  {
    if n > 0 {
      TimesMul(n - 1, m);
    }
  }

  /** More rows hold more entries. */
  lemma {:induction false} TimesMono(x: nat, y: nat, m: nat)
    requires x <= y
    ensures Times(x, m) <= Times(y, m)
    decreases y - x
  {
    if x < y {
      TimesMono(x, y - 1, m);
    }
  }

  /** Entry `b` of row `a` in rows of `m` entries each. */
  function Row(a: nat, b: nat, m: nat): nat {
    Times(a, m) + b
  }

  /** Entry `b < m` of row `a < n` lies within the `n` rows. */
  lemma RowIndex(a: nat, b: nat, n: nat, m: nat)
    requires a < n && b < m
    ensures Row(a, b, m) < Times(n, m)
  {
    TimesMono(a + 1, n, m);
  }

  /** The middle loop: years `1 .. years` of one department, each with its sections. */
  function YearsOf(dept: string, years: nat, sections: nat): (r: seq<ClassTimetable>)
    requires 65 + sections <= 0xD800
    ensures |r| == Times(years, sections)
  {
    if years == 0 then [] else YearsOf(dept, years - 1, sections) + SectionsOf(dept, years, sections)
  }

  /** Class `y * S + s` of a department is its section `s` of year `y + 1`. */
  lemma {:induction false} YearsOfAt(dept: string, years: nat, sections: nat, y: nat, s: nat)
    requires 65 + sections <= 0xD800 && y < years && s < sections
    ensures Row(y, s, sections) < |YearsOf(dept, years, sections)|
    ensures YearsOf(dept, years, sections)[Row(y, s, sections)] == NewClass(dept, y + 1, s)
  {
    var front := YearsOf(dept, years - 1, sections);
    var last := SectionsOf(dept, years, sections);
    var r := YearsOf(dept, years, sections);
    assert r == front + last;
    RowIndex(y, s, years, sections);
    if y < years - 1 {
      YearsOfAt(dept, years - 1, sections, y, s);
      RowIndex(y, s, years - 1, sections);
      assert r[Row(y, s, sections)] == front[Row(y, s, sections)];
    } else {
      assert r[Row(y, s, sections)] == last[s];
    }
  }

  /** The class list of the three nested loops: department by department, year `1..Y`, section `A..`. */
  function ClassList(departments: seq<string>, years: nat, sections: nat): (r: seq<ClassTimetable>)
    requires 65 + sections <= 0xD800
    ensures |r| == Times(|departments|, Times(years, sections))
  {
    if |departments| == 0 then []
    else
      var n := |departments| - 1;
      ClassList(departments[..n], years, sections) + YearsOf(departments[n], years, sections)
  }

  /**
   * The loop order: class number `d * (Y * S) + y * S + s` is section `s` of year `y + 1`
   * of department `d`.
   */
  lemma {:induction false} ClassListAt(departments: seq<string>, years: nat, sections: nat, d: nat, y: nat, s: nat)
    requires 65 + sections <= 0xD800 && d < |departments| && y < years && s < sections
    ensures Row(d, Row(y, s, sections), Times(years, sections)) < |ClassList(departments, years, sections)|
    ensures ClassList(departments, years, sections)[Row(d, Row(y, s, sections), Times(years, sections))] ==
      NewClass(departments[d], y + 1, s)
  {
    var n := |departments| - 1;
    var size := Times(years, sections);
    var front := ClassList(departments[..n], years, sections);
    var last := YearsOf(departments[n], years, sections);
    var r := ClassList(departments, years, sections);
    assert r == front + last;
    var k := Row(y, s, sections);
    RowIndex(y, s, years, sections);
    RowIndex(d, k, |departments|, size);
    if d < n {
      ClassListAt(departments[..n], years, sections, d, y, s);
      RowIndex(d, k, n, size);
      assert departments[..n][d] == departments[d];
      assert r[Row(d, k, size)] == front[Row(d, k, size)];
    } else {
      YearsOfAt(departments[n], years, sections, y, s);
      assert r[Row(d, k, size)] == last[k];
    }
  }

  /** The number of classes is departments times years times sections. */
  lemma ClassCount(departments: seq<string>, years: nat, sections: nat)
    requires 65 + sections <= 0xD800
    ensures |ClassList(departments, years, sections)| == |departments| * (years * sections)
  {
    TimesMul(years, sections);
    TimesMul(|departments|, years * sections);
  }

  /** `s.staff.filter(Boolean)` keeps the non-empty names. */
  predicate Named(x: string) {
    x != ""
  }

  /** `x` is a non-empty entry of some subject's staff list. */
  predicate Listed(subjects: seq<Subject>, x: string) {
    x != "" && exists i :: 0 <= i < |subjects| && x in subjects[i].staff
  }

  /** `seen` extended, in order, by the non-empty names of `names` it does not hold yet. */
  function AddNames(seen: seq<string>, names: seq<string>): (r: seq<string>)
    requires Distinct(seen)
    ensures seen <= r && Distinct(r)
    ensures forall x :: x in r <==> x in seen || (x in names && x != "")
  {
    if |names| == 0 then seen
    else
      var front := AddNames(seen, names[..|names| - 1]);
      var x := names[|names| - 1];
      assert forall y :: y in names <==> y in names[..|names| - 1] || y == x;
      if x == "" || x in front then front else front + [x]
  }

  /** `AddNames` keeps the first-seen order of the names it has been given so far. */
  lemma {:induction false} AddNamesOrder(seen: seq<string>, prior: seq<string>, names: seq<string>)
    requires Distinct(seen) && FirstSeenOrder(seen, prior)
    requires forall x :: x in seen <==> x in prior && x != ""
    ensures FirstSeenOrder(AddNames(seen, names), prior + names)
  {
    if |names| > 0 {
      var n := |names| - 1;
      var front := AddNames(seen, names[..n]);
      var x := names[n];
      var before := prior + names[..n];
      AddNamesOrder(seen, prior, names[..n]);
      assert forall y :: y in front <==> y in before && y != "";
      AppendOrder(front, before, x);
      if x != "" && x !in front {
        assert x !in before;
      }
      assert before + [x] == prior + names;
    } else {
      assert prior + names == prior;
    }
  }

  /**
   * The `allStaff` set in insertion order: every non-empty teacher of every subject,
   * each once, in order of first appearance.
   */
  function Roster(subjects: seq<Subject>): (r: seq<string>)
    ensures Distinct(r)
    ensures forall x :: x in r <==> Listed(subjects, x)
    ensures FirstSeenOrder(r, StaffEntries(subjects))
  {
    if |subjects| == 0 then []
    else
      var init := subjects[..|subjects| - 1];
      var names := subjects[|subjects| - 1].staff;
      var front := Roster(init);
      ListedEntries(init);
      ListedEntries(subjects);
      assert StaffEntries(subjects) == StaffEntries(init) + names;
      AddNamesOrder(front, StaffEntries(init), names);
      AddNames(front, names)
  }

  /** A teacher is listed exactly when they are a non-empty staff entry. */
  lemma ListedEntries(subjects: seq<Subject>)
    ensures forall x :: Listed(subjects, x) <==> x != "" && x in StaffEntries(subjects)
  {
  }

  /** `staffSchedules` after registration: an empty schedule for every listed teacher. */
  function StartStaff(subjects: seq<Subject>): (m: Schedules)
    ensures forall x :: x in m <==> Listed(subjects, x)
    ensures forall x :: x in m ==> m[x] == []
  {
    map x | x in Roster(subjects) :: []
  }

  /** `s.name.trim()` is truthy. */
  predicate HasName(s: Subject) {
    !IsBlank(s.name)
  }

  predicate IsLab(s: Subject) {
    s.isLab
  }

  predicate IsRegular(s: Subject) {
    !s.isLab
  }

  /** The state the class loop threads: the classes done, the shared staff schedules and warnings, and the draws used. */
  datatype Engine = Engine(classes: seq<ClassTimetable>, staff: Schedules, warnings: seq<Unassigned>, next: nat)

  /** The subjects of one class's pass, shuffled from the stream at `cursor`. */
  function Shuffled(subjects: seq<Subject>, rnd: Rng, cursor: nat): (r: Drawn<seq<Subject>>)
    requires Valid(rnd)
    ensures forall s :: s in r.value <==> s in subjects && HasName(s)
    ensures multiset(r.value) == multiset(Filter(subjects, HasName))
    ensures r.next == cursor + (if |Filter(subjects, HasName)| == 0 then 0 else |Filter(subjects, HasName)| - 1)
  {
    var named := Filter(subjects, HasName);
    var r := Shuffle(named, rnd, cursor);
    assert forall s :: s in r.value <==> s in named by {
      forall s ensures s in r.value <==> s in named {
        assert s in r.value <==> multiset(r.value)[s] > 0;
        assert s in named <==> multiset(named)[s] > 0;
      }
    }
    r
  }

  /** A class before either loop: no slots, every non-break period of the week free. */
  function ClassStart(e: Engine, catalog: seq<Cell>): Run {
    Run([], catalog, e.staff, e.warnings)
  }

  /** One class after the lab loop, over the labs of its shuffled subjects. */
  function Labbed(e: Engine, input: Input, catalog: seq<Cell>, subjects: seq<Subject>, className: string): (r: Run)
    requires Distinct(catalog)
    ensures r.staff.Keys == e.staff.Keys
  {
    PlaceLabs(ClassStart(e, catalog), input.breakPeriods, Filter(subjects, IsLab), input.daysPerWeek, input.periodsPerDay, className)
  }

  /** One class after the regular loop, which draws from the stream just after the shuffle's draws. */
  function Filled(e: Engine, input: Input, catalog: seq<Cell>, rnd: Rng, c: ClassTimetable): (r: Result<Drawn<Run>, string>)
    requires Valid(rnd) && Distinct(catalog)
    ensures r.Success? ==> r.value.value.staff.Keys == e.staff.Keys
    ensures r.Failure? ==> r.error == NoSubjectError && forall s :: s in input.subjects && HasName(s) ==> s.isLab
  {
    var shuffled := Shuffled(input.subjects, rnd, e.next);
    var labbed := Labbed(e, input, catalog, shuffled.value, c.className);
    var regular := Filter(shuffled.value, IsRegular);
    var r := FillRegular(labbed, regular, rnd, shuffled.next, c.className);
    assert r.Failure? ==> forall s :: s in input.subjects && HasName(s) ==> s.isLab by {
      if r.Failure? {
        forall s | s in input.subjects && HasName(s) ensures s.isLab {
          assert s in shuffled.value;
          assert s !in regular;
        }
      }
    }
    r
  }

  /** `a` is the class `b` with some schedule: same name, department, year and section. */
  predicate SameClass(a: ClassTimetable, b: ClassTimetable) {
    a.className == b.className && a.department == b.department && a.year == b.year && a.section == b.section
  }

  /** The classes are the blank classes, in order, each with some schedule. */
  predicate Matches(classes: seq<ClassTimetable>, blank: seq<ClassTimetable>) {
    |classes| == |blank| && forall i :: 0 <= i < |classes| ==> SameClass(classes[i], blank[i])
  }

  lemma MatchesSnoc(classes: seq<ClassTimetable>, x: ClassTimetable, blank: seq<ClassTimetable>)
    requires |blank| > 0 && Matches(classes, blank[..|blank| - 1]) && SameClass(x, blank[|blank| - 1])
    ensures Matches(classes + [x], blank)
  {
    forall i | 0 <= i < |classes| + 1 ensures SameClass((classes + [x])[i], blank[i]) {
      if i < |classes| {
        assert blank[..|blank| - 1][i] == blank[i];
      }
    }
  }

  /** One pass of the class loop: the class `c` gets its filled schedule, or the generation throws. */
  function ClassPass(e: Engine, input: Input, catalog: seq<Cell>, rnd: Rng, c: ClassTimetable): (r: Result<Engine, string>)
    requires Valid(rnd) && Distinct(catalog)
    ensures r.Success? ==> (r.value.staff.Keys == e.staff.Keys && |r.value.classes| == |e.classes| + 1 &&
      r.value.classes == e.classes + [r.value.classes[|e.classes|]] && SameClass(r.value.classes[|e.classes|], c))
    ensures r.Failure? ==> r.error == NoSubjectError && forall s :: s in input.subjects && HasName(s) ==> s.isLab
  {
    var filled := Filled(e, input, catalog, rnd, c);
    if filled.Failure? then Failure(filled.error)
    else
      var done := filled.value.value;
      Success(Engine(e.classes + [c.(schedule := done.schedule)], done.staff, done.warnings, filled.value.next))
  }

  /** The class loop over `blank`, in order, from freshly registered staff and the first draw. */
  function BuildClasses(blank: seq<ClassTimetable>, input: Input, catalog: seq<Cell>, rnd: Rng): (r: Result<Engine, string>)
    requires Valid(rnd) && Distinct(catalog)
    ensures r.Success? ==> r.value.staff.Keys == StartStaff(input.subjects).Keys && Matches(r.value.classes, blank)
    ensures r.Failure? ==> r.error == NoSubjectError && forall s :: s in input.subjects && HasName(s) ==> s.isLab
  {
    if |blank| == 0 then Success(Engine([], StartStaff(input.subjects), [], 0))
    else
      var n := |blank| - 1;
      var prev := BuildClasses(blank[..n], input, catalog, rnd);
      if prev.Failure? then prev
      else
        var r := ClassPass(prev.value, input, catalog, rnd, blank[n]);
        if r.Success? then
          MatchesSnoc(prev.value.classes, r.value.classes[n], blank);
          r
        else r
  }

  /** The output's staff list: every registered teacher, in registration order, with their schedule. */
  function StaffTimetables(roster: seq<string>, m: Schedules): (r: seq<StaffTimetable>)
    requires forall i :: 0 <= i < |roster| ==> roster[i] in m
    ensures |r| == |roster| && forall i :: 0 <= i < |r| ==> r[i].staffName == roster[i] && r[i].schedule == m[roster[i]]
  {
    seq(|roster|, i requires 0 <= i < |roster| => StaffTimetable(roster[i], m[roster[i]]))
  }

  /** What the model asks of the input: at most five days, and section letters below the surrogate range. */
  predicate Admissible(input: Input) {
    input.daysPerWeek <= |DAYS| && 65 + input.sectionsPerYear <= 0xD800
  }

  /** The free periods every class starts from. */
  function Week(input: Input): (r: seq<Cell>)
    requires Admissible(input)
    ensures Distinct(r)
    ensures forall c :: c in r <==> (c.day < input.daysPerWeek && 1 <= c.period <= input.periodsPerDay &&
      !IsBreak(input.breakPeriods, c.day, c.period))
  {
    var r := Catalog(input.daysPerWeek, input.periodsPerDay, input.breakPeriods);
    OrderedDistinct(r);
    r
  }

  /** Some subject with a non-blank name is not a lab. */
  predicate HasRegular(subjects: seq<Subject>) {
    exists s :: s in subjects && HasName(s) && !s.isLab
  }

  /**
   * `generateTimetable`. It throws only when no named subject is a regular one (and then
   * with the message of reading `staff` of `undefined`); otherwise it returns one class per
   * department, year and section in loop order, and one timetable per registered teacher
   * in registration order.
   */
  function Generate(input: Input, rnd: Rng): (r: Result<TimetableData, string>)
    requires Valid(rnd) && Admissible(input)
    ensures HasRegular(input.subjects) ==> r.Success?
    ensures r.Failure? ==> r.error == NoSubjectError
    ensures r.Success? ==> |r.value.classes| == |input.departments| * (input.yearsPerDepartment * input.sectionsPerYear)
    ensures r.Success? ==> Matches(r.value.classes, ClassList(input.departments, input.yearsPerDepartment, input.sectionsPerYear))
    ensures r.Success? ==> (|r.value.staff| == |Roster(input.subjects)| &&
      forall i :: 0 <= i < |r.value.staff| ==> r.value.staff[i].staffName == Roster(input.subjects)[i])
  {
    var blank := ClassList(input.departments, input.yearsPerDepartment, input.sectionsPerYear);
    ClassCount(input.departments, input.yearsPerDepartment, input.sectionsPerYear);
    var built := BuildClasses(blank, input, Week(input), rnd);
    if built.Failure? then Failure(built.error)
    else
      var roster := Roster(input.subjects);
      Success(TimetableData(built.value.classes, StaffTimetables(roster, built.value.staff), built.value.warnings))
  }

  /** Every class's slots cover the catalog: each non-break cell of the week exactly once, and nothing else. */
  ghost predicate ClassesCover(classes: seq<ClassTimetable>, catalog: seq<Cell>) {
    forall i :: 0 <= i < |classes| ==> Occupied(classes[i].schedule) == multiset(catalog)
  }

  /** A successful pass gives its class one slot on each cell of the catalog. */
  lemma ClassPassCovers(e: Engine, input: Input, catalog: seq<Cell>, rnd: Rng, c: ClassTimetable)
    requires Valid(rnd) && Distinct(catalog)
    ensures var r := ClassPass(e, input, catalog, rnd, c);
      r.Success? ==> Occupied(r.value.classes[|e.classes|].schedule) == multiset(catalog)
  {
    var shuffled := Shuffled(input.subjects, rnd, e.next);
    var start := ClassStart(e, catalog);
    assert Covers(start, catalog) by {
      assert Occupied(start.schedule) == multiset{};
    }
    PlaceLabsCovers(start, input.breakPeriods, Filter(shuffled.value, IsLab), input.daysPerWeek, input.periodsPerDay, c.className, catalog);
    var labbed := Labbed(e, input, catalog, shuffled.value, c.className);
    FillRegularCovers(labbed, Filter(shuffled.value, IsRegular), rnd, shuffled.next, c.className, catalog);
  }

  /** The class loop gives every class one slot on each cell of the catalog. */
  lemma {:induction false} BuildCovers(blank: seq<ClassTimetable>, input: Input, catalog: seq<Cell>, rnd: Rng)
    requires Valid(rnd) && Distinct(catalog)
    ensures var r := BuildClasses(blank, input, catalog, rnd);
      r.Success? ==> ClassesCover(r.value.classes, catalog)
  {
    if |blank| > 0 {
      var n := |blank| - 1;
      var prev := BuildClasses(blank[..n], input, catalog, rnd);
      BuildCovers(blank[..n], input, catalog, rnd);
      if prev.Success? {
        ClassPassCovers(prev.value, input, catalog, rnd, blank[n]);
        var r := ClassPass(prev.value, input, catalog, rnd, blank[n]);
        if r.Success? {
          CoverSnoc(prev.value.classes, r.value.classes[n], r.value.classes, catalog);
        }
      }
    }
  }

  /** One more covering class keeps every class covering. */
  lemma CoverSnoc(front: seq<ClassTimetable>, last: ClassTimetable, classes: seq<ClassTimetable>, catalog: seq<Cell>)
    requires ClassesCover(front, catalog) && classes == front + [last]
    requires Occupied(last.schedule) == multiset(catalog)
    ensures ClassesCover(classes, catalog)
  {
    forall i | 0 <= i < |classes| ensures Occupied(classes[i].schedule) == multiset(catalog) {
      if i < |front| {
        assert classes[i] == front[i];
      }
    }
  }

  /**
   * Coverage: in every generated class each non-break period of the week holds exactly
   * one slot, and no other cell holds any. Labs therefore never overlap each other or a
   * regular slot.
   */
  lemma GeneratedCoverage(input: Input, rnd: Rng, i: nat, c: Cell)
    requires Valid(rnd) && Admissible(input)
    requires Generate(input, rnd).Success? && i < |Generate(input, rnd).value.classes|
    ensures Occupied(Generate(input, rnd).value.classes[i].schedule)[c] ==
      if c.day < input.daysPerWeek && 1 <= c.period <= input.periodsPerDay && !IsBreak(input.breakPeriods, c.day, c.period) then 1 else 0
  {
    var blank := ClassList(input.departments, input.yearsPerDepartment, input.sectionsPerYear);
    BuildCovers(blank, input, Week(input), rnd);
    DistinctCount(Week(input), c);
  }

  /** Every teacher's slots: the copies of the class slots that name them, class by class. */
  function AllMirrors(classes: seq<ClassTimetable>, s: string): seq<Slot> {
    if |classes| == 0 then [] else AllMirrors(classes[..|classes| - 1], s) + MirrorsOf(classes[|classes| - 1].schedule, s)
  }

  /** The warnings of all the unstaffed class slots, class by class. */
  function AllUnstaffed(classes: seq<ClassTimetable>): seq<Unassigned> {
    if |classes| == 0 then [] else AllUnstaffed(classes[..|classes| - 1]) + Unstaffed(classes[|classes| - 1].schedule)
  }

  /** The staff schedules and warnings are exactly what the class slots determine. */
  ghost predicate InStep(e: Engine) {
    (forall s :: s in e.staff ==> e.staff[s] == AllMirrors(e.classes, s)) && e.warnings == AllUnstaffed(e.classes)
  }

  /** A successful pass extends every staff schedule by its copies of the new class's slots, and the warnings by its unstaffed ones. */
  lemma ClassPassTracked(e: Engine, input: Input, catalog: seq<Cell>, rnd: Rng, c: ClassTimetable)
    requires Valid(rnd) && Distinct(catalog) && UnassignedStaff !in e.staff
    ensures var r := ClassPass(e, input, catalog, rnd, c);
      r.Success? ==> (
        var x := r.value.classes[|e.classes|].schedule;
        (forall s :: s in e.staff ==> r.value.staff[s] == e.staff[s] + MirrorsOf(x, s)) &&
        r.value.warnings == e.warnings + Unstaffed(x))
  {
    var shuffled := Shuffled(input.subjects, rnd, e.next);
    var start := ClassStart(e, catalog);
    PlaceLabsTracked(start, input.breakPeriods, Filter(shuffled.value, IsLab), input.daysPerWeek, input.periodsPerDay, c.className);
    var labbed := Labbed(e, input, catalog, shuffled.value, c.className);
    var filled := FillRegular(labbed, Filter(shuffled.value, IsRegular), rnd, shuffled.next, c.className);
    FillRegularTracked(labbed, Filter(shuffled.value, IsRegular), rnd, shuffled.next, c.className);
    if filled.Success? {
      TrackedTrans(start, labbed, filled.value.value);
      assert filled.value.value.schedule[|start.schedule|..] == filled.value.value.schedule;
    }
  }

  /** The class loop keeps the staff schedules and warnings in step with the classes. */
  lemma {:induction false} BuildInStep(blank: seq<ClassTimetable>, input: Input, catalog: seq<Cell>, rnd: Rng)
    requires Valid(rnd) && Distinct(catalog) && !Listed(input.subjects, UnassignedStaff)
    ensures var r := BuildClasses(blank, input, catalog, rnd);
      r.Success? ==> InStep(r.value)
  {
    if |blank| > 0 {
      var n := |blank| - 1;
      var prev := BuildClasses(blank[..n], input, catalog, rnd);
      BuildInStep(blank[..n], input, catalog, rnd);
      if prev.Success? {
        ClassPassTracked(prev.value, input, catalog, rnd, blank[n]);
        var r := ClassPass(prev.value, input, catalog, rnd, blank[n]);
        if r.Success? {
          InStepExtend(prev.value, r.value, r.value.classes[|prev.value.classes|].schedule);
        }
      }
    }
  }

  /** Adding a class whose slots are mirrored to their teachers and warned about when unstaffed keeps the engine in step. */
  lemma InStepExtend(e: Engine, r: Engine, x: seq<Slot>)
    requires InStep(e) && r.staff.Keys == e.staff.Keys
    requires |r.classes| == |e.classes| + 1 && r.classes == e.classes + [r.classes[|e.classes|]] && r.classes[|e.classes|].schedule == x
    requires forall s :: s in e.staff ==> r.staff[s] == e.staff[s] + MirrorsOf(x, s)
    requires r.warnings == e.warnings + Unstaffed(x)
    ensures InStep(r)
  {
    assert r.classes[..|r.classes| - 1] == e.classes;
    forall s | s in r.staff ensures r.staff[s] == AllMirrors(r.classes, s) {
      var p, q := AllMirrors(e.classes, s), MirrorsOf(x, s);
      assert AllMirrors(r.classes, s) == p + q;
    }
  }

  /**
   * Mirroring: each teacher's timetable holds, class by class and in order, a copy of every
   * class slot that names them, labelled `subject (className)`, and nothing else; the
   * warnings are the unstaffed class slots, class by class and in order. This needs that
   * no teacher is literally called "Unassigned".
   */
  lemma GeneratedInStep(input: Input, rnd: Rng)
    requires Valid(rnd) && Admissible(input) && !Listed(input.subjects, UnassignedStaff)
    ensures var r := Generate(input, rnd);
      r.Success? ==> (
        (forall k :: 0 <= k < |r.value.staff| ==> r.value.staff[k].schedule == AllMirrors(r.value.classes, r.value.staff[k].staffName)) &&
        r.value.warnings == AllUnstaffed(r.value.classes))
  {
    var blank := ClassList(input.departments, input.yearsPerDepartment, input.sectionsPerYear);
    BuildInStep(blank, input, Week(input), rnd);
  }

  /** Slot `k` of class `i` is unstaffed and `w` is its warning. */
  predicate WarnsAbout(classes: seq<ClassTimetable>, i: nat, k: nat, w: Unassigned)
    requires i < |classes| && k < |classes[i].schedule|
  {
    var x := classes[i].schedule[k];
    x.staff == UnassignedStaff && w == Unassigned(x.className, x.day, x.period)
  }

  /** Some class has an unstaffed slot that `w` describes. */
  ghost predicate Warned(classes: seq<ClassTimetable>, w: Unassigned) {
    exists i, k :: 0 <= i < |classes| && 0 <= k < |classes[i].schedule| && WarnsAbout(classes, i, k, w)
  }

  /** A warning is listed exactly when some class has an unstaffed slot it describes. */
  lemma {:induction false} AllUnstaffedMembers(classes: seq<ClassTimetable>, w: Unassigned)
    ensures w in AllUnstaffed(classes) <==>
      exists i, k :: 0 <= i < |classes| && 0 <= k < |classes[i].schedule| && WarnsAbout(classes, i, k, w)
  {
    if |classes| > 0 {
      var n := |classes| - 1;
      AllUnstaffedMembers(classes[..n], w);
      UnstaffedMembers(classes[n].schedule, w);
      WarnedSnoc(classes, w);
    }
  }

  /** Warnings about a list of classes: those about all but the last, and those about the last. */
  lemma WarnedSnoc(classes: seq<ClassTimetable>, w: Unassigned)
    requires |classes| > 0
    ensures var n := |classes| - 1; var last := classes[n].schedule;
      Warned(classes, w) <==> (Warned(classes[..n], w) ||
        exists k :: 0 <= k < |last| && last[k].staff == UnassignedStaff && w == Unassigned(last[k].className, last[k].day, last[k].period))
  {
    var n := |classes| - 1;
    var init := classes[..n];
    var last := classes[n].schedule;
    if Warned(init, w) {
      var i, k :| 0 <= i < |init| && 0 <= k < |init[i].schedule| && WarnsAbout(init, i, k, w);
      assert init[i] == classes[i];
      assert WarnsAbout(classes, i, k, w);
    }
    if exists k :: 0 <= k < |last| && last[k].staff == UnassignedStaff && w == Unassigned(last[k].className, last[k].day, last[k].period) {
      var k :| 0 <= k < |last| && last[k].staff == UnassignedStaff && w == Unassigned(last[k].className, last[k].day, last[k].period);
      assert WarnsAbout(classes, n, k, w);
    }
    if Warned(classes, w) {
      var i, k :| 0 <= i < |classes| && 0 <= k < |classes[i].schedule| && WarnsAbout(classes, i, k, w);
      if i < n {
        assert init[i] == classes[i];
        assert WarnsAbout(init, i, k, w);
      }
    }
  }

  /**
   * Warnings: a generated warning is listed exactly when some class slot is unstaffed
   * and the warning names its class, day and period.
   */
  lemma GeneratedWarnings(input: Input, rnd: Rng, w: Unassigned)
    requires Valid(rnd) && Admissible(input) && !Listed(input.subjects, UnassignedStaff)
    requires Generate(input, rnd).Success?
    ensures var classes := Generate(input, rnd).value.classes;
      w in Generate(input, rnd).value.warnings <==>
        exists i, k :: 0 <= i < |classes| && 0 <= k < |classes[i].schedule| && WarnsAbout(classes, i, k, w)
  {
    GeneratedInStep(input, rnd);
    AllUnstaffedMembers(Generate(input, rnd).value.classes, w);
  }

  /** With no named subject at all, the first class finds its free periods and nothing to fill them with. */
  lemma {:induction false} NothingToTeach(blank: seq<ClassTimetable>, input: Input, catalog: seq<Cell>, rnd: Rng)
    requires Valid(rnd) && Distinct(catalog) && |catalog| > 0 && |blank| > 0
    requires forall s :: s in input.subjects ==> !HasName(s)
    ensures BuildClasses(blank, input, catalog, rnd).Failure?
  {
    var n := |blank| - 1;
    if n > 0 {
      NothingToTeach(blank[..n], input, catalog, rnd);
    } else {
      var e := Engine([], StartStaff(input.subjects), [], 0);
      var shuffled := Shuffled(input.subjects, rnd, e.next);
      if |shuffled.value| > 0 {
        FirstIn(shuffled.value);
      }
      assert Filter(shuffled.value, IsLab) == [] && Filter(shuffled.value, IsRegular) == [];
      assert Labbed(e, input, catalog, shuffled.value, blank[n].className) == ClassStart(e, catalog);
    }
  }

  /**
   * When no subject has a non-blank name, any input with a class and a free period throws;
   * with a named regular subject it never does (`Generate`'s contract).
   */
  lemma NoNamedSubjectFails(input: Input, rnd: Rng)
    requires Valid(rnd) && Admissible(input) && forall s :: s in input.subjects ==> !HasName(s)
    requires |input.departments| > 0 && input.yearsPerDepartment > 0 && input.sectionsPerYear > 0
    requires |Week(input)| > 0
    ensures Generate(input, rnd).Failure?
  {
    var blank := ClassList(input.departments, input.yearsPerDepartment, input.sectionsPerYear);
    RowIndex(0, 0, input.yearsPerDepartment, input.sectionsPerYear);
    RowIndex(0, 0, |input.departments|, Times(input.yearsPerDepartment, input.sectionsPerYear));
    NothingToTeach(blank, input, Week(input), rnd);
  }
}
