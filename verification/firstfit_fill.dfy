/**
 * The regular loop of the first-fit engine: every period still in `availablePeriods`,
 * in order, gets a randomly drawn regular subject and the least-loaded teacher of that
 * subject who is free then, or `"Unassigned"` and a warning when nobody is.
 */
module FirstFitFill {
  import opened Wrappers
  import opened Oracle
  import opened Timetable
  import opened FirstFitTime
  import opened FirstFitStaff
  import opened FirstFitLabs

  /** What `subject.staff` on `undefined` throws when the draw indexes an empty list. */
  const NoSubjectError: string := "Cannot read properties of undefined (reading 'staff')"

  /**
   * The slot the loop pushes for `subject` at cell `c`: the teacher is the least-loaded
   * candidate free at the cell, or `"Unassigned"` when there is none.
   */
  function RegularSlot(run: Run, subject: Subject, c: Cell, className: string): (r: Slot)
    ensures r.day == c.day && r.period == c.period && r.timeRange == TimeRange(c.period)
    ensures r.subject == subject.name && r.subjectCode == subject.code && r.className == className
    ensures r.staff == UnassignedStaff ||
      (r.staff in subject.staff && Eligible(run.staff, r.staff, c.day, c.period) &&
       forall x :: x in subject.staff && Eligible(run.staff, x, c.day, c.period) ==> |run.staff[r.staff]| <= |run.staff[x]|)
    ensures (forall x :: x in subject.staff ==> !Eligible(run.staff, x, c.day, c.period)) ==> r.staff == UnassignedStaff
    ensures "" !in run.staff && UnassignedStaff !in run.staff && r.staff == UnassignedStaff ==>
      forall x :: x in subject.staff ==> !Eligible(run.staff, x, c.day, c.period)
  {
    var staff := LeastLoadedStaff(run.staff, subject.staff, c.day, c.period);
    Slot(c.day, c.period, TimeRange(c.period), subject.name, subject.code, StaffText(staff), className)
  }

  /**
   * One pass of the regular loop with its subject drawn: the class gets the slot, a
   * teacher who was found gets its copy, and a slot nobody was found for is a warning.
   */
  function FillCell(run: Run, subject: Subject, c: Cell, className: string): (r: Run)
    ensures r.schedule == run.schedule + [RegularSlot(run, subject, c, className)]
    ensures r.avail == run.avail && r.staff.Keys == run.staff.Keys
  {
    var staff := LeastLoadedStaff(run.staff, subject.staff, c.day, c.period);
    var slot := RegularSlot(run, subject, c, className);
    if Present(staff) then
      Run(run.schedule + [slot], run.avail, run.staff[staff.value := run.staff[staff.value] + [Mirror(slot)]], run.warnings)
    else
      Run(run.schedule + [slot], run.avail, run.staff, run.warnings + [Unassigned(className, c.day, c.period)])
  }

  /**
   * The regular loop over `cells`, drawing the subject of the k-th cell from the stream
   * at `cursor + k`.
   */
  function FillCells(run: Run, regular: seq<Subject>, cells: seq<Cell>, rnd: Rng, cursor: nat, className: string): (r: Drawn<Run>)
    requires |regular| > 0 && Valid(rnd)
    ensures r.next == cursor + |cells| && r.value.avail == run.avail && r.value.staff.Keys == run.staff.Keys
    ensures |r.value.schedule| == |run.schedule| + |cells| && run.schedule <= r.value.schedule
    decreases |cells|
  {
    if |cells| == 0 then Drawn(run, cursor)
    else
      var n := |cells| - 1;
      var prev := FillCells(run, regular, cells[..n], rnd, cursor, className);
      var subject := regular[Pick(rnd(prev.next), |regular|)];
      Drawn(FillCell(prev.value, subject, cells[n], className), prev.next + 1)
  }

  /**
   * The regular loop over `availablePeriods`. With no regular subject the first free
   * period reads `staff` of `undefined` and the whole generation throws.
   */
  function FillRegular(run: Run, regular: seq<Subject>, rnd: Rng, cursor: nat, className: string): (r: Result<Drawn<Run>, string>)
    requires Valid(rnd)
    ensures r.Failure? <==> |regular| == 0 && |run.avail| > 0
    ensures r.Failure? ==> r.error == NoSubjectError
    ensures r.Success? ==> (r.value.value.avail == run.avail && r.value.value.staff.Keys == run.staff.Keys &&
      |r.value.value.schedule| == |run.schedule| + |run.avail|)
  {
    if |run.avail| == 0 then Success(Drawn(run, cursor))
    else if |regular| == 0 then Failure(NoSubjectError)
    else Success(FillCells(run, regular, run.avail, rnd, cursor, className))
  }

  /** `x` is a slot of the class at cell `c` teaching one of `regular`. */
  ghost predicate FromRegular(x: Slot, c: Cell, regular: seq<Subject>, className: string) {
    Cell(x.day, x.period) == c && x.className == className &&
    exists j :: 0 <= j < |regular| && x.subject == regular[j].name && x.subjectCode == regular[j].code
  }

  /** The slots `added` sit on `cells`, one each and in order, each teaching one of `regular`. */
  ghost predicate SlotsOn(added: seq<Slot>, cells: seq<Cell>, regular: seq<Subject>, className: string) {
    |added| == |cells| && forall k :: 0 <= k < |added| ==> FromRegular(added[k], cells[k], regular, className)
  }

  lemma SlotsOnSnoc(added: seq<Slot>, x: Slot, cells: seq<Cell>, regular: seq<Subject>, className: string)
    requires |cells| > 0 && SlotsOn(added, cells[..|cells| - 1], regular, className)
    requires FromRegular(x, cells[|cells| - 1], regular, className)
    ensures SlotsOn(added + [x], cells, regular, className)
  {
    forall k | 0 <= k < |added| + 1 ensures FromRegular((added + [x])[k], cells[k], regular, className) {
      if k < |added| {
        assert (added + [x])[k] == added[k] && cells[k] == cells[..|cells| - 1][k];
      }
    }
  }

  /** The slot one pass adds teaches the drawn subject, at the cell, for the class. */
  lemma FillCellSlot(run: Run, regular: seq<Subject>, i: nat, c: Cell, className: string)
    requires i < |regular|
    ensures var r := FillCell(run, regular[i], c, className);
      r.schedule == run.schedule + [r.schedule[|run.schedule|]] && FromRegular(r.schedule[|run.schedule|], c, regular, className)
  {
  }

  /** The loop over `cells` is the loop over all but the last cell, then one pass on the last. */
  lemma FillCellsLast(run: Run, regular: seq<Subject>, cells: seq<Cell>, rnd: Rng, cursor: nat, className: string)
    requires |regular| > 0 && Valid(rnd) && |cells| > 0
    ensures var prev := FillCells(run, regular, cells[..|cells| - 1], rnd, cursor, className);
      FillCells(run, regular, cells, rnd, cursor, className).value ==
        FillCell(prev.value, regular[Pick(rnd(prev.next), |regular|)], cells[|cells| - 1], className)
  {
  }

  lemma FillCellsSlotsStep(run: Run, regular: seq<Subject>, cells: seq<Cell>, rnd: Rng, cursor: nat, className: string)
    requires |regular| > 0 && Valid(rnd) && |cells| > 0
    requires SlotsOn(FillCells(run, regular, cells[..|cells| - 1], rnd, cursor, className).value.schedule[|run.schedule|..],
                     cells[..|cells| - 1], regular, className)
    ensures SlotsOn(FillCells(run, regular, cells, rnd, cursor, className).value.schedule[|run.schedule|..], cells, regular, className)
  {
    var prev := FillCells(run, regular, cells[..|cells| - 1], rnd, cursor, className);
    var i := Pick(rnd(prev.next), |regular|);
    FillCellSlot(prev.value, regular, i, cells[|cells| - 1], className);
    FillCellsLast(run, regular, cells, rnd, cursor, className);
    var r := FillCells(run, regular, cells, rnd, cursor, className).value.schedule;
    var p := prev.value.schedule;
    var x := r[|p|];
    SnocSuffix(run.schedule, p, r, x);
    SlotsOnSnoc(p[|run.schedule|..], x, cells, regular, className);
  }

  lemma SnocSuffix(base: seq<Slot>, p: seq<Slot>, r: seq<Slot>, x: Slot)
    requires base <= p && r == p + [x]
    ensures r[|base|..] == p[|base|..] + [x]
  {
  }

  /** The slots the loop adds sit on `cells`, one each and in order, each naming a regular subject and the class. */
  lemma {:induction false} FillCellsSlots(run: Run, regular: seq<Subject>, cells: seq<Cell>, rnd: Rng, cursor: nat, className: string)
    requires |regular| > 0 && Valid(rnd)
    ensures SlotsOn(FillCells(run, regular, cells, rnd, cursor, className).value.schedule[|run.schedule|..], cells, regular, className)
    decreases |cells|
  {
    if |cells| > 0 {
      FillCellsSlots(run, regular, cells[..|cells| - 1], rnd, cursor, className);
      FillCellsSlotsStep(run, regular, cells, rnd, cursor, className);
    } else {
      assert FillCells(run, regular, cells, rnd, cursor, className).value.schedule[|run.schedule|..] == [];
    }
  }

  /** A single regular slot is tracked: mirrored to its teacher, or a warning when it has none. */
  lemma FillCellTracked(run: Run, subject: Subject, c: Cell, className: string)
    requires UnassignedStaff !in run.staff
    ensures Tracked(run, FillCell(run, subject, c, className))
  {
    var staff := LeastLoadedStaff(run.staff, subject.staff, c.day, c.period);
    var slot := RegularSlot(run, subject, c, className);
    var r := FillCell(run, subject, c, className);
    assert r.schedule[|run.schedule|..] == [slot];
    assert MirrorsOf([slot], slot.staff) == [Mirror(slot)] by {
      assert [slot][..0] == [];
    }
    forall s | s in run.staff ensures r.staff[s] == run.staff[s] + MirrorsOf([slot], s) {
      assert [slot][..0] == [];
    }
    assert [slot][..0] == [];
  }

  /** The regular loop keeps every staff schedule and the warnings in step with the class slots. */
  lemma {:induction false} FillCellsTracked(run: Run, regular: seq<Subject>, cells: seq<Cell>, rnd: Rng, cursor: nat, className: string)
    requires |regular| > 0 && Valid(rnd) && UnassignedStaff !in run.staff
    ensures Tracked(run, FillCells(run, regular, cells, rnd, cursor, className).value)
    decreases |cells|
  {
    if |cells| == 0 {
      TrackedRefl(run);
    } else {
      var n := |cells| - 1;
      var prev := FillCells(run, regular, cells[..n], rnd, cursor, className);
      FillCellsTracked(run, regular, cells[..n], rnd, cursor, className);
      var subject := regular[Pick(rnd(prev.next), |regular|)];
      FillCellTracked(prev.value, subject, cells[n], className);
      TrackedTrans(run, prev.value, FillCell(prev.value, subject, cells[n], className));
    }
  }

  /**
   * After the regular loop the class covers its catalog with no cell left free: each
   * remaining period got exactly one slot.
   */
  lemma FillRegularCovers(run: Run, regular: seq<Subject>, rnd: Rng, cursor: nat, className: string, catalog: seq<Cell>)
    requires Valid(rnd) && Covers(run, catalog)
    ensures var r := FillRegular(run, regular, rnd, cursor, className);
      r.Success? ==> Occupied(r.value.value.schedule) == multiset(catalog)
  {
    if |run.avail| > 0 && |regular| > 0 {
      var r := FillCells(run, regular, run.avail, rnd, cursor, className);
      FillCellsSlots(run, regular, run.avail, rnd, cursor, className);
      var added := r.value.schedule[|run.schedule|..];
      assert r.value.schedule == run.schedule + added;
      OccupiedCells(added, run.avail);
      OccupiedConcat(run.schedule, added);
    } else if |run.avail| == 0 {
      assert multiset(run.avail) == multiset{};
    }
  }

  /** The regular loop keeps the staff schedules and warnings in step with the class slots. */
  lemma FillRegularTracked(run: Run, regular: seq<Subject>, rnd: Rng, cursor: nat, className: string)
    requires Valid(rnd) && UnassignedStaff !in run.staff
    ensures var r := FillRegular(run, regular, rnd, cursor, className);
      r.Success? ==> Tracked(run, r.value.value)
  {
    if |run.avail| > 0 && |regular| > 0 {
      FillCellsTracked(run, regular, run.avail, rnd, cursor, className);
    } else {
      TrackedRefl(run);
    }
  }
}
