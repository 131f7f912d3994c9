/**
 * The lab loop of the first-fit engine: each lab goes to the first (day, start) block,
 * in day-then-period order, that holds no break, whose periods are all still free for
 * the class, and for which a teacher is free at the start period.
 */
module FirstFitLabs {
  import opened Wrappers
  import opened Seqs
  import opened Timetable
  import opened FirstFitTime
  import opened FirstFitStaff

  /**
   * One class being filled: its slots, its `availablePeriods`, and the staff schedules
   * and warnings shared with every class.
   */
  datatype Run = Run(schedule: seq<Slot>, avail: seq<Cell>, staff: Schedules, warnings: seq<Unassigned>)

  /** No period of the block is a break (`isBreak` is false). */
  predicate NoBreakIn(breaks: map<string, seq<int>>, day: nat, start: nat, duration: int)
    requires day < |DAYS|
  {
    var periods := BlockPeriods(start, duration);
    forall k :: 0 <= k < |periods| ==> !IsBreak(breaks, day, periods[k])
  }

  /** Every period of the block is still in `availablePeriods` (`allFree`). */
  predicate BlockFree(avail: seq<Cell>, day: nat, start: nat, duration: int) {
    var cells := BlockCells(day, start, duration);
    forall k :: 0 <= k < |cells| ==> cells[k] in avail
  }

  /** The teacher `getLeastLoadedStaff` offers for the block: free at its start period only. */
  function BlockStaff(run: Run, lab: Subject, b: Cell): Option<string> {
    LeastLoadedStaff(run.staff, lab.staff, b.day, b.period)
  }

  /** The block starting at `b` is taken: no break, all free, and a teacher found. */
  predicate Fits(run: Run, breaks: map<string, seq<int>>, lab: Subject, b: Cell) {
    b.day < |DAYS| &&
    NoBreakIn(breaks, b.day, b.period, lab.duration) && BlockFree(run.avail, b.day, b.period, lab.duration) &&
    Present(BlockStaff(run, lab, b))
  }

  /** A start the loops visit: `day < daysPerWeek` and `1 <= p <= periodsPerDay - duration + 1`. */
  predicate InRange(days: nat, periodsPerDay: nat, lab: Subject, b: Cell) {
    b.day < days && 1 <= b.period && b.period + lab.duration - 1 <= periodsPerDay
  }

  /**
   * The two nested loops with their `!placed` guards: the block `placed` ends on. Nothing
   * when no block in range fits; otherwise a block in range that fits, and no block in
   * range that fits comes before it in day-then-period order.
   */
  function FindBlock(run: Run, breaks: map<string, seq<int>>, lab: Subject, days: nat, periodsPerDay: nat): (r: Option<Cell>)
    ensures r.None? <==> forall b :: InRange(days, periodsPerDay, lab, b) ==> !Fits(run, breaks, lab, b)
    ensures r.Some? ==> InRange(days, periodsPerDay, lab, r.value) && Fits(run, breaks, lab, r.value)
    ensures r.Some? ==> forall b :: InRange(days, periodsPerDay, lab, b) && Fits(run, breaks, lab, b) ==> !CellBefore(b, r.value)
  {
    var blocks := Blocks(days, periodsPerDay, lab.duration);
    var fits := b => Fits(run, breaks, lab, b);
    var k := FirstMatch(blocks, fits, 0);
    FindBlockFirst(blocks, fits, k, days, periodsPerDay, lab);
    if k == |blocks| then
      assert forall b :: InRange(days, periodsPerDay, lab, b) ==> !Fits(run, breaks, lab, b) by {
        forall b | InRange(days, periodsPerDay, lab, b) ensures !Fits(run, breaks, lab, b) {
          assert !fits(b);
        }
      }
      None
    else
      assert fits(blocks[k]);
      Some(blocks[k])
  }

  /** Over the blocks in loop order, the first fitting one comes before every other fitting block in range. */
  lemma FindBlockFirst(blocks: seq<Cell>, fits: Cell -> bool, k: nat, days: nat, periodsPerDay: nat, lab: Subject)
    requires blocks == Blocks(days, periodsPerDay, lab.duration)
    requires k <= |blocks| && (k < |blocks| ==> fits(blocks[k])) && forall j :: 0 <= j < k ==> !fits(blocks[j])
    ensures k < |blocks| ==> InRange(days, periodsPerDay, lab, blocks[k])
    ensures forall b :: InRange(days, periodsPerDay, lab, b) && fits(b) ==> k < |blocks| && !CellBefore(b, blocks[k])
  {
    forall b | InRange(days, periodsPerDay, lab, b) && fits(b) ensures k < |blocks| && !CellBefore(b, blocks[k]) {
      assert b in blocks;
      var j :| 0 <= j < |blocks| && blocks[j] == b;
      if j > k {
        assert CellBefore(blocks[k], blocks[j]);
      }
    }
  }

  /** The class slot a lab gets at one period of its block. */
  function LabSlot(lab: Subject, day: nat, period: nat, staff: string, className: string): Slot {
    Slot(day, period, TimeRange(period), lab.name, lab.code, staff, className)
  }

  /** The class slots `placeLab`'s inner loop pushes: one per period of the block. */
  function LabEntries(lab: Subject, day: nat, start: nat, staff: string, className: string): (r: seq<Slot>)
    ensures |r| == Width(lab.duration)
    ensures forall k :: 0 <= k < |r| ==> r[k] == LabSlot(lab, day, start + k, staff, className)
  {
    seq(Width(lab.duration), k requires 0 <= k => LabSlot(lab, day, start + k, staff, className))
  }

  /** The staff copies of a list of slots. */
  function Mirrors(xs: seq<Slot>): (r: seq<Slot>)
    ensures |r| == |xs| && forall k :: 0 <= k < |xs| ==> r[k] == Mirror(xs[k])
  {
    seq(|xs|, k requires 0 <= k < |xs| => Mirror(xs[k]))
  }

  /**
   * Placing a lab on a block: the class gets one slot per period, the teacher a copy of
   * each labelled `name (className)`, and the block's cells leave `availablePeriods`.
   * The inner loop's three effects touch disjoint state, so each is written as one run.
   */
  function PlaceLab(run: Run, lab: Subject, b: Cell, staff: string, className: string): (r: Run)
    requires staff in run.staff && Distinct(run.avail)
    ensures r.schedule == run.schedule + LabEntries(lab, b.day, b.period, staff, className)
    ensures r.staff.Keys == run.staff.Keys && r.staff[staff] == run.staff[staff] + Mirrors(LabEntries(lab, b.day, b.period, staff, className))
    ensures forall s :: s in run.staff && s != staff ==> r.staff[s] == run.staff[s]
    ensures r.warnings == run.warnings
    ensures r.avail == RemoveAll(run.avail, BlockCells(b.day, b.period, lab.duration))
    ensures Distinct(r.avail) && forall c :: c in r.avail <==> c in run.avail && !(c.day == b.day && b.period <= c.period < b.period + Width(lab.duration))
  {
    var entries := LabEntries(lab, b.day, b.period, staff, className);
    var block := BlockCells(b.day, b.period, lab.duration);
    RemoveAllDistinct(run.avail, block);
    assert forall c :: c in block <==> c.day == b.day && b.period <= c.period < b.period + Width(lab.duration) by {
      forall c: Cell | c.day == b.day && b.period <= c.period < b.period + Width(lab.duration) ensures c in block {
        assert block[c.period - b.period] == c;
      }
    }
    Run(run.schedule + entries, RemoveAll(run.avail, block), run.staff[staff := run.staff[staff] + Mirrors(entries)], run.warnings)
  }

  /** One pass of the lab loop: the lab on its first fitting block, or nothing (and a console warning) when none fits. */
  function PlaceOneLab(run: Run, breaks: map<string, seq<int>>, lab: Subject, days: nat, periodsPerDay: nat, className: string): (r: Run)
    requires Distinct(run.avail)
    ensures r.staff.Keys == run.staff.Keys && Distinct(r.avail) && r.warnings == run.warnings
    ensures forall c :: c in r.avail ==> c in run.avail
    ensures FindBlock(run, breaks, lab, days, periodsPerDay).None? ==> r == run
    ensures var b := FindBlock(run, breaks, lab, days, periodsPerDay);
      b.Some? ==> r.schedule == run.schedule + LabEntries(lab, b.value.day, b.value.period, BlockStaff(run, lab, b.value).value, className)
  {
    var b := FindBlock(run, breaks, lab, days, periodsPerDay);
    if b.None? then run
    else PlaceLab(run, lab, b.value, BlockStaff(run, lab, b.value).value, className)
  }

  /** The lab loop over `labs`, in order. */
  function PlaceLabs(run: Run, breaks: map<string, seq<int>>, labs: seq<Subject>, days: nat, periodsPerDay: nat, className: string): (r: Run)
    requires Distinct(run.avail)
    ensures r.staff.Keys == run.staff.Keys && Distinct(r.avail) && r.warnings == run.warnings
    ensures forall c :: c in r.avail ==> c in run.avail
  {
    if |labs| == 0 then run
    else PlaceOneLab(PlaceLabs(run, breaks, labs[..|labs| - 1], days, periodsPerDay, className), breaks, labs[|labs| - 1], days, periodsPerDay, className)
  }

  /** The class's slots and its free cells together are the catalog, each cell exactly once. */
  ghost predicate Covers(run: Run, catalog: seq<Cell>) {
    Occupied(run.schedule) + multiset(run.avail) == multiset(catalog)
  }

  /** Slots that sit, one by one, on the cells of `cs` occupy exactly those cells. */
  lemma {:induction false} OccupiedCells(xs: seq<Slot>, cs: seq<Cell>)
    requires |xs| == |cs| && forall k :: 0 <= k < |xs| ==> Cell(xs[k].day, xs[k].period) == cs[k]
    ensures Occupied(xs) == multiset(cs)
  {
    if |xs| > 0 {
      var n := |xs| - 1;
      OccupiedCells(xs[..n], cs[..n]);
      assert cs == cs[..n] + [cs[n]];
    }
  }

  /** The periods of a block are distinct cells. */
  lemma BlockDistinct(day: nat, start: nat, duration: int)
    ensures Distinct(BlockCells(day, start, duration))
  {
    var block := BlockCells(day, start, duration);
    forall i, j | 0 <= i < j < |block| ensures block[i] != block[j] {
      assert block[i].period < block[j].period;
    }
  }

  /**
   * Placing a lab on a block whose cells are all free keeps the class covering its
   * catalog: the block's cells move from the free list to the class's slots.
   */
  lemma PlaceLabCovers(run: Run, lab: Subject, b: Cell, staff: string, className: string, catalog: seq<Cell>)
    requires staff in run.staff && Distinct(run.avail) && BlockFree(run.avail, b.day, b.period, lab.duration)
    requires Covers(run, catalog)
    ensures Covers(PlaceLab(run, lab, b, staff, className), catalog)
  {
    var entries := LabEntries(lab, b.day, b.period, staff, className);
    var block := BlockCells(b.day, b.period, lab.duration);
    OccupiedCells(entries, block);
    BlockDistinct(b.day, b.period, lab.duration);
    OccupiedConcat(run.schedule, entries);
    RemoveAllCount(run.avail, block);
  }

  /**
   * `r` continues `run`: same teachers, class slots only appended, each teacher's
   * schedule extended by exactly the copies of the new slots that name them, and the
   * warnings extended by exactly the new slots left unstaffed.
   */
  ghost predicate Tracked(run: Run, r: Run) {
    run.schedule <= r.schedule && r.staff.Keys == run.staff.Keys &&
    (forall s :: s in run.staff ==> r.staff[s] == run.staff[s] + MirrorsOf(r.schedule[|run.schedule|..], s)) &&
    r.warnings == run.warnings + Unstaffed(r.schedule[|run.schedule|..])
  }

  lemma TrackedRefl(run: Run)
    ensures Tracked(run, run)
  {
    assert run.schedule[|run.schedule|..] == [];
  }

  lemma TrackedTrans(a: Run, b: Run, c: Run)
    requires Tracked(a, b) && Tracked(b, c)
    ensures Tracked(a, c)
  {
    var ab := b.schedule[|a.schedule|..];
    var bc := c.schedule[|b.schedule|..];
    SuffixSplit(a.schedule, b.schedule, c.schedule);
    UnstaffedConcat(ab, bc);
    forall s | s in a.staff ensures c.staff[s] == a.staff[s] + MirrorsOf(ab + bc, s) {
      MirrorsExtend(a.staff[s], b.staff[s], c.staff[s], ab, bc, s);
    }
  }

  lemma SuffixSplit(x: seq<Slot>, y: seq<Slot>, z: seq<Slot>)
    requires x <= y <= z
    ensures z[|x|..] == y[|x|..] + z[|y|..]
  {
    assert z == x + y[|x|..] + z[|y|..];
  }

  /** A teacher's schedule extended by the copies of `ab` and then of `bc` is extended by the copies of both. */
  lemma MirrorsExtend(x: seq<Slot>, y: seq<Slot>, z: seq<Slot>, ab: seq<Slot>, bc: seq<Slot>, s: string)
    requires y == x + MirrorsOf(ab, s) && z == y + MirrorsOf(bc, s)
    ensures z == x + MirrorsOf(ab + bc, s)
  {
    var p, q := MirrorsOf(ab, s), MirrorsOf(bc, s);
    MirrorsOfConcat(ab, bc, s);
    assert (x + p) + q == x + (p + q);
  }

  lemma {:induction false} MirrorsOfOne(xs: seq<Slot>, staff: string, s: string)
    requires forall k :: 0 <= k < |xs| ==> xs[k].staff == staff
    ensures MirrorsOf(xs, s) == if s == staff then Mirrors(xs) else []
  {
    if |xs| > 0 {
      MirrorsOfOne(xs[..|xs| - 1], staff, s);
    }
  }

  lemma {:induction false} UnstaffedNone(xs: seq<Slot>)
    requires forall k :: 0 <= k < |xs| ==> xs[k].staff != UnassignedStaff
    ensures Unstaffed(xs) == []
  {
    if |xs| > 0 {
      UnstaffedNone(xs[..|xs| - 1]);
    }
  }

  /**
   * Appending slots that all name one registered teacher, and giving that teacher their
   * copies, continues the run: every slot is mirrored and none is a warning.
   */
  lemma OneTeacherTracked(run: Run, r: Run, xs: seq<Slot>, staff: string)
    requires staff in run.staff && staff != UnassignedStaff
    requires forall k :: 0 <= k < |xs| ==> xs[k].staff == staff
    requires r.schedule == run.schedule + xs && r.staff.Keys == run.staff.Keys && r.warnings == run.warnings
    requires r.staff[staff] == run.staff[staff] + Mirrors(xs)
    requires forall s :: s in run.staff && s != staff ==> r.staff[s] == run.staff[s]
    ensures Tracked(run, r)
  {
    assert r.schedule[|run.schedule|..] == xs;
    UnstaffedNone(xs);
    forall s | s in run.staff ensures r.staff[s] == run.staff[s] + MirrorsOf(xs, s) {
      MirrorsOfOne(xs, staff, s);
    }
  }

  /** A placed lab's slots all carry a registered teacher: they are all mirrored and none is a warning. */
  lemma PlaceLabTracked(run: Run, lab: Subject, b: Cell, staff: string, className: string)
    requires staff in run.staff && Distinct(run.avail) && staff != UnassignedStaff
    ensures Tracked(run, PlaceLab(run, lab, b, staff, className))
  {
    var entries := LabEntries(lab, b.day, b.period, staff, className);
    OneTeacherTracked(run, PlaceLab(run, lab, b, staff, className), entries, staff);
  }

  /** The lab loop keeps the class covering its catalog: labs never overlap each other. */
  lemma {:induction false} PlaceLabsCovers(run: Run, breaks: map<string, seq<int>>, labs: seq<Subject>, days: nat, periodsPerDay: nat,
                                           className: string, catalog: seq<Cell>)
    requires Distinct(run.avail) && Covers(run, catalog)
    ensures Covers(PlaceLabs(run, breaks, labs, days, periodsPerDay, className), catalog)
  {
    if |labs| > 0 {
      var prev := PlaceLabs(run, breaks, labs[..|labs| - 1], days, periodsPerDay, className);
      PlaceLabsCovers(run, breaks, labs[..|labs| - 1], days, periodsPerDay, className, catalog);
      var lab := labs[|labs| - 1];
      var b := FindBlock(prev, breaks, lab, days, periodsPerDay);
      if b.Some? {
        PlaceLabCovers(prev, lab, b.value, BlockStaff(prev, lab, b.value).value, className, catalog);
      }
    }
  }

  /** Every lab slot goes to the staff schedule of its teacher, and none is a warning. */
  lemma {:induction false} PlaceLabsTracked(run: Run, breaks: map<string, seq<int>>, labs: seq<Subject>, days: nat, periodsPerDay: nat,
                                            className: string)
    requires Distinct(run.avail) && UnassignedStaff !in run.staff
    ensures Tracked(run, PlaceLabs(run, breaks, labs, days, periodsPerDay, className))
  {
    if |labs| == 0 {
      TrackedRefl(run);
    } else {
      var prev := PlaceLabs(run, breaks, labs[..|labs| - 1], days, periodsPerDay, className);
      PlaceLabsTracked(run, breaks, labs[..|labs| - 1], days, periodsPerDay, className);
      var lab := labs[|labs| - 1];
      var b := FindBlock(prev, breaks, lab, days, periodsPerDay);
      if b.Some? {
        var staff := BlockStaff(prev, lab, b.value).value;
        PlaceLabTracked(prev, lab, b.value, staff, className);
        TrackedTrans(run, prev, PlaceLab(prev, lab, b.value, staff, className));
      }
    }
  }
}
