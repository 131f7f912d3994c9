/**
 * The lab phase of the scored engine (`placeLaboratorySubjects`,
 * `calculatePlacementScore`, `placeLabSubject`): every lab subject's best-scoring
 * block is chosen against the class's state at the start of the phase, and the
 * chosen blocks are then committed one after another.
 */
module ScoredLabs {
  import opened Wrappers
  import opened Seqs
  import opened Timetable
  import opened ScoredLedger

  /**
   * `calculatePlacementScore(day, startPeriod, workload)`: 10 for a start in the middle
   * band 3..6 and 5 otherwise, plus `max(0, 10 - daily[day])`.
   */
  function Score(day: nat, start: nat, load: Load): (r: int)
    requires day < |load.daily|
    ensures 5 <= r <= 20
  {
    var periodScore := if 3 <= start <= 6 then 10 else 5;
    var workloadScore: int := if 10 - (load.daily[day] as int) > 0 then 10 - (load.daily[day] as int) else 0;
    periodScore + workloadScore
  }

  /** A lighter day never scores lower, and a middle-band start scores 5 more than an edge one. */
  lemma ScorePreferences(day: nat, load: Load, lighter: Load, mid: nat, edge: nat)
    requires day < |load.daily| && day < |lighter.daily|
    requires lighter.daily[day] <= load.daily[day]
    requires 3 <= mid <= 6 && !(3 <= edge <= 6)
    ensures Score(day, mid, lighter) >= Score(day, mid, load)
    ensures Score(day, edge, lighter) >= Score(day, edge, load)
    ensures Score(day, mid, load) == Score(day, edge, load) + 5
  {
  }

  /** A lab chosen for a block: its day, start period, staff member and score. */
  datatype Placement = Placement(day: nat, start: nat, staff: string, score: int)

  function At(p: Placement): Cell {
    Cell(p.day, p.start)
  }

  /** Every cell of the block is still in `availableSlots`. */
  predicate BlockAvailable(avail: seq<Cell>, day: nat, start: nat, duration: int)
  {
    var cells := BlockCells(day, start, duration);
    forall k :: 0 <= k < |cells| ==> cells[k] in avail
  }

  /** What the lab phase asks of the state: a shaped ledger that knows every non-blank lab teacher. */
  predicate Ready(l: Ledger, subject: Subject) {
    Shaped(l) && Known(l, subject.staff)
  }

  /** The staff member `findOptimalStaff` picks for the whole block. */
  function BlockStaff(l: Ledger, subject: Subject, b: Cell): Option<string>
    requires Ready(l, subject) && b.day < l.days
  {
    FindOptimalStaff(l, subject.staff, b.day, BlockPeriods(b.period, subject.duration))
  }

  /** A block the source records as a possible placement: all its cells free and some teacher free throughout. */
  predicate Feasible(l: Ledger, avail: seq<Cell>, subject: Subject, b: Cell)
    requires Ready(l, subject) && b.day < l.days
  {
    BlockAvailable(avail, b.day, b.period, subject.duration) && BlockStaff(l, subject, b).Some?
  }

  /** The score of a feasible block, computed from its teacher's workload. */
  function BlockScore(l: Ledger, avail: seq<Cell>, subject: Subject, b: Cell): int
    requires Ready(l, subject) && b.day < l.days && Feasible(l, avail, subject, b)
  {
    var staff := BlockStaff(l, subject, b).value;
    Score(b.day, b.period, l.workload[staff])
  }

  /** The possible placements of `subject` over `blocks`, in the order the loops find them. */
  function Candidates(l: Ledger, avail: seq<Cell>, subject: Subject, blocks: seq<Cell>): (r: seq<Placement>)
    requires Ready(l, subject) && forall b :: b in blocks ==> b.day < l.days
    ensures forall p :: p in r ==> At(p) in blocks
  {
    if |blocks| == 0 then []
    else
      var b := blocks[0];
      var here :=
        if Feasible(l, avail, subject, b)
        then [Placement(b.day, b.period, BlockStaff(l, subject, b).value, BlockScore(l, avail, subject, b))]
        else [];
      here + Candidates(l, avail, subject, blocks[1..])
  }

  /** Every candidate is a feasible block, with the teacher and score the source computes for it. */
  lemma {:induction false} CandidatesSound(l: Ledger, avail: seq<Cell>, subject: Subject, blocks: seq<Cell>, p: Placement)
    requires Ready(l, subject) && forall c :: c in blocks ==> c.day < l.days
    requires p in Candidates(l, avail, subject, blocks)
    ensures At(p) in blocks && p.day < l.days && Feasible(l, avail, subject, At(p))
    ensures BlockStaff(l, subject, At(p)) == Some(p.staff) && p.score == BlockScore(l, avail, subject, At(p))
  {
    if p !in Candidates(l, avail, subject, blocks[1..]) {
      assert Feasible(l, avail, subject, blocks[0]);
    } else {
      CandidatesSound(l, avail, subject, blocks[1..], p);
    }
  }

  /** Every feasible block is among the candidates. */
  lemma {:induction false} CandidatesComplete(l: Ledger, avail: seq<Cell>, subject: Subject, blocks: seq<Cell>, b: Cell)
    requires Ready(l, subject) && forall c :: c in blocks ==> c.day < l.days
    requires b in blocks && Feasible(l, avail, subject, b)
    ensures exists p :: p in Candidates(l, avail, subject, blocks) && At(p) == b
  {
    var r := Candidates(l, avail, subject, blocks);
    if blocks[0] == b {
      assert r[0] in r && At(r[0]) == b;
    } else {
      assert b in blocks[1..];
      CandidatesComplete(l, avail, subject, blocks[1..], b);
      var p :| p in Candidates(l, avail, subject, blocks[1..]) && At(p) == b;
      assert p in r;
    }
  }

  /** With no candidate, no block is feasible. */
  lemma {:induction false} NoCandidates(l: Ledger, avail: seq<Cell>, subject: Subject, blocks: seq<Cell>)
    requires Ready(l, subject) && forall c :: c in blocks ==> c.day < l.days
    requires |Candidates(l, avail, subject, blocks)| == 0
    ensures forall b :: b in blocks ==> !Feasible(l, avail, subject, b)
  {
    if |blocks| > 0 {
      NoCandidates(l, avail, subject, blocks[1..]);
      assert forall b :: b in blocks ==> b == blocks[0] || b in blocks[1..];
    }
  }

  /** The placements are in strictly increasing day-then-start order. */
  ghost predicate Ordered(r: seq<Placement>) {
    forall i, j :: 0 <= i < j < |r| ==> CellBefore(At(r[i]), At(r[j]))
  }

  lemma ConsOrdered(p: Placement, rest: seq<Placement>)
    requires Ordered(rest)
    requires forall j :: 0 <= j < |rest| ==> CellBefore(At(p), At(rest[j]))
    ensures Ordered([p] + rest)
  {
    var r := [p] + rest;
    forall i, j | 0 <= i < j < |r| ensures CellBefore(At(r[i]), At(r[j])) {
      assert r[j] == rest[j - 1];
      if i > 0 { assert r[i] == rest[i - 1]; }
    }
  }

  /** Candidates keep the day-then-period order of the blocks they come from. */
  lemma {:induction false} CandidatesOrdered(l: Ledger, avail: seq<Cell>, subject: Subject, blocks: seq<Cell>)
    requires Ready(l, subject) && forall c :: c in blocks ==> c.day < l.days
    requires StrictlyOrdered(blocks)
    ensures Ordered(Candidates(l, avail, subject, blocks))
  {
    if |blocks| > 0 {
      var b := blocks[0];
      var r := Candidates(l, avail, subject, blocks);
      var rest := Candidates(l, avail, subject, blocks[1..]);
      assert StrictlyOrdered(blocks[1..]);
      CandidatesOrdered(l, avail, subject, blocks[1..]);
      if Feasible(l, avail, subject, b) {
        assert r == [r[0]] + rest && At(r[0]) == b;
        forall j | 0 <= j < |rest| ensures CellBefore(b, At(rest[j])) {
          var k :| 0 <= k < |blocks[1..]| && blocks[1..][k] == At(rest[j]);
          assert blocks[k + 1] == At(rest[j]);
        }
        ConsOrdered(r[0], rest);
      } else {
        assert r == rest;
      }
    }
  }

  /**
   * The index the stable descending sort puts first: a candidate of maximal score with
   * every earlier candidate scoring strictly less.
   */
  function BestIndex(cands: seq<Placement>): (i: nat)
    requires |cands| > 0
    ensures i < |cands|
    ensures forall j :: 0 <= j < |cands| ==> cands[j].score <= cands[i].score
    ensures forall j :: 0 <= j < i ==> cands[j].score < cands[i].score
  {
    if |cands| == 1 then 0
    else
      var k := BestIndex(cands[..|cands| - 1]);
      assert forall j :: 0 <= j < |cands| - 1 ==> cands[..|cands| - 1][j] == cands[j];
      if cands[|cands| - 1].score > cands[k].score then |cands| - 1 else k
  }

  /** In an ordered list, a placement before another one sits at a smaller index. */
  lemma OrderedIndex(r: seq<Placement>, i: nat, j: nat)
    requires Ordered(r) && i < |r| && j < |r| && CellBefore(At(r[j]), At(r[i]))
    ensures j < i
  {
  }

  /** The first best candidate scores at least as much as any feasible block, and more than any earlier one. */
  lemma BestBeatsBlock(l: Ledger, avail: seq<Cell>, subject: Subject, blocks: seq<Cell>, b: Cell)
    requires Ready(l, subject) && forall c :: c in blocks ==> c.day < l.days
    requires StrictlyOrdered(blocks)
    requires |Candidates(l, avail, subject, blocks)| > 0
    requires b in blocks && Feasible(l, avail, subject, b)
    ensures var cands := Candidates(l, avail, subject, blocks);
      BlockScore(l, avail, subject, b) <= cands[BestIndex(cands)].score
    ensures var cands := Candidates(l, avail, subject, blocks);
      CellBefore(b, At(cands[BestIndex(cands)])) ==> BlockScore(l, avail, subject, b) < cands[BestIndex(cands)].score
  {
    var cands := Candidates(l, avail, subject, blocks);
    var i := BestIndex(cands);
    CandidatesOrdered(l, avail, subject, blocks);
    CandidatesComplete(l, avail, subject, blocks, b);
    var q :| q in cands && At(q) == b;
    CandidatesSound(l, avail, subject, blocks, q);
    var j :| 0 <= j < |cands| && cands[j] == q;
    assert BlockScore(l, avail, subject, b) == cands[j].score;
    if CellBefore(b, At(cands[i])) {
      OrderedIndex(cands, i, j);
    }
  }

  /** The block (day, start) ranges the source's loops try for `subject`. */
  predicate InRange(days: nat, periodsPerDay: nat, subject: Subject, b: Cell) {
    b.day < days && 1 <= b.period && b.period + subject.duration - 1 <= periodsPerDay
  }

  /** No block in range has its cells available and a free teacher. */
  ghost predicate NoFeasibleBlock(l: Ledger, avail: seq<Cell>, subject: Subject, periodsPerDay: nat)
    requires Ready(l, subject)
  {
    forall day: nat, start: nat :: InRange(l.days, periodsPerDay, subject, Cell(day, start)) ==>
      !Feasible(l, avail, subject, Cell(day, start))
  }

  /**
   * `p` is a block in range with its cells available, the teacher `findOptimalStaff` picks
   * for it, and its score; every feasible block scores at most as much, and every feasible
   * block before it strictly less.
   */
  ghost predicate BestPlacement(l: Ledger, avail: seq<Cell>, subject: Subject, periodsPerDay: nat, p: Placement)
    requires Ready(l, subject)
  {
    && InRange(l.days, periodsPerDay, subject, At(p))
    && BlockAvailable(avail, p.day, p.start, subject.duration)
    && BlockStaff(l, subject, At(p)) == Some(p.staff)
    && p.score == Score(p.day, p.start, l.workload[p.staff])
    && (forall day: nat, start: nat ::
          InRange(l.days, periodsPerDay, subject, Cell(day, start)) && Feasible(l, avail, subject, Cell(day, start)) ==>
            BlockScore(l, avail, subject, Cell(day, start)) <= p.score &&
            (CellBefore(Cell(day, start), At(p)) ==> BlockScore(l, avail, subject, Cell(day, start)) < p.score))
  }

  /**
   * The placement `placeLaboratorySubjects` records for one lab: among all blocks in range
   * whose cells are available and that have a free teacher, one of maximal score, the
   * earliest in day-then-period order among equal scores; nothing when no block is feasible.
   */
  function ChooseLab(l: Ledger, avail: seq<Cell>, subject: Subject, periodsPerDay: nat): (r: Option<Placement>)
    requires Ready(l, subject)
    ensures r.None? <==> NoFeasibleBlock(l, avail, subject, periodsPerDay)
    ensures r.Some? ==> BestPlacement(l, avail, subject, periodsPerDay, r.value)
  {
    var blocks := Blocks(l.days, periodsPerDay, subject.duration);
    var cands := Candidates(l, avail, subject, blocks);
    if |cands| == 0 then
      NoCandidates(l, avail, subject, blocks);
      None
    else
      var p := cands[BestIndex(cands)];
      CandidatesSound(l, avail, subject, blocks, p);
      BestBeatsAll(l, avail, subject, periodsPerDay);
      Some(p)
  }

  /** The best candidate scores at least as high as every feasible block, and higher than every earlier one. */
  lemma BestBeatsAll(l: Ledger, avail: seq<Cell>, subject: Subject, periodsPerDay: nat)
    requires Ready(l, subject)
    requires |Candidates(l, avail, subject, Blocks(l.days, periodsPerDay, subject.duration))| > 0
    ensures var cands := Candidates(l, avail, subject, Blocks(l.days, periodsPerDay, subject.duration));
      var p := cands[BestIndex(cands)];
      forall day: nat, start: nat ::
        InRange(l.days, periodsPerDay, subject, Cell(day, start)) && Feasible(l, avail, subject, Cell(day, start)) ==>
          BlockScore(l, avail, subject, Cell(day, start)) <= p.score &&
          (CellBefore(Cell(day, start), At(p)) ==> BlockScore(l, avail, subject, Cell(day, start)) < p.score)
  {
    var blocks := Blocks(l.days, periodsPerDay, subject.duration);
    forall day: nat, start: nat |
      InRange(l.days, periodsPerDay, subject, Cell(day, start)) && Feasible(l, avail, subject, Cell(day, start))
      ensures var cands := Candidates(l, avail, subject, blocks);
        BlockScore(l, avail, subject, Cell(day, start)) <= cands[BestIndex(cands)].score &&
        (CellBefore(Cell(day, start), At(cands[BestIndex(cands)])) ==>
          BlockScore(l, avail, subject, Cell(day, start)) < cands[BestIndex(cands)].score)
    {
      BestBeatsBlock(l, avail, subject, blocks, Cell(day, start));
    }
  }

  /** The `n` entries a lab block writes, one per period from `start` on. */
  function LabEntries(tag: string, day: nat, start: nat, n: nat, staff: string, className: string): (r: seq<Slot>)
    ensures |r| == n
    ensures forall k :: 0 <= k < n ==> r[k] == Slot(day, start + k, tag, staff, className)
  {
    if n == 0 then [] else LabEntries(tag, day, start, n - 1, staff, className) + [Slot(day, start + n - 1, tag, staff, className)]
  }

  /** What booking a lab on `day` for `staff` asks of a class run. */
  predicate CanBook(run: ClassRun, day: nat, staff: string) {
    Shaped(run.ledger) && |run.days| == run.ledger.days && day < run.ledger.days && staff in run.ledger.schedules
  }

  /** The cells of the block's first `n` periods. */
  predicate InBlock(c: Cell, day: nat, start: nat, n: nat) {
    c.day == day && start <= c.period < start + n
  }

  /**
   * `placeLabSubject(subject, day, startPeriod, staff, ...)`. Each pass of its loop pushes
   * one class entry, pushes one staff entry labelled `name (className)`, bumps the
   * teacher's counts and removes the cell from `availableSlots`; the three effects touch
   * disjoint state, so they are written here as three runs over the block's periods.
   * The class gets one entry per period of the block on `day` and nothing elsewhere; the
   * teacher gets the mirrored entries; the teacher's `daily[day]` and `total` grow by the
   * block's width; no other teacher changes; the block's cells leave `availableSlots`
   * and every other free cell stays.
   */
  function PlaceLabSubject(run: ClassRun, subject: Subject, day: nat, start: nat, staff: string, className: string): (r: ClassRun)
    requires CanBook(run, day, staff) && Distinct(run.avail)
    ensures CanBook(r, day, staff) && r.ledger.days == run.ledger.days && r.ledger.schedules.Keys == run.ledger.schedules.Keys
    ensures r.days == run.days[day := run.days[day] + LabEntries(subject.name, day, start, Width(subject.duration), staff, className)]
    ensures r.ledger.schedules[staff][day] ==
      run.ledger.schedules[staff][day] + LabEntries(Mirror(subject.name, className), day, start, Width(subject.duration), staff, className)
    ensures r.ledger.workload[staff].daily[day] == run.ledger.workload[staff].daily[day] + Width(subject.duration)
    ensures r.ledger.workload[staff].total == run.ledger.workload[staff].total + Width(subject.duration)
    ensures forall d :: 0 <= d < r.ledger.days && d != day ==>
      r.ledger.schedules[staff][d] == run.ledger.schedules[staff][d] && r.ledger.workload[staff].daily[d] == run.ledger.workload[staff].daily[d]
    ensures forall s :: s in r.ledger.schedules && s != staff ==>
      r.ledger.schedules[s] == run.ledger.schedules[s] && r.ledger.workload[s] == run.ledger.workload[s]
    ensures Balanced(run.ledger) ==> Balanced(r.ledger)
    ensures r.avail == RemoveAll(run.avail, BlockCells(day, start, subject.duration))
    ensures Distinct(r.avail) && forall c :: c in r.avail <==> c in run.avail && !InBlock(c, day, start, Width(subject.duration))
  {
    var n := Width(subject.duration);
    var mirrored := LabEntries(Mirror(subject.name, className), day, start, n, staff, className);
    var cells := BlockCells(day, start, subject.duration);
    BookAllEffect(run.ledger, staff, day, mirrored);
    RemoveAllDistinct(run.avail, cells);
    assert forall c :: c in cells <==> InBlock(c, day, start, n) by {
      forall c ensures c in cells <==> InBlock(c, day, start, n) {
        if InBlock(c, day, start, n) {
          assert cells[c.period - start] == c;
        }
      }
    }
    var r := ClassRun(run.days[day := run.days[day] + LabEntries(subject.name, day, start, n, staff, className)],
                      RemoveAll(run.avail, cells),
                      BookAll(run.ledger, staff, day, mirrored));
    assert Balanced(run.ledger) ==> Balanced(r.ledger) by {
      if Balanced(run.ledger) {
        BookAllBalanced(run.ledger, staff, day, mirrored);
      }
    }
    r
  }

  /** A lab block's entries sit exactly on the block's cells, which are all different. */
  lemma LabCells(tag: string, day: nat, start: nat, duration: int, staff: string, className: string)
    ensures CellsOf(LabEntries(tag, day, start, Width(duration), staff, className)) == BlockCells(day, start, duration)
    ensures Distinct(BlockCells(day, start, duration))
  {
    var cells := BlockCells(day, start, duration);
    var es := LabEntries(tag, day, start, Width(duration), staff, className);
    var cs := CellsOf(es);
    forall k | 0 <= k < |cs| ensures cs[k] == cells[k] {
      assert cs[k] == CellOf(es[k]);
      assert es[k] == Slot(day, start + k, tag, staff, className);
    }
    assert cs == cells;
    assert Distinct(cells) by {
      forall i, j | 0 <= i < j < |cells| ensures cells[i] != cells[j] {
        assert cells[i].period == start + i && cells[j].period == start + j;
      }
    }
  }

  /** A class whose cells and free cells covered the week's catalog still does after a lab placed on free cells. */
  lemma LabCover(run: ClassRun, subject: Subject, day: nat, start: nat, staff: string, className: string, catalog: seq<Cell>)
    requires CanBook(run, day, staff) && Distinct(run.avail)
    requires Covers(run, catalog) && BlockAvailable(run.avail, day, start, subject.duration)
    ensures Covers(PlaceLabSubject(run, subject, day, start, staff, className), catalog)
  {
    var r := PlaceLabSubject(run, subject, day, start, staff, className);
    var entries := LabEntries(subject.name, day, start, Width(subject.duration), staff, className);
    var cells := BlockCells(day, start, subject.duration);
    ClassCellsExtend(run.days, day, entries);
    LabCells(subject.name, day, start, subject.duration, staff, className);
    RemoveAllCount(run.avail, cells);
    assert multiset(ClassCells(r.days)) == multiset(ClassCells(run.days)) + multiset(cells);
    assert multiset(r.avail) + multiset(cells) == multiset(run.avail);
  }

  /** A lab and the block chosen for it (`labPlacements`' entries). */
  datatype LabPlan = LabPlan(subject: Subject, at: Placement)

  /** What `findOptimalStaff` needs for every lab's candidate teachers. */
  predicate AllReady(l: Ledger, labs: seq<Subject>) {
    Shaped(l) && forall i :: 0 <= i < |labs| ==> Known(l, labs[i].staff)
  }

  /**
   * The first loop of `placeLaboratorySubjects`: each lab's best block, chosen against the
   * class and ledger as they stand before any lab is placed; labs with no feasible block
   * are dropped.
   */
  /** The plan `placeLaboratorySubjects` records for one lab, if any block is feasible. */
  function PlanFor(l: Ledger, avail: seq<Cell>, s: Subject, periodsPerDay: nat): (r: Option<LabPlan>)
    requires Ready(l, s)
    ensures r.Some? ==> r.value.subject == s
  {
    match ChooseLab(l, avail, s, periodsPerDay)
    case None => None
    case Some(p) => Some(LabPlan(s, p))
  }

  function PlanLabs(l: Ledger, avail: seq<Cell>, labs: seq<Subject>, periodsPerDay: nat): (r: seq<LabPlan>)
    requires AllReady(l, labs)
    ensures |r| <= |labs|
  {
    if |labs| == 0 then []
    else
      var init := labs[..|labs| - 1];
      var s := labs[|labs| - 1];
      AllReadyPrefix(l, labs);
      var rest := PlanLabs(l, avail, init, periodsPerDay);
      match PlanFor(l, avail, s, periodsPerDay)
      case None => rest
      case Some(x) => rest + [x]
  }

  lemma AllReadyPrefix(l: Ledger, labs: seq<Subject>)
    requires AllReady(l, labs) && |labs| > 0
    ensures AllReady(l, labs[..|labs| - 1]) && Ready(l, labs[|labs| - 1])
  {
    var init := labs[..|labs| - 1];
    forall i | 0 <= i < |init| ensures Known(l, init[i].staff) {
      assert init[i] == labs[i];
    }
  }

  /** Every plan is a lab of the list together with the block `ChooseLab` picks for it. */
  lemma {:induction false} PlanLabsSound(l: Ledger, avail: seq<Cell>, labs: seq<Subject>, periodsPerDay: nat)
    requires AllReady(l, labs)
    ensures forall i :: 0 <= i < |PlanLabs(l, avail, labs, periodsPerDay)| ==>
      PlanLabs(l, avail, labs, periodsPerDay)[i].subject in labs &&
      Ready(l, PlanLabs(l, avail, labs, periodsPerDay)[i].subject) &&
      ChooseLab(l, avail, PlanLabs(l, avail, labs, periodsPerDay)[i].subject, periodsPerDay) == Some(PlanLabs(l, avail, labs, periodsPerDay)[i].at)
  {
    if |labs| > 0 {
      var init := labs[..|labs| - 1];
      AllReadyPrefix(l, labs);
      PlanLabsSound(l, avail, init, periodsPerDay);
      var rest := PlanLabs(l, avail, init, periodsPerDay);
      forall i | 0 <= i < |rest| ensures rest[i].subject in labs {
        assert rest[i].subject in init;
      }
    }
  }

  /** Every lab that has a feasible block gets a plan. */
  lemma {:induction false} PlanLabsComplete(l: Ledger, avail: seq<Cell>, labs: seq<Subject>, periodsPerDay: nat)
    requires AllReady(l, labs)
    ensures forall i :: 0 <= i < |labs| && PlanFor(l, avail, labs[i], periodsPerDay).Some? ==> Planned(l, avail, labs, periodsPerDay, labs[i])
  {
    if |labs| > 0 {
      var init := labs[..|labs| - 1];
      AllReadyPrefix(l, labs);
      PlanLabsComplete(l, avail, init, periodsPerDay);
      forall i | 0 <= i < |labs| && PlanFor(l, avail, labs[i], periodsPerDay).Some?
        ensures Planned(l, avail, labs, periodsPerDay, labs[i])
      {
        if i < |labs| - 1 {
          assert labs[i] == init[i];
          PlannedExtends(l, avail, labs, periodsPerDay, labs[i]);
        } else {
          PlanLabsLast(l, avail, labs, periodsPerDay);
        }
      }
    }
  }

  /** `s` has a plan among `PlanLabs`' plans for `labs`. */
  ghost predicate Planned(l: Ledger, avail: seq<Cell>, labs: seq<Subject>, periodsPerDay: nat, s: Subject)
    requires AllReady(l, labs)
  {
    exists j :: 0 <= j < |PlanLabs(l, avail, labs, periodsPerDay)| && PlanLabs(l, avail, labs, periodsPerDay)[j].subject == s
  }

  /** A lab planned for a list is still planned once another lab is added at its end. */
  lemma PlannedExtends(l: Ledger, avail: seq<Cell>, labs: seq<Subject>, periodsPerDay: nat, s: Subject)
    requires AllReady(l, labs) && |labs| > 0
    requires AllReady(l, labs[..|labs| - 1]) && Planned(l, avail, labs[..|labs| - 1], periodsPerDay, s)
    ensures Planned(l, avail, labs, periodsPerDay, s)
  {
    var j :| 0 <= j < |PlanLabs(l, avail, labs[..|labs| - 1], periodsPerDay)| && PlanLabs(l, avail, labs[..|labs| - 1], periodsPerDay)[j].subject == s;
    PlanLabsPrefix(l, avail, labs, periodsPerDay, j);
  }

  /** Adding a lab at the end keeps the earlier plans in place. */
  lemma PlanLabsPrefix(l: Ledger, avail: seq<Cell>, labs: seq<Subject>, periodsPerDay: nat, j: nat)
    requires AllReady(l, labs) && |labs| > 0
    requires AllReady(l, labs[..|labs| - 1]) && j < |PlanLabs(l, avail, labs[..|labs| - 1], periodsPerDay)|
    ensures j < |PlanLabs(l, avail, labs, periodsPerDay)|
    ensures PlanLabs(l, avail, labs, periodsPerDay)[j] == PlanLabs(l, avail, labs[..|labs| - 1], periodsPerDay)[j]
  {
    PlanLabsStep(l, avail, labs, periodsPerDay);
  }

  /** The last lab, when it has a plan, gets it at the end. */
  lemma PlanLabsLast(l: Ledger, avail: seq<Cell>, labs: seq<Subject>, periodsPerDay: nat)
    requires AllReady(l, labs) && |labs| > 0
    requires Ready(l, labs[|labs| - 1]) && PlanFor(l, avail, labs[|labs| - 1], periodsPerDay).Some?
    ensures Planned(l, avail, labs, periodsPerDay, labs[|labs| - 1])
  {
    PlanLabsStep(l, avail, labs, periodsPerDay);
    var rest := PlanLabs(l, avail, labs[..|labs| - 1], periodsPerDay);
    var r := PlanLabs(l, avail, labs, periodsPerDay);
    var x := PlanFor(l, avail, labs[|labs| - 1], periodsPerDay);
    assert r == rest + [x.value];
    assert r[|rest|] == x.value;
  }

  /** `PlanLabs` on a non-empty list: the plans for all but the last lab, then the last lab's plan if any. */
  lemma PlanLabsStep(l: Ledger, avail: seq<Cell>, labs: seq<Subject>, periodsPerDay: nat)
    requires AllReady(l, labs) && |labs| > 0
    ensures Ready(l, labs[|labs| - 1]) && AllReady(l, labs[..|labs| - 1])
    ensures PlanLabs(l, avail, labs, periodsPerDay) == PlanLabs(l, avail, labs[..|labs| - 1], periodsPerDay) +
      (var x := PlanFor(l, avail, labs[|labs| - 1], periodsPerDay); if x.Some? then [x.value] else [])
  {
    AllReadyPrefix(l, labs);
  }

  /** The cells of every planned block, plan after plan. */
  function PlanCells(plans: seq<LabPlan>): seq<Cell> {
    if |plans| == 0 then []
    else
      var p := plans[|plans| - 1];
      PlanCells(plans[..|plans| - 1]) + BlockCells(p.at.day, p.at.start, p.subject.duration)
  }

  /** What committing the plans asks of the class run: each plan's day and teacher exist. */
  predicate Committable(run: ClassRun, plans: seq<LabPlan>) {
    Shaped(run.ledger) && |run.days| == run.ledger.days &&
    forall i :: 0 <= i < |plans| ==> plans[i].at.day < run.ledger.days && plans[i].at.staff in run.ledger.schedules
  }

  /**
   * The second loop of `placeLaboratorySubjects`: `placeLabSubject` for each plan in turn.
   * Every planned cell leaves `availableSlots` (a cell already gone stays gone) and the
   * ledger stays balanced.
   */
  function CommitLabs(run: ClassRun, plans: seq<LabPlan>, className: string): (r: ClassRun)
    requires Committable(run, plans) && Distinct(run.avail)
    ensures Committable(r, plans) && r.ledger.days == run.ledger.days && r.ledger.schedules.Keys == run.ledger.schedules.Keys
    ensures Distinct(r.avail) && r.avail == RemoveAll(run.avail, PlanCells(plans))
    ensures forall c :: c in r.avail ==> c in run.avail
    ensures Balanced(run.ledger) ==> Balanced(r.ledger)
  {
    RemoveAllDistinct(run.avail, PlanCells(plans));
    if |plans| == 0 then run
    else
      var init := plans[..|plans| - 1];
      var p := plans[|plans| - 1];
      var mid := CommitLabs(run, init, className);
      RemoveAllConcat(run.avail, PlanCells(init), BlockCells(p.at.day, p.at.start, p.subject.duration));
      PlaceLabSubject(mid, p.subject, p.at.day, p.at.start, p.at.staff, className)
  }

  /** Committing the plans adds exactly the planned cells to the class's cells. */
  lemma {:induction false} CommitClassCells(run: ClassRun, plans: seq<LabPlan>, className: string)
    requires Committable(run, plans) && Distinct(run.avail)
    ensures multiset(ClassCells(CommitLabs(run, plans, className).days)) == multiset(ClassCells(run.days)) + multiset(PlanCells(plans))
  {
    if |plans| > 0 {
      CommitDaysStep(run, plans, className);
      CommitClassCells(run, plans[..|plans| - 1], className);
      CommitClassCellsStep(run, plans, className);
    }
  }

  lemma CommitClassCellsStep(run: ClassRun, plans: seq<LabPlan>, className: string)
    requires Committable(run, plans) && Distinct(run.avail) && |plans| > 0 && Committable(run, plans[..|plans| - 1])
    requires multiset(ClassCells(CommitLabs(run, plans[..|plans| - 1], className).days)) ==
      multiset(ClassCells(run.days)) + multiset(PlanCells(plans[..|plans| - 1]))
    ensures multiset(ClassCells(CommitLabs(run, plans, className).days)) == multiset(ClassCells(run.days)) + multiset(PlanCells(plans))
  {
    var p := plans[|plans| - 1];
    var a, b, c := multiset(ClassCells(run.days)), multiset(PlanCells(plans[..|plans| - 1])), multiset(BlockCells(p.at.day, p.at.start, p.subject.duration));
    CommitLastCells(run, plans, className);
    assert multiset(PlanCells(plans)) == b + c;
    MultisetRegroup(multiset(ClassCells(CommitLabs(run, plans, className).days)), multiset(ClassCells(CommitLabs(run, plans[..|plans| - 1], className).days)),
               a, b, c, multiset(PlanCells(plans)));
  }

  /** Committing the last plan adds its block's cells to the class's cells. */
  lemma CommitLastCells(run: ClassRun, plans: seq<LabPlan>, className: string)
    requires Committable(run, plans) && Distinct(run.avail) && |plans| > 0 && Committable(run, plans[..|plans| - 1])
    ensures var p := plans[|plans| - 1];
      multiset(ClassCells(CommitLabs(run, plans, className).days)) ==
        multiset(ClassCells(CommitLabs(run, plans[..|plans| - 1], className).days)) + multiset(BlockCells(p.at.day, p.at.start, p.subject.duration))
  {
    var p := plans[|plans| - 1];
    var mid := CommitLabs(run, plans[..|plans| - 1], className);
    var entries := LabEntries(p.subject.name, p.at.day, p.at.start, Width(p.subject.duration), p.at.staff, className);
    CommitDaysStep(run, plans, className);
    ClassCellsExtend(mid.days, p.at.day, entries);
    LabCells(p.subject.name, p.at.day, p.at.start, p.subject.duration, p.at.staff, className);
  }

  /**
   * When the planned blocks are free and do not overlap, the class's cells and free cells
   * still cover the week's catalog after the labs are committed.
   */
  lemma CommitCover(run: ClassRun, plans: seq<LabPlan>, className: string, catalog: seq<Cell>)
    requires Committable(run, plans) && Distinct(run.avail) && Covers(run, catalog)
    requires Distinct(PlanCells(plans)) && forall k :: 0 <= k < |PlanCells(plans)| ==> PlanCells(plans)[k] in run.avail
    ensures Covers(CommitLabs(run, plans, className), catalog)
  {
    CommitClassCells(run, plans, className);
    RemoveAllCount(run.avail, PlanCells(plans));
  }

  /** The lab phase as a whole: plan every lab against the starting state, then commit the plans. */
  function PlaceLaboratorySubjects(run: ClassRun, labs: seq<Subject>, periodsPerDay: nat, className: string): (r: ClassRun)
    requires AllReady(run.ledger, labs) && |run.days| == run.ledger.days && Distinct(run.avail)
    ensures |r.days| == |run.days| && r.ledger.days == run.ledger.days && r.ledger.schedules.Keys == run.ledger.schedules.Keys
    ensures Shaped(r.ledger) && Distinct(r.avail) && forall c :: c in r.avail ==> c in run.avail
    ensures Balanced(run.ledger) ==> Balanced(r.ledger)
  {
    var plans := PlanLabs(run.ledger, run.avail, labs, periodsPerDay);
    PlanLabsSound(run.ledger, run.avail, labs, periodsPerDay);
    assert Committable(run, plans) by {
      forall i | 0 <= i < |plans| ensures plans[i].at.day < run.ledger.days && plans[i].at.staff in run.ledger.schedules {
        var b := At(plans[i].at);
        assert BlockStaff(run.ledger, plans[i].subject, b) == Some(plans[i].at.staff);
      }
    }
    CommitLabs(run, plans, className)
  }

  /** The lab phase is the plans committed in order, and those plans can be committed. */
  lemma LabPhaseSteps(run: ClassRun, labs: seq<Subject>, periodsPerDay: nat, className: string)
    requires AllReady(run.ledger, labs) && |run.days| == run.ledger.days && Distinct(run.avail)
    ensures Committable(run, PlanLabs(run.ledger, run.avail, labs, periodsPerDay))
    ensures PlaceLaboratorySubjects(run, labs, periodsPerDay, className) ==
      CommitLabs(run, PlanLabs(run.ledger, run.avail, labs, periodsPerDay), className)
  {
    var plans := PlanLabs(run.ledger, run.avail, labs, periodsPerDay);
    PlanLabsSound(run.ledger, run.avail, labs, periodsPerDay);
    forall i | 0 <= i < |plans| ensures plans[i].at.day < run.ledger.days && plans[i].at.staff in run.ledger.schedules {
      assert BlockStaff(run.ledger, plans[i].subject, At(plans[i].at)) == Some(plans[i].at.staff);
    }
  }

  /** A plan's block lies in range, is free, and has a known teacher. */
  lemma PlanFits(l: Ledger, avail: seq<Cell>, s: Subject, periodsPerDay: nat)
    requires Ready(l, s) && PlanFor(l, avail, s, periodsPerDay).Some?
    ensures var x := PlanFor(l, avail, s, periodsPerDay).value;
      x.subject == s && x.at.day < l.days && x.at.staff in l.schedules &&
      BlockAvailable(avail, x.at.day, x.at.start, s.duration)
  {
    var p := ChooseLab(l, avail, s, periodsPerDay).value;
    assert BlockStaff(l, s, At(p)) == Some(p.staff);
  }

  /** `PlanLabs` of a single lab: its plan, if it has one. */
  lemma PlanLabsSingle(l: Ledger, avail: seq<Cell>, s: Subject, periodsPerDay: nat)
    requires Ready(l, s)
    ensures AllReady(l, [s])
    ensures PlanLabs(l, avail, [s], periodsPerDay) ==
      (var x := PlanFor(l, avail, s, periodsPerDay); if x.Some? then [x.value] else [])
  {
    assert AllReady(l, [s]);
    PlanLabsStep(l, avail, [s], periodsPerDay);
    assert [s][..0] == [];
  }

  /** The cells of one plan are its block's cells. */
  lemma PlanCellsSingle(x: LabPlan)
    ensures PlanCells([x]) == BlockCells(x.at.day, x.at.start, x.subject.duration)
  {
    assert [x][..0] == [];
  }

  /** One plan, free when chosen, keeps the class covering the catalog once committed. */
  lemma OnePlanCovers(run: ClassRun, s: Subject, periodsPerDay: nat, className: string, catalog: seq<Cell>)
    requires Shaped(run.ledger) && |run.days| == run.ledger.days && Distinct(run.avail)
    requires Covers(run, catalog) && Ready(run.ledger, s) && PlanFor(run.ledger, run.avail, s, periodsPerDay).Some?
    ensures Committable(run, [PlanFor(run.ledger, run.avail, s, periodsPerDay).value])
    ensures Covers(CommitLabs(run, [PlanFor(run.ledger, run.avail, s, periodsPerDay).value], className), catalog)
  {
    var x := PlanFor(run.ledger, run.avail, s, periodsPerDay).value;
    PlanFits(run.ledger, run.avail, s, periodsPerDay);
    PlanCellsSingle(x);
    LabCells(s.name, x.at.day, x.at.start, s.duration, x.at.staff, className);
    CommitCover(run, [x], className, catalog);
  }

  /**
   * With at most one lab, the lab phase keeps the class's cells and free cells covering
   * the week's catalog: the single block was free when it was chosen.
   */
  lemma SingleLabCovers(run: ClassRun, labs: seq<Subject>, periodsPerDay: nat, className: string, catalog: seq<Cell>)
    requires AllReady(run.ledger, labs) && |run.days| == run.ledger.days && Distinct(run.avail)
    requires |labs| <= 1 && Covers(run, catalog)
    ensures Covers(PlaceLaboratorySubjects(run, labs, periodsPerDay, className), catalog)
  {
    LabPhaseSteps(run, labs, periodsPerDay, className);
    if |labs| == 1 {
      var s := labs[0];
      assert labs == [s];
      PlanLabsSingle(run.ledger, run.avail, s, periodsPerDay);
      if PlanFor(run.ledger, run.avail, s, periodsPerDay).Some? {
        OnePlanCovers(run, s, periodsPerDay, className, catalog);
      }
    }
  }

  /** Committing a non-empty list of plans is committing all but the last, then placing the last. */
  lemma CommitDaysStep(run: ClassRun, plans: seq<LabPlan>, className: string)
    requires Committable(run, plans) && Distinct(run.avail) && |plans| > 0
    ensures Committable(run, plans[..|plans| - 1])
    ensures var x := plans[|plans| - 1];
      var mid := CommitLabs(run, plans[..|plans| - 1], className);
      x.at.day < |mid.days| &&
      CommitLabs(run, plans, className).days ==
        mid.days[x.at.day := mid.days[x.at.day] + LabEntries(x.subject.name, x.at.day, x.at.start, Width(x.subject.duration), x.at.staff, className)]
  {
  }

  /** The same plan committed twice writes its entries twice on its day. */
  lemma PlanTwice(run: ClassRun, x: LabPlan, className: string)
    requires Committable(run, [x, x]) && Distinct(run.avail)
    ensures x.at.day < |run.days|
    ensures CommitLabs(run, [x, x], className).days[x.at.day] ==
      run.days[x.at.day] + LabEntries(x.subject.name, x.at.day, x.at.start, Width(x.subject.duration), x.at.staff, className)
        + LabEntries(x.subject.name, x.at.day, x.at.start, Width(x.subject.duration), x.at.staff, className)
  {
    assert [x, x][..1] == [x] && [x][..0] == [];
    CommitDaysStep(run, [x, x], className);
    CommitDaysStep(run, [x], className);
  }

  /** A lab listed twice gets the same plan twice. */
  lemma PlanLabsRepeated(l: Ledger, avail: seq<Cell>, s: Subject, periodsPerDay: nat)
    requires Ready(l, s) && PlanFor(l, avail, s, periodsPerDay).Some?
    ensures AllReady(l, [s, s])
    ensures PlanLabs(l, avail, [s, s], periodsPerDay) == [PlanFor(l, avail, s, periodsPerDay).value, PlanFor(l, avail, s, periodsPerDay).value]
  {
    var x := PlanFor(l, avail, s, periodsPerDay).value;
    assert AllReady(l, [s, s]);
    PlanLabsStep(l, avail, [s, s], periodsPerDay);
    assert [s, s][..1] == [s];
    PlanLabsSingle(l, avail, s, periodsPerDay);
    assert PlanLabs(l, avail, [s], periodsPerDay) == [x];
    assert PlanLabs(l, avail, [s, s], periodsPerDay) == [x] + [x];
  }

  /**
   * Blocks are chosen against the state before any lab is placed, so a lab listed twice
   * gets the same block twice: the class's day holds the block's entries two times over.
   */
  lemma RepeatedLabDoubleBooks(run: ClassRun, s: Subject, periodsPerDay: nat, className: string)
    requires Ready(run.ledger, s) && AllReady(run.ledger, [s, s]) && |run.days| == run.ledger.days && Distinct(run.avail)
    requires PlanFor(run.ledger, run.avail, s, periodsPerDay).Some?
    ensures var p := PlanFor(run.ledger, run.avail, s, periodsPerDay).value.at;
      var e := LabEntries(s.name, p.day, p.start, Width(s.duration), p.staff, className);
      p.day < |run.days| &&
      PlaceLaboratorySubjects(run, [s, s], periodsPerDay, className).days[p.day] == run.days[p.day] + e + e
  {
    PlanLabsRepeated(run.ledger, run.avail, s, periodsPerDay);
    PlanFits(run.ledger, run.avail, s, periodsPerDay);
    LabPhaseSteps(run, [s, s], periodsPerDay, className);
    PlanTwice(run, PlanFor(run.ledger, run.avail, s, periodsPerDay).value, className);
  }

  /** Committing plans only adds entries, each naming a planned lab. */
  lemma {:induction false} CommitAddsNamed(run: ClassRun, plans: seq<LabPlan>, className: string, subjects: seq<Subject>)
    requires Committable(run, plans) && Distinct(run.avail)
    requires forall i :: 0 <= i < |plans| ==> NameOf(subjects, plans[i].subject.name)
    ensures AddsNamed(run.days, CommitLabs(run, plans, className).days, subjects)
  {
    if |plans| == 0 {
      assert AddsNamed(run.days, run.days, subjects);
    } else {
      var init := plans[..|plans| - 1];
      var x := plans[|plans| - 1];
      CommitDaysStep(run, plans, className);
      CommitAddsNamed(run, init, className, subjects);
      var mid := CommitLabs(run, init, className);
      var xs := LabEntries(x.subject.name, x.at.day, x.at.start, Width(x.subject.duration), x.at.staff, className);
      ExtendAddsNamed(mid.days, x.at.day, xs, subjects);
      AddsNamedTrans(run.days, mid.days, CommitLabs(run, plans, className).days, subjects);
    }
  }

  /** The lab phase only adds entries to the class, each naming one of the labs. */
  lemma LabPhaseAddsNamed(run: ClassRun, labs: seq<Subject>, periodsPerDay: nat, className: string)
    requires AllReady(run.ledger, labs) && |run.days| == run.ledger.days && Distinct(run.avail)
    ensures AddsNamed(run.days, PlaceLaboratorySubjects(run, labs, periodsPerDay, className).days, labs)
  {
    LabPhaseSteps(run, labs, periodsPerDay, className);
    PlanLabsSound(run.ledger, run.avail, labs, periodsPerDay);
    var plans := PlanLabs(run.ledger, run.avail, labs, periodsPerDay);
    forall i | 0 <= i < |plans| ensures NameOf(labs, plans[i].subject.name) {
      var j :| 0 <= j < |labs| && labs[j] == plans[i].subject;
    }
    CommitAddsNamed(run, plans, className, labs);
  }
}
