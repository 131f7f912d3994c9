/**
 * The state of the first-fit engine and its staff choice. Class and staff schedules are
 * flat lists of slots; a staff member's load is the length of their list.
 */
module FirstFitStaff {
  import opened Wrappers
  import opened Timetable

  /**
   * `TimeSlot` as this engine fills it. The day is kept as its index into `DAYS`
   * (the engine stores `DAYS[day]`, and `DAYS` has no repeats).
   */
  datatype Slot = Slot(day: nat, period: nat, timeRange: string, subject: string, subjectCode: string,
                       staff: string, className: string)

  /** One entry of `warnings`: a class cell no candidate teacher was free for. */
  datatype Unassigned = Unassigned(className: string, day: nat, period: nat)

  /** `staffSchedules`: each registered teacher's slots. */
  type Schedules = map<string, seq<Slot>>

  /** The staff text of a slot nobody could be found for. */
  const UnassignedStaff: string := "Unassigned"

  /** `staff` as a JavaScript condition sees it: a value, and not the empty string. */
  predicate Present(staff: Option<string>) {
    staff.Some? && staff.value != ""
  }

  /** `staff || "Unassigned"` */
  function StaffText(staff: Option<string>): string {
    if Present(staff) then staff.value else UnassignedStaff
  }

  /** No slot of the schedule is at (`day`, `period`). */
  predicate FreeAt(schedule: seq<Slot>, day: nat, period: nat) {
    forall k :: 0 <= k < |schedule| ==> !(schedule[k].day == day && schedule[k].period == period)
  }

  /** A candidate `getLeastLoadedStaff` considers: registered, and free at the cell. */
  predicate Eligible(m: Schedules, c: string, day: nat, period: nat) {
    c in m && FreeAt(m[c], day, period)
  }

  /**
   * `r` is what the scan must hold after the first `n` candidates: nothing when none of
   * them is eligible, otherwise an eligible one with the shortest schedule, every eligible
   * candidate before it having a strictly longer one.
   */
  ghost predicate LeastSoFar(m: Schedules, cands: seq<string>, day: nat, period: nat, n: nat, r: Option<string>)
    requires n <= |cands|
  {
    (r.None? <==> forall j :: 0 <= j < n ==> !Eligible(m, cands[j], day, period)) &&
    (r.Some? ==>
      exists i :: 0 <= i < n && cands[i] == r.value && Eligible(m, cands[i], day, period) &&
        (forall j :: 0 <= j < n && Eligible(m, cands[j], day, period) ==> |m[r.value]| <= |m[cands[j]]|) &&
        (forall j :: 0 <= j < i && Eligible(m, cands[j], day, period) ==> |m[r.value]| < |m[cands[j]]|))
  }

  /**
   * The loop of `getLeastLoadedStaff` from candidate `i` on: `best` is the choice so far,
   * and `minLoad` is its schedule's length (`Infinity` while there is none).
   */
  function LeastFrom(m: Schedules, cands: seq<string>, day: nat, period: nat, i: nat, best: Option<string>): (r: Option<string>)
    requires i <= |cands| && LeastSoFar(m, cands, day, period, i, best)
    ensures LeastSoFar(m, cands, day, period, |cands|, r)
    decreases |cands| - i
  {
    if i == |cands| then best
    else
      var c := cands[i];
      var best' :=
        if Eligible(m, c, day, period) && (best.None? || |m[c]| < |m[best.value]|) then Some(c) else best;
      assert LeastSoFar(m, cands, day, period, i + 1, best') by {
        LeastStep(m, cands, day, period, i, best, best');
      }
      LeastFrom(m, cands, day, period, i + 1, best')
  }

  lemma LeastStep(m: Schedules, cands: seq<string>, day: nat, period: nat, i: nat, best: Option<string>, best': Option<string>)
    requires i < |cands| && LeastSoFar(m, cands, day, period, i, best)
    requires best' == if Eligible(m, cands[i], day, period) && (best.None? || |m[cands[i]]| < |m[best.value]|) then Some(cands[i]) else best
    ensures LeastSoFar(m, cands, day, period, i + 1, best')
  {
    var c := cands[i];
    if best.Some? {
      var k :| 0 <= k < i && cands[k] == best.value && Eligible(m, cands[k], day, period) &&
        (forall j :: 0 <= j < i && Eligible(m, cands[j], day, period) ==> |m[best.value]| <= |m[cands[j]]|) &&
        (forall j :: 0 <= j < k && Eligible(m, cands[j], day, period) ==> |m[best.value]| < |m[cands[j]]|);
      if best' == Some(c) {
        assert cands[i] == best'.value;
      } else {
        assert cands[k] == best'.value;
      }
    } else if Eligible(m, c, day, period) {
      assert cands[i] == best'.value;
    }
  }

  /**
   * `getLeastLoadedStaff(candidates, day, period)`: among the candidates that are
   * registered and free at (`day`, `period`), the first one with the shortest schedule;
   * `None` (`null`) when there is none.
   */
  function LeastLoadedStaff(m: Schedules, cands: seq<string>, day: nat, period: nat): (r: Option<string>)
    ensures r.None? <==> forall c :: c in cands ==> !Eligible(m, c, day, period)
    ensures r.Some? ==> r.value in cands && Eligible(m, r.value, day, period)
    ensures r.Some? ==> forall c :: c in cands && Eligible(m, c, day, period) ==> |m[r.value]| <= |m[c]|
    ensures r.Some? ==> exists i :: (0 <= i < |cands| && cands[i] == r.value &&
      forall j :: 0 <= j < i && Eligible(m, cands[j], day, period) ==> |m[r.value]| < |m[cands[j]]|)
  {
    LeastFrom(m, cands, day, period, 0, None)
  }

  /** `{ ...slot, subject: `${subject} (${className})` }`: the copy a staff schedule gets. */
  function Mirror(x: Slot): Slot {
    x.(subject := x.subject + " (" + x.className + ")")
  }

  /** The copies staff member `s` gets of the slots of `xs` that name them, in order. */
  function MirrorsOf(xs: seq<Slot>, s: string): seq<Slot>
  {
    if |xs| == 0 then []
    else MirrorsOf(xs[..|xs| - 1], s) + (if xs[|xs| - 1].staff == s then [Mirror(xs[|xs| - 1])] else [])
  }

  /** The warnings the unstaffed slots of `xs` give, in order. */
  function Unstaffed(xs: seq<Slot>): seq<Unassigned>
  {
    if |xs| == 0 then []
    else
      var x := xs[|xs| - 1];
      Unstaffed(xs[..|xs| - 1]) + (if x.staff == UnassignedStaff then [Unassigned(x.className, x.day, x.period)] else [])
  }

  lemma {:induction false} MirrorsOfConcat(a: seq<Slot>, b: seq<Slot>, s: string)
    ensures MirrorsOf(a + b, s) == MirrorsOf(a, s) + MirrorsOf(b, s)
  {
    if |b| > 0 {
      assert (a + b)[..|a + b| - 1] == a + b[..|b| - 1];
      MirrorsOfConcat(a, b[..|b| - 1], s);
    } else {
      assert a + b == a;
    }
  }

  lemma {:induction false} UnstaffedConcat(a: seq<Slot>, b: seq<Slot>)
    ensures Unstaffed(a + b) == Unstaffed(a) + Unstaffed(b)
  {
    if |b| > 0 {
      assert (a + b)[..|a + b| - 1] == a + b[..|b| - 1];
      UnstaffedConcat(a, b[..|b| - 1]);
    } else {
      assert a + b == a;
    }
  }

  /** A warning is listed for a slot exactly when the slot is unstaffed. */
  lemma {:induction false} UnstaffedMembers(xs: seq<Slot>, w: Unassigned)
    ensures w in Unstaffed(xs) <==>
      exists k :: 0 <= k < |xs| && xs[k].staff == UnassignedStaff && w == Unassigned(xs[k].className, xs[k].day, xs[k].period)
  {
    if |xs| > 0 {
      var init := xs[..|xs| - 1];
      UnstaffedMembers(init, w);
      if w in Unstaffed(init) {
        var k :| 0 <= k < |init| && init[k].staff == UnassignedStaff && w == Unassigned(init[k].className, init[k].day, init[k].period);
        assert xs[k] == init[k];
      }
      if exists k :: 0 <= k < |xs| && xs[k].staff == UnassignedStaff && w == Unassigned(xs[k].className, xs[k].day, xs[k].period) {
        var k :| 0 <= k < |xs| && xs[k].staff == UnassignedStaff && w == Unassigned(xs[k].className, xs[k].day, xs[k].period);
        if k < |init| {
          assert init[k] == xs[k];
        }
      }
    }
  }

  /** The cells the slots occupy, with multiplicity. */
  function Occupied(xs: seq<Slot>): multiset<Cell>
  {
    if |xs| == 0 then multiset{} else Occupied(xs[..|xs| - 1]) + multiset{Cell(xs[|xs| - 1].day, xs[|xs| - 1].period)}
  }

  lemma {:induction false} OccupiedConcat(a: seq<Slot>, b: seq<Slot>)
    ensures Occupied(a + b) == Occupied(a) + Occupied(b)
  {
    if |b| > 0 {
      assert (a + b)[..|a + b| - 1] == a + b[..|b| - 1];
      OccupiedConcat(a, b[..|b| - 1]);
    } else {
      assert a + b == a;
    }
  }
}
