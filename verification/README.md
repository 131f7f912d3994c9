# maestro-time timetable engines, modelled in Dafny

maestro-time builds weekly school timetables. Its engine comes in two versions, and this
project models both as pure functions over immutable state, with proofs of what each
one guarantees.

- **The scored engine** (`src/utils/timetableGenerator.ts`). It keeps the *valid*
  subjects: a non-blank name and at least one non-blank teacher. It sizes and shuffles a
  *subject pool* of regular-subject names. Then, for each class `Class A`, `Class B`, …:
  - it places every lab at its best-scoring block (`placeLaboratorySubjects`,
    `calculatePlacementScore`, `placeLabSubject`);
  - it fills the remaining cells from the pool, with a per-day cap per subject and
    least-loaded teachers (`fillRegularSubjects`, `placeRegularSubject`,
    `findAlternativeSubject`, `findOptimalStaff`);
  - it sorts every day by period.

  A per-teacher ledger threads through the run: one list of entries per day, plus
  `daily[]` and `total` counters.
- **The first-fit engine** (`frontend/src/utils/timetableGenerator.ts`). It enumerates
  the classes as department × year × section. It lists the non-break cells of the week.
  For each class it shuffles the named subjects, then:
  - it places each lab at the first block that fits, in day-then-period order;
  - it gives every remaining cell a random regular subject, taught by the least-loaded
    free teacher or by the literal `"Unassigned"`;
  - it reports every unstaffed cell in `warnings`.

  It also formats a period as the text `HH:MM - HH:MM` (`getTimeRange`).

`Math.random()` becomes an oracle, `Oracle.Rng`: a stream of reals in [0, 1) and a cursor
counting the draws used so far. Every property below holds for every valid stream.
Fisher–Yates (`shuffleArray`) is modelled draw for draw.

Modules:
- `Wrappers`: `Option`/`Result`.
- `Text`: `trim`, number to text, zero padding, `fromCharCode`.
- `Seqs`: sums, `splice`-removal, distinctness.
- `Oracle`: the random source and the shuffle.
- `Timetable`: subjects, cells, blocks, breaks.
- Scored engine: `ScoredLedger`, `ScoredPool`, `ScoredLabs`, `ScoredFill`, `PeriodSort`
  and `ScoredEngine`.
- First-fit engine: `FirstFitTime`, `FirstFitStaff`, `FirstFitLabs`, `FirstFitFill` and
  `FirstFitEngine`.

Behaviour worth knowing, all of it modelled as the code has it:
- The scored engine's pool holds `daysPerWeek * periodsPerDay` names, one per cell of the
  week, although the labs take some cells first. The fill reads the pool cyclically and
  stops at the last free cell.
- When no teacher of a regular subject is free, the scored engine writes the first
  non-blank teacher, who may be busy. It never writes `Unassigned`: that last fallback
  (`src/utils/timetableGenerator.ts:368`) is reached only by a subject whose teachers are
  all blank, and such a subject is not valid, so it never reaches the fill. Nor does the
  scored engine report unstaffed slots.
- The first-fit engine throws when no named subject is a regular one and some class still
  has a free period after its labs. With no classes, or with labs filling every free
  period, it returns normally.
- Neither engine keeps (day, period) unique within one teacher's schedule, and the scored
  engine does not keep it unique within a class either: see `ScoredLabs.RepeatedLabDoubleBooks`.

## Model

| member | source | states |
|---|---|---|
| Oracle.Pick | src/utils/timetableGenerator.ts:414 | `Math.floor(Math.random() * n)` is an index below `n` for every draw in [0, 1) |
| Oracle.ShuffleDown | frontend/src/utils/timetableGenerator.ts:8-11 | the swap loop from index `i` down to 1 permutes the array (same multiset, same length) and consumes exactly `i` draws |
| Oracle.Shuffle | src/utils/timetableGenerator.ts:411-418 | `shuffleArray` returns a permutation of its input and consumes one draw per index from the last down to 1 (none for an empty array) |
| Text.BlankIff | src/utils/timetableGenerator.ts:9 | `s.trim()` is falsy exactly when every character of `s` is ECMAScript white space or a line terminator |
| Text.NatToStringRoundTrip | frontend/src/utils/timetableGenerator.ts:21 | `String(n)` reads back as `n` |
| Text.PadTwo | frontend/src/utils/timetableGenerator.ts:21 | `padStart(2,'0')` gives digits only, exactly two of them below 100, and reads back as the number |
| Text.FromCharCode | frontend/src/utils/timetableGenerator.ts:45 | `String.fromCharCode(code)` is the character with that code |
| Seqs.RemoveFirst | src/utils/timetableGenerator.ts:345-349 | the `findIndex`/`splice` pair removes one occurrence of a present element, keeping the rest as a multiset, and leaves the list alone when the element is absent |
| Seqs.RemoveAllCount | src/utils/timetableGenerator.ts:317-349 | removing a repeat-free block of present cells from a repeat-free list takes away exactly that block (multiset difference) |
| Timetable.BlockCells | src/utils/timetableGenerator.ts:148-151 | `slotsNeeded` is the `duration` consecutive cells of the day from the start period (none for a non-positive duration) |
| Timetable.Blocks | src/utils/timetableGenerator.ts:145-146 | the start cells the two loops visit: every day below the bound and every start from 1 to `periodsPerDay - duration + 1`, in strictly increasing day-then-period order |
| Timetable.Catalog | frontend/src/utils/timetableGenerator.ts:80-87 | `availablePeriods` holds exactly the cells of the week whose period is not a break of that day, in strictly increasing day-then-period order (so without repeats) |
| ScoredEngine.ValidSubjects | src/utils/timetableGenerator.ts:9 | a subject is kept exactly when its name and at least one teacher are non-blank |
| ScoredEngine.NoValidIff | src/utils/timetableGenerator.ts:9-12 | the valid list is empty exactly when no subject is valid |
| ScoredEngine.StaffOrder | src/utils/timetableGenerator.ts:19-31 | the `allStaff` set in insertion order: each non-blank teacher of any subject, once, nobody else, in the order of their first occurrence among the subjects' staff lists |
| ScoredEngine.AddStaffOrder | src/utils/timetableGenerator.ts:21-25 | adding one subject's non-blank teachers to the set keeps first-occurrence order over the staff lists read so far |
| ScoredEngine.Staff | src/utils/timetableGenerator.ts:39-43 | the staff map's entries, and so the returned staff timetables, follow the `allStaff` insertion order, one per registered teacher |
| ScoredEngine.StartLedger | src/utils/timetableGenerator.ts:19-43 | the starting ledger registers exactly the non-blank teachers, is balanced, and knows every subject's non-blank teachers |
| ScoredEngine.ClassNamesDistinct | src/utils/timetableGenerator.ts:34-35 | the class names `Class ${fromCharCode(65 + i)}` differ for different classes |
| ScoredEngine.StartRun | src/utils/timetableGenerator.ts:53-58 | a class starts with empty days and every cell of the week available |
| ScoredEngine.SortedDays | src/utils/timetableGenerator.ts:84-86 | each day of a class comes out in period order and holds the same entries |
| ScoredEngine.StaffTimetables | src/utils/timetableGenerator.ts:89-98 | each teacher's timetable holds the ledger's entries for them, day by day, sorted by period |
| ScoredEngine.Generate | src/utils/timetableGenerator.ts:6-103 | fails with "No valid subjects provided" exactly when no subject is valid; otherwise returns `numClasses` classes named `Class A`, … with one period-sorted list per day, and one timetable per teacher named anywhere, each once, in the order of first occurrence among the subjects' staff lists, with sorted days |
| ScoredEngine.GeneratedEntriesValid | src/utils/timetableGenerator.ts:46-87 | every class entry names a valid subject |
| ScoredEngine.GeneratedCoverage | src/utils/timetableGenerator.ts:46-87 | with at most one lab and at least one regular subject, every class has exactly one entry on each cell of the week and none elsewhere |
| ScoredEngine.WeekCounts | src/utils/timetableGenerator.ts:53-58 | the listed cells of the week each occur once, and no other cell occurs |
| ScoredPool.CreateSubjectPool | src/utils/timetableGenerator.ts:107-127 | the pool is empty (and draws nothing) without regular subjects; otherwise it has `totalSlots` names, a permutation of the unshuffled pool, each name a regular subject's |
| ScoredPool.PoolShares | src/utils/timetableGenerator.ts:113-123 | when regular names are distinct, the `i`-th regular subject occurs `floor(T/n) + (i < T mod n ? 1 : 0)` times, whatever the draws |
| ScoredPool.UnshuffledLength | src/utils/timetableGenerator.ts:113-123 | the quotas from subject `from` on add up to `(n - from) * floor(T/n)` plus the remainders still due |
| ScoredLedger.Empty | src/utils/timetableGenerator.ts:25-28 | a fresh ledger: every listed teacher has empty days and zero counts, and the ledger is balanced |
| ScoredLedger.BookEffect | src/utils/timetableGenerator.ts:380-393 | one booking appends the entry to the teacher's day and adds one to `daily[day]` and `total`; no other day or teacher changes |
| ScoredLedger.BookBalanced | src/utils/timetableGenerator.ts:390-392 | a booking keeps `total = Σ daily` and `daily[d] = number of entries on day d` |
| ScoredLedger.BookAllEffect | src/utils/timetableGenerator.ts:329-343 | booking a run of entries appends all of them to the teacher's day and counts each once; no other day or teacher changes |
| ScoredLedger.BookAllBalanced | src/utils/timetableGenerator.ts:341-343 | booking a run of entries keeps the ledger balanced |
| ScoredLedger.LightestFrom | src/utils/timetableGenerator.ts:289-297 | the `reduce` over the filtered candidates, run from any optimal prefix state, ends optimal over all candidates |
| ScoredLedger.StepKeepsOptimal | src/utils/timetableGenerator.ts:293-296 | one reduce step keeps the choice optimal over the candidates seen so far |
| ScoredLedger.FindOptimalStaff | src/utils/timetableGenerator.ts:273-298 | `null` exactly when no non-blank candidate is free at all the periods of the day; otherwise a free candidate no free one beats on (`daily[day]`, `total`), every free one before it strictly beaten |
| ScoredLedger.ClassCellsExtend | src/utils/timetableGenerator.ts:329 | appending entries to one day of a class adds exactly their cells to the class's cells |
| ScoredLabs.Score | src/utils/timetableGenerator.ts:300-305 | the placement score lies in [5, 20] |
| ScoredLabs.ScorePreferences | src/utils/timetableGenerator.ts:300-305 | starts 3 to 6 score five more than other starts, and a lighter teacher day never scores less |
| ScoredLabs.CandidatesSound | src/utils/timetableGenerator.ts:145-173 | each recorded placement is a visited block, all of its cells available, with `findOptimalStaff`'s pick and its score |
| ScoredLabs.CandidatesComplete | src/utils/timetableGenerator.ts:145-173 | every visited block that is available and has a free teacher is recorded |
| ScoredLabs.CandidatesOrdered | src/utils/timetableGenerator.ts:145-171 | placements are recorded in strictly increasing day-then-start order |
| ScoredLabs.BestIndex | src/utils/timetableGenerator.ts:179-180 | the first element after a stable descending sort by score: a maximum, every earlier one strictly lower |
| ScoredLabs.ChooseLab | src/utils/timetableGenerator.ts:142-187 | no placement exactly when no block in range is available with a free teacher; otherwise a feasible in-range block with the optimal teacher and its score, scoring at least every feasible block and strictly more than every earlier one |
| ScoredLabs.PlaceLabSubject | src/utils/timetableGenerator.ts:307-351 | the class gets one entry per period of the block on that day; the teacher gets the `name (className)` copies; `daily[day]` and `total` grow by the block's width; no other teacher changes; the ledger stays balanced; exactly the block's cells leave `availableSlots` |
| ScoredLabs.LabCover | src/utils/timetableGenerator.ts:317-349 | placing an available block keeps (class cells + available cells) equal to the week |
| ScoredLabs.PlanLabsSound | src/utils/timetableGenerator.ts:139-188 | every recorded plan is for one of the labs, at the block `ChooseLab` picks against the state before any lab is placed |
| ScoredLabs.PlanLabsComplete | src/utils/timetableGenerator.ts:178-187 | every lab with a feasible block gets a plan |
| ScoredLabs.CommitLabs | src/utils/timetableGenerator.ts:190-202 | placing the plans in turn removes every planned cell from `availableSlots` and keeps the ledger balanced |
| ScoredLabs.CommitClassCells | src/utils/timetableGenerator.ts:190-202 | the class gains exactly the planned blocks' cells |
| ScoredLabs.CommitCover | src/utils/timetableGenerator.ts:190-202 | when the planned cells are distinct and all available, committing keeps (class cells + available cells) equal to the week |
| ScoredLabs.LabPhaseSteps | src/utils/timetableGenerator.ts:130-203 | `placeLaboratorySubjects` plans every lab against the starting state, then commits the plans |
| ScoredLabs.SingleLabCovers | src/utils/timetableGenerator.ts:130-203 | with at most one lab, the lab phase keeps (class cells + available cells) equal to the week |
| ScoredLabs.RepeatedLabDoubleBooks | src/utils/timetableGenerator.ts:142-202 | a lab listed twice is placed twice on the same block: the class day holds the block's entries twice |
| ScoredLabs.LabPhaseAddsNamed | src/utils/timetableGenerator.ts:190-202 | the lab phase only appends entries, and each names one of the labs |
| ScoredFill.MaxPerDay | src/utils/timetableGenerator.ts:235 | `Math.ceil(periodsPerDay / 3)`: the least cap whose triple covers the day |
| ScoredFill.FindAlternativeSubject | src/utils/timetableGenerator.ts:400-409 | the first subject under the cap for the day when there is one; otherwise `subjects[0]` |
| ScoredFill.FindByName | src/utils/timetableGenerator.ts:229 | `find` by name: the first subject with that name, or none exactly when no subject has it |
| ScoredFill.FirstNonBlank | src/utils/timetableGenerator.ts:368 | `find(s => s.trim())`: the first non-blank teacher, or none exactly when all are blank |
| ScoredFill.PickStaff | src/utils/timetableGenerator.ts:362-368 | when some teacher is free, `findOptimalStaff`'s pick: a free teacher no free one is lighter than, every free one listed before it strictly heavier; otherwise the first non-blank teacher, busy or not; otherwise `Unassigned` |
| ScoredFill.PlaceRegularSubject | src/utils/timetableGenerator.ts:353-398 | the class day gains the entry; a registered teacher is booked with the mirrored entry and an unregistered one is not; only the subject's counter for the day goes up; the ledger stays balanced |
| ScoredFill.RegularChoice | src/utils/timetableGenerator.ts:226-246 | a subject is placed exactly when the pool is non-empty and its next name is a regular subject's; that subject is kept while it is under the cap for the day, and otherwise `findAlternativeSubject` picks: the first under the cap, else `subjects[0]` |
| ScoredFill.FillCellsPlaces | src/utils/timetableGenerator.ts:226-269 | with a pool of regular names, each visited cell gets exactly one class entry and the pool index advances once per cell |
| ScoredFill.EmptyPoolPlacesNothing | src/utils/timetableGenerator.ts:228-231 | with an empty pool every pass skips: nothing changes |
| ScoredFill.FillRegularSubjects | src/utils/timetableGenerator.ts:206-270 | the fill leaves `availableSlots` as it was, keeps the ledger balanced, and consumes one draw per available cell but the first |
| ScoredFill.FillCoversCatalog | src/utils/timetableGenerator.ts:223-269 | after the fill, the class's cells are exactly the cells of the week |
| ScoredFill.FillAddsNamed | src/utils/timetableGenerator.ts:226-266 | the fill only appends entries, and each names a regular subject |
| PeriodSort.SortSorted | src/utils/timetableGenerator.ts:84-86 | the sorted day is in non-decreasing period order |
| PeriodSort.SortPermutes | src/utils/timetableGenerator.ts:84-86 | the sort loses, adds and duplicates nothing |
| PeriodSort.SortStable | src/utils/timetableGenerator.ts:84-86 | entries of the same period keep their relative order |
| PeriodSort.SortIdempotent | src/utils/timetableGenerator.ts:89-94 | sorting a sorted day again changes nothing |
| PeriodSort.SortCells | src/utils/timetableGenerator.ts:84-86 | the sort keeps the cells a day occupies |
| FirstFitTime.TimeRangeSpan | frontend/src/utils/timetableGenerator.ts:16-22 | period `p` starts at minute `540 + 30(p - 1)` of the day and ends half an hour later |
| FirstFitTime.Contiguous | frontend/src/utils/timetableGenerator.ts:16-22 | each period ends where the next begins |
| FirstFitTime.TimeRangeReads | frontend/src/utils/timetableGenerator.ts:16-22 | below hour 100 the text is `HH:MM - HH:MM`, and its numbers read back as the start and end minute |
| FirstFitStaff.LeastLoadedStaff | frontend/src/utils/timetableGenerator.ts:58-76 | `null` exactly when no registered candidate is free at the cell; otherwise a free candidate whose schedule is no longer than any free one's, every free one before it strictly longer |
| FirstFitStaff.UnstaffedMembers | frontend/src/utils/timetableGenerator.ts:156-158 | a warning is listed for a class's slots exactly when one of them is unstaffed and the warning describes it |
| FirstFitEngine.SectionLetter | frontend/src/utils/timetableGenerator.ts:45 | the section is one character, with code `65 + sectionIndex` |
| FirstFitEngine.ClassListAt | frontend/src/utils/timetableGenerator.ts:42-50 | the class at department `d`, year `y + 1`, section `s` stands at position `(d·Y + y)·S + s` |
| FirstFitEngine.ClassCount | frontend/src/utils/timetableGenerator.ts:42-50 | there are `|departments| × yearsPerDepartment × sectionsPerYear` classes |
| FirstFitEngine.Roster | frontend/src/utils/timetableGenerator.ts:53-56 | the `Set` of non-empty teachers: each teacher of any subject once, nobody else, in the order of their first occurrence among the subjects' staff lists |
| FirstFitEngine.Week | frontend/src/utils/timetableGenerator.ts:80-87 | the free periods: every cell of the week that is not a break, without repeats |
| FirstFitEngine.Shuffled | frontend/src/utils/timetableGenerator.ts:89 | the class's shuffled subjects are a permutation of the named subjects (a subject listed twice keeps both copies), drawn with one draw per index but the first |
| FirstFitEngine.Generate | frontend/src/utils/timetableGenerator.ts:26-174 | succeeds whenever some named subject is regular, and otherwise fails only with the `undefined`-read error; on success the classes follow the department/year/section enumeration and the staff follow the roster |
| FirstFitEngine.GeneratedCoverage | frontend/src/utils/timetableGenerator.ts:79-159 | every class has exactly one slot on each non-break cell of the week and none elsewhere |
| FirstFitEngine.GeneratedInStep | frontend/src/utils/timetableGenerator.ts:110-158 | each teacher's timetable is exactly, class by class and in order, the `subject (className)` copies of the slots that name them; the warnings are exactly the unstaffed slots, in order |
| FirstFitEngine.AllUnstaffedMembers | frontend/src/utils/timetableGenerator.ts:156-158 | a warning is listed exactly when some class slot is unstaffed and the warning describes it |
| FirstFitEngine.GeneratedWarnings | frontend/src/utils/timetableGenerator.ts:156-172 | a returned warning exists exactly for the unstaffed class slots |
| FirstFitEngine.NoNamedSubjectFails | frontend/src/utils/timetableGenerator.ts:136-138 | with no named subject, at least one class and at least one free period in the week, the regular loop reads `staff` of `undefined` and the run fails |
| FirstFitEngine.StaffTimetables | frontend/src/utils/timetableGenerator.ts:162-165 | one timetable per roster teacher, in order, holding that teacher's schedule |
| FirstFitLabs.FindBlock | frontend/src/utils/timetableGenerator.ts:97-109 | no block exactly when no in-range start fits; otherwise a fitting in-range start that no fitting start precedes in day-then-period order |
| FirstFitLabs.PlaceLab | frontend/src/utils/timetableGenerator.ts:110-127 | the class gains one slot per period of the block; the teacher gains their copies; nobody else changes; exactly the block's cells leave `availablePeriods` |
| FirstFitLabs.PlaceOneLab | frontend/src/utils/timetableGenerator.ts:94-133 | a lab that fits nowhere changes nothing; otherwise the class gains that lab's slots at the first fitting block, with the teacher found there |
| FirstFitLabs.PlaceLabCovers | frontend/src/utils/timetableGenerator.ts:110-127 | placing a free block keeps (class cells + available cells) equal to the week |
| FirstFitLabs.PlaceLabsCovers | frontend/src/utils/timetableGenerator.ts:94-133 | the whole lab loop keeps (class cells + available cells) equal to the week, so labs never overlap each other |
| FirstFitLabs.PlaceLabsTracked | frontend/src/utils/timetableGenerator.ts:122-123 | the lab loop gives each teacher exactly the copies of the new slots that name them, and adds no warning |
| FirstFitFill.RegularSlot | frontend/src/utils/timetableGenerator.ts:136-148 | the slot sits on the cell with the subject; its teacher is the least-loaded free candidate, or `Unassigned` when none is free (both ways when no real teacher is called `Unassigned` or empty) |
| FirstFitFill.FillRegular | frontend/src/utils/timetableGenerator.ts:136-159 | fails exactly when there is no regular subject and some cell is left; otherwise adds one slot per remaining cell |
| FirstFitFill.FillCellsSlots | frontend/src/utils/timetableGenerator.ts:136-150 | the added slots sit, in order, on the remaining cells, each teaching one of the regular subjects |
| FirstFitFill.FillRegularCovers | frontend/src/utils/timetableGenerator.ts:136-150 | after the regular loop, the class occupies exactly the cells of the week |
| FirstFitFill.FillRegularTracked | frontend/src/utils/timetableGenerator.ts:150-158 | the regular loop mirrors each staffed slot to its teacher and warns about each unstaffed one |

## Left out

- Randomness: `Math.random` is an oracle parameter. No statement is made about the distribution of draws.
- `console.warn` calls (frontend/src/utils/timetableGenerator.ts:132, 167) have no effect on the result and are not modelled.
- The React pages, routing, printing and the Firebase reads and writes are I/O around the engines and are not modelled.
- Days are at most five (`DAYS` has five names, and the scored engine's day counters have five slots). Inputs with more days are outside the model.
- `String.fromCharCode(65 + i)` is modelled only for codes below 0xD800, because a Dafny `char` cannot hold a lone surrogate.
- A slot's `day` is kept as its index into `DAYS` instead of the day's name. `DAYS` has no repeats, so nothing is lost.
- Scored engine: the source types slots as optional-field records and schedules as `TimeSlot[][]`. The model keeps only the fields the engine writes.
- First-fit engine: a class or staff schedule is a flat list of slots, as the engine fills it, although the type says `TimeSlot[][]`.
- Integers are unbounded. The engines' counts and periods never approach 2^53, and `duration` is an integer whose non-positive values give an empty block, as `Array.from` does.
- ScoredEngine.GeneratedCoverage: stated only for at most one lab and at least one regular subject. Labs are planned against the state before any lab is placed, so two labs can claim the same cells or teacher (`ScoredLabs.RepeatedLabDoubleBooks` shows it).
- ScoredLabs.SingleLabCovers: only for at most one lab, for the same reason. For more labs, `ScoredLabs.CommitCover` states coverage under the condition that the planned cells are distinct and available.
- ScoredFill.PickStaff: when no teacher is free, the fallback teacher may already be busy at that period. The contract names that teacher and claims no freedom for them.
- FirstFitLabs.FindBlock: the teacher is checked free only at the block's start period, as the code does. No freedom is claimed for the later periods of the block.
- FirstFitEngine.GeneratedInStep: stated for inputs where no teacher is literally called `Unassigned`. With such a teacher, the sentinel and the name cannot be told apart.
- FirstFitEngine.GeneratedWarnings: states which warnings appear and that they follow the slots in order (through `GeneratedInStep`), not a separate count per slot.
- FirstFitEngine.Generate: with no regular subject, the source throws only if some class has a free period left after its labs. The model proves failure when no subject is named and the week has a free period (`NoNamedSubjectFails`). It does not prove failure for every input where labs leave a period free.
- ScoredLabs.BestIndex: `Array.prototype.sort` is stable in every engine since ECMAScript 2019, so the descending sort's first element is modelled as the first maximum in visiting order.
