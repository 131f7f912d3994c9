/**
 * `createSubjectPool`: the regular subjects' names, each repeated its share of the
 * week's slots, then shuffled.
 */
module ScoredPool {
  import opened Timetable
  import opened Oracle

  /** `subjects.filter(s => !s.isLab)` */
  function Regular(subjects: seq<Subject>): (r: seq<Subject>)
    ensures forall s :: s in r <==> s in subjects && !s.isLab
    ensures |r| <= |subjects|
  {
    if |subjects| == 0 then []
    else (if subjects[0].isLab then [] else [subjects[0]]) + Regular(subjects[1..])
  }

  /** `baseFrequency + (index < remainder ? 1 : 0)`: the number of copies of the `i`-th regular subject. */
  function Quota(total: nat, n: nat, i: nat): nat
    requires n > 0
  {
    total / n + (if i < total % n then 1 else 0)
  }

  function Repeat(x: string, k: nat): (r: seq<string>)
    ensures |r| == k && forall i :: 0 <= i < k ==> r[i] == x
  {
    seq(k, i => x)
  }

  /** The pool before shuffling, from the `from`-th regular subject on. */
  function Unshuffled(regular: seq<Subject>, total: nat, from: nat): seq<string>
    requires |regular| > 0 && from <= |regular|
    decreases |regular| - from
  {
    if from == |regular| then []
    else Repeat(regular[from].name, Quota(total, |regular|, from)) + Unshuffled(regular, total, from + 1)
  }

  /**
   * `createSubjectPool(subjects, totalSlots)`: the empty pool when there is no regular
   * subject (and no draw is consumed); otherwise the unshuffled pool run through the shuffle.
   */
  function CreateSubjectPool(subjects: seq<Subject>, totalSlots: nat, rnd: Rng, cursor: nat): (r: Drawn<seq<string>>)
    requires Valid(rnd)
    ensures |Regular(subjects)| == 0 ==> r.value == [] && r.next == cursor
    ensures |Regular(subjects)| > 0 ==>
      |r.value| == totalSlots && multiset(r.value) == multiset(Unshuffled(Regular(subjects), totalSlots, 0))
    ensures forall x :: x in r.value ==> exists s :: s in subjects && !s.isLab && s.name == x
  {
    var regular := Regular(subjects);
    if |regular| == 0 then Drawn([], cursor)
    else
      var pool := Unshuffled(regular, totalSlots, 0);
      PoolLength(regular, totalSlots);
      UnshuffledNames(regular, totalSlots, 0);
      var r := Shuffle(pool, rnd, cursor);
      assert forall x :: x in r.value ==> x in pool by {
        forall x | x in r.value ensures x in pool {
          assert x in multiset(r.value);
        }
      }
      r
  }

  /** Before shuffling, the pool holds exactly `total` labels. */
  lemma PoolLength(regular: seq<Subject>, total: nat)
    requires |regular| > 0
    ensures |Unshuffled(regular, total, 0)| == total
  {
    UnshuffledLength(regular, total, 0);
    var n := |regular|;
    assert total == n * (total / n) + total % n;
  }

  /** Every label in the pool is the name of a regular subject. */
  lemma {:induction false} UnshuffledNames(regular: seq<Subject>, total: nat, from: nat)
    requires |regular| > 0 && from <= |regular|
    ensures forall x :: x in Unshuffled(regular, total, from) ==> exists s :: s in regular && s.name == x
    decreases |regular| - from
  {
    if from < |regular| {
      UnshuffledNames(regular, total, from + 1);
    }
  }

  /** The quotas from the `from`-th subject on add up to the rest of `total`. */
  lemma {:induction false} UnshuffledLength(regular: seq<Subject>, total: nat, from: nat)
    requires |regular| > 0 && from <= |regular|
    ensures |Unshuffled(regular, total, from)| ==
      (|regular| - from) * (total / |regular|) + (if from < total % |regular| then total % |regular| - from else 0)
    decreases |regular| - from
  {
    var n := |regular|;
    if from < n {
      UnshuffledLength(regular, total, from + 1);
      var b := total / n;
      assert (n - from) * b == b + (n - from - 1) * b;
    }
  }

  /** The `i`-th regular subject's name occurs exactly `Quota(i)` times, when names are distinct. */
  lemma {:induction false} UnshuffledCount(regular: seq<Subject>, total: nat, from: nat, i: nat)
    requires |regular| > 0 && from <= i < |regular|
    requires forall a, b :: 0 <= a < b < |regular| ==> regular[a].name != regular[b].name
    ensures multiset(Unshuffled(regular, total, from))[regular[i].name] == Quota(total, |regular|, i)
    decreases |regular| - from
  {
    var x := regular[i].name;
    UnshuffledHead(regular, total, from, x);
    RepeatCount(regular[from].name, Quota(total, |regular|, from), x);
    if from < i {
      UnshuffledCount(regular, total, from + 1, i);
    } else {
      UnshuffledAbsent(regular, total, from + 1, x);
    }
  }

  /** The occurrences of `x` from the `from`-th subject on: its own share, then the rest. */
  lemma UnshuffledHead(regular: seq<Subject>, total: nat, from: nat, x: string)
    requires |regular| > 0 && from < |regular|
    ensures multiset(Unshuffled(regular, total, from))[x] ==
      multiset(Repeat(regular[from].name, Quota(total, |regular|, from)))[x] + multiset(Unshuffled(regular, total, from + 1))[x]
  {
    var head := Repeat(regular[from].name, Quota(total, |regular|, from));
    var rest := Unshuffled(regular, total, from + 1);
    assert Unshuffled(regular, total, from) == head + rest;
    assert multiset(head + rest) == multiset(head) + multiset(rest);
  }

  lemma {:induction false} UnshuffledAbsent(regular: seq<Subject>, total: nat, from: nat, x: string)
    requires |regular| > 0 && from <= |regular|
    requires forall j :: from <= j < |regular| ==> regular[j].name != x
    ensures multiset(Unshuffled(regular, total, from))[x] == 0
    decreases |regular| - from
  {
    if from < |regular| {
      RepeatCount(regular[from].name, Quota(total, |regular|, from), x);
      UnshuffledAbsent(regular, total, from + 1, x);
    }
  }

  lemma {:induction false} RepeatCount(y: string, k: nat, x: string)
    ensures multiset(Repeat(y, k))[x] == if x == y then k else 0
  {
    if k > 0 {
      assert Repeat(y, k) == Repeat(y, k - 1) + [y];
      RepeatCount(y, k - 1, x);
    }
  }

  /**
   * The pool holds `totalSlots` labels, and when the regular subjects have distinct
   * names the `i`-th one occurs `floor(T/n) + (i < T mod n ? 1 : 0)` times, whatever the draws.
   */
  lemma PoolShares(subjects: seq<Subject>, totalSlots: nat, rnd: Rng, cursor: nat, i: nat)
    requires Valid(rnd)
    requires i < |Regular(subjects)|
    requires forall a, b :: 0 <= a < b < |Regular(subjects)| ==> Regular(subjects)[a].name != Regular(subjects)[b].name
    ensures multiset(CreateSubjectPool(subjects, totalSlots, rnd, cursor).value)[Regular(subjects)[i].name]
      == totalSlots / |Regular(subjects)| + (if i < totalSlots % |Regular(subjects)| then 1 else 0)
  {
    UnshuffledCount(Regular(subjects), totalSlots, 0, i);
  }
}
