/**
 * The random source both engines draw from, and the Fisher–Yates shuffle built on it.
 *
 * `Math.random()` is replaced by an oracle: a stream of reals in [0, 1) and a cursor
 * saying how many of them have been consumed so far. Every property proved about a
 * shuffle or a random pick holds for every valid stream.
 */
module Oracle {

  /** The k-th value `Math.random()` returns in the run. */
  type Rng = nat -> real

  /** Every value of the stream lies in [0, 1), as `Math.random()` promises. */
  ghost predicate Valid(rnd: Rng) {
    forall k: nat :: 0.0 <= rnd(k) < 1.0
  }

  /** `Math.floor(x * n)`: a uniform draw `x` turned into an index below `n`. */
  function Pick(x: real, n: nat): (j: nat)
    requires 0.0 <= x < 1.0 && n > 0
    ensures j < n
  {
    var y := x * (n as real);
    assert 0.0 <= y < n as real by {
      assert (1.0 - x) * (n as real) > 0.0;
    }
    y.Floor
  }

  /** A value together with the cursor just after the draws that produced it. */
  datatype Drawn<T> = Drawn(value: T, next: nat)

  /** `[a[i], a[j]] = [a[j], a[i]]` */
  function Swap<T>(a: seq<T>, i: nat, j: nat): (r: seq<T>)
    requires i < |a| && j < |a|
    ensures |r| == |a| && multiset(r) == multiset(a)
  {
    a[i := a[j]][j := a[i]]
  }

  /** The Fisher–Yates loop from index `i` down to 1, drawing from the stream at `cursor`. */
  function ShuffleDown<T>(a: seq<T>, i: nat, rnd: Rng, cursor: nat): (r: Drawn<seq<T>>)
    requires i < |a| && Valid(rnd)
    ensures multiset(r.value) == multiset(a) && |r.value| == |a|
    ensures r.next == cursor + i
    decreases i
  {
    if i == 0 then Drawn(a, cursor)
    else
      var j := Pick(rnd(cursor), i + 1);
      ShuffleDown(Swap(a, i, j), i - 1, rnd, cursor + 1)
  }

  /**
   * `shuffleArray(array)`: a copy of `array` permuted by Fisher–Yates, consuming one
   * draw per index from the last down to 1.
   */
  function Shuffle<T>(a: seq<T>, rnd: Rng, cursor: nat): (r: Drawn<seq<T>>)
    requires Valid(rnd)
    ensures multiset(r.value) == multiset(a) && |r.value| == |a|
    ensures r.next == cursor + (if |a| == 0 then 0 else |a| - 1)
  {
    if |a| == 0 then Drawn(a, cursor) else ShuffleDown(a, |a| - 1, rnd, cursor)
  }
}
