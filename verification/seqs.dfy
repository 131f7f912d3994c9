/** Sequence helpers shared by the engines: sums, `findIndex` + `splice`, and per-key views. */
module Seqs {

  function Sum(s: seq<nat>): nat
  {
    if |s| == 0 then 0 else Sum(s[..|s| - 1]) + s[|s| - 1]
  }

  /** Incrementing one entry raises the sum by one. */
  lemma {:induction false} SumIncrement(s: seq<nat>, i: nat)
    requires i < |s|
    ensures Sum(s[i := s[i] + 1]) == Sum(s) + 1
    decreases |s|
  {
    var t := s[i := s[i] + 1];
    var last := |s| - 1;
    if i < last {
      assert t[..last] == s[..last][i := s[i] + 1];
      SumIncrement(s[..last], i);
    } else {
      assert t[..last] == s[..last];
    }
  }

  /** `whole = (a + b) + c` and `tail = b + c` give `whole = a + tail`. */
  lemma MultisetRegroup<T>(whole: multiset<T>, front: multiset<T>, a: multiset<T>, b: multiset<T>, c: multiset<T>, tail: multiset<T>)
    requires whole == front + c && front == a + b && tail == b + c
    ensures whole == a + tail
  {
  }

  /** A non-empty list holds its last element once more than the rest of it. */
  lemma MultisetInit<T>(s: seq<T>)
    requires |s| > 0
    ensures multiset(s) == multiset(s[..|s| - 1]) + multiset{s[|s| - 1]}
  {
    assert s == s[..|s| - 1] + [s[|s| - 1]];
  }

  /**
   * `const i = s.findIndex(y => y == x); if (i !== -1) s.splice(i, 1)`: removes the first
   * occurrence of `x`, leaving everything else in place.
   */
  function RemoveFirst<T(==)>(s: seq<T>, x: T): (r: seq<T>)
    ensures x !in s ==> r == s
    ensures x in s ==> |r| == |s| - 1 && multiset(r) + multiset{x} == multiset(s)
    ensures forall y :: y in r ==> y in s
    ensures forall y :: y in s && y != x ==> y in r
  {
    if |s| == 0 then s
    else if s[0] == x then
      assert s == [x] + s[1..];
      s[1..]
    else
      var rest := RemoveFirst(s[1..], x);
      assert s == [s[0]] + s[1..];
      assert x in s ==> multiset([s[0]] + rest) + multiset{x} == multiset(s) by {
        if x in s {
          assert x in s[1..];
          assert multiset([s[0]] + rest) + multiset{x} == multiset{s[0]} + (multiset(rest) + multiset{x});
        }
      }
      [s[0]] + rest
  }

  /** From a list without repeats, removing `x` removes every occurrence and keeps the list without repeats. */
  lemma {:induction false} RemoveFirstDistinct<T>(s: seq<T>, x: T)
    requires Distinct(s)
    ensures x !in RemoveFirst(s, x) && Distinct(RemoveFirst(s, x))
  {
    if |s| > 0 && s[0] != x {
      assert Distinct(s[1..]) by {
        forall i, j | 0 <= i < j < |s[1..]| ensures s[1..][i] != s[1..][j] {
          assert s[1..][i] == s[i + 1] && s[1..][j] == s[j + 1];
        }
      }
      RemoveFirstDistinct(s[1..], x);
      var rest := RemoveFirst(s[1..], x);
      assert s[0] !in s[1..] by {
        forall k | 0 <= k < |s[1..]| ensures s[1..][k] != s[0] {
          assert s[1..][k] == s[k + 1];
        }
      }
    } else if |s| > 0 {
      assert x !in s[1..] by {
        forall k | 0 <= k < |s[1..]| ensures s[1..][k] != x {
          assert s[1..][k] == s[k + 1];
        }
      }
      assert Distinct(s[1..]) by {
        forall i, j | 0 <= i < j < |s[1..]| ensures s[1..][i] != s[1..][j] {
          assert s[1..][i] == s[i + 1] && s[1..][j] == s[j + 1];
        }
      }
    }
  }

  /** Removes the first occurrence of each of `xs` in turn, as a loop of `RemoveFirst` calls does. */
  function RemoveAll<T(==)>(s: seq<T>, xs: seq<T>): seq<T>
  {
    if |xs| == 0 then s else RemoveFirst(RemoveAll(s, xs[..|xs| - 1]), xs[|xs| - 1])
  }

  /** Removing `a` and then `b` is removing `a + b`. */
  lemma {:induction false} RemoveAllConcat<T>(s: seq<T>, a: seq<T>, b: seq<T>)
    ensures RemoveAll(RemoveAll(s, a), b) == RemoveAll(s, a + b)
  {
    if |b| == 0 {
      assert a + b == a;
    } else {
      var init := b[..|b| - 1];
      RemoveAllConcat(s, a, init);
      assert (a + b)[..|a + b| - 1] == a + init;
      assert (a + b)[|a + b| - 1] == b[|b| - 1];
    }
  }

  /** From a list without repeats, `RemoveAll` leaves exactly the elements not in `xs`, still without repeats. */
  lemma {:induction false} RemoveAllDistinct<T>(s: seq<T>, xs: seq<T>)
    requires Distinct(s)
    ensures Distinct(RemoveAll(s, xs))
    ensures forall y :: y in RemoveAll(s, xs) <==> y in s && y !in xs
  {
    if |xs| > 0 {
      var init := xs[..|xs| - 1];
      RemoveAllDistinct(s, init);
      RemoveFirstDistinct(RemoveAll(s, init), xs[|xs| - 1]);
      InitLast(xs);
    }
  }

  /** When `xs` has no repeats and all of it is in `s`, `RemoveAll` takes away exactly `xs`. */
  lemma {:induction false} RemoveAllCount<T>(s: seq<T>, xs: seq<T>)
    requires Distinct(s) && Distinct(xs)
    requires forall k :: 0 <= k < |xs| ==> xs[k] in s
    ensures multiset(RemoveAll(s, xs)) + multiset(xs) == multiset(s)
  {
    if |xs| > 0 {
      var init := xs[..|xs| - 1];
      var x := xs[|xs| - 1];
      assert Distinct(init) by {
        forall i, j | 0 <= i < j < |init| ensures init[i] != init[j] {
          assert init[i] == xs[i] && init[j] == xs[j];
        }
      }
      assert forall k :: 0 <= k < |init| ==> init[k] in s by {
        forall k | 0 <= k < |init| ensures init[k] in s {
          assert init[k] == xs[k];
        }
      }
      RemoveAllCount(s, init);
      RemoveAllDistinct(s, init);
      assert x !in init by {
        forall k | 0 <= k < |init| ensures init[k] != x {
          assert init[k] == xs[k];
        }
      }
      var r := RemoveAll(s, init);
      assert x in r;
      assert multiset(xs) == multiset(init) + multiset{x} by {
        assert xs == init + [x];
      }
      MultisetMove(multiset(RemoveAll(s, xs)), multiset(r), multiset(init), multiset(s), x);
    }
  }

  /** Moving one `x` from a part to the other part keeps the total. */
  lemma MultisetMove<T>(a: multiset<T>, r: multiset<T>, i: multiset<T>, s: multiset<T>, x: T)
    requires a + multiset{x} == r && r + i == s
    ensures a + (i + multiset{x}) == s
  {
  }

  /** A non-empty sequence is its front followed by its last element. */
  lemma InitLast<T>(s: seq<T>)
    requires |s| > 0
    ensures s == s[..|s| - 1] + [s[|s| - 1]]
  {
  }

  /** Appending the last element of `xs` after a prefix that ends in the rest of `xs`. */
  lemma AppendSnoc<T>(a: seq<T>, init: seq<T>, x: T, xs: seq<T>)
    requires xs == init + [x]
    ensures (a + init) + [x] == a + xs
  {
  }

  /** No element occurs twice. */
  predicate Distinct<T(==)>(s: seq<T>) {
    forall i, j :: 0 <= i < j < |s| ==> s[i] != s[j]
  }

  /** In a list without repeats every element occurs exactly once. */
  lemma {:induction false} DistinctCount<T>(s: seq<T>, x: T)
    requires Distinct(s)
    ensures multiset(s)[x] == if x in s then 1 else 0
  {
    if |s| > 0 {
      var init := s[..|s| - 1];
      assert Distinct(init);
      DistinctCount(init, x);
      MultisetInit(s);
      assert x in s <==> x in init || x == s[|s| - 1];
      assert s[|s| - 1] !in init;
    }
  }

  lemma FirstIn<T>(s: seq<T>)
    requires |s| > 0
    ensures s[0] in s
  {
  }

  /** The index of the first element of `s[i..]` that satisfies `p`, or `|s|` when none does. */
  function FirstMatch<T>(s: seq<T>, p: T -> bool, i: nat): (r: nat)
    requires i <= |s|
    ensures i <= r <= |s|
    ensures r < |s| ==> p(s[r])
    ensures forall j :: i <= j < r ==> !p(s[j])
    decreases |s| - i
  {
    if i == |s| || p(s[i]) then i else FirstMatch(s, p, i + 1)
  }

  /** `s.indexOf(x)` read as a position: where `x` first occurs in `s`, or `|s|` when it does not. */
  function FirstIndex<T(==)>(s: seq<T>, x: T): (r: nat)
    ensures r <= |s| && (r < |s| <==> x in s)
    ensures r < |s| ==> s[r] == x && x !in s[..r]
  {
    if x !in s then |s|
    else if x in s[..|s| - 1] then FirstIndex(s[..|s| - 1], x)
    else
      assert s == s[..|s| - 1] + [s[|s| - 1]];
      |s| - 1
  }

  /** One more element at the end moves no first occurrence, and gives a new one its own index. */
  lemma FirstIndexSnoc<T>(s: seq<T>, x: T, y: T)
    ensures y in s ==> FirstIndex(s + [x], y) == FirstIndex(s, y)
    ensures y !in s && y == x ==> FirstIndex(s + [x], y) == |s|
  {
    assert (s + [x])[..|s|] == s;
  }

  /** The elements of `r` come in the order of their first occurrence in `names`. */
  ghost predicate FirstSeenOrder<T>(r: seq<T>, names: seq<T>) {
    forall i, j :: 0 <= i < j < |r| ==> FirstIndex(names, r[i]) < FirstIndex(names, r[j])
  }

  /**
   * Another element at the end of `names` keeps the first-seen order of elements already
   * seen, and an element seen for the first time may join at the end.
   */
  lemma AppendOrder<T>(front: seq<T>, prior: seq<T>, x: T)
    requires FirstSeenOrder(front, prior) && forall y :: y in front ==> y in prior
    ensures FirstSeenOrder(front, prior + [x])
    ensures x !in prior ==> FirstSeenOrder(front + [x], prior + [x])
  {
    forall y | y in front || y == x ensures FirstIndex(prior + [x], y) == if y in prior then FirstIndex(prior, y) else |prior| {
      FirstIndexSnoc(prior, x, y);
    }
    if x !in prior {
      var r := front + [x];
      forall i, j | 0 <= i < j < |r| ensures FirstIndex(prior + [x], r[i]) < FirstIndex(prior + [x], r[j]) {
        assert r[i] == front[i];
        if j < |front| {
          assert r[j] == front[j];
        }
      }
    }
  }

  /** `s.filter(p)`: the elements of `s` that satisfy `p`, in order. */
  function Filter<T(!new)>(s: seq<T>, p: T -> bool): (r: seq<T>)
    ensures |r| <= |s|
    ensures forall x :: x in r <==> x in s && p(x)
    ensures forall x :: multiset(r)[x] == if p(x) then multiset(s)[x] else 0
  {
    if |s| == 0 then []
    else
      var init := s[..|s| - 1];
      var last := s[|s| - 1];
      var r := Filter(init, p) + (if p(last) then [last] else []);
      assert s == init + [last];
      assert multiset(s) == multiset(init) + multiset{last};
      r
  }
}
