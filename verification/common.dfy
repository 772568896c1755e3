/** Small shared vocabulary: optional values, the runtime faults the module can
    raise, and sums and counts over sequences with the lemmas the other modules
    need about them. */
module Common {

  /** A value that may be absent; `None` plays the part of a C# `null`. */
  datatype Option<+T> = None | Some(value: T)

  /** The runtime exceptions the modelled code can raise. */
  datatype Fault =
    | IndexOutOfRange   // List.RemoveAt / an indexer given a position outside the list
    | DivideByZero      // integer division by a zero total

  /** The outcome of a computation that either produces a value or throws. */
  datatype Result<+T> = Success(value: T) | Failure(fault: Fault)

  /** The sum of a sequence of integers (LINQ `Sum`). */
  function Sum(s: seq<int>): int
  {
    if |s| == 0 then 0 else Sum(s[..|s| - 1]) + s[|s| - 1]
  }

  /** The number of elements of `s` satisfying `p` (LINQ `Count(predicate)`). */
  function Count<T>(s: seq<T>, p: T -> bool): nat
  {
    if |s| == 0 then 0 else Count(s[..|s| - 1], p) + (if p(s[|s| - 1]) then 1 else 0)
  }

  /** The positions of `s` whose element satisfies `p`. */
  function Positions<T>(s: seq<T>, p: T -> bool): set<nat>
  {
    set i: nat | i < |s| && p(s[i])
  }

  /** A count never exceeds the length. */
  lemma {:induction false} CountAtMostLength<T>(s: seq<T>, p: T -> bool)
    ensures Count(s, p) <= |s|
    decreases |s|
  {
    if |s| > 0 {
      CountAtMostLength(s[..|s| - 1], p);
    }
  }

  lemma {:induction false} SumAppend(a: seq<int>, b: seq<int>)
    ensures Sum(a + b) == Sum(a) + Sum(b)
    decreases |b|
  {
    if |b| == 0 {
      assert a + b == a;
    } else {
      assert (a + b)[..|a + b| - 1] == a + b[..|b| - 1];
      SumAppend(a, b[..|b| - 1]);
    }
  }

  /** Overwriting one element changes the sum by exactly the difference. */
  lemma {:induction false} SumUpdate(s: seq<int>, i: nat, v: int)
    requires i < |s|
    ensures Sum(s[i := v]) == Sum(s) - s[i] + v
    decreases |s|
  {
    var n := |s|;
    if i < n - 1 {
      assert s[i := v][..n - 1] == s[..n - 1][i := v];
      SumUpdate(s[..n - 1], i, v);
    } else {
      assert s[i := v][..n - 1] == s[..n - 1];
    }
  }

  /** A sequence of `n` copies of `c` sums to `n * c`. */
  lemma {:induction false} SumConstant(n: nat, c: int)
    ensures Sum(seq(n, _ => c)) == n * c
  {
    if n > 0 {
      assert seq(n, _ => c)[..n - 1] == seq(n - 1, _ => c);
      SumConstant(n - 1, c);
    }
  }

  /** In a sequence of non-negative integers every element is at most the sum. */
  lemma {:induction false} ElementAtMostSum(s: seq<int>, i: nat)
    requires i < |s|
    requires forall k :: 0 <= k < |s| ==> s[k] >= 0
    ensures 0 <= s[i] <= Sum(s)
    decreases |s|
  {
    var n := |s|;
    if i < n - 1 {
      ElementAtMostSum(s[..n - 1], i);
    } else if n > 1 {
      ElementAtMostSum(s[..n - 1], 0);
    }
  }

  lemma {:induction false} CountAppend<T>(a: seq<T>, b: seq<T>, p: T -> bool)
    ensures Count(a + b, p) == Count(a, p) + Count(b, p)
    decreases |b|
  {
    if |b| == 0 {
      assert a + b == a;
    } else {
      assert (a + b)[..|a + b| - 1] == a + b[..|b| - 1];
      CountAppend(a, b[..|b| - 1], p);
    }
  }

  /** `Count` agrees with the number of positions whose element satisfies the
      predicate: the recursive count and the set-based definition coincide. */
  lemma {:induction false} CountIsPositions<T>(s: seq<T>, p: T -> bool)
    ensures Count(s, p) == |Positions(s, p)|
    decreases |s|
  {
    if |s| > 0 {
      var n := |s| - 1;
      var init := s[..n];
      CountIsPositions(init, p);
      if p(s[n]) {
        assert Positions(s, p) == Positions(init, p) + {n};
      } else {
        assert Positions(s, p) == Positions(init, p);
      }
    }
  }

  /** Two distinct positions satisfying `p` make the count at least two. */
  lemma CountAtLeastTwo<T>(s: seq<T>, p: T -> bool, i: nat, j: nat)
    requires i < j < |s| && p(s[i]) && p(s[j])
    ensures Count(s, p) >= 2
  {
    CountIsPositions(s, p);
    assert {i, j} <= Positions(s, p);
    assert |{i, j}| == 2;
    SubsetCardinality({i, j}, Positions(s, p));
  }

  /** A sequence holding two different values has at least two elements. */
  lemma TwoMembers<T>(s: seq<T>, a: T, b: T)
    requires a in s && b in s && a != b
    ensures |s| >= 2
  {
  }

  /** When every element satisfying `p` is matched by a positive weight and no
      weight is negative, the weights sum to at least the count. */
  lemma {:induction false} SumAtLeastCount<T>(w: seq<int>, s: seq<T>, p: T -> bool)
    requires |w| == |s|
    requires forall i :: 0 <= i < |w| ==> w[i] >= 0
    requires forall i :: 0 <= i < |s| && p(s[i]) ==> w[i] >= 1
    ensures Sum(w) >= Count(s, p)
    decreases |s|
  {
    if |s| > 0 {
      var n := |s| - 1;
      SumAtLeastCount(w[..n], s[..n], p);
    }
  }

  /** Counts under two predicates that agree on every element are equal. */
  lemma {:induction false} CountSame<T>(s: seq<T>, p: T -> bool, q: T -> bool)
    requires forall i :: 0 <= i < |s| ==> p(s[i]) == q(s[i])
    ensures Count(s, p) == Count(s, q)
    decreases |s|
  {
    if |s| > 0 {
      CountSame(s[..|s| - 1], p, q);
    }
  }

  lemma SubsetCardinality<T>(a: set<T>, b: set<T>)
    requires a <= b
    ensures |a| <= |b|
  {
    assert b == a + (b - a);
  }
}
