/** Sums, counts and extremes of integer sequences: the vocabulary the
    histogram stages are specified in. */
module SeqMath {

  /** Sum of the elements, accumulated from the left like the source's loops. */
  function Sum(s: seq<int>): int {
    if |s| == 0 then 0 else Sum(s[..|s| - 1]) + s[|s| - 1]
  }

  /** Number of elements equal to `v`. */
  function Count(s: seq<int>, v: int): nat {
    if |s| == 0 then 0 else Count(s[..|s| - 1], v) + (if s[|s| - 1] == v then 1 else 0)
  }

  /** Number of elements strictly below `k`. */
  function CountBelow(s: seq<int>, k: int): nat {
    if |s| == 0 then 0 else CountBelow(s[..|s| - 1], k) + (if s[|s| - 1] < k then 1 else 0)
  }

  predicate InRange(s: seq<int>, lo: int, hi: int) {
    forall i :: 0 <= i < |s| ==> lo <= s[i] <= hi
  }

  predicate NonNegative(s: seq<int>) {
    forall i :: 0 <= i < |s| ==> 0 <= s[i]
  }

  /** The smallest element. */
  function Min(s: seq<int>): (m: int)
    requires |s| > 0
    ensures forall i :: 0 <= i < |s| ==> m <= s[i]
    ensures exists i :: 0 <= i < |s| && s[i] == m
  {
    if |s| == 1 then s[0]
    else
      var m := Min(s[..|s| - 1]);
      if s[|s| - 1] < m then s[|s| - 1] else m
  }

  /** The largest element. */
  function Max(s: seq<int>): (m: int)
    requires |s| > 0
    ensures forall i :: 0 <= i < |s| ==> s[i] <= m
    ensures exists i :: 0 <= i < |s| && s[i] == m
  {
    if |s| == 1 then s[0]
    else
      var m := Max(s[..|s| - 1]);
      if s[|s| - 1] > m then s[|s| - 1] else m
  }

  /** Extending a prefix by one element updates its extremes as the
      source's `if (x < min) min = x` and `if (x > max) max = x` do. */
  lemma ExtremesStep(s: seq<int>, i: int)
    requires 0 < i < |s|
    ensures Min(s[..i + 1]) == if s[i] < Min(s[..i]) then s[i] else Min(s[..i])
    ensures Max(s[..i + 1]) == if s[i] > Max(s[..i]) then s[i] else Max(s[..i])
  {
    assert s[..i + 1][..i] == s[..i];
  }

  function Zeros(n: nat): (z: seq<int>)
    ensures |z| == n
    ensures forall i :: 0 <= i < n ==> z[i] == 0
  {
    seq(n, _ => 0)
  }

  /** Every element increased by `k`. */
  function AddEach(s: seq<int>, k: int): (r: seq<int>)
    ensures |r| == |s|
  {
    seq(|s|, i requires 0 <= i < |s| => s[i] + k)
  }

  lemma {:induction false} SumAppend(a: seq<int>, b: seq<int>)
    ensures Sum(a + b) == Sum(a) + Sum(b)
    decreases |b|
  {
    if |b| == 0 {
      assert a + b == a;
    } else {
      assert (a + b)[..|a + b| - 1] == a + b[..|b| - 1];
      SumAppend(a, b[..|b| - 1]);
    }
  }

  lemma {:induction false} SumZeros(n: nat)
    ensures Sum(Zeros(n)) == 0
  {
    if n > 0 {
      assert Zeros(n)[..n - 1] == Zeros(n - 1);
      SumZeros(n - 1);
    }
  }

  /** Adding `d` to one element adds `d` to the sum. */
  lemma {:induction false} SumUpdate(s: seq<int>, i: int, d: int)
    requires 0 <= i < |s|
    ensures Sum(s[i := s[i] + d]) == Sum(s) + d
    decreases |s|
  {
    var t := s[i := s[i] + d];
    if i == |s| - 1 {
      assert t[..|t| - 1] == s[..|s| - 1];
    } else {
      assert t[..|t| - 1] == s[..|s| - 1][i := s[i] + d];
      SumUpdate(s[..|s| - 1], i, d);
    }
  }

  /** Adding `k` to each of `|s|` elements adds `|s| * k` to the sum. */
  lemma {:induction false} SumAddEach(s: seq<int>, k: int)
    ensures Sum(AddEach(s, k)) == Sum(s) + |s| * k
    decreases |s|
  {
    if |s| > 0 {
      assert AddEach(s, k)[..|s| - 1] == AddEach(s[..|s| - 1], k);
      SumAddEach(s[..|s| - 1], k);
    }
  }

  /** A sum of elements in `[lo, hi]` lies between `|s| * lo` and `|s| * hi`. */
  lemma {:induction false} SumBounds(s: seq<int>, lo: int, hi: int)
    requires InRange(s, lo, hi)
    ensures |s| * lo <= Sum(s) <= |s| * hi
    decreases |s|
  {
    if |s| > 0 {
      var n := |s| - 1;
      SumBounds(s[..n], lo, hi);
      assert |s| * lo == n * lo + lo && |s| * hi == n * hi + hi;
    }
  }

  /** Every element is counted below a bound above all of them. */
  lemma {:induction false} CountBelowAll(s: seq<int>, k: int)
    requires forall i :: 0 <= i < |s| ==> s[i] < k
    ensures CountBelow(s, k) == |s|
    decreases |s|
  {
    if |s| > 0 {
      CountBelowAll(s[..|s| - 1], k);
    }
  }

  /** A prefix never holds more copies of `v` than the whole sequence, and
      holds all of them once it reaches the last one. */
  lemma {:induction false} CountPrefix(s: seq<int>, n: nat, v: int)
    requires n <= |s|
    ensures Count(s[..n], v) <= Count(s, v)
    ensures (forall i :: n <= i < |s| ==> s[i] != v) ==> Count(s[..n], v) == Count(s, v)
    ensures (exists i :: n <= i < |s| && s[i] == v) ==> Count(s[..n], v) < Count(s, v)
    decreases |s|
  {
    if n < |s| {
      assert s[..|s| - 1][..n] == s[..n];
      CountPrefix(s[..|s| - 1], n, v);
      if exists i :: n <= i < |s| && s[i] == v {
        var i :| n <= i < |s| && s[i] == v;
        if i < |s| - 1 {
          assert s[..|s| - 1][i] == v;
        }
      }
    } else {
      assert s[..n] == s;
    }
  }

  /** Non-negative elements have a non-negative sum. */
  lemma {:induction false} NonNegativeSum(s: seq<int>)
    requires NonNegative(s)
    ensures Sum(s) >= 0
    decreases |s|
  {
    if |s| > 0 {
      NonNegativeSum(s[..|s| - 1]);
    }
  }

  /** The sum of an element-wise sum is the sum of the sums. */
  lemma {:induction false} SumPointwise(a: seq<int>, b: seq<int>, c: seq<int>)
    requires |a| == |b| == |c|
    requires forall i :: 0 <= i < |c| ==> c[i] == a[i] + b[i]
    ensures Sum(c) == Sum(a) + Sum(b)
    decreases |c|
  {
    if |c| > 0 {
      var n := |c| - 1;
      SumPointwise(a[..n], b[..n], c[..n]);
    }
  }

  /** A non-negative element is at most the sum of a non-negative sequence. */
  lemma ElementBelowSum(s: seq<int>, i: int)
    requires NonNegative(s) && 0 <= i < |s|
    ensures s[i] <= Sum(s)
  {
    assert s == s[..i] + [s[i]] + s[i + 1..];
    SumAppend(s[..i] + [s[i]], s[i + 1..]);
    SumAppend(s[..i], [s[i]]);
    assert Sum([s[i]]) == s[i] by {
      assert [s[i]][..0] == [];
    }
    NonNegativeSum(s[..i]);
    NonNegativeSum(s[i + 1..]);
  }
}
