/**
 * The percentile arithmetic of fr_benou::Stats::get_p: the rank
 * `(sz * p + 99) / 100` on 64-bit unsigned integers, and the order statistic
 * that `std::nth_element` leaves at that rank, stated by counting.
 */
module Selection {
  import Ring

  // ---------------------------------------------------------------------------
  // Order statistics by counting

  /** How many elements of `s` are below `r`. */
  function CountLess(s: seq<int>, r: int): (c: nat)
    ensures c <= |s|
  {
    if s == [] then 0 else (if s[0] < r then 1 else 0) + CountLess(s[1..], r)
  }

  /** How many elements of `s` are at most `r`. */
  function CountAtMost(s: seq<int>, r: int): (c: nat)
    ensures c <= |s|
  {
    if s == [] then 0 else (if s[0] <= r then 1 else 0) + CountAtMost(s[1..], r)
  }

  /**
   * `r` is the element of zero-based rank `n` in `s`: the one a sort in
   * ascending order would put at position `n`.
   */
  ghost predicate IsOrderStatistic(s: seq<int>, n: nat, r: int)
  {
    CountLess(s, r) <= n < CountAtMost(s, r)
  }

  /** What `nth_element(v.begin(), v.begin() + n, v.end())` leaves behind. */
  ghost predicate PartitionedAt(s: seq<int>, n: nat)
  {
    n < |s|
    && (forall i :: 0 <= i < n ==> s[i] <= s[n])
    && (forall j :: n < j < |s| ==> s[n] <= s[j])
  }

  lemma {:induction false} CountAppend(a: seq<int>, b: seq<int>, r: int)
    ensures CountLess(a + b, r) == CountLess(a, r) + CountLess(b, r)
    ensures CountAtMost(a + b, r) == CountAtMost(a, r) + CountAtMost(b, r)
  {
    if a == [] {
      assert a + b == b;
    } else {
      assert (a + b)[1..] == a[1..] + b;
      CountAppend(a[1..], b, r);
    }
  }

  lemma {:induction false} CountNoneBelow(s: seq<int>, r: int)
    requires forall i :: 0 <= i < |s| ==> r <= s[i]
    ensures CountLess(s, r) == 0
  {
    if s != [] {
      CountNoneBelow(s[1..], r);
    }
  }

  lemma {:induction false} CountAllAtMost(s: seq<int>, r: int)
    requires forall i :: 0 <= i < |s| ==> s[i] <= r
    ensures CountAtMost(s, r) == |s|
  {
    if s != [] {
      CountAllAtMost(s[1..], r);
    }
  }

  /** A sequence partitioned around position `n` holds its rank-`n` element there. */
  lemma PartitionedIsOrderStatistic(s: seq<int>, n: nat)
    requires PartitionedAt(s, n)
    ensures IsOrderStatistic(s, n, s[n])
  {
    var r := s[n];
    var lo, hi := s[..n], s[n + 1..];
    assert s == lo + [r] + hi;
    CountAppend(lo + [r], hi, r);
    CountAppend(lo, [r], r);
    assert [r][1..] == [];
    CountNoneBelow(hi, r);
    CountAllAtMost(lo, r);
  }

  /** Taking out the element at `j` leaves the rest of the multiset and the rest of each count. */
  lemma RemoveAt(t: seq<int>, j: nat, r: int)
    requires j < |t|
    ensures multiset(t[..j] + t[j + 1..]) == multiset(t) - multiset{t[j]}
    ensures CountLess(t, r) == CountLess(t[..j] + t[j + 1..], r) + CountLess([t[j]], r)
    ensures CountAtMost(t, r) == CountAtMost(t[..j] + t[j + 1..], r) + CountAtMost([t[j]], r)
  {
    var x := t[j];
    assert t == t[..j] + [x] + t[j + 1..];
    CountAppend(t[..j] + [x], t[j + 1..], r);
    CountAppend(t[..j], [x], r);
    CountAppend(t[..j], t[j + 1..], r);
  }

  /** Counting does not depend on order: a permutation has the same counts. */
  lemma {:induction false} CountsOfPermutation(s: seq<int>, t: seq<int>, r: int)
    requires multiset(s) == multiset(t)
    ensures CountLess(s, r) == CountLess(t, r)
    ensures CountAtMost(s, r) == CountAtMost(t, r)
    decreases |s|
  {
    if s == [] {
      assert |t| == |multiset(t)| == 0;
    } else {
      var x := s[0];
      assert x in multiset(t);
      var j :| 0 <= j < |t| && t[j] == x;
      RemoveAt(t, j, r);
      RemoveAt(s, 0, r);
      assert s[..0] + s[1..] == s[1..];
      CountsOfPermutation(s[1..], t[..j] + t[j + 1..], r);
    }
  }

  /** The element of a given rank is one of the elements: some element equals it. */
  lemma OrderStatisticOccurs(s: seq<int>, n: nat, r: int)
    requires IsOrderStatistic(s, n, r)
    ensures r in s
  {
    CountGap(s, r);
  }

  lemma {:induction false} CountGap(s: seq<int>, r: int)
    requires CountLess(s, r) < CountAtMost(s, r)
    ensures r in s
  {
    if s[0] != r {
      CountGap(s[1..], r);
    }
  }

  lemma {:induction false} CountMonotone(s: seq<int>, r1: int, r2: int)
    requires r1 < r2
    ensures CountAtMost(s, r1) <= CountLess(s, r2)
  {
    if s != [] {
      CountMonotone(s[1..], r1, r2);
    }
  }

  /** The element of a given rank is unique, so the selection's result is determined. */
  lemma OrderStatisticUnique(s: seq<int>, n: nat, r1: int, r2: int)
    requires IsOrderStatistic(s, n, r1) && IsOrderStatistic(s, n, r2)
    ensures r1 == r2
  {
    if r1 < r2 {
      CountMonotone(s, r1, r2);
    } else if r2 < r1 {
      CountMonotone(s, r2, r1);
    }
  }

  /**
   * Stands in for `std::nth_element`: rearranges `a` so that position `n` holds
   * the element a sort would put there, nothing before it is larger and nothing
   * after it is smaller. (A partial selection sort: the first `n + 1` positions
   * receive the smallest elements in order.)
   */
  method NthElement(a: array<int>, n: nat)
    requires n < a.Length
    modifies a
    ensures multiset(a[..]) == old(multiset(a[..]))
    ensures PartitionedAt(a[..], n)
  {
    var i := 0;
    while i <= n
      invariant 0 <= i <= n + 1
      invariant multiset(a[..]) == old(multiset(a[..]))
      invariant forall x, y :: 0 <= x < i && x < y < a.Length ==> a[x] <= a[y]
    {
      var m := MinIndexFrom(a, i);
      Swap(a, i, m);
      i := i + 1;
    }
  }

  /** Exchanges `a[i]` and `a[j]`. */
  method Swap(a: array<int>, i: nat, j: nat)
    requires i < a.Length && j < a.Length
    modifies a
    ensures a[i] == old(a[j]) && a[j] == old(a[i])
    ensures forall k :: 0 <= k < a.Length && k != i && k != j ==> a[k] == old(a[k])
    ensures multiset(a[..]) == old(multiset(a[..]))
  {
    a[i], a[j] := a[j], a[i];
  }

  /** The position of a smallest element of `a[i..]`. */
  method MinIndexFrom(a: array<int>, i: nat) returns (m: nat)
    requires i < a.Length
    ensures i <= m < a.Length
    ensures forall y :: i <= y < a.Length ==> a[m] <= a[y]
  {
    m := i;
    var j := i + 1;
    while j < a.Length
      invariant i <= m < a.Length && i + 1 <= j <= a.Length
      invariant forall y :: i <= y < j ==> a[m] <= a[y]
    {
      if a[j] < a[m] {
        m := j;
      }
      j := j + 1;
    }
  }

  // ---------------------------------------------------------------------------
  // The rank

  /**
   * `index = (sz * p + 99) / 100` with `sz` a `size_type` and `p` an `int`: `p`
   * is converted to 64-bit unsigned, and the product and the sum wrap modulo 2^64.
   */
  function RankIndex(sz: nat, p: int): (i: nat)
    ensures i < Ring.TWO64
  {
    ((sz * (p % Ring.TWO64)) % Ring.TWO64 + 99) % Ring.TWO64 / 100
  }

  lemma ProductBound(sz: nat, p: int)
    requires 0 <= p <= 100
    ensures 0 <= sz * p <= sz * 100
  {
  }

  /**
   * For a percentile in `[0, 100]` and a size for which nothing wraps, the rank
   * is `sz * p / 100` rounded up.
   */
  lemma RankIsCeiling(sz: nat, p: int)
    requires 0 <= p <= 100 && sz * 100 + 99 < Ring.TWO64
    ensures 100 * (RankIndex(sz, p) - 1) < sz * p <= 100 * RankIndex(sz, p)
  {
    ProductBound(sz, p);
    var x := sz * p;
    assert p % Ring.TWO64 == p;
    assert x % Ring.TWO64 == x;
    assert (x + 99) % Ring.TWO64 == x + 99;
    var i := (x + 99) / 100;
    assert RankIndex(sz, p) == i;
    assert 100 * i <= x + 99 < 100 * i + 100;
  }

  /**
   * The rank is a valid index of the `sz` materialised values exactly when
   * `sz * (100 - p) >= 100`: never for `p = 100`, never for `sz = 1` unless `p = 0`.
   */
  lemma RankInBounds(sz: nat, p: int)
    requires 0 <= p <= 100 && sz * 100 + 99 < Ring.TWO64
    ensures RankIndex(sz, p) < sz <==> sz * (100 - p) >= 100
  {
    RankIsCeiling(sz, p);
    assert sz * (100 - p) == 100 * sz - sz * p;
    var i := RankIndex(sz, p);
    if i < sz {
      assert 100 * i <= 100 * (sz - 1);
    } else {
      assert 100 * (i - 1) >= 100 * (sz - 1);
    }
  }

  /**
   * The rank as written reads one past the last value: with one, two or three
   * samples and `p = 70`, or five samples and `p = 100`, it equals the size.
   */
  lemma RankOverrun()
    ensures RankIndex(1, 70) == 1 && RankIndex(2, 70) == 2 && RankIndex(3, 70) == 3
    ensures RankIndex(5, 100) == 5
  {
    RankIsCeiling(1, 70);
    RankIsCeiling(2, 70);
    RankIsCeiling(3, 70);
    RankIsCeiling(5, 100);
  }

  /** `get_p70()` reads past the vector exactly for stores of 1, 2 or 3 samples. */
  lemma SeventiethOverrun(sz: nat)
    requires 0 < sz && sz * 100 + 99 < Ring.TWO64
    ensures RankIndex(sz, 70) >= sz <==> sz <= 3
  {
    RankInBounds(sz, 70);
  }

  /** The rank as evidently intended: the as-written one, but never past the last value. */
  function ClampedRank(sz: nat, p: int): (i: nat)
    requires sz > 0
    ensures i < sz
    ensures RankIndex(sz, p) < sz ==> i == RankIndex(sz, p)
    ensures RankIndex(sz, p) >= sz ==> i == sz - 1
  {
    if RankIndex(sz, p) < sz then RankIndex(sz, p) else sz - 1
  }

  /** With the clamped rank the 100th percentile is the maximum. */
  lemma ClampedRankOfHundredIsMaximum(s: seq<int>, r: int)
    requires |s| > 0 && |s| * 100 + 99 < Ring.TWO64
    requires IsOrderStatistic(s, ClampedRank(|s|, 100), r)
    ensures forall k :: 0 <= k < |s| ==> s[k] <= r
  {
    RankInBounds(|s|, 100);
    if k :| 0 <= k < |s| && s[k] > r {
      CountBelowMax(s, r, k);
    }
  }

  lemma {:induction false} CountBelowMax(s: seq<int>, r: int, k: nat)
    requires k < |s| && s[k] > r
    ensures CountAtMost(s, r) < |s|
  {
    if k > 0 {
      CountBelowMax(s[1..], r, k - 1);
    }
  }

  /**
   * Five values 10, 20, 30, 40, 50: the 70th percentile is at rank 4, and the
   * only value of that rank is 50.
   */
  lemma SeventiethOfFive(r: int)
    ensures RankIndex(5, 70) == 4
    ensures IsOrderStatistic([10, 20, 30, 40, 50], 4, r) <==> r == 50
  {
    RankIsCeiling(5, 70);
    var s := [10, 20, 30, 40, 50];
    assert PartitionedAt(s, 4);
    PartitionedIsOrderStatistic(s, 4);
    if IsOrderStatistic(s, 4, r) {
      OrderStatisticUnique(s, 4, r, 50);
    }
  }
}
