/**
 * fr_benou::Stats itself: the fixed array of TIMEOUT buckets that `add` and
 * `clear` update in place, the chronological iterator whose cursor `seek` and
 * `++` move, and the percentile query built on both.
 */
module Store {
  import opened Ring
  import Selection

  /** `TIMEOUT` is an `int` template argument. */
  const MAX_TIMEOUT: nat := 0x7fff_ffff

  /** The one error of the store: `std::out_of_range` thrown by `get_p`. */
  datatype Error = OutOfRange(what: string)

  datatype Result<+R> = Ok(value: R) | Err(error: Error)

  class Stats {
    /** The template argument `TIMEOUT`: the number of one-second buckets. */
    const timeout: nat
    /** `statsBuckets[TIMEOUT]`: allocated once, its buckets replaced in place. */
    const buckets: array<Bucket>

    /** The ring has TIMEOUT slots and every bucket holds one timestamp of its own slot. */
    ghost predicate Valid()
      reads this, buckets
    {
      0 < timeout <= MAX_TIMEOUT && buckets.Length == timeout && BucketsValid(Buckets())
    }

    ghost function Buckets(): seq<Bucket>
      reads this, buckets
    {
      buckets[..]
    }

    constructor (timeout: nat)
      requires 0 < timeout <= MAX_TIMEOUT
      ensures Valid() && fresh(buckets) && this.timeout == timeout
      ensures Buckets() == Cleared(timeout)
    {
      this.timeout := timeout;
      buckets := new Bucket[timeout](_ => []);
      new;
      ClearedIsValid(timeout);
    }

    /** `add(StatsPair)`: wipe slot `ts % TIMEOUT` if it holds another timestamp, then append. */
    method AddPair(s: Sample)
      requires Valid()
      modifies buckets
      ensures Valid()
      ensures Buckets() == Ring.Add(old(Buckets()), s)
    {
      var index := s.ts % timeout;
      if buckets[index] != [] && s.ts != buckets[index][0].ts {
        buckets[index] := [];
      }
      buckets[index] := buckets[index] + [s];
      assert buckets[index] == Inserted(old(buckets[index]), s);
      assert buckets[..] == old(buckets[..])[index := Inserted(old(buckets[index]), s)];
      AddKeepsInvariant(old(buckets[..]), s);
    }

    /** `add(ts, val)`. */
    method Add(ts: u64, value: int)
      requires Valid()
      modifies buckets
      ensures Valid()
      ensures Buckets() == Ring.Add(old(Buckets()), Sample(ts, value))
    {
      AddPair(Sample(ts, value));
    }

    /** `size()`: the number of stored samples, stale ones included. */
    method Size() returns (sz: nat)
      requires Valid()
      ensures sz == TotalSize(Buckets())
    {
      sz := 0;
      var i := 0;
      while i < timeout
        invariant 0 <= i <= timeout
        invariant sz == TotalSize(buckets[..i])
      {
        assert buckets[..i + 1][..i] == buckets[..i];
        sz := sz + |buckets[i]|;
        i := i + 1;
      }
      assert buckets[..timeout] == buckets[..];
    }

    /** `clear()`: empties every bucket. */
    method Clear()
      requires Valid()
      modifies buckets
      ensures Valid()
      ensures Buckets() == Cleared(timeout)
    {
      var i := 0;
      while i < timeout
        invariant 0 <= i <= timeout
        invariant forall k :: 0 <= k < i ==> buckets[k] == []
        invariant forall k :: i <= k < timeout ==> buckets[k] == old(buckets[k])
      {
        buckets[i] := [];
        i := i + 1;
      }
      ClearedIsValid(timeout);
    }

    /** `begin()`: an iterator on the oldest sample of the window. */
    method Begin() returns (it: StatsIterator)
      requires Valid()
      ensures fresh(it) && it.stats == this && it.Ok() && it.AtSample()
      ensures it.Remaining() == Yielded(Buckets())
    {
      it := new StatsIterator(this);
      it.Begin();
    }

    /** `end()`: an iterator past the newest sample. */
    method End() returns (it: StatsIterator)
      requires Valid()
      ensures fresh(it) && it.stats == this && it.Ok() && it.AtSample()
      ensures it.index == NewestSlot(Buckets()) && it.pos == |Buckets()[NewestSlot(Buckets())]|
      ensures it.Remaining() == []
    {
      it := new StatsIterator(this);
      it.End();
    }

    /** `get_all()`: the same iterator as `begin()`. */
    method GetAll() returns (it: StatsIterator)
      requires Valid()
      ensures fresh(it) && it.stats == this && it.Ok() && it.AtSample()
      ensures it.Remaining() == Yielded(Buckets())
    {
      it := Begin();
    }

    /**
     * `get_p(p)`: fails on an empty store; otherwise copies the yielded values
     * into a vector of `size()` entries and returns the one of rank
     * `(sz * p + 99) / 100`. The caller must keep that rank below `size()`:
     * the source reads past the vector otherwise.
     */
    method GetP(p: int) returns (r: Result<int>)
      requires Valid()
      requires TotalSize(Buckets()) == 0 || Selection.RankIndex(TotalSize(Buckets()), p) < TotalSize(Buckets())
      ensures r.Err? <==> TotalSize(Buckets()) == 0
      ensures r.Ok? ==> Selection.IsOrderStatistic(
                          Materialized(Buckets()), Selection.RankIndex(TotalSize(Buckets()), p), r.value)
    {
      var sz := Size();
      if sz == 0 {
        return Err(OutOfRange("Stats object is empty"));
      }
      var v := Materialize(sz);
      var index := Selection.RankIndex(sz, p);
      ghost var filled := v[..];
      Selection.NthElement(v, index);
      Selection.PartitionedIsOrderStatistic(v[..], index);
      Selection.CountsOfPermutation(v[..], filled, v[index]);
      r := Ok(v[index]);
    }

    /**
     * `get_p` as evidently intended: the percentile of the samples the iterator
     * yields, not of `size()` entries padded with zeros for the stale ones, at a
     * rank clamped to the last of them. Its answer is always a live value.
     */
    method GetPLive(p: int) returns (r: Result<int>)
      requires Valid()
      ensures r.Err? <==> Yielded(Buckets()) == []
      ensures r.Ok? ==> Selection.IsOrderStatistic(
                          Values(Yielded(Buckets())), Selection.ClampedRank(|Yielded(Buckets())|, p), r.value)
      ensures r.Ok? ==> r.value in Values(Yielded(Buckets()))
    {
      var v := MaterializeLive();
      var n := v.Length;
      if n == 0 {
        return Err(OutOfRange("Stats object is empty"));
      }
      var index := Selection.ClampedRank(n, p);
      ghost var filled := v[..];
      Selection.NthElement(v, index);
      Selection.PartitionedIsOrderStatistic(v[..], index);
      Selection.CountsOfPermutation(v[..], filled, v[index]);
      Selection.OrderStatisticOccurs(filled, index, v[index]);
      r := Ok(v[index]);
    }

    /** The values the iterator yields, copied into a vector of exactly their number. */
    method MaterializeLive() returns (v: array<int>)
      requires Valid()
      ensures fresh(v) && v[..] == Values(Yielded(Buckets()))
    {
      var n := CountYielded();
      FilledAll(Yielded(Buckets()));
      var first := Begin();
      var last := End();
      v := new int[n](_ => 0);
      Transform(first, last, v);
    }

    /** The number of samples the iterator yields, counted by walking `begin()` to `end()`. */
    method CountYielded() returns (n: nat)
      requires Valid()
      ensures n == |Yielded(Buckets())|
    {
      var first := Begin();
      var last := End();
      n := CountRemaining(first, last);
    }

    /** Counts the samples from `it` up to `e` by walking `it` there. */
    static method CountRemaining(it: StatsIterator, e: StatsIterator) returns (n: nat)
      requires it.Ok() && it.AtSample() && it != e
      requires e.index == it.indexMax && e.pos == |it.stats.Buckets()[it.indexMax]|
      modifies it`index, it`pos
      ensures it.Ok() && it.indexMax == old(it.indexMax)
      ensures n == |old(it.Remaining())|
    {
      ghost var bs := it.stats.Buckets();
      ghost var ys := it.Remaining();
      ghost var im := it.indexMax;
      n := 0;
      var more := it.NotEqual(e);
      while more
        invariant bs == it.stats.Buckets() && e.index == im && e.pos == |bs[im]|
        invariant it.Ok() && it.AtSample() && it.indexMax == im
        invariant n <= |ys| && it.Remaining() == ys[n..]
        invariant more <==> it.Remaining() != []
        decreases |it.Remaining()|
        modifies it`index, it`pos
      {
        it.Next();
        n := n + 1;
        more := it.NotEqual(e);
      }
    }

    /**
     * The first half of `get_p`: `std::vector<T> v(sz)` and the `std::transform`
     * from `begin()` to `end()` that copies the yielded values into it.
     */
    method Materialize(sz: nat) returns (v: array<int>)
      requires Valid() && sz == TotalSize(Buckets())
      ensures fresh(v) && v[..] == Materialized(Buckets())
    {
      FilledIsMaterialized(Buckets());
      var first := Begin();
      var last := End();
      v := new int[sz](_ => 0);
      Transform(first, last, v);
    }

    /**
     * `std::transform(first, last, v.begin(), ...)`: writes each value from
     * `it` up to `e` into `v`, front to back.
     */
    static method Transform(it: StatsIterator, e: StatsIterator, v: array<int>)
      requires it.Ok() && it.AtSample() && it != e
      requires e.index == it.indexMax && e.pos == |it.stats.Buckets()[it.indexMax]|
      requires |it.Remaining()| <= v.Length
      requires forall j :: 0 <= j < v.Length ==> v[j] == 0
      modifies it`index, it`pos, v
      ensures v[..] == Filled(old(it.Remaining()), |old(it.Remaining())|, v.Length)
    {
      ghost var bs := it.stats.Buckets();
      ghost var ys := it.Remaining();
      ghost var im := it.indexMax;
      var k := 0;
      assert v[..] == Filled(ys, 0, v.Length);
      var more := it.NotEqual(e);
      while more
        invariant bs == it.stats.Buckets() && e.index == im && e.pos == |bs[im]|
        invariant it.Ok() && it.AtSample() && it.indexMax == im
        invariant 0 <= k <= |ys| && it.Remaining() == ys[k..]
        invariant v[..] == Filled(ys, k, v.Length)
        invariant more <==> it.Remaining() != []
        decreases |it.Remaining()|
        modifies it`index, it`pos, v
      {
        assert k < |ys| <= v.Length;
        CopyStep(it, v, k);
        FilledStep(ys, k, v.Length);
        k := k + 1;
        more := it.NotEqual(e);
      }
    }

    /** One step of the transform: `*d_first++ = *first++`. */
    static method CopyStep(it: StatsIterator, v: array<int>, k: nat)
      requires it.Ok() && it.AtSample() && it.Remaining() != [] && k < v.Length
      modifies it`index, it`pos, v
      ensures it.stats.Buckets() == old(it.stats.Buckets())
      ensures it.Ok() && it.AtSample() && it.Remaining() == old(it.Remaining())[1..]
      ensures v[..] == old(v[..])[k := old(it.Remaining())[0].value]
    {
      var s := it.Get();
      v[k] := s.value;
      ghost var written := v[..];
      it.Next();
      assert v[..] == written;
    }

    /** `get_p70()`: `get_p(70)`. */
    method GetP70() returns (r: Result<int>)
      requires Valid()
      requires TotalSize(Buckets()) == 0 || Selection.RankIndex(TotalSize(Buckets()), 70) < TotalSize(Buckets())
      ensures r.Err? <==> TotalSize(Buckets()) == 0
      ensures r.Ok? ==> Selection.IsOrderStatistic(
                          Materialized(Buckets()), Selection.RankIndex(TotalSize(Buckets()), 70), r.value)
    {
      r := GetP(70);
    }
  }

  /**
   * `statsBucketsIterator`: a read-only cursor over a store. `index` is the
   * bucket and `pos` the position of `current` in it; `index_max` and `ts_min`
   * are fixed when the iterator is made.
   */
  class StatsIterator {
    const stats: Stats
    var tsMin: u64
    var index: nat
    var indexMax: nat
    var pos: nat

    /** The snapshot matches the store and the cursor is one the walk can reach. */
    ghost predicate Ok()
      reads this, stats, stats.buckets
    {
      && stats.Valid()
      && indexMax == NewestSlot(stats.Buckets())
      && tsMin == TsMin(Newest(stats.Buckets()), stats.timeout)
      && CursorOk(stats.Buckets(), indexMax, tsMin, index, pos)
    }

    /** The cursor is where `seek` leaves it. */
    ghost predicate AtSample()
      reads this, stats, stats.buckets
      requires Ok()
    {
      Seeked(stats.Buckets(), indexMax, tsMin, index, pos)
    }

    /** The samples from the cursor up to `end()`. */
    ghost function Remaining(): seq<Sample>
      reads this, stats, stats.buckets
      requires Ok()
    {
      Rest(stats.Buckets(), indexMax, tsMin, index, pos)
    }

    /** Scans every slot for the newest first timestamp, then sets `ts_min = max - TIMEOUT`. */
    constructor (s: Stats)
      requires s.Valid()
      ensures stats == s && Ok() && index == 0 && pos == 0
      ensures indexMax == NewestSlot(s.Buckets())
      ensures tsMin == TsMin(Newest(s.Buckets()), s.timeout)
    {
      var max, im := ScanNewest(s);
      stats := s;
      index := 0;
      pos := 0;
      indexMax := im;
      tsMin := (max - s.timeout) % TWO64;
      new;
      assert tsMin == TsMin(max, s.timeout);
      assert CursorOk(s.Buckets(), im, tsMin, 0, 0);
    }

    /** The constructor's loop: the first slot holding the newest first timestamp, and that timestamp. */
    static method ScanNewest(s: Stats) returns (max: u64, im: nat)
      requires s.buckets.Length == s.timeout
      ensures (max, im) == Scan(s.Buckets(), s.timeout)
    {
      ghost var bs := s.Buckets();
      max, im := 0, 0;
      var i := 0;
      while i < s.timeout
        invariant 0 <= i <= s.timeout
        invariant (max, im) == Scan(bs, i)
      {
        var b := s.buckets[i];
        assert b == bs[i];
        if b != [] && b[0].ts > max {
          max := b[0].ts;
          im := i;
        }
        i := i + 1;
      }
    }

    /** `seek()`: leaves empty and stale buckets behind, stopping at `index_max` at the latest. */
    method Seek()
      requires Ok()
      modifies this`index, this`pos
      ensures Ok() && AtSample()
      ensures Remaining() == old(Remaining())
    {
      var bs := stats.buckets;
      ghost var snapshot := stats.Buckets();
      ghost var rest := Remaining();
      while (pos == |bs[index]| || bs[index][pos].ts < tsMin) && index != indexMax
        invariant CursorOk(snapshot, indexMax, tsMin, index, pos)
        invariant Rest(snapshot, indexMax, tsMin, index, pos) == rest
        decreases stats.timeout - 1 - RingPos(indexMax, index, stats.timeout)
      {
        SkipStep(snapshot, indexMax, tsMin, index, pos);
        index := NextSlot(index, stats.timeout);
        pos := 0;
      }
    }

    /** `begin()`: the slot after `index_max`, its first position, then `seek`. */
    method Begin()
      requires Ok()
      modifies this`index, this`pos
      ensures Ok() && AtSample()
      ensures Remaining() == Yielded(stats.Buckets())
    {
      index := NextSlot(indexMax, stats.timeout);
      pos := 0;
      BeginRest(stats.Buckets(), indexMax, tsMin);
      Seek();
    }

    /** `end()`: slot `index_max`, past its last sample. */
    method End()
      requires Ok()
      modifies this`index, this`pos
      ensures Ok() && AtSample()
      ensures index == indexMax && pos == |stats.Buckets()[indexMax]|
      ensures Remaining() == []
    {
      index := indexMax;
      pos := |stats.buckets[index]|;
    }

    /** `operator++`: one position on, then `seek`. */
    method Next()
      requires Ok() && AtSample() && Remaining() != []
      modifies this`index, this`pos
      ensures Ok() && AtSample()
      ensures Remaining() == old(Remaining())[1..]
    {
      SeekedExhausted(stats.Buckets(), indexMax, tsMin, index, pos);
      AdvanceStep(stats.Buckets(), indexMax, tsMin, index, pos);
      pos := pos + 1;
      Seek();
    }

    /** `operator*`: the sample under the cursor. */
    method Get() returns (s: Sample)
      requires Ok() && AtSample() && Remaining() != []
      ensures s == Remaining()[0]
    {
      SeekedExhausted(stats.Buckets(), indexMax, tsMin, index, pos);
      AdvanceStep(stats.Buckets(), indexMax, tsMin, index, pos);
      s := stats.buckets[index][pos];
    }

    /**
     * `operator!=`: the cursors differ in bucket or in position. Against the
     * `end()` of the same store, a seeked cursor differs exactly when samples
     * remain to be yielded.
     */
    method NotEqual(other: StatsIterator) returns (b: bool)
      ensures b <==> index != other.index || pos != other.pos
      ensures (Ok() && AtSample() && other.index == indexMax && other.pos == |stats.Buckets()[indexMax]|)
              ==> (b <==> Remaining() != [])
    {
      b := index != other.index || pos != other.pos;
      if Ok() && AtSample() {
        SeekedExhausted(stats.Buckets(), indexMax, tsMin, index, pos);
      }
    }
  }

  // ---------------------------------------------------------------------------
  // Worked examples

  /** Adding a sample to the slot that holds its own timestamp (or nothing) appends it. */
  lemma AppendToSlot(c: seq<Bucket>, i: nat, x: Bucket, s: Sample)
    requires 0 < |c| && i == SlotOf(s.ts, |c|) && (x != [] ==> x[0].ts == s.ts)
    ensures Ring.Add(c[i := x], s) == c[i := x + [s]]
  {
  }

  /** Five samples of second 7 added to an empty store of 60 slots all land, in order, in slot 7. */
  lemma FiveAddsFillOneSlot()
    ensures Ring.Add(Ring.Add(Ring.Add(Ring.Add(Ring.Add(Cleared(60),
              Sample(7, 10)), Sample(7, 20)), Sample(7, 30)), Sample(7, 40)), Sample(7, 50))
            == Cleared(60)[7 := [Sample(7, 10), Sample(7, 20), Sample(7, 30), Sample(7, 40), Sample(7, 50)]]
  {
    var c := Cleared(60);
    var b := [Sample(7, 10), Sample(7, 20), Sample(7, 30), Sample(7, 40), Sample(7, 50)];
    assert SlotOf(7, 60) == 7;
    assert c == c[7 := []];
    AppendToSlot(c, 7, [], b[0]);
    AppendToSlot(c, 7, b[..1], b[1]);
    AppendToSlot(c, 7, b[..2], b[2]);
    AppendToSlot(c, 7, b[..3], b[3]);
    AppendToSlot(c, 7, b[..4], b[4]);
    assert [] + [b[0]] == b[..1] && b[..1] + [b[1]] == b[..2] && b[..2] + [b[2]] == b[..3];
    assert b[..3] + [b[3]] == b[..4] && b[..4] + [b[4]] == b;
  }

  /**
   * The store that holds the five values 10, 20, 30, 40, 50 at one second (see
   * FiveAddsFillOneSlot): `get_p` copies exactly those values, and the only
   * value `get_p(70)` may return is 50.
   */
  lemma FiveValuesOneSecond(r: int)
    ensures var bs := Cleared(60)[7 := [Sample(7, 10), Sample(7, 20), Sample(7, 30), Sample(7, 40), Sample(7, 50)]];
            TotalSize(bs) == 5 && Materialized(bs) == [10, 20, 30, 40, 50]
            && (Selection.IsOrderStatistic(Materialized(bs), Selection.RankIndex(TotalSize(bs), 70), r) <==> r == 50)
  {
    var c := Cleared(60);
    var b := [Sample(7, 10), Sample(7, 20), Sample(7, 30), Sample(7, 40), Sample(7, 50)];
    var bs: seq<Bucket> := c[7 := b];
    TotalSizeUpdate(c, 7, b);
    ClearedIsValid(60);
    NewestIsMaximum(bs);
    assert bs[7] != [] && bs[7][0].ts == 7;
    assert forall j :: 0 <= j < 60 && j != 7 ==> bs[j] == [];
    assert Newest(bs) == 7 && NewestSlot(bs) == 7;
    WrappedTsMinYieldsNewestOnly(bs);
    assert Materialized(bs) == Values(b) + [];
    Selection.SeventiethOfFive(r);
  }

  /**
   * Timestamps 0 to 5 added to a store of 3 slots go round the ring twice; each
   * slot keeps only its latest second.
   */
  lemma SixAddsWrapTwice()
    ensures Ring.Add(Ring.Add(Ring.Add(Ring.Add(Ring.Add(Ring.Add(Cleared(3),
              Sample(0, 0)), Sample(1, 10)), Sample(2, 20)), Sample(3, 30)), Sample(4, 40)), Sample(5, 50))
            == [[Sample(3, 30)], [Sample(4, 40)], [Sample(5, 50)]]
  {
    var s0 := Ring.Add(Cleared(3), Sample(0, 0));
    assert s0 == [[Sample(0, 0)], [], []];
    var s1 := Ring.Add(s0, Sample(1, 10));
    assert s1 == [[Sample(0, 0)], [Sample(1, 10)], []];
    var s2 := Ring.Add(s1, Sample(2, 20));
    assert s2 == [[Sample(0, 0)], [Sample(1, 10)], [Sample(2, 20)]];
    var s3 := Ring.Add(s2, Sample(3, 30));
    assert s3 == [[Sample(3, 30)], [Sample(1, 10)], [Sample(2, 20)]];
    var s4 := Ring.Add(s3, Sample(4, 40));
    assert s4 == [[Sample(3, 30)], [Sample(4, 40)], [Sample(2, 20)]];
  }

  /** In that store only the samples of the last three seconds are yielded, oldest first. */
  lemma LastThreeSeconds()
    ensures Yielded([[Sample(3, 30)], [Sample(4, 40)], [Sample(5, 50)]])
            == [Sample(3, 30), Sample(4, 40), Sample(5, 50)]
  {
    var bs := [[Sample(3, 30)], [Sample(4, 40)], [Sample(5, 50)]];
    assert Scan(bs, 1) == (3, 0);
    assert Scan(bs, 2) == (4, 1);
    assert Scan(bs, 3) == (5, 2);
    assert Rotate(bs, 2) == bs;
  }

  /** The store of the next two lemmas: second 1 is stale once second 5 is added. */
  lemma StaleStore()
    ensures var bs := [[], [Sample(1, 100)], [Sample(5, 100)]];
            BucketsValid(bs) && TotalSize(bs) == 2 && Yielded(bs) == [Sample(5, 100)]
  {
    var bs: seq<Bucket> := [[], [Sample(1, 100)], [Sample(5, 100)]];
    assert Scan(bs, 1) == (0, 0);
    assert Scan(bs, 2) == (1, 1);
    assert Scan(bs, 3) == (5, 2);
    assert Rotate(bs, 2) == bs;
    var b0 := bs[..1];
    assert b0 == [[]] && b0[..0] == [];
    assert TotalSize(b0) == 0;
    var b1 := bs[..2];
    assert b1[..1] == b0;
    assert TotalSize(b1) == 1;
  }

  /**
   * A stale sample still counts in `size()`: with 3 slots holding second 1,
   * which the iterator skips, and second 5, `get_p` copies one value into a
   * vector of two, so `get_p(0)` can only return 0, a value never added.
   */
  lemma StaleSampleBecomesZero(r: int)
    ensures var bs := [[], [Sample(1, 100)], [Sample(5, 100)]];
            BucketsValid(bs) && TotalSize(bs) == 2 && Yielded(bs) == [Sample(5, 100)]
            && Materialized(bs) == [100, 0] && Selection.RankIndex(2, 0) == 0
            && (Selection.IsOrderStatistic(Materialized(bs), 0, r) <==> r == 0)
  {
    var bs: seq<Bucket> := [[], [Sample(1, 100)], [Sample(5, 100)]];
    StaleStore();
    var m := Materialized(bs);
    assert m[..1] == [100] && m[1] == 0;
    assert m == [100, 0];
    assert Selection.CountLess(m, r) == (if 100 < r then 1 else 0) + (if 0 < r then 1 else 0);
    assert Selection.CountAtMost(m, r) == (if 100 <= r then 1 else 0) + (if 0 <= r then 1 else 0);
  }

  /** On that store the corrected query looks only at the live sample and answers 100. */
  lemma StaleSampleIgnoredWhenLive(r: int)
    ensures var bs := [[], [Sample(1, 100)], [Sample(5, 100)]];
            Values(Yielded(bs)) == [100]
            && (Selection.IsOrderStatistic(Values(Yielded(bs)), Selection.ClampedRank(1, 0), r) <==> r == 100)
  {
    StaleStore();
    assert Selection.CountLess([100], r) == (if 100 < r then 1 else 0);
    assert Selection.CountAtMost([100], r) == (if 100 <= r then 1 else 0);
  }
}
