/**
 * The ring of per-second buckets behind fr_benou::Stats, as pure values.
 *
 * A store of TIMEOUT buckets is the sequence `bs` (so TIMEOUT is `|bs|`);
 * bucket `i` holds the samples whose timestamp is congruent to `i`.
 * This module states what `add`, `size` and `clear` do to that sequence, which
 * slot the chronological iterator treats as the newest, and which samples it
 * yields (`Yielded`); the classes in module Store are proved against it.
 */
module Ring {

  const TWO64: int := 0x1_0000_0000_0000_0000

  /** The source's `std::uint64_t` timestamps. */
  type u64 = x: int | 0 <= x < TWO64

  /** One `(timestamp, value)` pair; values are integers (a total order). */
  datatype Sample = Sample(ts: u64, value: int)

  type Bucket = seq<Sample>

  // ---------------------------------------------------------------------------
  // The bucket invariant

  /** Every sample of `b` carries one timestamp, congruent to slot `i` modulo `w`. */
  ghost predicate BucketOk(b: Bucket, i: nat, w: nat)
  {
    b == [] || (w > 0 && b[0].ts % w == i && forall k :: 0 <= k < |b| ==> b[k].ts == b[0].ts)
  }

  ghost predicate BucketsValid(bs: seq<Bucket>)
  {
    forall i :: 0 <= i < |bs| ==> BucketOk(bs[i], i, |bs|)
  }

  // ---------------------------------------------------------------------------
  // size() and add()

  /** The number of stored samples, summed slot by slot from slot 0 up. */
  function TotalSize(bs: seq<Bucket>): nat
  {
    if bs == [] then 0 else TotalSize(bs[..|bs| - 1]) + |bs[|bs| - 1]|
  }

  /** Every stored sample, bucket after bucket. */
  function Flatten(bs: seq<Bucket>): seq<Sample>
  {
    if bs == [] then [] else bs[0] + Flatten(bs[1..])
  }

  /** The slot a timestamp lands in: `ts % TIMEOUT`. */
  function SlotOf(ts: u64, w: nat): (i: nat)
    requires w > 0
    ensures i < w
  {
    ts % w
  }

  /** Whether adding `s` to bucket `b` wipes it first: it holds another timestamp. */
  predicate Wipes(b: Bucket, s: Sample)
  {
    b != [] && s.ts != b[0].ts
  }

  /** The bucket after `add(s)` has reached it. */
  function Inserted(b: Bucket, s: Sample): (r: Bucket)
    ensures |r| > 0 && r[|r| - 1] == s
    ensures Wipes(b, s) ==> r == [s]
    ensures !Wipes(b, s) ==> r[..|r| - 1] == b
  {
    if Wipes(b, s) then [s] else b + [s]
  }

  /** The whole store after `add(s)`. */
  function Add(bs: seq<Bucket>, s: Sample): (r: seq<Bucket>)
    requires |bs| > 0
    ensures |r| == |bs|
    ensures r[SlotOf(s.ts, |bs|)] == Inserted(bs[SlotOf(s.ts, |bs|)], s)
    ensures forall j :: 0 <= j < |bs| && j != SlotOf(s.ts, |bs|) ==> r[j] == bs[j]
  {
    bs[SlotOf(s.ts, |bs|) := Inserted(bs[SlotOf(s.ts, |bs|)], s)]
  }

  lemma {:induction false} TotalSizeAppend(a: seq<Bucket>, b: seq<Bucket>)
    ensures TotalSize(a + b) == TotalSize(a) + TotalSize(b)
    decreases |b|
  {
    if b == [] {
      assert a + b == a;
    } else {
      assert (a + b)[..|a + b| - 1] == a + b[..|b| - 1];
      TotalSizeAppend(a, b[..|b| - 1]);
    }
  }

  /** Replacing one bucket changes the size by the difference of the two lengths. */
  lemma TotalSizeUpdate(bs: seq<Bucket>, i: nat, b: Bucket)
    requires i < |bs|
    ensures TotalSize(bs[i := b]) == TotalSize(bs) - |bs[i]| + |b|
  {
    assert bs == bs[..i] + [bs[i]] + bs[i + 1..];
    assert bs[i := b] == bs[..i] + [b] + bs[i + 1..];
    TotalSizeAppend(bs[..i] + [bs[i]], bs[i + 1..]);
    TotalSizeAppend(bs[..i], [bs[i]]);
    TotalSizeAppend(bs[..i] + [b], bs[i + 1..]);
    TotalSizeAppend(bs[..i], [b]);
    assert [bs[i]][..0] == [] && [b][..0] == [];
  }

  lemma {:induction false} FlattenLength(bs: seq<Bucket>)
    ensures |Flatten(bs)| == TotalSize(bs)
  {
    if bs != [] {
      FlattenLength(bs[1..]);
      TotalSizeAppend([bs[0]], bs[1..]);
      assert [bs[0]] + bs[1..] == bs;
      assert [bs[0]][..0] == [];
    }
  }

  lemma {:induction false} FlattenAppend(a: seq<Bucket>, b: seq<Bucket>)
    ensures Flatten(a + b) == Flatten(a) + Flatten(b)
  {
    if a == [] {
      assert a + b == b;
    } else {
      assert (a + b)[1..] == a[1..] + b;
      FlattenAppend(a[1..], b);
    }
  }

  /**
   * add(s) keeps the bucket invariant, touches slot `ts % TIMEOUT` only, and
   * grows the size by exactly one unless it wiped the slot, in which case the
   * old bucket's samples are gone.
   */
  lemma AddKeepsInvariant(bs: seq<Bucket>, s: Sample)
    requires |bs| > 0 && BucketsValid(bs)
    ensures BucketsValid(Add(bs, s))
  {
    var i := SlotOf(s.ts, |bs|);
    var r := Add(bs, s);
    forall j | 0 <= j < |r|
      ensures BucketOk(r[j], j, |r|)
    {
      if j == i {
        var b := r[i];
        if !Wipes(bs[i], s) && bs[i] != [] {
          assert b[0] == bs[i][0];
        }
      }
    }
  }

  lemma AddSize(bs: seq<Bucket>, s: Sample)
    requires |bs| > 0
    ensures !Wipes(bs[SlotOf(s.ts, |bs|)], s) ==> TotalSize(Add(bs, s)) == TotalSize(bs) + 1
    ensures Wipes(bs[SlotOf(s.ts, |bs|)], s) ==>
              TotalSize(Add(bs, s)) == TotalSize(bs) - |bs[SlotOf(s.ts, |bs|)]| + 1
  {
    var i := SlotOf(s.ts, |bs|);
    TotalSizeUpdate(bs, i, Inserted(bs[i], s));
  }

  /** A store whose buckets are all empty holds nothing: what clear() leaves. */
  function Cleared(w: nat): (r: seq<Bucket>)
    ensures |r| == w && forall i :: 0 <= i < w ==> r[i] == []
  {
    seq(w, _ => [])
  }

  lemma {:induction false} EmptyStoreSize(bs: seq<Bucket>)
    requires forall i :: 0 <= i < |bs| ==> bs[i] == []
    ensures TotalSize(bs) == 0
  {
    if bs != [] {
      EmptyStoreSize(bs[..|bs| - 1]);
    }
  }

  lemma ClearedIsValid(w: nat)
    ensures BucketsValid(Cleared(w)) && TotalSize(Cleared(w)) == 0
  {
    EmptyStoreSize(Cleared(w));
  }

  // ---------------------------------------------------------------------------
  // The iterator's snapshot: newest timestamp, its slot, and ts_min

  /**
   * The constructor's scan over the first `n` slots: the largest first
   * timestamp seen (starting from 0) and the slot where it was first met,
   * updated only on a strictly larger timestamp.
   */
  function Scan(bs: seq<Bucket>, n: nat): (r: (u64, nat))
    requires n <= |bs|
    ensures forall j :: 0 <= j < n && bs[j] != [] ==> bs[j][0].ts <= r.0
    ensures r.0 == 0 ==> r.1 == 0
    ensures r.0 > 0 ==> r.1 < n && bs[r.1] != [] && bs[r.1][0].ts == r.0
    ensures r.0 > 0 ==> forall j :: 0 <= j < r.1 && bs[j] != [] ==> bs[j][0].ts < r.0
  {
    if n == 0 then (0, 0)
    else
      var prev := Scan(bs, n - 1);
      if bs[n - 1] != [] && bs[n - 1][0].ts > prev.0 then (bs[n - 1][0].ts, n - 1) else prev
  }

  /** `max`: the newest timestamp in the store, or 0 when there is none. */
  function Newest(bs: seq<Bucket>): u64
  {
    Scan(bs, |bs|).0
  }

  /** `index_max`: the slot holding the newest timestamp, or 0. */
  function NewestSlot(bs: seq<Bucket>): (i: nat)
    requires |bs| > 0
    ensures i < |bs|
  {
    Scan(bs, |bs|).1
  }

  /** `ts_min = max - TIMEOUT`, computed on 64-bit unsigned integers. */
  function TsMin(max: u64, w: nat): (t: u64)
    requires w < TWO64
    ensures max >= w ==> t == max - w
    ensures max < w ==> t == max - w + TWO64 && t > max
  {
    (max - w) % TWO64
  }

  /** Every first timestamp is at most `max`, and `index_max` is the first slot holding it. */
  lemma NewestIsMaximum(bs: seq<Bucket>)
    requires |bs| > 0
    ensures forall j :: 0 <= j < |bs| && bs[j] != [] ==> bs[j][0].ts <= Newest(bs)
    ensures Newest(bs) > 0 ==> bs[NewestSlot(bs)] != [] && bs[NewestSlot(bs)][0].ts == Newest(bs)
    ensures Newest(bs) > 0 ==>
              forall j :: 0 <= j < NewestSlot(bs) && bs[j] != [] ==> bs[j][0].ts < Newest(bs)
    ensures Newest(bs) == 0 ==> NewestSlot(bs) == 0
  {
  }

  // ---------------------------------------------------------------------------
  // The chronological walk

  /** `next_`: the circular successor of a slot. */
  function NextSlot(i: nat, w: nat): (r: nat)
    requires i < w
    ensures r < w
    ensures r == if i + 1 < w then i + 1 else 0
  {
    (i + 1) % w
  }

  /** The slots in walking order: the one after `im` first, `im` itself last. */
  function Rotate(bs: seq<Bucket>, im: nat): (rs: seq<Bucket>)
    requires im < |bs|
    ensures |rs| == |bs| && rs[|rs| - 1] == bs[im]
  {
    bs[im + 1..] + bs[..im + 1]
  }

  /** Where slot `i` stands in the walk that starts after `im` (and ends on `im`). */
  function RingPos(im: nat, i: nat, w: nat): (k: nat)
    requires im < w && i < w
    ensures k < w && (k == w - 1 <==> i == im)
  {
    if i > im then i - im - 1 else i + w - im - 1
  }

  lemma RotateAt(bs: seq<Bucket>, im: nat, i: nat)
    requires im < |bs| && i < |bs|
    ensures Rotate(bs, im)[RingPos(im, i, |bs|)] == bs[i]
  {
  }

  /** A bucket the walk stops in: it is non-empty and its first timestamp is not below `tsMin`. */
  predicate Live(b: Bucket, tsMin: u64)
  {
    b != [] && b[0].ts >= tsMin
  }

  /**
   * The samples yielded by walking the buckets `rs` in order: a bucket that is
   * not live is skipped, the last bucket (slot `index_max`) never is.
   */
  function Chain(rs: seq<Bucket>, tsMin: u64): seq<Sample>
    requires |rs| > 0
  {
    if |rs| == 1 then rs[0]
    else (if Live(rs[0], tsMin) then rs[0] else []) + Chain(rs[1..], tsMin)
  }

  /** What `begin()`..`end()` yields on store `bs`, for a given `ts_min`. */
  function WindowFrom(bs: seq<Bucket>, tsMin: u64): seq<Sample>
    requires |bs| > 0
  {
    Chain(Rotate(bs, NewestSlot(bs)), tsMin)
  }

  /** What `begin()`..`end()` yields on store `bs`, with the source's `ts_min`. */
  function Yielded(bs: seq<Bucket>): seq<Sample>
    requires 0 < |bs| < TWO64
  {
    WindowFrom(bs, TsMin(Newest(bs), |bs|))
  }

  function Values(ss: seq<Sample>): (vs: seq<int>)
    ensures |vs| == |ss| && forall k :: 0 <= k < |ss| ==> vs[k] == ss[k].value
  {
    seq(|ss|, k requires 0 <= k < |ss| => ss[k].value)
  }

  /**
   * The vector `get_p` fills: `size()` entries, the values the iterator yields
   * in order, then the default value 0 for every entry it does not reach.
   */
  function Materialized(bs: seq<Bucket>): (v: seq<int>)
    requires 0 < |bs| < TWO64
    ensures |v| == TotalSize(bs) && |Yielded(bs)| <= |v|
    ensures v[..|Yielded(bs)|] == Values(Yielded(bs))
    ensures forall k :: |Yielded(bs)| <= k < |v| ==> v[k] == 0
  {
    YieldedInStore(bs);
    Values(Yielded(bs)) + seq(TotalSize(bs) - |Yielded(bs)|, _ => 0)
  }

  /** A vector of `n` entries whose first `k` hold the values of `ys` and the rest 0. */
  ghost function Filled(ys: seq<Sample>, k: nat, n: nat): seq<int>
    requires k <= |ys| <= n
  {
    seq(n, j requires 0 <= j < n => if j < k then ys[j].value else 0)
  }

  lemma FilledStep(ys: seq<Sample>, k: nat, n: nat)
    requires k < |ys| <= n
    ensures Filled(ys, k, n)[k := ys[k].value] == Filled(ys, k + 1, n)
  {
  }

  /** Copying every sample's value into a zeroed vector of exactly their number gives their values. */
  lemma FilledAll(ys: seq<Sample>)
    ensures Filled(ys, |ys|, |ys|) == Values(ys)
  {
  }

  /** Copying every yielded value into a zeroed vector of `size()` entries gives the materialised vector. */
  lemma FilledIsMaterialized(bs: seq<Bucket>)
    requires 0 < |bs| < TWO64
    ensures |Yielded(bs)| <= TotalSize(bs)
    ensures Filled(Yielded(bs), |Yielded(bs)|, TotalSize(bs)) == Materialized(bs)
  {
    var m := Materialized(bs);
    var ys := Yielded(bs);
    assert forall j :: 0 <= j < |ys| ==> m[j] == m[..|ys|][j];
  }

  // ---------------------------------------------------------------------------
  // The iterator's cursor: slot `index`, position `pos` in that slot

  /** The states the iterator passes through: a position inside a live bucket, or the start of one. */
  ghost predicate CursorOk(bs: seq<Bucket>, im: nat, tsMin: u64, index: nat, pos: nat)
  {
    && im < |bs| && index < |bs| && pos <= |bs[index]|
    && (index != im && pos > 0 ==> Live(bs[index], tsMin))
  }

  /** Where `seek` stops: on slot `index_max`, or on a sample not below `ts_min`. */
  ghost predicate Seeked(bs: seq<Bucket>, im: nat, tsMin: u64, index: nat, pos: nat)
    requires index < |bs|
  {
    index == im || (pos < |bs[index]| && bs[index][pos].ts >= tsMin)
  }

  /** The samples still to come from cursor `(index, pos)`. */
  ghost function Rest(bs: seq<Bucket>, im: nat, tsMin: u64, index: nat, pos: nat): seq<Sample>
    requires CursorOk(bs, im, tsMin, index, pos)
  {
    if index == im then bs[im][pos..]
    else
      (if Live(bs[index], tsMin) then bs[index][pos..] else [])
      + Chain(Rotate(bs, im)[RingPos(im, index, |bs|) + 1..], tsMin)
  }

  /** `begin()` places the cursor at the start of the slot after `index_max`: all of the walk is to come. */
  lemma BeginRest(bs: seq<Bucket>, im: nat, tsMin: u64)
    requires im < |bs|
    ensures CursorOk(bs, im, tsMin, NextSlot(im, |bs|), 0)
    ensures Rest(bs, im, tsMin, NextSlot(im, |bs|), 0) == Chain(Rotate(bs, im), tsMin)
  {
    var w, i := |bs|, NextSlot(im, |bs|);
    var rs := Rotate(bs, im);
    if i != im {
      assert RingPos(im, i, w) == 0;
      RotateAt(bs, im, i);
    }
  }

  /** `end()`: slot `index_max`, past its last sample; nothing is to come. */
  lemma EndRest(bs: seq<Bucket>, im: nat, tsMin: u64)
    requires im < |bs|
    ensures CursorOk(bs, im, tsMin, im, |bs[im]|)
    ensures Rest(bs, im, tsMin, im, |bs[im]|) == []
  {
  }

  lemma RingPosNext(im: nat, index: nat, w: nat)
    requires im < w && index < w && index != im
    ensures RingPos(im, NextSlot(index, w), w) == RingPos(im, index, w) + 1
  {
  }

  /** From the start of slot `i`, what is to come is the walk from `i`'s place in it onwards. */
  lemma StartRest(bs: seq<Bucket>, im: nat, tsMin: u64, i: nat)
    requires im < |bs| && i < |bs|
    ensures CursorOk(bs, im, tsMin, i, 0)
    ensures Rest(bs, im, tsMin, i, 0) == Chain(Rotate(bs, im)[RingPos(im, i, |bs|)..], tsMin)
  {
    var rs := Rotate(bs, im);
    var p := RingPos(im, i, |bs|);
    RotateAt(bs, im, i);
    assert bs[i][0..] == bs[i];
    if i == im {
      assert rs[p..] == [bs[im]];
    } else {
      var tail := rs[p..];
      assert tail[0] == bs[i] && tail[1..] == rs[p + 1..];
    }
  }

  /** A cursor at the end of a slot, or on a sample below `tsMin`, has nothing left of that slot to yield. */
  lemma SkipDead(bs: seq<Bucket>, im: nat, tsMin: u64, index: nat, pos: nat)
    requires CursorOk(bs, im, tsMin, index, pos) && index != im
    requires BucketOk(bs[index], index, |bs|)
    requires pos == |bs[index]| || bs[index][pos].ts < tsMin
    ensures Rest(bs, im, tsMin, index, pos) == Chain(Rotate(bs, im)[RingPos(im, index, |bs|) + 1..], tsMin)
  {
    if Live(bs[index], tsMin) {
      assert pos == |bs[index]|;
    }
  }

  /** One turn of `seek`'s loop moves to the start of the next slot without changing what is to come. */
  lemma SkipStep(bs: seq<Bucket>, im: nat, tsMin: u64, index: nat, pos: nat)
    requires CursorOk(bs, im, tsMin, index, pos) && index != im
    requires BucketOk(bs[index], index, |bs|)
    requires pos == |bs[index]| || bs[index][pos].ts < tsMin
    ensures CursorOk(bs, im, tsMin, NextSlot(index, |bs|), 0)
    ensures RingPos(im, NextSlot(index, |bs|), |bs|) == RingPos(im, index, |bs|) + 1
    ensures Rest(bs, im, tsMin, NextSlot(index, |bs|), 0) == Rest(bs, im, tsMin, index, pos)
  {
    RingPosNext(im, index, |bs|);
    SkipDead(bs, im, tsMin, index, pos);
    StartRest(bs, im, tsMin, NextSlot(index, |bs|));
  }

  /** `++` from a seeked, non-final cursor drops exactly the current sample. */
  lemma AdvanceStep(bs: seq<Bucket>, im: nat, tsMin: u64, index: nat, pos: nat)
    requires CursorOk(bs, im, tsMin, index, pos) && Seeked(bs, im, tsMin, index, pos)
    requires BucketOk(bs[index], index, |bs|)
    requires pos < |bs[index]|
    ensures CursorOk(bs, im, tsMin, index, pos + 1)
    ensures Rest(bs, im, tsMin, index, pos) != []
    ensures Rest(bs, im, tsMin, index, pos)[0] == bs[index][pos]
    ensures Rest(bs, im, tsMin, index, pos + 1) == Rest(bs, im, tsMin, index, pos)[1..]
  {
    var b := bs[index];
    var tail: seq<Sample> := [];
    if index != im {
      assert b[pos].ts == b[0].ts;
      assert Live(b, tsMin);
      tail := Chain(Rotate(bs, im)[RingPos(im, index, |bs|) + 1..], tsMin);
    } else {
      assert b[pos..] + tail == b[pos..] && b[pos + 1..] + tail == b[pos + 1..];
    }
    assert Rest(bs, im, tsMin, index, pos) == b[pos..] + tail;
    assert Rest(bs, im, tsMin, index, pos + 1) == b[pos + 1..] + tail;
    DropHead(b, pos, tail);
  }

  lemma DropHead<T>(b: seq<T>, pos: nat, tail: seq<T>)
    requires pos < |b|
    ensures b[pos..] + tail != [] && (b[pos..] + tail)[0] == b[pos]
    ensures (b[pos..] + tail)[1..] == b[pos + 1..] + tail
  {
    assert b[pos..] == [b[pos]] + b[pos + 1..];
  }

  /** A seeked cursor has nothing more to yield exactly when it equals `end()`. */
  lemma SeekedExhausted(bs: seq<Bucket>, im: nat, tsMin: u64, index: nat, pos: nat)
    requires BucketsValid(bs)
    requires CursorOk(bs, im, tsMin, index, pos) && Seeked(bs, im, tsMin, index, pos)
    ensures Rest(bs, im, tsMin, index, pos) == [] <==> index == im && pos == |bs[im]|
  {
    if index != im {
      assert bs[index][pos].ts == bs[index][0].ts;
      assert bs[index][pos..] != [];
    }
  }

  // ---------------------------------------------------------------------------
  // What the walk yields

  lemma {:induction false} ChainBounded(rs: seq<Bucket>, tsMin: u64)
    requires |rs| > 0
    ensures |Chain(rs, tsMin)| <= TotalSize(rs)
  {
    if |rs| == 1 {
      assert rs[..0] == [];
    } else {
      ChainBounded(rs[1..], tsMin);
      TotalSizeAppend([rs[0]], rs[1..]);
      assert [rs[0]] + rs[1..] == rs;
      assert [rs[0]][..0] == [];
    }
  }

  lemma {:induction false} ChainInStore(rs: seq<Bucket>, tsMin: u64)
    requires |rs| > 0
    ensures multiset(Chain(rs, tsMin)) <= multiset(Flatten(rs))
  {
    if |rs| == 1 {
      assert Flatten(rs) == rs[0] + Flatten([]);
    } else {
      ChainInStore(rs[1..], tsMin);
    }
  }

  /** Walking the slots from any starting point visits every stored sample once. */
  lemma RotatePreservesStore(bs: seq<Bucket>, im: nat)
    requires im < |bs|
    ensures multiset(Flatten(Rotate(bs, im))) == multiset(Flatten(bs))
    ensures TotalSize(Rotate(bs, im)) == TotalSize(bs)
  {
    RotateFlatten(bs, im);
    RotateSize(bs, im);
  }

  lemma RotateFlatten(bs: seq<Bucket>, im: nat)
    requires im < |bs|
    ensures multiset(Flatten(Rotate(bs, im))) == multiset(Flatten(bs))
  {
    SwapFlatten(bs[..im + 1], bs[im + 1..]);
    SplitJoin(bs, im + 1);
  }

  lemma SplitJoin<T>(s: seq<T>, n: nat)
    requires n <= |s|
    ensures s[..n] + s[n..] == s
  {
  }

  lemma SwapFlatten(a: seq<Bucket>, b: seq<Bucket>)
    ensures multiset(Flatten(b + a)) == multiset(Flatten(a + b))
  {
    FlattenAppend(b, a);
    FlattenAppend(a, b);
    MultisetSwap(Flatten(a), Flatten(b));
  }

  lemma MultisetSwap<T>(x: seq<T>, y: seq<T>)
    ensures multiset(x + y) == multiset(y + x)
  {
  }

  lemma RotateSize(bs: seq<Bucket>, im: nat)
    requires im < |bs|
    ensures TotalSize(Rotate(bs, im)) == TotalSize(bs)
  {
    TotalSizeAppend(bs[im + 1..], bs[..im + 1]);
    TotalSizeAppend(bs[..im + 1], bs[im + 1..]);
    SplitJoin(bs, im + 1);
  }

  /** The iterator yields only stored samples, so never more than size() of them. */
  lemma YieldedInStore(bs: seq<Bucket>)
    requires 0 < |bs| < TWO64
    ensures multiset(Yielded(bs)) <= multiset(Flatten(bs))
    ensures |Yielded(bs)| <= TotalSize(bs)
  {
    var im := NewestSlot(bs);
    var tsMin := TsMin(Newest(bs), |bs|);
    var rs := Rotate(bs, im);
    ChainInStore(rs, tsMin);
    ChainBounded(rs, tsMin);
    RotatePreservesStore(bs, im);
  }

  lemma {:induction false} ChainEndsWithLast(rs: seq<Bucket>, tsMin: u64)
    requires |rs| > 0
    ensures |rs[|rs| - 1]| <= |Chain(rs, tsMin)|
    ensures Chain(rs, tsMin)[|Chain(rs, tsMin)| - |rs[|rs| - 1]|..] == rs[|rs| - 1]
  {
    if |rs| > 1 {
      ChainEndsWithLast(rs[1..], tsMin);
    }
  }

  /** The bucket at `index_max` is never skipped: the walk ends with all of it. */
  lemma NewestBucketLast(bs: seq<Bucket>)
    requires 0 < |bs| < TWO64
    ensures |bs[NewestSlot(bs)]| <= |Yielded(bs)|
    ensures Yielded(bs)[|Yielded(bs)| - |bs[NewestSlot(bs)]|..] == bs[NewestSlot(bs)]
  {
    ChainEndsWithLast(Rotate(bs, NewestSlot(bs)), TsMin(Newest(bs), |bs|));
  }

  lemma {:induction false} ChainOfDead(rs: seq<Bucket>, tsMin: u64)
    requires |rs| > 0
    requires forall k :: 0 <= k < |rs| - 1 ==> !Live(rs[k], tsMin)
    ensures Chain(rs, tsMin) == rs[|rs| - 1]
  {
    if |rs| > 1 {
      ChainOfDead(rs[1..], tsMin);
    }
  }

  /**
   * When the newest timestamp is below TIMEOUT, `max - TIMEOUT` wraps round to a
   * huge `ts_min` and only the newest bucket is yielded.
   */
  lemma WrappedTsMinYieldsNewestOnly(bs: seq<Bucket>)
    requires 0 < |bs| < TWO64
    requires Newest(bs) < |bs|
    ensures Yielded(bs) == bs[NewestSlot(bs)]
  {
    var im := NewestSlot(bs);
    var tsMin := TsMin(Newest(bs), |bs|);
    var rs := Rotate(bs, im);
    NewestIsMaximum(bs);
    forall k | 0 <= k < |rs| - 1
      ensures !Live(rs[k], tsMin)
    {
      var i := if im + 1 + k < |bs| then im + 1 + k else im + 1 + k - |bs|;
      assert rs[k] == bs[i];
    }
    ChainOfDead(rs, tsMin);
  }

  /** On an empty store, `begin()` equals `end()`: nothing is yielded. */
  lemma EmptyStoreYieldsNothing(bs: seq<Bucket>)
    requires 0 < |bs| < TWO64
    requires forall i :: 0 <= i < |bs| ==> bs[i] == []
    ensures Yielded(bs) == []
  {
    NewestIsMaximum(bs);
    WrappedTsMinYieldsNewestOnly(bs);
  }
  // ---------------------------------------------------------------------------
  // Chronological order

  /** Timestamps never decrease along `ss`. */
  ghost predicate Chronological(ss: seq<Sample>)
  {
    forall i, j :: 0 <= i < j < |ss| ==> ss[i].ts <= ss[j].ts
  }

  /** Every sample of every bucket of `rs` shares that bucket's first timestamp. */
  ghost predicate Uniform(rs: seq<Bucket>)
  {
    forall k, n :: 0 <= k < |rs| && 0 <= n < |rs[k]| ==> rs[k][n].ts == rs[k][0].ts
  }

  /** Whether the walk over `rs` yields bucket `k`: the last always, the others when live. */
  predicate Visited(rs: seq<Bucket>, tsMin: u64, k: nat)
    requires k < |rs|
  {
    k == |rs| - 1 || Live(rs[k], tsMin)
  }

  /** The visited non-empty buckets of `rs` carry strictly increasing timestamps. */
  ghost predicate AscendingVisits(rs: seq<Bucket>, tsMin: u64)
  {
    forall k1, k2 ::
      (0 <= k1 < k2 < |rs| && Visited(rs, tsMin, k1) && Visited(rs, tsMin, k2)
       && rs[k1] != [] && rs[k2] != []) ==> rs[k1][0].ts < rs[k2][0].ts
  }

  lemma {:induction false} ChainAbove(rs: seq<Bucket>, tsMin: u64, t: int)
    requires |rs| > 0 && Uniform(rs)
    requires forall k :: 0 <= k < |rs| && Visited(rs, tsMin, k) && rs[k] != [] ==> rs[k][0].ts > t
    ensures forall n :: 0 <= n < |Chain(rs, tsMin)| ==> Chain(rs, tsMin)[n].ts > t
  {
    if |rs| == 1 {
      assert Visited(rs, tsMin, 0);
    } else {
      var tail := rs[1..];
      forall k | 0 <= k < |tail| && Visited(tail, tsMin, k) && tail[k] != []
        ensures tail[k][0].ts > t
      {
        assert Visited(rs, tsMin, k + 1);
      }
      ChainAbove(tail, tsMin, t);
      if Live(rs[0], tsMin) {
        assert Visited(rs, tsMin, 0);
      }
    }
  }

  lemma {:induction false} ChainChronological(rs: seq<Bucket>, tsMin: u64)
    requires |rs| > 0 && Uniform(rs) && AscendingVisits(rs, tsMin)
    ensures Chronological(Chain(rs, tsMin))
  {
    if |rs| > 1 {
      var tail := rs[1..];
      assert AscendingVisits(tail, tsMin) by {
        forall k1, k2 | 0 <= k1 < k2 < |tail| && Visited(tail, tsMin, k1) && Visited(tail, tsMin, k2)
          && tail[k1] != [] && tail[k2] != []
          ensures tail[k1][0].ts < tail[k2][0].ts
        {
          assert Visited(rs, tsMin, k1 + 1) && Visited(rs, tsMin, k2 + 1);
        }
      }
      ChainChronological(tail, tsMin);
      if Live(rs[0], tsMin) {
        forall k | 0 <= k < |tail| && Visited(tail, tsMin, k) && tail[k] != []
          ensures tail[k][0].ts > rs[0][0].ts
        {
          assert Visited(rs, tsMin, 0) && Visited(rs, tsMin, k + 1);
        }
        ChainAbove(tail, tsMin, rs[0][0].ts);
      }
    }
  }

  lemma MulAtLeast(d: int, w: int)
    requires d >= 1 && w > 0
    ensures d * w >= w
  {
  }

  lemma SmallMultipleIsZero(d: int, w: int)
    requires w > 0 && -w < d * w < w
    ensures d == 0
  {
    if d >= 1 {
      MulAtLeast(d, w);
    } else if d <= -1 {
      assert (-d) * w == -(d * w);
      MulAtLeast(-d, w);
    }
  }

  /** `q * w + r` leaves remainder `r` when `0 <= r < w`. */
  lemma ModUnique(x: int, q: int, r: int, w: int)
    requires w > 0 && 0 <= r < w && x == q * w + r
    ensures x % w == r
  {
    var q', r' := x / w, x % w;
    assert x == q' * w + r';
    assert (q - q') * w == q * w - q' * w;
    SmallMultipleIsZero(q - q', w);
  }

  /** Two numbers less than `w` apart with the same remainder are equal. */
  lemma ModEqClose(a: int, b: int, w: int)
    requires w > 0 && a % w == b % w && a - b < w && b - a < w
    ensures a == b
  {
    var qa, qb := a / w, b / w;
    assert a == qa * w + a % w && b == qb * w + b % w;
    assert (qa - qb) * w == qa * w - qb * w;
    SmallMultipleIsZero(qa - qb, w);
  }

  /**
   * The arithmetic behind LiveTimestamp: if `max` sits in slot `im` and `t`, in
   * slot `j` (walk position `k` after `im`), lies in `[max - w, max]`, then `t`
   * is `max - w + 1 + k`.
   */
  lemma WindowSecond(m: int, im: int, w: int, k: int, j: int, t: int)
    requires 0 <= im < w && 0 <= k < w - 1 && m >= w && t >= 0
    requires m % w == im && t % w == j
    requires j == if im + 1 + k < w then im + 1 + k else im + 1 + k - w
    requires m - w <= t <= m
    ensures t == m - w + 1 + k
  {
    var q := m / w;
    assert m == q * w + im;
    assert q >= 1;
    var c := m - w + 1 + k;
    if im + 1 + k < w {
      assert c == (q - 1) * w + j by {
        assert (q - 1) * w == q * w - w;
      }
      ModUnique(c, q - 1, j, w);
    } else {
      ModUnique(c, q, j, w);
    }
    ModEqClose(t, c, w);
  }

  /**
   * Once the newest timestamp `max` has reached TIMEOUT, the live bucket at walk
   * position `k` (other than the last) holds timestamp `max - TIMEOUT + 1 + k`:
   * the walk meets the seconds of the window in order.
   */
  lemma LiveTimestamp(bs: seq<Bucket>, k: nat)
    requires 0 < |bs| < TWO64 && BucketsValid(bs)
    requires Newest(bs) >= |bs| && k < |bs| - 1
    requires Live(Rotate(bs, NewestSlot(bs))[k], Newest(bs) - |bs|)
    ensures Rotate(bs, NewestSlot(bs))[k][0].ts == Newest(bs) - |bs| + 1 + k
  {
    var w, m, im := |bs|, Newest(bs), NewestSlot(bs);
    NewestIsMaximum(bs);
    var j := if im + 1 + k < w then im + 1 + k else im + 1 + k - w;
    assert Rotate(bs, im)[k] == bs[j];
    assert BucketOk(bs[j], j, w) && BucketOk(bs[im], im, w);
    WindowSecond(m, im, w, k, j, bs[j][0].ts);
  }

  /** Under the bucket invariant the iterator yields samples in timestamp order. */
  lemma YieldedChronological(bs: seq<Bucket>)
    requires 0 < |bs| < TWO64 && BucketsValid(bs)
    ensures Chronological(Yielded(bs))
  {
    var w, m, im := |bs|, Newest(bs), NewestSlot(bs);
    var tsMin := TsMin(m, w);
    var rs := Rotate(bs, im);
    assert Uniform(rs) by {
      forall k, n | 0 <= k < |rs| && 0 <= n < |rs[k]|
        ensures rs[k][n].ts == rs[k][0].ts
      {
        var j := if im + 1 + k < w then im + 1 + k else im + 1 + k - w;
        assert rs[k] == bs[j];
      }
    }
    if m < w {
      WrappedTsMinYieldsNewestOnly(bs);
    } else {
      NewestIsMaximum(bs);
      forall k1, k2 | 0 <= k1 < k2 < |rs| && Visited(rs, tsMin, k1) && Visited(rs, tsMin, k2)
        && rs[k1] != [] && rs[k2] != []
        ensures rs[k1][0].ts < rs[k2][0].ts
      {
        LiveTimestamp(bs, k1);
        if k2 < w - 1 {
          LiveTimestamp(bs, k2);
        }
      }
      ChainChronological(rs, tsMin);
    }
  }
  // ---------------------------------------------------------------------------
  // Which samples are yielded

  lemma {:induction false} ChainContains(rs: seq<Bucket>, tsMin: u64, k: nat)
    requires k < |rs| && Visited(rs, tsMin, k)
    ensures forall n :: 0 <= n < |rs[k]| ==> rs[k][n] in Chain(rs, tsMin)
  {
    if k > 0 {
      ChainContains(rs[1..], tsMin, k - 1);
    }
  }

  lemma {:induction false} ChainWithin(rs: seq<Bucket>, tsMin: u64, lo: int, hi: int)
    requires |rs| > 0
    requires forall k, n :: 0 <= k < |rs| && Visited(rs, tsMin, k) && 0 <= n < |rs[k]| ==> lo <= rs[k][n].ts <= hi
    ensures forall n :: 0 <= n < |Chain(rs, tsMin)| ==> lo <= Chain(rs, tsMin)[n].ts <= hi
  {
    if |rs| == 1 {
      assert Visited(rs, tsMin, 0);
    } else {
      var tail := rs[1..];
      forall k, n | 0 <= k < |tail| && Visited(tail, tsMin, k) && 0 <= n < |tail[k]|
        ensures lo <= tail[k][n].ts <= hi
      {
        assert Visited(rs, tsMin, k + 1);
      }
      ChainWithin(tail, tsMin, lo, hi);
      if Live(rs[0], tsMin) {
        assert Visited(rs, tsMin, 0);
      }
    }
  }

  /**
   * Once the newest timestamp `max` has reached TIMEOUT, every yielded sample
   * lies in the last TIMEOUT seconds: `max - TIMEOUT <= ts <= max`.
   */
  lemma YieldedWithinWindow(bs: seq<Bucket>)
    requires 0 < |bs| < TWO64 && BucketsValid(bs) && Newest(bs) >= |bs|
    ensures forall n :: 0 <= n < |Yielded(bs)| ==> Newest(bs) - |bs| <= Yielded(bs)[n].ts <= Newest(bs)
  {
    var w, m, im := |bs|, Newest(bs), NewestSlot(bs);
    var rs := Rotate(bs, im);
    NewestIsMaximum(bs);
    forall k, n | 0 <= k < |rs| && Visited(rs, m - w, k) && 0 <= n < |rs[k]|
      ensures m - w <= rs[k][n].ts <= m
    {
      var j := if im + 1 + k < w then im + 1 + k else im + 1 + k - w;
      assert rs[k] == bs[j];
      assert BucketOk(bs[j], j, w);
    }
    ChainWithin(rs, m - w, m - w, m);
  }

  /**
   * A store where the window holds three seconds, each with one sample: the
   * newest timestamp is 2 < TIMEOUT = 3, so `ts_min` wraps and the samples of
   * seconds 0 and 1 are not yielded, though they are within the last three seconds.
   */
  lemma WrappedTsMinDropsRecent()
    ensures var bs := [[Sample(0, 10)], [Sample(1, 20)], [Sample(2, 30)]];
            Newest(bs) == 2 && bs[0][0].ts + |bs| > Newest(bs) && Yielded(bs) == [Sample(2, 30)]
  {
    var bs := [[Sample(0, 10)], [Sample(1, 20)], [Sample(2, 30)]];
    assert Scan(bs, 1) == (0, 0);
    assert Scan(bs, 2) == (1, 1);
    assert Scan(bs, 3) == (2, 2);
    WrappedTsMinYieldsNewestOnly(bs);
  }

  /** `ts_min` as evidently intended: `max - TIMEOUT`, but 0 rather than a wrapped value. */
  function ClampedTsMin(max: u64, w: nat): (t: u64)
    requires w < TWO64
    ensures t <= max
    ensures max >= w ==> t == TsMin(max, w)
  {
    if max >= w then max - w else 0
  }

  /**
   * With the clamped `ts_min`, every sample whose timestamp is within TIMEOUT
   * seconds of the newest one is yielded.
   */
  lemma ClampedWindowKeepsRecent(bs: seq<Bucket>)
    requires 0 < |bs| < TWO64
    ensures forall j, n :: 0 <= j < |bs| && 0 <= n < |bs[j]| && bs[j][0].ts + |bs| >= Newest(bs)
              ==> bs[j][n] in WindowFrom(bs, ClampedTsMin(Newest(bs), |bs|))
  {
    var w, m, im := |bs|, Newest(bs), NewestSlot(bs);
    var tsMin := ClampedTsMin(m, w);
    var rs := Rotate(bs, im);
    forall j, n | 0 <= j < w && 0 <= n < |bs[j]| && bs[j][0].ts + w >= m
      ensures bs[j][n] in WindowFrom(bs, tsMin)
    {
      var k := RingPos(im, j, w);
      RotateAt(bs, im, j);
      assert Visited(rs, tsMin, k);
      ChainContains(rs, tsMin, k);
    }
  }
}
