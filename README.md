# fr_benou::Stats in Dafny

`fr_benou::Stats<T, TIMEOUT>` (include/Stats.hpp) keeps timestamped values for at
most `TIMEOUT` seconds and answers percentile queries over them. It stores the
values in a fixed array of `TIMEOUT` buckets, one per second modulo `TIMEOUT`:

- `add` appends a `(timestamp, value)` pair to bucket `ts % TIMEOUT`. If that
  bucket still holds an older second, `add` first empties it.
- A compound input iterator walks the buckets in ring order. It starts just
  after the bucket of the newest timestamp and ends at that bucket. It skips
  buckets that are empty or older than `ts_min = newest - TIMEOUT`.
- `get_p` counts the stored samples with `size()`, copies the values the
  iterator yields into a vector and runs `std::nth_element` at rank
  `(size * p + 99) / 100`.

The project has three modules:

- `Ring` (ring.dfy) is the pure description of the store: the buckets as a
  sequence, `add`, `clear`, `size`, the newest-timestamp scan, `ts_min`, and
  the sequence of samples the walk yields (`Yielded`). It proves what that
  walk promises: it yields only stored samples; it yields them oldest first;
  it stays inside the `TIMEOUT`-second window; the newest second always comes
  last.
- `Selection` (selection.dfy) holds the rank arithmetic on 64-bit unsigned
  integers and the order statistic, defined by counting. It also holds a
  selection method that stands in for `std::nth_element` and has its
  postcondition.
- `Store` (stats.dfy) is the imperative part:
  - `Stats` is a class over `array<Bucket>` whose `add` and `clear` update
    buckets in place.
  - `StatsIterator` is a class whose cursor `(index, pos)` is moved by `seek`
    and `++`.
  - `get_p` is built from them.

  Each method is proved against the `Ring` and `Selection` functions. For
  example, the samples left to visit from an iterator (`Remaining()`) are
  always a suffix of `Yielded`, and `get_p` returns the element of the
  computed rank in `Materialized`, the vector that the copy fills.

The model follows the code as written in three places where the code departs
from what its comments promise ("valid Stats elements are the latest 60s
elements", "50 means median"):

- `ts_min` wraps around when the newest timestamp is smaller than `TIMEOUT`.
- `get_p` is only defined when its rank is a valid index.
- `get_p` sizes its vector by `size()`, which also counts the stale samples
  that `seek` skips. Each stale sample therefore leaves a 0 in the vector,
  and that 0 takes part in the selection.

All three are listed under Findings, each with a corrected definition.
The corrected query is `Store.Stats.GetPLive`.

## Model

| member | source | states |
|---|---|---|
| Ring.TotalSize | include/Stats.hpp:219-226 | `size()`: the bucket lengths summed slot by slot from slot 0, stale samples included; Ring.FlattenLength proves it counts every stored sample |
| Ring.Wipes | include/Stats.hpp:253 | `add` empties the bucket exactly when the bucket is non-empty and its first sample has another timestamp |
| Ring.SlotOf | include/Stats.hpp:251 | a timestamp's bucket is a valid slot of the ring |
| Ring.Inserted | include/Stats.hpp:253-254 | the new sample ends the bucket; a bucket of another second is replaced by the sample alone, otherwise the old contents are kept before it |
| Ring.Add | include/Stats.hpp:248-256 | `add` changes only the timestamp's own slot, and the ring keeps its length |
| Ring.AddKeepsInvariant | include/Stats.hpp:250-254 | after `add` every bucket still holds samples of one timestamp whose residue is its slot |
| Ring.AddSize | include/Stats.hpp:248-256 | `add` grows the size by one, or by one minus the wiped bucket's length when it recycles a slot |
| Ring.TotalSizeUpdate | include/Stats.hpp:219-226 | replacing one bucket changes `size()` by the difference of the two bucket lengths |
| Ring.FlattenLength | include/Stats.hpp:219-226 | `size()` counts exactly the samples stored across all buckets |
| Ring.Cleared | include/Stats.hpp:233-238 | `clear` leaves `TIMEOUT` empty buckets |
| Ring.EmptyStoreSize | include/Stats.hpp:219-226 | a store of empty buckets has size 0 |
| Ring.ClearedIsValid | include/Stats.hpp:233-238 | a cleared store satisfies the bucket invariant and has size 0 |
| Ring.Scan | include/Stats.hpp:100-107 | the scan finds a first timestamp no bucket exceeds, in the first bucket holding it with no earlier bucket tied, or (0, 0) when none is positive |
| Ring.Newest | include/Stats.hpp:100-104 | `max`: the largest first timestamp of a non-empty bucket, and 0 for an empty store (Ring.NewestIsMaximum) |
| Ring.NewestIsMaximum | include/Stats.hpp:97-107 | `index_max` is the first slot holding the largest leading timestamp, and 0 when that is 0 |
| Ring.NewestSlot | include/Stats.hpp:105 | `index_max` is a slot of the ring |
| Ring.TsMin | include/Stats.hpp:108 | `ts_min` is `max - TIMEOUT` when that is not negative, otherwise it wraps to a value above `max` |
| Ring.NextSlot | include/Stats.hpp:119-122 | `next_` is the circular successor of a slot |
| Ring.Rotate | include/Stats.hpp:145-149 | the walk's bucket order has the same length and ends with the bucket of `index_max` |
| Ring.RingPos | include/Stats.hpp:130-138 | a slot's place in the walk is last exactly for `index_max` |
| Ring.RotateAt | include/Stats.hpp:130-138 | a slot's place in the walk holds that slot's bucket |
| Ring.Live | include/Stats.hpp:132-133 | `seek`'s test on a bucket: non-empty, and its first timestamp not below `ts_min`. It tests the first sample only; `seek` tests each sample's `current->first`, and the two agree because every bucket holds one timestamp (`BucketsValid`, kept by Ring.AddKeepsInvariant) |
| Ring.Chain | include/Stats.hpp:130-163 | what the walk yields over buckets in walk order: each bucket before the last, whole if it is live and not at all otherwise, then the last bucket (`index_max`) whole. It keeps or drops a bucket by its first sample's timestamp, while `seek` tests every sample and leaves a bucket at its first stale sample; the two agree only under `BucketsValid`, which every iterator method requires through `Valid()` |
| Ring.WindowFrom | include/Stats.hpp:145-163 | what `begin()`..`end()` yields for a given `ts_min`: the chain over the ring read from the slot after `index_max` round to `index_max` |
| Ring.Yielded | include/Stats.hpp:97-163 | what `begin()`..`end()` yields with the source's own 64-bit `ts_min`: the reference every iterator method and `get_p` is proved against |
| Ring.Values | include/Stats.hpp:315 | the lambda of the transform keeps each sample's value, in order |
| Ring.Materialized | include/Stats.hpp:314-315 | the vector has `size()` entries: the yielded values first, then zeros from `v(sz)` |
| Ring.FilledAll | include/Stats.hpp:314-315 | copying every yielded value into a zeroed vector of exactly their number gives their values |
| Ring.FilledIsMaterialized | include/Stats.hpp:314-315 | writing all yielded values into a zeroed vector of `size()` entries gives that vector |
| Ring.BeginRest | include/Stats.hpp:145-151 | a cursor at the start of the slot after `index_max` has the whole walk still to visit |
| Ring.EndRest | include/Stats.hpp:158-163 | the cursor at the end of the `index_max` bucket has nothing left to visit |
| Ring.StartRest | include/Stats.hpp:135-136 | a cursor at the start of a slot has to visit the walk from that slot's place on |
| Ring.SkipDead | include/Stats.hpp:132-134 | a cursor at the end of a bucket, or in a bucket older than `ts_min`, has nothing left in that bucket to visit |
| Ring.SkipStep | include/Stats.hpp:132-137 | one step of `seek`'s loop keeps the samples left to visit and moves one place along the walk |
| Ring.AdvanceStep | include/Stats.hpp:165-175 | at a seeked sample, `*` gives the next sample of the walk and `++current` drops exactly that one |
| Ring.SeekedExhausted | include/Stats.hpp:182-184 | a seeked cursor has nothing left exactly when it equals `end()` |
| Ring.ChainBounded | include/Stats.hpp:130-138 | the walk visits at most as many samples as the buckets it crosses hold |
| Ring.ChainInStore | include/Stats.hpp:130-138 | the walk visits only samples held in the buckets it crosses |
| Ring.RotatePreservesStore | include/Stats.hpp:145-149 | walking the ring from after `index_max` covers the same samples and the same size as the slots in order |
| Ring.YieldedInStore | include/Stats.hpp:130-138 | the iterator yields only stored samples, and no more than `size()` |
| Ring.NewestBucketLast | include/Stats.hpp:130-138 | the newest second's bucket is always yielded, whole, at the end |
| Ring.ChainOfDead | include/Stats.hpp:132-134 | when every bucket before the last fails the test, the walk yields the last bucket alone |
| Ring.WrappedTsMinYieldsNewestOnly | include/Stats.hpp:108 | when the newest timestamp is below `TIMEOUT`, only the newest second's bucket is yielded |
| Ring.EmptyStoreYieldsNothing | include/Stats.hpp:145-163 | an empty store yields nothing: `begin()` meets `end()` at once |
| Ring.ChainChronological | include/Stats.hpp:130-138 | visiting buckets of ascending seconds yields samples in timestamp order |
| Ring.LiveTimestamp | include/Stats.hpp:108 | a bucket the walk keeps at place `k` holds second `newest - TIMEOUT + 1 + k` |
| Ring.YieldedChronological | include/Stats.hpp:61-63 | the iterator yields samples oldest first |
| Ring.ChainContains | include/Stats.hpp:130-138 | every sample of a bucket the walk does not skip is yielded |
| Ring.ChainWithin | include/Stats.hpp:130-138 | if every visited bucket's samples are within bounds, so is everything the walk yields |
| Ring.YieldedWithinWindow | include/Stats.hpp:108 | when nothing wraps, every yielded timestamp lies between `newest - TIMEOUT` and `newest` |
| Ring.WrappedTsMinDropsRecent | include/Stats.hpp:108 | with TIMEOUT 3 and one sample at each of seconds 0, 1 and 2, only second 2 is yielded, though all three are in the window |
| Ring.ClampedTsMin | include/Stats.hpp:108 | the corrected `ts_min` never exceeds the newest timestamp and equals the source's when nothing wraps |
| Ring.ClampedWindowKeepsRecent | include/Stats.hpp:108 | with the corrected `ts_min`, every sample within `TIMEOUT` seconds of the newest one is yielded |
| Selection.IsOrderStatistic | include/Stats.hpp:317-318 | `r` is the value a full ascending sort would put at zero-based rank `n`: at most `n` elements are below it and more than `n` are at most it |
| Selection.PartitionedAt | include/Stats.hpp:317 | `nth_element`'s postcondition at `n`: `n` is a valid position, nothing before it is larger and nothing after it is smaller |
| Selection.PartitionedIsOrderStatistic | include/Stats.hpp:317-318 | the element `nth_element` leaves at rank `n` is the order statistic of rank `n` |
| Selection.CountsOfPermutation | include/Stats.hpp:317 | rearranging the vector does not change which element has a given rank |
| Selection.OrderStatisticUnique | include/Stats.hpp:318 | the element of a given rank is unique, so `get_p`'s answer is determined |
| Selection.NthElement | include/Stats.hpp:317 | the vector is permuted so that nothing before rank `n` is larger and nothing after it is smaller |
| Selection.OrderStatisticOccurs | include/Stats.hpp:318 | the element of a given rank occurs in the vector |
| Selection.MinIndexFrom | include/Stats.hpp:317 | finds a smallest element of the unsorted tail |
| Selection.RankIndex | include/Stats.hpp:316 | the rank fits in 64 bits: `p` is converted to unsigned and the arithmetic wraps modulo 2^64 |
| Selection.RankIsCeiling | include/Stats.hpp:316 | for `p` in [0, 100] and no wrap, the rank is `size * p / 100` rounded up |
| Selection.RankInBounds | include/Stats.hpp:316-318 | the rank is a valid index exactly when `size * (100 - p) >= 100` |
| Selection.RankOverrun | include/Stats.hpp:316-318 | the rank equals the size, one past the last value, for sizes 1, 2 and 3 at p 70, and for size 5 at p 100 |
| Selection.SeventiethOverrun | include/Stats.hpp:330-333 | `get_p70()`'s rank overruns the vector exactly for sizes 1, 2 and 3 |
| Selection.ClampedRank | include/Stats.hpp:316 | the corrected rank is always a valid index and equals the source's whenever that one is |
| Selection.ClampedRankOfHundredIsMaximum | include/Stats.hpp:316-318 | with the corrected rank, the 100th percentile is at least every value |
| Selection.SeventiethOfFive | include/Stats.hpp:330-333 | for values 10 to 50 the 70th percentile has rank 4, and 50 is its only value |
| Store.Stats.constructor | include/Stats.hpp:57 | a new store has `TIMEOUT` empty buckets |
| Store.Stats.AddPair | include/Stats.hpp:248-256 | `add(pair)` updates the array in place as `Ring.Add` says and keeps the bucket invariant |
| Store.Stats.Add | include/Stats.hpp:267-270 | `add(ts, val)` is `add` of the pair |
| Store.Stats.Size | include/Stats.hpp:219-226 | the loop returns the total number of stored samples |
| Store.Stats.Clear | include/Stats.hpp:233-238 | the loop leaves every bucket empty |
| Store.Stats.Begin | include/Stats.hpp:199-202 | a fresh iterator has exactly the yielded samples still to visit |
| Store.Stats.End | include/Stats.hpp:209-212 | a fresh iterator at the end of the `index_max` bucket has nothing to visit |
| Store.Stats.GetAll | include/Stats.hpp:294-297 | the iterator from `get_all` visits exactly the yielded samples |
| Store.Stats.GetP | include/Stats.hpp:310-319 | an empty store gives `out_of_range`; otherwise the result is the element of the computed rank among the materialised values |
| Store.Stats.GetPLive | include/Stats.hpp:310-319 | the corrected `get_p` fails exactly when nothing is yielded, and otherwise returns, for every `p`, the element of the clamped rank among the yielded values, which is always one of them |
| Store.Stats.MaterializeLive | include/Stats.hpp:312-315 | the corrected copy holds exactly the yielded values, with no zero padding |
| Store.Stats.CountYielded | include/Stats.hpp:312 | the corrected count is the number of samples the iterator yields, not `size()` |
| Store.Stats.CountRemaining | include/Stats.hpp:182-184 | walking an iterator until `!=` fails counts the samples it had left |
| Store.Stats.Materialize | include/Stats.hpp:312-315 | `v(sz)` followed by the transform from `begin()` to `end()` holds the materialised values |
| Store.Stats.Transform | include/Stats.hpp:315 | the copy writes every sample left to visit into the vector, front to back |
| Store.Stats.CopyStep | include/Stats.hpp:315 | one step of the copy writes the current value and advances the iterator by one sample |
| Store.Stats.GetP70 | include/Stats.hpp:330-333 | `get_p70` is `get_p(70)` |
| Store.StatsIterator.constructor | include/Stats.hpp:97-109 | the iterator captures the newest slot as `index_max` and `ts_min = max - TIMEOUT` on 64 bits |
| Store.StatsIterator.ScanNewest | include/Stats.hpp:100-107 | the constructor's loop computes the newest timestamp and its first slot |
| Store.StatsIterator.Seek | include/Stats.hpp:130-138 | `seek` moves to a sample or to the end without changing the samples left to visit |
| Store.StatsIterator.Begin | include/Stats.hpp:145-151 | `begin()` sets the cursor so that it has the whole yielded sequence still to visit |
| Store.StatsIterator.End | include/Stats.hpp:158-163 | `end()` puts the cursor at the end of the `index_max` bucket, with nothing left |
| Store.StatsIterator.Next | include/Stats.hpp:165-170 | `++` drops exactly the first sample left to visit |
| Store.StatsIterator.Get | include/Stats.hpp:172-175 | `*` returns the first sample left to visit |
| Store.StatsIterator.NotEqual | include/Stats.hpp:182-184 | `!=` compares cursors, and against `end()` it is true exactly while samples are left |
| Store.AppendToSlot | include/Stats.hpp:253-254 | adding a sample of the same second to its slot appends it |
| Store.FiveAddsFillOneSlot | include/Stats.hpp:248-256 | five adds at second 7 into 60 empty slots fill slot 7 with the five samples in order |
| Store.FiveValuesOneSecond | include/Stats.hpp:310-319 | that store has size 5, materialises to 10, 20, 30, 40, 50, and its 70th percentile can only be 50 |
| Store.SixAddsWrapTwice | include/Stats.hpp:248-256 | seconds 0 to 5 added to 3 slots leave each slot holding only its latest second |
| Store.LastThreeSeconds | include/Stats.hpp:130-138 | that store yields the samples of seconds 3, 4 and 5, oldest first |
| Store.StaleStore | include/Stats.hpp:132-134 | with 3 slots holding second 1 and second 5, the store has size 2 but yields only the sample of second 5 |
| Store.StaleSampleBecomesZero | include/Stats.hpp:312-318 | on that store `get_p` materialises `[100, 0]`, so `get_p(0)` can only return 0, a value never added |
| Store.StaleSampleIgnoredWhenLive | include/Stats.hpp:310-319 | on that store the corrected query sees only the value 100, and that is its answer |

## Left out

- `GetTimestamp` and `add(value_type)`: they read the wall clock (`std::time`). The model takes the timestamp as a parameter of `add(ts, val)` instead.
- Values are `int`, not the default `T = double`. The store does no arithmetic on values, but floating-point comparison and NaN are not modelled.
- `operator->` and the `std::iterator` base class: `operator->` exposes the same element as `*`, and the base class only supplies typedefs.
- Store.StatsIterator.NotEqual: it compares the cursor `(index, pos)`. The source compares only the inner vector iterator `current`, and comparing iterators of two different vectors is left out.
- Selection.NthElement: the source's introselect is replaced by a partial selection sort with the same postcondition. The model does not capture nth_element's complexity or the exact order it leaves behind.
- Store.Stats.Size: `size_type` overflow is not modelled; sizes are unbounded naturals.
- Vector capacity, reallocation and the amortised O(1) cost of `add` are not modelled.
- Concurrent use of one store is not modelled; the source has no locking.
- Ring.YieldedInStore: states that the yielded samples are a sub-multiset of the stored ones, not that they keep the storage order. Chronological order is proved separately by Ring.YieldedChronological.
- Store.Stats.GetP: requires the rank to be below the size, because the source then reads `v[index]` past the end of the vector, which is undefined. Store.Stats.GetPLive is the corrected query without that requirement.
- Store.Stats.GetP70: inherits that requirement for `p = 70`, which excludes stores of 1, 2 or 3 samples (Selection.SeventiethOverrun).
- Store.StatsIterator.constructor: keeps the wrapping `ts_min` as written. The corrected `ts_min` is proved about the walk (Ring.ClampedWindowKeepsRecent), but the iterator class does not use it.
- `get_p(100)` is meant to give the maximum. The code reads one past the last value there, so every such call is outside Store.Stats.GetP's precondition (see Findings).
- The example programs main.cpp and huge.cpp, and their printing helpers, are not part of this model.

## Findings

| source | as written | input that shows it | evidently intended | confidence | as-written member | corrected member |
|---|---|---|---|---|---|---|
| include/Stats.hpp:316-318 | `index = (sz * p + 99) / 100` is used as an index into a vector of `sz` values | one, two or three samples and `get_p70()` (rank 1 of 1, 2 of 2, 3 of 3); five samples and `get_p(100)` (rank 5 of 5) | the rank is at most `sz - 1`, so that `get_p(100)` is the maximum | not executed | Selection.RankOverrun | Selection.ClampedRank |
| include/Stats.hpp:108 | `ts_min = max - TIMEOUT` on unsigned 64-bit integers wraps when `max < TIMEOUT` | TIMEOUT 3 with one sample at each of seconds 0, 1 and 2: only second 2 is yielded | every sample within `TIMEOUT` seconds of the newest one is yielded | not executed | Ring.WrappedTsMinDropsRecent | Ring.ClampedWindowKeepsRecent |
| include/Stats.hpp:312-318 | the vector has `size()` entries, which counts stale samples, but only the yielded values are copied into it; the rest stay 0 and take part in `nth_element` | 3 slots holding `[[], [(1, 100)], [(5, 100)]]`: size 2, one value yielded, vector `[100, 0]`, so `get_p(0)` returns 0 | the percentile of the yielded samples only | not executed | Store.StaleSampleBecomesZero | Store.Stats.GetPLive |
