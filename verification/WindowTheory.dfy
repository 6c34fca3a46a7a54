/** A rolling window seen as a log of timestamped events. Interval number `i` covers the times from
    `origin + i * interval` up to the next; a window is a range of interval numbers. */
module WindowTheory {
  import opened Arith

  datatype Event = Event(slot: int, value: real)

  datatype Bucket = Bucket(sum: real, count: nat)

  const EMPTY := Bucket(0.0, 0)

  /** Number of events in the slots from lo (included) to hi (excluded). */
  function CountIn(log: seq<Event>, lo: int, hi: int): (n: nat) {
    if log == [] then 0 else
    var e := log[|log| - 1];
    CountIn(log[..|log| - 1], lo, hi) + if lo <= e.slot < hi then 1 else 0
  }

  function SumIn(log: seq<Event>, lo: int, hi: int): (s: real) {
    if log == [] then 0.0 else
    var e := log[|log| - 1];
    SumIn(log[..|log| - 1], lo, hi) + if lo <= e.slot < hi then e.value else 0.0
  }

  function BucketOf(log: seq<Event>, slot: int): (b: Bucket) {
    Bucket(SumIn(log, slot, slot + 1), CountIn(log, slot, slot + 1))
  }

  lemma {:induction false} SplitRange(log: seq<Event>, lo: int, mid: int, hi: int)
    requires lo <= mid <= hi
    ensures CountIn(log, lo, hi) == CountIn(log, lo, mid) + CountIn(log, mid, hi)
    ensures SumIn(log, lo, hi) == SumIn(log, lo, mid) + SumIn(log, mid, hi)
  {
    if log != [] { SplitRange(log[..|log| - 1], lo, mid, hi); }
  }

  /** No event lies in the future of the last one. */
  lemma {:induction false} NothingLater(log: seq<Event>, lo: int, hi: int)
    requires forall i :: 0 <= i < |log| ==> log[i].slot < lo
    ensures CountIn(log, lo, hi) == 0 && SumIn(log, lo, hi) == 0.0
  {
    if log != [] { NothingLater(log[..|log| - 1], lo, hi); }
  }

  lemma BucketAppend(log: seq<Event>, e: Event, slot: int)
    ensures BucketOf(log + [e], slot) == if e.slot == slot
              then Bucket(BucketOf(log, slot).sum + e.value, BucketOf(log, slot).count + 1) else BucketOf(log, slot)
  {
    assert (log + [e])[..|log|] == log;
  }

  function TotalCount(bs: seq<Bucket>): (n: nat) {
    if bs == [] then 0 else TotalCount(bs[..|bs| - 1]) + bs[|bs| - 1].count
  }

  function TotalSum(bs: seq<Bucket>): (s: real) {
    if bs == [] then 0.0 else TotalSum(bs[..|bs| - 1]) + bs[|bs| - 1].sum
  }

  /** Consecutive buckets add up to the events of their slots. */
  lemma {:induction false} BucketsAddUp(log: seq<Event>, lo: int, bs: seq<Bucket>)
    requires forall i :: 0 <= i < |bs| ==> bs[i] == BucketOf(log, lo + i)
    ensures TotalCount(bs) == CountIn(log, lo, lo + |bs|) && TotalSum(bs) == SumIn(log, lo, lo + |bs|)
  {
    if bs == [] {
      EmptyRange(log, lo);
    } else {
      var n := |bs| - 1;
      BucketsAddUp(log, lo, bs[..n]);
      SplitRange(log, lo, lo + n, lo + n + 1);
    }
  }

  lemma {:induction false} EmptyRange(log: seq<Event>, lo: int)
    ensures CountIn(log, lo, lo) == 0 && SumIn(log, lo, lo) == 0.0
  {
    if log != [] { EmptyRange(log[..|log| - 1], lo); }
  }

  // ---------- positions in the circular buffer ----------

  /** How many intervals back from the current one the bucket at position q is. */
  function Age(q: nat, offset: nat, size: nat): (a: int) {
    if q <= offset then offset - q else offset - q + size
  }

  /** Moving the offset on by d ages every bucket by d, or recycles it. */
  lemma AgeMoves(q: nat, offset: nat, size: nat, d: nat)
    requires q < size && offset < size && d < size
    ensures Age(q, (offset + d) % size, size)
         == if Age(q, offset, size) + d < size then Age(q, offset, size) + d else Age(q, offset, size) + d - size
  {
    WrapAround(offset + d, size);
  }

  /** The i-th position after the offset is the i-th oldest. */
  lemma AgeAfter(offset: nat, size: nat, i: nat)
    requires offset < size && i < size
    ensures (offset + i + 1) % size < size && Age((offset + i + 1) % size, offset, size) == size - 1 - i
  {
    WrapAround(offset + i + 1, size);
  }

  lemma AgeZero(q: nat, offset: nat, size: nat)
    requires q < size && offset < size
    ensures Age(q, offset, size) == 0 <==> q == offset
  {}

  lemma AgeInjective(p: nat, q: nat, offset: nat, size: nat)
    requires p < size && q < size && offset < size && Age(p, offset, size) == Age(q, offset, size)
    ensures p == q
  {}

  /** After `passed` intervals, a position holds the bucket it should: its old one, or an empty one
      if it was among the `span` oldest. */
  lemma Recycled(log: seq<Event>, last: int, size: nat, offset: nat, span: nat, passed: nat, q: nat)
    requires q < size && offset < size && span == if passed < size then passed else size
    requires forall i :: 0 <= i < |log| ==> log[i].slot <= last
    ensures BucketOf(log, last + passed - Age(q, (offset + span) % size, size))
         == if Age(q, offset, size) >= size - span then EMPTY else BucketOf(log, last - Age(q, offset, size))
  {
    if passed < size {
      AgeMoves(q, offset, size, passed);
    } else {
      WrapAround(offset + size, size);
    }
    if Age(q, offset, size) >= size - span {
      var slot := last + passed - Age(q, (offset + span) % size, size);
      NothingLater(log, slot, slot + 1);
    }
  }
}
