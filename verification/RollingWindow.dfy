/** core/collection/rollingwindow.go: a circular array of buckets, recycled as time goes on. The
    clock is read once per operation and never runs backwards. */
module RollingWindows {
  import opened Arith
  import opened WindowTheory

  class RollingWindow {
    const size: nat
    const interval: nat
    const ignoreCurrent: bool
    const buckets: array<Bucket>
    var offset: nat
    var lastTime: int
    ghost const origin: int
    ghost var clock: int
    ghost var last: nat
    ghost var log: seq<Event>

    /** The interval number of a time. */
    ghost function Slot(time: int): (slot: int)
      requires interval > 0
    {
      (time - origin) / interval
    }

    /** Interval n lasts from n to n + 1 times the interval after the window was made. */
    lemma SlotLasts(time: int)
      requires interval > 0 && time >= origin
      ensures origin + Slot(time) * interval <= time < origin + (Slot(time) + 1) * interval
    {
      DivMod(time - origin, interval);
    }

    /** The bucket that is j intervals old holds exactly the logged events of that interval. */
    ghost predicate Valid()
      reads this, buckets
    {
      && size > 0 && interval > 0 && buckets.Length == size && offset < size
      && lastTime == origin + last * interval && lastTime <= clock
      && (forall i :: 0 <= i < |log| ==> log[i].slot <= last)
      && (forall q {:trigger buckets[q]} :: 0 <= q < size ==> buckets[q] == BucketOf(log, last - Age(q, offset, size)))
    }

    constructor (size: nat, interval: nat, ignoreCurrent: bool, now: int)
      requires size >= 1 && interval > 0
      ensures Valid() && log == [] && clock == now && origin == now
      ensures this.size == size && this.interval == interval && this.ignoreCurrent == ignoreCurrent && fresh(buckets)
    {
      this.size, this.interval, this.ignoreCurrent := size, interval, ignoreCurrent;
      buckets := new Bucket[size](i => EMPTY);
      offset, lastTime := 0, now;
      origin, clock, last, log := now, now, 0, [];
    }

    /** span: how many intervals the window is behind, at most `size`. */
    method Span(now: int) returns (span: nat)
      requires Valid() && now >= clock
      ensures span == Min(Slot(now) - last, size)
    {
      Elapsed(now);
      var n := (now - lastTime) / interval;
      span := if 0 <= n < size then n else size;
    }

    /** updateOffset: recycle the buckets of the intervals that have passed. */
    method UpdateOffset(now: int)
      requires Valid() && now >= clock
      modifies this`offset, this`lastTime, this`last, this`clock, buckets
      ensures Valid() && clock == now && last == Slot(now)
    {
      hide BucketOf, Age;
      var span := Span(now);
      Elapsed(now);
      hide Slot;
      clock := now;
      if span <= 0 { return; }
      var passed := (now - lastTime) / interval;
      var start := offset;
      Recycle(span);
      offset := (start + span) % size;
      lastTime := now - (now - lastTime) % interval;
      last := last + passed;
      forall q | 0 <= q < size ensures buckets[q] == BucketOf(log, last - Age(q, offset, size)) {
        Recycled(log, old(last), size, start, span, passed, q);
      }
    }

    /** Interval numbers advance by the whole intervals elapsed. */
    lemma Elapsed(now: int)
      requires Valid() && now >= clock
      ensures (now - lastTime) / interval >= 0 && Slot(now) == last + (now - lastTime) / interval
      ensures now - (now - lastTime) % interval == origin + (last + (now - lastTime) / interval) * interval
    {
      var n, r := (now - lastTime) / interval, (now - lastTime) % interval;
      DivMod(now - lastTime, interval);
      assert now - origin == (last + n) * interval + r;
      DivModUnique(now - origin, interval, last + n, r);
    }

    /** The loop that resets the `span` oldest buckets. */
    method Recycle(span: nat)
      requires Valid() && span <= size
      modifies buckets
      ensures forall q :: 0 <= q < size ==>
                buckets[q] == if Age(q, offset, size) >= size - span then EMPTY else old(buckets[q])
    {
      for i := 0 to span
        invariant forall q :: 0 <= q < size ==>
                    buckets[q] == if Age(q, offset, size) >= size - i then EMPTY else old(buckets[q])
      {
        AgeAfter(offset, size, i);
        buckets[(offset + i + 1) % size] := EMPTY;
        forall q | 0 <= q < size && Age(q, offset, size) == size - 1 - i ensures q == (offset + i + 1) % size {
          AgeInjective(q, (offset + i + 1) % size, offset, size);
        }
      }
    }

    /** Add: the event goes to the current interval, and to no other. */
    method Add(v: real, now: int)
      requires Valid() && now >= clock
      modifies this`offset, this`lastTime, this`last, this`clock, this`log, buckets
      ensures Valid() && clock == now && log == old(log) + [Event(Slot(now), v)]
    {
      hide BucketOf, Age, Slot;
      UpdateOffset(now);
      var b := buckets[offset];
      buckets[offset] := Bucket(b.sum + v, b.count + 1);
      ghost var e := Event(Slot(now), v);
      forall q | 0 <= q < size ensures buckets[q] == BucketOf(log + [e], last - Age(q, offset, size)) {
        AgeZero(q, offset, size);
        BucketAppend(log, e, last - Age(q, offset, size));
      }
      log := log + [e];
    }

    /** Reduce: the visited buckets, oldest first. They hold exactly the events of the last `size`
        intervals, without the current one when it is ignored. */
    method Reduce(now: int) returns (visited: seq<Bucket>)
      requires Valid() && now >= clock
      ensures |visited| == if Slot(now) - last >= size then 0
                           else if ignoreCurrent && Slot(now) == last then size - 1
                           else size - (Slot(now) - last)
      ensures forall i :: 0 <= i < |visited| ==> visited[i] == BucketOf(log, Slot(now) - size + 1 + i)
      ensures var end := if ignoreCurrent then Slot(now) else Slot(now) + 1;
              && TotalCount(visited) == CountIn(log, Slot(now) - size + 1, end)
              && TotalSum(visited) == SumIn(log, Slot(now) - size + 1, end)
    {
      hide BucketOf, Age, CountIn, SumIn, TotalCount, TotalSum;
      Elapsed(now);
      hide Slot;
      var span := Span(now);
      var diff := if span == 0 && ignoreCurrent then size - 1 else size - span;
      visited := [];
      ghost var lo := Slot(now) - size + 1;
      if diff > 0 {
        var start := (offset + span + 1) % size;
        for i := 0 to diff
          invariant |visited| == i && forall k :: 0 <= k < i ==> visited[k] == BucketOf(log, lo + k)
        {
          var q := (start + i) % size;
          Visit(span, i);
          visited := visited + [buckets[q]];
        }
      }
      BucketsAddUp(log, lo, visited);
      ghost var end := if ignoreCurrent then Slot(now) else Slot(now) + 1;
      NoEventBetween(lo, lo + |visited|, end);
    }

    lemma Visit(span: nat, i: nat)
      requires Valid() && span + i < size
      ensures var q := ((offset + span + 1) % size + i) % size;
              q < size && buckets[q] == BucketOf(log, last + span - size + 1 + i)
    {
      hide BucketOf;
      AgeAfter(offset, size, span + i);
      WrapAround(offset + span + 1, size);
      WrapAround((offset + span + 1) % size + i, size);
      WrapAround(offset + span + i + 1, size);
    }

    lemma NoEventBetween(lo: int, mid: int, hi: int)
      requires Valid() && lo <= hi && (mid >= hi || mid > last)
      requires lo <= mid
      ensures mid <= hi ==> CountIn(log, lo, hi) == CountIn(log, lo, mid) && SumIn(log, lo, hi) == SumIn(log, lo, mid)
    {
      if mid <= hi {
        SplitRange(log, lo, mid, hi);
        if mid > last { NothingLater(log, mid, hi); } else { EmptyRange(log, mid); }
      }
    }
  }
}
