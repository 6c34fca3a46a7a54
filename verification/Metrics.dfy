/** core/stat/metrics.go: the container that collects tasks, and the percentiles of its report.
    Durations are in nanoseconds; report values are in milliseconds, as exact reals. */
module Metrics {
  import opened Arith
  import opened TopTheory
  import opened TopK

  const MILLISECOND := 1_000_000
  const LOG_SECONDS := 60

  datatype Report = Report(perSecond: real, drops: nat, average: real, median: real, p90: real, p99: real, p999: real)

  datatype Batch = Batch(tasks: seq<Task>, duration: int, drops: nat)

  function Millis(d: int): (m: real) { d as real / MILLISECOND as real }

  /** Report values are in milliseconds, durations in nanoseconds. */
  lemma MillisScaled(d: int)
    ensures Millis(d) * 1_000_000.0 == d as real
  {}

  lemma MillisMonotone(d: int, e: int)
    requires d <= e
    ensures Millis(d) <= Millis(e)
  {}

  function Total(tasks: seq<Task>): (t: int) {
    if tasks == [] then 0 else Total(tasks[..|tasks| - 1]) + tasks[|tasks| - 1].duration
  }

  /** The total duration adds up. */
  lemma {:induction false} TotalAdds(a: seq<Task>, b: seq<Task>)
    ensures Total(a + b) == Total(a) + Total(b) && forall t: Task :: Total([t]) == t.duration
  {
    forall t: Task ensures Total([t]) == t.duration { assert [t][..0] == []; }
    if b == [] {
      assert a + b == a;
    } else {
      var n := |b| - 1;
      assert (a + b)[..|a + b| - 1] == a + b[..n];
      TotalAdds(a, b[..n]);
    }
  }

  /** The rank a report value stands for: its share of the tasks, at least one. */
  function Rank(share: nat): (k: nat) { if share > 0 then share else 1 }

  class MetricsContainer {
    var tasks: seq<Task>
    var duration: int
    var drops: nat

    ghost predicate Valid()
      reads this
    {
      duration == Total(tasks)
    }

    constructor ()
      ensures Valid() && tasks == [] && drops == 0
    {
      tasks, duration, drops := [], 0, 0;
    }

    /** AddTask never asks for a flush. */
    method AddTask(task: Task, drop: bool) returns (full: bool)
      requires Valid()
      modifies this
      ensures Valid() && !full
      ensures tasks == (if drop then old(tasks) else old(tasks) + [task])
      ensures drops == old(drops) + (if drop then 1 else 0)
    {
      if drop {
        drops := drops + 1;
      } else {
        tasks := tasks + [task];
        duration := duration + task.duration;
      }
      full := false;
    }

    /** RemoveAll hands over everything collected, once. */
    method RemoveAll() returns (batch: Batch)
      requires Valid()
      modifies this
      ensures Valid() && tasks == [] && drops == 0
      ensures batch == Batch(old(tasks), Total(old(tasks)), old(drops))
    {
      batch := Batch(tasks, duration, drops);
      tasks, duration, drops := [], 0, 0;
      return batch;
    }
  }

  /** The shortest of the `k` longest tasks: the k-th largest duration. */
  method KthOf(tasks: seq<Task>, k: nat) returns (top: seq<Task>, ghost left: seq<Task>)
    requires 1 <= k <= |tasks|
    ensures IsTop(tasks, top, left) && |top| == k && IsKth(tasks, k, top[0].duration)
  {
    top, left := TopTasks(tasks, k);
    ShortestOfTop(tasks, top, left);
  }

  /** getTopDuration */
  method TopDuration(tasks: seq<Task>) returns (m: real, ghost d: int)
    ensures tasks == [] ==> m == 0.0
    ensures tasks != [] ==> m == Millis(d) && IsKth(tasks, 1, d)
  {
    ghost var left;
    var top: seq<Task>;
    top, left := TopTasks(tasks, 1);
    d := 0;
    if |top| < 1 {
      return 0.0, d;
    }
    ShortestOfTop(tasks, top, left);
    d := top[0].duration;
    m := Millis(top[0].duration);
  }

  /** `m` is the report value of rank k. */
  ghost predicate Stands(tasks: seq<Task>, k: nat, m: real) {
    exists d :: IsKth(tasks, k, d) && m == Millis(d)
  }

  lemma StandsNested(all: seq<Task>, top: seq<Task>, left: seq<Task>, k: nat, d: int)
    requires IsTop(all, top, left) && 1 <= k <= |top| && IsKth(top, k, d)
    ensures Stands(all, k, Millis(d))
  {
    NestedSelection(all, top, left, k, d);
  }

  lemma StandsAntitone(tasks: seq<Task>, j: nat, k: nat, m: real, n: real)
    requires j <= k && Stands(tasks, j, m) && Stands(tasks, k, n)
    ensures n <= m
  {
    var d :| IsKth(tasks, j, d) && m == Millis(d);
    var e :| IsKth(tasks, k, e) && n == Millis(e);
    KthAntitone(tasks, j, k, d, e);
    MillisMonotone(e, d);
  }

  lemma IsTopTrans(all: seq<Task>, top: seq<Task>, left: seq<Task>, top': seq<Task>, left': seq<Task>)
    requires IsTop(all, top, left) && IsTop(top, top', left')
    ensures IsTop(all, top', left' + left)
  {
    forall i, j | 0 <= i < |top'| && 0 <= j < |left' + left| ensures (left' + left)[j].duration <= top'[i].duration {
      assert top'[i] in multiset(top');
      assert top'[i] in multiset(top);
    }
  }

  /** The median and the 90th percentile of at least two tasks. */
  method Upper(tasks: seq<Task>) returns (median: real, p90: real, p99: real, p999: real)
    requires |tasks| >= 2
    ensures var n := |tasks|;
            && Stands(tasks, Rank(n / 2), median)
            && Stands(tasks, Rank(n / 2 / 5), p90)
            && Stands(tasks, Rank(n / 2 / 5 / 10), p99)
            && Stands(tasks, Rank(n / 2 / 5 / 10 / 10), p999)
  {
    hide IsTop, IsKth;
    var half := |tasks| / 2;
    var top50, left50 := KthOf(tasks, half);
    median := Millis(top50[0].duration);
    var ten := half / 5;
    if ten > 0 {
      var top10, left10 := KthOf(tasks, ten);
      p90 := Millis(top10[0].duration);
      p99, p999 := Tail(tasks, top10, left10);
    } else {
      var most, d := TopDuration(tasks);
      p90, p99, p999 := most, most, most;
    }
  }

  /** The 99th and 99.9th percentile, selected from the top tenth. */
  method Tail(tasks: seq<Task>, top10: seq<Task>, ghost left10: seq<Task>) returns (p99: real, p999: real)
    requires IsTop(tasks, top10, left10) && |top10| > 0
    ensures Stands(tasks, Rank(|top10| / 10), p99)
    ensures Stands(tasks, Rank(|top10| / 10 / 10), p999)
  {
    hide IsTop, IsKth;
    var one := |top10| / 10;
    if one > 0 {
      var top1, left1 := KthOf(top10, one);
      StandsNested(tasks, top10, left10, one, top1[0].duration);
      IsTopTrans(tasks, top10, left10, top1, left1);
      p99 := Millis(top1[0].duration);
      var tenth := one / 10;
      if tenth > 0 {
        var top, left := KthOf(top1, tenth);
        StandsNested(tasks, top1, left1 + left10, tenth, top[0].duration);
        p999 := Millis(top[0].duration);
      } else {
        var most, d := TopDuration(top1);
        StandsNested(tasks, top1, left1 + left10, 1, d);
        p999 := most;
      }
    } else {
      var most, d := TopDuration(top10);
      StandsNested(tasks, top10, left10, 1, d);
      p99, p999 := most, most;
    }
  }

  /** Go's integer division truncates towards zero. */
  function Truncated(a: int, b: nat): (q: int)
    requires b > 0
  {
    if a >= 0 then a / b else 0 - ((0 - a) / b)
  }

  /** The whole milliseconds in a duration of either sign. */
  lemma TruncatedIsWhole(a: int, b: nat)
    requires b > 0
    ensures var q := Truncated(a, b);
            if a >= 0 then q * b <= a < (q + 1) * b else (q - 1) * b < a <= q * b
  {
    if a >= 0 {
      WholePart(a, b);
    } else {
      var n: nat := 0 - a;
      WholePart(n, b);
      Mirrored(a, b, n / b);
    }
  }

  lemma WholePart(n: nat, b: nat)
    requires b > 0
    ensures n / b >= 0 && n / b * b <= n < (n / b + 1) * b
  {
    DivMod(n, b);
  }

  lemma Mirrored(a: int, b: nat, q: nat)
    requires q * b <= 0 - a < (q + 1) * b
    ensures (0 - q - 1) * b < a <= (0 - q) * b
  {
    assert (0 - q) * b == 0 - q * b && (0 - q - 1) * b == 0 - (q + 1) * b;
  }

  /** metricsContainer.Execute: each percentile is the k-th largest duration of the whole batch, for
      its own k, although all but the first two are selected from an earlier selection. */
  method Execute(batch: Batch) returns (report: Report)
    ensures report.drops == batch.drops && report.perSecond * 60.0 == |batch.tasks| as real
    ensures batch.tasks == [] ==> report.average == report.median == report.p90 == report.p99 == report.p999 == 0.0
    ensures batch.tasks != [] ==>
              var n := |batch.tasks|;
              && report.average * n as real == Truncated(batch.duration, 1_000_000) as real
              && Stands(batch.tasks, Rank(n / 2), report.median)
              && Stands(batch.tasks, Rank(n / 2 / 5), report.p90)
              && Stands(batch.tasks, Rank(n / 2 / 5 / 10), report.p99)
              && Stands(batch.tasks, Rank(n / 2 / 5 / 10 / 10), report.p999)
    ensures report.median <= report.p90 <= report.p99 <= report.p999
  {
    hide Stands, Truncated;
    var tasks := batch.tasks;
    var size := |tasks|;
    report := Report(size as real / LOG_SECONDS as real, batch.drops, 0.0, 0.0, 0.0, 0.0, 0.0);
    if size > 0 {
      var average := Truncated(batch.duration, MILLISECOND) as real / size as real;
      var median, p90, p99, p999;
      if size / 2 > 0 {
        median, p90, p99, p999 := Upper(tasks);
      } else {
        median, p90, p99, p999 := Single(tasks);
      }
      report := report.(average := average, median := median, p90 := p90, p99 := p99, p999 := p999);
      StandsAntitone(tasks, Rank(size / 2 / 5), Rank(size / 2), p90, median);
      StandsAntitone(tasks, Rank(size / 2 / 5 / 10), Rank(size / 2 / 5), p99, p90);
      StandsAntitone(tasks, Rank(size / 2 / 5 / 10 / 10), Rank(size / 2 / 5 / 10), p999, p99);
    }
  }

  /** A single task is every percentile. */
  method Single(tasks: seq<Task>) returns (median: real, p90: real, p99: real, p999: real)
    requires |tasks| == 1
    ensures Stands(tasks, 1, median) && median == p90 == p99 == p999
  {
    var most, d := TopDuration(tasks);
    median, p90, p99, p999 := most, most, most, most;
  }
}
