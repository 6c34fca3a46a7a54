/** core/breaker/googlebreaker.go: client-side throttling over a rolling window of outcomes. The
    random draw of each decision is a parameter. */
module GoogleBreakers {
  import opened WindowTheory
  import opened RollingWindows

  const BUCKETS := 40
  const BUCKET_DURATION := 250_000_000  // nanoseconds, 10s / 40
  const K := 1.5
  const PROTECTION := 5

  /** Outcomes are logged as 1 (success) or 0 (failure). */
  ghost predicate Outcomes(log: seq<Event>) {
    forall i :: 0 <= i < |log| ==> log[i].value == 0.0 || log[i].value == 1.0
  }

  function Successes(log: seq<Event>, lo: int, hi: int): (n: nat) {
    if log == [] then 0 else
    var e := log[|log| - 1];
    Successes(log[..|log| - 1], lo, hi) + if lo <= e.slot < hi && e.value == 1.0 then 1 else 0
  }

  lemma {:induction false} SumCountsSuccesses(log: seq<Event>, lo: int, hi: int)
    requires Outcomes(log)
    ensures SumIn(log, lo, hi) == Successes(log, lo, hi) as real
    ensures Successes(log, lo, hi) <= CountIn(log, lo, hi)
  {
    if log != [] { SumCountsSuccesses(log[..|log| - 1], lo, hi); }
  }

  /** max(0, (total - protection - k * accepts) / (total + 1)) */
  function DropRatio(accepts: int, total: int): (r: real)
    requires total >= 0
  {
    var r := ((total - PROTECTION) as real - K * accepts as real) / (total + 1) as real;
    if r > 0.0 then r else 0.0
  }

  lemma Quotient(a: real, b: real)
    requires b > 0.0
    ensures a / b * b == a
    ensures a > 0.0 <==> a / b > 0.0
    ensures a < b ==> a / b < 1.0
  {
    var x := a / b;
    assert x * b == a;
    assert (1.0 - x) * b == b - a;
    PositiveFactor(1.0 - x, b);
  }

  lemma PositiveFactor(k: real, m: real)
    requires m > 0.0
    ensures k > 0.0 <==> k * m > 0.0
  {
    if k <= 0.0 { assert (0.0 - k) * m >= 0.0; }
  }

  /** The ratio, scaled back: how far the requests beyond the first 5 exceed 1.5 times the successes. */
  lemma DropRatioScaled(accepts: int, total: int)
    requires total >= 0
    ensures var excess := (total - 5) as real - 1.5 * accepts as real;
            DropRatio(accepts, total) * (total + 1) as real == if excess > 0.0 then excess else 0.0
  {
    Quotient((total - 5) as real - 1.5 * accepts as real, (total + 1) as real);
  }

  /** The ratio is a probability below one; requests are dropped only when failures outweigh. */
  lemma DropRatioIsProbability(accepts: int, total: int)
    requires 0 <= accepts <= total
    ensures 0.0 <= DropRatio(accepts, total) < 1.0
    ensures DropRatio(accepts, total) > 0.0 <==> (total - 5) as real > 1.5 * accepts as real
  {
    Quotient((total - PROTECTION) as real - K * accepts as real, (total + 1) as real);
  }

  lemma QuotientOrder(a: real, b: real, c: real, d: real)
    requires b > 0.0 && d > 0.0 && a * d <= c * b
    ensures a / b <= c / d
  {
    var x, y := a / b, c / d;
    assert x * b == a && y * d == c;
    assert (x * b) * d <= (y * d) * b;
    assert x * (b * d) <= y * (b * d);
    assert b * d > 0.0;
  }

  /** A further success never raises the ratio, a further failure never lowers it. */
  lemma OutcomesMoveTheRatio(accepts: int, total: int)
    requires 0 <= accepts <= total
    ensures DropRatio(accepts + 1, total + 1) <= DropRatio(accepts, total) <= DropRatio(accepts, total + 1)
  {
    var x, t := K * accepts as real, total as real;
    assert K * (accepts + 1) as real == x + 1.5 && (total + 1) as real == t + 1.0;
    assert (t - 5.0 - x) * (t + 2.0) <= (t - 4.0 - x) * (t + 1.0);
    QuotientOrder(t - 5.0 - x, t + 1.0, t - 4.0 - x, t + 2.0);
    if DropRatio(accepts + 1, total + 1) > 0.0 {
      Quotient(t - 4.0 - (x + 1.5), t + 2.0);
      assert (t - 5.5 - x) * (t + 1.0) <= (t - 5.0 - x) * (t + 2.0);
      QuotientOrder(t - 5.5 - x, t + 2.0, t - 5.0 - x, t + 1.0);
    }
  }

  lemma Scale(a: real, b: real, m: real)
    requires m > 0.0 && a >= 0.0
    ensures a >= b <==> a * m >= b * m
    ensures a * m >= 0.0
  {
    PositiveFactor(b - a, m);
    assert (b - a) * m == b * m - a * m;
  }

  /** The draw against the ratio, without the division. */
  lemma DrawDecides(draw: real, accepts: int, total: int)
    requires 0 <= accepts <= total && draw >= 0.0
    ensures draw >= DropRatio(accepts, total) <==>
            draw * (total + 1) as real >= (total - 5) as real - 1.5 * accepts as real
  {
    hide DropRatio;
    DropRatioScaled(accepts, total);
    DropRatioIsProbability(accepts, total);
    Decides(draw, DropRatio(accepts, total), (total + 1) as real, (total - 5) as real - 1.5 * accepts as real);
  }

  lemma Decides(draw: real, r: real, m: real, excess: real)
    requires draw >= 0.0 && r >= 0.0 && m > 0.0 && r * m == if excess > 0.0 then excess else 0.0
    ensures draw >= r <==> draw * m >= excess
  {
    Scale(draw, r, m);
    PositiveFactor(r, m);
  }

  class GoogleBreaker {
    const stat: RollingWindow

    ghost predicate Valid()
      reads stat, stat.buckets
    {
      && stat.Valid() && stat.size == 40 && stat.interval == 250_000_000 && !stat.ignoreCurrent
      && Outcomes(stat.log)
    }

    constructor (now: int)
      ensures Valid() && stat.log == [] && stat.clock == now && fresh(stat) && fresh(stat.buckets)
    {
      stat := new RollingWindow(BUCKETS, BUCKET_DURATION, false, now);
    }

    /** history: the successes and the requests of the last 40 intervals, exactly. */
    method History(now: int) returns (accepts: int, total: int)
      requires Valid() && now >= stat.clock
      ensures var cur := stat.Slot(now);
              && accepts == Successes(stat.log, cur - 39, cur + 1)
              && total == CountIn(stat.log, cur - 39, cur + 1)
      ensures 0 <= accepts <= total
    {
      hide CountIn, SumIn, RollingWindow.Valid, RollingWindow.Slot, Outcomes, Successes;
      var visited := stat.Reduce(now);
      ghost var lo := stat.Slot(now) - BUCKETS + 1;
      accepts, total := 0, 0;
      for i := 0 to |visited|
        invariant total == TotalCount(visited[..i]) && accepts as real == TotalSum(visited[..i])
      {
        assert visited[..i + 1][..i] == visited[..i];
        SumCountsSuccesses(stat.log, lo + i, lo + i + 1);
        accepts := accepts + visited[i].sum.Floor;
        total := total + visited[i].count;
      }
      assert visited[..|visited|] == visited;
      SumCountsSuccesses(stat.log, lo, stat.Slot(now) + 1);
    }

    /** accept: refuses exactly when the draw falls below the drop ratio of the window. */
    method Accept(now: int, draw: real) returns (ok: bool)
      requires Valid() && now >= stat.clock && 0.0 <= draw < 1.0
      ensures var cur := stat.Slot(now);
              var accepts, total := Successes(stat.log, cur - 39, cur + 1), CountIn(stat.log, cur - 39, cur + 1);
              && (ok <==> draw >= DropRatio(accepts, total))
              && (ok <==> draw * (total + 1) as real >= (total - 5) as real - 1.5 * accepts as real)
    {
      hide DropRatio, Successes, CountIn, RollingWindow.Valid, RollingWindow.Slot, Outcomes;
      var accepts, total := History(now);
      DrawDecides(draw, accepts, total);
      var ratio := DropRatio(accepts, total);
      if ratio <= 0.0 {
        return true;
      }
      ok := draw >= ratio;
    }

    method MarkSuccess(now: int)
      requires Valid() && now >= stat.clock
      modifies stat, stat.buckets
      ensures Valid() && stat.clock == now && stat.log == old(stat.log) + [Event(stat.Slot(now), 1.0)]
    {
      stat.Add(1.0, now);
    }

    method MarkFailure(now: int)
      requires Valid() && now >= stat.clock
      modifies stat, stat.buckets
      ensures Valid() && stat.clock == now && stat.log == old(stat.log) + [Event(stat.Slot(now), 0.0)]
    {
      stat.Add(0.0, now);
    }
  }
}
