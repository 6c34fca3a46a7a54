/** core/limit/tokenlimit.go: the token-bucket script kept in two Redis keys, and the switch to the
    in-process limiter while Redis is down. Times are whole seconds, as the script sees them. */
module TokenLimiter {
  import opened Arith
  import opened Options

  /** The ideal bucket: `level` tokens at time `at`. A fresh one is full. */
  datatype Bucket = Bucket(level: int, at: int)

  datatype Request = Request(now: int, tokens: int)

  /** Tokens available at `now`. */
  function Filled(rate: nat, burst: nat, b: Bucket, now: int): (f: int)
    ensures f <= burst
  {
    Min(burst, b.level + Max(0, now - b.at) * rate)
  }

  predicate Allowed(rate: nat, burst: nat, b: Bucket, r: Request) {
    Filled(rate, burst, b, r.now) >= r.tokens
  }

  function Step(rate: nat, burst: nat, b: Bucket, r: Request): (b': Bucket) {
    var filled := Filled(rate, burst, b, r.now);
    Bucket(if Allowed(rate, burst, b, r) then filled - r.tokens else filled, r.now)
  }

  // ---------- the rate bound ----------

  /** Tokens granted to a sequence of requests. */
  function Granted(rate: nat, burst: nat, b: Bucket, rs: seq<Request>): (g: int)
    decreases |rs|
  {
    if rs == [] then 0 else
    (if Allowed(rate, burst, b, rs[0]) then rs[0].tokens else 0)
    + Granted(rate, burst, Step(rate, burst, b, rs[0]), rs[1..])
  }

  function RunAll(rate: nat, burst: nat, b: Bucket, rs: seq<Request>): (b': Bucket)
    decreases |rs|
  {
    if rs == [] then b else RunAll(rate, burst, Step(rate, burst, b, rs[0]), rs[1..])
  }

  /** The readings of the clock, one per request. */
  function Times(rs: seq<Request>): (ts: seq<int>)
    ensures |ts| == |rs| && forall i :: 0 <= i < |rs| ==> ts[i] == rs[i].now
  {
    seq(|rs|, i requires 0 <= i < |rs| => rs[i].now)
  }

  /** How far the clock runs forward in all; what it runs back does not count. */
  function Forward(since: int, ts: seq<int>): (f: nat)
    decreases |ts|
  {
    if ts == [] then 0 else Max(0, ts[0] - since) + Forward(ts[0], ts[1..])
  }

  /** What a clock fills in on its way forward, when a bucket of `burst` is empty at every reading: no
      step fills in more than the bucket holds. */
  function Refill(rate: nat, burst: nat, since: int, ts: seq<int>): (f: nat)
    decreases |ts|
  {
    if ts == [] then 0 else
    Scaled(0, Max(0, ts[0] - since), rate);
    Min(burst, Max(0, ts[0] - since) * rate) + Refill(rate, burst, ts[0], ts[1..])
  }

  /** No request asks for a negative number of tokens. */
  ghost predicate Asked(rs: seq<Request>) {
    forall i :: 0 <= i < |rs| ==> rs[i].tokens >= 0
  }

  lemma Scaled(a: int, b: int, rate: nat)
    requires a <= b
    ensures a * rate <= b * rate
  {}

  lemma Spread(a: int, b: int, rate: nat)
    ensures (a + b) * rate == a * rate + b * rate
  {}

  /** One request: what it takes and leaves is what was there plus what time has filled in. */
  lemma StepConserves(rate: nat, burst: nat, b: Bucket, r: Request)
    requires b.level >= 0 && r.tokens >= 0
    ensures var b' := Step(rate, burst, b, r);
            && 0 <= b'.level && b'.at == r.now
            && (if Allowed(rate, burst, b, r) then r.tokens else 0) + b'.level == Filled(rate, burst, b, r.now)
            && Filled(rate, burst, b, r.now) <= b.level + Min(burst, Max(0, r.now - b.at) * rate)
  {
    Scaled(0, Max(0, r.now - b.at), rate);
  }

  /** What is granted and what is left never exceed what was there plus what the clock has filled in
      on its way forward. The clock may run back. */
  lemma {:induction false} Conservation(rate: nat, burst: nat, b: Bucket, rs: seq<Request>)
    requires b.level >= 0 && Asked(rs)
    ensures var b' := RunAll(rate, burst, b, rs);
            b'.level >= 0 && Granted(rate, burst, b, rs) + b'.level <= b.level + Refill(rate, burst, b.at, Times(rs))
    decreases |rs|
  {
    if rs != [] {
      hide Filled, Allowed, Step;
      StepConserves(rate, burst, b, rs[0]);
      Conservation(rate, burst, Step(rate, burst, b, rs[0]), rs[1..]);
      assert Times(rs)[1..] == Times(rs[1..]);
    }
  }

  /** Whatever the clock does and the bucket holds, the first reading starts from at most `burst`. */
  lemma RefillBound(rate: nat, burst: nat, b: Bucket, rs: seq<Request>)
    requires b.level >= 0 && Asked(rs) && rs != []
    ensures Granted(rate, burst, b, rs) <= burst + Refill(rate, burst, rs[0].now, Times(rs)[1..])
  {
    StepConserves(rate, burst, b, rs[0]);
    hide Allowed, Step;
    Conservation(rate, burst, Step(rate, burst, b, rs[0]), rs[1..]);
    assert Times(rs)[1..] == Times(rs[1..]);
  }

  /** The refill is at most the forward run times the rate, and just that when the bucket can hold it. */
  lemma {:induction false} RefillIsForward(rate: nat, burst: nat, since: int, ts: seq<int>)
    ensures Refill(rate, burst, since, ts) <= Forward(since, ts) * rate
    ensures Forward(since, ts) * rate <= burst ==> Refill(rate, burst, since, ts) == Forward(since, ts) * rate
    decreases |ts|
  {
    if ts != [] {
      var f := Max(0, ts[0] - since);
      RefillIsForward(rate, burst, ts[0], ts[1..]);
      Spread(f, Forward(ts[0], ts[1..]), rate);
      Scaled(0, f, rate);
      Scaled(0, Forward(ts[0], ts[1..]), rate);
    }
  }

  // ---------- a clock that does not run back ----------

  /** Requests ask for a non-negative number of tokens at times that do not decrease. */
  ghost predicate Orderly(since: int, rs: seq<Request>)
    decreases |rs|
  {
    rs == [] || (rs[0].tokens >= 0 && since <= rs[0].now && Orderly(rs[0].now, rs[1..]))
  }

  /** Then it runs forward by exactly the time that passes. */
  lemma {:induction false} ForwardIsElapsed(since: int, rs: seq<Request>)
    requires Orderly(since, rs)
    ensures Asked(rs) && Forward(since, Times(rs)) == if rs == [] then 0 else rs[|rs| - 1].now - since
    decreases |rs|
  {
    if rs != [] {
      ForwardIsElapsed(rs[0].now, rs[1..]);
      assert Times(rs)[1..] == Times(rs[1..]);
      assert forall i :: 1 <= i < |rs| ==> rs[i] == rs[1..][i - 1];
    }
  }

  /** As long as the bucket cannot overflow nothing is lost either: what is granted and what is left is
      exactly what was there plus what time has filled in. */
  lemma {:induction false} ConservationExactly(rate: nat, burst: nat, b: Bucket, rs: seq<Request>)
    requires Orderly(b.at, rs) && b.level >= 0
    requires b.level + (RunAll(rate, burst, b, rs).at - b.at) * rate <= burst
    ensures var b' := RunAll(rate, burst, b, rs);
            Granted(rate, burst, b, rs) + b'.level == b.level + (b'.at - b.at) * rate
    decreases |rs|
  {
    if rs != [] {
      var b1, b' := Step(rate, burst, b, rs[0]), RunAll(rate, burst, b, rs);
      NeverEarlier(rate, burst, b1, rs[1..]);
      Scaled(0, b'.at - b1.at, rate);
      Scaled(0, b1.at - b.at, rate);
      Spread(b1.at - b.at, b'.at - b1.at, rate);
      assert Filled(rate, burst, b, rs[0].now) == b.level + (b1.at - b.at) * rate;
      ConservationExactly(rate, burst, b1, rs[1..]);
    }
  }

  lemma {:induction false} NeverEarlier(rate: nat, burst: nat, b: Bucket, rs: seq<Request>)
    requires Orderly(b.at, rs)
    ensures RunAll(rate, burst, b, rs).at >= b.at
    ensures rs != [] ==> RunAll(rate, burst, b, rs).at == rs[|rs| - 1].now
    decreases |rs|
  {
    hide Filled, Allowed;
    if rs != [] { NeverEarlier(rate, burst, Step(rate, burst, b, rs[0]), rs[1..]); }
  }

  /** In any span from s to t, whatever the bucket holds at its start, at most
      burst + rate * (t - s) tokens are granted. */
  lemma SpanBound(rate: nat, burst: nat, b: Bucket, rs: seq<Request>, s: int, t: int)
    requires Orderly(b.at, rs) && b.level >= 0 && s <= t
    requires forall i :: 0 <= i < |rs| ==> s <= rs[i].now <= t
    ensures Granted(rate, burst, b, rs) <= burst + (t - s) * rate
  {
    Scaled(0, t - s, rate);
    if rs != [] {
      ForwardIsElapsed(b.at, rs);
      ForwardIsElapsed(rs[0].now, rs[1..]);
      RefillBound(rate, burst, b, rs);
      RefillIsForward(rate, burst, rs[0].now, Times(rs[1..]));
      assert Times(rs)[1..] == Times(rs[1..]);
      Scaled(Forward(rs[0].now, Times(rs[1..])), t - s, rate);
    }
  }

  /** The same after any earlier run of the limiter. */
  lemma RateBound(rate: nat, burst: nat, before: seq<Request>, rs: seq<Request>, s: int, t: int)
    requires Orderly(0, before + rs) && s <= t
    requires forall i :: 0 <= i < |rs| ==> s <= rs[i].now <= t
    ensures Granted(rate, burst, RunAll(rate, burst, Bucket(burst, 0), before), rs) <= burst + (t - s) * rate
  {
    var full := Bucket(burst, 0);
    OrderlySplit(rate, burst, full, before, rs);
    ForwardIsElapsed(0, before);
    Conservation(rate, burst, full, before);
    SpanBound(rate, burst, RunAll(rate, burst, full, before), rs, s, t);
  }

  lemma {:induction false} OrderlySplit(rate: nat, burst: nat, b: Bucket, before: seq<Request>, rs: seq<Request>)
    requires Orderly(b.at, before + rs)
    ensures Orderly(b.at, before) && Orderly(RunAll(rate, burst, b, before).at, rs)
    decreases |before|
  {
    if before == [] {
      assert before + rs == rs;
    } else {
      hide Filled, Allowed;
      assert (before + rs)[1..] == before[1..] + rs;
      OrderlySplit(rate, burst, Step(rate, burst, b, before[0]), before[1..], rs);
    }
  }

  // ---------- exactly when the bound holds ----------

  /** With these readings no requests exceed the bound of a span of this length. */
  ghost predicate Bounded(rate: nat, burst: nat, ts: seq<int>, span: int) {
    forall b: Bucket, rs: seq<Request> {:trigger Granted(rate, burst, b, rs)} ::
      b.level >= 0 && Asked(rs) && Times(rs) == ts ==> Granted(rate, burst, b, rs) <= burst + span * rate
  }

  /** Requests that take all there is at every reading. */
  function Greedy(rate: nat, burst: nat, b: Bucket, ts: seq<int>): (rs: seq<Request>)
    ensures |rs| == |ts| && Times(rs) == ts
    decreases |ts|
  {
    if ts == [] then [] else
    var r := Request(ts[0], Filled(rate, burst, b, ts[0]));
    [r] + Greedy(rate, burst, Step(rate, burst, b, r), ts[1..])
  }

  /** They get what there is at the first reading, whatever the level was, and then everything the clock
      fills in. */
  lemma {:induction false} GreedyTakesAll(rate: nat, burst: nat, b: Bucket, ts: seq<int>)
    requires b.level >= 0 && ts != []
    ensures var rs := Greedy(rate, burst, b, ts);
            && Asked(rs)
            && Granted(rate, burst, b, rs)
               == Min(burst, b.level + Max(0, ts[0] - b.at) * rate) + Refill(rate, burst, ts[0], ts[1..])
    decreases |ts|
  {
    var f := Max(0, ts[0] - b.at);
    var r := Request(ts[0], Filled(rate, burst, b, ts[0]));
    var empty := Bucket(0, ts[0]);
    var rest := Greedy(rate, burst, empty, ts[1..]);
    Scaled(0, f, rate);
    assert r.tokens == Min(burst, b.level + f * rate) && Step(rate, burst, b, r) == empty;
    if |ts| > 1 {
      Scaled(0, Max(0, ts[1] - ts[0]), rate);
      GreedyTakesAll(rate, burst, empty, ts[1..]);
    }
    assert Greedy(rate, burst, b, ts) == [r] + rest && ([r] + rest)[1..] == rest;
  }

  /** From a full bucket they get the burst as well: the bound of RefillBound is reached. */
  lemma GreedyFromFull(rate: nat, burst: nat, ts: seq<int>)
    requires ts != []
    ensures var rs := Greedy(rate, burst, Bucket(burst, 0), ts);
            && Asked(rs)
            && Granted(rate, burst, Bucket(burst, 0), rs) == burst + Refill(rate, burst, ts[0], ts[1..])
  {
    Scaled(0, Max(0, ts[0]), rate);
    GreedyTakesAll(rate, burst, Bucket(burst, 0), ts);
  }

  /** For a given limiter and given readings of the clock, all requests keep within
      burst + rate * span if and only if the refill after the first reading keeps within rate * span. */
  lemma SpanBoundExactly(rate: nat, burst: nat, ts: seq<int>, span: int)
    requires ts != []
    ensures Bounded(rate, burst, ts, span) <==> Refill(rate, burst, ts[0], ts[1..]) <= span * rate
  {
    hide Granted, Greedy, Refill;
    if Refill(rate, burst, ts[0], ts[1..]) <= span * rate {
      forall b: Bucket, rs: seq<Request> | b.level >= 0 && Asked(rs) && Times(rs) == ts
        ensures Granted(rate, burst, b, rs) <= burst + span * rate
      {
        RefillBound(rate, burst, b, rs);
      }
    } else {
      GreedyFromFull(rate, burst, ts);
    }
  }

  /** For every burst the bound holds if and only if the clock runs forward by no more than the span. */
  lemma EveryBurstExactly(rate: nat, ts: seq<int>, span: int)
    requires rate >= 1 && ts != []
    ensures (forall burst: nat :: Bounded(rate, burst, ts, span)) <==> Forward(ts[0], ts[1..]) <= span
  {
    var f := Forward(ts[0], ts[1..]);
    hide Bounded, Refill, Forward;
    if f <= span {
      Scaled(f, span, rate);
      forall burst: nat ensures Bounded(rate, burst, ts, span) {
        RefillIsForward(rate, burst, ts[0], ts[1..]);
        SpanBoundExactly(rate, burst, ts, span);
      }
    } else {
      RefillIsForward(rate, f * rate, ts[0], ts[1..]);
      Scaled(span + 1, f, rate);
      Spread(span, 1, rate);
      SpanBoundExactly(rate, f * rate, ts, span);
    }
  }

  /** A clock that goes back and forth between 50 and 100 breaks it: 200 tokens from a bucket of 100
      that fills at one per second, all within 50 seconds. */
  lemma BackwardClockOvergrants()
    ensures var rs := [Request(100, 100), Request(50, 1), Request(100, 50), Request(50, 1), Request(100, 50)];
            && (forall i :: 0 <= i < |rs| ==> 50 <= rs[i].now <= 100)
            && Granted(1, 100, Bucket(100, 0), rs) == 200 > 100 + (100 - 50) * 1
  {
    var r0, r1, r2 := Request(100, 100), Request(50, 1), Request(100, 50);
    var full, empty, back := Bucket(100, 0), Bucket(0, 100), Bucket(0, 50);
    FirstGrant(full, r0, [r1, r2, r1, r2]);
    FirstGrant(empty, r1, [r2, r1, r2]);
    FirstGrant(back, r2, [r1, r2]);
    FirstGrant(empty, r1, [r2]);
    FirstGrant(back, r2, []);
    assert Granted(1, 100, empty, []) == 0;
    hide Granted;
    assert [r0] + [r1, r2, r1, r2] == [r0, r1, r2, r1, r2] && [r1] + [r2, r1, r2] == [r1, r2, r1, r2];
    assert [r2] + [r1, r2] == [r2, r1, r2] && [r1] + [r2] == [r1, r2] && [r2] + [] == [r2];
  }

  lemma FirstGrant(b: Bucket, r: Request, rest: seq<Request>)
    ensures Granted(1, 100, b, [r] + rest)
         == (if Allowed(1, 100, b, r) then r.tokens else 0) + Granted(1, 100, Step(1, 100, b, r), rest)
  {
    assert ([r] + rest)[1..] == rest;
  }

  // ---------- the script and the expiry of its keys ----------

  /** Seconds the two keys live: floor(2 * burst / rate). */
  function Ttl(rate: nat, burst: nat): (t: nat)
    requires rate >= 1
  {
    2 * burst / rate
  }

  /** SETEX needs a positive lifetime; this is when the script has one. */
  lemma TtlPositive(rate: nat, burst: nat)
    requires rate >= 1
    ensures Ttl(rate, burst) >= 1 <==> 2 * burst >= rate
    ensures Ttl(rate, burst) * rate <= 2 * burst < (Ttl(rate, burst) + 1) * rate
  {
    DivMod(2 * burst, rate);
    if 2 * burst < rate { DivModUnique(2 * burst, rate, 0, 2 * burst); }
  }

  /** By the time the keys expire the bucket would be full anyway. */
  lemma FullByExpiry(rate: nat, burst: nat, delta: int)
    requires 1 <= rate <= 2 * burst && delta >= Ttl(rate, burst)
    ensures delta * rate >= burst
  {
    var q := Ttl(rate, burst);
    TtlPositive(rate, burst);
    DivMod(2 * burst, rate);
    Scaled(q, delta, rate);
    if q >= 2 { Scaled(2, q, rate); }
  }

  /** The bucket the script sees when keys have expired: full, or last filled at time 0. */
  function Seen(burst: nat, b: Bucket, tokensGone: bool, stampGone: bool): (s: Bucket) {
    Bucket(if tokensGone then burst else b.level, if stampGone then 0 else b.at)
  }

  /** Nobody can tell that keys have expired if and only if the bucket the script sees holds as much. */
  lemma ExpiryExactly(rate: nat, burst: nat, b: Bucket, now: int, tokensGone: bool, stampGone: bool)
    requires 0 <= b.level
    ensures var s := Seen(burst, b, tokensGone, stampGone);
            (forall n: nat {:trigger Request(now, n)} ::
               && Allowed(rate, burst, s, Request(now, n)) == Allowed(rate, burst, b, Request(now, n))
               && Step(rate, burst, s, Request(now, n)) == Step(rate, burst, b, Request(now, n)))
            <==> Filled(rate, burst, s, now) == Filled(rate, burst, b, now)
    ensures var s := Seen(burst, b, tokensGone, stampGone);
            tokensGone ==> (Filled(rate, burst, s, now) == Filled(rate, burst, b, now)
                            <==> b.level + Max(0, now - b.at) * rate >= burst)
  {
    var s := Seen(burst, b, tokensGone, stampGone);
    Scaled(0, Max(0, now - b.at), rate);
    Scaled(0, Max(0, now - s.at), rate);
    var none := Request(now, 0);
    assert Step(rate, burst, s, none).level == Filled(rate, burst, s, now);
    assert Step(rate, burst, b, none).level == Filled(rate, burst, b, now);
  }

  class Store {
    const rate: nat
    const burst: nat
    var tokens: Option<int>
    var stamp: Option<int>
    ghost var ideal: Bucket

    ghost predicate Valid()
      reads this
    {
      && 1 <= rate <= 2 * burst && 0 <= ideal.level <= burst && ideal.at >= 0
      && (tokens.Some? ==> tokens.value == ideal.level)
      && (stamp.Some? ==> stamp.value == ideal.at)
      && (tokens.None? <==> stamp.None?)
      && (tokens.None? ==> ideal == Bucket(burst, 0))
    }

    constructor (rate: nat, burst: nat)
      requires 1 <= rate <= 2 * burst
      ensures Valid() && ideal == Bucket(burst, 0) && this.rate == rate && this.burst == burst
    {
      this.rate, this.burst := rate, burst;
      tokens, stamp, ideal := None, None, Bucket(burst, 0);
    }

    /** The script, whichever keys have expired. If none has before its lifetime was over, the answer is
        that of the ideal bucket. */
    method Eval(now: int, requested: int, tokensGone: bool, stampGone: bool) returns (allowed: bool)
      requires Valid() && requested >= 0 && now >= 0
      modifies this
      ensures Valid() && tokens == Some(ideal.level) && stamp == Some(now) && ideal.at == now
      ensures var filled := (if tokensGone then burst else old(ideal).level)
                            + Max(0, now - (if stampGone then 0 else old(ideal).at)) * rate;
              && (allowed <==> requested <= burst && requested <= filled)
              && ideal.level == Min(burst, filled) - (if allowed then requested else 0)
      ensures var s := Seen(burst, old(ideal), tokensGone, stampGone);
              && allowed == Allowed(rate, burst, s, Request(now, requested))
              && ideal == Step(rate, burst, s, Request(now, requested))
      ensures (tokensGone || stampGone ==> now - old(ideal).at >= Ttl(rate, burst)) ==>
                && allowed == Allowed(rate, burst, old(ideal), Request(now, requested))
                && ideal == Step(rate, burst, old(ideal), Request(now, requested))
    {
      hide Ttl;
      ghost var seen, r := Seen(burst, ideal, tokensGone, stampGone), Request(now, requested);
      var lastTokens := if tokensGone || tokens.None? then burst else tokens.value;
      var lastRefreshed := if stampGone || stamp.None? then 0 else stamp.value;
      var delta := Max(0, now - lastRefreshed);
      var filled := Min(burst, lastTokens + delta * rate);
      assert 0 <= filled == Filled(rate, burst, seen, now) by { Scaled(0, delta, rate); }
      allowed := filled >= requested;
      var newTokens := filled;
      if allowed {
        newTokens := filled - requested;
      }
      SameFill(now, tokensGone, stampGone);
      tokens := Some(newTokens);
      stamp := Some(now);
      ideal := Step(rate, burst, seen, r);
    }

    lemma SameFill(now: int, tokensGone: bool, stampGone: bool)
      requires Valid() && now >= 0
      ensures (tokensGone || stampGone ==> now - ideal.at >= Ttl(rate, burst)) ==>
                Filled(rate, burst, Seen(burst, ideal, tokensGone, stampGone), now) == Filled(rate, burst, ideal, now)
    {
      if (tokensGone || stampGone) && now - ideal.at >= Ttl(rate, burst) {
        FullByExpiry(rate, burst, now - ideal.at);
        hide Ttl;
        Scaled(now - ideal.at, now, rate);
      }
    }
  }

  // ---------- rescue mode ----------

  /** redisAlive, monitorStarted, and the monitors that ping or are about to stop. */
  datatype Rescue = Rescue(alive: bool, started: bool, pinging: nat, stopping: nat)

  datatype RescueEvent = EvalFails | PingFails | PingSucceeds | MonitorStops

  predicate Possible(s: Rescue, e: RescueEvent) {
    match e
    case EvalFails => true
    case PingFails => s.pinging > 0
    case PingSucceeds => s.pinging > 0
    case MonitorStops => s.stopping > 0
  }

  function Rescued(s: Rescue, e: RescueEvent): (s': Rescue)
    requires Possible(s, e)
  {
    match e
    case EvalFails => if s.started then s else Rescue(false, true, s.pinging + 1, s.stopping)
    case PingFails => s
    case PingSucceeds => Rescue(true, s.started, s.pinging - 1, s.stopping + 1)
    case MonitorStops => s.(started := false, stopping := s.stopping - 1)
  }

  /** There is one monitor exactly while `started` says so, and rescue mode never outlives it: while
      Redis counts as dead somebody is pinging it. */
  predicate RescueInv(s: Rescue) {
    && s.pinging + s.stopping == (if s.started then 1 else 0)
    && (!s.alive <==> s.pinging == 1)
  }

  ghost predicate PossibleAll(s: Rescue, es: seq<RescueEvent>)
    decreases |es|
  {
    es == [] || (Possible(s, es[0]) && PossibleAll(Rescued(s, es[0]), es[1..]))
  }

  ghost function RescuedAll(s: Rescue, es: seq<RescueEvent>): (s': Rescue)
    requires PossibleAll(s, es)
    decreases |es|
  {
    if es == [] then s else RescuedAll(Rescued(s, es[0]), es[1..])
  }

  lemma RescueStep(s: Rescue, e: RescueEvent)
    requires RescueInv(s) && Possible(s, e)
    ensures RescueInv(Rescued(s, e))
  {}

  lemma {:induction false} RescueRuns(s: Rescue, es: seq<RescueEvent>)
    requires RescueInv(s) && PossibleAll(s, es)
    ensures RescueInv(RescuedAll(s, es))
    decreases |es|
  {
    hide Rescued, RescueInv, Possible;
    if es != [] {
      RescueStep(s, es[0]);
      RescueRuns(Rescued(s, es[0]), es[1..]);
    }
  }

  /** A request that fails switches to rescue mode and starts the monitor, unless one was started before:
      then nothing changes, so the limiter is in rescue mode afterwards unless that monitor has just seen
      Redis back and is about to stop. */
  lemma FailureStartsRescue(s: Rescue)
    requires RescueInv(s)
    ensures var s' := Rescued(s, EvalFails);
            && s'.started && s'.pinging + s'.stopping == 1
            && (s.started ==> s' == s) && (!s.started ==> s' == Rescue(false, true, 1, 0))
            && (s'.alive <==> s.stopping == 1)
  {}

  /** Rescue mode lasts until a ping succeeds: failing requests and pings change nothing and start no
      second monitor. A ping can always come, and when one succeeds rescue mode is over. */
  lemma {:induction false} RescueLasts(s: Rescue, es: seq<RescueEvent>)
    requires RescueInv(s) && !s.alive && PossibleAll(s, es) && PingSucceeds !in es
    ensures RescuedAll(s, es) == s && Possible(s, PingSucceeds) && Rescued(s, PingSucceeds).alive
    decreases |es|
  {
    if es != [] { RescueLasts(Rescued(s, es[0]), es[1..]); }
  }
}
