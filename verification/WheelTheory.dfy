/** What the timing wheel of core/collection/timingwheel.go means, key by key.

    A timer is known by the slot it hangs in, its remaining revolutions (`circle`) and a pending
    lazy move (`diff`). `Due` folds the three into the number of ticks left; every tick lowers it
    by one, and the timer executes on the tick that takes it to zero. */
module WheelTheory {
  import opened Arith

  datatype Timer<V> = Timer(value: V, pos: nat, circle: nat, diff: nat)

  datatype Wheel<!K, V> = Wheel(slots: nat, interval: nat, ticked: nat, timers: map<K, Timer<V>>) {
    ghost predicate Ok() {
      && slots > 0 && interval > 0 && ticked < slots
      && forall k :: k in timers ==> timers[k].pos < slots && timers[k].diff < slots
    }
  }

  datatype Event<K, V> =
    | Set(key: K, value: V, delay: int)
    | Move(key: K, delay: int)
    | Remove(key: K)
    | Tick

  // ---------- the operations ----------

  /** getPositionAndCircle */
  function Position(ticked: nat, slots: nat, steps: nat): (pos: nat)
    requires slots > 0
    ensures pos < slots
  {
    (ticked + steps) % slots
  }

  function Circle(slots: nat, steps: nat): (circle: nat)
    requires slots > 0 && steps > 0
  {
    (steps - 1) / slots
  }

  function Steps(interval: nat, delay: nat): (n: nat)
    requires 0 < interval <= delay
    ensures n > 0
  {
    delay / interval
  }

  /** A fresh timer, `steps` ticks ahead. */
  function Fresh<V>(ticked: nat, slots: nat, value: V, steps: nat): (t: Timer<V>)
    requires slots > 0 && steps > 0
  {
    Timer(value, Position(ticked, slots, steps), Circle(slots, steps), 0)
  }

  /** moveTask with a delay of at least one interval. */
  function Moved<V>(ticked: nat, slots: nat, t: Timer<V>, steps: nat): (r: Timer<V>)
    requires slots > 0 && steps > 0 && t.pos < slots
    ensures r.pos < slots && r.diff < slots && r.value == t.value
  {
    var pos := Position(ticked, slots, steps);
    var circle := Circle(slots, steps);
    if pos >= t.pos then Timer(t.value, t.pos, circle, pos - t.pos)
    else if circle > 0 then Timer(t.value, t.pos, circle - 1, slots + pos - t.pos)
    else Timer(t.value, pos, 0, 0)
  }

  /** scanAndRunTasks on the entry of one timer in the slot being scanned. */
  predicate Fires<V>(t: Timer<V>) {
    t.circle == 0 && t.diff == 0
  }

  function Visited<V>(t: Timer<V>, slots: nat): (r: Timer<V>)
    requires slots > 0 && !Fires(t)
  {
    if t.circle > 0 then t.(circle := t.circle - 1)
    else Timer(t.value, (t.pos + t.diff) % slots, 0, 0)
  }

  /** The scan, as far as the keys in `done`. */
  ghost function Scan<K, V>(timers: map<K, Timer<V>>, slots: nat, done: set<K>): (r: map<K, Timer<V>>)
    requires slots > 0
  {
    map k | k in timers && !(k in done && Fires(timers[k])) ::
      if k in done then Visited(timers[k], slots) else timers[k]
  }

  ghost function ExecutedAmong<K, V>(timers: map<K, Timer<V>>, done: set<K>): (r: map<K, V>) {
    map k | k in timers && k in done && Fires(timers[k]) :: timers[k].value
  }

  /** Scanning one more key. */
  lemma ScanOne<K, V>(timers: map<K, Timer<V>>, slots: nat, done: set<K>, k: K)
    requires slots > 0 && k in timers && k !in done
    ensures k in Scan(timers, slots, done) && Scan(timers, slots, done)[k] == timers[k]
    ensures Scan(timers, slots, done + {k}) ==
            if Fires(timers[k]) then Scan(timers, slots, done) - {k}
            else Scan(timers, slots, done)[k := Visited(timers[k], slots)]
  {}

  lemma NothingScanned<K, V>(timers: map<K, Timer<V>>, slots: nat)
    requires slots > 0
    ensures Scan(timers, slots, {}) == timers && ExecutedAmong(timers, {}) == map[]
  {}

  lemma Untouched<K, V>(timers: map<K, Timer<V>>, slots: nat, done: set<K>, k: K)
    requires slots > 0 && k in Scan(timers, slots, done) && k !in done
    ensures k in timers && Scan(timers, slots, done)[k] == timers[k]
  {}

  lemma ExecutedByTick<K, V>(timers: map<K, Timer<V>>, pos: nat)
    ensures ExecutedAmong(timers, InSlot(timers, pos)) == Executed(timers, pos)
  {}

  ghost function InSlot<K, V>(timers: map<K, Timer<V>>, pos: nat): (r: set<K>) {
    set k | k in timers && timers[k].pos == pos
  }

  ghost function Executed<K, V>(timers: map<K, Timer<V>>, pos: nat): (r: map<K, V>) {
    map k | k in timers && timers[k].pos == pos && Fires(timers[k]) :: timers[k].value
  }

  function Next(w: Wheel): (pos: nat)
    requires w.slots > 0
  {
    (w.ticked + 1) % w.slots
  }

  /** One event: the wheel after it, and what it executes. A move by less than an interval
      executes at once and leaves the timer where it is. */
  ghost function Apply<K, V>(w: Wheel<K, V>, e: Event<K, V>): (r: (Wheel<K, V>, map<K, V>))
    requires w.Ok()
  {
    match e
    case Set(k, v, delay) =>
      if delay <= 0 then (w, map[]) else
      var steps := Steps(w.interval, Max(delay, w.interval));
      var t := if k in w.timers then Moved(w.ticked, w.slots, w.timers[k].(value := v), steps)
               else Fresh(w.ticked, w.slots, v, steps);
      (w.(timers := w.timers[k := t]), map[])
    case Move(k, delay) =>
      if delay <= 0 || k !in w.timers then (w, map[])
      else if delay < w.interval then (w, map[k := w.timers[k].value])
      else
        var t := Moved(w.ticked, w.slots, w.timers[k], Steps(w.interval, delay));
        (w.(timers := w.timers[k := t]), map[])
    case Remove(k) =>
      (w.(timers := w.timers - {k}), map[])
    case Tick =>
      var pos := Next(w);
      (w.(ticked := pos, timers := Scan(w.timers, w.slots, InSlot(w.timers, pos))), Executed(w.timers, pos))
  }

  /** Every event keeps 0 <= diff < slots, so a lazy move never targets the slot being scanned. */
  lemma ApplyKeepsOk<K, V>(w: Wheel<K, V>, e: Event<K, V>)
    requires w.Ok()
    ensures Apply(w, e).0.Ok()
    ensures Apply(w, e).0.slots == w.slots && Apply(w, e).0.interval == w.interval
  {}

  // ---------- ticks left ----------

  /** Ticks until the scan next reaches slot `pos`, between 1 and `slots`. */
  function Reach(pos: nat, ticked: nat, slots: nat): (n: int) {
    if pos > ticked then pos - ticked else pos - ticked + slots
  }

  function Due<V>(t: Timer<V>, ticked: nat, slots: nat): (n: int) {
    Reach(t.pos, ticked, slots) + t.circle * slots + t.diff
  }

  lemma OneTurnLess(circle: nat, slots: nat)
    requires circle > 0
    ensures circle * slots == (circle - 1) * slots + slots >= slots
  {}

  /** Position and Circle place a timer exactly `steps` ticks ahead. */
  lemma PlacedStepsAhead(ticked: nat, slots: nat, steps: nat)
    requires ticked < slots && steps > 0
    ensures Reach(Position(ticked, slots, steps), ticked, slots) + Circle(slots, steps) * slots == steps
  {
    var q, r := (steps - 1) / slots, (steps - 1) % slots;
    DivMod(steps - 1, slots);
    if ticked + r + 1 < slots {
      DivModUnique(ticked + steps, slots, q, ticked + r + 1);
    } else {
      assert ticked + steps == (q + 1) * slots + (ticked + r + 1 - slots);
      DivModUnique(ticked + steps, slots, q + 1, ticked + r + 1 - slots);
    }
  }

  /** A tick lowers a timer's due count by one; it executes exactly when the count was one. */
  lemma TickLowersDue<V>(t: Timer<V>, ticked: nat, slots: nat)
    requires ticked < slots && t.pos < slots && t.diff < slots
    ensures var next := (ticked + 1) % slots;
            && Due(t, ticked, slots) >= 1
            && (t.pos == next && Fires(t) <==> Due(t, ticked, slots) == 1)
            && (t.pos != next ==> Due(t, next, slots) == Due(t, ticked, slots) - 1)
            && (t.pos == next && !Fires(t) ==> Due(Visited(t, slots), next, slots) == Due(t, ticked, slots) - 1)
  {
    WrapAround(ticked + 1, slots);
    if t.circle > 0 {
      OneTurnLess(t.circle, slots);
    } else {
      assert t.circle * slots == 0;
      WrapAround(t.pos + t.diff, slots);
    }
  }

  // ---------- whole runs ----------

  ghost predicate Names<K, V>(e: Event<K, V>, k: K) {
    !e.Tick? && e.key == k
  }

  /** What the i-th event of a run executes. */
  ghost function ExecutedAt<K, V>(w: Wheel<K, V>, es: seq<Event<K, V>>, i: nat): (r: map<K, V>)
    requires w.Ok() && i < |es|
    decreases i
  {
    if i == 0 then Apply(w, es[0]).1 else
    ApplyKeepsOk(w, es[0]);
    ExecutedAt(Apply(w, es[0]).0, es[1..], i - 1)
  }

  /** Number of ticks among the first n events. */
  function Ticks<K, V>(es: seq<Event<K, V>>, n: nat): (t: nat)
    requires n <= |es|
    decreases n
  {
    if n == 0 then 0 else (if es[0].Tick? then 1 else 0) + Ticks(es[1..], n - 1)
  }

  /** A key that is not in the wheel and is not named again never executes. */
  lemma {:induction false} AbsentNeverExecutes<K, V>(w: Wheel<K, V>, es: seq<Event<K, V>>, k: K, i: nat)
    requires w.Ok() && k !in w.timers && i < |es|
    requires forall j :: 0 <= j < |es| ==> !Names(es[j], k)
    ensures k !in ExecutedAt(w, es, i)
    decreases i
  {
    assert !Names(es[0], k);
    if i > 0 {
      ApplyKeepsOk(w, es[0]);
      forall j | 0 <= j < |es[1..]| ensures !Names(es[1..][j], k) { assert es[1..][j] == es[j + 1]; }
      AbsentNeverExecutes(Apply(w, es[0]).0, es[1..], k, i - 1);
    }
  }

  /** One event that does not name `k`: a tick counts down, anything else leaves the timer alone. */
  lemma OthersLeaveItAlone<K, V>(w: Wheel<K, V>, e: Event<K, V>, k: K)
    requires w.Ok() && k in w.timers && !Names(e, k)
    ensures Apply(w, e).0.Ok()
    ensures var (w', x) := Apply(w, e);
            var d := Due(w.timers[k], w.ticked, w.slots);
            if !e.Tick? then k !in x && k in w'.timers && w'.timers[k] == w.timers[k] && w'.ticked == w.ticked
            else if d == 1 then k in x && x[k] == w.timers[k].value && k !in w'.timers
            else && k !in x && k in w'.timers && w'.timers[k].value == w.timers[k].value
                 && Due(w'.timers[k], w'.ticked, w'.slots) == d - 1
  {
    ApplyKeepsOk(w, e);
    TickLowersDue(w.timers[k], w.ticked, w.slots);
  }

  /** In every interleaving with events on other keys, a timer executes once, on the tick that
      its due count announces, with the value it holds. */
  lemma {:induction false} ExecutesExactlyWhenDue<K, V>(w: Wheel<K, V>, es: seq<Event<K, V>>, k: K, i: nat)
    requires w.Ok() && k in w.timers && i < |es|
    requires forall j :: 0 <= j < |es| ==> !Names(es[j], k)
    ensures k in ExecutedAt(w, es, i) <==>
            es[i].Tick? && Ticks(es, i) == Due(w.timers[k], w.ticked, w.slots) - 1
    ensures k in ExecutedAt(w, es, i) ==> ExecutedAt(w, es, i)[k] == w.timers[k].value
    decreases i
  {
    assert !Names(es[0], k);
    OthersLeaveItAlone(w, es[0], k);
    TickLowersDue(w.timers[k], w.ticked, w.slots);
    if i > 0 {
      var w' := Apply(w, es[0]).0;
      forall j | 0 <= j < |es[1..]| ensures !Names(es[1..][j], k) { assert es[1..][j] == es[j + 1]; }
      if k in w'.timers {
        ExecutesExactlyWhenDue(w', es[1..], k, i - 1);
      } else {
        AbsentNeverExecutes(w', es[1..], k, i - 1);
      }
    }
  }

  /** `n` ticks is how far a delay reaches: n whole intervals fit in it and n + 1 do not; a delay below one
      interval counts as one. */
  predicate Reaches(interval: nat, delay: int, n: int) {
    if delay < interval then n == 1 else n * interval <= delay < (n + 1) * interval
  }

  lemma StepsReach(interval: nat, delay: int, n: int)
    requires interval > 0 && delay > 0
    ensures Reaches(interval, delay, n) <==> n == Steps(interval, Max(delay, interval))
  {
    var d := Max(delay, interval);
    DivMod(d, interval);
    if delay < interval {
      DivModUnique(interval, interval, 1, 0);
    } else if Reaches(interval, delay, n) {
      if n < 0 { MultipleIsFar(n + 1, interval); }
      DivModUnique(d, interval, n, d - n * interval);
    }
  }

  /** The promise of SetTimer: executes exactly once, on the last tick within the delay. */
  lemma SetExecutesOnce<K, V>(w: Wheel<K, V>, k: K, v: V, delay: int, es: seq<Event<K, V>>, i: nat)
    requires w.Ok() && k !in w.timers && delay > 0 && i < |es|
    requires forall j :: 0 <= j < |es| ==> !Names(es[j], k)
    ensures Apply(w, Set(k, v, delay)).0.Ok() && Apply(w, Set(k, v, delay)).1 == map[]
    ensures var x := ExecutedAt(Apply(w, Set(k, v, delay)).0, es, i);
            && (k in x <==> es[i].Tick? && Reaches(w.interval, delay, Ticks(es, i) + 1))
            && (k in x ==> x[k] == v)
  {
    StepsReach(w.interval, delay, Ticks(es, i) + 1);
    ApplyKeepsOk(w, Set(k, v, delay));
    PlacedStepsAhead(w.ticked, w.slots, Steps(w.interval, Max(delay, w.interval)));
    ExecutesExactlyWhenDue(Apply(w, Set(k, v, delay)).0, es, k, i);
  }

  // ---------- moves ----------

  /** Both slots are still ahead in this revolution, or both wait for the next one. */
  predicate SameSide(p: nat, q: nat, ticked: nat) {
    p > ticked <==> q > ticked
  }

  predicate Reinserted(ticked: nat, slots: nat, pos: nat, steps: nat)
    requires slots > 0 && steps > 0
  {
    Position(ticked, slots, steps) < pos && steps <= slots
  }

  /** How far a move misses its target, in ticks. */
  function Slip(ticked: nat, slots: nat, pos: nat, steps: nat): (slip: int)
    requires slots > 0 && steps > 0
  {
    var target := Position(ticked, slots, steps);
    if Reinserted(ticked, slots, pos, steps) || SameSide(pos, target, ticked) then 0
    else if target > ticked then slots
    else 0 - slots
  }

  /** A moved timer is due after `steps` ticks if and only if it was re-inserted or its old and
      target slots are on the same side of `ticked`. Otherwise it is one revolution late (the
      target is ahead, the old slot is not) or one revolution early (the other way round). */
  lemma MoveDue<V>(ticked: nat, slots: nat, t: Timer<V>, steps: nat)
    requires ticked < slots && t.pos < slots && steps > 0
    ensures Due(Moved(ticked, slots, t, steps), ticked, slots) == steps + Slip(ticked, slots, t.pos, steps)
    ensures Due(Moved(ticked, slots, t, steps), ticked, slots) == steps <==>
            Reinserted(ticked, slots, t.pos, steps) || SameSide(t.pos, Position(ticked, slots, steps), ticked)
  {
    var target := Position(ticked, slots, steps);
    var circle := Circle(slots, steps);
    PlacedStepsAhead(ticked, slots, steps);
    ZeroCircle(slots, steps);
    hide Position, Circle;
    if circle > 0 {
      OneTurnLess(circle, slots);
    }
  }

  lemma ZeroCircle(slots: nat, steps: nat)
    requires slots > 0 && steps > 0
    ensures Circle(slots, steps) == 0 <==> steps <= slots
  {
    DivMod(steps - 1, slots);
    if steps <= slots { DivModUnique(steps - 1, slots, 0, steps - 1); }
  }

  /** Tick n is the one a timer moved by `delay` from slot `pos` executes on: the last tick within the
      delay, or one revolution away from it. */
  ghost predicate Slipped<K, V>(w: Wheel<K, V>, pos: nat, delay: int, n: int)
    requires w.slots > 0
  {
    exists steps: nat ::
      steps > 0 && Reaches(w.interval, delay, steps) && n == steps + Slip(w.ticked, w.slots, pos, steps)
  }

  lemma SlippedOnce<K, V>(w: Wheel<K, V>, pos: nat, delay: int, n: int)
    requires w.Ok() && delay > 0
    ensures var steps := Steps(w.interval, Max(delay, w.interval));
            Slipped(w, pos, delay, n) <==> n == steps + Slip(w.ticked, w.slots, pos, steps)
  {
    hide Slip, Reaches, Steps;
    StepsReach(w.interval, delay, Steps(w.interval, Max(delay, w.interval)));
    forall steps: nat | Reaches(w.interval, delay, steps) ensures steps == Steps(w.interval, Max(delay, w.interval)) {
      StepsReach(w.interval, delay, steps);
    }
  }

  /** MoveTimer (delay >= interval) and SetTimer on a known key, over whole runs: the moved timer
      executes once, on the promised tick exactly when `MoveDue` says so. */
  lemma MoveExecutesOnce<K, V>(w: Wheel<K, V>, k: K, delay: nat, es: seq<Event<K, V>>, i: nat)
    requires w.Ok() && k in w.timers && delay >= w.interval && i < |es|
    requires forall j :: 0 <= j < |es| ==> !Names(es[j], k)
    ensures Apply(w, Move(k, delay)).0.Ok() && Apply(w, Move(k, delay)).1 == map[]
    ensures var x := ExecutedAt(Apply(w, Move(k, delay)).0, es, i);
            && (k in x <==> es[i].Tick? && Slipped(w, w.timers[k].pos, delay, Ticks(es, i) + 1))
            && (k in x ==> x[k] == w.timers[k].value)
  {
    StepsReach(w.interval, delay, Steps(w.interval, delay));
    SlippedOnce(w, w.timers[k].pos, delay, Ticks(es, i) + 1);
    var e := Move(k, delay);
    ApplyKeepsOk(w, e);
    MoveDue(w.ticked, w.slots, w.timers[k], Steps(w.interval, delay));
    ExecutesExactlyWhenDue(Apply(w, e).0, es, k, i);
  }

  /** SetTimer on a key that is already waiting replaces the value and moves the timer. */
  lemma ResetExecutesOnce<K, V>(w: Wheel<K, V>, k: K, v: V, delay: nat, es: seq<Event<K, V>>, i: nat)
    requires w.Ok() && k in w.timers && delay > 0 && i < |es|
    requires forall j :: 0 <= j < |es| ==> !Names(es[j], k)
    ensures Apply(w, Set(k, v, delay)).0.Ok() && Apply(w, Set(k, v, delay)).1 == map[]
    ensures var x := ExecutedAt(Apply(w, Set(k, v, delay)).0, es, i);
            && (k in x <==> es[i].Tick? && Slipped(w, w.timers[k].pos, delay, Ticks(es, i) + 1))
            && (k in x ==> x[k] == v)
  {
    SlippedOnce(w, w.timers[k].pos, delay, Ticks(es, i) + 1);
    var e := Set(k, v, delay);
    ApplyKeepsOk(w, e);
    MoveDue(w.ticked, w.slots, w.timers[k].(value := v), Steps(w.interval, Max(delay, w.interval)));
    ExecutesExactlyWhenDue(Apply(w, e).0, es, k, i);
  }

  /** A removed timer does not execute. */
  lemma RemovedNeverExecutes<K, V>(w: Wheel<K, V>, k: K, es: seq<Event<K, V>>, i: nat)
    requires w.Ok() && i < |es|
    requires forall j :: 0 <= j < |es| ==> !Names(es[j], k)
    ensures Apply(w, Remove(k)).0.Ok() && Apply(w, Remove(k)).1 == map[]
    ensures k !in ExecutedAt(Apply(w, Remove(k)).0, es, i)
  {
    AbsentNeverExecutes(Apply(w, Remove(k)).0, es, k, i);
  }

  /** The slip is real. On a wheel of four slots that has ticked once, a timer is set to four ticks
      ahead and moved to three: whatever else happens then, it executes on the seventh tick. */
  lemma MoveCanBeLate<K, V>(k: K, v: V, es: seq<Event<K, V>>, i: nat)
    requires i < |es| && forall j :: 0 <= j < |es| ==> !Names(es[j], k)
    ensures k in ExecutedAt(Wheel(4, 1, 3, map[]), [Tick, Set(k, v, 4), Move(k, 3)] + es, 3 + i) <==>
            es[i].Tick? && Ticks(es, i) + 1 == 7
  {
    hide Apply, Moved, Slip, Slipped, Steps, ExecutedAt, Wheel.Ok;
    var w: Wheel<K, V> := Wheel(4, 1, 3, map[]);
    var w1, w2 := Wheel(4, 1, 0, map[]), Wheel(4, 1, 0, map[k := Timer(v, 0, 0, 0)]);
    TickThenSet(k, v);
    MoveExecutesOnce(w2, k, 3, es, i);
    SlippedOnce(w2, 0, 3, Ticks(es, i) + 1);
    Later(w, Tick, [Set(k, v, 4), Move(k, 3)] + es, 2 + i);
    Later(w1, Set(k, v, 4), [Move(k, 3)] + es, 1 + i);
    Later(w2, Move(k, 3), es, i);
    assert [Tick] + ([Set(k, v, 4), Move(k, 3)] + es) == [Tick, Set(k, v, 4), Move(k, 3)] + es;
    assert [Set(k, v, 4)] + ([Move(k, 3)] + es) == [Set(k, v, 4), Move(k, 3)] + es;
  }

  lemma TickThenSet<K, V>(k: K, v: V)
    ensures var w: Wheel<K, V>, w1: Wheel<K, V> := Wheel(4, 1, 3, map[]), Wheel(4, 1, 0, map[]);
            var w2 := Wheel(4, 1, 0, map[k := Timer(v, 0, 0, 0)]);
            && w.Ok() && w1.Ok() && w2.Ok()
            && Apply(w, Tick).0 == w1 && Apply(w1, Set(k, v, 4)).0 == w2
            && Steps(1, 3) + Slip(0, 4, 0, Steps(1, 3)) == 7
  {
    DivModUnique(4, 4, 1, 0);
    DivModUnique(3, 4, 0, 3);
  }

  lemma Later<K, V>(w: Wheel<K, V>, e: Event<K, V>, es: seq<Event<K, V>>, i: nat)
    requires w.Ok() && i < |es|
    ensures Apply(w, e).0.Ok() && ExecutedAt(w, [e] + es, 1 + i) == ExecutedAt(Apply(w, e).0, es, i)
  {
    ApplyKeepsOk(w, e);
    assert ([e] + es)[1..] == es;
  }

  /** A move by less than one interval executes at once but does not unlink: the timer executes
      again on the tick it was due before the move. */
  lemma ShortMoveExecutesTwice<K, V>(w: Wheel<K, V>, k: K, delay: nat, es: seq<Event<K, V>>, i: nat)
    requires w.Ok() && k in w.timers && 0 < delay < w.interval && i < |es|
    requires forall j :: 0 <= j < |es| ==> !Names(es[j], k)
    ensures Apply(w, Move(k, delay)).1 == map[k := w.timers[k].value]
    ensures Apply(w, Move(k, delay)).0 == w
    ensures k in ExecutedAt(w, es, i) <==>
            es[i].Tick? && Ticks(es, i) + 1 == Due(w.timers[k], w.ticked, w.slots)
  {
    ExecutesExactlyWhenDue(w, es, k, i);
  }
}
