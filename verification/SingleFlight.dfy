/** core/syncx/singleflight.go as a state machine. Every Do or DoEx call is a thread; an execution
    is one `call` object, led by the thread that created it. One event is one atomic step: the
    critical section of createCall, the return of fn, the critical section of makeCall's deferred
    function, the Done, and the wake-up of a waiter. The result stands for the pair (val, err). */
module SingleFlight {
  import opened Options

  datatype Execution<K, R> = Execution(key: K, leader: nat, result: Option<R>, done: bool)

  datatype Thread<R> =
    | Waiting(exec: nat)
    | Leading(exec: nat)      // fn is running
    | Finishing(exec: nat)    // fn has returned; the call is still registered
    | Signalling(exec: nat)   // the call is no longer registered
    | Returned(exec: nat, value: R, isFresh: bool)

  datatype State<!K, R> = State(calls: map<K, nat>, execs: seq<Execution<K, R>>, threads: seq<Thread<R>>)

  datatype Event<K, R> =
    | Call(key: K) | FnReturns(i: nat, r: R) | Unregister(i: nat) | Signal(i: nat) | Wake(i: nat)

  function Init<K, R>(): (s: State<K, R>) { State(map[], [], []) }

  predicate Leads<R>(t: Thread<R>) {
    t.Leading? || t.Finishing? || t.Signalling? || (t.Returned? && t.isFresh)
  }

  ghost predicate ExecOk<K, R>(s: State<K, R>, e: nat)
    requires e < |s.execs|
  {
    var x := s.execs[e];
    && x.leader < |s.threads| && s.threads[x.leader].exec == e && Leads(s.threads[x.leader])
    && (x.done <==> s.threads[x.leader].Returned?)
  }

  ghost predicate ThreadOk<K, R>(s: State<K, R>, i: nat)
    requires i < |s.threads|
  {
    var t := s.threads[i];
    && t.exec < |s.execs|
    && (Leads(t) <==> s.execs[t.exec].leader == i)
    && (t.Leading? <==> Leads(t) && s.execs[t.exec].result.None?)
    && (t.Leading? || t.Finishing? ==> s.execs[t.exec].key in s.calls && s.calls[s.execs[t.exec].key] == t.exec)
    && (t.Returned? ==> s.execs[t.exec].result == Some(t.value) && s.execs[t.exec].done)
  }

  ghost predicate CallOk<K, R>(s: State<K, R>, k: K)
    requires k in s.calls
  {
    var e := s.calls[k];
    && e < |s.execs| && s.execs[e].key == k && s.execs[e].leader < |s.threads|
    && (s.threads[s.execs[e].leader].Leading? || s.threads[s.execs[e].leader].Finishing?)
  }

  ghost predicate Inv<K, R>(s: State<K, R>) {
    && (forall e {:trigger ExecOk(s, e)} :: 0 <= e < |s.execs| ==> ExecOk(s, e))
    && (forall i {:trigger ThreadOk(s, i)} :: 0 <= i < |s.threads| ==> ThreadOk(s, i))
    && (forall k {:trigger CallOk(s, k)} :: k in s.calls ==> CallOk(s, k))
  }

  ghost predicate Enabled<K, R>(s: State<K, R>, ev: Event<K, R>) {
    match ev
    case Call(_) => true
    case FnReturns(i, _) => i < |s.threads| && s.threads[i].Leading? && s.threads[i].exec < |s.execs|
    case Unregister(i) => i < |s.threads| && s.threads[i].Finishing? && s.threads[i].exec < |s.execs|
    case Signal(i) =>
      i < |s.threads| && s.threads[i].Signalling? && s.threads[i].exec < |s.execs|
      && s.execs[s.threads[i].exec].result.Some?
    case Wake(i) =>
      i < |s.threads| && s.threads[i].Waiting? && s.threads[i].exec < |s.execs|
      && s.execs[s.threads[i].exec].done && s.execs[s.threads[i].exec].result.Some?
  }

  ghost function Next<K, R>(s: State<K, R>, ev: Event<K, R>): (r: State<K, R>)
    requires Enabled(s, ev)
  {
    match ev
    case Call(k) =>
      if k in s.calls then s.(threads := s.threads + [Waiting(s.calls[k])])
      else State(s.calls[k := |s.execs|], s.execs + [Execution(k, |s.threads|, None, false)],
                 s.threads + [Leading(|s.execs|)])
    case FnReturns(i, r) =>
      var e := s.threads[i].exec;
      s.(execs := s.execs[e := s.execs[e].(result := Some(r))], threads := s.threads[i := Finishing(e)])
    case Unregister(i) =>
      var e := s.threads[i].exec;
      s.(calls := s.calls - {s.execs[e].key}, threads := s.threads[i := Signalling(e)])
    case Signal(i) =>
      var e := s.threads[i].exec;
      s.(execs := s.execs[e := s.execs[e].(done := true)],
         threads := s.threads[i := Returned(e, s.execs[e].result.value, true)])
    case Wake(i) =>
      var e := s.threads[i].exec;
      s.(threads := s.threads[i := Returned(e, s.execs[e].result.value, false)])
  }

  /** What no step undoes: a call sticks to its execution, an execution to its key, leader and
      result, and a returned call to what it returned. */
  ghost predicate Extends<K, R>(s: State<K, R>, s': State<K, R>) {
    && |s.execs| <= |s'.execs| && |s.threads| <= |s'.threads|
    && (forall e {:trigger s'.execs[e]} :: 0 <= e < |s.execs| ==>
          && s'.execs[e].key == s.execs[e].key && s'.execs[e].leader == s.execs[e].leader
          && (s.execs[e].result.Some? ==> s'.execs[e].result == s.execs[e].result))
    && (forall i {:trigger s'.threads[i]} :: 0 <= i < |s.threads| ==>
          && s'.threads[i].exec == s.threads[i].exec
          && (s.threads[i].Returned? ==> s'.threads[i] == s.threads[i]))
  }

  lemma InitInv<K, R>()
    ensures Inv(Init<K, R>())
  {}

  lemma CallKeepsInv<K, R>(s: State<K, R>, k: K)
    requires Inv(s)
    ensures Inv(Next(s, Call(k))) && Extends(s, Next(s, Call(k)))
  {
    var s' := Next(s, Call(k));
    if k in s.calls { assert CallOk(s, k) && ExecOk(s, s.calls[k]); }
    forall e | 0 <= e < |s'.execs| ensures ExecOk(s', e) {
      if e < |s.execs| { assert ExecOk(s, e); }
    }
    forall i | 0 <= i < |s'.threads| ensures ThreadOk(s', i) {
      if i < |s.threads| { assert ThreadOk(s, i); }
    }
    forall j | j in s'.calls ensures CallOk(s', j) {
      if j in s.calls { assert CallOk(s, j); }
    }
  }

  lemma StepKeepsInv<K, R>(s: State<K, R>, ev: Event<K, R>)
    requires Inv(s) && Enabled(s, ev) && !ev.Call?
    ensures Inv(Next(s, ev)) && Extends(s, Next(s, ev))
  {
    var s' := Next(s, ev);
    assert ThreadOk(s, ev.i) && ExecOk(s, s.threads[ev.i].exec);
    forall e | 0 <= e < |s'.execs| ensures ExecOk(s', e) {
      assert ExecOk(s, e);
    }
    forall i | 0 <= i < |s'.threads| ensures ThreadOk(s', i) {
      assert ThreadOk(s, i);
    }
    forall j | j in s'.calls ensures CallOk(s', j) {
      assert CallOk(s, j) && ExecOk(s, s.calls[j]);
    }
  }

  lemma KeepsInv<K, R>(s: State<K, R>, ev: Event<K, R>)
    requires Inv(s) && Enabled(s, ev)
    ensures Inv(Next(s, ev)) && Extends(s, Next(s, ev))
  {
    if ev.Call? { CallKeepsInv(s, ev.key); } else { StepKeepsInv(s, ev); }
  }

  // ---------- whole runs ----------

  ghost predicate Legal<K, R>(s: State<K, R>, evs: seq<Event<K, R>>)
    decreases |evs|
  {
    evs == [] || (Enabled(s, evs[0]) && Legal(Next(s, evs[0]), evs[1..]))
  }

  ghost function Run<K, R>(s: State<K, R>, evs: seq<Event<K, R>>): (r: State<K, R>)
    requires Legal(s, evs)
    decreases |evs|
  {
    if evs == [] then s else Run(Next(s, evs[0]), evs[1..])
  }

  lemma {:induction false} RunKeepsInv<K, R>(s: State<K, R>, evs: seq<Event<K, R>>)
    requires Inv(s) && Legal(s, evs)
    ensures Inv(Run(s, evs)) && Extends(s, Run(s, evs))
    decreases |evs|
  {
    hide Inv, Next, Enabled;
    if evs != [] {
      KeepsInv(s, evs[0]);
      RunKeepsInv(Next(s, evs[0]), evs[1..]);
    }
  }

  /** At most one fn per key runs at a time. */
  lemma OneRunningPerKey<K, R>(s: State<K, R>, i: nat, j: nat)
    requires Inv(s) && i < |s.threads| && j < |s.threads|
    requires s.threads[i].Leading? && s.threads[j].Leading?
    requires s.threads[i].exec < |s.execs| && s.threads[j].exec < |s.execs|
    requires s.execs[s.threads[i].exec].key == s.execs[s.threads[j].exec].key
    ensures i == j
  {
    assert ThreadOk(s, i) && ThreadOk(s, j);
  }

  /** Whatever happens after a call arrives, it can only return the result of the execution that
      was registered for its key at that moment, or of its own when there was none; and it is
      fresh in the second case only. */
  lemma CallersShareRegisteredExecution<K, R>(s: State<K, R>, k: K, evs: seq<Event<K, R>>)
    requires Inv(s) && Legal(Next(s, Call(k)), evs)
    ensures var s' := Run(Next(s, Call(k)), evs);
            var e := if k in s.calls then s.calls[k] else |s.execs|;
            var i := |s.threads|;
            && i < |s'.threads| && e < |s'.execs| && s'.execs[e].key == k
            && (s'.threads[i].Returned? ==>
                  && s'.threads[i].exec == e
                  && s'.execs[e].result == Some(s'.threads[i].value)
                  && (s'.threads[i].isFresh <==> k !in s.calls))
  {
    hide Legal, Run;
    var s1 := Next(s, Call(k));
    KeepsInv(s, Call(k));
    RunKeepsInv(s1, evs);
    var s' := Run(s1, evs);
    var e := if k in s.calls then s.calls[k] else |s.execs|;
    var i := |s.threads|;
    assert CallOk(s1, k) && ThreadOk(s1, i) && ExecOk(s1, e);
    assert ThreadOk(s', i);
  }

  /** Each execution is fresh to exactly one caller: its leader, and the leader only. */
  lemma FreshExactlyOnce<K, R>(s: State<K, R>, e: nat)
    requires Inv(s) && e < |s.execs|
    ensures forall i :: 0 <= i < |s.threads| && s.threads[i].Returned? && s.threads[i].exec == e ==>
              (s.threads[i].isFresh <==> i == s.execs[e].leader)
    ensures s.execs[e].done ==>
              var l := s.execs[e].leader;
              l < |s.threads| && s.threads[l].Returned? && s.threads[l].isFresh && s.threads[l].exec == e
  {
    assert ExecOk(s, e);
    forall i | 0 <= i < |s.threads| && s.threads[i].Returned? && s.threads[i].exec == e
      ensures s.threads[i].isFresh <==> i == s.execs[e].leader
    {
      assert ThreadOk(s, i);
    }
  }

  /** A waiter is never stuck: its execution is done, or its leader can take a step. */
  lemma WaitersMove<K, R>(s: State<K, R>, i: nat, r: R) returns (ev: Event<K, R>)
    requires Inv(s) && i < |s.threads| && !s.threads[i].Returned?
    ensures Enabled(s, ev) && !ev.Call? && ev.i < |s.threads| && s.threads[ev.i].exec == s.threads[i].exec
  {
    assert ThreadOk(s, i);
    var e := s.threads[i].exec;
    assert ExecOk(s, e);
    var l := if s.threads[i].Waiting? then s.execs[e].leader else i;
    assert ThreadOk(s, l);
    match s.threads[l]
    case Leading(_) => ev := FnReturns(l, r);
    case Finishing(_) => ev := Unregister(l);
    case Signalling(_) => ev := Signal(l);
    case Returned(_, _, _) => ev := Wake(i);
  }

  // ---------- where results come from ----------

  /** What the fn of thread i returned, in the events of a run. */
  ghost function Returns<K, R>(evs: seq<Event<K, R>>, i: nat): (rs: seq<R>) {
    if evs == [] then [] else
    (if evs[0].FnReturns? && evs[0].i == i then [evs[0].r] else []) + Returns(evs[1..], i)
  }

  /** The result of the execution that thread i leads, if it leads one and there is a result. */
  ghost function Outcome<K, R>(s: State<K, R>, i: nat): (rs: seq<R>) {
    if i < |s.threads| && Leads(s.threads[i]) && s.threads[i].exec < |s.execs|
       && s.execs[s.threads[i].exec].result.Some?
    then [s.execs[s.threads[i].exec].result.value] else []
  }

  lemma CallOutcome<K, R>(s: State<K, R>, k: K, i: nat)
    requires Inv(s)
    ensures Outcome(Next(s, Call(k)), i) == Outcome(s, i)
  {
    if i < |s.threads| { assert ThreadOk(s, i); }
  }

  lemma ReturnOutcome<K, R>(s: State<K, R>, j: nat, r: R, i: nat)
    requires Inv(s) && Enabled(s, FnReturns(j, r))
    ensures Outcome(Next(s, FnReturns(j, r)), i) == Outcome(s, i) + (if i == j then [r] else [])
  {
    assert ThreadOk(s, j);
    if i < |s.threads| { assert ThreadOk(s, i); }
  }

  lemma OtherOutcome<K, R>(s: State<K, R>, ev: Event<K, R>, i: nat)
    requires Inv(s) && Enabled(s, ev) && (ev.Unregister? || ev.Signal? || ev.Wake?)
    ensures Outcome(Next(s, ev), i) == Outcome(s, i)
  {
    assert ThreadOk(s, ev.i);
    if i < |s.threads| { assert ThreadOk(s, i); }
  }

  lemma StepOutcome<K, R>(s: State<K, R>, ev: Event<K, R>, i: nat)
    requires Inv(s) && Enabled(s, ev)
    ensures Outcome(Next(s, ev), i) == Outcome(s, i) + Returns([ev], i)
  {
    hide Inv, Next, Enabled, Outcome;
    assert [ev][1..] == [];
    match ev
    case Call(k) => CallOutcome(s, k, i);
    case FnReturns(j, r) => ReturnOutcome(s, j, r, i);
    case _ => OtherOutcome(s, ev, i);
  }

  lemma {:induction false} RunOutcome<K, R>(s: State<K, R>, evs: seq<Event<K, R>>, i: nat)
    requires Inv(s) && Legal(s, evs)
    ensures Outcome(Run(s, evs), i) == Outcome(s, i) + Returns(evs, i)
    decreases |evs|
  {
    hide Inv, Next, Enabled, Outcome, Returns;
    if evs == [] {
      NoReturns<K, R>(i);
    } else {
      KeepsInv(s, evs[0]);
      StepOutcome(s, evs[0], i);
      RunOutcome(Next(s, evs[0]), evs[1..], i);
      FirstReturn(evs, i);
    }
  }

  lemma NoReturns<K, R>(i: nat)
    ensures Returns<K, R>([], i) == []
  {}

  lemma FirstReturn<K, R>(evs: seq<Event<K, R>>, i: nat)
    requires evs != []
    ensures Returns(evs, i) == Returns([evs[0]], i) + Returns(evs[1..], i)
  {
    assert [evs[0]][1..] == [];
  }

  /** In every run: whoever has returned got what the fn of the leader of its execution returned, and after
      the leader did; that fn returned exactly once, and no other fn ran for the execution. */
  lemma ResultsComeFromFn<K, R>(evs: seq<Event<K, R>>, i: nat)
    requires Legal(Init<K, R>(), evs)
    requires i < |Run(Init<K, R>(), evs).threads| && Run(Init<K, R>(), evs).threads[i].Returned?
    ensures var s := Run(Init<K, R>(), evs);
            var t := s.threads[i];
            && t.exec < |s.execs| && Returns(evs, s.execs[t.exec].leader) == [t.value]
            && s.execs[t.exec].leader < |s.threads| && s.threads[s.execs[t.exec].leader].Returned?
            && (!t.isFresh ==> Returns(evs, i) == [])
  {
    hide Legal, Run, Returns;
    InitInv<K, R>();
    RunKeepsInv(Init<K, R>(), evs);
    var s := Run(Init<K, R>(), evs);
    var e := s.threads[i].exec;
    assert ThreadOk(s, i) && ExecOk(s, e);
    RunOutcome(Init<K, R>(), evs, i);
    RunOutcome(Init<K, R>(), evs, s.execs[e].leader);
  }
}
