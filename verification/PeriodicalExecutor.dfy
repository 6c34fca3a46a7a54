/** core/executors/periodicalexecutor.go with the container of bulkexecutor.go, as a state machine.

    Every call of Add, Flush or Wait is a thread of its own, and so is every background flusher.
    One event is one atomic step of one thread: a critical section, a channel operation, a
    wait-group operation, or a call of the container's Execute. */
module PeriodicalExecutor {
  import opened Arith
  import opened Options

  /** Why a thread is executing a batch, which is also where it goes on afterwards. */
  datatype Purpose = Command | OnTick | Final | External | ForWait

  datatype Thread<T> =
    // Add
    | Spawning(batch: Option<seq<T>>)  // must still start the flusher; then sends its batch, if any
    | Sending(load: seq<T>)            // pe.commander <- vals
    | Confirming                       // <-pe.confirmChan
    // backgroundFlush
    | Loop(commanded: bool)            // select
    | Received(load: seq<T>)           // about to lower inflight
    | Counted(load: seq<T>)            // about to enter the wait group
    | Confirmer(load: seq<T>)          // pe.confirmChan <- placeholder
    | QuitCheck                        // shallQuit
    // Flush, executeTasks
    | Entering(why: Purpose)           // about to enter the wait group
    | Removing(why: Purpose)           // container.RemoveAll under the lock
    | Running(load: seq<T>, why: Purpose)
    | Ran(ok: bool, why: Purpose)      // about to leave the wait group
    // Wait
    | WaitingForBarrier
    | Waiting                          // waitGroup.Wait, holding the barrier
    | Done

  datatype State<T> = State(
    maxTasks: int,
    container: seq<T>,
    guarded: bool,
    inflight: int,
    waitGroup: int,
    barrier: bool,
    commander: Option<seq<T>>,
    threads: seq<Thread<T>>,
    executed: multiset<T>,
    added: multiset<T>
  )

  datatype Event<T> =
    | AddCall(task: T) | Spawn(i: nat) | Send(i: nat)
    | Receive(i: nat) | Decrement(i: nat) | Enter(i: nat) | Confirm(i: nat, j: nat)
    | Tick(i: nat) | Quit(i: nat, idle: bool)
    | FlushCall | WaitCall
    | EnterFlush(i: nat) | Remove(i: nat) | Execute(i: nat) | Leave(i: nat)
    | LockBarrier(i: nat) | WaitReturn(i: nat)

  function Init<T>(maxTasks: int): (s: State<T>) {
    State(maxTasks, [], false, 0, 0, false, None, [], multiset{}, multiset{})
  }


  ghost predicate Enabled<T>(s: State<T>, e: Event<T>) {
    match e
    case AddCall(_) => true
    case FlushCall => true
    case WaitCall => true
    case Spawn(i) => i < |s.threads| && s.threads[i].Spawning?
    case Send(i) => i < |s.threads| && s.threads[i].Sending? && s.commander.None?
    case Receive(i) => i < |s.threads| && s.threads[i].Loop? && s.commander.Some?
    case Decrement(i) => i < |s.threads| && s.threads[i].Received?
    case Enter(i) => i < |s.threads| && s.threads[i].Counted? && !s.barrier
    case Confirm(i, j) => i < |s.threads| && s.threads[i].Confirmer? && j < |s.threads| && s.threads[j].Confirming?
    case Tick(i) => i < |s.threads| && s.threads[i].Loop?
    case Quit(i, _) => i < |s.threads| && s.threads[i].QuitCheck?
    case EnterFlush(i) => i < |s.threads| && s.threads[i].Entering? && !s.barrier
    case Remove(i) => i < |s.threads| && s.threads[i].Removing?
    case Execute(i) => i < |s.threads| && s.threads[i].Running?
    case Leave(i) => i < |s.threads| && s.threads[i].Ran?
    case LockBarrier(i) => i < |s.threads| && s.threads[i].WaitingForBarrier? && !s.barrier
    case WaitReturn(i) => i < |s.threads| && s.threads[i].Waiting? && s.waitGroup == 0
  }

  /** addAndCheck, with bulkContainer.AddTask and RemoveAll: one critical section. */
  ghost function Added<T>(s: State<T>, task: T): (r: State<T>) {
    Stored(s.(added := s.added + multiset{task}), s.container + [task])
  }

  /** The container has become `tasks`; a full one is taken as a batch at once. */
  ghost function Stored<T>(s: State<T>, tasks: seq<T>): (r: State<T>) {
    var full := |tasks| >= s.maxTasks;
    var batch := if full then Some(tasks) else None;
    var thread := if !s.guarded then Spawning(batch) else if full then Sending(tasks) else Done;
    s.(container := if full then [] else tasks,
       inflight := if full then s.inflight + 1 else s.inflight,
       guarded := true,
       threads := s.threads + [thread])
  }

  /** Where executeTasks returns to. */
  function After<T>(ok: bool, why: Purpose): (t: Thread<T>) {
    match why
    case Command => Loop(true)
    case OnTick => if ok then Loop(false) else QuitCheck
    case Final => Done
    case External => Done
    case ForWait => WaitingForBarrier
  }

  /** The steps that move one thread and start none. */
  predicate Moves<T>(e: Event<T>) {
    !e.AddCall? && !e.FlushCall? && !e.WaitCall? && !e.Spawn? && !e.Confirm?
  }

  /** What such a step makes of its thread ... */
  ghost function Turned<T>(s: State<T>, e: Event<T>): (t: Thread<T>)
    requires Enabled(s, e) && Moves(e)
  {
    var t := s.threads[e.i];
    match e
    case Send(_) => Confirming
    case Receive(_) => Received(s.commander.value)
    case Decrement(_) => Counted(t.load)
    case Enter(_) => Confirmer(t.load)
    case Tick(_) => if t.commanded then Loop(false) else Entering(OnTick)
    case Quit(_, idle) => if idle && s.inflight == 0 then Entering(Final) else Loop(false)
    case EnterFlush(_) => Removing(t.why)
    case Remove(_) => Running(s.container, t.why)
    case Execute(_) => Ran(t.load != [], t.why)
    case Leave(_) => After(t.ok, t.why)
    case LockBarrier(_) => Waiting
    case WaitReturn(_) => Done
  }

  /** ... and of what the threads share. */
  ghost function Shared<T>(s: State<T>, e: Event<T>): (r: State<T>)
    requires Enabled(s, e) && Moves(e)
  {
    match e
    case Send(i) => s.(commander := Some(s.threads[i].load))
    case Receive(_) => s.(commander := None)
    case Decrement(_) => s.(inflight := s.inflight - 1)
    case Enter(_) => s.(waitGroup := s.waitGroup + 1)
    case Tick(_) => s
    case Quit(_, idle) => if idle && s.inflight == 0 then s.(guarded := false) else s
    case EnterFlush(_) => s.(waitGroup := s.waitGroup + 1)
    case Remove(_) => s.(container := [])
    case Execute(i) => s.(executed := s.executed + multiset(s.threads[i].load))
    case Leave(_) => s.(waitGroup := s.waitGroup - 1)
    case LockBarrier(_) => s.(barrier := true)
    case WaitReturn(_) => s.(barrier := false)
  }

  ghost function Next<T>(s: State<T>, e: Event<T>): (r: State<T>)
    requires Enabled(s, e)
  {
    match e
    case AddCall(task) => Added(s, task)
    case FlushCall => s.(threads := s.threads + [Entering(External)])
    case WaitCall => s.(threads := s.threads + [Entering(ForWait)])
    case Spawn(i) =>
      var b := s.threads[i].batch;
      s.(threads := s.threads[i := if b.Some? then Sending(b.value) else Done] + [Loop(false)])
    case Confirm(i, j) => s.(threads := s.threads[i := Running(s.threads[i].load, Command)][j := Done])
    case _ => Shared(s, e).(threads := s.threads[e.i := Turned(s, e)])
  }

  // ---------- counting over the threads ----------

  /** What the invariant counts about one thread, or about all of them. The first two fields count
      the occurrences of one observed task `x`. */
  datatype Tally = Tally(
    exposed: int,   // x in a batch whose wait-group entry is still to come
    covered: int,   // x in a batch inside the wait group
    raised: int,    // wait-group entries
    flying: int,    // batches counted by inflight
    guards: int,    // flushers that are starting or in their loop
    asking: int,    // adders waiting for a confirmation
    owing: int,     // confirmations still to be sent
    finals: int,    // final flushes that have not removed the tasks yet
    waiters: int,   // holders of the barrier
    adders: int,    // Add calls in flight
    steps: int      // how many steps it can still take without a tick or a new batch
  )

  const ZERO := Tally(0, 0, 0, 0, 0, 0, 0, 0, 0, 0, 0)

  function Plus(a: Tally, b: Tally): (t: Tally) {
    Tally(a.exposed + b.exposed, a.covered + b.covered, a.raised + b.raised, a.flying + b.flying,
          a.guards + b.guards, a.asking + b.asking, a.owing + b.owing, a.finals + b.finals,
          a.waiters + b.waiters, a.adders + b.adders, a.steps + b.steps)
  }

  function Looping(why: Purpose): (n: nat) { Bit(why == Command || why == OnTick) }

  /** Steps left once a batch has been executed. */
  function StepsAfter(why: Purpose): (n: nat) {
    match why
    case OnTick => 6   // it may still quit, with a final flush
    case ForWait => 3
    case _ => 1
  }

  ghost function Of<T>(t: Thread<T>, x: T): (r: Tally) {
    match t
    case Spawning(b) =>
      if b.Some? then ZERO.(exposed := multiset(b.value)[x], flying := 1, guards := 1, adders := 1, steps := 8)
      else ZERO.(guards := 1, adders := 1, steps := 1)
    case Sending(b) => ZERO.(exposed := multiset(b)[x], flying := 1, adders := 1, steps := 7)
    case Confirming => ZERO.(asking := 1, adders := 1)
    case Loop(_) => ZERO.(guards := 1)
    case Received(b) => ZERO.(exposed := multiset(b)[x], flying := 1, guards := 1, owing := 1, steps := 5)
    case Counted(b) => ZERO.(exposed := multiset(b)[x], guards := 1, owing := 1, steps := 4)
    case Confirmer(b) => ZERO.(covered := multiset(b)[x], guards := 1, owing := 1, raised := 1, steps := 3)
    case QuitCheck => ZERO.(guards := 1, steps := 5)
    case Entering(why) => ZERO.(guards := Looping(why), finals := Bit(why == Final), steps := StepsAfter(why) + 3)
    case Removing(why) =>
      ZERO.(guards := Looping(why), finals := Bit(why == Final), raised := 1, steps := StepsAfter(why) + 2)
    case Running(b, why) =>
      ZERO.(covered := multiset(b)[x], guards := Looping(why), raised := 1, steps := StepsAfter(why) + 1)
    case Ran(_, why) => ZERO.(guards := Looping(why), raised := 1, steps := StepsAfter(why))
    case WaitingForBarrier => ZERO.(steps := 2)
    case Waiting => ZERO.(waiters := 1, steps := 1)
    case Done => ZERO
  }

  ghost function Total<T>(threads: seq<Thread<T>>, x: T): (t: Tally) {
    if threads == [] then ZERO else Plus(Total(threads[..|threads| - 1], x), Of(threads[|threads| - 1], x))
  }

  lemma TotalAppend<T>(threads: seq<Thread<T>>, t: Thread<T>, x: T)
    ensures Total(threads + [t], x) == Plus(Total(threads, x), Of(t, x))
  {
    assert (threads + [t])[..|threads|] == threads;
  }

  /** Changing one thread changes the total by the difference of the two tallies. */
  lemma {:induction false} TotalUpdate<T>(threads: seq<Thread<T>>, i: nat, t: Thread<T>, x: T)
    requires i < |threads|
    ensures Plus(Total(threads[i := t], x), Of(threads[i], x)) == Plus(Total(threads, x), Of(t, x))
  {
    hide Of;
    var n := |threads| - 1;
    if i < n {
      assert threads[i := t][..n] == threads[..n][i := t];
      TotalUpdate(threads[..n], i, t, x);
    } else {
      assert threads[i := t][..n] == threads[..n];
    }
  }

  predicate NonNegative(t: Tally) {
    && t.exposed >= 0 && t.covered >= 0
    && t.raised >= 0 && t.flying >= 0 && t.guards >= 0 && t.asking >= 0 && t.owing >= 0
    && t.finals >= 0 && t.waiters >= 0 && t.adders >= 0 && t.steps >= 0
  }

  lemma OfNonNegative<T>(t: Thread<T>, x: T)
    ensures NonNegative(Of(t, x))
  {}

  lemma {:induction false} TotalNonNegative<T>(threads: seq<Thread<T>>, x: T)
    ensures NonNegative(Total(threads, x))
  {
    hide Of;
    if threads != [] {
      TotalNonNegative(threads[..|threads| - 1], x);
      OfNonNegative(threads[|threads| - 1], x);
    }
  }

  // ---------- the invariant ----------

  ghost function InChannel<T>(c: Option<seq<T>>, x: T): (n: nat) {
    if c.Some? then multiset(c.value)[x] else 0
  }

  ghost predicate InvAt<T>(s: State<T>, x: T) {
    var t := Total(s.threads, x);
    // no task is lost and none is executed twice
    && s.added[x] == s.executed[x] + multiset(s.container)[x] + InChannel(s.commander, x) + t.exposed + t.covered
    // the wait group counts the threads inside it
    && s.waitGroup == t.raised
    && s.inflight == t.flying + Bit(s.commander.Some?)
    // one flusher is starting or looping exactly when guarded says so
    && t.guards == Bit(s.guarded)
    // every adder that waits for a confirmation will be sent one
    && t.asking == t.owing + Bit(s.commander.Some?)
    && (s.inflight > 0 ==> s.guarded)
    // collected tasks have a live flusher, or a quitting one whose final flush is to come
    && (s.container != [] ==> s.guarded || t.finals > 0)
    && t.waiters == Bit(s.barrier)
  }

  ghost predicate Inv<T(!new)>(s: State<T>) {
    forall x: T :: InvAt(s, x)
  }

  /** Occurrences of x that are executed or inside the wait group. */
  ghost function Settled<T>(s: State<T>, x: T): (n: int) {
    s.executed[x] + Total(s.threads, x).covered
  }

  lemma InitInv<T(!new)>(maxTasks: int)
    ensures Inv(Init<T>(maxTasks))
  {}

  /** The calls that create a thread. */
  lemma AddKeepsInv<T>(s: State<T>, task: T, x: T)
    requires InvAt(s, x)
    ensures InvAt(Added(s, task), x) && Settled(s, x) == Settled(Added(s, task), x)
  {
    hide Total, Stored, Of;
    CountAppend(s.container, task, x);
    CountAdded(s.added, task, x);
    StoreKeepsInv(s, s.added + multiset{task}, s.container + [task], x);
  }

  lemma StoreKeepsInv<T>(s: State<T>, added: multiset<T>, tasks: seq<T>, x: T)
    requires InvAt(s, x) && tasks != []
    requires added[x] + multiset(s.container)[x] == s.added[x] + multiset(tasks)[x]
    ensures var s' := Stored(s.(added := added), tasks);
            InvAt(s', x) && Settled(s, x) == Settled(s', x)
  {
    hide Total;
    var s' := Stored(s.(added := added), tasks);
    TotalAppend(s.threads, s'.threads[|s.threads|], x);
  }

  lemma CountAppend<T>(c: seq<T>, task: T, x: T)
    ensures multiset(c + [task])[x] == multiset(c)[x] + if x == task then 1 else 0
  {
    assert multiset(c + [task]) == multiset(c) + multiset{task};
  }

  lemma CountAdded<T>(m: multiset<T>, task: T, x: T)
    ensures (m + multiset{task})[x] == m[x] + if x == task then 1 else 0
  {}

  lemma CallKeepsInv<T>(s: State<T>, why: Purpose, x: T)
    requires InvAt(s, x) && (why == External || why == ForWait)
    ensures var s' := s.(threads := s.threads + [Entering(why)]);
            InvAt(s', x) && Settled(s, x) == Settled(s', x)
  {
    hide Total;
    TotalAppend(s.threads, Entering(why), x);
  }

  lemma SpawnKeepsInv<T>(s: State<T>, i: nat, x: T)
    requires InvAt(s, x) && i < |s.threads| && s.threads[i].Spawning?
    ensures var b := s.threads[i].batch;
            var s' := s.(threads := s.threads[i := if b.Some? then Sending(b.value) else Done] + [Loop(false)]);
            InvAt(s', x) && Settled(s', x) == Settled(s, x)
  {
    hide Total;
    var b := s.threads[i].batch;
    var t := if b.Some? then Sending(b.value) else Done;
    TotalUpdate(s.threads, i, t, x);
    TotalAppend(s.threads[i := t], Loop(false), x);
  }

  lemma ConfirmKeepsInv<T>(s: State<T>, i: nat, j: nat, x: T)
    requires InvAt(s, x) && i < |s.threads| && s.threads[i].Confirmer? && j < |s.threads| && s.threads[j].Confirming?
    ensures var s' := s.(threads := s.threads[i := Running(s.threads[i].load, Command)][j := Done]);
            InvAt(s', x) && Settled(s', x) == Settled(s, x)
  {
    hide Total;
    var t: Thread<T> := Running(s.threads[i].load, Command);
    TotalUpdate(s.threads, i, t, x);
    TotalUpdate(s.threads[i := t], j, Done, x);
  }

  /** The totals after a step that moves one thread. */
  lemma Recount<T>(s: State<T>, e: Event<T>, x: T)
    requires Enabled(s, e) && Moves(e)
    ensures e.i < |s.threads| && Next(s, e).threads == s.threads[e.i := Turned(s, e)]
    ensures Plus(Total(Next(s, e).threads, x), Of(s.threads[e.i], x)) == Plus(Total(s.threads, x), Of(Turned(s, e), x))
    ensures NonNegative(Total(s.threads, x)) && NonNegative(Total(Next(s, e).threads, x))
  {
    hide Total, Of, Turned, Shared;
    TotalUpdate(s.threads, e.i, Turned(s, e), x);
    TotalNonNegative(s.threads, x);
    TotalNonNegative(Next(s, e).threads, x);
  }

  /** When a thread goes from tally `a` to tally `b`, the shared state follows. */
  ghost predicate Follows<T>(s: State<T>, s': State<T>, a: Tally, b: Tally, x: T) {
    && s'.added == s.added
    && s'.executed[x] + multiset(s'.container)[x] + InChannel(s'.commander, x) + b.exposed + b.covered
       == s.executed[x] + multiset(s.container)[x] + InChannel(s.commander, x) + a.exposed + a.covered
    && s'.waitGroup - b.raised == s.waitGroup - a.raised
    && s'.inflight - b.flying - Bit(s'.commander.Some?) == s.inflight - a.flying - Bit(s.commander.Some?)
    && b.guards - Bit(s'.guarded) == a.guards - Bit(s.guarded)
    && b.asking - b.owing - Bit(s'.commander.Some?) == a.asking - a.owing - Bit(s.commander.Some?)
    && b.waiters - Bit(s'.barrier) == a.waiters - Bit(s.barrier)
    && (s'.inflight > 0 ==> s'.guarded || (!s.guarded && s'.inflight <= s.inflight))
    && (s'.container != [] ==> s'.guarded || b.finals > 0
                               || (s'.container == s.container && !s.guarded && b.finals == a.finals))
  }

  lemma FollowingKeepsInv<T>(s: State<T>, e: Event<T>, x: T)
    requires InvAt(s, x) && Enabled(s, e) && Moves(e) && e.i < |s.threads|
    requires Follows(s, Shared(s, e), Of(s.threads[e.i], x), Of(Turned(s, e), x), x)
    ensures InvAt(Next(s, e), x)
    ensures Settled(Next(s, e), x) - Settled(s, x)
         == Shared(s, e).executed[x] + Of(Turned(s, e), x).covered - s.executed[x] - Of(s.threads[e.i], x).covered
  {
    hide Total, Of, Turned, Shared, Enabled;
    Recount(s, e, x);
    Contributes(Next(s, e).threads, x, Finals, e.i);
  }

  lemma SharedStateShows<T>(s: State<T>, i: nat, x: T)
    requires InvAt(s, x) && i < |s.threads|
    ensures Of(s.threads[i], x).guards > 0 ==> s.guarded
    ensures Of(s.threads[i], x).waiters > 0 ==> s.barrier
    ensures s.inflight > 0 ==> s.guarded
  {
    hide Total, Of;
    Contributes(s.threads, x, Guards, i);
    Contributes(s.threads, x, Waiters, i);
  }

  /** What a step settles: a batch that enters the wait group, and what a flush finds. */
  ghost function NewlySettled<T>(s: State<T>, e: Event<T>, x: T): (n: nat)
    requires Enabled(s, e)
  {
    match e
    case Enter(i) => multiset(s.threads[i].load)[x]
    case Remove(_) => multiset(s.container)[x]
    case _ => 0
  }

  ghost predicate FollowsAndSettles<T>(s: State<T>, e: Event<T>, x: T)
    requires Enabled(s, e) && Moves(e) && e.i < |s.threads|
  {
    && Follows(s, Shared(s, e), Of(s.threads[e.i], x), Of(Turned(s, e), x), x)
    && Shared(s, e).executed[x] + Of(Turned(s, e), x).covered
       == s.executed[x] + Of(s.threads[e.i], x).covered + NewlySettled(s, e, x)
  }

  /** The way of a batch through the channel, ... */
  lemma ChannelFollows<T>(s: State<T>, e: Event<T>, x: T)
    requires InvAt(s, x) && Enabled(s, e) && (e.Send? || e.Receive?)
    ensures FollowsAndSettles(s, e, x)
  {
    SharedStateShows(s, e.i, x);
    hide InvAt;
  }

  /** ... into the wait group, ... */
  lemma BatchFollows<T>(s: State<T>, e: Event<T>, x: T)
    requires InvAt(s, x) && Enabled(s, e) && (e.Decrement? || e.Enter?)
    ensures FollowsAndSettles(s, e, x)
  {
    SharedStateShows(s, e.i, x);
    hide InvAt;
  }

  /** ... the flusher's loop, which ends only with nothing in flight, ... */
  lemma LoopFollows<T>(s: State<T>, e: Event<T>, x: T)
    requires InvAt(s, x) && Enabled(s, e) && (e.Tick? || e.Quit?)
    ensures FollowsAndSettles(s, e, x)
  {
    SharedStateShows(s, e.i, x);
    hide InvAt;
  }

  /** ... flushing, ... */
  lemma FlushFollows<T>(s: State<T>, e: Event<T>, x: T)
    requires InvAt(s, x) && Enabled(s, e) && (e.EnterFlush? || e.Remove?)
    ensures FollowsAndSettles(s, e, x)
  {
    SharedStateShows(s, e.i, x);
    hide InvAt;
  }

  /** ... executing, ... */
  lemma ExecuteFollows<T>(s: State<T>, e: Event<T>, x: T)
    requires InvAt(s, x) && Enabled(s, e) && e.Execute?
    ensures FollowsAndSettles(s, e, x)
  {
    SharedStateShows(s, e.i, x);
    hide InvAt;
    assert (s.executed + multiset(s.threads[e.i].load))[x] == s.executed[x] + multiset(s.threads[e.i].load)[x];
  }

  lemma LeavingTally<T>(ok: bool, why: Purpose, x: T)
    ensures var a, b := Of<T>(Ran(ok, why), x), Of<T>(After(ok, why), x);
            b == a.(raised := 0, steps := b.steps) && a.raised == 1
  {}

  lemma LeaveFollows<T>(s: State<T>, e: Event<T>, x: T)
    requires InvAt(s, x) && Enabled(s, e) && e.Leave?
    ensures FollowsAndSettles(s, e, x)
  {
    SharedStateShows(s, e.i, x);
    hide InvAt, Of, After;
    LeavingTally(s.threads[e.i].ok, s.threads[e.i].why, x);
  }

  /** ... and waiting. */
  lemma WaitFollows<T>(s: State<T>, e: Event<T>, x: T)
    requires InvAt(s, x) && Enabled(s, e) && (e.LockBarrier? || e.WaitReturn?)
    ensures FollowsAndSettles(s, e, x)
  {
    SharedStateShows(s, e.i, x);
    hide InvAt;
  }

  /** The steps that move one thread keep the invariant. */
  lemma MoveKeepsInv<T>(s: State<T>, e: Event<T>, x: T)
    requires InvAt(s, x) && Enabled(s, e) && Moves(e)
    ensures InvAt(Next(s, e), x) && Settled(Next(s, e), x) == Settled(s, x) + NewlySettled(s, e, x)
  {
    hide InvAt, Settled, Follows, NewlySettled, Of, Next, Shared, Turned;
    if e.Send? || e.Receive? {
      ChannelFollows(s, e, x);
    } else if e.Decrement? || e.Enter? {
      BatchFollows(s, e, x);
    } else if e.Tick? || e.Quit? {
      LoopFollows(s, e, x);
    } else if e.EnterFlush? || e.Remove? {
      FlushFollows(s, e, x);
    } else if e.Execute? {
      ExecuteFollows(s, e, x);
    } else if e.Leave? {
      LeaveFollows(s, e, x);
    } else {
      WaitFollows(s, e, x);
    }
    FollowingKeepsInv(s, e, x);
  }

  /** Every step keeps the invariant, and what is executed or inside the wait group stays so. */
  lemma KeepsInv<T(!new)>(s: State<T>, e: Event<T>)
    requires Inv(s) && Enabled(s, e)
    ensures Inv(Next(s, e)) && forall x: T :: Settled(s, x) <= Settled(Next(s, e), x)
  {
    hide InvAt, Settled, Added, Shared, Turned;
    forall x: T ensures InvAt(Next(s, e), x) && Settled(s, x) <= Settled(Next(s, e), x) {
      match e
      case AddCall(task) => AddKeepsInv(s, task, x);
      case FlushCall => CallKeepsInv(s, External, x);
      case WaitCall => CallKeepsInv(s, ForWait, x);
      case Spawn(i) => SpawnKeepsInv(s, i, x);
      case Confirm(i, j) => ConfirmKeepsInv(s, i, j, x);
      case _ => MoveKeepsInv(s, e, x);
    }
  }

  // ---------- whole runs ----------

  ghost predicate Legal<T>(s: State<T>, es: seq<Event<T>>)
    decreases |es|
  {
    es == [] || (Enabled(s, es[0]) && Legal(Next(s, es[0]), es[1..]))
  }

  ghost function Run<T>(s: State<T>, es: seq<Event<T>>): (r: State<T>)
    requires Legal(s, es)
    decreases |es|
  {
    if es == [] then s else Run(Next(s, es[0]), es[1..])
  }

  lemma {:induction false} RunKeepsInv<T(!new)>(s: State<T>, es: seq<Event<T>>)
    requires Inv(s) && Legal(s, es)
    ensures Inv(Run(s, es)) && forall x: T :: Settled(s, x) <= Settled(Run(s, es), x)
    decreases |es|
  {
    hide Inv, Settled, Next, Enabled;
    if es != [] {
      KeepsInv(s, es[0]);
      RunKeepsInv(Next(s, es[0]), es[1..]);
    }
  }

  lemma RunConcat<T>(s: State<T>, es: seq<Event<T>>, fs: seq<Event<T>>)
    requires Legal(s, es) && Legal(Run(s, es), fs)
    ensures Legal(s, es + fs) && Run(s, es + fs) == Run(Run(s, es), fs)
    decreases |es|
  {
    hide Next, Enabled;
    if es == [] {
      assert es + fs == fs;
    } else {
      assert (es + fs)[1..] == es[1..] + fs;
      RunConcat(Next(s, es[0]), es[1..], fs);
    }
  }

  // ---------- what the invariant says ----------

  /** In every run: a task that was added has been executed, sits in the container, or is in
      exactly one batch; none is executed more often than it was added. */
  lemma NothingLostNothingTwice<T(!new)>(maxTasks: int, es: seq<Event<T>>)
    requires Legal(Init<T>(maxTasks), es)
    ensures var s := Run(Init<T>(maxTasks), es);
            && s.executed + multiset(s.container) <= s.added
            && (forall x: T :: s.added[x] == s.executed[x] + multiset(s.container)[x]
                 + InChannel(s.commander, x) + Total(s.threads, x).exposed + Total(s.threads, x).covered)
  {
    hide Total, Next, Enabled, Legal, Run;
    var s := Run(Init<T>(maxTasks), es);
    InitInv<T>(maxTasks);
    RunKeepsInv(Init<T>(maxTasks), es);
    forall x: T
      ensures s.executed[x] + multiset(s.container)[x] <= s.added[x]
      ensures s.added[x] == s.executed[x] + multiset(s.container)[x] + InChannel(s.commander, x)
              + Total(s.threads, x).exposed + Total(s.threads, x).covered
    {
      assert InvAt(s, x);
      TotalNonNegative(s.threads, x);
    }
  }

  datatype Field = Raised | Guards | Asking | Owing | Finals | Waiters | Adders

  function Pick(t: Tally, f: Field): (n: int) {
    match f
    case Raised => t.raised
    case Guards => t.guards
    case Asking => t.asking
    case Owing => t.owing
    case Finals => t.finals
    case Waiters => t.waiters
    case Adders => t.adders
  }

  /** A positive total has a thread that contributes to it. */
  lemma {:induction false} Witness<T>(threads: seq<Thread<T>>, x: T, f: Field) returns (i: nat)
    requires Pick(Total(threads, x), f) > 0
    ensures i < |threads| && Pick(Of(threads[i], x), f) > 0
  {
    hide Of;
    var n := |threads| - 1;
    if Pick(Of(threads[n], x), f) > 0 { return n; }
    i := Witness(threads[..n], x, f);
  }

  lemma {:induction false} Contributes<T>(threads: seq<Thread<T>>, x: T, f: Field, i: nat)
    requires i < |threads|
    ensures Pick(Of(threads[i], x), f) <= Pick(Total(threads, x), f)
  {
    hide Of;
    var n := |threads| - 1;
    TotalNonNegative(threads[..n], x);
    OfNonNegative(threads[n], x);
    if i < n { Contributes(threads[..n], x, f, i); }
  }

  lemma {:induction false} ContributeBoth<T>(threads: seq<Thread<T>>, x: T, f: Field, i: nat, j: nat)
    requires i < j < |threads|
    ensures Pick(Of(threads[i], x), f) + Pick(Of(threads[j], x), f) <= Pick(Total(threads, x), f)
  {
    hide Of;
    var n := |threads| - 1;
    TotalNonNegative(threads[..n], x);
    OfNonNegative(threads[n], x);
    if j < n { ContributeBoth(threads[..n], x, f, i, j); } else { Contributes(threads[..n], x, f, i); }
  }

  /** At most one flusher is starting or looping, and there is one exactly when `guarded`. */
  lemma OneFlusher<T(!new)>(s: State<T>, x: T, i: nat, j: nat)
    requires Inv(s) && i < |s.threads| && j < |s.threads|
    requires Of(s.threads[i], x).guards > 0 && Of(s.threads[j], x).guards > 0
    ensures i == j && s.guarded
  {
    hide Of, Total;
    assert InvAt(s, x);
    Contributes(s.threads, x, Guards, i);
    if i < j { ContributeBoth(s.threads, x, Guards, i, j); }
    if j < i { ContributeBoth(s.threads, x, Guards, j, i); }
  }

  /** Collected tasks, and batches on their way, always have somebody to take them. */
  lemma WorkIsAttended<T(!new)>(s: State<T>, x: T) returns (i: nat)
    requires Inv(s) && (s.container != [] || s.inflight > 0)
    ensures i < |s.threads|
    ensures Of(s.threads[i], x).guards > 0
         || (s.inflight == 0 && (s.threads[i] == Entering(Final) || s.threads[i] == Removing(Final)))
  {
    assert InvAt(s, x);
    TotalNonNegative(s.threads, x);
    if s.guarded {
      i := Witness(s.threads, x, Guards);
    } else {
      i := Witness(s.threads, x, Finals);
    }
  }

  // ---------- no deadlock ----------

  predicate Internal<T>(e: Event<T>) {
    !e.AddCall? && !e.FlushCall? && !e.WaitCall? && !e.Tick?
  }

  /** Somebody inside the wait group can always go on. */
  lemma WaitGroupMoves<T(!new)>(s: State<T>, x: T) returns (e: Event<T>)
    requires Inv(s) && s.waitGroup > 0
    ensures Enabled(s, e) && (e.Confirm? || e.Remove? || e.Execute? || e.Leave?)
  {
    hide Total;
    assert InvAt(s, x);
    var i := Witness(s.threads, x, Raised);
    match s.threads[i]
    case Confirmer(_) =>
      Contributes(s.threads, x, Owing, i);
      var j := Witness(s.threads, x, Asking);
      e := Confirm(i, j);
    case Removing(_) => e := Remove(i);
    case Running(_, _) => e := Execute(i);
    case Ran(_, _) => e := Leave(i);
  }

  lemma BarrierMoves<T(!new)>(s: State<T>, x: T) returns (e: Event<T>)
    requires Inv(s) && s.barrier
    ensures Enabled(s, e) && Internal(e)
  {
    hide Total;
    assert InvAt(s, x);
    TotalNonNegative(s.threads, x);
    if s.waitGroup > 0 {
      e := WaitGroupMoves(s, x);
    } else {
      var j := Witness(s.threads, x, Waiters);
      e := WaitReturn(j);
    }
  }

  /** A thread that is not blocked on another thread's message. */
  lemma ThreadMoves<T(!new)>(s: State<T>, x: T, i: nat) returns (e: Event<T>)
    requires Inv(s) && i < |s.threads|
    requires var t := s.threads[i]; !t.Done? && !t.Loop? && !t.Sending? && !t.Confirming?
    ensures Enabled(s, e) && Internal(e)
  {
    hide Total, Of;
    if Pick(Of(s.threads[i], x), Raised) > 0 {
      assert InvAt(s, x);
      Contributes(s.threads, x, Raised, i);
      e := WaitGroupMoves(s, x);
    } else if s.barrier {
      e := BarrierMoves(s, x);
    } else {
      assert InvAt(s, x);
      Contributes(s.threads, x, Waiters, i);
      e := FreeThreadMoves(s, x, i);
    }
  }

  lemma FreeThreadMoves<T>(s: State<T>, x: T, i: nat) returns (e: Event<T>)
    requires i < |s.threads| && !s.barrier && Of(s.threads[i], x).raised <= 0 && Of(s.threads[i], x).waiters <= 0
    requires var t := s.threads[i]; !t.Done? && !t.Loop? && !t.Sending? && !t.Confirming?
    ensures Enabled(s, e) && Internal(e)
  {
    match s.threads[i]
    case Spawning(_) => e := Spawn(i);
    case Received(_) => e := Decrement(i);
    case Counted(_) => e := Enter(i);
    case QuitCheck => e := Quit(i, false);
    case Entering(_) => e := EnterFlush(i);
    case WaitingForBarrier => e := LockBarrier(i);
  }

  /** A batch in the channel is always on its way to the flusher. */
  lemma ChannelMoves<T(!new)>(s: State<T>, x: T) returns (e: Event<T>)
    requires Inv(s) && s.commander.Some?
    ensures Enabled(s, e) && Internal(e)
  {
    hide Total;
    assert InvAt(s, x);
    TotalNonNegative(s.threads, x);
    var i := Witness(s.threads, x, Guards);
    if s.threads[i].Loop? {
      e := Receive(i);
    } else {
      e := ThreadMoves(s, x, i);
    }
  }

  /** Whenever a call or a batch is under way, some step other than a tick or a new call is possible. */
  lemma NoDeadlock<T(!new)>(s: State<T>, x: T, i: nat) returns (e: Event<T>)
    requires Inv(s) && i < |s.threads| && !s.threads[i].Done? && !s.threads[i].Loop?
    ensures Enabled(s, e) && Internal(e)
  {
    hide Total;
    assert InvAt(s, x);
    if !s.threads[i].Sending? && !s.threads[i].Confirming? {
      e := ThreadMoves(s, x, i);
    } else if s.commander.Some? {
      e := ChannelMoves(s, x);
    } else if s.threads[i].Sending? {
      e := Send(i);
    } else {
      Contributes(s.threads, x, Asking, i);
      var j := Witness(s.threads, x, Owing);
      e := ThreadMoves(s, x, j);
    }
  }

  /** How many steps are left without a tick or a new call. */
  ghost function Measure<T>(s: State<T>, x: T): (n: int) {
    Total(s.threads, x).steps + 6 * Bit(s.commander.Some?)
  }

  lemma SpawnLowers<T>(s: State<T>, i: nat, x: T)
    requires Enabled(s, Spawn(i))
    ensures Measure(Next(s, Spawn(i)), x) < Measure(s, x)
  {
    hide Total;
    var b := s.threads[i].batch;
    var t := if b.Some? then Sending(b.value) else Done;
    TotalUpdate(s.threads, i, t, x);
    TotalAppend(s.threads[i := t], Loop(false), x);
  }

  /** A confirmation moves two threads, and no batch that is exposed. */
  lemma ConfirmLowers<T>(s: State<T>, i: nat, j: nat, x: T)
    requires Enabled(s, Confirm(i, j))
    ensures var s' := Next(s, Confirm(i, j));
            && Total(s'.threads, x).steps < Total(s.threads, x).steps
            && Total(s'.threads, x).exposed == Total(s.threads, x).exposed
  {
    hide Total;
    var t: Thread<T> := Running(s.threads[i].load, Command);
    TotalUpdate(s.threads, i, t, x);
    TotalUpdate(s.threads[i := t], j, Done, x);
  }

  /** A step brings the thread that takes it nearer to its end, counting a batch in the channel. */
  ghost predicate Lowered<T>(s: State<T>, e: Event<T>, x: T)
    requires Enabled(s, e) && Moves(e) && e.i < |s.threads|
  {
    Of(Turned(s, e), x).steps + 6 * Bit(Shared(s, e).commander.Some?)
      < Of(s.threads[e.i], x).steps + 6 * Bit(s.commander.Some?)
  }

  lemma BatchLowers<T>(s: State<T>, e: Event<T>, x: T)
    requires Enabled(s, e) && (e.Send? || e.Receive? || e.Decrement? || e.Enter? || e.Quit?)
    ensures Lowered(s, e, x)
  {}

  lemma FlushLowers<T>(s: State<T>, e: Event<T>, x: T)
    requires Enabled(s, e) && (e.EnterFlush? || e.Remove? || e.Execute?)
    ensures Lowered(s, e, x)
  {}

  lemma LeaveLowers<T>(s: State<T>, e: Event<T>, x: T)
    requires Enabled(s, e) && (e.Leave? || e.LockBarrier? || e.WaitReturn?)
    ensures Lowered(s, e, x)
  {}

  lemma MoveLowers<T>(s: State<T>, e: Event<T>, x: T)
    requires Enabled(s, e) && Moves(e) && !e.Tick?
    ensures e.i < |s.threads| && Lowered(s, e, x)
  {
    hide Lowered;
    if e.Send? || e.Receive? || e.Decrement? || e.Enter? || e.Quit? {
      BatchLowers(s, e, x);
    } else if e.EnterFlush? || e.Remove? || e.Execute? {
      FlushLowers(s, e, x);
    } else {
      LeaveLowers(s, e, x);
    }
  }

  lemma MeasureDrops<T>(s: State<T>, e: Event<T>, x: T)
    requires Enabled(s, e) && Internal(e)
    ensures Measure(Next(s, e), x) < Measure(s, x)
  {
    hide Total, Of;
    if e.Spawn? {
      SpawnLowers(s, e.i, x);
    } else if e.Confirm? {
      ConfirmLowers(s, e.i, e.j, x);
    } else {
      hide Shared, Turned;
      MoveLowers(s, e, x);
      Recount(s, e, x);
    }
  }

  /** Without ticks and new calls every run ends, and it ends with every call returned and every
      flusher idle in its loop: nobody waits for ever. */
  lemma {:induction false} EveryCallReturns<T(!new)>(s: State<T>, es: seq<Event<T>>, x: T)
    requires Inv(s) && Legal(s, es) && forall k :: 0 <= k < |es| ==> Internal(es[k])
    ensures |es| <= Measure(s, x)
    ensures (forall e :: Enabled(Run(s, es), e) ==> !Internal(e)) ==>
              Quiet(Run(s, es).threads)
    decreases |es|
  {
    hide Enabled, Next;
    TotalNonNegative(s.threads, x);
    if es == [] {
      if i :| 0 <= i < |s.threads| && !s.threads[i].Done? && !s.threads[i].Loop? {
        var e := NoDeadlock(s, x, i);
      }
    } else {
      KeepsInv(s, es[0]);
      MeasureDrops(s, es[0], x);
      EveryCallReturns(Next(s, es[0]), es[1..], x);
    }
  }

  // ---------- collected tasks get executed ----------

  /** Every call has returned and every flusher idles: where EveryCallReturns ends. */
  ghost predicate Quiet<T>(threads: seq<Thread<T>>) {
    forall i :: 0 <= i < |threads| ==> threads[i].Done? || threads[i].Loop?
  }

  lemma {:induction false} QuietCounts<T>(threads: seq<Thread<T>>, x: T)
    requires Quiet(threads)
    ensures var t := Total(threads, x);
            t.exposed == t.covered == t.asking == t.owing == t.finals == t.waiters == 0
  {
    hide Of;
    if threads != [] {
      var n := |threads| - 1;
      QuietTally(threads[n], x);
      QuietCounts(threads[..n], x);
    }
  }

  lemma QuietTally<T>(t: Thread<T>, x: T)
    requires t.Done? || t.Loop?
    ensures var r := Of(t, x); r.exposed == r.covered == r.asking == r.owing == r.finals == r.waiters == 0
  {}

  /** Then what is not executed is in the container, and only a flusher's loop is needed. */
  lemma QuietState<T(!new)>(s: State<T>, x: T)
    requires Inv(s) && Quiet(s.threads)
    ensures s.added[x] == s.executed[x] + multiset(s.container)[x] && s.commander.None? && !s.barrier
    ensures s.container != [] ==> Total(s.threads, x).guards > 0
  {
    assert InvAt(s, x);
    QuietCounts(s.threads, x);
    hide Total;
  }

  /** One flush of the flusher, from its tick to its return to the loop. */
  lemma TickFlushes<T(!new)>(s: State<T>, i: nat) returns (es: seq<Event<T>>)
    requires i < |s.threads| && s.threads[i] == Loop(false) && !s.barrier && s.container != []
    ensures es == [Tick(i), EnterFlush(i), Remove(i), Execute(i), Leave(i)] && Legal(s, es)
    ensures var s' := Run(s, es);
            s'.container == [] && s'.executed == s.executed + multiset(s.container) && s'.added == s.added
  {
    hide Legal, Run;
    NoSteps(s);
    es := Extend(s, [], Tick(i));
    es := EnterAndRemove(s, es, i);
    es := ExecuteAndLeave(s, es, i);
  }

  /** The two halves of a flush. */
  lemma EnterAndRemove<T>(s: State<T>, es: seq<Event<T>>, i: nat) returns (fs: seq<Event<T>>)
    requires Legal(s, es) && i < |Run(s, es).threads| && Run(s, es).threads[i].Entering? && !Run(s, es).barrier
    ensures fs == es + [EnterFlush(i), Remove(i)] && Legal(s, fs)
    ensures var r := Run(s, es);
            Run(s, fs) == r.(container := [], waitGroup := r.waitGroup + 1,
                             threads := r.threads[i := Running(r.container, r.threads[i].why)])
  {
    hide Legal, Run;
    fs := Extend(s, es, EnterFlush(i));
    fs := Extend(s, fs, Remove(i));
  }

  lemma ExecuteAndLeave<T>(s: State<T>, es: seq<Event<T>>, i: nat) returns (fs: seq<Event<T>>)
    requires Legal(s, es) && i < |Run(s, es).threads| && Run(s, es).threads[i].Running?
    ensures fs == es + [Execute(i), Leave(i)] && Legal(s, fs)
    ensures var r := Run(s, es);
            var t := r.threads[i];
            Run(s, fs) == r.(executed := r.executed + multiset(t.load), waitGroup := r.waitGroup - 1,
                             threads := r.threads[i := After(t.load != [], t.why)])
  {
    hide Legal, Run, After;
    fs := Extend(s, es, Execute(i));
    fs := Extend(s, fs, Leave(i));
  }

  /** From there at most two ticks of the flusher and the flush they start execute every task that was
      ever added. */
  lemma CollectedIsExecuted<T(!new)>(s: State<T>) returns (es: seq<Event<T>>)
    requires Inv(s) && Quiet(s.threads)
    ensures Legal(s, es) && Run(s, es).executed == s.added == Run(s, es).added
    ensures |es| <= 6 && forall e :: e in es ==> !e.AddCall? && !e.FlushCall? && !e.WaitCall?
  {
    hide Total, Legal, Run;
    NoSteps(s);
    es := [];
    forall x: T ensures s.added[x] == s.executed[x] + multiset(s.container)[x] { QuietState(s, x); }
    assert s.added == s.executed + multiset(s.container);
    if s.container != [] {
      var x := s.container[0];
      QuietState(s, x);
      var i := Witness(s.threads, x, Guards);
      assert s.threads[i].Loop? by { LoopsGuard(s.threads[i], x); }
      if s.threads[i].commanded { es := Extend(s, es, Tick(i)); }
      var flush := TickFlushes(Run(s, es), i);
      RunConcat(s, es, flush);
      es := es + flush;
    }
  }

  lemma LoopsGuard<T>(t: Thread<T>, x: T)
    requires (t.Done? || t.Loop?) && Pick(Of(t, x), Guards) > 0
    ensures t.Loop?
  {}

  // ---------- batches are full ----------

  /** A batch on its way from an Add has this many tasks. */
  ghost predicate ThreadSized<T>(t: Thread<T>, n: int) {
    match t
    case Spawning(b) => b.Some? ==> |b.value| == n
    case Sending(b) => |b| == n
    case Received(b) => |b| == n
    case Counted(b) => |b| == n
    case Confirmer(b) => |b| == n
    case Entering(why) => why != Command
    case Removing(why) => why != Command
    case Running(b, why) => why == Command ==> |b| == n
    case _ => true
  }

  /** Every batch of an Add has exactly maxTasks tasks, at least one, and the container fewer. */
  ghost predicate Sized<T>(s: State<T>) {
    var n := Max(1, s.maxTasks);
    && |s.container| < n && (s.commander.Some? ==> |s.commander.value| == n)
    && forall i :: 0 <= i < |s.threads| ==> ThreadSized(s.threads[i], n)
  }

  lemma TurnedSized<T>(s: State<T>, e: Event<T>)
    requires Sized(s) && Enabled(s, e) && Moves(e)
    ensures var n := Max(1, s.maxTasks);
            && ThreadSized(Turned(s, e), n) && Shared(s, e).maxTasks == s.maxTasks && |Shared(s, e).container| < n
            && (Shared(s, e).commander.Some? ==> |Shared(s, e).commander.value| == n)
  {
    assert ThreadSized(s.threads[e.i], Max(1, s.maxTasks));
  }

  lemma MoveSized<T>(s: State<T>, e: Event<T>)
    requires Sized(s) && Enabled(s, e) && Moves(e)
    ensures Sized(Next(s, e)) && Next(s, e).maxTasks == s.maxTasks
  {
    TurnedSized(s, e);
    hide Turned, Shared, Enabled, ThreadSized;
  }

  lemma AddSized<T>(s: State<T>, task: T)
    requires Sized(s)
    ensures Sized(Added(s, task)) && Added(s, task).maxTasks == s.maxTasks
  {}

  lemma StepSized<T>(s: State<T>, e: Event<T>)
    requires Sized(s) && Enabled(s, e)
    ensures Sized(Next(s, e)) && Next(s, e).maxTasks == s.maxTasks
  {
    if Moves(e) {
      hide Sized, Next;
      MoveSized(s, e);
    } else if e.AddCall? {
      hide Sized, Added;
      AddSized(s, e.task);
    } else if e.Spawn? || e.Confirm? {
      assert ThreadSized(s.threads[e.i], Max(1, s.maxTasks));
    }
  }

  lemma {:induction false} RunSized<T>(s: State<T>, es: seq<Event<T>>)
    requires Sized(s) && Legal(s, es)
    ensures Sized(Run(s, es)) && Run(s, es).maxTasks == s.maxTasks
    decreases |es|
  {
    hide Sized, Next, Enabled;
    if es != [] {
      StepSized(s, es[0]);
      RunSized(Next(s, es[0]), es[1..]);
    }
  }

  /** In every run a batch that an Add sends has exactly maxTasks tasks, or one when maxTasks is less than
      one, and the container never holds as many. */
  lemma BatchesAreFull<T>(maxTasks: int, es: seq<Event<T>>)
    requires Legal(Init<T>(maxTasks), es)
    ensures var s := Run(Init<T>(maxTasks), es);
            && |s.container| < Max(1, maxTasks)
            && forall i :: 0 <= i < |s.threads| && s.threads[i].Sending? ==> |s.threads[i].load| == Max(1, maxTasks)
  {
    hide Legal, Run;
    RunSized(Init<T>(maxTasks), es);
    var s := Run(Init<T>(maxTasks), es);
    forall i | 0 <= i < |s.threads| && s.threads[i].Sending? ensures |s.threads[i].load| == Max(1, maxTasks) {
      assert ThreadSized(s.threads[i], Max(1, maxTasks));
    }
  }

  // ---------- what each call does when nothing comes between ----------

  /** Add: the task is collected, or taken with all others as a batch when it fills the container; the first
      Add also starts the flusher. */
  lemma AddDoes<T>(s: State<T>, task: T) returns (es: seq<Event<T>>)
    ensures es == [AddCall(task)] + (if s.guarded then [] else [Spawn(|s.threads|)]) && Legal(s, es)
    ensures var full := |s.container| + 1 >= s.maxTasks;
            var tasks := s.container + [task];
            Run(s, es) == s.(container := if full then [] else tasks, inflight := s.inflight + Bit(full),
                             guarded := true, added := s.added + multiset{task},
                             threads := s.threads + [if full then Sending(tasks) else Done]
                                        + (if s.guarded then [] else [Loop(false)]))
  {
    hide Legal, Run;
    NoSteps(s);
    es := Extend(s, [], AddCall(task));
    if !s.guarded { es := Extend(s, es, Spawn(|s.threads|)); }
  }

  /** A batch that is sent to an idle flusher is executed, its adder returns, and the first tick after it
      does not flush. */
  lemma BatchDoes<T>(s: State<T>, i: nat, j: nat) returns (es: seq<Event<T>>)
    requires i < |s.threads| && s.threads[i].Loop? && j < |s.threads| && s.threads[j].Sending?
    requires s.commander.None? && !s.barrier
    ensures Legal(s, es)
    ensures es == [Send(j), Receive(i), Decrement(i), Enter(i), Confirm(i, j), Execute(i), Leave(i), Tick(i)]
    ensures Run(s, es) == s.(inflight := s.inflight - 1, executed := s.executed + multiset(s.threads[j].load),
                             threads := s.threads[i := Loop(false)][j := Done])
  {
    hide Legal, Run;
    es := BatchEnters(s, i, j);
    es := Extend(s, es, Confirm(i, j));
    es := ExecuteAndLeave(s, es, i);
    es := Extend(s, es, Tick(i));
    assert Run(s, es).threads == s.threads[i := Loop(false)][j := Done];
  }

  lemma BatchEnters<T>(s: State<T>, i: nat, j: nat) returns (es: seq<Event<T>>)
    requires i < |s.threads| && s.threads[i].Loop? && j < |s.threads| && s.threads[j].Sending?
    requires s.commander.None? && !s.barrier
    ensures es == [Send(j), Receive(i), Decrement(i), Enter(i)] && Legal(s, es)
    ensures Run(s, es) == s.(inflight := s.inflight - 1, waitGroup := s.waitGroup + 1,
                             threads := s.threads[i := Confirmer(s.threads[j].load)][j := Confirming])
  {
    hide Legal, Run;
    NoSteps(s);
    es := Extend(s, [], Send(j));
    es := Extend(s, es, Receive(i));
    es := Extend(s, es, Decrement(i));
    es := Extend(s, es, Enter(i));
    assert Run(s, es).threads == s.threads[i := Confirmer(s.threads[j].load)][j := Confirming];
  }

  /** A flush executes what it finds. An external one returns, one inside Wait goes on to the barrier, one on
      a tick goes back to the loop or, having found nothing, checks whether to quit; a final one ends. */
  lemma FlushDoes<T>(s: State<T>, i: nat) returns (es: seq<Event<T>>)
    requires i < |s.threads| && s.threads[i].Entering? && !s.barrier
    ensures es == [EnterFlush(i), Remove(i), Execute(i), Leave(i)] && Legal(s, es)
    ensures var t: Thread<T> := match s.threads[i].why
                     case OnTick => if s.container != [] then Loop(false) else QuitCheck
                     case ForWait => WaitingForBarrier
                     case Command => Loop(true)
                     case _ => Done;
            Run(s, es) == s.(container := [], executed := s.executed + multiset(s.container),
                             threads := s.threads[i := t])
  {
    hide Legal, Run;
    NoSteps(s);
    es := EnterAndRemove(s, [], i);
    es := ExecuteAndLeave(s, es, i);
  }

  /** Flush, and Wait when nobody is in the wait group: both return with the container executed. */
  lemma FlushCallDoes<T>(s: State<T>) returns (es: seq<Event<T>>)
    requires !s.barrier
    ensures var i := |s.threads|;
            es == [FlushCall, EnterFlush(i), Remove(i), Execute(i), Leave(i)] && Legal(s, es)
    ensures Run(s, es) == s.(container := [], executed := s.executed + multiset(s.container),
                             threads := s.threads + [Done])
  {
    hide Legal, Run;
    NoSteps(s);
    es := Extend(s, [], FlushCall);
    var flush := FlushDoes(Run(s, es), |s.threads|);
    RunConcat(s, es, flush);
    es := es + flush;
  }

  lemma WaitCallDoes<T>(s: State<T>) returns (es: seq<Event<T>>)
    requires !s.barrier && s.waitGroup == 0
    ensures var i := |s.threads|;
            && es == [WaitCall, EnterFlush(i), Remove(i), Execute(i), Leave(i), LockBarrier(i), WaitReturn(i)]
            && Legal(s, es)
    ensures Run(s, es) == s.(container := [], executed := s.executed + multiset(s.container),
                             threads := s.threads + [Done])
  {
    hide Legal, Run;
    NoSteps(s);
    es := Extend(s, [], WaitCall);
    var flush := FlushDoes(Run(s, es), |s.threads|);
    RunConcat(s, es, flush);
    es := es + flush;
    es := LockAndReturn(s, es, |s.threads|);
    assert Run(s, es).threads == s.threads + [Done];
  }

  lemma LockAndReturn<T>(s: State<T>, es: seq<Event<T>>, i: nat) returns (fs: seq<Event<T>>)
    requires Legal(s, es) && i < |Run(s, es).threads| && Run(s, es).threads[i] == WaitingForBarrier
    requires !Run(s, es).barrier && Run(s, es).waitGroup == 0
    ensures fs == es + [LockBarrier(i), WaitReturn(i)] && Legal(s, fs)
    ensures Run(s, fs) == Run(s, es).(threads := Run(s, es).threads[i := Done])
  {
    hide Legal, Run;
    fs := Extend(s, es, LockBarrier(i));
    fs := Extend(s, fs, WaitReturn(i));
  }

  /** A flusher that has been idle long enough quits exactly when no batch is in flight; it then flushes once
      more, and the next Add starts another. */
  lemma QuitDoes<T>(s: State<T>, i: nat, idle: bool) returns (es: seq<Event<T>>)
    requires i < |s.threads| && s.threads[i].QuitCheck? && !s.barrier
    ensures Legal(s, es) && es != [] && es[0] == Quit(i, idle)
    ensures if idle && s.inflight == 0
            then Run(s, es) == s.(guarded := false, container := [], executed := s.executed + multiset(s.container),
                                  threads := s.threads[i := Done])
            else es == [Quit(i, idle)] && Run(s, es) == s.(threads := s.threads[i := Loop(false)])
  {
    hide Legal, Run;
    NoSteps(s);
    es := Extend(s, [], Quit(i, idle));
    if idle && s.inflight == 0 {
      var s1 := Run(s, es);
      var flush := FlushDoes(s1, i);
      RunConcat(s, es, flush);
      es := es + flush;
    }
  }

  /** While a Wait holds the barrier nobody enters the wait group, so it waits for those inside only. */
  lemma BarrierHolds<T>(s: State<T>, e: Event<T>)
    requires Enabled(s, e) && s.barrier
    ensures Next(s, e).waitGroup <= s.waitGroup
  {}

  // ---------- what Wait waits for ----------

  lemma OfRelations<T>(t: Thread<T>, x: T)
    ensures NonNegative(Of(t, x))
    ensures Of(t, x).raised == 0 ==> Of(t, x).covered == 0
    ensures Of(t, x).asking <= Of(t, x).adders
    ensures Of(t, x).adders == 0 && Of(t, x).owing == 0 ==> Of(t, x).exposed == 0
  {}

  /** Nothing is covered outside the wait group, and with no Add in flight no batch is on its way
      to the flusher. */
  lemma {:induction false} TotalRelations<T>(threads: seq<Thread<T>>, x: T)
    ensures var t := Total(threads, x);
            && NonNegative(t)
            && (t.raised == 0 ==> t.covered == 0)
            && t.asking <= t.adders
            && (t.adders == 0 && t.owing == 0 ==> t.exposed == 0)
  {
    hide Of;
    if threads != [] {
      TotalRelations(threads[..|threads| - 1], x);
      OfRelations(threads[|threads| - 1], x);
    }
  }

  /** Whatever was executed or inside the wait group at some moment is executed when a later
      Wait returns. */
  lemma SettledIsExecuted<T(!new)>(s: State<T>, es: seq<Event<T>>, i: nat, x: T)
    requires Inv(s) && Legal(s, es) && Enabled(Run(s, es), WaitReturn(i))
    ensures Settled(s, x) <= Run(s, es).executed[x]
  {
    hide Total, Legal, Run;
    RunKeepsInv(s, es);
    assert InvAt(Run(s, es), x);
    TotalRelations(Run(s, es).threads, x);
  }

  /** Wait's promise to its caller: if no Add is in flight when the flush inside Wait empties the
      container, every task added before that has been executed when Wait returns. */
  lemma WaitWaitsForAll<T(!new)>(s: State<T>, i: nat, es: seq<Event<T>>, x: T)
    requires Inv(s) && Enabled(s, Remove(i)) && Total(s.threads, x).adders == 0
    requires Legal(Next(s, Remove(i)), es) && Enabled(Run(Next(s, Remove(i)), es), WaitReturn(i))
    ensures Run(Next(s, Remove(i)), es).executed[x] >= s.added[x]
  {
    hide Legal, Run;
    var s1 := Next(s, Remove(i));
    AfterRemove(s, i, x);
    KeepsInv(s, Remove(i));
    SettledIsExecuted(s1, es, i, x);
    assert InvAt(s, x);
    TotalRelations(s.threads, x);
  }

  /** Just after the container was emptied, everything but the exposed batches is settled. */
  lemma AfterRemove<T(!new)>(s: State<T>, i: nat, x: T)
    requires Inv(s) && Enabled(s, Remove(i))
    ensures var s1 := Next(s, Remove(i));
            && Settled(s1, x) == s.added[x] - InChannel(s.commander, x) - Total(s.threads, x).exposed
            && Total(s1.threads, x).exposed == Total(s.threads, x).exposed
  {
    hide Total;
    assert InvAt(s, x);
    TotalUpdate(s.threads, i, Running(s.container, s.threads[i].why), x);
  }

  /** One step of draining the wait group touches neither the channel nor an exposed batch. */
  lemma DrainStep<T(!new)>(s: State<T>, e: Event<T>, x: T)
    requires Inv(s) && Enabled(s, e) && (e.Confirm? || e.Remove? || e.Execute? || e.Leave?)
    ensures var s' := Next(s, e);
            && Total(s'.threads, x).steps < Total(s.threads, x).steps
            && Total(s'.threads, x).exposed == Total(s.threads, x).exposed
            && s'.commander == s.commander && s'.added == s.added && |s'.threads| == |s.threads|
            && (s.container == [] ==> s'.container == [])
  {
    hide Total, Of;
    if e.Confirm? {
      ConfirmLowers(s, e.i, e.j, x);
    } else {
      Recount(s, e, x);
      MoveLowers(s, e, x);
      MoveKeepsExposed(s, e, x);
    }
  }

  lemma MoveKeepsExposed<T>(s: State<T>, e: Event<T>, x: T)
    requires Enabled(s, e) && (e.Remove? || e.Execute? || e.Leave?)
    ensures e.i < |s.threads| && Of(Turned(s, e), x).exposed == Of(s.threads[e.i], x).exposed
    ensures Shared(s, e).commander == s.commander && Shared(s, e).added == s.added
    ensures s.container == [] ==> Shared(s, e).container == []
  {}

  /** The thread of a Wait call after its flush emptied the container. */
  predicate InWait<T>(t: Thread<T>) {
    (t.Running? && t.why == ForWait) || (t.Ran? && t.why == ForWait) || t.WaitingForBarrier?
  }

  /** The wait group can be drained without moving any exposed batch. A Wait call that has not begun
      its flush stays there. */
  lemma {:induction false} Drain<T(!new)>(s: State<T>, i: nat, x: T) returns (es: seq<Event<T>>)
    requires Inv(s) && i < |s.threads| && (InWait(s.threads[i]) || s.threads[i] == Entering(ForWait))
    ensures Legal(s, es)
    ensures var s' := Run(s, es);
            && Inv(s') && s'.waitGroup == 0 && i < |s'.threads|
            && s'.threads[i] == (if InWait(s.threads[i]) then WaitingForBarrier else Entering(ForWait))
            && Total(s'.threads, x).exposed == Total(s.threads, x).exposed
            && s'.commander == s.commander && s'.added == s.added && (s.container == [] ==> s'.container == [])
    decreases Total(s.threads, x).steps
  {
    hide Total, Of;
    assert InvAt(s, x);
    TotalNonNegative(s.threads, x);
    if s.waitGroup == 0 {
      es := [];
      Contributes(s.threads, x, Raised, i);
      if InWait(s.threads[i]) { InWaitIsRaised(s.threads[i], x); }
    } else {
      hide Next, Enabled, Inv;
      var e := WaitGroupMoves(s, x);
      KeepsInv(s, e);
      DrainStep(s, e, x);
      DrainThread(s, e, i);
      var rest := Drain(Next(s, e), i, x);
      es := [e] + rest;
      assert es[1..] == rest;
    }
  }

  /** Draining moves a Wait call nowhere but towards the barrier. */
  lemma DrainThread<T>(s: State<T>, e: Event<T>, i: nat)
    requires Enabled(s, e) && (e.Confirm? || e.Remove? || e.Execute? || e.Leave?) && i < |s.threads|
    ensures i < |Next(s, e).threads|
    ensures InWait(s.threads[i]) ==> InWait(Next(s, e).threads[i])
    ensures s.threads[i] == Entering(ForWait) ==> Next(s, e).threads[i] == Entering(ForWait)
  {}

  lemma InWaitIsRaised<T>(t: Thread<T>, x: T)
    requires InWait(t)
    ensures Of(t, x).raised > 0 || t == WaitingForBarrier
  {}

  /** From there Wait can return at once, whatever else is pending. */
  lemma ReturnNow<T(!new)>(s: State<T>, i: nat, x: T) returns (es: seq<Event<T>>)
    requires Inv(s) && s.waitGroup == 0 && i < |s.threads| && s.threads[i] == WaitingForBarrier
    ensures Legal(s, es) && Enabled(Run(s, es), WaitReturn(i)) && Run(s, es).executed == s.executed
  {
    hide Total, Of, Legal, Run;
    assert InvAt(s, x);
    NoSteps(s);
    es := [];
    if s.barrier {
      var j := Witness(s.threads, x, Waiters);
      WaiterWaits(s.threads[j], x);
      es := Extend(s, es, WaitReturn(j));
    }
    es := Extend(s, es, LockBarrier(i));
  }

  /** If an occurrence of x was exposed when the container was emptied, Wait may return without it. */
  lemma WaitMayMiss<T(!new)>(s: State<T>, i: nat, x: T) returns (es: seq<Event<T>>)
    requires Inv(s) && Enabled(s, Remove(i)) && s.threads[i].why == ForWait
    ensures var s1 := Next(s, Remove(i));
            && Legal(s1, es) && Enabled(Run(s1, es), WaitReturn(i))
            && Run(s1, es).executed[x] <= Settled(s1, x)
  {
    hide Total, Legal, Run;
    var s1 := Next(s, Remove(i));
    KeepsInv(s, Remove(i));
    AfterRemove(s, i, x);
    var drain := Drain(s1, i, x);
    var s2 := Run(s1, drain);
    var finish := ReturnNow(s2, i, x);
    RunConcat(s1, drain, finish);
    es := drain + finish;
    assert InvAt(s2, x);
    TotalNonNegative(s2.threads, x);
  }

  /** Exactly what Wait guarantees. Once its flush has emptied the container, every continuation
      returns with all of `tasks` executed if and only if none of them is in an exposed batch. */
  lemma WaitExactly<T(!new)>(s: State<T>, i: nat, tasks: multiset<T>)
    requires Inv(s) && Enabled(s, Remove(i)) && s.threads[i].why == ForWait
    ensures var s1 := Next(s, Remove(i));
            (forall es :: Legal(s1, es) && Enabled(Run(s1, es), WaitReturn(i)) ==> tasks <= Run(s1, es).executed)
            <==> (forall x: T :: tasks[x] <= Settled(s1, x))
  {
    hide Total, Legal, Run, Settled, Enabled, Next;
    var s1 := Next(s, Remove(i));
    KeepsInv(s, Remove(i));
    if forall x: T :: tasks[x] <= Settled(s1, x) {
      forall es | Legal(s1, es) && Enabled(Run(s1, es), WaitReturn(i)) ensures tasks <= Run(s1, es).executed {
        forall x: T ensures tasks[x] <= Run(s1, es).executed[x] {
          SettledIsExecuted(s1, es, i, x);
        }
      }
    } else {
      var x: T :| tasks[x] > Settled(s1, x);
      var es := WaitMayMiss(s, i, x);
    }
  }

  // ---------- what the caller of Wait can rely on ----------

  /** New Adds can take whatever is in the container on its way in a batch. */
  lemma {:induction false} FillContainer<T(!new)>(s: State<T>, x: T) returns (es: seq<Event<T>>)
    requires Inv(s)
    ensures Legal(s, es)
    ensures var s' := Run(s, es);
            && Inv(s') && s'.container == [] && Settled(s', x) == Settled(s, x)
            && |s.threads| <= |s'.threads| && s'.threads[..|s.threads|] == s.threads
    decreases if s.container == [] then 0 else 1 + Max(0, s.maxTasks - |s.container|)
  {
    hide Total, Of, Settled;
    if s.container == [] {
      es := [];
    } else {
      var s1 := Next(s, AddCall(x));
      KeepsInv(s, AddCall(x));
      assert InvAt(s, x);
      AddKeepsInv(s, x, x);
      var rest := FillContainer(s1, x);
      es := [AddCall(x)] + rest;
      assert es[1..] == rest;
      assert s1.threads[..|s.threads|] == s.threads;
      var s' := Run(s1, rest);
      assert s'.threads[..|s.threads|] == s'.threads[..|s1.threads|][..|s.threads|];
    }
  }

  /** What is neither executed nor inside the wait group. */
  lemma SettledIsTheRest<T(!new)>(s: State<T>, x: T)
    requires Inv(s)
    ensures Settled(s, x)
         == s.added[x] - multiset(s.container)[x] - InChannel(s.commander, x) - Total(s.threads, x).exposed
  {
    hide Total;
    assert InvAt(s, x);
  }

  /** Wait's flush can come to the point where it empties the container. */
  lemma ReachFlush<T(!new)>(s: State<T>, i: nat, x: T) returns (es: seq<Event<T>>)
    requires Inv(s) && i < |s.threads| && s.threads[i] == Entering(ForWait) && s.container == []
    ensures Legal(s, es)
    ensures var s' := Run(s, es);
            && Inv(s') && i < |s'.threads| && s'.threads[i] == Removing(ForWait)
            && s'.container == [] && Settled(s', x) == Settled(s, x)
  {
    hide Total, Legal, Run, Of, Settled;
    es := Drain(s, i, x);
    SettledIsTheRest(s, x);
    SettledIsTheRest(Run(s, es), x);
    if Run(s, es).barrier {
      assert InvAt(Run(s, es), x);
      var j := Witness(Run(s, es).threads, x, Waiters);
      assert Run(s, es).threads[j].Waiting? by { WaiterWaits(Run(s, es).threads[j], x); }
      MoveKeepsInv(Run(s, es), WaitReturn(j), x);
      KeepsInv(Run(s, es), WaitReturn(j));
      es := Extend(s, es, WaitReturn(j));
    }
    assert InvAt(Run(s, es), x);
    MoveKeepsInv(Run(s, es), EnterFlush(i), x);
    KeepsInv(Run(s, es), EnterFlush(i));
    es := Extend(s, es, EnterFlush(i));
  }

  lemma WaiterWaits<T>(t: Thread<T>, x: T)
    requires Pick(Of(t, x), Waiters) > 0
    ensures t.Waiting?
  {}

  /** A task that is not executed or inside the wait group when Wait is called can be missed: other
      Adds may take it on its way before Wait's flush gets to it. */
  lemma CallMayMiss<T(!new)>(s: State<T>, x: T) returns (es: seq<Event<T>>)
    requires Inv(s)
    ensures var s1 := Next(s, WaitCall);
            && Legal(s1, es) && Enabled(Run(s1, es), WaitReturn(|s.threads|))
            && Run(s1, es).executed[x] <= Settled(s, x)
  {
    hide Total, Legal, Run, Of, Settled;
    var i, s1 := |s.threads|, Next(s, WaitCall);
    KeepsInv(s, WaitCall);
    assert InvAt(s, x);
    CallKeepsInv(s, ForWait, x);
    es := FillContainer(s1, x);
    assert Run(s1, es).threads[i] == s1.threads[i];
    var reach := ReachFlush(Run(s1, es), i, x);
    RunConcat(s1, es, reach);
    es := es + reach;
    var s2 := Run(s1, es);
    SettledIsTheRest(s2, x);
    AfterRemove(s2, i, x);
    var miss := WaitMayMiss(s2, i, x);
    es := Extend(s1, es, Remove(i));
    RunConcat(s1, es, miss);
    es := es + miss;
  }

  /** Exactly what a caller of Wait can rely on, whatever else happens: every continuation returns
      with all of `tasks` executed if and only if, when Wait is called, each of them is executed or
      inside the wait group. */
  lemma WaitExactlyAtCall<T(!new)>(s: State<T>, tasks: multiset<T>)
    requires Inv(s)
    ensures var s1 := Next(s, WaitCall);
            (forall es :: Legal(s1, es) && Enabled(Run(s1, es), WaitReturn(|s.threads|)) ==>
               tasks <= Run(s1, es).executed)
            <==> (forall x: T :: tasks[x] <= Settled(s, x))
  {
    var s1, i := Next(s, WaitCall), |s.threads|;
    hide Total, Legal, Run, Settled, Enabled, Next;
    KeepsInv(s, WaitCall);
    if forall x: T :: tasks[x] <= Settled(s, x) {
      forall es | Legal(s1, es) && Enabled(Run(s1, es), WaitReturn(i)) ensures tasks <= Run(s1, es).executed {
        forall x: T ensures tasks[x] <= Run(s1, es).executed[x] {
          SettledIsExecuted(s1, es, i, x);
        }
      }
    } else {
      var x: T :| tasks[x] > Settled(s, x);
      var es := CallMayMiss(s, x);
    }
  }

  /** Where the thread of a Wait call is: before its flush empties the container, or past it. */
  ghost predicate Underway<T>(s: State<T>, i: nat, x: T, goal: int) {
    && i < |s.threads| && Total(s.threads, x).adders == 0 && s.added[x] == goal
    && var t := s.threads[i];
    (|| t == Entering(ForWait) || t == Removing(ForWait)
     || ((InWait(t) || t.Waiting? || t.Done?) && Settled(s, x) >= goal))
  }

  lemma NoAdderAppears<T>(s: State<T>, e: Event<T>, x: T)
    requires Enabled(s, e) && !e.AddCall? && Total(s.threads, x).adders == 0
    ensures Total(Next(s, e).threads, x).adders == 0 && Next(s, e).added == s.added
    ensures !e.Spawn? && !e.Send? && !e.Confirm?
  {
    hide Total, Of;
    if e.FlushCall? {
      CallAddsNone(s.threads, External, x);
    } else if e.WaitCall? {
      CallAddsNone(s.threads, ForWait, x);
    } else {
      if e.Spawn? || e.Send? || e.Confirm? {
        AddersAre(s, e, x);
        Contributes(s.threads, x, Adders, if e.Confirm? then e.j else e.i);
      } else {
        OthersAreNone(s, e);
        AddersCounted(Turned(s, e), x);
        Recount(s, e, x);
        OfNonNegative(s.threads[e.i], x);
      }
    }
  }

  lemma CallAddsNone<T>(threads: seq<Thread<T>>, why: Purpose, x: T)
    ensures Total(threads + [Entering(why)], x).adders == Total(threads, x).adders
  {
    hide Total;
    TotalAppend(threads, Entering(why), x);
  }

  /** Which steps only an adder can take. */
  lemma AddersAre<T>(s: State<T>, e: Event<T>, x: T)
    requires Enabled(s, e) && (e.Spawn? || e.Send? || e.Confirm?)
    ensures e.i < |s.threads| && (!e.Confirm? ==> Of(s.threads[e.i], x).adders > 0)
    ensures e.Confirm? ==> e.j < |s.threads| && Of(s.threads[e.j], x).adders > 0
  {}

  /** The others leave the thread no adder. */
  lemma OthersAreNone<T>(s: State<T>, e: Event<T>)
    requires Enabled(s, e) && Moves(e) && !e.Send?
    ensures e.i < |s.threads| && !IsAdder(Turned(s, e)) && Shared(s, e).added == s.added
  {}

  predicate IsAdder<T>(t: Thread<T>) {
    t.Spawning? || t.Sending? || t.Confirming?
  }

  lemma AddersCounted<T>(t: Thread<T>, x: T)
    ensures Of(t, x).adders == Bit(IsAdder(t))
  {}

  /** The thread of a Wait call goes its way step by step. */
  ghost predicate GoesOn<T>(t: Thread<T>, t': Thread<T>, removes: bool) {
    && (t == Entering(ForWait) ==> t' == t || t' == Removing(ForWait))
    && (t == Removing(ForWait) ==> if removes then InWait(t') else t' == t)
    && (InWait(t) || t.Waiting? || t.Done? ==> InWait(t') || t'.Waiting? || t'.Done?)
  }

  lemma WaitThreadTurns<T>(s: State<T>, e: Event<T>)
    requires Enabled(s, e) && Moves(e) && !e.Send?
    ensures e.i < |s.threads| && GoesOn(s.threads[e.i], Turned(s, e), e == Remove(e.i))
  {}

  lemma WaitThreadGoes<T>(s: State<T>, e: Event<T>, i: nat)
    requires Enabled(s, e) && i < |s.threads| && !e.AddCall? && !e.Spawn? && !e.Send? && !e.Confirm?
    ensures i < |Next(s, e).threads| && GoesOn(s.threads[i], Next(s, e).threads[i], e == Remove(i))
  {
    hide Turned, Shared, InWait;
    if Moves(e) { WaitThreadTurns(s, e); }
  }

  lemma StaysUnderway<T(!new)>(s: State<T>, e: Event<T>, i: nat, x: T, goal: int)
    requires Inv(s) && Enabled(s, e) && !e.AddCall? && Underway(s, i, x, goal)
    ensures Underway(Next(s, e), i, x, goal)
  {
    hide Total, Of, Settled;
    NoAdderAppears(s, e, x);
    WaitThreadGoes(s, e, i);
    KeepsInv(s, e);
    if e == Remove(i) {
      AfterRemove(s, i, x);
      assert InvAt(s, x);
      TotalRelations(s.threads, x);
    }
  }

  lemma {:induction false} RunStaysUnderway<T(!new)>(s: State<T>, es: seq<Event<T>>, i: nat, x: T, goal: int)
    requires Inv(s) && Legal(s, es) && Underway(s, i, x, goal) && forall k :: 0 <= k < |es| ==> !es[k].AddCall?
    ensures Underway(Run(s, es), i, x, goal)
    decreases |es|
  {
    hide Underway, Enabled, Next, Inv;
    if es != [] {
      KeepsInv(s, es[0]);
      StaysUnderway(s, es[0], i, x, goal);
      RunStaysUnderway(Next(s, es[0]), es[1..], i, x, goal);
    }
  }

  /** A Wait that no Add overlaps, neither one in flight when it is called nor a later one, returns
      with everything executed. */
  lemma WaitAlone<T(!new)>(s: State<T>, es: seq<Event<T>>, x: T)
    requires Inv(s) && Total(s.threads, x).adders == 0
    requires Legal(Next(s, WaitCall), es) && forall k :: 0 <= k < |es| ==> !es[k].AddCall?
    requires Enabled(Run(Next(s, WaitCall), es), WaitReturn(|s.threads|))
    ensures Run(Next(s, WaitCall), es).executed[x] >= s.added[x]
  {
    hide Legal, Run, Total, Of;
    var s1, i := Next(s, WaitCall), |s.threads|;
    KeepsInv(s, WaitCall);
    NoAdderAppears(s, WaitCall, x);
    RunStaysUnderway(s1, es, i, x, s.added[x]);
    RunKeepsInv(s1, es);
    NoSteps(Run(s1, es));
    SettledIsExecuted(Run(s1, es), [], i, x);
  }

  /** The misses happen, with two tasks to a batch. Add(1) has returned before Add(2) begins; Add(2) is
      just sending the batch of both when Wait is called; Wait returns although task 1, whose Add has
      returned, was never executed. */
  lemma WaitCanReturnEarly() returns (es: seq<Event<int>>)
    ensures es == [AddCall(1), Spawn(0), AddCall(2), WaitCall,
                   EnterFlush(3), Remove(3), Execute(3), Leave(3), LockBarrier(3)]
    ensures Legal(Init<int>(2), es[..2]) && Run(Init<int>(2), es[..2]).threads == [Done, Loop(false)]
    ensures Legal(Init<int>(2), es) && Enabled(Run(Init<int>(2), es), WaitReturn(3))
    ensures Run(Init<int>(2), es).executed == multiset{}
  {
    hide Legal, Run;
    var s := Init<int>(2);
    es := FirstAdd();
    assert [1] + [2] == [1, 2];
    es := Extend(s, es, AddCall(2));
    assert Run(s, es).threads == [Done, Loop(false), Sending([1, 2])];
    es := Extend(s, es, WaitCall);
    es := EnterAndRemove(s, es, 3);
    assert Run(s, es).threads == [Done, Loop(false), Sending([1, 2]), Running([], ForWait)];
    es := FinishWait(s, es, 3);
    assert es[..2] == [AddCall(1), Spawn(0)];
  }

  /** The same when no Add is in flight at the call, but Add(2) is called before Wait's flush. */
  lemma WaitCanMissALaterAdd() returns (es: seq<Event<int>>)
    ensures es == [AddCall(1), Spawn(0), WaitCall, AddCall(2),
                   EnterFlush(2), Remove(2), Execute(2), Leave(2), LockBarrier(2)]
    ensures Legal(Init<int>(2), es[..2]) && Run(Init<int>(2), es[..2]).threads == [Done, Loop(false)]
    ensures Legal(Init<int>(2), es) && Enabled(Run(Init<int>(2), es), WaitReturn(2))
    ensures Run(Init<int>(2), es).executed == multiset{}
  {
    hide Legal, Run;
    var s := Init<int>(2);
    es := FirstAdd();
    es := Extend(s, es, WaitCall);
    assert Run(s, es).container == [1] && [1] + [2] == [1, 2];
    es := Extend(s, es, AddCall(2));
    assert Run(s, es).threads == [Done, Loop(false), Entering(ForWait), Sending([1, 2])];
    es := EnterAndRemove(s, es, 2);
    assert Run(s, es).threads == [Done, Loop(false), Running([], ForWait), Sending([1, 2])];
    es := FinishWait(s, es, 2);
    assert es[..2] == [AddCall(1), Spawn(0)];
  }

  /** A Wait that found nothing to flush, with nobody else in the wait group or at the barrier. */
  lemma FinishWait(s: State<int>, es: seq<Event<int>>, i: nat) returns (fs: seq<Event<int>>)
    requires Legal(s, es)
    requires var r := Run(s, es);
             i < |r.threads| && r.threads[i] == Running([], ForWait) && r.waitGroup == 1 && !r.barrier
    ensures fs == es + [Execute(i), Leave(i), LockBarrier(i)]
    ensures Legal(s, fs) && Enabled(Run(s, fs), WaitReturn(i)) && Run(s, fs).executed == Run(s, es).executed
  {
    hide Legal, Run;
    fs := ExecuteAndLeave(s, es, i);
    fs := Extend(s, fs, LockBarrier(i));
  }

  /** Add(1), from its call to its return. */
  lemma FirstAdd() returns (es: seq<Event<int>>)
    ensures es == [AddCall(1), Spawn(0)] && Legal(Init<int>(2), es)
    ensures Run(Init<int>(2), es)
         == State(2, [1], true, 0, 0, false, None, [Done, Loop(false)], multiset{}, multiset{1})
  {
    hide Legal, Run;
    var s := Init<int>(2);
    NoSteps(s);
    es := Extend(s, [], AddCall(1));
    es := Extend(s, es, Spawn(0));
    assert Run(s, es).threads == [Done, Loop(false)];
    assert [] + [1] == [1];
  }

  lemma NoSteps<T>(s: State<T>)
    ensures Legal(s, []) && Run(s, []) == s
  {}

  lemma Extend<T>(s: State<T>, es: seq<Event<T>>, e: Event<T>) returns (fs: seq<Event<T>>)
    requires Legal(s, es) && Enabled(Run(s, es), e)
    ensures fs == es + [e] && Legal(s, fs) && Run(s, fs) == Next(Run(s, es), e)
  {
    hide Next, Enabled;
    assert [e][1..] == [];
    RunConcat(s, es, [e]);
    fs := es + [e];
  }
}
