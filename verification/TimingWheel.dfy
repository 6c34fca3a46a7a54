/** core/collection/timingwheel.go: the wheel itself. Entries are heap objects shared between a
    slot's list and the index; removal and moves are lazy, by flags on the entry. Each operation
    is proved to be the event of the same name in `WheelTheory`. */
module TimingWheels {
  import opened Arith
  import opened Options
  import opened SafeMaps
  import opened WheelTheory

  class Entry<K, V> {
    const key: K
    var value: V
    var circle: nat
    var diff: nat
    var removed: bool
    ghost var home: nat

    constructor (key: K, value: V, circle: nat, ghost home: nat)
      ensures this.key == key && this.value == value && this.circle == circle && this.home == home
      ensures diff == 0 && !removed
    {
      this.key, this.value, this.circle, this.home := key, value, circle, home;
      diff, removed := 0, false;
    }
  }

  /** positionEntry: where the index says an entry hangs. */
  datatype Place<K, V> = Place(pos: nat, item: Entry<K, V>)

  class TimingWheel<K(==), V> {
    const interval: nat
    const numSlots: nat
    var tickedPos: nat
    var slots: seq<seq<Entry<K, V>>>
    var timers: SafeMap<K, Place<K, V>>
    ghost var entries: set<Entry<K, V>>
    ghost var model: Wheel<K, V>

    /** Slot lists are disjoint and free of repetition. */
    ghost predicate SlotsOk()
      reads `slots, `tickedPos, `entries, entries`home
    {
      && 0 < numSlots == |slots| && tickedPos < numSlots && interval > 0
      && (forall p, j {:trigger slots[p][j]} :: 0 <= p < numSlots && 0 <= j < |slots[p]| ==>
            slots[p][j] in entries && slots[p][j].home == p)
      && (forall p, i, j {:trigger slots[p][i], slots[p][j]} ::
            0 <= p < numSlots && 0 <= i < j < |slots[p]| ==> slots[p][i] != slots[p][j])
    }

    /** Each indexed key has its live entry in the slot the index records, and the entry's fields
        are the timer of the model ... */
    ghost predicate Indexed(k: K)
      requires k in timers.Contents()
      reads this, timers, entries
    {
      var place := timers.Contents()[k];
      var e := place.item;
      && place.pos < |slots| && e in entries && e in slots[place.pos]
      && e.key == k && !e.removed && e.diff < numSlots
      && k in model.timers && model.timers[k] == Timer(e.value, place.pos, e.circle, e.diff)
    }

    /** ... and every live entry is the one its key is indexed by. */
    ghost predicate LiveIsIndexed(e: Entry<K, V>)
      requires e in entries
      reads this, timers, entries
    {
      !e.removed ==> e.key in timers.Contents() && timers.Contents()[e.key] == Place(e.home, e)
    }

    ghost predicate Valid()
      reads this, timers, entries
    {
      && timers.Valid() && SlotsOk()
      && model.slots == numSlots && model.interval == interval && model.ticked == tickedPos
      && model.timers.Keys == timers.Contents().Keys
      && (forall k {:trigger Indexed(k)} :: k in timers.Contents() ==> Indexed(k))
      && (forall e {:trigger LiveIsIndexed(e)} :: e in entries ==> LiveIsIndexed(e))
    }

    constructor (interval: nat, numSlots: nat)
      requires interval > 0 && numSlots > 0
      ensures Valid() && fresh(timers) && fresh(entries)
      ensures model == Wheel(numSlots, interval, numSlots - 1, map[])
    {
      this.interval, this.numSlots := interval, numSlots;
      tickedPos := numSlots - 1;
      slots := seq(numSlots, i => []);
      entries := {};
      model := Wheel(numSlots, interval, numSlots - 1, map[]);
      timers := new SafeMap<K, Place<K, V>>();
    }

    method PushBack(pos: nat, e: Entry<K, V>)
      requires SlotsOk() && pos < numSlots && e !in slots[pos] && e.home == pos
      modifies this`slots, this`entries
      ensures SlotsOk() && entries == old(entries) + {e}
      ensures slots == old(slots)[pos := old(slots[pos]) + [e]]
    {
      slots := slots[pos := slots[pos] + [e]];
      entries := entries + {e};
    }

    /** Push an entry for a key with no live entry to the back of a slot, and index it. */
    method Insert(pos: nat, e: Entry<K, V>)
      requires Valid() && pos < numSlots && e !in entries
      requires e.home == pos && !e.removed && e.diff < numSlots && e.key !in timers.Contents()
      modifies this`slots, this`entries, this`model, timers
      ensures Valid() && entries == old(entries) + {e}
      ensures model == old(model).(timers := old(model).timers[e.key := Timer(e.value, pos, e.circle, e.diff)])
    {
      hide SafeMap.Contents, SafeMap.Valid;
      ghost var l := |slots[pos]|;
      PushBack(pos, e);
      model := model.(timers := model.timers[e.key := Timer(e.value, pos, e.circle, e.diff)]);
      timers.Set(e.key, Place(pos, e));
      assert Indexed(e.key) by { assert slots[pos][l] == e; }
      forall k | k in timers.Contents() && k != e.key ensures Indexed(k) { assert old(Indexed(k)); }
      forall x | x in entries ensures LiveIsIndexed(x) {
        if x != e { assert old(LiveIsIndexed(x)); }
      }
    }

    /** A live entry gets new fields in place. */
    method Rewrite(e: Entry<K, V>, value: V, circle: nat, diff: nat)
      requires Valid() && e.key in timers.Contents() && timers.Contents()[e.key].item == e && diff < numSlots
      modifies e`value, e`circle, e`diff, this`model
      ensures Valid()
      ensures var m := old(model);
              model == m.(timers := m.timers[e.key := Timer(value, m.timers[e.key].pos, circle, diff)])
    {
      hide SafeMap.Contents, SafeMap.Valid;
      assert Indexed(e.key);
      e.value, e.circle, e.diff := value, circle, diff;
      model := model.(timers := model.timers[e.key := Timer(value, model.timers[e.key].pos, circle, diff)]);
      assert SlotsOk();
      hide SlotsOk;
      assert Indexed(e.key);
      forall k | k in timers.Contents() && k != e.key ensures Indexed(k) {
        assert old(Indexed(k));
        assert timers.Contents()[k].item != e;
      }
      forall x | x in entries ensures LiveIsIndexed(x) {
        assert old(LiveIsIndexed(x));
      }
    }

    /** Mark the live entry of `key` as removed; the slot keeps it until its next scan. */
    method RemoveTask(key: K)
      requires Valid()
      modifies this`model, timers, entries`removed
      ensures Valid() && old(model).Ok() && model == Apply(old(model), Remove(key)).0
    {
      hide SafeMap.Contents, SafeMap.Valid;
      ModelOk();
      var found := timers.Get(key);
      if found.None? {
        assert model.timers - {key} == model.timers;
        return;
      }
      assert Indexed(key);
      var e := found.value.item;
      e.removed := true;
      timers.Del(key);
      model := model.(timers := model.timers - {key});
      assert SlotsOk();
      forall k | k in timers.Contents() ensures Indexed(k) {
        assert old(Indexed(k));
      }
      forall x | x in entries ensures LiveIsIndexed(x) {
        assert old(LiveIsIndexed(x));
      }
    }

    lemma ModelOk()
      requires Valid()
      ensures model.Ok()
    {
      forall k | k in model.timers ensures model.timers[k].pos < numSlots && model.timers[k].diff < numSlots {
        assert Indexed(k);
      }
    }

    /** The last branch of moveTask: abandon the old entry and insert a new one. */
    method Reinsert(old0: Entry<K, V>, pos: nat, e: Entry<K, V>)
      requires Valid() && pos < numSlots && e !in entries && old0.key == e.key
      requires e.home == pos && !e.removed && e.circle == 0 && e.diff == 0
      requires e.key in timers.Contents() && timers.Contents()[e.key].item == old0
      modifies this`slots, this`entries, this`model, timers, old0`removed
      ensures Valid() && entries == old(entries) + {e}
      ensures model == old(model).(timers := old(model).timers[e.key := Timer(e.value, pos, 0, 0)])
    {
      hide SafeMap.Contents, SafeMap.Valid;
      assert Indexed(e.key);
      ghost var l := |slots[pos]|;
      old0.removed := true;
      PushBack(pos, e);
      hide SlotsOk;
      model := model.(timers := model.timers[e.key := Timer(e.value, pos, 0, 0)]);
      timers.Set(e.key, Place(pos, e));
      assert Indexed(e.key) by { assert slots[pos][l] == e; }
      forall k | k in timers.Contents() && k != e.key ensures Indexed(k) { assert old(Indexed(k)); }
      forall x | x in entries ensures LiveIsIndexed(x) {
        if x != e { assert old(LiveIsIndexed(x)); }
      }
    }

    /** moveTask. A move by less than one interval executes at once. */
    method MoveTask(key: K, delay: nat) returns (tasks: seq<(K, V)>)
      requires Valid() && delay > 0
      modifies this`slots, this`entries, this`model, timers, entries
      ensures Valid() && fresh(entries - old(entries)) && old(entries) <= entries
      ensures old(model).Ok() && model == Apply(old(model), Move(key, delay)).0
      ensures Lists(tasks, Apply(old(model), Move(key, delay)).1)
    {
      hide SafeMap.Contents, SafeMap.Valid, SlotsOk, LiveIsIndexed, Position, Circle, Steps;
      ModelOk();
      tasks := [];
      var found := timers.Get(key);
      if found.None? { return; }
      assert Indexed(key);
      var e := found.value.item;
      if delay < interval {
        tasks := [(key, e.value)];
        return;
      }
      var steps := Steps(interval, delay);
      var pos, circle := Position(tickedPos, numSlots, steps), Circle(numSlots, steps);
      if pos >= found.value.pos {
        Rewrite(e, e.value, circle, pos - found.value.pos);
      } else if circle > 0 {
        Rewrite(e, e.value, circle - 1, numSlots + pos - found.value.pos);
      } else {
        var item := new Entry(key, e.value, 0, pos);
        Reinsert(e, pos, item);
      }
    }

    /** setTask: a new entry, or a new value and a move for a known key. */
    method SetTask(key: K, value: V, delay: nat)
      requires Valid() && delay > 0
      modifies this`slots, this`entries, this`model, timers, entries
      ensures Valid() && fresh(entries - old(entries)) && old(entries) <= entries
      ensures old(model).Ok() && model == Apply(old(model), Set(key, value, delay)).0
    {
      ModelOk();
      var d := Max(delay, interval);
      var found := timers.Get(key);
      if found.Some? {
        assert Indexed(key);
        var e := found.value.item;
        Rewrite(e, value, e.circle, e.diff);
        ghost var m := model;
        var none := MoveTask(key, d);
        assert old(model).timers[key := model.timers[key]] == m.timers[key := model.timers[key]];
      } else {
        var steps := Steps(interval, d);
        var pos, circle := Position(tickedPos, numSlots, steps), Circle(numSlots, steps);
        var e := new Entry(key, value, circle, pos);
        Insert(pos, e);
      }
    }

    /** SetTimer and MoveTimer refuse a delay that is not positive. */
    method SetTimer(key: K, value: V, delay: int) returns (ok: bool)
      requires Valid()
      modifies this`slots, this`entries, this`model, timers, entries
      ensures Valid() && fresh(entries - old(entries)) && old(entries) <= entries
      ensures old(model).Ok() && model == Apply(old(model), Set(key, value, delay)).0
      ensures ok <==> delay > 0
      ensures !ok ==> model == old(model)
    {
      ModelOk();
      ok := delay > 0;
      if ok {
        SetTask(key, value, delay);
      }
    }

    method MoveTimer(key: K, delay: int) returns (ok: bool, tasks: seq<(K, V)>)
      requires Valid()
      modifies this`slots, this`entries, this`model, timers, entries
      ensures Valid() && fresh(entries - old(entries)) && old(entries) <= entries
      ensures old(model).Ok() && model == Apply(old(model), Move(key, delay)).0
      ensures Lists(tasks, Apply(old(model), Move(key, delay)).1)
      ensures ok <==> delay > 0
      ensures !ok || key !in old(model).timers ==> model == old(model) && tasks == []
    {
      ModelOk();
      ok, tasks := delay > 0, [];
      if ok {
        tasks := MoveTask(key, delay);
        NothingListed(tasks, Apply(old(model), Move(key, delay)).1);
      }
    }

    // ---------- onTick ----------

    /** list.Remove */
    method RemoveAt(p: nat, j: nat)
      requires SlotsOk() && p < numSlots && j < |slots[p]|
      modifies this`slots, this`entries
      ensures SlotsOk() && entries == old(entries) - {old(slots[p][j])}
      ensures slots == old(slots)[p := Without(old(slots[p]), j)] && old(slots[p][j]) !in slots[p]
    {
      entries := entries - {slots[p][j]};
      slots := slots[p := Without(slots[p], j)];
      forall q, i | 0 <= q < numSlots && 0 <= i < |slots[q]|
        ensures slots[q][i] == old(slots)[q][if q == p && i >= j then i + 1 else i] {}
    }

    /** From one slot's list to the back of another's. */
    method Transfer(p: nat, j: nat, e: Entry<K, V>, q: nat)
      requires SlotsOk() && p < numSlots && q < numSlots && p != q && j < |slots[p]| && e == slots[p][j] && e in entries
      modifies this`slots, this`entries, e`home
      ensures SlotsOk() && entries == old(entries)
      ensures slots == old(slots)[p := Without(old(slots[p]), j)][q := old(slots[q]) + [e]]
    {
      RemoveAt(p, j);
      assert e !in slots[q];
      e.home := q;
      assert SlotsOk();
      PushBack(q, e);
    }

    /** An entry found removed leaves the list. */
    method DropRemoved(j: nat)
      requires Valid() && j < |slots[tickedPos]| && slots[tickedPos][j] in entries && slots[tickedPos][j].removed
      modifies this`slots, this`entries
      ensures Valid() && entries == old(entries) - {old(slots[tickedPos][j])}
      ensures slots[tickedPos] == Without(old(slots[tickedPos]), j)
    {
      hide SafeMap.Contents, SafeMap.Valid;
      RemoveAt(tickedPos, j);
      forall k | k in timers.Contents() ensures Indexed(k) {
        assert old(Indexed(k));
        if timers.Contents()[k].pos == tickedPos {
          StillThere(old(slots[tickedPos]), j, timers.Contents()[k].item);
        }
      }
      forall x | x in entries ensures LiveIsIndexed(x) {
        assert old(LiveIsIndexed(x));
      }
    }

    /** An entry that executes leaves the list and the index. */
    method Expire(j: nat)
      requires Valid() && j < |slots[tickedPos]| && slots[tickedPos][j] in entries && !slots[tickedPos][j].removed
      modifies this`slots, this`entries, this`model, timers
      ensures Valid() && entries == old(entries) - {old(slots[tickedPos][j])}
      ensures slots[tickedPos] == Without(old(slots[tickedPos]), j)
      ensures model == old(model).(timers := old(model).timers - {old(slots[tickedPos][j]).key})
    {
      hide SafeMap.Contents, SafeMap.Valid;
      var e := slots[tickedPos][j];
      assert LiveIsIndexed(e);
      RemoveAt(tickedPos, j);
      timers.Del(e.key);
      model := model.(timers := model.timers - {e.key});
      forall k | k in timers.Contents() ensures Indexed(k) {
        assert old(Indexed(k));
        if timers.Contents()[k].pos == tickedPos {
          StillThere(old(slots[tickedPos]), j, timers.Contents()[k].item);
        }
      }
      forall x | x in entries ensures LiveIsIndexed(x) {
        assert old(LiveIsIndexed(x));
      }
    }

    /** An entry with a pending move goes to another slot. */
    method Relocate(j: nat, e: Entry<K, V>, pos: nat)
      requires Valid() && j < |slots[tickedPos]| && e == slots[tickedPos][j] && e in entries && !e.removed
      requires pos < numSlots && pos != tickedPos
      modifies this`slots, this`entries, this`model, timers, e`home, e`diff
      ensures Valid() && slots[tickedPos] == Without(old(slots[tickedPos]), j) && entries == old(entries)
      ensures e.key in old(model).timers
      ensures var m := old(model);
              model == m.(timers := m.timers[e.key := m.timers[e.key].(pos := pos, diff := 0)])
    {
      hide SafeMap.Contents, SafeMap.Valid;
      assert LiveIsIndexed(e) && Indexed(e.key);
      ghost var l := |slots[pos]|;
      Transfer(tickedPos, j, e, pos);
      hide SlotsOk;
      e.diff := 0;
      timers.Set(e.key, Place(pos, e));
      model := model.(timers := model.timers[e.key := model.timers[e.key].(pos := pos, diff := 0)]);
      assert Indexed(e.key) by { assert slots[pos][l] == e; }
      forall k | k in timers.Contents() && k != e.key ensures Indexed(k) {
        assert old(Indexed(k));
        if timers.Contents()[k].pos == tickedPos {
          StillThere(old(slots[tickedPos]), j, timers.Contents()[k].item);
        }
      }
      forall x | x in entries ensures LiveIsIndexed(x) {
        if x != e { assert old(LiveIsIndexed(x)); }
      }
    }

    /** The body of the scan loop, for the entry at `j` of the slot under the hand. */
    method Visit(j: nat, e: Entry<K, V>) returns (next: nat, task: Option<(K, V)>)
      requires Valid() && j < |slots[tickedPos]| && slots[tickedPos][j] == e && e in entries
      modifies this`slots, this`entries, this`model, timers, e`value, e`circle, e`diff, e`home
      ensures Valid() && entries <= old(entries) && next <= |slots[tickedPos]|
      ensures slots[tickedPos][next..] == old(slots[tickedPos])[j + 1..]
      ensures slots[tickedPos][..next] == old(slots[tickedPos])[..j] + (if next == j then [] else [e])
      ensures e.removed ==> next == j && model == old(model) && task == None
      ensures !e.removed ==>
                && e.key in old(model).timers && old(model).timers[e.key].pos == tickedPos
                && var t := old(model).timers[e.key];
                && task == (if Fires(t) then Some((e.key, t.value)) else None)
                && model == old(model).(timers := if Fires(t) then old(model).timers - {e.key}
                                                  else old(model).timers[e.key := Visited(t, numSlots)])
    {
      hide SafeMap.Contents, SafeMap.Valid;
      next, task := j, None;
      if e.removed {
        DropRemoved(j);
        return;
      }
      assert LiveIsIndexed(e) && Indexed(e.key);
      if e.circle > 0 {
        Rewrite(e, e.value, e.circle - 1, e.diff);
        next := j + 1;
      } else if e.diff > 0 {
        var pos := (tickedPos + e.diff) % numSlots;
        WrapAround(tickedPos + e.diff, numSlots);
        Relocate(j, e, pos);
      } else {
        task := Some((e.key, e.value));
        Expire(j);
      }
    }

    /** Two live entries of one slot have different keys. */
    lemma LiveKeysDiffer(p: nat, j: nat)
      requires Valid() && p < numSlots && j < |slots[p]| && slots[p][j] in entries && !slots[p][j].removed
      ensures forall x :: x in slots[p][j + 1..] ==> x in entries && (!x.removed ==> x.key != slots[p][j].key)
    {
      assert LiveIsIndexed(slots[p][j]);
      forall x | x in slots[p][j + 1..] ensures x in entries && (!x.removed ==> x.key != slots[p][j].key) {
        var i :| j + 1 <= i < |slots[p]| && slots[p][i] == x;
        assert LiveIsIndexed(x);
      }
    }

    /** At the end of the list every key the index puts in this slot has been visited. */
    lemma ScanComplete(start: map<K, Timer<V>>, done: set<K>)
      requires Valid() && model.timers == Scan(start, numSlots, done)
      requires done <= InSlot(start, tickedPos)
      requires forall x :: x in slots[tickedPos] ==> x.key in done
      ensures done == InSlot(start, tickedPos)
    {
      forall k | k in InSlot(start, tickedPos) ensures k in done {
        assert k in timers.Contents() ==> Indexed(k);
      }
    }

    /** scanAndRunTasks over the slot under the hand. */
    method ScanAndRunTasks() returns (tasks: seq<(K, V)>)
      requires Valid()
      modifies this`slots, this`entries, this`model, timers, entries`value, entries`circle, entries`diff, entries`home
      ensures Valid() && entries <= old(entries)
      ensures var due := InSlot(old(model).timers, tickedPos);
              && model == old(model).(timers := Scan(old(model).timers, numSlots, due))
              && Lists(tasks, ExecutedAmong(old(model).timers, due))
    {
      hide SafeMap.Contents, SafeMap.Valid, Lists, Scan, Visited, ExecutedAmong;
      tasks := [];
      var j: nat := 0;
      ghost var start := model.timers;
      ListsNothing<K, V>();
      ghost var done: set<K> := {};
      NothingScanned(start, numSlots);
      while j < |slots[tickedPos]|
        invariant Valid() && entries <= old(entries) && j <= |slots[tickedPos]|
        invariant done <= InSlot(start, tickedPos)
        invariant model == old(model).(timers := Scan(start, numSlots, done))
        invariant forall x :: x in slots[tickedPos][..j] ==> x.key in done
        invariant forall x :: x in slots[tickedPos][j..] ==> x in entries && (!x.removed ==> x.key !in done)
        invariant Lists(tasks, ExecutedAmong(start, done))
        decreases |slots[tickedPos]| - j
      {
        var e := slots[tickedPos][j];
        ghost var m := model.timers;
        assert slots[tickedPos][j..] == [e] + slots[tickedPos][j + 1..];
        if !e.removed {
          LiveKeysDiffer(tickedPos, j);
          assert e in slots[tickedPos][j..];
        }
        var next, task := Visit(j, e);
        if !e.removed {
          Untouched(start, numSlots, done, e.key);
          ScanOne(start, numSlots, done, e.key);
          ListOne(tasks, start, done, e.key);
          done := done + {e.key};
        }
        if task.Some? {
          tasks := tasks + [task.value];
        }
        j := next;
      }
      assert slots[tickedPos][..j] == slots[tickedPos];
      ScanComplete(start, done);
    }

    /** onTick */
    method OnTick() returns (tasks: seq<(K, V)>)
      requires Valid()
      modifies this`tickedPos, this`slots, this`entries, this`model, timers,
               entries`value, entries`circle, entries`diff, entries`home
      ensures Valid() && entries <= old(entries)
      ensures old(model).Ok() && model == Apply(old(model), Tick).0
      ensures Lists(tasks, Apply(old(model), Tick).1)
    {
      hide SafeMap.Contents, SafeMap.Valid, Lists, Scan;
      ModelOk();
      tickedPos := (tickedPos + 1) % numSlots;
      model := model.(ticked := tickedPos);
      assert Valid() by {
        forall k | k in timers.Contents() ensures Indexed(k) { assert old(Indexed(k)); }
        forall x | x in entries ensures LiveIsIndexed(x) { assert old(LiveIsIndexed(x)); }
      }
      tasks := ScanAndRunTasks();
      ExecutedByTick(old(model).timers, tickedPos);
    }
  }

  /** `tasks` lists the key/value pairs of `m`, each once. */
  ghost predicate Lists<K, V>(tasks: seq<(K, V)>, m: map<K, V>) {
    && (forall i :: 0 <= i < |tasks| ==> tasks[i].0 in m && m[tasks[i].0] == tasks[i].1)
    && (forall k :: k in m ==> (k, m[k]) in tasks)
    && (forall i, j :: 0 <= i < j < |tasks| ==> tasks[i].0 != tasks[j].0)
  }

  function Without<T>(l: seq<T>, j: nat): (r: seq<T>)
    requires j < |l|
  {
    l[..j] + l[j + 1..]
  }

  lemma StillThere<T>(l: seq<T>, j: nat, x: T)
    requires j < |l| && x in l && x != l[j]
    ensures x in Without(l, j)
  {
    var i :| 0 <= i < |l| && l[i] == x;
    assert Without(l, j)[if i < j then i else i - 1] == x;
  }

  lemma ListsNothing<K, V>()
    ensures Lists<K, V>([], map[])
  {}

  lemma NothingListed<K, V>(tasks: seq<(K, V)>, m: map<K, V>)
    requires Lists(tasks, m)
    ensures m == map[] ==> tasks == []
  {
    if tasks != [] { assert tasks[0] in tasks; }
  }

  lemma ListOne<K, V>(tasks: seq<(K, V)>, start: map<K, Timer<V>>, done: set<K>, k: K)
    requires Lists(tasks, ExecutedAmong(start, done)) && k in start && k !in done
    ensures Lists(if Fires(start[k]) then tasks + [(k, start[k].value)] else tasks, ExecutedAmong(start, done + {k}))
  {
    var m, m' := ExecutedAmong(start, done), ExecutedAmong(start, done + {k});
    assert m' == if Fires(start[k]) then m[k := start[k].value] else m;
  }
}
