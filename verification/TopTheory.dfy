/** Order statistics of a task list, for core/stat. */
module TopTheory {

  /** Durations are integers (nanoseconds). */
  datatype Task = Task(duration: int, description: string)

  /** How many tasks last at least `d`. */
  function AtLeast(s: seq<Task>, d: int): (n: nat)
    ensures n <= |s|
  {
    if s == [] then 0 else AtLeast(s[1..], d) + if s[0].duration >= d then 1 else 0
  }

  /** `d` is the k-th largest duration: at least k tasks last that long, fewer than k last longer. */
  ghost predicate IsKth(s: seq<Task>, k: int, d: int) {
    AtLeast(s, d) >= k && AtLeast(s, d + 1) < k
  }

  lemma {:induction false} AtLeastAntitone(s: seq<Task>, d: int, e: int)
    requires d <= e
    ensures AtLeast(s, e) <= AtLeast(s, d)
  {
    if s != [] { AtLeastAntitone(s[1..], d, e); }
  }

  /** A larger rank has a smaller duration; in particular the k-th largest is unique. */
  lemma KthAntitone(s: seq<Task>, j: int, k: int, d: int, e: int)
    requires j <= k && IsKth(s, j, d) && IsKth(s, k, e)
    ensures e <= d
  {
    if d < e { AtLeastAntitone(s, d + 1, e); }
  }

  lemma {:induction false} AtLeastConcat(s: seq<Task>, t: seq<Task>, d: int)
    ensures AtLeast(s + t, d) == AtLeast(s, d) + AtLeast(t, d)
  {
    if s == [] {
      assert s + t == t;
    } else {
      assert (s + t)[1..] == s[1..] + t;
      AtLeastConcat(s[1..], t, d);
    }
  }

  lemma TakeOut(s: seq<Task>, i: nat)
    requires i < |s|
    ensures multiset(s) == multiset(s[..i] + s[i + 1..]) + multiset{s[i]}
  {
    assert s == s[..i] + [s[i]] + s[i + 1..];
  }

  lemma AtLeastTakeOut(t: seq<Task>, i: nat, d: int)
    requires i < |t|
    ensures AtLeast(t, d) == AtLeast(t[..i] + t[i + 1..], d) + if t[i].duration >= d then 1 else 0
  {
    assert t == t[..i] + [t[i]] + t[i + 1..];
    AtLeastConcat(t[..i], t[i + 1..], d);
    AtLeastConcat(t[..i] + [t[i]], t[i + 1..], d);
    AtLeastConcat(t[..i], [t[i]], d);
  }

  lemma Cancel(a: multiset<Task>, b: multiset<Task>, x: Task)
    requires a + multiset{x} == b + multiset{x}
    ensures a == b
  {
    assert a == (a + multiset{x}) - multiset{x};
    assert b == (b + multiset{x}) - multiset{x};
  }

  /** The count does not depend on the order. */
  lemma {:induction false} AtLeastOrderFree(s: seq<Task>, t: seq<Task>, d: int)
    requires multiset(s) == multiset(t)
    ensures AtLeast(s, d) == AtLeast(t, d)
    decreases |s|
  {
    hide AtLeast;
    if s == [] {
      assert |t| == |multiset(t)| == 0;
      assert s == t;
    } else {
      var i := MatchFirst(s, t);
      AtLeastOrderFree(s[1..], t[..i] + t[i + 1..], d);
      AtLeastTakeOut(t, i, d);
      AtLeastTakeOut(s, 0, d);
      assert s[..0] + s[1..] == s[1..];
    }
  }

  lemma MatchFirst(s: seq<Task>, t: seq<Task>) returns (i: nat)
    requires s != [] && multiset(s) == multiset(t)
    ensures i < |t| && t[i] == s[0] && multiset(s[1..]) == multiset(t[..i] + t[i + 1..])
  {
    assert s[0] in multiset(s);
    i := IndexOf(t, s[0]);
    TakeOut(t, i);
    TakeFirst(s);
    Cancel(multiset(s[1..]), multiset(t[..i] + t[i + 1..]), s[0]);
  }

  lemma IndexOf(t: seq<Task>, x: Task) returns (i: nat)
    requires x in multiset(t)
    ensures i < |t| && t[i] == x
  {
    i :| 0 <= i < |t| && t[i] == x;
  }

  lemma TakeFirst(s: seq<Task>)
    requires s != []
    ensures multiset(s) == multiset(s[1..]) + multiset{s[0]}
  {
    assert s == [s[0]] + s[1..];
  }

  /** `top` is what is left of `all` after leaving out tasks that last no longer. */
  ghost predicate IsTop(all: seq<Task>, top: seq<Task>, left: seq<Task>) {
    && multiset(all) == multiset(top) + multiset(left)
    && forall i, j :: 0 <= i < |top| && 0 <= j < |left| ==> left[j].duration <= top[i].duration
  }

  lemma {:induction false} NoneAtLeast(s: seq<Task>, d: int)
    requires forall i :: 0 <= i < |s| ==> s[i].duration < d
    ensures AtLeast(s, d) == 0
  {
    if s != [] { NoneAtLeast(s[1..], d); }
  }

  lemma {:induction false} AllAtLeast(s: seq<Task>, d: int)
    requires forall i :: 0 <= i < |s| ==> s[i].duration >= d
    ensures AtLeast(s, d) == |s|
  {
    if s != [] { AllAtLeast(s[1..], d); }
  }

  /** A rank inside the top is the same rank in the whole: selecting from a selection is selecting
      directly. */
  lemma NestedSelection(all: seq<Task>, top: seq<Task>, left: seq<Task>, k: int, d: int)
    requires IsTop(all, top, left) && 1 <= k <= |top| && IsKth(top, k, d)
    ensures IsKth(all, k, d)
  {
    forall e ensures AtLeast(all, e) == AtLeast(top, e) + AtLeast(left, e) {
      assert multiset(all) == multiset(top + left);
      AtLeastOrderFree(all, top + left, e);
      AtLeastConcat(top, left, e);
    }
    assert AtLeast(left, d + 1) == 0 by {
      var i := ShortOne(top, d, k);
      NoneAtLeast(left, d + 1);
    }
  }

  /** When fewer than all tasks last longer than d, some task lasts at most d. */
  lemma {:induction false} ShortOne(s: seq<Task>, d: int, k: int) returns (i: nat)
    requires AtLeast(s, d + 1) < k <= |s|
    ensures i < |s| && s[i].duration <= d
  {
    if forall j :: 0 <= j < |s| ==> s[j].duration >= d + 1 {
      AllAtLeast(s, d + 1);
      assert false;
    }
    i :| 0 <= i < |s| && s[i].duration <= d;
  }

  /** The shortest task of a top of size k is the k-th largest. */
  lemma ShortestOfTop(all: seq<Task>, top: seq<Task>, left: seq<Task>)
    requires IsTop(all, top, left) && top != []
    requires forall i :: 0 <= i < |top| ==> top[0].duration <= top[i].duration
    ensures IsKth(all, |top|, top[0].duration)
  {
    var d := top[0].duration;
    AllAtLeast(top, d);
    assert AtLeast(top, d + 1) < |top| by {
      assert top == [top[0]] + top[1..];
      AtLeastConcat([top[0]], top[1..], d + 1);
    }
    NestedSelection(all, top, left, |top|, d);
  }

  // ---------- one more task ----------

  lemma TopGrows(all: seq<Task>, each: Task, top: seq<Task>, top': seq<Task>)
    requires IsTop(all, top, []) && multiset(top') == multiset(top) + multiset{each}
    ensures IsTop(all + [each], top', [])
  {}

  lemma TopSkips(all: seq<Task>, each: Task, top: seq<Task>, left: seq<Task>)
    requires IsTop(all, top, left) && forall i :: 0 <= i < |top| ==> each.duration <= top[i].duration
    ensures IsTop(all + [each], top, left + [each])
  {}

  lemma TopReplaces(all: seq<Task>, each: Task, top: seq<Task>, mid: seq<Task>, x: Task, top': seq<Task>,
                    left: seq<Task>)
    requires IsTop(all, top, left) && multiset(top) == multiset(mid) + multiset{x}
    requires forall i :: 0 <= i < |top| ==> x.duration <= top[i].duration
    requires multiset(top') == multiset(mid) + multiset{each} && x.duration < each.duration
    ensures IsTop(all + [each], top', left + [x])
  {
    assert x in multiset(top);
    forall i, j | 0 <= i < |top'| && 0 <= j < |left + [x]| ensures (left + [x])[j].duration <= top'[i].duration {
      assert top'[i] in multiset(top');
      if top'[i] in multiset(mid) {
        assert top'[i] in multiset(top);
      }
    }
  }
}
