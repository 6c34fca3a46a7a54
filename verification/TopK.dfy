/** core/stat/topk.go: the k longest tasks, kept in a binary heap with the shortest on top. The
    heap operations are those of Go's container/heap. */
module TopK {
  import opened TopTheory

  function Parent(i: nat): (p: nat)
    requires i > 0
    ensures p < i
  {
    (i - 1) / 2
  }

  ghost predicate IsHeap(s: seq<Task>) {
    forall i {:trigger Parent(i)} {:trigger s[i]} :: 0 < i < |s| ==> s[Parent(i)].duration <= s[i].duration
  }

  lemma {:induction false} RootIsShortest(s: seq<Task>, i: nat)
    requires IsHeap(s) && i < |s|
    ensures s[0].duration <= s[i].duration
  {
    if i > 0 { RootIsShortest(s, Parent(i)); }
  }

  function Swap(s: seq<Task>, i: nat, j: nat): (r: seq<Task>)
    requires i < |s| && j < |s|
  {
    s[i := s[j]][j := s[i]]
  }

  lemma SwapKeepsTasks(s: seq<Task>, i: nat, j: nat)
    requires i < |s| && j < |s|
    ensures multiset(Swap(s, i, j)) == multiset(s)
  {}

  /** A heap but for the edge above j. */
  ghost predicate HeapBut(s: seq<Task>, j: nat) {
    && (forall i {:trigger Parent(i)} :: 0 < i < |s| && i != j ==> s[Parent(i)].duration <= s[i].duration)
    && (forall i {:trigger Parent(i)} ::
          0 < i < |s| && Parent(i) == j && j > 0 ==> s[Parent(j)].duration <= s[i].duration)
  }

  class TaskHeap {
    var items: seq<Task>

    constructor ()
      ensures items == []
    {
      items := [];
    }

    /** heap.Push */
    method Push(x: Task)
      requires IsHeap(items)
      modifies this
      ensures IsHeap(items) && |items| == |old(items)| + 1
      ensures multiset(items) == multiset(old(items)) + multiset{x}
    {
      items := items + [x];
      var j := |items| - 1;
      while j > 0 && items[j].duration < items[Parent(j)].duration
        invariant 0 <= j < |items| == |old(items)| + 1
        invariant HeapBut(items, j)
        invariant multiset(items) == multiset(old(items)) + multiset{x}
      {
        var i := Parent(j);
        SwapKeepsTasks(items, i, j);
        SwapUp(items, j);
        items := Swap(items, i, j);
        j := i;
      }
    }

    /** heap.Pop: the shortest task. */
    method Pop() returns (x: Task)
      requires IsHeap(items) && items != []
      modifies this
      ensures IsHeap(items) && |items| == |old(items)| - 1 && x == old(items)[0]
      ensures multiset(old(items)) == multiset(items) + multiset{x}
    {
      var n := |items| - 1;
      SwapKeepsTasks(items, 0, n);
      ghost var was := items;
      items := Swap(items, 0, n);
      x := items[n];
      assert items == items[..n] + [x];
      items := items[..n];
      LastToRoot(was, n);
      Down();
    }

    /** down(h, 0, n) */
    method Down()
      requires Sinking(items, 0)
      modifies this
      ensures IsHeap(items) && |items| == |old(items)| && multiset(items) == multiset(old(items))
    {
      hide Sinking, IsHeap, Swap;
      var i := 0;
      while 2 * i + 1 < |items|
        invariant 0 <= i && |items| == |old(items)| && multiset(items) == multiset(old(items))
        invariant Sinking(items, i)
        decreases |items| - i
      {
        var j := ShorterChild(items, i);
        if items[i].duration <= items[j].duration {
          Settled(items, i);
          return;
        }
        SwapKeepsTasks(items, i, j);
        SwapDown(items, i, j);
        items := Swap(items, i, j);
        i := j;
      }
      Settled(items, i);
    }
  }

  lemma LastToRoot(s: seq<Task>, n: nat)
    requires IsHeap(s) && |s| == n + 1
    ensures Sinking(Swap(s, 0, n)[..n], 0)
  {}

  /** The child that `down` compares with. */
  method ShorterChild(s: seq<Task>, i: nat) returns (j: nat)
    requires 2 * i + 1 < |s|
    ensures i < j < |s| && Parent(j) == i
    ensures forall k {:trigger Parent(k)} :: 0 < k < |s| && Parent(k) == i ==> s[j].duration <= s[k].duration
  {
    j := 2 * i + 1;
    if j + 1 < |s| && s[j + 1].duration < s[j].duration {
      j := j + 1;
    }
    Children(i);
  }

  lemma Settled(s: seq<Task>, i: nat)
    requires Sinking(s, i)
    requires 2 * i + 1 < |s| ==>
               forall k {:trigger Parent(k)} :: 0 < k < |s| && Parent(k) == i ==> s[i].duration <= s[k].duration
    ensures IsHeap(s)
  {
    Children(i);
  }

  /** A heap but for the edges below i. */
  ghost predicate Sinking(s: seq<Task>, i: nat) {
    && (forall k {:trigger Parent(k)} :: 0 < k < |s| && Parent(k) != i ==> s[Parent(k)].duration <= s[k].duration)
    && (forall k {:trigger Parent(k)} ::
          0 < k < |s| && Parent(k) == i && 0 < i < |s| ==> s[Parent(i)].duration <= s[k].duration)
  }

  lemma Children(i: nat)
    ensures forall k {:trigger Parent(k)} :: k > 0 && Parent(k) == i <==> k == 2 * i + 1 || k == 2 * i + 2
  {}

  lemma SwapUp(s: seq<Task>, j: nat)
    requires 0 < j < |s| && HeapBut(s, j) && s[j].duration < s[Parent(j)].duration
    ensures HeapBut(Swap(s, Parent(j), j), Parent(j))
  {
    var i := Parent(j);
    var r := Swap(s, i, j);
    forall k | 0 < k < |r| && k != i ensures r[Parent(k)].duration <= r[k].duration {
      assert Parent(k) == Parent(k);
    }
    if i > 0 {
      forall k | 0 < k < |r| && Parent(k) == i ensures r[Parent(i)].duration <= r[k].duration {
        assert s[Parent(i)].duration <= s[i].duration;
      }
    }
  }

  lemma SwapDown(s: seq<Task>, i: nat, j: nat)
    requires i < j < |s| && Parent(j) == i && Sinking(s, i) && s[j].duration < s[i].duration
    requires forall k {:trigger Parent(k)} :: 0 < k < |s| && Parent(k) == i ==> s[j].duration <= s[k].duration
    ensures |Swap(s, i, j)| == |s| && Sinking(Swap(s, i, j), j)
  {
    var r := Swap(s, i, j);
    forall k | 0 < k < |r| && Parent(k) != j ensures r[Parent(k)].duration <= r[k].duration {
      assert k == i ==> s[Parent(i)].duration <= s[j].duration;
    }
    forall k | 0 < k < |r| && Parent(k) == j ensures r[Parent(j)].duration <= r[k].duration {
      assert s[j].duration <= s[k].duration;
    }
  }

  lemma Nothing()
    ensures IsHeap([]) && IsTop([], [], [])
  {}

  /** topK: a top of min(k, n) tasks, the shortest first. */
  method TopTasks(all: seq<Task>, k: int) returns (top: seq<Task>, ghost left: seq<Task>)
    requires k >= 1 || all == []
    ensures IsTop(all, top, left)
    ensures |top| == if |all| < k then |all| else if all == [] then 0 else k
    ensures forall i :: 0 <= i < |top| ==> top[0].duration <= top[i].duration
  {
    hide IsHeap, IsTop;
    var h := new TaskHeap();
    left := [];
    Nothing();
    for n := 0 to |all|
      invariant fresh(h) && IsHeap(h.items) && IsTop(all[..n], h.items, left)
      invariant |h.items| == if n < k then n else if n == 0 then 0 else k
      invariant n <= k ==> left == []
    {
      var each := all[n];
      assert all[..n + 1] == all[..n] + [each];
      forall i | 0 <= i < |h.items| ensures h.items[0].duration <= h.items[i].duration {
        RootIsShortest(h.items, i);
      }
      if |h.items| < k {
        ghost var was := h.items;
        h.Push(each);
        TopGrows(all[..n], each, was, h.items);
      } else if h.items[0].duration < each.duration {
        ghost var was := h.items;
        var x := h.Pop();
        ghost var mid := h.items;
        h.Push(each);
        TopReplaces(all[..n], each, was, mid, x, h.items, left);
        left := left + [x];
      } else {
        TopSkips(all[..n], each, h.items, left);
        left := left + [each];
      }
    }
    assert all[..|all|] == all;
    top := h.items;
    forall i | 0 <= i < |top| ensures top[0].duration <= top[i].duration {
      RootIsShortest(top, i);
    }
  }
}
