/** Suffix theory behind the keyword matcher of core/stringx.

    A trie is seen here only through its set of paths, a prefix-closed set of strings.
    `Longest` is what the automaton's current node means, `Step` is what its two fail-walking
    loops compute, and `AllOccurrences` is the brute-force answer that `find` must return. */
module KeywordTheory {

  datatype Scope = Scope(start: nat, stop: nat)

  function Ext(s: string, c: char): (t: string) { s + [c] }

  function Parent(s: string): (t: string)
    requires s != ""
  {
    s[..|s| - 1]
  }

  ghost predicate PrefixClosed(paths: set<string>) {
    && "" in paths
    && forall s {:trigger Parent(s)} :: s in paths && s != "" ==> Parent(s) in paths
  }

  predicate IsSuffix(t: string, s: string) {
    |t| <= |s| && s[|s| - |t|..] == t
  }

  /** The longest suffix of `s` (possibly `s` itself) that is a path. */
  ghost function Longest(paths: set<string>, s: string): (t: string)
    requires "" in paths
    ensures t in paths && IsSuffix(t, s)
  {
    if s in paths then s else Longest(paths, s[1..])
  }

  /** The target of the fail link of the node spelling `s`. */
  ghost function Fail(paths: set<string>, s: string): (t: string)
    requires "" in paths && s != ""
    ensures t in paths && |t| < |s|
  {
    Longest(paths, s[1..])
  }

  /** Follow fail links from `t` until a node has a child for `c`; the root if none has. */
  ghost function Step(paths: set<string>, t: string, c: char): (u: string)
    requires "" in paths
    ensures u in paths
    decreases |t|
  {
    if Ext(t, c) in paths then Ext(t, c)
    else if t == "" then ""
    else Step(paths, Fail(paths, t), c)
  }

  /** `Longest` is maximal among the suffixes that are paths. */
  lemma {:induction false} LongestIsMaximal(paths: set<string>, s: string, u: string)
    requires "" in paths && u in paths && IsSuffix(u, s)
    ensures |u| <= |Longest(paths, s)|
    ensures IsSuffix(u, Longest(paths, s))
  {
    if s !in paths {
      assert IsSuffix(u, s[1..]);
      LongestIsMaximal(paths, s[1..], u);
    }
  }

  /** A fail link leads to the one path that is the longest proper suffix, and to nothing else. */
  lemma FailIsLongestProperSuffix(paths: set<string>, s: string, t: string)
    requires "" in paths && s != ""
    ensures t == Fail(paths, s) <==>
            (&& t in paths && IsSuffix(t, s) && |t| < |s|
             && forall u :: u in paths && IsSuffix(u, s) && |u| < |s| ==> |u| <= |t|)
  {
    var f := Fail(paths, s);
    assert IsSuffix(f, s);
    forall u | u in paths && IsSuffix(u, s) && |u| < |s| ensures |u| <= |f| {
      assert IsSuffix(u, s[1..]);
      LongestIsMaximal(paths, s[1..], u);
    }
  }

  /** Reading one more character: the automaton's step keeps "longest suffix that is a path". */
  lemma {:induction false} StepExtendsLongest(paths: set<string>, s: string, c: char)
    requires PrefixClosed(paths)
    ensures Longest(paths, Ext(s, c)) == Step(paths, Longest(paths, s), c)
  {
    if Ext(s, c) in paths {
      assert Parent(Ext(s, c)) == s;
    } else if s == "" {
      assert Ext(s, c)[1..] == "";
    } else {
      assert Ext(s, c)[1..] == Ext(s[1..], c);
      StepExtendsLongest(paths, s[1..], c);
    }
  }

  /** The fail link of a child is one step from the fail link of its parent. */
  lemma FailOfChild(paths: set<string>, s: string, c: char)
    requires PrefixClosed(paths) && s != ""
    ensures Fail(paths, Ext(s, c)) == Step(paths, Fail(paths, s), c)
  {
    assert Ext(s, c)[1..] == Ext(s[1..], c);
    StepExtendsLongest(paths, s[1..], c);
  }

  // ---------- the brute-force answer ----------

  /** Occurrences ending at `stop` that start at `from` or later, earliest start first. */
  function EndingAt(words: set<string>, text: string, stop: nat, from: nat): (r: seq<Scope>)
    requires from <= stop <= |text|
    decreases stop - from
  {
    if from == stop then []
    else (if text[from..stop] in words then [Scope(from, stop)] else [])
         + EndingAt(words, text, stop, from + 1)
  }

  function OccurrencesUpTo(words: set<string>, text: string, n: nat): (r: seq<Scope>)
    requires n <= |text|
  {
    if n == 0 then [] else OccurrencesUpTo(words, text, n - 1) + EndingAt(words, text, n, 0)
  }

  function AllOccurrences(words: set<string>, text: string): (r: seq<Scope>) {
    OccurrencesUpTo(words, text, |text|)
  }

  /** Nothing is lost by jumping to the longest suffix that is a path. */
  lemma {:induction false} SkipToLongest(paths: set<string>, words: set<string>, text: string, stop: nat, from: nat)
    requires "" in paths && words <= paths && from <= stop <= |text|
    ensures EndingAt(words, text, stop, from)
         == EndingAt(words, text, stop, stop - |Longest(paths, text[from..stop])|)
    decreases stop - from
  {
    hide IsSuffix;
    assert from == stop ==> text[from..stop] == "";
    if text[from..stop] !in paths {
      assert text[from..stop][1..] == text[from + 1..stop];
      assert text[from..stop] !in words;
      SkipToLongest(paths, words, text, stop, from + 1);
      assert [] + EndingAt(words, text, stop, from + 1) == EndingAt(words, text, stop, from + 1);
    }
  }

  lemma LongestOfEmpty(paths: set<string>)
    requires "" in paths
    ensures Longest(paths, "") == ""
  {}

  lemma SuffixOfSlice(text: string, from: nat, stop: nat, t: string)
    requires from <= stop <= |text| && IsSuffix(t, text[from..stop])
    ensures t == text[stop - |t|..stop]
  {}

  /** One character of the scan, and the reports it owes. */
  lemma ScanStep(paths: set<string>, words: set<string>, text: string, i: nat)
    requires PrefixClosed(paths) && words <= paths && i < |text|
    ensures Longest(paths, text[..i + 1]) == Step(paths, Longest(paths, text[..i]), text[i])
    ensures var p := Longest(paths, text[..i + 1]);
            && |p| <= i + 1 && p == text[i + 1 - |p|..i + 1]
            && EndingAt(words, text, i + 1, 0) == EndingAt(words, text, i + 1, i + 1 - |p|)
  {
    assert text[..i + 1] == Ext(text[..i], text[i]) == text[0..i + 1];
    StepExtendsLongest(paths, text[..i], text[i]);
    SkipToLongest(paths, words, text, i + 1, 0);
    SuffixOfSlice(text, 0, i + 1, Longest(paths, text[..i + 1]));
  }

  lemma NoneLeft(words: set<string>, text: string, stop: nat)
    requires stop <= |text|
    ensures EndingAt(words, text, stop, stop) == []
  {}

  /** One fail link of the reporting walk: no word ends here between a node and its fail target. */
  lemma ReportStep(paths: set<string>, words: set<string>, text: string, stop: nat, t: string)
    requires "" in paths && words <= paths && t != ""
    requires |t| <= stop <= |text| && t == text[stop - |t|..stop]
    ensures var f := Fail(paths, t);
            && f == text[stop - |f|..stop]
            && EndingAt(words, text, stop, stop - |t|)
               == (if t in words then [Scope(stop - |t|, stop)] else []) + EndingAt(words, text, stop, stop - |f|)
  {
    hide Longest;
    var from := stop - |t| + 1;
    assert t[1..] == text[from..stop];
    SkipToLongest(paths, words, text, stop, from);
    var f := Fail(paths, t);
    SuffixOfSlice(text, from, stop, f);
  }

  lemma {:induction false} EndingAtMembers(words: set<string>, text: string, stop: nat, from: nat, o: Scope)
    requires from <= stop <= |text|
    ensures o in EndingAt(words, text, stop, from)
       <==> from <= o.start < o.stop == stop && text[o.start..o.stop] in words
    decreases stop - from
  {
    if from < stop {
      EndingAtMembers(words, text, stop, from + 1, o);
    }
  }

  lemma {:induction false} UpToMembers(words: set<string>, text: string, n: nat, o: Scope)
    requires n <= |text|
    ensures o in OccurrencesUpTo(words, text, n)
       <==> o.start < o.stop <= n && text[o.start..o.stop] in words
  {
    if n > 0 {
      UpToMembers(words, text, n - 1, o);
      EndingAtMembers(words, text, n, 0, o);
    }
  }

  /** The list holds exactly the (start, stop) pairs whose substring is a word ... */
  lemma OccurrencesAreExactlyTheMatches(words: set<string>, text: string, o: Scope)
    ensures o in AllOccurrences(words, text)
       <==> o.start < o.stop <= |text| && text[o.start..o.stop] in words
  {
    UpToMembers(words, text, |text|, o);
  }

  /** Strictly increasing by end, then by start. */
  ghost predicate Ordered(a: Scope, b: Scope) {
    a.stop < b.stop || (a.stop == b.stop && a.start < b.start)
  }

  ghost predicate AllOrdered(s: seq<Scope>) {
    forall i, j :: 0 <= i < j < |s| ==> Ordered(s[i], s[j])
  }

  lemma {:induction false} EndingAtOrdered(words: set<string>, text: string, stop: nat, from: nat)
    requires from <= stop <= |text|
    ensures AllOrdered(EndingAt(words, text, stop, from))
    decreases stop - from
  {
    if from < stop {
      EndingAtOrdered(words, text, stop, from + 1);
      forall o | o in EndingAt(words, text, stop, from + 1) ensures Ordered(Scope(from, stop), o) {
        EndingAtMembers(words, text, stop, from + 1, o);
      }
    }
  }

  /** ... each of them once, ordered by end and then by start. */
  lemma {:induction false} OccurrencesOrdered(words: set<string>, text: string, n: nat)
    requires n <= |text|
    ensures AllOrdered(OccurrencesUpTo(words, text, n))
  {
    if n > 0 {
      OccurrencesOrdered(words, text, n - 1);
      EndingAtOrdered(words, text, n, 0);
      forall a, b | a in OccurrencesUpTo(words, text, n - 1) && b in EndingAt(words, text, n, 0)
        ensures Ordered(a, b)
      {
        UpToMembers(words, text, n - 1, a);
        EndingAtMembers(words, text, n, 0, b);
      }
    }
  }

  /** Is position `i` of the text inside some occurrence of a word? */
  ghost predicate Covered(words: set<string>, text: string, i: nat) {
    exists a, b :: 0 <= a <= i < b <= |text| && text[a..b] in words
  }

  /** Does the word `w` occur in the text? */
  ghost predicate Occurs(text: string, w: string) {
    exists a, b :: 0 <= a < b <= |text| && text[a..b] == w
  }

  ghost predicate Hit(scopes: seq<Scope>, i: nat) {
    exists o :: o in scopes && o.start <= i < o.stop
  }

  /** Read off the answer list: the matched substrings are the occurring words, and the positions
      inside a listed scope are the covered ones. */
  lemma KeywordsAreTheOccurringWords(words: set<string>, text: string, scopes: seq<Scope>)
    requires scopes == AllOccurrences(words, text)
    ensures forall o :: o in scopes ==> o.start < o.stop <= |text|
    ensures forall w :: w in words && Occurs(text, w) <==> exists o :: o in scopes && w == text[o.start..o.stop]
    ensures forall i: nat :: Hit(scopes, i) <==> Covered(words, text, i)
  {
    forall o ensures o in scopes <==> o.start < o.stop <= |text| && text[o.start..o.stop] in words {
      OccurrencesAreExactlyTheMatches(words, text, o);
    }
    forall w | w in words && Occurs(text, w) ensures exists o :: o in scopes && w == text[o.start..o.stop] {
      var a, b :| 0 <= a < b <= |text| && text[a..b] == w;
      assert Scope(a, b) in scopes;
    }
    forall i: nat | Covered(words, text, i) ensures Hit(scopes, i) {
      var a, b :| 0 <= a <= i < b <= |text| && text[a..b] in words;
      assert Scope(a, b) in scopes;
    }
    forall i: nat | Hit(scopes, i) ensures Covered(words, text, i) {
      var o :| o in scopes && o.start <= i < o.stop;
      assert text[o.start..o.stop] in words;
    }
  }

  // ---------- the breadth-first frontier of node.build ----------

  /** The queue holds nodes of depth `level`, then nodes of depth `level + 1`. */
  ghost predicate Layered(names: seq<string>, level: nat) {
    && level >= 1
    && (forall i :: 0 <= i < |names| ==> level <= |names[i]| <= level + 1)
    && (forall i, j :: 0 <= i < j < |names| ==> |names[i]| <= |names[j]|)
  }

  /** What is queued is not finished, but is a child of a finished node. */
  ghost predicate Pending(paths: set<string>, names: seq<string>, done: set<string>) {
    && (forall i :: 0 <= i < |names| ==> names[i] in paths && names[i] != "" && names[i] !in done)
    && (forall i {:trigger Parent(names[i])} :: 0 <= i < |names| ==> Parent(names[i]) in done)
  }

  /** The children of a finished node have been seen. */
  ghost predicate Expanded(paths: set<string>, names: seq<string>, done: set<string>) {
    && "" in done && done <= paths
    && (forall s, c {:trigger s in done, Ext(s, c)} ::
          s in done && Ext(s, c) in paths ==> Ext(s, c) in done || Ext(s, c) in names)
  }

  /** Everything up to depth `level` has been seen. */
  ghost predicate SeenTo(paths: set<string>, names: seq<string>, done: set<string>, level: nat) {
    && (forall s :: s in done ==> |s| <= level)
    && (forall s :: s in paths && |s| <= level ==> s in done || s in names)
  }

  ghost predicate Frontier(paths: set<string>, names: seq<string>, done: set<string>, level: nat) {
    && Layered(names, level) && Pending(paths, names, done)
    && Expanded(paths, names, done) && SeenTo(paths, names, done, level)
  }

  /** The children of the root make the first frontier. */
  lemma FirstFrontier(paths: set<string>, names: seq<string>)
    requires "" in paths
    requires forall i :: 0 <= i < |names| ==> names[i] in paths && |names[i]| == 1
    requires forall c {:trigger Ext("", c)} :: Ext("", c) in paths ==> Ext("", c) in names
    ensures Frontier(paths, names, {""}, 1)
  {
    forall s | s in paths && |s| <= 1 ensures s in names || s == "" {
      if s != "" { assert s == Ext("", s[0]); }
    }
    forall i | 0 <= i < |names| ensures Parent(names[i]) == "" {}
  }

  /** Once the head of the queue is one level deeper, that whole level has been seen. */
  lemma NextLevel(paths: set<string>, names: seq<string>, done: set<string>, level: nat)
    requires PrefixClosed(paths) && Frontier(paths, names, done, level)
    requires names != [] && |names[0]| > level
    ensures Frontier(paths, names, done, level + 1)
  {
    assert forall i :: 0 <= i < |names| ==> |names[0]| <= |names[i]|;
    forall s | s in paths && |s| <= level + 1 ensures s in done || s in names {
      if |s| == level + 1 {
        var parent := Parent(s);
        assert parent !in names;
        assert Ext(parent, s[level]) == s;
      }
    }
  }

  /** When the queue runs empty every node has been finished. */
  lemma {:induction false} AllReached(paths: set<string>, done: set<string>, level: nat, s: string)
    requires PrefixClosed(paths) && Frontier(paths, [], done, level)
    requires s in paths
    ensures s in done
    decreases |s|
  {
    if s != "" {
      var parent := Parent(s);
      AllReached(paths, done, level, parent);
      assert Ext(parent, s[|s| - 1]) == s;
    }
  }

  /** A child of the node just dequeued has not been seen before. */
  lemma NewChild(paths: set<string>, names: seq<string>, done: set<string>, level: nat, s: string, c: char)
    requires Frontier(paths, [s] + names, done, level) && |s| == level
    ensures s != "" && Ext(s, c) !in names && Ext(s, c) !in done
    ensures |Ext(s, c)| == level + 1 && Ext(s, c)[level] == c && Ext(s, c) != "" && Parent(Ext(s, c)) == s
  {
    var q := [s] + names;
    assert q[0] == s && Parent(Ext(s, c)) == s;
    forall i | 0 <= i < |names| ensures names[i] != Ext(s, c) {
      assert q[i + 1] == names[i] && Parent(q[i + 1]) in done;
    }
  }

  /** Finishing the head of the queue and appending its children keeps the frontier. */
  lemma Advance(paths: set<string>, names0: seq<string>, names: seq<string>, done: set<string>, level: nat, s: string)
    requires Frontier(paths, [s] + names0, done, level) && |s| == level
    requires names0 <= names && s !in names0
    requires forall i :: |names0| <= i < |names| ==>
               names[i] in paths && |names[i]| == level + 1 && Parent(names[i]) == s
    requires forall c {:trigger Ext(s, c)} :: Ext(s, c) in paths ==> Ext(s, c) in names
    ensures Frontier(paths, names, done + {s}, level)
  {
    HeadIsPath(paths, names0, done, s);
    hide Layered, Pending, Expanded, SeenTo, Ext, Parent;
    AdvanceLayered(names0, names, level, s);
    AdvancePending(paths, names0, names, done, level, s);
    AdvanceSeen(paths, names0, names, done, level, s);
  }

  lemma HeadIsPath(paths: set<string>, names: seq<string>, done: set<string>, s: string)
    requires Pending(paths, [s] + names, done)
    ensures s in paths
  {
    assert ([s] + names)[0] == s;
  }

  lemma AdvanceLayered(names0: seq<string>, names: seq<string>, level: nat, s: string)
    requires Layered([s] + names0, level) && names0 <= names
    requires forall i :: |names0| <= i < |names| ==> |names[i]| == level + 1
    ensures Layered(names, level)
  {
    var q := [s] + names0;
    assert forall i :: 0 <= i < |names0| ==> q[i + 1] == names[i];
  }

  lemma AdvancePending(paths: set<string>, names0: seq<string>, names: seq<string>, done: set<string>,
                       level: nat, s: string)
    requires Pending(paths, [s] + names0, done) && SeenTo(paths, [s] + names0, done, level)
    requires names0 <= names && s !in names0 && |s| == level
    requires forall i :: |names0| <= i < |names| ==>
               names[i] in paths && |names[i]| == level + 1 && Parent(names[i]) == s
    ensures Pending(paths, names, done + {s})
  {
    hide Parent;
    var q := [s] + names0;
    forall i | 0 <= i < |names| ensures names[i] in paths && names[i] != "" && names[i] !in done + {s} {
      if i < |names0| { assert q[i + 1] == names[i] && names[i] in names0; }
    }
    forall i | 0 <= i < |names| ensures Parent(names[i]) in done + {s} {
      if i < |names0| { assert q[i + 1] == names[i]; assert Parent(q[i + 1]) in done; }
    }
  }

  lemma AdvanceSeen(paths: set<string>, names0: seq<string>, names: seq<string>, done: set<string>,
                    level: nat, s: string)
    requires Expanded(paths, [s] + names0, done) && SeenTo(paths, [s] + names0, done, level)
    requires names0 <= names && |s| == level && s in paths
    requires forall c {:trigger Ext(s, c)} :: Ext(s, c) in paths ==> Ext(s, c) in names
    ensures Expanded(paths, names, done + {s}) && SeenTo(paths, names, done + {s}, level)
  {
    hide Ext;
    forall t | t in [s] + names0 ensures t == s || t in names {
      if t in names0 { var i :| 0 <= i < |names0| && names0[i] == t; assert names[i] == t; }
    }
  }
}
