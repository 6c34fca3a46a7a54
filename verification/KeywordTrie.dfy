/** core/stringx/node.go and trie.go: a trie with fail links built by breadth-first search,
    the one-pass search over it, and the keyword filter on top.

    The nodes are heap objects mutated in place. The ghost map `at` names each node by the
    string it spells, so that everything below can be stated about strings. */
module KeywordTrie {
  import opened KeywordTheory

  const DEFAULT_MASK: char := '*'

  class Node {
    var children: map<char, Node>
    var fail: Node?
    var depth: nat
    var end: bool
    ghost const name: string

    constructor (depth: nat, ghost name: string)
      ensures children == map[] && fail == null && this.depth == depth && !end && this.name == name
    {
      children, fail, this.depth, end := map[], null, depth, false;
      this.name := name;
    }
  }

  class Trie {
    var root: Node
    var mask: char
    ghost var at: map<string, Node>
    ghost var nodes: set<Node>
    ghost var words: set<string>

    /** The node named `s` spells `s`: its children are the one-character extensions in the trie. */
    ghost predicate NodeOk(s: string)
      requires s in at
      reads this, nodes`children, nodes`depth, nodes`end
    {
      && at[s] in nodes
      && at[s].name == s
      && at[s].depth == |s|
      && (at[s].end <==> s in words)
      && (forall c {:trigger Ext(s, c)} {:trigger c in at[s].children} :: c in at[s].children <==> Ext(s, c) in at)
      && (forall c {:trigger at[s].children[c]} :: c in at[s].children ==> at[s].children[c] == at[Ext(s, c)])
    }

    /** The trie apart from its fail links. */
    ghost predicate Valid()
      reads this, nodes`children, nodes`depth, nodes`end
    {
      && PrefixClosed(at.Keys)
      && at[""] == root
      && words <= at.Keys && "" !in words
      && (forall s {:trigger NodeOk(s)} :: s in at ==> NodeOk(s))
    }

    /** The fail link of `s` leads to the longest proper suffix of `s` that is in the trie. */
    ghost predicate Linked(s: string)
      requires "" in at && s in at && at[s] in nodes
      reads this, nodes`fail
    {
      at[s].fail == if s == "" then null else at[Fail(at.Keys, s)]
    }

    ghost predicate Built()
      requires Valid()
      reads this, nodes
    {
      forall s {:trigger Linked(s)} :: s in at && NodeOk(s) ==> Linked(s)
    }

    /** NewTrie: an unset mask means '*'; empty words are ignored by `Add`. */
    constructor (ws: seq<string>, mask: char)
      ensures Valid() && Built()
      ensures words == (set w | w in ws && w != "")
      ensures this.mask == (if mask == '\0' then '*' else mask)
    {
      var n := new Node(0, "");
      root := n;
      at, nodes := map["" := n], {n};
      words := {};
      this.mask := if mask == '\0' then DEFAULT_MASK else mask;
      new;
      for i := 0 to |ws|
        invariant Valid() && fresh(nodes)
        invariant root in nodes && root.fail == null
        invariant words == (set w | w in ws[..i] && w != "")
        invariant this.mask == (if mask == '\0' then DEFAULT_MASK else mask)
      {
        assert ws[..i + 1] == ws[..i] + [ws[i]];
        Add(ws[i]);
      }
      assert ws[..|ws|] == ws;
      Build();
    }

    /** node.add: walk the word, creating the missing nodes. */
    method Add(word: string)
      requires Valid()
      modifies this, nodes
      ensures Valid() && root == old(root) && mask == old(mask) && root.fail == old(root.fail)
      ensures fresh(nodes - old(nodes)) && old(nodes) <= nodes
      ensures words == old(words) + (if word == "" then {} else {word})
      ensures at.Keys == old(at.Keys) + (set i | 0 <= i <= |word| :: word[..i])
    {
      if |word| == 0 { return; }
      var nd := root;
      for i := 0 to |word|
        invariant Valid() && root == old(root) && mask == old(mask) && root.fail == old(root.fail)
        invariant fresh(nodes - old(nodes)) && old(nodes) <= nodes
        invariant words == old(words)
        invariant word[..i] in at && nd == at[word[..i]]
        invariant at.Keys == old(at.Keys) + (set j | 0 <= j <= i :: word[..j])
      {
        assert word[..i + 1] == Ext(word[..i], word[i]) && NodeOk(word[..i]);
        nd := ChildFor(nd, word[..i], word[i]);
      }
      assert word[..|word|] == word && NodeOk(word);
      Finish(nd, word);
    }

    /** The child for one more character, created when it is missing. */
    method ChildFor(nd: Node, ghost p: string, c: char) returns (child: Node)
      requires Valid() && p in at && nd == at[p]
      modifies this`at, this`nodes, nd`children
      ensures Valid() && fresh(nodes - old(nodes)) && old(nodes) <= nodes
      ensures at.Keys == old(at.Keys) + {Ext(p, c)} && child == at[Ext(p, c)]
    {
      assert NodeOk(p);
      if c in nd.children {
        child := nd.children[c];
      } else {
        child := new Node(nd.depth + 1, Ext(p, c));
        Attach(nd, p, c, child);
      }
    }

    method Finish(nd: Node, ghost word: string)
      requires Valid() && word in at && at[word] == nd && word != ""
      modifies this`words, nd`end
      ensures Valid() && words == old(words) + {word}
    {
      assert NodeOk(word);
      nd.end := true;
      words := words + {word};
      forall s | s in at ensures NodeOk(s) {
        assert old(NodeOk(s));
      }
    }

    /** Hang a new leaf under the node spelling `p`. */
    method Attach(nd: Node, ghost p: string, c: char, child: Node)
      requires Valid() && p in at && at[p] == nd && Ext(p, c) !in at
      requires child !in nodes && child.children == map[] && !child.end
      requires child.depth == |p| + 1 && child.name == Ext(p, c)
      modifies this`at, this`nodes, nd`children
      ensures Valid() && at == old(at)[Ext(p, c) := child] && nodes == old(nodes) + {child}
    {
      ghost var q := Ext(p, c);
      assert Parent(q) == p && NodeOk(p);
      nd.children := nd.children[c := child];
      at, nodes := at[q := child], nodes + {child};
      assert forall s {:trigger Parent(s)} :: s in at && s != "" && s != q ==> Parent(s) in old(at);
      forall s | s in at ensures NodeOk(s) {
        if s != q {
          assert old(NodeOk(s));
          forall d ensures Ext(s, d) == q ==> s == p && d == c {
            assert Parent(Ext(s, d)) == s && Ext(s, d)[|s|] == d;
          }
        } else {
          forall d ensures Ext(q, d) !in at {
            assert Parent(Ext(q, d)) == q;
          }
        }
      }
    }

    // ---------- node.build ----------

    /** `names` names the queued nodes, each once. */
    ghost predicate Queued(queue: seq<Node>, names: seq<string>)
      reads this
    {
      && |queue| == |names|
      && (forall i :: 0 <= i < |names| ==> names[i] in at && names[i] != "" && queue[i] == at[names[i]])
      && (forall i, j :: 0 <= i < j < |names| ==> names[i] != names[j])
    }

    /** Everything seen so far is linked. */
    ghost predicate SeenLinked(names: seq<string>, done: set<string>)
      reads this, nodes`fail
    {
      && "" in at
      && (forall s :: s in done || s in names ==> s in at && at[s] in nodes)
      && (forall s {:trigger Linked(s)} :: s in done || s in names ==> Linked(s))
    }

    /** node.build: link every node, breadth first. */
    method Build()
      requires Valid() && root in nodes && root.fail == null
      modifies nodes`fail
      ensures Valid() && Built()
    {
      hide SeenLinked, Fail, PrefixClosed, Frontier, Queued, NodeOk, Linked, Built;
      var queue: seq<Node>;
      ghost var names: seq<string>;
      queue, names := LinkTopLevel();
      ghost var done: set<string> := {""};
      ghost var level := 1;
      while |queue| > 0
        invariant Queued(queue, names)
        invariant Frontier(at.Keys, names, done, level)
        invariant SeenLinked(names, done)
        decreases at.Keys - done
      {
        Head(queue, names, done, level);
        ghost var s := names[0];
        var nd := queue[0];
        if |s| > level {
          NextLevel(at.Keys, names, done, level);
          level := level + 1;
        }
        assert names == [s] + names[1..] && queue == [nd] + queue[1..];
        queue, names := LinkChildren(nd, s, queue[1..], names[1..], done, level);
        done := done + {s};
      }
      Head(queue, names, done, level);
      assert names == [];
      AllLinked(done, level);
    }

    lemma Head(queue: seq<Node>, names: seq<string>, done: set<string>, level: nat)
      requires Queued(queue, names) && Frontier(at.Keys, names, done, level)
      ensures |names| == |queue|
      ensures queue != [] ==> && names[0] in at && names[0] !in done && queue[0] == at[names[0]]
                              && level <= |names[0]| <= level + 1
    {}

    lemma AllLinked(done: set<string>, level: nat)
      requires Valid() && Frontier(at.Keys, [], done, level) && SeenLinked([], done)
      ensures Built()
    {
      forall s | s in at && NodeOk(s) ensures Linked(s) {
        AllReached(at.Keys, done, level, s);
      }
    }

    /** The children of the root fail to the root; they start the queue. */
    method LinkTopLevel() returns (queue: seq<Node>, ghost names: seq<string>)
      requires Valid() && root in nodes && root.fail == null
      modifies nodes`fail
      ensures Queued(queue, names)
      ensures Frontier(at.Keys, names, {""}, 1) && SeenLinked(names, {""})
    {
      hide Frontier, Fail, Ext;
      queue, names := [], [];
      var todo := root.children.Keys;
      assert NodeOk("");
      while todo != {}
        invariant todo <= root.children.Keys
        invariant Queued(queue, names) && SeenLinked(names, {""})
        invariant forall i :: 0 <= i < |names| ==> names[i] in at && |names[i]| == 1 && names[i][0] !in todo
        invariant forall c {:trigger Ext("", c)} :: c in root.children.Keys - todo ==> Ext("", c) in names
      {
        var c :| c in todo;
        todo := todo - {c};
        var child := root.children[c];
        ghost var t := Ext("", c);
        TopName(c);
        assert NodeOk(t);
        SetFail(child, t, root, names, {""});
        queue := queue + [child];
        names := names + [t];
      }
      FirstFrontier(at.Keys, names);
    }

    lemma TopName(c: char)
      requires "" in at
      ensures |Ext("", c)| == 1 && Ext("", c)[0] == c && Fail(at.Keys, Ext("", c)) == ""
    {}

    /** Assigning one fail link disturbs nothing else. */
    method SetFail(child: Node, ghost t: string, target: Node, ghost names: seq<string>, ghost done: set<string>)
      requires Valid() && SeenLinked(names, done)
      requires t in at && t != "" && at[t] == child && target == at[Fail(at.Keys, t)]
      modifies child`fail
      ensures SeenLinked(names + [t], done)
    {
      hide Fail, Ext, PrefixClosed;
      assert NodeOk(t);
      child.fail := target;
      forall s | s in done || s in names + [t] ensures s in at && at[s] in nodes && Linked(s) {
        if s != t {
          assert old(Linked(s)) && NodeOk(s);
        }
      }
    }

    /** Visit the children of one node: append each to the queue and set its fail link. */
    method LinkChildren(nd: Node, ghost s: string, queue0: seq<Node>, ghost names0: seq<string>,
                        ghost done: set<string>, ghost level: nat)
      returns (queue: seq<Node>, ghost names: seq<string>)
      requires Valid() && s in at && at[s] == nd && |s| == level
      requires Queued([nd] + queue0, [s] + names0) && Frontier(at.Keys, [s] + names0, done, level)
      requires SeenLinked([s] + names0, done)
      modifies nodes`fail
      ensures Queued(queue, names) && Frontier(at.Keys, names, done + {s}, level)
      ensures SeenLinked(names, done + {s})
    {
      hide Linked, SeenLinked, Queued, Frontier, Fail, Parent;
      queue, names := queue0, names0;
      var todo := nd.children.Keys;
      Dequeue(queue0, names0, nd, s, done);
      assert NodeOk(s);
      while todo != {}
        invariant todo <= nd.children.Keys
        invariant Queued(queue, names) && SeenLinked(names, done + {s})
        invariant names0 <= names
        invariant forall i :: |names0| <= i < |names| ==>
                    names[i] in at && |names[i]| == level + 1 && Parent(names[i]) == s && names[i][level] !in todo
        invariant forall c {:trigger Ext(s, c)} :: c in nd.children.Keys - todo ==> Ext(s, c) in names
      {
        var c :| c in todo;
        todo := todo - {c};
        queue, names := LinkChild(nd, s, c, queue, names, names0, done, level);
      }
      Advance(at.Keys, names0, names, done, level, s);
    }

    method LinkChild(nd: Node, ghost s: string, c: char, queue0: seq<Node>, ghost names: seq<string>,
                     ghost names0: seq<string>, ghost done: set<string>, ghost level: nat)
      returns (queue: seq<Node>, ghost names': seq<string>)
      requires Valid() && s in at && at[s] == nd && |s| == level && c in nd.children
      requires Queued(queue0, names) && SeenLinked(names, done + {s})
      requires Frontier(at.Keys, [s] + names0, done, level) && names0 <= names
      requires forall i :: |names0| <= i < |names| ==> |names[i]| == level + 1 && names[i][level] != c
      modifies nodes`fail
      ensures names' == names + [Ext(s, c)] && Ext(s, c) in at && Parent(Ext(s, c)) == s
      ensures Queued(queue, names') && SeenLinked(names', done + {s})
    {
      hide SeenLinked, Linked, Fail, Frontier, PrefixClosed, Ext;
      ghost var t := Ext(s, c);
      assert NodeOk(s);
      var child := nd.children[c];
      NewChild(at.Keys, names0, done, level, s, c);
      var f := FailTarget(nd, s, c, names, names0, done, level);
      assert t !in names by {
        forall i | 0 <= i < |names| ensures names[i] != t {
          assert i < |names0| ==> names[i] in names0;
        }
      }
      assert NodeOk(t);
      SetFail(child, t, f, names, done + {s});
      queue := queue0 + [child];
      names' := names + [t];
    }

    lemma Dequeue(queue: seq<Node>, names: seq<string>, nd: Node, s: string, done: set<string>)
      requires Queued([nd] + queue, [s] + names) && SeenLinked([s] + names, done)
      ensures Queued(queue, names) && SeenLinked(names, done + {s}) && s !in names
    {
      assert ([s] + names)[0] == s;
      forall i | 0 <= i < |names|
        ensures names[i] == ([s] + names)[i + 1] && queue[i] == ([nd] + queue)[i + 1] {}
      assert forall t :: t in [s] + names <==> t == s || t in names;
    }

    /** The loop that climbs the fail links to find the fail target of a child. */
    method FailTarget(nd: Node, ghost s: string, c: char, ghost names: seq<string>, ghost names0: seq<string>,
                      ghost done: set<string>, ghost level: nat) returns (f: Node)
      requires Valid() && s in at && s != "" && at[s] == nd && |s| == level
      requires SeenLinked(names, done + {s})
      requires Frontier(at.Keys, [s] + names0, done, level) && names0 <= names
      ensures f == at[Fail(at.Keys, Ext(s, c))]
    {
      FailOfChild(at.Keys, s, c);
      ghost var goal := Fail(at.Keys, Ext(s, c));
      var cur: Node? := nd;
      ghost var p := s;
      f := root;
      while cur != null
        invariant cur != null && p in at && cur == at[p] && |p| <= level
        invariant if p == "" then goal == "" else goal == Step(at.Keys, Fail(at.Keys, p), c)
        decreases |p|
      {
        assert p in done + {s} || p in names by {
          assert p in done || p in [s] + names0;
          assert forall t :: t in names0 ==> t in names;
        }
        assert NodeOk(p) && Linked(p);
        if cur.fail == null {
          f := root;
          break;
        }
        ghost var q := Fail(at.Keys, p);
        assert NodeOk(q);
        if c in cur.fail.children {
          f := cur.fail.children[c];
          break;
        }
        cur := cur.fail;
        p := q;
      }
    }

    // ---------- node.find ----------

    /** node.find: exactly the brute-force list of occurrences, in order. */
    method Find(chars: seq<char>) returns (scopes: seq<Scope>)
      requires Valid() && Built()
      ensures scopes == AllOccurrences(words, chars)
    {
      hide Longest, Step, EndingAt, IsSuffix, Built, NodeOk;
      scopes := [];
      var cur := root;
      ghost var p := "";
      LongestOfEmpty(at.Keys);
      assert chars[..0] == "";
      for i := 0 to |chars|
        invariant p == Longest(at.Keys, chars[..i]) && cur == at[p]
        invariant scopes == OccurrencesUpTo(words, chars, i)
      {
        var child: Node?;
        ScanStep(at.Keys, words, chars, i);
        NoneLeft(words, chars, i + 1);
        child, cur, p := Goto(cur, p, chars[i]);
        if child == null { continue; }
        scopes := Report(child, p, chars, i, scopes);
      }
      assert chars[..|chars|] == chars;
    }

    /** One character of the scan: `child` is null when no suffix can be continued. */
    method Goto(cur0: Node, ghost p0: string, c: char) returns (child: Node?, cur: Node, ghost p: string)
      requires Valid() && Built() && p0 in at && cur0 == at[p0]
      ensures p == Step(at.Keys, p0, c) && cur == at[p]
      ensures child == if p == "" then null else cur
    {
      cur, p := cur0, p0;
      assert NodeOk(p) && NodeOk("");
      child := if c in cur.children then cur.children[c] else null;
      if child != null {
        cur, p := child, Ext(p, c);
      } else {
        while cur != root
          invariant child == null && p in at && cur == at[p] && NodeOk(p)
          invariant c !in cur.children && Step(at.Keys, p, c) == Step(at.Keys, p0, c)
          decreases |p|
        {
          assert Linked(p);
          cur, p := cur.fail, Fail(at.Keys, p);
          assert NodeOk(p);
          if c in cur.children {
            child := cur.children[c];
            cur, p := child, Ext(p, c);
            break;
          }
        }
      }
    }

    /** Follow the fail links from the current node and report every word met. */
    method Report(child0: Node, ghost p: string, chars: seq<char>, i: nat, scopes0: seq<Scope>)
      returns (scopes: seq<Scope>)
      requires Valid() && Built() && p in at && child0 == at[p]
      requires |p| <= i + 1 <= |chars| && p == chars[i + 1 - |p|..i + 1]
      ensures scopes == scopes0 + EndingAt(words, chars, i + 1, i + 1 - |p|)
    {
      hide EndingAt, Longest, Fail;
      NoneLeft(words, chars, i + 1);
      scopes := scopes0;
      var child := child0;
      ghost var t := p;
      ghost var goal := scopes0 + EndingAt(words, chars, i + 1, i + 1 - |p|);
      assert NodeOk("");
      while child != root
        invariant t in at && child == at[t] && NodeOk(t) && |t| <= i + 1 && t == chars[i + 1 - |t|..i + 1]
        invariant scopes + EndingAt(words, chars, i + 1, i + 1 - |t|) == goal
        decreases |t|
      {
        ReportStep(at.Keys, words, chars, i + 1, t);
        ghost var rest := EndingAt(words, chars, i + 1, i + 1 - |Fail(at.Keys, t)|);
        assert scopes + ([Scope(i + 1 - |t|, i + 1)] + rest) == scopes + [Scope(i + 1 - |t|, i + 1)] + rest;
        assert scopes + ([] + rest) == scopes + rest;
        if child.end {
          scopes := scopes + [Scope(i + 1 - child.depth, i + 1)];
        }
        assert Linked(t);
        child := child.fail;
        t := Fail(at.Keys, t);
        assert NodeOk(t);
      }
    }

    // ---------- trie.go ----------

    /** Trie.FindKeywords: the distinct words that occur in the text, each once. */
    method FindKeywords(text: string) returns (keywords: seq<string>)
      requires Valid() && Built()
      ensures forall w :: w in keywords <==> w in words && Occurs(text, w)
      ensures forall i, j :: 0 <= i < j < |keywords| ==> keywords[i] != keywords[j]
    {
      if |text| == 0 {
        return [];
      }
      var scopes := Find(text);
      KeywordsAreTheOccurringWords(words, text, scopes);
      keywords := CollectKeywords(text, scopes);
    }

    /** collectKeywords: a set of the matched substrings, listed in the map's arbitrary order. */
    static method CollectKeywords(chars: seq<char>, scopes: seq<Scope>) returns (keywords: seq<string>)
      requires forall o :: o in scopes ==> o.start <= o.stop <= |chars|
      ensures forall w :: w in keywords <==> exists o :: o in scopes && w == chars[o.start..o.stop]
      ensures forall i, j :: 0 <= i < j < |keywords| ==> keywords[i] != keywords[j]
    {
      var found: set<string> := {};
      for i := 0 to |scopes|
        invariant forall w :: w in found <==> exists o :: o in scopes[..i] && w == chars[o.start..o.stop]
      {
        found := found + {chars[scopes[i].start..scopes[i].stop]};
        assert scopes[..i + 1] == scopes[..i] + [scopes[i]];
      }
      assert scopes[..|scopes|] == scopes;
      keywords := [];
      var rest := found;
      while rest != {}
        invariant rest <= found
        invariant forall w :: w in keywords <==> w in found - rest
        invariant forall i, j :: 0 <= i < j < |keywords| ==> keywords[i] != keywords[j]
      {
        var k :| k in rest;
        assert k !in keywords;
        rest := rest - {k};
        keywords := keywords + [k];
      }
    }

    /** Trie.Filter: masks exactly the covered positions and reports exactly the words that occur. */
    method Filter(text: string) returns (sentence: string, keywords: seq<string>, found: bool)
      requires Valid() && Built()
      ensures |sentence| == |text|
      ensures forall i :: 0 <= i < |text| ==> sentence[i] == if Covered(words, text, i) then mask else text[i]
      ensures forall w :: w in keywords <==> w in words && Occurs(text, w)
      ensures forall i, j :: 0 <= i < j < |keywords| ==> keywords[i] != keywords[j]
      ensures found <==> exists w :: w in words && Occurs(text, w)
    {
      if |text| == 0 {
        return text, [], false;
      }
      var scopes := Find(text);
      KeywordsAreTheOccurringWords(words, text, scopes);
      keywords := CollectKeywords(text, scopes);
      found := |keywords| > 0;
      assert found ==> keywords[0] in keywords;
      var chars := new char[|text|](i requires 0 <= i < |text| => text[i]);
      assert chars[..] == text;
      for k := 0 to |scopes|
        invariant forall i :: 0 <= i < |text| ==>
                    chars[i] == if Hit(scopes[..k], i) then mask else text[i]
      {
        assert scopes[..k + 1] == scopes[..k] + [scopes[k]];
        ReplaceWithMask(chars, scopes[k].start, scopes[k].stop);
      }
      assert scopes[..|scopes|] == scopes;
      sentence := chars[..];
    }

    /** replaceWithAsterisk, in place. */
    method ReplaceWithMask(chars: array<char>, start: nat, stop: nat)
      requires start <= stop <= chars.Length
      modifies chars
      ensures forall i :: 0 <= i < chars.Length ==>
                chars[i] == if start <= i < stop then mask else old(chars[i])
    {
      for i := start to stop
        invariant forall j :: 0 <= j < chars.Length ==>
                    chars[j] == if start <= j < i then mask else old(chars[j])
      {
        chars[i] := mask;
      }
    }
  }
}
