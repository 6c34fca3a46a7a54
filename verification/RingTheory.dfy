/** Consistent hashing seen from outside: a list of virtual nodes in order of arrival. Each sits at
    the hash of its label; a value belongs to a node at the first occupied point at or after its
    hash, wrapping around. Nothing here asks for labels that hash without collisions. */
module RingTheory {
  import opened Arith
  import opened Decimals

  type HashFunc = string -> nat

  datatype Member<T> = Member(node: T, count: nat)

  datatype VirtualNode<T> = VirtualNode(at: nat, node: T)

  /** Where the i-th virtual node of a node sits. */
  function Point(hash: HashFunc, name: string, i: nat): (p: nat) {
    hash(name + Itoa(i))
  }

  /** The first n points of a node. */
  ghost function Points(hash: HashFunc, name: string, n: nat): (ps: seq<nat>)
    ensures |ps| == n && forall i: nat :: i < n ==> ps[i] == Point(hash, name, i)
  {
    if n == 0 then [] else Points(hash, name, n - 1) + [Point(hash, name, n - 1)]
  }

  /** The first n virtual nodes of a node. */
  ghost function Labels<T>(hash: HashFunc, node: T, name: string, n: nat): (vs: seq<VirtualNode<T>>)
    ensures |vs| == n && forall i: nat :: i < n ==> vs[i] == VirtualNode(Point(hash, name, i), node)
  {
    if n == 0 then [] else Labels(hash, node, name, n - 1) + [VirtualNode(Point(hash, name, n - 1), node)]
  }

  ghost function Positions<T>(vs: seq<VirtualNode<T>>): (ps: seq<nat>) {
    if vs == [] then [] else Positions(vs[..|vs| - 1]) + [vs[|vs| - 1].at]
  }

  /** The nodes at one point, in order of arrival. */
  ghost function At<T>(vs: seq<VirtualNode<T>>, p: nat): (ts: seq<T>) {
    if vs == [] then [] else
    var n := |vs| - 1;
    At(vs[..n], p) + (if vs[n].at == p then [vs[n].node] else [])
  }

  /** The virtual nodes of one node, and those of all others. */
  ghost function Only<T>(repr: T -> string, vs: seq<VirtualNode<T>>, name: string): (ws: seq<VirtualNode<T>>) {
    if vs == [] then [] else
    var n := |vs| - 1;
    Only(repr, vs[..n], name) + (if repr(vs[n].node) == name then [vs[n]] else [])
  }

  ghost function Without<T>(repr: T -> string, vs: seq<VirtualNode<T>>, name: string): (ws: seq<VirtualNode<T>>) {
    if vs == [] then [] else
    var n := |vs| - 1;
    Without(repr, vs[..n], name) + (if repr(vs[n].node) == name then [] else [vs[n]])
  }

  function Kept<T>(repr: T -> string, held: seq<T>, name: string): (r: seq<T>) {
    if held == [] then [] else
    var n := |held| - 1;
    Kept(repr, held[..n], name) + (if repr(held[n]) != name then [held[n]] else [])
  }

  /** The virtual nodes are those the members call for: of each its labels, in order. */
  ghost predicate Accounts<T>(hash: HashFunc, repr: T -> string, members: map<string, Member<T>>,
                                    vs: seq<VirtualNode<T>>) {
    && (forall s :: s in members ==> repr(members[s].node) == s)
    && (forall s {:trigger Only(repr, vs, s)} ::
          Only(repr, vs, s) == if s in members then Labels(hash, members[s].node, s, members[s].count) else [])
  }

  // ---------- one virtual node more ----------

  lemma PushPosition<T>(vs: seq<VirtualNode<T>>, v: VirtualNode<T>)
    ensures Positions(vs + [v]) == Positions(vs) + [v.at]
  {
    assert (vs + [v])[..|vs|] == vs;
  }

  lemma PushAt<T>(vs: seq<VirtualNode<T>>, v: VirtualNode<T>, p: nat)
    ensures At(vs + [v], p) == if v.at == p then At(vs, p) + [v.node] else At(vs, p)
  {
    assert (vs + [v])[..|vs|] == vs;
  }

  lemma PushName<T>(repr: T -> string, vs: seq<VirtualNode<T>>, v: VirtualNode<T>, s: string)
    ensures Only(repr, vs + [v], s) == if repr(v.node) == s then Only(repr, vs, s) + [v] else Only(repr, vs, s)
    ensures Without(repr, vs + [v], s) == if repr(v.node) == s then Without(repr, vs, s) else Without(repr, vs, s) + [v]
  {
    assert (vs + [v])[..|vs|] == vs;
  }

  lemma {:induction false} PositionsAre<T>(vs: seq<VirtualNode<T>>)
    ensures |Positions(vs)| == |vs| && forall i :: 0 <= i < |vs| ==> Positions(vs)[i] == vs[i].at
  {
    if vs != [] { PositionsAre(vs[..|vs| - 1]); }
  }

  lemma Split<T>(vs: seq<VirtualNode<T>>) returns (front: seq<VirtualNode<T>>, v: VirtualNode<T>)
    requires vs != []
    ensures vs == front + [v] && |vs| == |front| + 1 && front == vs[..|front|] && v == vs[|front|]
  {
    front, v := vs[..|vs| - 1], vs[|vs| - 1];
  }

  lemma {:induction false} NoneAt<T>(vs: seq<VirtualNode<T>>, p: nat)
    ensures p in Positions(vs) <==> At(vs, p) != []
    ensures forall t :: t in At(vs, p) ==> VirtualNode(p, t) in vs
  {
    if vs != [] {
      NoneAt(vs[..|vs| - 1], p);
    }
  }

  // ---------- removing a node ----------

  /** Dropping the node from the nodes at each point is dropping its virtual nodes. */
  lemma {:induction false} AtWithout<T>(repr: T -> string, vs: seq<VirtualNode<T>>, name: string, p: nat)
    ensures At(Without(repr, vs, name), p) == Kept(repr, At(vs, p), name)
  {
    if vs != [] {
      var front, v := Split(vs);
      PushAt(front, v, p);
      PushName(repr, front, v, name);
      AtWithout(repr, front, name, p);
      KeptPush(repr, At(front, p), v.node, name);
      PushAt(Without(repr, front, name), v, p);
      hide At, Without, Kept;
    }
  }

  lemma KeptPush<T>(repr: T -> string, held: seq<T>, t: T, name: string)
    ensures Kept(repr, held + [t], name)
         == if repr(t) != name then Kept(repr, held, name) + [t] else Kept(repr, held, name)
  {
    assert (held + [t])[..|held|] == held;
  }

  lemma {:induction false} KeptTwice<T>(repr: T -> string, held: seq<T>, name: string)
    ensures Kept(repr, Kept(repr, held, name), name) == Kept(repr, held, name)
  {
    if held != [] {
      var n := |held| - 1;
      KeptTwice(repr, held[..n], name);
      KeptPush(repr, Kept(repr, held[..n], name), held[n], name);
      if repr(held[n]) == name {
        assert Kept(repr, held, name) == Kept(repr, held[..n], name);
      }
    }
  }

  /** Nobody else is touched. */
  lemma {:induction false} OnlyWithout<T>(repr: T -> string, vs: seq<VirtualNode<T>>, name: string, s: string)
    ensures Only(repr, Without(repr, vs, name), s) == if s == name then [] else Only(repr, vs, s)
  {
    if vs != [] {
      var front, v := Split(vs);
      PushName(repr, front, v, s);
      PushName(repr, front, v, name);
      OnlyWithout(repr, front, name, s);
      PushName(repr, Without(repr, front, name), v, s);
      hide Only, Without;
    }
  }

  /** The points of a list are those of one node and those of the others. */
  lemma {:induction false} PositionsSplit<T>(repr: T -> string, vs: seq<VirtualNode<T>>, name: string)
    ensures multiset(Positions(vs))
         == multiset(Positions(Without(repr, vs, name))) + multiset(Positions(Only(repr, vs, name)))
  {
    if vs != [] {
      var front, v := Split(vs);
      PushName(repr, front, v, name);
      PushPosition(front, v);
      PositionsSplit(repr, front, name);
      PushPosition(Without(repr, front, name), v);
      PushPosition(Only(repr, front, name), v);
      hide Only, Without, Positions;
    }
  }

  lemma {:induction false} PositionsOfLabels<T>(hash: HashFunc, node: T, name: string, n: nat)
    ensures Positions(Labels(hash, node, name, n)) == Points(hash, name, n)
  {
    PositionsAre(Labels(hash, node, name, n));
  }

  lemma AccountsWithout<T>(hash: HashFunc, repr: T -> string, members: map<string, Member<T>>,
                                 vs: seq<VirtualNode<T>>, name: string)
    requires Accounts(hash, repr, members, vs)
    ensures Accounts(hash, repr, members - {name}, Without(repr, vs, name))
  {
    forall s ensures Only(repr, Without(repr, vs, name), s) == if s == name then [] else Only(repr, vs, s) {
      OnlyWithout(repr, vs, name, s);
    }
  }

  /** The points beyond the first `count`. */
  lemma PointsBeyond(hash: HashFunc, name: string, count: nat, replicas: nat) returns (extra: seq<nat>)
    requires count <= replicas
    ensures Points(hash, name, replicas) == Points(hash, name, count) + extra && |extra| == replicas - count
    ensures forall k: nat :: k < |extra| ==> extra[k] == Point(hash, name, count + k)
  {
    hide Point, Points;
    extra := Points(hash, name, replicas)[count..];
  }

  /** Remove takes one key away for every label a node could have, owned or not. The keys of the
      others survive exactly when no label the node did not own sits on a point of theirs. */
  lemma OthersKeepTheirKeys(hash: HashFunc, name: string, count: nat, replicas: nat, others: multiset<nat>)
    requires count <= replicas
    ensures others + multiset(Points(hash, name, count)) - multiset(Points(hash, name, replicas)) == others
       <==> forall i: nat :: count <= i < replicas ==> Point(hash, name, i) !in others
  {
    hide Points, Point;
    var extra := PointsBeyond(hash, name, count, replicas);
    TakenOffTwice(others, multiset(Points(hash, name, count)), multiset(extra));
    NoneOf(extra, others);
    assert forall i: nat :: count <= i < replicas ==> Point(hash, name, i) == extra[i - count];
  }

  lemma NoneOf(extra: seq<nat>, others: multiset<nat>)
    ensures (forall p :: p in multiset(extra) ==> p !in others) <==>
            (forall k: nat :: k < |extra| ==> extra[k] !in others)
  {
    if forall p :: p in multiset(extra) ==> p !in others {
      forall k: nat | k < |extra| ensures extra[k] !in others { assert extra[k] in multiset(extra); }
    }
  }

  lemma TakenOffTwice(others: multiset<nat>, own: multiset<nat>, extra: multiset<nat>)
    ensures others + own - (own + extra) == others <==> forall p :: p in extra ==> p !in others
  {
    assert others + own - (own + extra) == others - extra;
    if others - extra == others {
      forall p | p in extra ensures p !in others {
        assert (others - extra)[p] == others[p];
      }
    }
    if forall p :: p in extra ==> p !in others {
      forall p ensures (others - extra)[p] == others[p] {}
    }
  }

  /** And no key is ever left that is not somebody's point. */
  lemma NoKeyTooMany(hash: HashFunc, name: string, count: nat, replicas: nat, others: multiset<nat>,
                     keys: multiset<nat>)
    requires count <= replicas && keys <= others + multiset(Points(hash, name, count))
    ensures keys - multiset(Points(hash, name, replicas)) <= others
  {
    hide Points, Point;
    var extra := PointsBeyond(hash, name, count, replicas);
    TakenOff(keys, others, multiset(Points(hash, name, count)), multiset(extra));
  }

  lemma TakenOff(keys: multiset<nat>, others: multiset<nat>, own: multiset<nat>, extra: multiset<nat>)
    requires keys <= others + own
    ensures keys - (own + extra) <= others
  {}

  // ---------- adding a node ----------

  lemma {:induction false} OnlyUniform<T>(repr: T -> string, vs: seq<VirtualNode<T>>, name: string, s: string)
    requires forall i :: 0 <= i < |vs| ==> repr(vs[i].node) == name
    ensures Only(repr, vs, s) == if s == name then vs else []
  {
    if vs != [] { OnlyUniform(repr, vs[..|vs| - 1], name, s); }
  }

  lemma LabelsAreOnes<T>(hash: HashFunc, repr: T -> string, node: T, n: nat, s: string)
    ensures Only(repr, Labels(hash, node, repr(node), n), s)
         == if s == repr(node) then Labels(hash, node, repr(node), n) else []
  {
    hide Only, Labels;
    OnlyUniform(repr, Labels(hash, node, repr(node), n), repr(node), s);
  }

  lemma {:induction false} ConcatOnly<T>(repr: T -> string, vs: seq<VirtualNode<T>>, ws: seq<VirtualNode<T>>, s: string)
    ensures Only(repr, vs + ws, s) == Only(repr, vs, s) + Only(repr, ws, s)
  {
    if ws == [] {
      assert vs + ws == vs;
    } else {
      hide Only, Without;
      var front, w := Split(ws);
      assert vs + ws == (vs + front) + [w];
      ConcatOnly(repr, vs, front, s);
      PushName(repr, front, w, s);
      PushName(repr, vs + front, w, s);
    }
  }

  lemma {:induction false} ConcatWithout<T>(repr: T -> string, vs: seq<VirtualNode<T>>, ws: seq<VirtualNode<T>>,
                                            s: string)
    ensures Without(repr, vs + ws, s) == Without(repr, vs, s) + Without(repr, ws, s)
  {
    if ws == [] {
      assert vs + ws == vs;
    } else {
      hide Only, Without;
      var front, w := Split(ws);
      assert vs + ws == (vs + front) + [w];
      ConcatWithout(repr, vs, front, s);
      PushName(repr, front, w, s);
      PushName(repr, vs + front, w, s);
    }
  }

  lemma AccountsAdd<T>(hash: HashFunc, repr: T -> string, members: map<string, Member<T>>,
                             vs: seq<VirtualNode<T>>, m: Member<T>)
    requires Accounts(hash, repr, members, vs) && repr(m.node) !in members
    ensures Accounts(hash, repr, members[repr(m.node) := m], vs + Labels(hash, m.node, repr(m.node), m.count))
  {
    var ws := Labels(hash, m.node, repr(m.node), m.count);
    forall s ensures Only(repr, vs + ws, s) == Only(repr, vs, s) + (if s == repr(m.node) then ws else []) {
      ConcatOnly(repr, vs, ws, s);
      LabelsAreOnes(hash, repr, m.node, m.count, s);
    }
  }

  // ---------- lookups ----------

  /** `p` is the first point at or after `h`, or the very first one when none is. */
  ghost predicate Clockwise(ps: multiset<nat>, h: nat, p: nat) {
    && p in ps
    && (p >= h ==> forall q :: q in ps && q >= h ==> p <= q)
    && (p < h ==> forall q :: q in ps ==> p <= q < h)
  }

  /** How far one has to go clockwise from h to p on a ring of m places. */
  function Distance(h: nat, p: nat, m: nat): (d: int)
    requires m > 0
  {
    (p + m - h) % m
  }

  /** The first point clockwise is the nearest one. */
  lemma ClockwiseIsNearest(ps: multiset<nat>, h: nat, p: nat, m: nat)
    requires h < m && p < m && forall q :: q in ps ==> q < m
    ensures Clockwise(ps, h, p) <==> p in ps && forall q :: q in ps ==> Distance(h, p, m) <= Distance(h, q, m)
  {
    WrapAround(p + m - h, m);
    forall q | q in ps ensures Distance(h, q, m) == if q >= h then q - h else q + m - h {
      WrapAround(q + m - h, m);
    }
    hide Distance;
    if p in ps && forall q :: q in ps ==> Distance(h, p, m) <= Distance(h, q, m) {
      assert Distance(h, p, m) == if p >= h then p - h else p + m - h;
    }
  }

  /** The node a value gets among those at its point. */
  function Pick<T>(found: seq<T>, inner: nat): (t: T)
    requires found != []
  {
    found[inner % |found|]
  }

  /** A value with hashes `h` and `inner` belongs to this node. */
  ghost predicate BelongsTo<T>(vs: seq<VirtualNode<T>>, h: nat, inner: nat, t: T) {
    exists p :: Clockwise(multiset(Positions(vs)), h, p) && At(vs, p) != [] && t == Pick(At(vs, p), inner)
  }

  /** Every value belongs to exactly one node, unless there is none. */
  lemma BelongsToOne<T>(vs: seq<VirtualNode<T>>, h: nat, inner: nat, t: T, u: T)
    requires BelongsTo(vs, h, inner, t) && BelongsTo(vs, h, inner, u)
    ensures t == u
  {
    var p :| Clockwise(multiset(Positions(vs)), h, p) && At(vs, p) != [] && t == Pick(At(vs, p), inner);
    var q :| Clockwise(multiset(Positions(vs)), h, q) && At(vs, q) != [] && u == Pick(At(vs, q), inner);
    assert p == q;
  }

  lemma FewerPoints<T>(repr: T -> string, vs: seq<VirtualNode<T>>, name: string, h: nat, p: nat)
    requires Clockwise(multiset(Positions(vs)), h, p) && Kept(repr, At(vs, p), name) != []
    ensures Clockwise(multiset(Positions(Without(repr, vs, name))), h, p)
  {
    PositionsSplit(repr, vs, name);
    AtWithout(repr, vs, name, p);
    NoneAt(Without(repr, vs, name), p);
    hide Positions, At, Kept, Without, Only;
    var all, fewer := multiset(Positions(vs)), multiset(Positions(Without(repr, vs, name)));
    assert forall q :: q in fewer ==> q in all;
  }

  lemma {:induction false} PickIsThere<T>(repr: T -> string, held: seq<T>, name: string, t: T)
    requires t in held && repr(t) != name
    ensures t in Kept(repr, held, name)
  {
    var n := |held| - 1;
    if held[n] != t { PickIsThere(repr, held[..n], name, t); }
  }

  /** What removing a node does to a value that belongs to another: it stays where it is, exactly when
      the nodes left at its point still give it that node. */
  lemma RemovalMovesOnlyItsOwn<T>(repr: T -> string, vs: seq<VirtualNode<T>>, name: string, h: nat, inner: nat, p: nat)
    requires Clockwise(multiset(Positions(vs)), h, p) && At(vs, p) != []
    requires repr(Pick(At(vs, p), inner)) != name
    ensures var t, left := Pick(At(vs, p), inner), Kept(repr, At(vs, p), name);
            && left != []
            && (BelongsTo(Without(repr, vs, name), h, inner, t) <==> Pick(left, inner) == t)
            && ((forall u :: u in At(vs, p) ==> repr(u) != name) || |left| == 1 ==>
                  BelongsTo(Without(repr, vs, name), h, inner, t))
  {
    hide At, Without, Kept, Positions, Clockwise;
    var ws, t := Without(repr, vs, name), Pick(At(vs, p), inner);
    var left := Kept(repr, At(vs, p), name);
    PickIsThere(repr, At(vs, p), name, t);
    FewerPoints(repr, vs, name, h, p);
    AtWithout(repr, vs, name, p);
    assert BelongsTo(ws, h, inner, Pick(left, inner));
    if BelongsTo(ws, h, inner, t) { BelongsToOne(ws, h, inner, t, Pick(left, inner)); }
    if forall u :: u in At(vs, p) ==> repr(u) != name { AllKept(repr, At(vs, p), name); }
  }

  lemma {:induction false} AllKept<T>(repr: T -> string, held: seq<T>, name: string)
    requires forall i :: 0 <= i < |held| ==> repr(held[i]) != name
    ensures Kept(repr, held, name) == held
  {
    if held != [] {
      AllKept(repr, held[..|held| - 1], name);
    }
  }

  /** When all virtual nodes sit at one point, the second hash alone chooses among them. */
  lemma {:induction false} AllAt<T>(vs: seq<VirtualNode<T>>, p: nat)
    requires forall i :: 0 <= i < |vs| ==> vs[i].at == p
    ensures |At(vs, p)| == |vs| && forall i :: 0 <= i < |vs| ==> At(vs, p)[i] == vs[i].node
  {
    if vs != [] { AllAt(vs[..|vs| - 1], p); }
  }

  lemma ChosenAtOnePoint<T>(vs: seq<VirtualNode<T>>, p: nat, h: nat, inner: nat, t: T)
    requires (forall i :: 0 <= i < |vs| ==> vs[i].at == p) && |vs| > 1 && BelongsTo(vs, h, inner, t)
    ensures t == vs[inner % |vs|].node
  {
    AllAt(vs, p);
    PositionsAre(vs);
    hide At, Positions;
    var q :| Clockwise(multiset(Positions(vs)), h, q) && At(vs, q) != [] && t == Pick(At(vs, q), inner);
    assert q in Positions(vs);
  }

  /** Adding a node, last, is what removing it undoes: so it takes values to itself, and any other
      value it moves is one that removing it would move back. */
  lemma AdditionUndone<T>(hash: HashFunc, repr: T -> string, vs: seq<VirtualNode<T>>, node: T, n: nat)
    requires Only(repr, vs, repr(node)) == []
    ensures Without(repr, vs + Labels(hash, node, repr(node), n), repr(node)) == vs
  {
    var ws := Labels(hash, node, repr(node), n);
    ConcatWithout(repr, vs, ws, repr(node));
    NoneOfIt(repr, vs, repr(node));
    AllOfIt(repr, ws, repr(node));
  }

  lemma {:induction false} NoneOfIt<T>(repr: T -> string, vs: seq<VirtualNode<T>>, name: string)
    requires Only(repr, vs, name) == []
    ensures Without(repr, vs, name) == vs
  {
    if vs != [] { NoneOfIt(repr, vs[..|vs| - 1], name); }
  }

  lemma {:induction false} AllOfIt<T>(repr: T -> string, ws: seq<VirtualNode<T>>, name: string)
    requires forall i :: 0 <= i < |ws| ==> repr(ws[i].node) == name
    ensures Without(repr, ws, name) == []
  {
    if ws != [] { AllOfIt(repr, ws[..|ws| - 1], name); }
  }

  // ---------- labels that hash without collisions ----------

  /** Virtual-node labels of these nodes hash without collisions. */
  ghost predicate NoCollision(hash: HashFunc, replicas: nat, names: set<string>) {
    forall r, s, i: nat, j: nat {:trigger Point(hash, r, i), Point(hash, s, j)} ::
      r in names && s in names && i < replicas && j < replicas && Point(hash, r, i) == Point(hash, s, j)
      ==> r == s && i == j
  }

  /** The labels themselves can clash: "a" + "11" is "a1" + "1", so no hash function keeps the
      virtual nodes of two such names apart. */
  lemma NumberedNamesClash(hash: HashFunc, replicas: nat, r: string)
    requires replicas > 11
    ensures !NoCollision(hash, replicas, {r, r + "1"})
  {
    assert Itoa(1) == "1" && Itoa(11) == Itoa(1) + "1";
    assert r + Itoa(11) == (r + "1") + Itoa(1);
    assert Point(hash, r, 11) == Point(hash, r + "1", 1);
  }

  /** No two of these labels are the same text. */
  ghost predicate LabelsDiffer(replicas: nat, names: set<string>) {
    forall r, s, i: nat, j: nat {:trigger r + Itoa(i), s + Itoa(j)} ::
      r in names && s in names && i < replicas && j < replicas && r + Itoa(i) == s + Itoa(j) ==> r == s && i == j
  }

  /** Labels of one node differ. */
  lemma OwnLabelsDiffer(replicas: nat, name: string)
    ensures LabelsDiffer(replicas, {name})
  {
    forall i: nat, j: nat | name + Itoa(i) == name + Itoa(j) ensures i == j {
      assert Itoa(i) == (name + Itoa(i))[|name|..] == (name + Itoa(j))[|name|..] == Itoa(j);
      ItoaInjective(i, j);
    }
  }

  const CHARS := 0x11_0000

  /** A hash function without any collision. */
  function Code(s: string): (n: nat) {
    if s == "" then 0 else Code(s[..|s| - 1]) * (CHARS + 1) + s[|s| - 1] as int + 1
  }

  lemma {:induction false} CodeInjective(s: string, t: string)
    requires Code(s) == Code(t)
    ensures s == t
  {
    if s != "" && t != "" {
      var m, n := |s| - 1, |t| - 1;
      CodeParts(s);
      CodeParts(t);
      hide Code;
      CodeInjective(s[..m], t[..n]);
      assert s == s[..m] + [s[m]] && t == t[..n] + [t[n]];
    }
  }

  lemma CodeParts(s: string)
    requires s != ""
    ensures Code(s) / (CHARS + 1) == Code(s[..|s| - 1]) && Code(s) % (CHARS + 1) == s[|s| - 1] as int + 1
  {
    DivModUnique(Code(s), CHARS + 1, Code(s[..|s| - 1]), s[|s| - 1] as int + 1);
  }

  /** There is a hash function without collisions for these names exactly when their labels differ; for
      one name there always is. */
  lemma NoCollisionIsPossible(replicas: nat, names: set<string>)
    ensures (exists hash: HashFunc :: NoCollision(hash, replicas, names)) <==> LabelsDiffer(replicas, names)
  {
    if LabelsDiffer(replicas, names) {
      var hash: HashFunc := Code;
      forall r, s, i: nat, j: nat {:trigger Point(hash, r, i), Point(hash, s, j)} |
        r in names && s in names && i < replicas && j < replicas && Point(hash, r, i) == Point(hash, s, j)
        ensures r == s && i == j
      {
        CodeInjective(r + Itoa(i), s + Itoa(j));
      }
      assert NoCollision(hash, replicas, names);
    }
    if hash: HashFunc :| NoCollision(hash, replicas, names) {
      forall r, s, i: nat, j: nat {:trigger r + Itoa(i), s + Itoa(j)} |
        r in names && s in names && i < replicas && j < replicas && r + Itoa(i) == s + Itoa(j)
        ensures r == s && i == j
      {
        assert Point(hash, r, i) == Point(hash, s, j);
      }
    }
  }

  /** So, whatever the hash function, removing a node that was added with no replicas can take away
      the only key of another, which stays on the ring. */
  lemma RemovalCanLoseAKey(hash: HashFunc, replicas: nat, r: string)
    requires replicas >= 100
    ensures multiset(Points(hash, r + "1", 1)) - multiset(Points(hash, r, replicas)) == multiset{}
  {
    hide Points, Point;
    LabelTen(hash, r);
    assert Points(hash, r, replicas)[10] == Point(hash, r + "1", 0);
    assert Points(hash, r + "1", 1) == [Point(hash, r + "1", 0)];
  }

  lemma LabelTen(hash: HashFunc, r: string)
    ensures Point(hash, r, 10) == Point(hash, r + "1", 0)
  {
    assert Itoa(0) == "0" && Itoa(1) == "1" && Itoa(10) == Itoa(1) + "0";
    assert r + Itoa(10) == (r + "1") + Itoa(0);
  }

  /** The virtual node in place i is the label of its node whose number is how many came before. */
  lemma {:induction false} WhichLabel<T>(repr: T -> string, vs: seq<VirtualNode<T>>, i: nat)
    requires i < |vs|
    ensures var s := repr(vs[i].node);
            var k := |Only(repr, vs[..i], s)|;
            k < |Only(repr, vs, s)| && Only(repr, vs, s)[k] == vs[i]
  {
    var front, v := Split(vs);
    PushName(repr, front, v, repr(vs[i].node));
    if i == |front| {
      assert vs[..i] == front;
    } else {
      WhichLabel(repr, front, i);
      assert vs[..i] == front[..i] && vs[i] == front[i];
    }
  }

  lemma {:induction false} CountsUp<T>(repr: T -> string, vs: seq<VirtualNode<T>>, i: nat, j: nat)
    requires i < j <= |vs|
    ensures |Only(repr, vs[..i], repr(vs[i].node))| < |Only(repr, vs[..j], repr(vs[i].node))|
    decreases j
  {
    var s := repr(vs[i].node);
    assert vs[..j] == vs[..j - 1] + [vs[j - 1]];
    PushName(repr, vs[..j - 1], vs[j - 1], s);
    if i < j - 1 { CountsUp(repr, vs, i, j - 1); }
  }

  /** Without collisions no two virtual nodes sit at one point. */
  lemma NoTwoAtOnePoint<T>(hash: HashFunc, repr: T -> string, replicas: nat, members: map<string, Member<T>>,
                                 vs: seq<VirtualNode<T>>, i: nat, j: nat)
    requires Accounts(hash, repr, members, vs) && NoCollision(hash, replicas, members.Keys)
    requires forall s :: s in members ==> members[s].count <= replicas
    requires i < j < |vs|
    ensures vs[i].at != vs[j].at
  {
    var r, s := repr(vs[i].node), repr(vs[j].node);
    WhichLabel(repr, vs, i);
    WhichLabel(repr, vs, j);
    var a, b := |Only(repr, vs[..i], r)|, |Only(repr, vs[..j], s)|;
    assert vs[i].at == Point(hash, r, a) && vs[j].at == Point(hash, s, b);
    if r == s { CountsUp(repr, vs, i, j); }
  }

  /** Without collisions the labels of a node sit on no point of another, so Remove loses no key. */
  lemma NoCollisionSparesOthers<T>(hash: HashFunc, repr: T -> string, replicas: nat, members: map<string, Member<T>>,
                                   vs: seq<VirtualNode<T>>, name: string, i: nat)
    requires Accounts(hash, repr, members, vs) && NoCollision(hash, replicas, members.Keys)
    requires forall s :: s in members ==> members[s].count <= replicas
    requires name in members && i < replicas
    ensures At(Without(repr, vs, name), Point(hash, name, i)) == []
  {
    hide At, Only, Without, Positions;
    var ws, p := Without(repr, vs, name), Point(hash, name, i);
    AccountsWithout(hash, repr, members, vs, name);
    NoneAt(ws, p);
    PositionsAre(ws);
    forall k | 0 <= k < |ws| ensures ws[k].at != p {
      WhichLabel(repr, ws, k);
      assert Only(repr, ws, repr(ws[k].node)) != [];
    }
  }

  lemma {:induction false} AtMostOne<T>(vs: seq<VirtualNode<T>>, p: nat)
    requires forall i, j :: 0 <= i < j < |vs| ==> vs[i].at != vs[j].at
    ensures |At(vs, p)| <= 1
  {
    if vs != [] {
      var front, v := Split(vs);
      AtMostOne(front, p);
      assert vs[..|vs| - 1] == front;
      NoneAt(front, v.at);
      PositionsAre(front);
      assert forall i :: 0 <= i < |front| ==> Positions(front)[i] == vs[i].at;
    }
  }

  lemma OneAtEachPoint<T>(hash: HashFunc, repr: T -> string, replicas: nat, members: map<string, Member<T>>,
                                vs: seq<VirtualNode<T>>, p: nat)
    requires Accounts(hash, repr, members, vs) && NoCollision(hash, replicas, members.Keys)
    requires forall s :: s in members ==> members[s].count <= replicas
    ensures |At(vs, p)| <= 1
  {
    forall i, j | 0 <= i < j < |vs| ensures vs[i].at != vs[j].at {
      NoTwoAtOnePoint(hash, repr, replicas, members, vs, i, j);
    }
    AtMostOne(vs, p);
  }

  lemma PickOnly<T>(found: seq<T>, inner: nat)
    requires |found| == 1
    ensures found == [Pick(found, inner)]
  {
    assert inner % 1 == 0;
  }

  /** Without collisions removing a node moves only the values that belonged to it ... */
  lemma RemovalWithoutCollisions<T>(hash: HashFunc, repr: T -> string, replicas: nat, members: map<string, Member<T>>,
                                          vs: seq<VirtualNode<T>>, name: string, h: nat, inner: nat, t: T)
    requires Accounts(hash, repr, members, vs) && NoCollision(hash, replicas, members.Keys)
    requires forall s :: s in members ==> members[s].count <= replicas
    requires BelongsTo(vs, h, inner, t) && repr(t) != name
    ensures BelongsTo(Without(repr, vs, name), h, inner, t)
  {
    hide Accounts, NoCollision, Clockwise, At, Positions, Kept, Without, Pick;
    var p :| Clockwise(multiset(Positions(vs)), h, p) && At(vs, p) != [] && t == Pick(At(vs, p), inner);
    OneAtEachPoint(hash, repr, replicas, members, vs, p);
    PickOnly(At(vs, p), inner);
    AllKept(repr, [t], name);
    RemovalMovesOnlyItsOwn(repr, vs, name, h, inner, p);
  }

  /** ... and adding a node moves values only to it. */
  lemma AdditionWithoutCollisions<T>(hash: HashFunc, repr: T -> string, replicas: nat, members: map<string, Member<T>>,
                                           vs: seq<VirtualNode<T>>, m: Member<T>, h: nat, inner: nat, t: T)
    requires Accounts(hash, repr, members, vs) && repr(m.node) !in members
    requires NoCollision(hash, replicas, members.Keys + {repr(m.node)})
    requires m.count <= replicas && forall s :: s in members ==> members[s].count <= replicas
    requires BelongsTo(vs + Labels(hash, m.node, repr(m.node), m.count), h, inner, t) && repr(t) != repr(m.node)
    ensures BelongsTo(vs, h, inner, t)
  {
    var name := repr(m.node);
    var all := members[name := m];
    assert all.Keys == members.Keys + {name};
    AccountsAdd(hash, repr, members, vs, m);
    assert Only(repr, vs, name) == [];
    AdditionUndone(hash, repr, vs, m.node, m.count);
    RemovalWithoutCollisions(hash, repr, replicas, all, vs + Labels(hash, m.node, name, m.count), name, h, inner, t);
  }

  // ---------- histories ----------

  lemma Nobody<T>(hash: HashFunc, repr: T -> string, vs: seq<VirtualNode<T>>)
    requires Accounts(hash, repr, map[], vs)
    ensures vs == []
  {
    Somebody(repr, vs);
  }

  lemma Somebody<T>(repr: T -> string, vs: seq<VirtualNode<T>>)
    ensures vs != [] ==> Only(repr, vs, repr(vs[|vs| - 1].node)) != []
  {}

  /** Two histories with the same members occupy the same points equally often, whatever the hash. */
  lemma {:induction false} SamePositions<T>(hash: HashFunc, repr: T -> string, members: map<string, Member<T>>,
                                                  vs: seq<VirtualNode<T>>, ws: seq<VirtualNode<T>>)
    requires Accounts(hash, repr, members, vs) && Accounts(hash, repr, members, ws)
    ensures multiset(Positions(vs)) == multiset(Positions(ws))
    decreases members.Keys
  {
    if members == map[] {
      Nobody(hash, repr, vs);
      Nobody(hash, repr, ws);
    } else {
      var n :| n in members;
      assert Only(repr, vs, n) == Only(repr, ws, n);
      PositionsSplit(repr, vs, n);
      PositionsSplit(repr, ws, n);
      AccountsWithout(hash, repr, members, vs, n);
      AccountsWithout(hash, repr, members, ws, n);
      SamePositions(hash, repr, members - {n}, Without(repr, vs, n), Without(repr, ws, n));
    }
  }

  lemma {:induction false} Present<T>(repr: T -> string, vs: seq<VirtualNode<T>>, v: VirtualNode<T>)
    ensures v in vs <==> v in Only(repr, vs, repr(v.node))
    ensures v in vs <==> v.node in At(vs, v.at)
  {
    if vs != [] { Present(repr, vs[..|vs| - 1], v); }
  }

  /** Without collisions the lookup depends on the members alone, not on the history. */
  lemma LookupForgetsHistory<T>(hash: HashFunc, repr: T -> string, replicas: nat, members: map<string, Member<T>>,
                                      vs: seq<VirtualNode<T>>, ws: seq<VirtualNode<T>>, h: nat, inner: nat, t: T)
    requires Accounts(hash, repr, members, vs) && Accounts(hash, repr, members, ws)
    requires NoCollision(hash, replicas, members.Keys) && forall s :: s in members ==> members[s].count <= replicas
    requires BelongsTo(vs, h, inner, t)
    ensures BelongsTo(ws, h, inner, t)
  {
    hide At, Positions, Clockwise, Accounts, NoCollision;
    var p :| Clockwise(multiset(Positions(vs)), h, p) && At(vs, p) != [] && t == Pick(At(vs, p), inner);
    SamePositions(hash, repr, members, vs, ws);
    OneAtEachPoint(hash, repr, replicas, members, vs, p);
    OneAtEachPoint(hash, repr, replicas, members, ws, p);
    SameNodes(hash, repr, members, vs, ws, VirtualNode(p, t));
    assert At(ws, p) == [t];
  }

  lemma SameNodes<T>(hash: HashFunc, repr: T -> string, members: map<string, Member<T>>,
                           vs: seq<VirtualNode<T>>, ws: seq<VirtualNode<T>>, v: VirtualNode<T>)
    requires Accounts(hash, repr, members, vs) && Accounts(hash, repr, members, ws)
    ensures v.node in At(vs, v.at) <==> v.node in At(ws, v.at)
  {
    hide At, Only, Labels;
    Present(repr, vs, v);
    Present(repr, ws, v);
    assert Only(repr, vs, repr(v.node)) == Only(repr, ws, repr(v.node));
  }
}
