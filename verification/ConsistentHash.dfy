/** core/hash/consistenthash.go: the ring kept as a sorted key list, a map from key to nodes and a
    set of node names, all edited in place. The ghost fields `members` and `owned` are the account
    of what was added: the nodes, and their virtual nodes in order of arrival. Labels may collide. */
module ConsistentHashing {
  import opened Arith
  import opened Decimals
  import opened RingTheory

  const MIN_REPLICAS := 100

  /** The last case is the division by the number of keys, when there is none. */
  datatype Lookup<T> = Found(node: T) | NotFound | Panic

  ghost predicate Sorted(s: seq<nat>) {
    forall i, j :: 0 <= i < j < |s| ==> s[i] <= s[j]
  }

  lemma LastIsLargest(s: seq<nat>, x: nat)
    requires Sorted(s) && x in multiset(s)
    ensures x <= s[|s| - 1]
  {
    var i :| 0 <= i < |s| && s[i] == x;
  }

  lemma SameLast(s: seq<nat>, t: seq<nat>)
    requires Sorted(s) && Sorted(t) && multiset(s) == multiset(t) && s != [] && t != []
    ensures s[|s| - 1] == t[|t| - 1]
  {
    assert s[|s| - 1] in multiset(s) && t[|t| - 1] in multiset(t);
    LastIsLargest(t, s[|s| - 1]);
    LastIsLargest(s, t[|t| - 1]);
  }

  lemma DropLast(s: seq<nat>) returns (front: seq<nat>)
    requires s != [] && Sorted(s)
    ensures s == front + [s[|s| - 1]] && Sorted(front) && multiset(front) == multiset(s) - multiset{s[|s| - 1]}
  {
    front := s[..|s| - 1];
    assert s == front + [s[|s| - 1]];
  }

  /** A bag of keys has one sorted list: the key list does not depend on the history. */
  lemma {:induction false} SortedUnique(s: seq<nat>, t: seq<nat>)
    requires Sorted(s) && Sorted(t) && multiset(s) == multiset(t)
    ensures s == t
    decreases |s|
  {
    hide Sorted;
    assert |s| == |multiset(s)| && |t| == |multiset(t)|;
    if s != [] {
      SameLast(s, t);
      var s' := DropLast(s);
      var t' := DropLast(t);
      SortedUnique(s', t');
    }
  }

  /** Two complete rings with the same members have the same keys. */
  lemma KeysForgetHistory<T>(hash: HashFunc, repr: T -> string, members: map<string, Member<T>>,
                             vs: seq<VirtualNode<T>>, ws: seq<VirtualNode<T>>, s: seq<nat>, t: seq<nat>)
    requires Accounts(hash, repr, members, vs) && Accounts(hash, repr, members, ws) && Sorted(s) && Sorted(t)
    requires multiset(s) == multiset(Positions(vs)) && multiset(t) == multiset(Positions(ws))
    ensures s == t
  {
    SamePositions(hash, repr, members, vs, ws);
    SortedUnique(s, t);
  }

  lemma InsertKey(r: seq<nat>, i: nat, k: nat)
    requires Sorted(r) && i <= |r|
    requires forall j :: 0 <= j < i ==> r[j] < k
    requires forall j :: i <= j < |r| ==> r[j] >= k
    ensures Sorted(r[..i] + [k] + r[i..])
    ensures multiset(r[..i] + [k] + r[i..]) == multiset(r) + multiset{k}
  {
    InsertCounts(r, i, k);
    var t := r[..i] + [k] + r[i..];
    forall a, b | 0 <= a < b < |t| ensures t[a] <= t[b] {
      var a', b' := if a < i then a else a - 1, if b < i then b else b - 1;
      assert a != i ==> t[a] == r[a'];
      assert b != i ==> t[b] == r[b'];
    }
  }

  lemma InsertCounts(r: seq<nat>, i: nat, k: nat)
    requires i <= |r|
    ensures multiset(r[..i] + [k] + r[i..]) == multiset(r) + multiset{k}
  {
    assert r == r[..i] + r[i..];
  }

  lemma DropKey(keys: seq<nat>, i: nat)
    requires Sorted(keys) && i < |keys|
    ensures Sorted(keys[..i] + keys[i + 1..])
    ensures multiset(keys[..i] + keys[i + 1..]) == multiset(keys) - multiset{keys[i]}
  {
    DropCounts(keys, i);
    var t := keys[..i] + keys[i + 1..];
    forall a, b | 0 <= a < b < |t| ensures t[a] <= t[b] {
      assert t[a] == keys[if a < i then a else a + 1] && t[b] == keys[if b < i then b else b + 1];
    }
  }

  lemma DropCounts(keys: seq<nat>, i: nat)
    requires i < |keys|
    ensures multiset(keys[..i] + keys[i + 1..]) == multiset(keys) - multiset{keys[i]}
  {
    assert keys == keys[..i] + [keys[i]] + keys[i + 1..];
  }

  lemma NoSuchKey(keys: seq<nat>, i: nat, h: nat)
    requires Sorted(keys) && i <= |keys| && (i < |keys| ==> keys[i] > h)
    requires forall j :: 0 <= j < i ==> keys[j] < h
    ensures h !in multiset(keys)
  {}

  /** sort.Slice on the keys. */
  method SortKeys(keys: seq<nat>) returns (r: seq<nat>)
    ensures Sorted(r) && multiset(r) == multiset(keys)
  {
    r := [];
    for n := 0 to |keys|
      invariant Sorted(r) && multiset(r) == multiset(keys[..n])
    {
      var i := SearchKeys(r, keys[n]);
      InsertKey(r, i, keys[n]);
      assert keys[..n + 1] == keys[..n] + [keys[n]];
      r := r[..i] + [keys[n]] + r[i..];
    }
    assert keys[..|keys|] == keys;
  }

  /** sort.Search for the first key at or above `h`. */
  method SearchKeys(keys: seq<nat>, h: nat) returns (index: nat)
    requires Sorted(keys)
    ensures index <= |keys|
    ensures forall i :: 0 <= i < index ==> keys[i] < h
    ensures forall i :: index <= i < |keys| ==> keys[i] >= h
  {
    var lo, hi := 0, |keys|;
    while lo < hi
      invariant 0 <= lo <= hi <= |keys|
      invariant forall i :: 0 <= i < lo ==> keys[i] < h
      invariant forall i :: hi <= i < |keys| ==> keys[i] >= h
    {
      var mid := (lo + hi) / 2;
      if keys[mid] >= h { hi := mid; } else { lo := mid + 1; }
    }
    index := lo;
  }

  lemma FirstClockwise(keys: seq<nat>, h: nat, index: nat, k: nat)
    requires Sorted(keys) && |keys| > 0 && index <= |keys| && k == if index < |keys| then index else 0
    requires forall i :: 0 <= i < index ==> keys[i] < h
    requires forall i :: index <= i < |keys| ==> keys[i] >= h
    ensures Clockwise(multiset(keys), h, keys[k])
  {
    forall q | q in multiset(keys) ensures (q >= h ==> keys[k] <= q) && keys[0] <= q && (index == |keys| ==> q < h) {
      var j :| 0 <= j < |keys| && keys[j] == q;
    }
  }

  // ---------- the map from point to nodes ----------

  function Held<T>(ring: map<nat, seq<T>>, p: nat): (ts: seq<T>) {
    if p in ring then ring[p] else []
  }

  /** The ring holds at each point the nodes that arrived there, and no empty list. */
  ghost predicate Shows<T>(ring: map<nat, seq<T>>, vs: seq<VirtualNode<T>>) {
    && (forall p :: p in ring ==> ring[p] != [])
    && (forall p {:trigger Held(ring, p)} :: Held(ring, p) == At(vs, p))
  }

  lemma ShowsPush<T>(ring: map<nat, seq<T>>, vs: seq<VirtualNode<T>>, v: VirtualNode<T>)
    requires Shows(ring, vs)
    ensures Shows(ring[v.at := Held(ring, v.at) + [v.node]], vs + [v])
  {
    hide At;
    var ring' := ring[v.at := Held(ring, v.at) + [v.node]];
    forall p ensures Held(ring', p) == At(vs + [v], p) {
      PushAt(vs, v, p);
      assert Held(ring, p) == At(vs, p);
    }
  }

  lemma ShowsNothing<T>(ring: map<nat, seq<T>>, vs: seq<VirtualNode<T>>)
    requires Shows(ring, vs)
    ensures |ring| == 0 <==> vs == []
  {
    if vs != [] {
      var p := vs[|vs| - 1].at;
      assert Held(ring, p) == At(vs, p) != [];
      assert p in ring.Keys;
    } else {
      assert forall p :: p in ring ==> Held(ring, p) == At(vs, p) == [];
      assert ring == map[];
    }
  }

  /** After the first n turns of Remove: the node has left the points met so far. */
  ghost predicate Leaving<T>(ring: map<nat, seq<T>>, vs: seq<VirtualNode<T>>, repr: T -> string, name: string,
                             met: seq<nat>) {
    && (forall p :: p in ring ==> ring[p] != [])
    && (forall p {:trigger Held(ring, p)} ::
          Held(ring, p) == if p in met then Kept(repr, At(vs, p), name) else At(vs, p))
  }

  /** What removeRingNode makes of the ring. */
  function Left<T>(ring: map<nat, seq<T>>, repr: T -> string, name: string, p: nat): (r: map<nat, seq<T>>) {
    var kept := Kept(repr, Held(ring, p), name);
    if kept != [] then ring[p := kept] else ring - {p}
  }

  lemma LeavingNext<T>(ring: map<nat, seq<T>>, vs: seq<VirtualNode<T>>, repr: T -> string, name: string,
                       met: seq<nat>, p: nat)
    requires Leaving(ring, vs, repr, name, met)
    ensures Leaving(Left(ring, repr, name, p), vs, repr, name, met + [p])
  {
    hide At, Kept;
    var ring' := Left(ring, repr, name, p);
    forall q ensures Held(ring', q) == if q in met + [p] then Kept(repr, At(vs, q), name) else At(vs, q) {
      assert Held(ring, q) == if q in met then Kept(repr, At(vs, q), name) else At(vs, q);
      if q == p && p in met { KeptTwice(repr, At(vs, p), name); }
    }
  }

  /** A node only has virtual nodes at its own points. */
  lemma {:induction false} OwnPoints<T>(repr: T -> string, vs: seq<VirtualNode<T>>, name: string, p: nat)
    requires p !in Positions(Only(repr, vs, name))
    ensures Kept(repr, At(vs, p), name) == At(vs, p)
  {
    if vs != [] {
      var front, v := Split(vs);
      PushName(repr, front, v, name);
      PushAt(front, v, p);
      PushPosition(Only(repr, front, name), v);
      KeptPush(repr, At(front, p), v.node, name);
      hide At, Kept, Only, Positions;
      OwnPoints(repr, front, name, p);
    }
  }

  lemma LeftForGood<T>(ring: map<nat, seq<T>>, vs: seq<VirtualNode<T>>, repr: T -> string, name: string, met: seq<nat>)
    requires Leaving(ring, vs, repr, name, met)
    requires forall p :: p in Positions(Only(repr, vs, name)) ==> p in met
    ensures Shows(ring, Without(repr, vs, name))
  {
    forall p ensures Held(ring, p) == At(Without(repr, vs, name), p) {
      AtWithout(repr, vs, name, p);
      if p !in met { OwnPoints(repr, vs, name, p); }
    }
  }

  /** Adding as much on both sides keeps which side is larger. */
  lemma SameBalance(k: multiset<nat>, p: multiset<nat>, k': multiset<nat>, p': multiset<nat>)
    requires p' - k' == p - k && k' - p' == k - p
    ensures (k' <= p' <==> k <= p) && (k' == p' <==> k == p)
  {
    NoneOver(k, p);
    NoneOver(p, k);
    NoneOver(k', p');
    NoneOver(p', k');
    assert k == p <==> k <= p <= k;
    assert k' == p' <==> k' <= p' <= k';
  }

  lemma OneLess(k: multiset<nat>, a: multiset<nat>, h: nat)
    ensures k - a - multiset{h} == k - (a + multiset{h})
  {}

  lemma NoneOver(k: multiset<nat>, p: multiset<nat>)
    ensures k <= p <==> k - p == multiset{}
  {
    if k - p == multiset{} {
      forall x ensures k[x] <= p[x] { assert (k - p)[x] == 0; }
    }
  }

  datatype Op<T> = AddOp(node: T, count: int) | RemoveOp(node: T)

  ghost function Named<T>(repr: T -> string, ops: seq<Op<T>>): (names: set<string>) {
    set i | 0 <= i < |ops| :: repr(ops[i].node)
  }

  /** Who is a member after these operations, with how many replicas. */
  ghost function MembersAfter<T>(repr: T -> string, replicas: nat, members: map<string, Member<T>>, ops: seq<Op<T>>)
    : (r: map<string, Member<T>>)
    decreases |ops|
  {
    if ops == [] then members else
    var name := repr(ops[0].node);
    MembersAfter(repr, replicas,
                 match ops[0]
                 case AddOp(node, count) => members[name := Member(node, Max(0, Min(count, replicas)))]
                 case RemoveOp(_) => members - {name},
                 ops[1..])
  }

  lemma FewerCollide(hash: HashFunc, replicas: nat, more: set<string>, fewer: set<string>)
    requires NoCollision(hash, replicas, more) && fewer <= more
    ensures NoCollision(hash, replicas, fewer)
  {}

  class ConsistentHash<T(==)> {
    const hash: HashFunc
    const repr: T -> string
    const innerRepr: T -> string
    const replicas: nat
    var keys: seq<nat>
    var ring: map<nat, seq<T>>
    var nodes: set<string>
    ghost var members: map<string, Member<T>>
    ghost var owned: seq<VirtualNode<T>>

    /** The ring is exactly what the members call for, and every key is the point of a virtual node. */
    ghost predicate Valid()
      reads this
    {
      && nodes == members.Keys && (forall s :: s in members ==> members[s].count <= replicas)
      && Accounts(hash, repr, members, owned) && Shows(ring, owned)
      && Sorted(keys) && multiset(keys) <= multiset(Positions(owned))
    }

    /** No key is missing. */
    ghost predicate Complete()
      reads `keys, `owned
    {
      multiset(keys) == multiset(Positions(owned))
    }

    /** The labels this node does not own sit on no point of another node. */
    ghost predicate SparesOthers(name: string)
      reads this
    {
      name in members ==>
        forall i: nat :: members[name].count <= i < replicas ==>
          At(Without(repr, owned, name), Point(hash, name, i)) == []
    }

    /** One key less for every label the node could have, as far as there are keys. */
    ghost predicate Thinned(before: seq<nat>, after: seq<nat>, name: string) {
      multiset(after) == multiset(before) - multiset(Points(hash, name, replicas))
    }

    lemma StrangerSparesOthers(name: string)
      requires name !in members
      ensures SparesOthers(name)
    {}

    /** Nor does a removal lose a key of another when the labels do not collide, or when the node has
        all its replicas. */
    lemma NoCollisionSpares(name: string)
      requires Valid() && NoCollision(hash, replicas, members.Keys)
      ensures SparesOthers(name)
    {
      hide At, Without, Point;
      if name in members {
        forall i: nat | members[name].count <= i < replicas
          ensures At(Without(repr, owned, name), Point(hash, name, i)) == []
        {
          NoCollisionSparesOthers(hash, repr, replicas, members, owned, name, i);
        }
      }
    }

    lemma FullNodeSpares(name: string)
      requires name in members ==> members[name].count == replicas
      ensures SparesOthers(name)
    {}

    constructor (replicas: nat, hash: HashFunc, repr: T -> string, innerRepr: T -> string)
      ensures Valid() && Complete() && members == map[] && owned == []
      ensures this.replicas == (if replicas < 100 then 100 else replicas)
      ensures this.hash == hash && this.repr == repr && this.innerRepr == innerRepr
    {
      this.replicas := if replicas < MIN_REPLICAS then MIN_REPLICAS else replicas;
      this.hash, this.repr, this.innerRepr := hash, repr, innerRepr;
      keys, ring, nodes, members, owned := [], map[], {}, map[], [];
    }

    /** Get: one of the nodes at the first key clockwise from the value's hash. */
    method Get(v: T) returns (r: Lookup<T>)
      requires Valid()
      ensures r.NotFound? <==> owned == []
      ensures r.Panic? <==> owned != [] && keys == []
      ensures r.Found? ==> exists p :: Clockwise(multiset(keys), hash(repr(v)), p) && At(owned, p) != []
                                       && r.node == At(owned, p)[hash(innerRepr(v)) % |At(owned, p)|]
      ensures Complete() ==> !r.Panic? && (r.Found? ==> BelongsTo(owned, hash(repr(v)), hash(innerRepr(v)), r.node))
    {
      hide Accounts, At, Positions, Clockwise;
      ShowsNothing(ring, owned);
      if |ring| == 0 {
        return NotFound;
      }
      CompleteHasKeys();
      if |keys| == 0 {
        return Panic;
      }
      var h := hash(repr(v));
      var index := SearchKeys(keys, h);
      WrapAround(index, |keys|);
      FirstClockwise(keys, h, index, index % |keys|);
      var p := keys[index % |keys|];
      Occupied(p);
      var found := if p in ring then ring[p] else [];
      r := Choose(found, v);
    }

    lemma CompleteHasKeys()
      ensures Complete() && owned != [] ==> keys != []
    {
      PositionsAre(owned);
      if Complete() && owned != [] { assert Positions(owned)[0] in multiset(keys); }
    }

    lemma Occupied(p: nat)
      requires Valid() && p in keys
      ensures At(owned, p) != [] && p in ring && ring[p] == At(owned, p)
    {
      assert p in multiset(keys);
      NoneAt(owned, p);
      assert Held(ring, p) == At(owned, p);
    }

    /** The switch on the nodes that share a point. */
    method Choose(found: seq<T>, v: T) returns (r: Lookup<T>)
      ensures found == [] ==> r == NotFound
      ensures found != [] ==> r == Found(Pick(found, hash(innerRepr(v))))
    {
      if |found| == 0 {
        r := NotFound;
      } else if |found| == 1 {
        r := Found(found[0]);
      } else {
        var inner := hash(innerRepr(v));
        r := Found(found[inner % |found|]);
      }
    }

    // ---------- AddWithReplicas ----------

    /** AddWithReplicas: a later call replaces an earlier one of the same node. */
    method AddWithReplicas(node: T, count: int)
      requires Valid()
      modifies this
      ensures var n := if count < 0 then 0 else if count > replicas then replicas else count;
              && members == old(members)[repr(node) := Member(node, n)]
              && owned == Without(repr, old(owned), repr(node)) + Labels(hash, node, repr(node), n)
              && |owned| == |Without(repr, old(owned), repr(node))| + n
              && forall i: nat {:trigger Itoa(i)} :: i < n ==>
                   owned[|owned| - n + i] == VirtualNode(hash(repr(node) + Itoa(i)), node)
      ensures Valid() && (old(Complete()) ==> (Complete() <==> old(SparesOthers(repr(node)))))
    {
      hide Accounts, Shows, Sorted, Only, Without, Labels, Points, Positions, SparesOthers, Thinned, Complete;
      var name := repr(node);
      Remove(node);
      var n := if count > replicas then replicas else count;
      nodes := nodes + {name};
      ghost var m := Member(node, if n < 0 then 0 else n);
      AccountsAdd(hash, repr, members, owned, m);
      AddPoints(node, name, n);
      members := members[name := m];
    }

    /** The loop over the replicas, and the sort after it. */
    method AddPoints(node: T, name: string, n: int)
      requires Shows(ring, owned) && name == repr(node)
      modifies `keys, `ring, `owned
      ensures Shows(ring, owned) && Sorted(keys)
      ensures owned == old(owned) + Labels(hash, node, name, if n < 0 then 0 else n)
      ensures multiset(keys) <= multiset(Positions(owned)) <==> multiset(old(keys)) <= multiset(Positions(old(owned)))
      ensures Complete() <==> old(Complete())
    {
      hide Shows, Sorted, Positions, Held;
      ghost var start := owned;
      assert start + Labels(hash, node, name, 0) == start;
      var i := 0;
      while i < n
        invariant 0 <= i && (n >= 0 ==> i <= n) && (n < 0 ==> i == 0)
        invariant Shows(ring, owned) && owned == start + Labels(hash, node, name, i)
        invariant multiset(Positions(owned)) - multiset(keys) == multiset(Positions(start)) - multiset(old(keys))
        invariant multiset(keys) - multiset(Positions(owned)) == multiset(old(keys)) - multiset(Positions(start))
      {
        var h := hash(name + Itoa(i));
        AddPoint(h, node);
        assert start + Labels(hash, node, name, i + 1)
            == (start + Labels(hash, node, name, i)) + [VirtualNode(h, node)];
        i := i + 1;
      }
      SameBalance(multiset(old(keys)), multiset(Positions(start)), multiset(keys), multiset(Positions(owned)));
      keys := SortKeys(keys);
    }

    /** One virtual node joins the key list, out of order for now, and the ring. */
    method AddPoint(h: nat, node: T)
      requires Shows(ring, owned)
      modifies `keys, `ring, `owned
      ensures owned == old(owned) + [VirtualNode(h, node)] && Shows(ring, owned)
      ensures multiset(Positions(owned)) - multiset(keys) == multiset(Positions(old(owned))) - multiset(old(keys))
      ensures multiset(keys) - multiset(Positions(owned)) == multiset(old(keys)) - multiset(Positions(old(owned)))
    {
      hide Shows, Positions;
      var v := VirtualNode(h, node);
      ShowsPush(ring, owned, v);
      PushPosition(owned, v);
      keys := keys + [h];
      ring := ring[h := Held(ring, h) + [node]];
      owned := owned + [v];
    }

    // ---------- Remove ----------

    /** Remove: the virtual nodes of the node leave, and one key goes for every label it could have. */
    method Remove(node: T)
      requires Valid()
      modifies this
      ensures members == old(members) - {repr(node)} && owned == Without(repr, old(owned), repr(node))
      ensures if repr(node) in old(members) then Thinned(old(keys), keys, repr(node)) else keys == old(keys)
      ensures Valid() && (old(Complete()) ==> (Complete() <==> old(SparesOthers(repr(node)))))
    {
      hide Accounts, Shows, Sorted, Only, Without, Points, Positions, SparesOthers;
      var name := repr(node);
      if name !in nodes {
        NotAMember(name);
        return;
      }
      KeysAfterRemoval(name, multiset(keys));
      AccountsWithout(hash, repr, members, owned, name);
      RemovePoints(name);
      nodes := nodes - {name};
      members := members - {name};
      owned := Without(repr, owned, name);
    }

    /** The loop over the replicas. */
    method RemovePoints(name: string)
      requires Shows(ring, owned) && Sorted(keys) && Accounts(hash, repr, members, owned)
      requires name in members && members[name].count <= replicas
      modifies `keys, `ring
      ensures Shows(ring, Without(repr, owned, name)) && Sorted(keys)
      ensures multiset(keys) == multiset(old(keys)) - multiset(Points(hash, name, replicas))
    {
      hide Accounts, Shows, Sorted, Only, Without, Leaving, Points;
      NotYetLeaving(name);
      for i := 0 to replicas
        invariant Sorted(keys) && multiset(keys) == multiset(old(keys)) - multiset(Points(hash, name, i))
        invariant Leaving(ring, owned, repr, name, Points(hash, name, i))
      {
        OneLess(multiset(old(keys)), multiset(Points(hash, name, i)), Point(hash, name, i));
        RemovePoint(name, i);
      }
      AllPointsMet(hash, repr, members, owned, name, replicas);
      LeftForGood(ring, owned, repr, name, Points(hash, name, replicas));
    }

    method RemovePoint(name: string, i: nat)
      requires Sorted(keys) && Leaving(ring, owned, repr, name, Points(hash, name, i))
      modifies `keys, `ring
      ensures Sorted(keys) && multiset(keys) == multiset(old(keys)) - multiset{Point(hash, name, i)}
      ensures Leaving(ring, owned, repr, name, Points(hash, name, i + 1))
      ensures multiset(Points(hash, name, i + 1)) == multiset(Points(hash, name, i)) + multiset{Point(hash, name, i)}
    {
      hide Sorted, Leaving, Left;
      var h := hash(name + Itoa(i));
      RemoveKey(h);
      LeavingNext(ring, owned, repr, name, Points(hash, name, i), h);
      RemoveRingNode(h, name);
    }

    lemma NotAMember(name: string)
      requires Valid() && name !in members
      ensures members - {name} == members && Without(repr, owned, name) == owned && SparesOthers(name)
    {
      assert Only(repr, owned, name) == [];
      NoneOfIt(repr, owned, name);
    }

    lemma NotYetLeaving(name: string)
      requires Shows(ring, owned)
      ensures Leaving(ring, owned, repr, name, Points(hash, name, 0)) && Points(hash, name, 0) == []
    {}

    lemma KeysAfterRemoval(name: string, before: multiset<nat>)
      requires name in members && members[name].count <= replicas && Accounts(hash, repr, members, owned)
      requires before <= multiset(Positions(owned))
      ensures var rest := multiset(Positions(Without(repr, owned, name)));
              var after := before - multiset(Points(hash, name, replicas));
              && after <= rest
              && (before == multiset(Positions(owned)) ==> (after == rest <==> SparesOthers(name)))
    {
      var m, rest := members[name], multiset(Positions(Without(repr, owned, name)));
      PositionsSplit(repr, owned, name);
      PositionsOfLabels(hash, m.node, name, m.count);
      assert Only(repr, owned, name) == Labels(hash, m.node, name, m.count);
      hide Positions, Only, Without, At, Points, Accounts;
      NoKeyTooMany(hash, name, m.count, replicas, rest, before);
      OthersKeepTheirKeys(hash, name, m.count, replicas, rest);
      forall i: nat
        ensures Point(hash, name, i) in rest <==> At(Without(repr, owned, name), Point(hash, name, i)) != []
      {
        NoneAt(Without(repr, owned, name), Point(hash, name, i));
      }
    }

    /** Any sequence of adds and removes: without collisions among the names that occur, no key ever
        goes missing. */
    method Replay(ops: seq<Op<T>>)
      requires Valid() && Complete() && NoCollision(hash, replicas, members.Keys + Named(repr, ops))
      modifies this
      ensures Valid() && Complete() && members == MembersAfter(repr, replicas, old(members), ops)
    {
      hide ConsistentHash.Valid, ConsistentHash.Complete, ConsistentHash.SparesOthers, NoCollision;
      ghost var names := members.Keys + Named(repr, ops);
      for i := 0 to |ops|
        invariant Valid() && Complete() && members.Keys <= names
        invariant MembersAfter(repr, replicas, members, ops[i..]) == MembersAfter(repr, replicas, old(members), ops)
      {
        FewerCollide(hash, replicas, names, members.Keys);
        NoCollisionSpares(repr(ops[i].node));
        assert repr(ops[i].node) in Named(repr, ops) && ops[i..][1..] == ops[i + 1..];
        match ops[i]
        case AddOp(node, count) => AddWithReplicas(node, count);
        case RemoveOp(node) => Remove(node);
      }
      assert ops[|ops|..] == [];
    }

    /** One occurrence of the key leaves, if there is one. */
    method RemoveKey(h: nat)
      requires Sorted(keys)
      modifies `keys
      ensures Sorted(keys) && multiset(keys) == multiset(old(keys)) - multiset{h}
    {
      var index := SearchKeys(keys, h);
      if index < |keys| && keys[index] == h {
        DropKey(keys, index);
        keys := keys[..index] + keys[index + 1..];
      } else {
        NoSuchKey(keys, index, h);
      }
    }

    /** removeRingNode: drop the node from one point, and the point when nobody else holds it. */
    method RemoveRingNode(p: nat, name: string)
      modifies `ring
      ensures ring == Left(old(ring), repr, name, p)
    {
      if p in ring {
        var kept := [];
        var held := ring[p];
        for i := 0 to |held|
          invariant kept == Kept(repr, held[..i], name)
        {
          assert held[..i + 1][..i] == held[..i];
          if repr(held[i]) != name {
            kept := kept + [held[i]];
          }
        }
        assert held[..|held|] == held;
        if |kept| > 0 {
          ring := ring[p := kept];
        } else {
          ring := ring - {p};
        }
      } else {
        assert ring - {p} == ring;
      }
    }
  }

  /** A ring of two nodes, the second with no replicas. */
  method TwoNodes<T(==)>(hash: HashFunc, repr: T -> string, innerRepr: T -> string, a: T, b: T)
    returns (c: ConsistentHash<T>)
    requires repr(a) != repr(b)
    ensures c.Valid() && c.Complete() && repr(b) in c.members && fresh(c)
    ensures c.hash == hash && c.replicas == MIN_REPLICAS && c.repr == repr
    ensures c.owned == Labels(hash, a, repr(a), 1)
  {
    hide Labels, Without, ConsistentHash.Valid, ConsistentHash.Complete, ConsistentHash.SparesOthers;
    c := new ConsistentHash(MIN_REPLICAS, hash, repr, innerRepr);
    FirstOfTwo(hash, repr, a, b);
    c.StrangerSparesOthers(repr(a));
    c.AddWithReplicas(a, 1);
    c.StrangerSparesOthers(repr(b));
    c.AddWithReplicas(b, 0);
  }

  lemma FirstOfTwo<T>(hash: HashFunc, repr: T -> string, a: T, b: T)
    requires repr(a) != repr(b)
    ensures var one := Labels(hash, a, repr(a), 1);
            && Without(repr, [], repr(a)) + one == one
            && Without(repr, one, repr(b)) + Labels(hash, b, repr(b), 0) == one
            && Without(repr, one, repr(b)) == one && one != []
  {}

  /** Whatever the hash function, a ring can lose the last key of a node that stays: the label "x1" + "0"
      is "x" + "10". Every lookup then divides by the number of keys, which is zero. */
  method LookupCanPanic<T(==)>(hash: HashFunc, repr: T -> string, innerRepr: T -> string, a: T, b: T, v: T)
    returns (c: ConsistentHash<T>, r: Lookup<T>)
    requires repr(a) == repr(b) + "1"
    ensures c.Valid() && c.hash == hash && c.repr == repr && c.owned == Labels(hash, a, repr(a), 1) && c.keys == []
    ensures r == Panic
  {
    hide Accounts, Shows, Sorted, Clockwise, At, Labels, Without, Positions, Points, ConsistentHash.SparesOthers;
    c := TwoNodes(hash, repr, innerRepr, a, b);
    PositionsOfLabels(hash, a, repr(a), 1);
    RemovalCanLoseAKey(hash, c.replicas, repr(b));
    FirstOfTwo(hash, repr, a, b);
    c.Remove(b);
    NoKeys(c.keys);
    r := c.Get(v);
  }

  /** A ring of three nodes under a hash function that sends every label to one point. */
  method ThreeNodes<T(==)>(repr: T -> string, innerRepr: T -> string, a: T, b: T, c: T) returns (r: ConsistentHash<T>)
    requires repr(a) != repr(b) && repr(b) != repr(c) && repr(a) != repr(c)
    ensures r.Valid() && r.Complete() && fresh(r) && r.SparesOthers(repr(a))
    ensures r.hash == (_ => MIN_REPLICAS) && r.repr == repr && r.innerRepr == innerRepr
    ensures r.owned == Labels(r.hash, a, repr(a), MIN_REPLICAS) + Labels(r.hash, b, repr(b), MIN_REPLICAS)
                       + Labels(r.hash, c, repr(c), MIN_REPLICAS)
  {
    hide Labels, Without, ConsistentHash.Valid, ConsistentHash.Complete, ConsistentHash.SparesOthers;
    var hash: HashFunc := _ => MIN_REPLICAS;
    r := new ConsistentHash(MIN_REPLICAS, hash, repr, innerRepr);
    r.NotAMember(repr(a));
    r.AddWithReplicas(a, MIN_REPLICAS);
    assert r.owned == Labels(hash, a, repr(a), MIN_REPLICAS);
    r.NotAMember(repr(b));
    r.AddWithReplicas(b, MIN_REPLICAS);
    r.NotAMember(repr(c));
    r.AddWithReplicas(c, MIN_REPLICAS);
    r.FullNodeSpares(repr(a));
  }

  /** Minimal disruption can fail. Under that hash function every value belongs to the second of three
      nodes; removing the first moves them all to the third. */
  method RemovalCanMoveOthers<T(==)>(repr: T -> string, innerRepr: T -> string, a: T, b: T, c: T, v: T)
    returns (r: ConsistentHash<T>, ghost was: seq<VirtualNode<T>>, before: Lookup<T>, after: Lookup<T>)
    requires repr(a) != repr(b) && repr(b) != repr(c) && repr(a) != repr(c)
    ensures r.Valid() && r.Complete() && r.hash == (_ => MIN_REPLICAS) && r.repr == repr
    ensures was == Labels(r.hash, a, repr(a), MIN_REPLICAS) + Labels(r.hash, b, repr(b), MIN_REPLICAS)
                   + Labels(r.hash, c, repr(c), MIN_REPLICAS)
    ensures r.owned == Without(repr, was, repr(a))
    ensures BelongsTo(was, r.hash(repr(v)), r.hash(innerRepr(v)), b)
    ensures BelongsTo(r.owned, r.hash(repr(v)), r.hash(innerRepr(v)), c)
    ensures before == Found(b) && after == Found(c)
  {
    hide Labels, Without, At, Positions, BelongsTo, Pick;
    hide ConsistentHash.Valid, ConsistentHash.Complete, ConsistentHash.SparesOthers;
    r := ThreeNodes(repr, innerRepr, a, b, c);
    was := r.owned;
    WithoutFirst(r.hash, repr, a, b, c);
    NotNone(r.hash, repr, b, c, Labels(r.hash, a, repr(a), MIN_REPLICAS));
    before := r.Get(v);
    InTheMiddle(r.hash, repr, b, c, Labels(r.hash, a, repr(a), MIN_REPLICAS), before.node);
    r.Remove(a);
    NotNone(r.hash, repr, b, c, []);
    after := r.Get(v);
    InTheMiddle(r.hash, repr, b, c, [], after.node);
  }

  lemma NotNone<T>(hash: HashFunc, repr: T -> string, b: T, c: T, first: seq<VirtualNode<T>>)
    ensures var (lb, lc) := (Labels(hash, b, repr(b), MIN_REPLICAS), Labels(hash, c, repr(c), MIN_REPLICAS));
            first + lb + lc != [] && [] + lb + lc == lb + lc
  {}

  /** Position n, counted round: the first of the second n among 3n, and of the second n among 2n. */
  lemma SecondPart<T>(first: seq<VirtualNode<T>>, lb: seq<VirtualNode<T>>, lc: seq<VirtualNode<T>>,
                      n: nat, p: nat, t: T)
    requires n > 0 && |lb| == |lc| == n && (first == [] || |first| == n)
    requires forall i :: 0 <= i < |first| ==> first[i].at == p
    requires forall i :: 0 <= i < n ==> lb[i].at == lc[i].at == p
    requires BelongsTo(first + lb + lc, p, n, t)
    ensures t == if first == [] then lc[0].node else lb[0].node
  {
    hide BelongsTo;
    var vs := first + lb + lc;
    ChosenAtOnePoint(vs, p, p, n, t);
    DivModUnique(n, |vs|, 0, n);
  }

  lemma InTheMiddle<T>(hash: HashFunc, repr: T -> string, b: T, c: T, first: seq<VirtualNode<T>>, t: T)
    requires hash == (_ => MIN_REPLICAS) && (first == [] || |first| == MIN_REPLICAS)
    requires forall i :: 0 <= i < |first| ==> first[i].at == MIN_REPLICAS
    requires BelongsTo(first + Labels(hash, b, repr(b), MIN_REPLICAS) + Labels(hash, c, repr(c), MIN_REPLICAS),
                       MIN_REPLICAS, MIN_REPLICAS, t)
    ensures t == if first == [] then c else b
  {
    hide Labels, BelongsTo;
    SecondPart(first, Labels(hash, b, repr(b), MIN_REPLICAS), Labels(hash, c, repr(c), MIN_REPLICAS),
               MIN_REPLICAS, MIN_REPLICAS, t);
  }

  lemma WithoutFirst<T>(hash: HashFunc, repr: T -> string, a: T, b: T, c: T)
    requires repr(a) != repr(b) && repr(a) != repr(c)
    ensures var n := MIN_REPLICAS;
            var (la, lb, lc) := (Labels(hash, a, repr(a), n), Labels(hash, b, repr(b), n), Labels(hash, c, repr(c), n));
            Without(repr, la + lb + lc, repr(a)) == lb + lc
  {
    var n, name := MIN_REPLICAS, repr(a);
    var la, lb, lc := Labels(hash, a, name, n), Labels(hash, b, repr(b), n), Labels(hash, c, repr(c), n);
    ConcatWithout(repr, la + lb, lc, name);
    ConcatWithout(repr, la, lb, name);
    AllOfIt(repr, la, name);
    LabelsAreOnes(hash, repr, b, n, name);
    LabelsAreOnes(hash, repr, c, n, name);
    NoneOfIt(repr, lb, name);
    NoneOfIt(repr, lc, name);
  }

  lemma NoKeys(keys: seq<nat>)
    requires multiset(keys) == multiset{}
    ensures keys == []
  {
    assert |multiset(keys)| == |keys|;
  }

  /** Remove meets every point the node owns. */
  lemma AllPointsMet<T>(hash: HashFunc, repr: T -> string, members: map<string, Member<T>>,
                        vs: seq<VirtualNode<T>>, name: string, replicas: nat)
    requires Accounts(hash, repr, members, vs) && name in members && members[name].count <= replicas
    ensures forall p :: p in Positions(Only(repr, vs, name)) ==> p in Points(hash, name, replicas)
  {
    var m := members[name];
    PositionsOfLabels(hash, m.node, name, m.count);
    assert Only(repr, vs, name) == Labels(hash, m.node, name, m.count);
    hide Positions, Only;
    forall p | p in Points(hash, name, m.count) ensures p in Points(hash, name, replicas) {
      var i :| 0 <= i < m.count && Points(hash, name, m.count)[i] == p;
      assert Points(hash, name, replicas)[i] == p;
    }
  }
}
