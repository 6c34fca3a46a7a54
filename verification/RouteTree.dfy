/** core/search/tree.go: routes in a tree of tokens, static and parameter children apart, searched
    with backtracking. The ghost map `at` names each node by its token list; `routes` is the table
    of the routes added so far, in terms of which every operation is specified. */
module RouteTree {
  import opened Options
  import opened RouteTheory

  datatype AddError = Ok | NotFromRoot | EmptyItem | DupItem | DupSlash

  datatype Result<I> = NotFound | Found(item: I, params: map<string, string>)

  class Node<I> {
    var item: Option<I>
    var statics: map<string, Node<I>>
    var params: map<string, Node<I>>
    ghost const name: Path

    constructor (ghost name: Path)
      ensures item == None && statics == map[] && params == map[] && this.name == name
    {
      item, statics, params := None, map[], map[];
      this.name := name;
    }
  }

  class Tree<I(==)> {
    const root: Node<I>
    ghost var at: map<Path, Node<I>>
    ghost var nodes: set<Node<I>>
    ghost var routes: map<Path, I>

    ghost predicate NodeOk(p: Path)
      requires p in at
      reads this, nodes
    {
      var n := at[p];
      && n in nodes && n.name == p && n.item == Lookup(routes, p) && NonEmptyTokens(at, p)
      && Group(at, p, n.statics, false) && Group(at, p, n.params, true)
    }

    ghost predicate Valid()
      reads this, nodes
    {
      && PrefixClosed(at.Keys) && at[[]] == root && routes.Keys <= at.Keys
      && (forall p {:trigger NodeOk(p)} :: p in at ==> NodeOk(p))
    }

    constructor ()
      ensures Valid() && routes == map[] && fresh(nodes)
    {
      var n := new Node<I>([]);
      root := n;
      at, nodes, routes := map[[] := n], {n}, map[];
    }

    // ---------- Add ----------

    /** Add: refused for the stated reason, or the table gains exactly this route. */
    method Add(route: string, item: Option<I>) returns (err: AddError)
      requires Valid()
      modifies this`at, this`nodes, this`routes, nodes
      ensures Valid() && fresh(nodes - old(nodes))
      ensures err == if route == "" || route[0] != '/' then NotFromRoot
                     else if item.None? then EmptyItem
                     else if Parse(route[1..]).None? then DupSlash
                     else if Parse(route[1..]).value in old(routes) then DupItem
                     else Ok
      ensures err == Ok ==> routes == old(routes)[Parse(route[1..]).value := item.value]
      ensures err != Ok ==> routes == old(routes)
    {
      if |route| == 0 || route[0] != '/' { return NotFromRoot; }
      if item.None? { return EmptyItem; }
      assert NodeOk([]);
      err := AddAt(root, [], route[1..], item.value);
      assert Parse(route[1..]).Some? ==> [] + Parse(route[1..]).value == Parse(route[1..]).value;
    }

    method AddAt(nd: Node<I>, ghost p: Path, route: string, item: I) returns (err: AddError)
      requires Valid() && p in at && nd == at[p]
      modifies this`at, this`nodes, this`routes, nodes
      ensures Valid() && fresh(nodes - old(nodes))
      ensures err == if Parse(route).None? then DupSlash
                     else if p + Parse(route).value in old(routes) then DupItem
                     else Ok
      ensures err == Ok ==> routes == old(routes)[p + Parse(route).value := item]
      ensures err != Ok ==> routes == old(routes)
      decreases |route|
    {
      hide Parse, Slash, PrefixClosed, Lookup;
      ParseStep(route);
      assert NodeOk(p);
      if |route| == 0 {
        assert p + [] == p;
        err := SetItem(nd, p, item);
        return;
      }
      if route[0] == '/' { return DupSlash; }
      var i := FindSlash(route);
      var token := route[..i];
      ghost var q := Ext(p, token);
      var child := ChildFor(nd, p, token);
      if i < |route| {
        err := AddAt(child, q, route[i + 1..], item);
        ghost var rest := Parse(route[i + 1..]);
        assert rest.Some? ==> p + ([token] + rest.value) == q + rest.value;
      } else {
        assert token == route && p + [route] == q && NodeOk(q);
        err := SetItem(child, q, item);
      }
    }

    /** getChildren, and the new node when the token has none. */
    method ChildFor(nd: Node<I>, ghost p: Path, token: string) returns (child: Node<I>)
      requires Valid() && p in at && nd == at[p] && token != ""
      modifies this`at, this`nodes, nd`statics, nd`params
      ensures Valid() && old(nodes) <= nodes && fresh(nodes - old(nodes))
      ensures Ext(p, token) in at && child == at[Ext(p, token)]
    {
      hide PrefixClosed, Lookup;
      assert NodeOk(p);
      if token[0] == ':' && token in nd.params {
        child := nd.params[token];
      } else if token[0] != ':' && token in nd.statics {
        child := nd.statics[token];
      } else {
        child := new Node<I>(Ext(p, token));
        Attach(nd, p, token, child);
      }
    }

    static method FindSlash(route: string) returns (i: nat)
      ensures i == Slash(route)
    {
      i := 0;
      while i < |route| && route[i] != '/'
        invariant i <= |route| && Slash(route) == i + Slash(route[i..])
      {
        i := i + 1;
      }
    }

    method SetItem(nd: Node<I>, ghost p: Path, item: I) returns (err: AddError)
      requires Valid() && p in at && nd == at[p]
      modifies this`routes, nd`item
      ensures Valid()
      ensures err == if p in old(routes) then DupItem else Ok
      ensures routes == if err == Ok then old(routes)[p := item] else old(routes)
    {
      assert NodeOk(p);
      if nd.item.Some? { return DupItem; }
      nd.item := Some(item);
      routes := routes[p := item];
      err := Ok;
      forall q | q in at ensures NodeOk(q) {
        assert old(NodeOk(q));
      }
    }

    /** Hang a new node under the node at `p`. */
    method Attach(nd: Node<I>, ghost p: Path, token: string, child: Node<I>)
      requires Valid() && p in at && at[p] == nd && Ext(p, token) !in at && token != ""
      requires child !in nodes && child.item == None && child.statics == map[] && child.params == map[]
      requires child.name == Ext(p, token)
      modifies this`at, this`nodes, nd`statics, nd`params
      ensures Valid() && at == old(at)[Ext(p, token) := child] && nodes == old(nodes) + {child}
    {
      hide Lookup, Ext, PrefixClosed, Group, NonEmptyTokens;
      ghost var q := Ext(p, token);
      assert NodeOk(p);
      PrefixClosedExt(at.Keys, p, token);
      ExtInjective(p, token);
      if token[0] == ':' {
        nd.params := nd.params[token := child];
      } else {
        nd.statics := nd.statics[token := child];
      }
      at, nodes := at[q := child], nodes + {child};
      assert at.Keys == old(at.Keys) + {q};
      Missing(routes, q);
      LeafAfterAttach(old(at), q, child, false);
      LeafAfterAttach(old(at), q, child, true);
      forall r | r in at ensures NodeOk(r) {
        if r != q {
          assert old(NodeOk(r));
          GroupAfterAttach(old(at), r, old(at[r].statics), false, p, token, child);
          GroupAfterAttach(old(at), r, old(at[r].params), true, p, token, child);
          TokensAfterAttach(old(at), r, p, token, child);
        }
      }
    }

    // ---------- Search ----------

    /** Search: a route of the table that matches, preferred at the leftmost difference, with its
        item and bindings; nothing exactly when no route of the table matches. */
    method Search(route: string) returns (r: Result<I>, ghost pat: Path)
      requires Valid()
      ensures r.Found? <==>
              route != "" && route[0] == '/' && exists q :: q in routes && RouteMatches(q, Split(route[1..]))
      ensures r.Found? ==>
                && pat in routes && RouteMatches(pat, Split(route[1..]))
                && r.item == routes[pat] && r.params == Bind(pat, route[1..])
                && (forall q :: q in routes && RouteMatches(q, Split(route[1..])) ==> !Preferred(q, pat))
    {
      pat := [];
      if |route| == 0 || route[0] != '/' {
        return NotFound, pat;
      }
      assert NodeOk([]);
      r, pat := Next(root, [], route[1..]);
      forall q ensures Matching([], q, route[1..]) <==> q in routes && RouteMatches(q, Split(route[1..])) {
        assert [] + q == q;
        AcceptsIsRouteMatches(q, route[1..]);
      }
      assert [] + pat == pat && (r.Found? ==> Matching([], pat, route[1..]));
    }

    /** A match of `route` below the node at `p`. */
    ghost predicate Hit(p: Path, pat: Path, route: string, r: Result<I>)
      reads this
    {
      && r.Found? && p + pat in routes && Accepts(pat, route)
      && r.item == routes[p + pat] && r.params == Bind(pat, route)
    }

    ghost predicate Matching(p: Path, q: Path, route: string)
      reads this
    {
      p + q in routes && Accepts(q, route)
    }

    /** Tree.next */
    method Next(n: Node<I>, ghost p: Path, route: string) returns (r: Result<I>, ghost pat: Path)
      requires Valid() && p in at && n == at[p]
      ensures r.Found? ==> Hit(p, pat, route, r)
      ensures r.Found? ==> forall q :: Matching(p, q, route) ==> !Preferred(q, pat)
      ensures r.NotFound? ==> forall q :: !Matching(p, q, route)
      decreases |route|, 2
    {
      assert NodeOk(p);
      pat := [];
      assert p + [] == p;
      if |route| == 0 && n.item.Some? {
        return Found(n.item.value, map[]), pat;
      }
      assert !Matching(p, [], route);
      forall q | q != [] && Matching(p, q, route) ensures q[0] in n.statics || (q[0] in n.params && IsParam(q[0])) {
        FirstChild(at.Keys, p, q);
      }
      hide Matching, Group;
      r, pat := ForEach(n.statics, p, false, route);
      if r.Found? {
        return;
      }
      r, pat := ForEach(n.params, p, true, route);
    }

    /** One of the two loops of node.forEach, in the arbitrary order of a map iteration. */
    method ForEach(group: map<string, Node<I>>, ghost p: Path, ghost params: bool, route: string)
      returns (r: Result<I>, ghost pat: Path)
      requires Valid() && p in at && Group(at, p, group, params)
      ensures r.Found? ==> Hit(p, pat, route, r) && pat != [] && pat[0] in group && IsParam(pat[0]) == params
      ensures r.Found? ==> forall q :: q != [] && q[0] == pat[0] && Matching(p, q, route) ==> !Preferred(q, pat)
      ensures r.NotFound? ==> forall q :: q != [] && q[0] in group ==> !Matching(p, q, route)
      decreases |route|, 1
    {
      r, pat := NotFound, [];
      var i := FindSlash(route);
      var rest := group.Keys;
      while rest != {}
        invariant rest <= group.Keys && r.NotFound?
        invariant forall q :: q != [] && q[0] in group.Keys - rest ==> !Matching(p, q, route)
      {
        var k :| k in rest;
        rest := rest - {k};
        r, pat := TryChild(group[k], p, k, route, i);
        if r.Found? {
          return;
        }
      }
    }

    /** A match through the child `k` is a match of its token and of the rest below the child. */
    lemma MatchingThrough(p: Path, k: string, q: Path, route: string)
      requires q != [] && q[0] == k
      ensures var i := Slash(route);
              if i < |route| then
                Matching(p, q, route) <==> TokenMatch(k, route[..i]) && Matching(Ext(p, k), q[1..], route[i + 1..])
              else
                Matching(p, q, route) <==> TokenMatch(k, route) && q == [k] && Ext(p, k) in routes
    {
      hide TokenMatch, Slash;
      assert p + q == Ext(p, k) + q[1..];
      if |q| == 1 { assert q == [k] && p + q == Ext(p, k); }
    }

    /** The body of forEach's callback for the child `k`. */
    method TryChild(v: Node<I>, ghost p: Path, k: string, route: string, i: nat) returns (r: Result<I>, ghost pat: Path)
      requires Valid() && Ext(p, k) in at && v == at[Ext(p, k)] && k != "" && i == Slash(route)
      ensures r.Found? ==> Hit(p, pat, route, r) && pat != [] && pat[0] == k
      ensures r.Found? ==> forall q :: q != [] && q[0] == k && Matching(p, q, route) ==> !Preferred(q, pat)
      ensures r.NotFound? ==> forall q :: q != [] && q[0] == k ==> !Matching(p, q, route)
      decreases |route|, 0
    {
      hide Slash, PrefixClosed, Group;
      var token := route[..i];
      forall q | q != [] && q[0] == k ensures
        if i < |route| then
          Matching(p, q, route) <==> TokenMatch(k, token) && Matching(Ext(p, k), q[1..], route[i + 1..])
        else
          Matching(p, q, route) <==> TokenMatch(k, token) && q == [k] && Ext(p, k) in routes
      {
        MatchingThrough(p, k, q, route);
      }
      assert NodeOk(Ext(p, k));
      r, pat := NotFound, [];
      if k[0] != ':' && k != token {
        return;
      }
      if i < |route| {
        r, pat := Next(v, Ext(p, k), route[i + 1..]);
        ghost var rest := pat;
        assert ([k] + rest)[1..] == rest && p + ([k] + rest) == Ext(p, k) + rest;
        forall q | q != [] && q[0] == k && Matching(p, q, route) && r.Found? ensures !Preferred(q, [k] + rest) {
          assert Matching(Ext(p, k), q[1..], route[i + 1..]);
        }
        forall q | q != [] && q[0] == k && r.NotFound? ensures !Matching(p, q, route) {
          assert !Matching(Ext(p, k), q[1..], route[i + 1..]);
        }
      } else if v.item.Some? {
        r := Found(v.item.value, map[]);
        assert p + [k] == Ext(p, k) && !Preferred([k], [k]);
        assert [k] + [] == [k] && route[..i] == route;
      }
      pat := [k] + pat;
      assert r.Found? ==> p + pat in routes && Accepts(pat, route);
      if r.Found? && k[0] == ':' {
        r := Found(r.item, r.params[k[1..] := token]);
      }
    }
  }
}
