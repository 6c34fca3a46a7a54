/** What a route table means, on token lists, for the search tree of core/search/tree.go. */
module RouteTheory {
  import opened Options

  type Path = seq<string>

  function Ext(p: Path, t: string): (q: Path) { p + [t] }

  function Parent(p: Path): (q: Path)
    requires p != []
  {
    p[..|p| - 1]
  }

  lemma ExtInjective(p: Path, t: string)
    ensures Ext(p, t) != [] && Parent(Ext(p, t)) == p && Ext(p, t)[|p|] == t && |Ext(p, t)| == |p| + 1
  {}

  predicate IsParam(t: string) { t != "" && t[0] == ':' }

  /** Index of the first slash, or the length. */
  function Slash(route: string): (i: nat)
    ensures i <= |route| && (i < |route| ==> route[i] == '/')
    ensures forall j :: 0 <= j < i ==> route[j] != '/'
  {
    if route == "" || route[0] == '/' then 0 else 1 + Slash(route[1..])
  }

  // ---------- adding ----------

  /** The node an added route ends at; None when a slash follows a slash. */
  function Parse(route: string): (p: Option<Path>)
    decreases |route|
  {
    var i := Slash(route);
    if route == "" then Some([])
    else if i == 0 then None
    else if i == |route| then Some([route])
    else match Parse(route[i + 1..])
         case None => None
         case Some(rest) => Some([route[..i]] + rest)
  }

  lemma ParseStep(route: string)
    ensures route == "" ==> Parse(route) == Some([])
    ensures route != "" && route[0] == '/' ==> Parse(route) == None
    ensures route != "" && route[0] != '/' ==>
              var i := Slash(route);
              && i > 0
              && (i == |route| ==> Parse(route) == Some([route]))
              && (i < |route| ==>
                    && (Parse(route).None? <==> Parse(route[i + 1..]).None?)
                    && (Parse(route).Some? ==> Parse(route).value == [route[..i]] + Parse(route[i + 1..]).value))
  {}

  /** The tokens of a route, as strings.Split would give them. */
  function Split(route: string): (ts: Path)
    ensures |ts| > 0
    decreases |route|
  {
    var i := Slash(route);
    if i == |route| then [route] else [route[..i]] + Split(route[i + 1..])
  }

  function Join(ts: Path): (s: string)
    requires |ts| > 0
  {
    if |ts| == 1 then ts[0] else ts[0] + "/" + Join(ts[1..])
  }

  lemma SlashAfter(t: string, rest: string)
    requires '/' !in t
    ensures Slash(t) == |t| && Slash(t + "/" + rest) == |t|
  {
    var s := t + "/" + rest;
    assert s[|t|] == '/';
    assert forall j :: 0 <= j < |t| ==> s[j] == t[j];
  }

  /** Split and Join are inverse on slash-free tokens. */
  lemma {:induction false} SplitJoin(ts: Path)
    requires |ts| > 0 && forall t :: t in ts ==> '/' !in t
    ensures Split(Join(ts)) == ts
  {
    if |ts| == 1 {
      SlashAfter(ts[0], "");
    } else {
      var rest := Join(ts[1..]);
      SlashAfter(ts[0], rest);
      assert Join(ts)[..|ts[0]|] == ts[0];
      assert Join(ts)[|ts[0]| + 1..] == rest;
      SplitJoin(ts[1..]);
    }
  }

  lemma JoinCons(t: string, rest: Path)
    requires |rest| > 0
    ensures Join([t] + rest) == t + "/" + Join(rest)
  {
    assert ([t] + rest)[1..] == rest;
  }

  lemma {:induction false} JoinSplit(route: string)
    ensures Join(Split(route)) == route
    decreases |route|
  {
    hide Slash;
    var i := Slash(route);
    if i < |route| {
      var rest := Split(route[i + 1..]);
      JoinSplit(route[i + 1..]);
      JoinCons(route[..i], rest);
      assert Split(route) == [route[..i]] + rest;
      hide Join, Split;
      assert route == route[..i] + "/" + route[i + 1..];
    }
  }

  /** A route names its tokens, without the last one when it is empty (a trailing slash); it is
      refused exactly when an earlier token is empty. */
  lemma {:induction false} ParseIsSplit(route: string)
    ensures var ts := Split(route);
            var body := if ts[|ts| - 1] == "" then ts[..|ts| - 1] else ts;
            Parse(route) == if "" in ts[..|ts| - 1] then None else Some(body)
    decreases |route|
  {
    hide Slash;
    var i := Slash(route);
    if i < |route| {
      var ts, rest := Split(route), Split(route[i + 1..]);
      ParseIsSplit(route[i + 1..]);
      assert ts == [route[..i]] + rest;
      assert ts[..|ts| - 1] == [route[..i]] + rest[..|rest| - 1];
    }
  }

  // ---------- searching ----------

  predicate TokenMatch(pat: string, token: string) {
    IsParam(pat) || pat == token
  }

  /** Segment by segment. */
  predicate Segments(pat: Path, ts: Path) {
    |pat| == |ts| && forall i :: 0 <= i < |pat| ==> TokenMatch(pat[i], ts[i])
  }

  /** A route matches all tokens, or all but a last empty one (the trailing slash). */
  predicate RouteMatches(pat: Path, ts: Path)
    requires |ts| > 0
  {
    Segments(pat, ts) || (ts[|ts| - 1] == "" && Segments(pat, ts[..|ts| - 1]))
  }

  /** The same, following the recursion of the search. */
  predicate Accepts(pat: Path, route: string)
    decreases |route|
  {
    var i := Slash(route);
    if pat == [] then route == ""
    else if i == |route| then |pat| == 1 && TokenMatch(pat[0], route)
    else TokenMatch(pat[0], route[..i]) && Accepts(pat[1..], route[i + 1..])
  }

  lemma {:induction false} AcceptsIsRouteMatches(pat: Path, route: string)
    ensures Accepts(pat, route) <==> RouteMatches(pat, Split(route))
    decreases |route|
  {
    var i := Slash(route);
    var ts := Split(route);
    if i < |route| {
      var rest := Split(route[i + 1..]);
      assert ts == [route[..i]] + rest && ts[..|ts| - 1] == [route[..i]] + rest[..|rest| - 1];
      if pat != [] {
        AcceptsIsRouteMatches(pat[1..], route[i + 1..]);
        SegmentsCons(pat, route[..i], rest);
        SegmentsCons(pat, route[..i], rest[..|rest| - 1]);
      }
    }
  }

  lemma SegmentsCons(pat: Path, t: string, rest: Path)
    requires pat != []
    ensures Segments(pat, [t] + rest) <==> TokenMatch(pat[0], t) && Segments(pat[1..], rest)
  {
    if Segments(pat, [t] + rest) {
      forall i | 0 <= i < |rest| ensures TokenMatch(pat[1..][i], rest[i]) {
        assert TokenMatch(pat[i + 1], ([t] + rest)[i + 1]);
      }
      assert TokenMatch(pat[0], ([t] + rest)[0]);
    }
    if TokenMatch(pat[0], t) && Segments(pat[1..], rest) {
      forall i | 0 <= i < |pat| ensures TokenMatch(pat[i], ([t] + rest)[i]) {
        if i > 0 { assert TokenMatch(pat[1..][i - 1], rest[i - 1]); }
      }
    }
  }

  /** Ending earlier beats going on; a static token beats a parameter at the leftmost difference. */
  predicate Preferred(a: Path, b: Path) {
    b != [] && (a == [] || if a[0] == b[0] then Preferred(a[1..], b[1..]) else !IsParam(a[0]) && IsParam(b[0]))
  }

  /** Two routes part at place j, where the first one ends or has a static segment against a parameter. */
  predicate PartsAt(a: Path, b: Path, j: nat) {
    && j <= |a| && j < |b| && a[..j] == b[..j]
    && (j == |a| || (a[j] != b[j] && !IsParam(a[j]) && IsParam(b[j])))
  }

  lemma PartsLater(a: Path, b: Path, j: nat)
    requires a != [] && b != [] && a[0] == b[0]
    ensures PartsAt(a, b, j + 1) <==> PartsAt(a[1..], b[1..], j)
    ensures !PartsAt(a, b, 0)
  {
    if j + 1 <= |a| && j + 1 < |b| {
      assert a[..j + 1] == [a[0]] + a[1..][..j] && b[..j + 1] == [b[0]] + b[1..][..j];
    }
  }

  lemma PartsNow(a: Path, b: Path, j: nat)
    requires a == [] || b == [] || a[0] != b[0]
    ensures PartsAt(a, b, j) ==> j == 0
  {
    if 0 < j <= |a| && j < |b| { assert a[..j][0] == a[0] && b[..j][0] == b[0]; }
  }

  /** Preference without recursion: a route is preferred if it parts so from the other somewhere. */
  lemma {:induction false} PreferredExactly(a: Path, b: Path)
    ensures Preferred(a, b) <==> exists j: nat :: PartsAt(a, b, j)
  {
    if a != [] && b != [] && a[0] == b[0] {
      hide PartsAt;
      PreferredExactly(a[1..], b[1..]);
      PartsLater(a, b, 0);
      if j: nat :| PartsAt(a[1..], b[1..], j) { PartsLater(a, b, j); }
      if j: nat :| PartsAt(a, b, j) { PartsLater(a, b, j - 1); }
    } else {
      if j: nat :| PartsAt(a, b, j) { PartsNow(a, b, j); }
      if Preferred(a, b) { assert PartsAt(a, b, 0); }
    }
  }

  /** Two matches neither of which is preferred part at two parameters of different names; so a
      table with one parameter name at each place has exactly one best match. */
  lemma {:induction false} BestIsUniqueUpToNames(a: Path, b: Path, route: string) returns (j: nat)
    requires Accepts(a, route) && Accepts(b, route) && a != b && !Preferred(a, b) && !Preferred(b, a)
    ensures j < |a| && j < |b| && a[..j] == b[..j] && a[j] != b[j] && IsParam(a[j]) && IsParam(b[j])
    decreases |route|
  {
    hide Slash;
    var i := Slash(route);
    if a[0] != b[0] { return 0; }
    assert a == [a[0]] + a[1..] && b == [b[0]] + b[1..];
    j := BestIsUniqueUpToNames(a[1..], b[1..], route[i + 1..]);
    assert a[..j + 1] == [a[0]] + a[1..][..j] && b[..j + 1] == [b[0]] + b[1..][..j];
    j := j + 1;
  }

  /** The bindings of a match: the search adds them from the last segment to the first. */
  function Bind(pat: Path, route: string): (m: map<string, string>)
    decreases |route|
  {
    var i := Slash(route);
    if pat == [] then map[] else
    var rest := if i < |route| then Bind(pat[1..], route[i + 1..]) else map[];
    if IsParam(pat[0]) then rest[pat[0][1..] := route[..i]] else rest
  }

  /** Segment `j` is the first parameter called `name`. */
  predicate FirstNamed(pat: Path, name: string, j: nat) {
    j < |pat| && pat[j] == ":" + name && ":" + name !in pat[..j]
  }

  /** Exactly the parameter names of the route are bound, ... */
  lemma {:induction false} BindNames(pat: Path, route: string, name: string)
    requires Accepts(pat, route)
    ensures name in Bind(pat, route) <==> ":" + name in pat
    decreases |route|
  {
    var i := Slash(route);
    if pat != [] {
      assert IsParam(pat[0]) ==> pat[0] == ":" + pat[0][1..];
      assert (":" + name)[1..] == name;
      assert pat == [pat[0]] + pat[1..];
      if i < |route| {
        BindNames(pat[1..], route[i + 1..], name);
      }
    }
  }

  /** ... each to the token at its first occurrence. */
  lemma {:induction false} BindFirst(pat: Path, route: string, name: string, j: nat)
    requires Accepts(pat, route) && FirstNamed(pat, name, j)
    ensures j < |Split(route)| && name in Bind(pat, route) && Bind(pat, route)[name] == Split(route)[j]
    decreases |route|
  {
    hide Slash;
    var i := Slash(route);
    assert (":" + name)[1..] == name;
    if j == 0 {
      assert Bind(pat, route)[name] == route[..i] == Split(route)[0];
    } else {
      assert i < |route|;
      LaterNamed(pat, name, j);
      BindFirst(pat[1..], route[i + 1..], name, j - 1);
      assert Split(route)[j] == Split(route[i + 1..])[j - 1];
    }
  }

  lemma LaterNamed(pat: Path, name: string, j: nat)
    requires FirstNamed(pat, name, j) && j > 0
    ensures FirstNamed(pat[1..], name, j - 1)
    ensures IsParam(pat[0]) ==> pat[0][1..] != name
  {
    assert pat[..j] == [pat[0]] + pat[1..][..j - 1];
    assert pat[0] in pat[..j];
    assert IsParam(pat[0]) ==> pat[0] == ":" + pat[0][1..];
  }

  // ---------- the tree's set of paths ----------

  ghost predicate PrefixClosed(paths: set<Path>) {
    && [] in paths
    && forall p {:trigger Parent(p)} :: p in paths && p != [] ==> Parent(p) in paths
  }

  lemma PrefixClosedExt(paths: set<Path>, p: Path, t: string)
    requires PrefixClosed(paths) && p in paths
    ensures PrefixClosed(paths + {Ext(p, t)})
  {
    ExtInjective(p, t);
  }

  lemma NoChildren(paths: set<Path>, q: Path)
    requires PrefixClosed(paths) && q !in paths
    ensures forall t {:trigger Ext(q, t)} :: Ext(q, t) !in paths + {q}
  {
    forall t ensures Ext(q, t) !in paths + {q} {
      ExtInjective(q, t);
    }
  }

  lemma OtherExt(r: Path, p: Path, token: string)
    ensures forall t {:trigger Ext(r, t)} :: Ext(r, t) == Ext(p, token) <==> r == p && t == token
  {
    ExtInjective(p, token);
    forall t ensures Ext(r, t) == Ext(p, token) <==> r == p && t == token {
      ExtInjective(r, t);
    }
  }

  /** The way to a path below `p` leads through a child of `p`. */
  lemma {:induction false} FirstChild(paths: set<Path>, p: Path, q: Path)
    requires PrefixClosed(paths) && p + q in paths && q != []
    ensures Ext(p, q[0]) in paths
    decreases |q|
  {
    if |q| == 1 {
      assert Ext(p, q[0]) == p + q;
    } else {
      assert Parent(p + q) == p + q[..|q| - 1];
      FirstChild(paths, p, q[..|q| - 1]);
    }
  }

  /** `group` holds the children of `p` of one kind. */
  ghost predicate Group<N>(at: map<Path, N>, p: Path, group: map<string, N>, params: bool) {
    && (forall t {:trigger Ext(p, t)} {:trigger t in group} ::
          t in group <==> Ext(p, t) in at && t != "" && IsParam(t) == params)
    && (forall t {:trigger group[t]} :: t in group ==> group[t] == at[Ext(p, t)])
  }

  ghost predicate NonEmptyTokens<N>(at: map<Path, N>, p: Path) {
    forall t {:trigger Ext(p, t)} :: Ext(p, t) in at ==> t != ""
  }

  /** A new child of `p` shows in one group of `p` and nowhere else. */
  lemma GroupAfterAttach<N>(at: map<Path, N>, r: Path, group: map<string, N>, params: bool,
                            p: Path, token: string, child: N)
    requires Group(at, r, group, params) && token != "" && Ext(p, token) !in at
    ensures var at' := at[Ext(p, token) := child];
            Group(at', r, if r == p && IsParam(token) == params then group[token := child] else group, params)
  {
    OtherExt(r, p, token);
    hide Ext;
  }

  lemma TokensAfterAttach<N>(at: map<Path, N>, r: Path, p: Path, token: string, child: N)
    requires NonEmptyTokens(at, r) && token != ""
    ensures NonEmptyTokens(at[Ext(p, token) := child], r)
  {
    OtherExt(r, p, token);
    hide Ext;
  }

  lemma LeafAfterAttach<N>(at: map<Path, N>, q: Path, child: N, params: bool)
    requires PrefixClosed(at.Keys) && q !in at
    ensures Group(at[q := child], q, map[], params) && NonEmptyTokens(at[q := child], q)
  {
    NoChildren(at.Keys, q);
    hide Ext;
  }
}
