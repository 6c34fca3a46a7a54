/** What core/stores/sqlx/utils.go's format does to a query, piece by piece. Strings are lists of
    characters; the queries' special characters are all ASCII, so bytes and characters agree. */
module SqlTheory {
  import opened Arith
  import opened Decimals
  import opened Options

  datatype Arg = BoolArg(b: bool) | StringArg(s: string) | OtherArg(repr: string)

  datatype Error = TooFewArguments | BadNumber | WrongIndex | UnbalancedEscape | NotMatching

  datatype Result = Ok(text: string) | Err(error: Error)

  const MAX_INT := 0x7FFF_FFFF_FFFF_FFFF

  // ---------- escape ----------

  function EscapeChar(c: char): (s: string) {
    if c == '\0' then ['\\', 'x', '0', '0']
    else if c == '\r' then ['\\', 'r']
    else if c == '\n' then ['\\', 'n']
    else if c == '\\' then ['\\', '\\']
    else if c == '\'' then ['\\', '\'']
    else if c == '"' then ['\\', '"']
    else if c == '\U{1A}' then ['\\', 'x', '1', 'a']
    else [c]
  }

  function Escape(s: string): (r: string) {
    if s == "" then "" else EscapeChar(s[0]) + Escape(s[1..])
  }

  predicate IsHex(c: char) { IsDigit(c) || 'a' <= c <= 'f' }

  function Hex(c: char): (n: nat)
    requires IsHex(c)
    ensures n < 16
  {
    if IsDigit(c) then c as int - '0' as int else c as int - 'a' as int + 10
  }

  /** The character an escaped text starts with, and the length of its escape. */
  function UnescapeChar(r: string): (c: (char, nat))
    requires r != ""
    ensures 1 <= c.1 <= |r|
  {
    if r[0] != '\\' || |r| == 1 then (r[0], 1)
    else if r[1] == 'x' then
      if |r| < 4 || !IsHex(r[2]) || !IsHex(r[3]) then (r[0], 1) else ((Hex(r[2]) * 16 + Hex(r[3])) as char, 4)
    else if r[1] == 'r' then ('\r', 2)
    else if r[1] == 'n' then ('\n', 2)
    else (r[1], 2)
  }

  function Unescape(r: string): (s: string)
    decreases |r|
  {
    if r == "" then "" else var (c, n) := UnescapeChar(r); [c] + Unescape(r[n..])
  }

  /** Nothing is lost by escaping. */
  lemma {:induction false} UnescapeEscape(s: string)
    ensures Unescape(Escape(s)) == s
  {
    if s != "" {
      var e, rest := EscapeChar(s[0]), Escape(s[1..]);
      UnescapeEscape(s[1..]);
      UnescapeOne(s[0], rest);
      hide EscapeChar, UnescapeChar;
      assert (e + rest)[|e|..] == rest;
    }
  }

  lemma UnescapeOne(c: char, rest: string)
    ensures UnescapeChar(EscapeChar(c) + rest) == (c, |EscapeChar(c)|)
  {}

  /** NUL, CR, LF and ^Z never get through, and text without a special character is left alone. */
  lemma {:induction false} EscapedText(s: string)
    ensures forall i :: 0 <= i < |Escape(s)| ==> Escape(s)[i] !in ['\0', '\r', '\n', '\U{1A}']
    ensures (forall i :: 0 <= i < |s| ==> s[i] !in ['\0', '\r', '\n', '\U{1A}', '\\', '\'', '"']) ==> Escape(s) == s
  {
    if s != "" {
      EscapedText(s[1..]);
      EscapedChar(s[0]);
      hide EscapeChar;
      assert s == [s[0]] + s[1..];
    }
  }

  lemma EscapedChar(c: char)
    ensures forall i :: 0 <= i < |EscapeChar(c)| ==> EscapeChar(c)[i] !in ['\0', '\r', '\n', '\U{1A}']
    ensures c !in ['\0', '\r', '\n', '\U{1A}', '\\', '\'', '"'] ==> EscapeChar(c) == [c]
  {}

  lemma EscapeInjective(s: string, t: string)
    requires Escape(s) == Escape(t)
    ensures s == t
  {
    UnescapeEscape(s);
    UnescapeEscape(t);
  }

  /** writeValue */
  function Value(a: Arg): (s: string) {
    match a
    case BoolArg(b) => if b then "1" else "0"
    case StringArg(s) => "'" + Escape(s) + "'"
    case OtherArg(repr) => repr
  }

  function ReadBool(t: string): (b: Option<bool>) {
    if t == "1" then Some(true) else if t == "0" then Some(false) else None
  }

  function ReadString(t: string): (s: Option<string>) {
    if |t| >= 2 && t[0] == '\'' && t[|t| - 1] == '\'' then Some(Unescape(t[1..|t| - 1])) else None
  }

  /** Every rendered value reads back as its argument. */
  lemma ValueReadsBack(a: Arg)
    ensures match a
            case BoolArg(b) => ReadBool(Value(a)) == Some(b)
            case StringArg(s) => ReadString(Value(a)) == Some(s)
            case OtherArg(repr) => Value(a) == repr
  {
    if a.StringArg? {
      UnescapeEscape(a.s);
      hide Escape, Unescape;
      var t := Value(a);
      assert t[1..|t| - 1] == Escape(a.s);
    }
  }

  // ---------- the scanner ----------

  datatype QuoteEnd = Closed(end: nat) | Open | BadEscape

  predicate IsQuote(c: char) { c == '\'' || c == '"' || c == '`' }

  predicate IsSpecial(c: char) { IsQuote(c) || c == '?' || c == ':' || c == '$' }

  /** Where the literal opened by `ch` just before position j ends. */
  function Quote(q: string, ch: char, j: nat): (r: QuoteEnd)
    ensures r.Closed? ==> j < r.end <= |q|
    decreases |q| - j
  {
    if j >= |q| then Open
    else if q[j] == '\\' then if j + 1 >= |q| then BadEscape else Quote(q, ch, j + 2)
    else if q[j] == ch then Closed(j + 1)
    else Quote(q, ch, j + 1)
  }

  /** What may stand between two quotes `ch`: characters other than it, and backslashes with whatever
      follows them. */
  predicate Body(t: string, ch: char)
    decreases |t|
  {
    t == "" || (if t[0] == '\\' then |t| >= 2 && Body(t[2..], ch) else t[0] != ch && Body(t[1..], ch))
  }

  /** Escaped text may stand between single and between double quotes. */
  lemma {:induction false} EscapedIsBody(s: string, ch: char)
    requires ch == '\'' || ch == '"'
    ensures Body(Escape(s), ch)
  {
    if s != "" {
      EscapedIsBody(s[1..], ch);
      EscapedCharFirst(s[0], Escape(s[1..]), ch);
    }
  }

  lemma EscapedCharFirst(c: char, rest: string, ch: char)
    requires (ch == '\'' || ch == '"') && Body(rest, ch)
    ensures Body(EscapeChar(c) + rest, ch)
  {
    var e := EscapeChar(c);
    if |e| == 1 {
      BodyChar(e[0], rest, ch);
    } else {
      if |e| == 4 {
        BodyChar(e[3], rest, ch);
        BodyChar(e[2], [e[3]] + rest, ch);
        assert e[2..] + rest == [e[2]] + ([e[3]] + rest);
      } else {
        assert e[2..] + rest == rest;
      }
      BodyEscape(e[1], e[2..] + rest, ch);
      assert e + rest == ['\\', e[1]] + (e[2..] + rest);
    }
  }

  lemma BodyChar(c: char, rest: string, ch: char)
    requires Body(rest, ch) && c != ch && c != '\\'
    ensures Body([c] + rest, ch)
  {
    assert ([c] + rest)[1..] == rest;
  }

  lemma BodyEscape(c: char, rest: string, ch: char)
    requires Body(rest, ch)
    ensures Body(['\\', c] + rest, ch)
  {
    assert (['\\', c] + rest)[2..] == rest;
  }

  /** Where a literal ends: at the first quote that makes what is before it a body; it is open when all the
      rest is one, and ends badly when all the rest but a last backslash is. */
  lemma {:induction false} QuoteExactly(q: string, ch: char, j: nat, e: nat)
    requires j <= |q| && ch != '\\'
    ensures Quote(q, ch, j) == Closed(e) <==> j < e <= |q| && q[e - 1] == ch && Body(q[j..e - 1], ch)
    ensures Quote(q, ch, j) == Open <==> Body(q[j..], ch)
    ensures Quote(q, ch, j) == BadEscape <==> j < |q| && q[|q| - 1] == '\\' && Body(q[j..|q| - 1], ch)
    decreases |q| - j
  {
    if j < |q| {
      var n := if q[j] == '\\' then 2 else 1;
      if q[j] != ch && j + n <= |q| { QuoteExactly(q, ch, j + n, e); }
      BodySlice(q, ch, j, |q|);
      BodySlice(q, ch, j, |q| - 1);
      if j < e <= |q| { BodySlice(q, ch, j, e - 1); }
    }
  }

  lemma BodySlice(q: string, ch: char, j: nat, k: nat)
    requires j <= k <= |q|
    ensures j == k ==> Body(q[j..k], ch)
    ensures j < k && q[j] == '\\' ==> (Body(q[j..k], ch) <==> j + 2 <= k && Body(q[j + 2..k], ch))
    ensures j < k && q[j] != '\\' ==> (Body(q[j..k], ch) <==> q[j] != ch && Body(q[j + 1..k], ch))
  {
    if j + 2 <= k { assert q[j..k][2..] == q[j + 2..k]; }
    if j + 1 <= k { assert q[j..k][1..] == q[j + 1..k]; }
  }

  function DigitsEnd(q: string, j: nat): (e: nat)
    requires j <= |q|
    ensures j <= e <= |q| && (e < |q| ==> !IsDigit(q[e]))
    ensures forall k :: j <= k < e ==> IsDigit(q[k])
    decreases |q| - j
  {
    if j < |q| && IsDigit(q[j]) then DigitsEnd(q, j + 1) else j
  }

  /** The loop of `format` from position i, with `used` arguments consumed and `out` written. */
  function Walk(q: string, i: nat, args: seq<Arg>, used: nat, out: string): (r: Result)
    decreases |q| - i
  {
    if i >= |q| then if used < |args| then Err(NotMatching) else Ok(out)
    else if q[i] == '?' then
      if used >= |args| then Err(TooFewArguments) else Walk(q, i + 1, args, used + 1, out + Value(args[used]))
    else if q[i] == ':' || q[i] == '$' then
      var j := DigitsEnd(q, i + 1);
      if j == i + 1 then Walk(q, i + 1, args, used, out) else
      var k := Decimal(q[i + 1..j]);
      if k > MAX_INT then Err(BadNumber)
      else if k < 1 || k > |args| then Err(WrongIndex)
      else Walk(q, j, args, if k > used then k else used, out + Value(args[k - 1]))
    else if IsQuote(q[i]) then
      match Quote(q, q[i], i + 1)
      case BadEscape => Err(UnbalancedEscape)
      case Closed(e) => Walk(q, e, args, used, out + q[i..e])
      case Open => Walk(q, i + 1, args, used, out + q[i..])
    else Walk(q, i + 1, args, used, out + [q[i]])
  }

  // ---------- pieces ----------

  datatype Piece =
    | Plain(c: char)
    | Literal(text: string)   // quotes included
    | Mark                    // ?
    | Number(text: string)    // :12 or $12
    | Bare(c: char)           // : or $ without a number

  /** The pieces of a query before its first quote that is not closed, and the text from there on. */
  datatype Parts = Parts(pieces: seq<Piece>, tail: string)

  function Cons(p: Piece, rest: Parts): (r: Parts) {
    Parts([p] + rest.pieces, rest.tail)
  }

  function Scan(q: string): (r: Parts)
    decreases |q|
  {
    if q == "" then Parts([], "")
    else if q[0] == '?' then Cons(Mark, Scan(q[1..]))
    else if q[0] == ':' || q[0] == '$' then
      var j := DigitsEnd(q, 1);
      if j == 1 then Cons(Bare(q[0]), Scan(q[1..])) else Cons(Number(q[..j]), Scan(q[j..]))
    else if IsQuote(q[0]) then
      match Quote(q, q[0], 1)
      case Closed(e) => Cons(Literal(q[..e]), Scan(q[e..]))
      case _ => Parts([], q)
    else Cons(Plain(q[0]), Scan(q[1..]))
  }

  /** All quotes of the query are closed. */
  predicate IsClosed(q: string) {
    Scan(q).tail == ""
  }

  function TextOf(p: Piece): (s: string) {
    match p
    case Plain(c) => [c]
    case Literal(t) => t
    case Mark => "?"
    case Number(t) => t
    case Bare(c) => [c]
  }

  function Text(ps: seq<Piece>): (s: string) {
    if ps == [] then "" else TextOf(ps[0]) + Text(ps[1..])
  }

  /** Scanning loses nothing, and stops only at a quote that is not closed. */
  lemma {:induction false} ScanIsFaithful(q: string)
    ensures Text(Scan(q).pieces) + Scan(q).tail == q
    ensures var t := Scan(q).tail; t != "" ==> IsQuote(t[0]) && !Quote(t, t[0], 1).Closed?
    decreases |q|
  {
    hide Scan, TextOf, Quote;
    if Scan(q).pieces == [] {
      ScanStops(q);
    } else {
      ScanHead(q);
      var ps := Scan(q).pieces;
      var n := |TextOf(ps[0])|;
      ScanIsFaithful(q[n..]);
      Split3(q, n, Text(ps[1..]), Scan(q).tail);
    }
  }

  lemma Split3(q: string, n: nat, middle: string, tail: string)
    requires n <= |q| && q[n..] == middle + tail
    ensures q[..n] + middle + tail == q
  {}

  /** The scanner makes no piece only at the end and at a quote that is not closed. */
  lemma ScanStops(q: string)
    requires Scan(q).pieces == []
    ensures Scan(q).tail == q && (q != "" ==> IsQuote(q[0]) && !Quote(q, q[0], 1).Closed?)
  {
    hide Quote, DigitsEnd;
  }

  /** One step of the scanner. */
  lemma ScanHead(q: string)
    requires Scan(q).pieces != []
    ensures var ps := Scan(q).pieces;
            && 0 < |TextOf(ps[0])| <= |q| && TextOf(ps[0]) == q[..|TextOf(ps[0])|]
            && Scan(q[|TextOf(ps[0])|..]) == Parts(ps[1..], Scan(q).tail)
  {
    hide Quote, DigitsEnd;
    var ps := Scan(q).pieces;
    var n := |TextOf(ps[0])|;
    assert ps == [ps[0]] + Scan(q[n..]).pieces;
  }

  predicate IsNumber(t: string) {
    |t| > 1 && (t[0] == ':' || t[0] == '$') && forall i :: 1 <= i < |t| ==> IsDigit(t[i])
  }

  function IndexOf(t: string): (k: nat)
    requires IsNumber(t)
  {
    Decimal(t[1..])
  }

  predicate IsLiteral(t: string) {
    t != "" && IsQuote(t[0]) && Quote(t, t[0], 1) == Closed(|t|)
  }

  /** Pieces as the scanner makes them. */
  predicate Scanned(p: Piece) {
    match p
    case Plain(c) => !IsSpecial(c)
    case Literal(t) => IsLiteral(t)
    case Mark => true
    case Number(t) => IsNumber(t)
    case Bare(c) => c == ':' || c == '$'
  }

  predicate AllScanned(ps: seq<Piece>) {
    forall i :: 0 <= i < |ps| ==> Scanned(ps[i])
  }

  lemma {:induction false} QuoteTake(q: string, ch: char, j: nat)
    requires Quote(q, ch, j).Closed?
    ensures Quote(q[..Quote(q, ch, j).end], ch, j) == Quote(q, ch, j)
    decreases |q| - j
  {
    if q[j] == '\\' {
      QuoteTake(q, ch, j + 2);
    } else if q[j] != ch {
      QuoteTake(q, ch, j + 1);
    }
  }

  lemma HeadIsScanned(q: string)
    requires Scan(q).pieces != []
    ensures Scanned(Scan(q).pieces[0])
  {
    hide Quote;
    if IsQuote(q[0]) && Quote(q, q[0], 1).Closed? { QuoteTake(q, q[0], 1); }
  }

  lemma {:induction false} ScanProduces(q: string)
    ensures AllScanned(Scan(q).pieces)
    decreases |q|
  {
    if Scan(q).pieces != [] {
      ScanHead(q);
      HeadIsScanned(q);
      hide Scan, TextOf, Scanned;
      var ps := Scan(q).pieces;
      ScanProduces(q[|TextOf(ps[0])|..]);
      forall i | 0 <= i < |ps| ensures Scanned(ps[i]) {
        if i > 0 { assert ps[i] == ps[1..][i - 1]; }
      }
    }
  }

  /** The quote scanner and the digit scanner look only at what follows. */
  lemma {:induction false} QuoteShift(q: string, ch: char, i: nat, j: nat)
    requires i <= |q| && j <= |q| - i + 1
    ensures Quote(q, ch, i + j) == match Quote(q[i..], ch, j)
                                   case Closed(e) => Closed(i + e)
                                   case Open => Open
                                   case BadEscape => BadEscape
    decreases |q| - j
  {
    if i + j < |q| {
      assert q[i..][j] == q[i + j];
      if q[i + j] == '\\' {
        if i + j + 1 < |q| { QuoteShift(q, ch, i, j + 2); }
      } else if q[i + j] != ch {
        QuoteShift(q, ch, i, j + 1);
      }
    }
  }

  lemma {:induction false} DigitsShift(q: string, i: nat, j: nat)
    requires i + j <= |q|
    ensures DigitsEnd(q, i + j) == i + DigitsEnd(q[i..], j)
    decreases |q| - j
  {
    if i + j < |q| {
      assert q[i..][j] == q[i + j];
      if IsDigit(q[i + j]) { DigitsShift(q, i, j + 1); }
    }
  }

  // ---------- the alphabet of queries ----------

  /** A query is plain text exactly when it holds none of the characters ? : $ ' " and `. */
  lemma {:induction false} PlainExactly(q: string)
    ensures (IsClosed(q) && forall i :: 0 <= i < |Scan(q).pieces| ==> Scan(q).pieces[i].Plain?)
       <==> (forall i :: 0 <= i < |q| ==> q[i] !in ['?', ':', '$', '\'', '"', '`'])
    decreases |q|
  {
    if Scan(q).pieces == [] {
      ScanStops(q);
    } else {
      PlainHead(q);
      ScanHead(q);
      hide Scan, Quote;
      var ps := Scan(q).pieces;
      if ps[0].Plain? {
        PlainExactly(q[1..]);
        assert forall i :: 1 <= i < |q| ==> q[i] == q[1..][i - 1];
        assert forall i :: 1 <= i < |ps| ==> ps[i] == ps[1..][i - 1];
      }
    }
  }

  lemma PlainHead(q: string)
    requires Scan(q).pieces != []
    ensures q != "" && (Scan(q).pieces[0].Plain? <==> q[0] !in ['?', ':', '$', '\'', '"', '`'])
  {
    hide Quote, DigitsEnd;
  }

  /** Text between two equal quotes of any of the three kinds is one literal. */
  lemma QuotedIsLiteral(ch: char, t: string)
    requires ch in ['\'', '"', '`'] && Body(t, ch)
    ensures Scan([ch] + t + [ch]) == Parts([Literal([ch] + t + [ch])], "")
  {
    var q := [ch] + t + [ch];
    assert q[1..|q| - 1] == t && q[|q| - 1] == ch;
    QuoteExactly(q, ch, 1, |q|);
    hide Quote;
    assert q[..|q|] == q && q[|q|..] == "";
  }

  /** A question mark is a mark, and a printed number after a colon or dollar is that number. */
  lemma PlaceholdersAre(c: char, n: nat)
    requires c in [':', '$']
    ensures Scan("?") == Parts([Mark], "")
    ensures Scan([c] + Itoa(n)) == Parts([Number([c] + Itoa(n))], "")
    ensures IsNumber([c] + Itoa(n)) && IndexOf([c] + Itoa(n)) == n
  {
    ItoaIsRead(n);
    var q := [c] + Itoa(n);
    assert q[1..] == Itoa(n) && q[..|q|] == q && q[|q|..] == "";
    forall i | 1 <= i < |q| ensures IsDigit(q[i]) { assert q[i] == Itoa(n)[i - 1]; }
    AllTheRest(q, 1);
    hide Itoa, Decimal, DigitsEnd;
    assert "?"[1..] == "";
  }

  lemma {:induction false} AllTheRest(q: string, j: nat)
    requires j <= |q| && forall i :: j <= i < |q| ==> IsDigit(q[i])
    ensures DigitsEnd(q, j) == |q|
    decreases |q| - j
  {
    if j < |q| { AllTheRest(q, j + 1); }
  }

  // ---------- what format makes of the pieces ----------

  /** What has been written and how many arguments have been reached, or why it failed. */
  datatype Progress = Wrote(text: string, used: nat) | Failed(error: Error)

  function After(t: string, p: Progress): (r: Progress) {
    if p.Wrote? then Wrote(t + p.text, p.used) else p
  }

  /** A mark takes the next argument, a number takes the argument it names, bare ':' and '$' vanish. */
  function Fills(ps: seq<Piece>, args: seq<Arg>, used: nat): (r: Progress)
    requires AllScanned(ps)
  {
    if ps == [] then Wrote("", used)
    else
      assert Scanned(ps[0]) && AllScanned(ps[1..]);
      match ps[0]
      case Mark =>
        if used >= |args| then Failed(TooFewArguments) else After(Value(args[used]), Fills(ps[1..], args, used + 1))
      case Number(t) =>
        var k := IndexOf(t);
        if k > MAX_INT then Failed(BadNumber)
        else if k < 1 || k > |args| then Failed(WrongIndex)
        else After(Value(args[k - 1]), Fills(ps[1..], args, Max(k, used)))
      case Bare(_) => Fills(ps[1..], args, used)
      case p => After(TextOf(p), Fills(ps[1..], args, used))
  }

  /** The loop at position m, after this progress. */
  function Resume(q: string, m: nat, args: seq<Arg>, out: string, p: Progress): (r: Result) {
    match p
    case Failed(e) => Err(e)
    case Wrote(t, used) => Walk(q, m, args, used, out + t)
  }

  /** What one turn of the loop does with one piece that ends before position n. */
  function Turn(q: string, n: nat, args: seq<Arg>, used: nat, out: string, p: Piece): (r: Result)
    requires Scanned(p)
  {
    match p
    case Mark =>
      if used >= |args| then Err(TooFewArguments) else Walk(q, n, args, used + 1, out + Value(args[used]))
    case Number(t) =>
      var k := IndexOf(t);
      if k > MAX_INT then Err(BadNumber)
      else if k < 1 || k > |args| then Err(WrongIndex)
      else Walk(q, n, args, Max(k, used), out + Value(args[k - 1]))
    case Bare(_) => Walk(q, n, args, used, out)
    case _ => Walk(q, n, args, used, out + TextOf(p))
  }

  lemma WalkStepNumber(q: string, i: nat, args: seq<Arg>, used: nat, out: string)
    requires i < |q| && (q[i] == ':' || q[i] == '$') && Scan(q[i..]).pieces != []
    requires Scanned(Scan(q[i..]).pieces[0])
    ensures var p := Scan(q[i..]).pieces[0];
            Walk(q, i, args, used, out) == Turn(q, i + |TextOf(p)|, args, used, out, p)
  {
    hide Quote, DigitsEnd, Decimal, Value;
    DigitsShift(q, i, 1);
    SliceOfSlice(q, i, DigitsEnd(q[i..], 1));
  }

  lemma SliceOfSlice(q: string, i: nat, j: nat)
    requires i < |q| && 1 <= j <= |q| - i
    ensures q[i..][0] == q[i] && q[i..][..j] == q[i..i + j] && q[i..][..j][1..] == q[i + 1..i + j]
  {}

  lemma WalkStepQuote(q: string, i: nat, args: seq<Arg>, used: nat, out: string)
    requires i < |q| && IsQuote(q[i]) && Scan(q[i..]).pieces != []
    requires Scanned(Scan(q[i..]).pieces[0])
    ensures var p := Scan(q[i..]).pieces[0];
            Walk(q, i, args, used, out) == Turn(q, i + |TextOf(p)|, args, used, out, p)
  {
    hide Quote, DigitsEnd, Decimal, Value, Scanned;
    QuoteShift(q, q[i], i, 1);
    assert q[i..][0] == q[i];
    SliceOfSlice(q, i, Quote(q[i..], q[i], 1).end);
  }

  /** One turn of the loop of `format` deals with one piece. */
  lemma WalkStep(q: string, i: nat, args: seq<Arg>, used: nat, out: string)
    requires i < |q| && Scan(q[i..]).pieces != []
    ensures Scanned(Scan(q[i..]).pieces[0])
    ensures var p := Scan(q[i..]).pieces[0];
            Walk(q, i, args, used, out) == Turn(q, i + |TextOf(p)|, args, used, out, p)
  {
    HeadIsScanned(q[i..]);
    if q[i] == ':' || q[i] == '$' {
      WalkStepNumber(q, i, args, used, out);
    } else if IsQuote(q[i]) {
      WalkStepQuote(q, i, args, used, out);
    } else {
      hide Quote, DigitsEnd, Decimal, Value;
      assert q[i..][0] == q[i];
    }
  }

  lemma ResumeAfter(q: string, m: nat, args: seq<Arg>, out: string, t: string, p: Progress)
    ensures Resume(q, m, args, out + t, p) == Resume(q, m, args, out, After(t, p))
  {
    if p.Wrote? { assert out + (t + p.text) == (out + t) + p.text; }
  }

  /** If the loop fills the rest and then goes on at m, its turn on `p` starts by filling `p`. */
  lemma TurnFills(q: string, n: nat, m: nat, args: seq<Arg>, used: nat, out: string, p: Piece, rest: seq<Piece>)
    requires Scanned(p) && AllScanned(rest)
    requires forall u: nat, o: string {:trigger Walk(q, n, args, u, o)} ::
               Walk(q, n, args, u, o) == Resume(q, m, args, o, Fills(rest, args, u))
    ensures AllScanned([p] + rest)
    ensures Turn(q, n, args, used, out, p) == Resume(q, m, args, out, Fills([p] + rest, args, used))
  {
    hide Walk, Value, Decimal, TextOf, Resume;
    assert ([p] + rest)[1..] == rest;
    match p
    case Mark =>
      if used < |args| {
        ResumeAfter(q, m, args, out, Value(args[used]), Fills(rest, args, used + 1));
      } else {
        ResumeFailed(q, m, args, out, TooFewArguments);
      }
    case Number(t) =>
      var k := IndexOf(t);
      ResumeFailed(q, m, args, out, BadNumber);
      ResumeFailed(q, m, args, out, WrongIndex);
      if 1 <= k <= |args| { ResumeAfter(q, m, args, out, Value(args[k - 1]), Fills(rest, args, Max(k, used))); }
    case Bare(_) =>
    case _ =>
      ResumeAfter(q, m, args, out, TextOf(p), Fills(rest, args, used));
  }

  lemma ResumeFailed(q: string, m: nat, args: seq<Arg>, out: string, e: Error)
    ensures Resume(q, m, args, out, Failed(e)) == Err(e)
  {}

  /** On every query, the loop fills the pieces before the first quote that is not closed, and goes
      on from there. */
  lemma {:induction false} WalkFills(q: string, i: nat, args: seq<Arg>, used: nat, out: string)
    requires i <= |q|
    ensures var r := Scan(q[i..]);
            && AllScanned(r.pieces) && |r.tail| <= |q| - i
            && Walk(q, i, args, used, out) == Resume(q, |q| - |r.tail|, args, out, Fills(r.pieces, args, used))
    decreases |q| - i
  {
    hide Scan, Walk, TextOf, Fills, Turn, Scanned, Resume;
    ScanProduces(q[i..]);
    var r := Scan(q[i..]);
    if r.pieces == [] {
      ScanStops(q[i..]);
      NothingToFill(q, i, args, used, out);
    } else {
      ScanHead(q[i..]);
      WalkStep(q, i, args, used, out);
      var n := i + |TextOf(r.pieces[0])|;
      assert q[i..][n - i..] == q[n..];
      WalkFills(q, n, args, used, out);
      var m := |q| - |r.tail|;
      forall u: nat, o: string ensures Walk(q, n, args, u, o) == Resume(q, m, args, o, Fills(r.pieces[1..], args, u)) {
        WalkFills(q, n, args, u, o);
      }
      TurnFills(q, n, m, args, used, out, r.pieces[0], r.pieces[1..]);
      assert r.pieces == [r.pieces[0]] + r.pieces[1..];
    }
  }

  lemma NothingToFill(q: string, i: nat, args: seq<Arg>, used: nat, out: string)
    ensures Resume(q, i, args, out, Fills([], args, used)) == Walk(q, i, args, used, out)
  {
    assert out + "" == out;
  }

  /** The formatted query, as a function. */
  function Formatted(q: string, args: seq<Arg>): (r: Result) {
    if args == [] then Ok(q) else Walk(q, 0, args, 0, "")
  }

  /** The end of `format`: the last argument must have been reached. */
  function Finish(p: Progress, args: seq<Arg>): (r: Result) {
    match p
    case Failed(e) => Err(e)
    case Wrote(t, used) => if used < |args| then Err(NotMatching) else Ok(t)
  }

  /** format on a query whose quotes are closed. */
  lemma FormatFills(q: string, args: seq<Arg>)
    requires IsClosed(q) && args != []
    ensures AllScanned(Scan(q).pieces) && Formatted(q, args) == Finish(Fills(Scan(q).pieces, args, 0), args)
  {
    hide Scan, Fills;
    assert q[0..] == q;
    WalkFills(q, 0, args, 0, "");
    var p := Fills(Scan(q).pieces, args, 0);
    if p.Wrote? { assert "" + p.text == p.text; }
  }

  // ---------- what one would expect ----------

  /** Every placeholder replaced by the value of its argument, everything else as it was. */
  function Replaced(ps: seq<Piece>, args: seq<Arg>, used: nat): (s: string)
    requires AllScanned(ps) && Fills(ps, args, used).Wrote?
  {
    if ps == [] then "" else
    assert Scanned(ps[0]) && AllScanned(ps[1..]);
    match ps[0]
    case Mark => Value(args[used]) + Replaced(ps[1..], args, used + 1)
    case Number(t) => Value(args[IndexOf(t) - 1]) + Replaced(ps[1..], args, Max(IndexOf(t), used))
    case p => TextOf(p) + Replaced(ps[1..], args, used)
  }

  predicate InRange(ps: seq<Piece>, n: nat)
    requires AllScanned(ps)
  {
    forall i :: 0 <= i < |ps| && ps[i].Number? ==> assert Scanned(ps[i]); Named(ps[i].text, n)
  }

  /** The number names one of n arguments. */
  predicate Named(t: string, n: nat)
    requires IsNumber(t)
  {
    1 <= IndexOf(t) <= n && IndexOf(t) <= MAX_INT
  }

  /** The argument reached after the pieces: a mark goes one further, a number at least to the one it names. */
  function Reach(ps: seq<Piece>, used: nat): (n: nat)
    requires AllScanned(ps)
    ensures n >= used
  {
    if ps == [] then used else
    assert Scanned(ps[0]) && AllScanned(ps[1..]);
    Reach(ps[1..], if ps[0].Mark? then used + 1 else if ps[0].Number? then Max(IndexOf(ps[0].text), used) else used)
  }

  function Bares(ps: seq<Piece>): (n: nat) {
    if ps == [] then 0 else Bit(ps[0].Bare?) + Bares(ps[1..])
  }

  lemma InRangeCons(ps: seq<Piece>, n: nat)
    requires AllScanned(ps) && ps != []
    ensures AllScanned(ps[1..]) && Scanned(ps[0])
    ensures InRange(ps, n) <==>
            InRange(ps[1..], n) && (ps[0].Number? ==> Named(ps[0].text, n))
  {
    assert forall i :: 0 <= i < |ps[1..]| ==> ps[1..][i] == ps[i + 1];
    assert forall i :: 0 < i < |ps| ==> ps[i] == ps[1..][i - 1];
  }

  /** Filling gets through iff every number names an argument and the placeholders do not go beyond the
      last one; and then it has reached as far as they do. */
  lemma {:induction false} FillsReach(ps: seq<Piece>, args: seq<Arg>, used: nat)
    requires AllScanned(ps) && used <= |args|
    ensures Fills(ps, args, used).Wrote? <==> InRange(ps, |args|) && Reach(ps, used) <= |args|
    ensures Fills(ps, args, used).Wrote? ==> Fills(ps, args, used).used == Reach(ps, used)
  {
    if ps != [] {
      hide Value, InRange, Decimal, TextOf, Scanned;
      InRangeCons(ps, |args|);
      match ps[0]
      case Mark =>
        if used < |args| { FillsReach(ps[1..], args, used + 1); }
      case Number(t) =>
        if Named(t, |args|) { FillsReach(ps[1..], args, Max(IndexOf(t), used)); }
      case _ =>
        FillsReach(ps[1..], args, used);
    }
  }

  /** `w` is `k` with b characters missing, none of them a quote. */
  predicate Short(w: string, k: string, b: nat) {
    |k| == |w| + b && Quotes(k) == Quotes(w) && (b == 0 ==> k == w)
  }

  lemma ShortAfter(t: string, w: string, k: string, b: nat)
    requires Short(w, k, b)
    ensures Short(t + w, t + k, b)
  {
    QuotesConcat(t, k);
    QuotesConcat(t, w);
  }

  lemma ShortByOne(c: char, w: string, k: string, b: nat)
    requires Short(w, k, b) && !IsQuote(c)
    ensures Short(w, [c] + k, b + 1)
  {
    assert ([c] + k)[1..] == k;
  }

  /** What is written is one character short for every bare ':' and '$', and has as many quotes. */
  lemma {:induction false} FillsLoses(ps: seq<Piece>, args: seq<Arg>, used: nat)
    requires AllScanned(ps) && Fills(ps, args, used).Wrote?
    ensures Short(Fills(ps, args, used).text, Replaced(ps, args, used), Bares(ps))
  {
    if ps != [] {
      assert Scanned(ps[0]) && AllScanned(ps[1..]);
      hide Value, Decimal, Short, TextOf, Scanned;
      match ps[0]
      case Mark =>
        FillsLoses(ps[1..], args, used + 1);
        var u := used + 1;
        ShortAfter(Value(args[used]), Fills(ps[1..], args, u).text, Replaced(ps[1..], args, u), Bares(ps[1..]));
      case Number(t) =>
        var k := IndexOf(t);
        var u := Max(k, used);
        FillsLoses(ps[1..], args, u);
        ShortAfter(Value(args[k - 1]), Fills(ps[1..], args, u).text, Replaced(ps[1..], args, u), Bares(ps[1..]));
      case Bare(c) =>
        FillsLoses(ps[1..], args, used);
        BareIsOneCharacter(ps[0]);
        ShortByOne(c, Fills(ps[1..], args, used).text, Replaced(ps[1..], args, used), Bares(ps[1..]));
      case p =>
        FillsLoses(ps[1..], args, used);
        ShortAfter(TextOf(p), Fills(ps[1..], args, used).text, Replaced(ps[1..], args, used), Bares(ps[1..]));
    }
  }

  lemma BareIsOneCharacter(p: Piece)
    requires Scanned(p) && p.Bare?
    ensures TextOf(p) == [p.c] && !IsQuote(p.c)
  {}

  function Quotes(s: string): (n: nat) {
    if s == "" then 0 else Bit(IsQuote(s[0])) + Quotes(s[1..])
  }

  lemma {:induction false} QuotesConcat(s: string, t: string)
    ensures Quotes(s + t) == Quotes(s) + Quotes(t)
  {
    if s == "" {
      assert s + t == t;
    } else {
      assert (s + t)[1..] == s[1..] + t;
      QuotesConcat(s[1..], t);
    }
  }

  /** format on closed quotes, with marks and numbers in any mixture: it succeeds iff every number
      names an argument and the placeholders reach exactly the last one; and then it keeps all but
      the placeholders iff there is no bare ':' or '$'. */
  lemma FormatMixed(q: string, args: seq<Arg>)
    requires IsClosed(q) && args != []
    ensures AllScanned(Scan(q).pieces)
    ensures Formatted(q, args).Ok? <==> InRange(Scan(q).pieces, |args|) && Reach(Scan(q).pieces, 0) == |args|
    ensures Formatted(q, args).Ok? ==>
              && Fills(Scan(q).pieces, args, 0).Wrote?
              && (Formatted(q, args).text == Replaced(Scan(q).pieces, args, 0) <==> Bares(Scan(q).pieces) == 0)
  {
    hide Scan, Fills, Formatted, Replaced, Reach, InRange;
    FormatFills(q, args);
    FillsReach(Scan(q).pieces, args, 0);
    if Formatted(q, args).Ok? { FillsLoses(Scan(q).pieces, args, 0); }
  }

  /** Why filling fails: at the first mark beyond the last argument, or the first number that names none. */
  lemma {:induction false} FirstFailure(ps: seq<Piece>, args: seq<Arg>, used: nat) returns (j: nat)
    requires AllScanned(ps) && used <= |args| && Fills(ps, args, used).Failed?
    ensures j < |ps| && Scanned(ps[j]) && AllScanned(ps[..j])
    ensures InRange(ps[..j], |args|) && Reach(ps[..j], used) <= |args|
    ensures ps[j].Mark? || ps[j].Number?
    ensures ps[j].Mark? ==> Reach(ps[..j], used) == |args| && Fills(ps, args, used) == Failed(TooFewArguments)
    ensures ps[j].Number? ==>
              && !Named(ps[j].text, |args|)
              && Fills(ps, args, used)
                 == Failed(if IndexOf(ps[j].text) > 0x7FFF_FFFF_FFFF_FFFF then BadNumber else WrongIndex)
  {
    assert Scanned(ps[0]) && AllScanned(ps[1..]);
    hide Value, Decimal, TextOf, Scanned;
    if (ps[0].Mark? && used == |args|) || (ps[0].Number? && !Named(ps[0].text, |args|)) {
      assert ps[..0] == [];
      return 0;
    }
    var used' := if ps[0].Mark? then used + 1 else if ps[0].Number? then Max(IndexOf(ps[0].text), used) else used;
    var k := FirstFailure(ps[1..], args, used');
    j := k + 1;
    assert ps[..j][1..] == ps[1..][..j - 1] && ps[j] == ps[1..][j - 1];
    AllScannedCons(ps[..j]);
    InRangeCons(ps[..j], |args|);
  }

  lemma AllScannedCons(ps: seq<Piece>)
    requires ps != [] && Scanned(ps[0]) && AllScanned(ps[1..])
    ensures AllScanned(ps)
  {
    assert forall i :: 1 <= i < |ps| ==> ps[i] == ps[1..][i - 1];
  }

  /** Which error format reports when the quotes are closed: not matching when arguments are left over, and
      otherwise that of the first placeholder without an argument. */
  lemma FormatErrors(q: string, args: seq<Arg>)
    requires IsClosed(q) && args != [] && Formatted(q, args).Err?
    ensures AllScanned(Scan(q).pieces)
    ensures Formatted(q, args) == Err(NotMatching) <==>
            InRange(Scan(q).pieces, |args|) && Reach(Scan(q).pieces, 0) < |args|
    ensures Formatted(q, args) != Err(NotMatching) ==>
              Fills(Scan(q).pieces, args, 0) == Failed(Formatted(q, args).error)
  {
    hide Scan, Fills, Formatted, Reach, InRange;
    FormatFills(q, args);
    FillsReach(Scan(q).pieces, args, 0);
    if Fills(Scan(q).pieces, args, 0).Failed? { var j := FirstFailure(Scan(q).pieces, args, 0); }
  }

  // ---------- queries with '?' marks only ----------

  predicate MarksOnly(ps: seq<Piece>) {
    forall i :: 0 <= i < |ps| ==> !ps[i].Number? && !ps[i].Bare?
  }

  function Marks(ps: seq<Piece>): (n: nat) {
    if ps == [] then 0 else Bit(ps[0].Mark?) + Marks(ps[1..])
  }

  /** Every mark replaced by the value of its argument, everything else as it was. */
  function Fill(ps: seq<Piece>, args: seq<Arg>): (s: string)
    requires Marks(ps) == |args|
  {
    if ps == [] then ""
    else if ps[0].Mark? then Value(args[0]) + Fill(ps[1..], args[1..])
    else TextOf(ps[0]) + Fill(ps[1..], args)
  }

  lemma {:induction false} MarksReach(ps: seq<Piece>, n: nat, used: nat)
    requires AllScanned(ps) && MarksOnly(ps)
    ensures InRange(ps, n) && Bares(ps) == 0 && Reach(ps, used) == used + Marks(ps)
  {
    if ps != [] {
      InRangeCons(ps, n);
      hide Scanned;
      MarksReach(ps[1..], n, used + Bit(ps[0].Mark?));
    }
  }

  lemma {:induction false} MarksReplaced(ps: seq<Piece>, args: seq<Arg>, used: nat)
    requires AllScanned(ps) && MarksOnly(ps) && used <= |args| && Marks(ps) == |args| - used
    ensures Fills(ps, args, used).Wrote? && Replaced(ps, args, used) == Fill(ps, args[used..])
  {
    if ps != [] {
      assert Scanned(ps[0]);
      hide Scanned, Value, TextOf;
      if ps[0].Mark? {
        MarksReplaced(ps[1..], args, used + 1);
        assert args[used..][1..] == args[used + 1..];
      } else {
        MarksReplaced(ps[1..], args, used);
      }
    }
  }

  /** format with '?' marks: succeeds iff the unquoted '?' are as many as the arguments, and then
      replaces exactly those. */
  lemma FormatMarks(q: string, args: seq<Arg>)
    requires IsClosed(q) && MarksOnly(Scan(q).pieces) && args != []
    ensures Formatted(q, args).Ok? <==> Marks(Scan(q).pieces) == |args|
    ensures Formatted(q, args).Ok? ==> Formatted(q, args).text == Fill(Scan(q).pieces, args)
  {
    hide Scan, Formatted, Fills, Replaced, Reach;
    FormatMixed(q, args);
    MarksReach(Scan(q).pieces, |args|, 0);
    if Formatted(q, args).Ok? {
      MarksReplaced(Scan(q).pieces, args, 0);
      assert args[0..] == args;
    }
  }

  /** Marks are filled from left to right: what fills a query in two parts. */
  lemma {:induction false} FillConcat(ps: seq<Piece>, qs: seq<Piece>, args: seq<Arg>)
    requires Marks(ps) + Marks(qs) == |args|
    ensures Marks(ps + qs) == |args|
    ensures Fill(ps + qs, args) == Fill(ps, args[..Marks(ps)]) + Fill(qs, args[Marks(ps)..])
  {
    if ps == [] {
      assert ps + qs == qs && args[0..] == args;
    } else {
      hide Value, TextOf;
      assert (ps + qs)[1..] == ps[1..] + qs;
      var m := Marks(ps);
      if ps[0].Mark? {
        FillConcat(ps[1..], qs, args[1..]);
        assert args[..m][1..] == args[1..][..m - 1] && args[m..] == args[1..][m - 1..];
      } else {
        FillConcat(ps[1..], qs, args);
      }
    }
  }

  /** One mark alone is its argument, and so is the number of the last argument. */
  lemma PlaceholderAlone(c: char, args: seq<Arg>)
    requires c in [':', '$'] && 1 <= |args| <= 0x7FFF_FFFF_FFFF_FFFF
    ensures Formatted([c] + Itoa(|args|), args) == Ok(Value(args[|args| - 1]))
    ensures |args| == 1 ==> Formatted("?", args) == Ok(Value(args[0]))
  {
    hide Scan, Formatted, Itoa, IndexOf, Value, IsNumber, Fills, Finish;
    PlaceholdersAre(c, |args|);
    var q := [c] + Itoa(|args|);
    FormatFills(q, args);
    FormatFills("?", args);
    LastNumber(q, args);
    OneMark(args);
  }

  lemma LastNumber(t: string, args: seq<Arg>)
    requires IsNumber(t) && args != [] && IndexOf(t) == |args| <= MAX_INT && AllScanned([Number(t)])
    ensures Finish(Fills([Number(t)], args, 0), args) == Ok(Value(args[|args| - 1]))
  {
    hide IsNumber, IndexOf, Value;
    assert [Number(t)][1..] == [];
    assert Value(args[|args| - 1]) + "" == Value(args[|args| - 1]);
  }

  lemma OneMark(args: seq<Arg>)
    ensures AllScanned([Mark]) && (|args| == 1 ==> Finish(Fills([Mark], args, 0), args) == Ok(Value(args[0])))
  {
    hide Value;
    assert [Mark][1..] == [];
    if |args| == 1 { assert Value(args[0]) + "" == Value(args[0]); }
  }

  // ---------- queries with numbers only ----------

  predicate NumbersOnly(ps: seq<Piece>) {
    forall i :: 0 <= i < |ps| ==> !ps[i].Mark? && !ps[i].Bare?
  }

  /** The largest number in the query. */
  function Highest(ps: seq<Piece>): (m: nat)
    requires AllScanned(ps)
  {
    if ps == [] then 0 else
    assert Scanned(ps[0]) && AllScanned(ps[1..]);
    Max(if ps[0].Number? then IndexOf(ps[0].text) else 0, Highest(ps[1..]))
  }

  /** Every number replaced by the value of the argument it names. */
  function FillNumbers(ps: seq<Piece>, args: seq<Arg>): (s: string)
    requires AllScanned(ps) && InRange(ps, |args|)
  {
    if ps == [] then "" else
    assert Scanned(ps[0]) && AllScanned(ps[1..]);
    assert InRange(ps[1..], |args|) by { InRangeCons(ps, |args|); }
    (if ps[0].Number? then Value(args[IndexOf(ps[0].text) - 1]) else TextOf(ps[0])) + FillNumbers(ps[1..], args)
  }

  lemma {:induction false} NumbersReach(ps: seq<Piece>, n: nat, used: nat)
    requires AllScanned(ps) && NumbersOnly(ps)
    ensures Bares(ps) == 0 && Reach(ps, used) == Max(Highest(ps), used) && (InRange(ps, n) ==> Highest(ps) <= n)
  {
    if ps != [] {
      InRangeCons(ps, n);
      hide Scanned, Decimal, InRange;
      NumbersReach(ps[1..], n, if ps[0].Number? then Max(IndexOf(ps[0].text), used) else used);
    }
  }

  lemma {:induction false} NumbersReplaced(ps: seq<Piece>, args: seq<Arg>, used: nat)
    requires AllScanned(ps) && NumbersOnly(ps) && InRange(ps, |args|)
    ensures Fills(ps, args, used).Wrote? && Replaced(ps, args, used) == FillNumbers(ps, args)
  {
    if ps != [] {
      InRangeCons(ps, |args|);
      hide Scanned, Decimal, InRange, Value, TextOf;
      NumbersReplaced(ps[1..], args, if ps[0].Number? then Max(IndexOf(ps[0].text), used) else used);
    }
  }

  /** format with numbers: succeeds iff every number names an argument and the last argument is
      named, and then replaces each by the argument it names. */
  lemma FormatNumbers(q: string, args: seq<Arg>)
    requires IsClosed(q) && NumbersOnly(Scan(q).pieces) && args != []
    ensures AllScanned(Scan(q).pieces)
    ensures Formatted(q, args).Ok? <==> InRange(Scan(q).pieces, |args|) && Highest(Scan(q).pieces) >= |args|
    ensures Formatted(q, args).Ok? ==> Formatted(q, args).text == FillNumbers(Scan(q).pieces, args)
  {
    hide Scan, Formatted, Fills, Replaced, Reach, Highest, InRange;
    FormatMixed(q, args);
    NumbersReach(Scan(q).pieces, |args|, 0);
    if Formatted(q, args).Ok? { NumbersReplaced(Scan(q).pieces, args, 0); }
  }

  // ---------- what format gets wrong ----------

  function WithoutBare(ps: seq<Piece>): (r: seq<Piece>) {
    if ps == [] then [] else (if ps[0].Bare? then [] else [ps[0]]) + WithoutBare(ps[1..])
  }

  /** A ':' or '$' that no digit follows is lost: the query is formatted as if it were not there. */
  lemma {:induction false} BareVanishes(ps: seq<Piece>, args: seq<Arg>, used: nat)
    requires AllScanned(ps)
    ensures AllScanned(WithoutBare(ps)) && Fills(ps, args, used) == Fills(WithoutBare(ps), args, used)
  {
    hide Fills, Scanned;
    if ps != [] {
      var rest := WithoutBare(ps[1..]);
      assert ps == [ps[0]] + ps[1..] && Scanned(ps[0]) && AllScanned(ps[1..]) && [] + rest == rest;
      BareVanishes(ps[1..], args, used);
      forall u: nat ensures Fills(ps[1..], args, u) == Fills(rest, args, u) {
        BareVanishes(ps[1..], args, u);
      }
      SameRest(ps[0], ps[1..], rest, args, used);
    }
  }

  /** Filling goes on the same after the same piece. */
  lemma SameRest(p: Piece, a: seq<Piece>, b: seq<Piece>, args: seq<Arg>, used: nat)
    requires Scanned(p) && AllScanned(a) && AllScanned(b)
    requires forall u: nat {:trigger Fills(a, args, u)} {:trigger Fills(b, args, u)} ::
               Fills(a, args, u) == Fills(b, args, u)
    ensures AllScanned([p] + a) && AllScanned([p] + b)
    ensures Fills([p] + a, args, used) == Fills([p] + b, args, used)
    ensures p.Bare? ==> Fills([p] + a, args, used) == Fills(b, args, used)
  {
    hide Value, Decimal, After, TextOf;
    assert ([p] + a)[1..] == a && ([p] + b)[1..] == b;
  }

  /** For example a type cast loses its colons. */
  lemma CastLosesColons()
    ensures Formatted("a::b=?", [BoolArg(true)]) == Ok("ab=1")
  {
    var q, args := "a::b=?", [BoolArg(true)];
    assert "" + ['a'] == "a" && "a" + ['b'] == "ab" && "ab" + ['='] == "ab=" && "ab=" + "1" == "ab=1";
    assert DigitsEnd(q, 2) == 2 && DigitsEnd(q, 3) == 3;
    assert Walk(q, 5, args, 0, "ab=") == Walk(q, 6, args, 1, "ab=1") == Ok("ab=1");
    assert Walk(q, 3, args, 0, "a") == Walk(q, 4, args, 0, "ab") == Walk(q, 5, args, 0, "ab=");
    assert Walk(q, 0, args, 0, "") == Walk(q, 1, args, 0, "a") == Walk(q, 2, args, 0, "a") == Walk(q, 3, args, 0, "a");
  }

  function Prefixed(out: string, r: Result): (r': Result) {
    if r.Ok? then Ok(out + r.text) else r
  }

  /** What is already written only goes in front. */
  lemma {:induction false} WalkOut(q: string, i: nat, args: seq<Arg>, used: nat, out: string)
    ensures Walk(q, i, args, used, out) == Prefixed(out, Walk(q, i, args, used, ""))
    decreases |q| - i, 0
  {
    hide Quote, DigitsEnd, Decimal, Value;
    if i >= |q| {
      assert out + "" == out;
    } else if q[i] == '?' {
      if used < |args| { WalkOn(q, i + 1, args, used + 1, out, Value(args[used])); }
    } else if q[i] == ':' || q[i] == '$' {
      var j := DigitsEnd(q, i + 1);
      if j == i + 1 {
        WalkOut(q, i + 1, args, used, out);
      } else {
        var k := Decimal(q[i + 1..j]);
        if 1 <= k <= |args| { WalkOn(q, j, args, if k > used then k else used, out, Value(args[k - 1])); }
      }
    } else if IsQuote(q[i]) {
      match Quote(q, q[i], i + 1)
      case BadEscape =>
      case Closed(e) => WalkOn(q, e, args, used, out, q[i..e]);
      case Open => WalkOn(q, i + 1, args, used, out, q[i..]);
    } else {
      WalkOn(q, i + 1, args, used, out, [q[i]]);
    }
  }

  lemma {:induction false} WalkOn(q: string, j: nat, args: seq<Arg>, used: nat, out: string, t: string)
    ensures Walk(q, j, args, used, out + t) == Prefixed(out, Walk(q, j, args, used, "" + t))
    decreases |q| - j, 1
  {
    WalkOut(q, j, args, used, out + t);
    WalkOut(q, j, args, used, "" + t);
    var r := Walk(q, j, args, used, "");
    hide Walk;
    assert "" + t == t;
    if r.Ok? { assert (out + t) + r.text == out + (t + r.text); }
  }

  /** Where the first quote that is not closed is. */
  function OpenAt(q: string): (o: int) {
    |q| - |Scan(q).tail|
  }

  /** A quote that is not closed is copied to the end of the query, and then what follows it is
      formatted once more, from the same argument on. */
  lemma OpenQuoteIsScannedTwice(q: string, args: seq<Arg>)
    requires !IsClosed(q) && args != []
    ensures 0 <= OpenAt(q) < |q| && q[OpenAt(q)..] == Scan(q).tail && IsQuote(q[OpenAt(q)])
    ensures AllScanned(Scan(q).pieces)
    ensures Formatted(q, args) ==
            match Fills(Scan(q).pieces, args, 0)
            case Failed(e) => Err(e)
            case Wrote(t, used) =>
              if Quote(q, q[OpenAt(q)], OpenAt(q) + 1).BadEscape? then Err(UnbalancedEscape)
              else Prefixed(t + q[OpenAt(q)..], Walk(q, OpenAt(q) + 1, args, used, ""))
  {
    hide Scan, Fills, Quote;
    ScanIsFaithful(q);
    var o, tail, ps := OpenAt(q), Scan(q).tail, Scan(q).pieces;
    assert q == Text(ps) + tail && q[o..] == tail && q[0..] == q && q[o] == tail[0];
    QuoteShift(q, q[o], o, 1);
    WalkFills(q, 0, args, 0, "");
    var p := Fills(ps, args, 0);
    if p.Wrote? {
      assert "" + p.text == p.text;
      OpenStep(q, o, args, p.used, p.text);
    }
  }

  lemma OpenStep(q: string, o: nat, args: seq<Arg>, used: nat, out: string)
    requires o < |q| && IsQuote(q[o]) && !Quote(q, q[o], o + 1).Closed?
    ensures Walk(q, o, args, used, out) ==
            if Quote(q, q[o], o + 1).BadEscape? then Err(UnbalancedEscape)
            else Prefixed(out + q[o..], Walk(q, o + 1, args, used, ""))
  {
    hide Quote;
    WalkOut(q, o + 1, args, used, out + q[o..]);
  }

  /** All pieces that format comes across: those before the first quote that is not closed, and those of
      what follows that quote. */
  function Rescanned(q: string): (ps: seq<Piece>)
    decreases |q|
  {
    var r := Scan(q);
    ScanIsFaithful(q);
    r.pieces + (if r.tail == "" then [] else Rescanned(r.tail[1..]))
  }

  /** No quote that is not closed runs into an escape character at the end of the query. */
  predicate Balanced(q: string)
    decreases |q|
  {
    var r := Scan(q);
    ScanIsFaithful(q);
    r.tail == "" || (Quote(r.tail, r.tail[0], 1).Open? && Balanced(r.tail[1..]))
  }

  lemma {:induction false} RescannedIsScanned(q: string)
    ensures AllScanned(Rescanned(q))
    decreases |q|
  {
    hide Scan, Scanned, Quote;
    ScanProduces(q);
    ScanIsFaithful(q);
    if Scan(q).tail != "" { RescannedIsScanned(Scan(q).tail[1..]); }
  }

  lemma {:induction false} ReachConcat(ps: seq<Piece>, qs: seq<Piece>, n: nat, used: nat)
    requires AllScanned(ps) && AllScanned(qs)
    ensures AllScanned(ps + qs)
    ensures Reach(ps + qs, used) == Reach(qs, Reach(ps, used))
    ensures InRange(ps + qs, n) <==> InRange(ps, n) && InRange(qs, n)
  {
    hide Decimal;
    if ps == [] {
      assert ps + qs == qs;
    } else {
      assert (ps + qs)[1..] == ps[1..] + qs && Scanned(ps[0]) && AllScanned(ps[1..]);
      hide Scanned;
      var used' := if ps[0].Mark? then used + 1 else if ps[0].Number? then Max(IndexOf(ps[0].text), used) else used;
      ReachConcat(ps[1..], qs, n, used');
      assert AllScanned(ps + qs);
      InRangeCons(ps, n);
      InRangeCons(ps + qs, n);
      hide InRange, Named;
    }
  }

  lemma {:induction false} WalkSucceeds(q: string, i: nat, args: seq<Arg>, used: nat, out: string)
    requires i <= |q| && used <= |args|
    ensures AllScanned(Rescanned(q[i..]))
    ensures Walk(q, i, args, used, out).Ok? <==>
            && Balanced(q[i..]) && InRange(Rescanned(q[i..]), |args|) && Reach(Rescanned(q[i..]), used) == |args|
    decreases |q| - i
  {
    hide Scan, Fills, Quote, InRange, Reach, Walk, Rescanned, Balanced, AllScanned;
    var r := Scan(q[i..]);
    WalkFills(q, i, args, used, out);
    RescannedIsScanned(q[i..]);
    RescannedParts(q[i..]);
    FillsReach(r.pieces, args, used);
    ScanIsFaithful(q[i..]);
    var o, u, p := |q| - |r.tail|, Reach(r.pieces, used), Fills(r.pieces, args, used);
    if r.tail == "" {
      if p.Wrote? { WalkEnds(q, args, u, out + p.text); }
    } else {
      TailIsRest(q, i, Text(r.pieces), r.tail);
      RescannedIsScanned(r.tail[1..]);
      ReachConcat(r.pieces, Rescanned(r.tail[1..]), |args|, used);
      if u <= |args| {
        QuoteShift(q, q[o], o, 1);
        WalkSucceeds(q, o + 1, args, u, "");
        if p.Wrote? { OpenStep(q, o, args, u, out + p.text); }
      }
    }
  }

  lemma RescannedParts(q: string)
    ensures var r := Scan(q);
            && (r.tail == "" ==> Rescanned(q) == r.pieces && Balanced(q))
            && (r.tail != "" ==>
                  && Rescanned(q) == r.pieces + Rescanned(r.tail[1..])
                  && (Balanced(q) <==> Quote(r.tail, r.tail[0], 1).Open? && Balanced(r.tail[1..])))
  {
    hide Scan, Quote;
  }

  lemma TailIsRest(q: string, i: nat, before: string, tail: string)
    requires i <= |q| && q[i..] == before + tail && tail != ""
    ensures var o := |q| - |tail|; i <= o < |q| && q[o..] == tail && q[o] == tail[0] && q[o + 1..] == tail[1..]
  {
    var o := |q| - |tail|;
    assert q[o..] == q[i..][|before|..] == tail;
  }

  /** When format succeeds, for every query: no open quote ends in an escape character, every number it
      comes across names an argument, and the placeholders it comes across reach exactly the last one. */
  lemma FormatSucceeds(q: string, args: seq<Arg>)
    requires args != []
    ensures AllScanned(Rescanned(q))
    ensures Formatted(q, args).Ok? <==>
            Balanced(q) && InRange(Rescanned(q), |args|) && Reach(Rescanned(q), 0) == |args|
  {
    assert q[0..] == q;
    WalkSucceeds(q, 0, args, 0, "");
  }

  /** These pieces write nothing: bare ':' and '$', and arguments that print as nothing. */
  predicate Blank(ps: seq<Piece>, args: seq<Arg>, used: nat)
    requires AllScanned(ps)
  {
    ps == [] ||
    (assert Scanned(ps[0]) && AllScanned(ps[1..]);
     match ps[0]
     case Mark => used < |args| && Value(args[used]) == "" && Blank(ps[1..], args, used + 1)
     case Number(t) =>
       && 1 <= IndexOf(t) <= |args| && Value(args[IndexOf(t) - 1]) == ""
       && Blank(ps[1..], args, Max(IndexOf(t), used))
     case Bare(_) => Blank(ps[1..], args, used)
     case _ => false)
  }

  lemma {:induction false} BlankWritesNothing(ps: seq<Piece>, args: seq<Arg>, used: nat)
    requires AllScanned(ps) && Fills(ps, args, used).Wrote?
    ensures Fills(ps, args, used).text == "" <==> Blank(ps, args, used)
  {
    if ps != [] {
      assert Scanned(ps[0]) && AllScanned(ps[1..]);
      hide Value, Decimal;
      match ps[0]
      case Mark => BlankWritesNothing(ps[1..], args, used + 1);
      case Number(t) => BlankWritesNothing(ps[1..], args, Max(IndexOf(t), used));
      case Bare(_) => BlankWritesNothing(ps[1..], args, used);
      case _ =>
    }
  }

  /** The rest of a query adds nothing: no quote is open in it and its pieces write nothing. */
  predicate AddsNothing(q: string, i: nat, args: seq<Arg>, used: nat)
    requires i <= |q|
  {
    IsClosed(q[i..]) && AllScanned(Scan(q[i..]).pieces) && Blank(Scan(q[i..]).pieces, args, used)
  }

  lemma RestIsEmpty(q: string, i: nat, args: seq<Arg>, used: nat)
    requires i <= |q| && Walk(q, i, args, used, "").Ok?
    ensures Walk(q, i, args, used, "").text == "" <==> AddsNothing(q, i, args, used)
  {
    hide Scan, Fills, Quote, Blank, Walk;
    WalkFills(q, i, args, used, "");
    var r := Scan(q[i..]);
    var p := Fills(r.pieces, args, used);
    BlankWritesNothing(r.pieces, args, used);
    assert "" + p.text == p.text;
    if r.tail == "" {
      WalkEnds(q, args, p.used, p.text);
    } else {
      ScanIsFaithful(q[i..]);
      TailIsRest(q, i, Text(r.pieces), r.tail);
      var o := |q| - |r.tail|;
      QuoteShift(q, q[o], o, 1);
      OpenStep(q, o, args, p.used, p.text);
    }
  }

  lemma WalkEnds(q: string, args: seq<Arg>, used: nat, out: string)
    ensures Walk(q, |q|, args, used, out) == if used < |args| then Err(NotMatching) else Ok(out)
  {}

  /** If text is missing before the open quote, the quote stands where kept text would be. */
  lemma QuoteTooEarly(w: string, k: string, tail: string, rest: string)
    requires |w| < |k| && tail != "" && IsQuote(tail[0]) && w + tail + rest == k + tail
    ensures Quotes(k) > Quotes(w)
  {
    assert k[..|w|] == (k + tail)[..|w|] == (w + tail + rest)[..|w|] == w;
    assert k[|w|] == (k + tail)[|w|] == (w + tail + rest)[|w|] == tail[0];
    assert k == w + k[|w|..];
    QuotesConcat(w, k[|w|..]);
  }

  /** Exactly when format does what one would expect, for every query: on success all but the
      placeholders is kept iff no bare ':' or '$' comes before the first quote that is not closed,
      and nothing after that quote writes anything. */
  lemma FormatExactly(q: string, args: seq<Arg>)
    requires args != [] && Formatted(q, args).Ok?
    ensures AllScanned(Scan(q).pieces) && Fills(Scan(q).pieces, args, 0).Wrote?
    ensures 0 <= OpenAt(q) <= |q|
    ensures Formatted(q, args).text == Replaced(Scan(q).pieces, args, 0) + Scan(q).tail <==>
            && Bares(Scan(q).pieces) == 0
            && (IsClosed(q) || AddsNothing(q, OpenAt(q) + 1, args, Fills(Scan(q).pieces, args, 0).used))
  {
    hide Scan, Fills, Quote, Replaced, AddsNothing, Formatted, Walk;
    var ps, tail := Scan(q).pieces, Scan(q).tail;
    ScanIsFaithful(q);
    assert |q| == |Text(ps)| + |tail|;
    if IsClosed(q) {
      FormatMixed(q, args);
      assert Replaced(ps, args, 0) + tail == Replaced(ps, args, 0);
    } else {
      OpenQuoteIsScannedTwice(q, args);
      var p := Fills(ps, args, 0);
      var rest := Walk(q, OpenAt(q) + 1, args, p.used, "");
      RestIsEmpty(q, OpenAt(q) + 1, args, p.used);
      FillsLoses(ps, args, 0);
      if Bares(ps) > 0 {
        if p.text + tail + rest.text == Replaced(ps, args, 0) + tail {
          QuoteTooEarly(p.text, Replaced(ps, args, 0), tail, rest.text);
        }
      } else {
        assert p.text + tail + rest.text == p.text + tail <==> rest.text == "";
      }
    }
  }

  /** The text after an open quote can show up twice, and the '?' in it is filled. */
  lemma OpenQuoteExample()
    ensures !IsClosed("'?") && Formatted("'?", [BoolArg(true)]) == Ok("'?1")
  {
    var q, args := "'?", [BoolArg(true)];
    assert Quote(q, '\'', 1) == Quote(q, '\'', 2) == Open;
    assert q[0..] == q && "" + q == q && "'?" + "1" == "'?1";
    assert Walk(q, 1, args, 0, "'?") == Walk(q, 2, args, 1, "'?1") == Ok("'?1");
  }

  // ---------- the output keeps the structure of the query ----------

  /** A literal is one piece whatever follows it. */
  lemma {:induction false} QuoteAppend(t: string, rest: string, ch: char, j: nat)
    requires Quote(t, ch, j).Closed?
    ensures Quote(t + rest, ch, j) == Quote(t, ch, j)
    decreases |t| - j
  {
    if t[j] == '\\' {
      QuoteAppend(t, rest, ch, j + 2);
    } else if t[j] != ch {
      QuoteAppend(t, rest, ch, j + 1);
    }
  }

  /** The quote scanner passes over an escaped text and stops at the quote after it. */
  lemma {:induction false} QuotePassesEscaped(before: string, s: string)
    ensures Quote(before + Escape(s) + "'", '\'', |before|) == Closed(|before| + |Escape(s)| + 1)
    decreases |s|
  {
    if s == "" {
      QuoteStops(before);
    } else {
      hide Quote, EscapeChar;
      var e, rest := EscapeChar(s[0]), Escape(s[1..]);
      assert Escape(s) == e + rest;
      hide Escape;
      Regroup(before, e, rest);
      QuotePassesEscaped(before + e, s[1..]);
      QuotePassesChar(before + (e + rest) + "'", |before|, s[0]);
    }
  }

  lemma Regroup(before: string, e: string, rest: string)
    ensures before + (e + rest) + "'" == (before + e) + rest + "'"
    ensures forall k :: 0 <= k < |e| ==> (before + (e + rest) + "'")[|before| + k] == e[k]
  {}

  lemma QuoteStops(before: string)
    ensures Quote(before + "" + "'", '\'', |before|) == Closed(|before| + 1)
  {}

  lemma QuotePassesChar(q: string, b: nat, c: char)
    requires b + |EscapeChar(c)| <= |q|
    requires forall k :: 0 <= k < |EscapeChar(c)| ==> q[b + k] == EscapeChar(c)[k]
    ensures Quote(q, '\'', b) == Quote(q, '\'', b + |EscapeChar(c)|)
  {
    var e := EscapeChar(c);
    assert q[b + 0] == e[0];
    if |e| == 4 {
      assert q[b + 1] == e[1] && q[b + 2] == e[2] && q[b + 3] == e[3];
      assert Quote(q, '\'', b) == Quote(q, '\'', b + 2);
      assert Quote(q, '\'', b + 2) == Quote(q, '\'', b + 3);
    }
  }

  /** The rendered value of a string argument is one literal. */
  lemma RenderedStringIsLiteral(s: string)
    ensures IsLiteral(Value(StringArg(s)))
  {
    assert "'" + Escape(s) + "'" == Value(StringArg(s));
    QuotePassesEscaped("'", s);
  }

  /** What an argument contributes to the scanned output. */
  function PiecesOf(a: Arg): (ps: seq<Piece>) {
    match a
    case StringArg(_) => [Literal(Value(a))]
    case _ => Plains(Value(a))
  }

  function Plains(s: string): (ps: seq<Piece>) {
    seq(|s|, i requires 0 <= i < |s| => Plain(s[i]))
  }

  /** Numbers and the like print without special characters. */
  predicate PlainArg(a: Arg) {
    a.OtherArg? ==> forall i :: 0 <= i < |a.repr| ==> !IsSpecial(a.repr[i])
  }

  /** The pieces of the query with every placeholder replaced by what its argument contributes. */
  function Substituted(ps: seq<Piece>, args: seq<Arg>, used: nat): (r: seq<Piece>)
    requires AllScanned(ps) && Fills(ps, args, used).Wrote?
  {
    if ps == [] then [] else
    assert Scanned(ps[0]) && AllScanned(ps[1..]);
    match ps[0]
    case Mark => PiecesOf(args[used]) + Substituted(ps[1..], args, used + 1)
    case Number(t) => PiecesOf(args[IndexOf(t) - 1]) + Substituted(ps[1..], args, Max(IndexOf(t), used))
    case Bare(_) => Substituted(ps[1..], args, used)
    case p => [p] + Substituted(ps[1..], args, used)
  }

  lemma {:induction false} ScanPlains(s: string, rest: string)
    requires forall i :: 0 <= i < |s| ==> !IsSpecial(s[i])
    ensures Scan(s + rest) == Parts(Plains(s) + Scan(rest).pieces, Scan(rest).tail)
    decreases |s|
  {
    if s == "" {
      assert s + rest == rest && Plains(s) + Scan(rest).pieces == Scan(rest).pieces;
    } else {
      assert (s + rest)[1..] == s[1..] + rest;
      ScanPlains(s[1..], rest);
      assert Plains(s) == [Plain(s[0])] + Plains(s[1..]);
      assert [Plain(s[0])] + (Plains(s[1..]) + Scan(rest).pieces) == Plains(s) + Scan(rest).pieces;
    }
  }

  lemma ScanLiteral(t: string, rest: string)
    requires IsLiteral(t)
    ensures Scan(t + rest) == Cons(Literal(t), Scan(rest))
  {
    QuoteAppend(t, rest, t[0], 1);
    assert (t + rest)[..|t|] == t && (t + rest)[|t|..] == rest;
  }

  lemma ScanValue(a: Arg, rest: string)
    requires PlainArg(a)
    ensures Scan(Value(a) + rest) == Parts(PiecesOf(a) + Scan(rest).pieces, Scan(rest).tail)
  {
    if a.StringArg? {
      RenderedStringIsLiteral(a.s);
      ScanLiteral(Value(a), rest);
    } else {
      ScanPlains(Value(a), rest);
    }
  }

  /** A piece that is kept is scanned as itself. */
  lemma ScanKept(p: Piece, rest: string)
    requires Scanned(p) && (p.Plain? || p.Literal?)
    ensures Scan(TextOf(p) + rest) == Parts([p] + Scan(rest).pieces, Scan(rest).tail)
  {
    match p
    case Literal(t) => ScanLiteral(t, rest);
    case Plain(c) =>
      ScanPlains([c], rest);
      assert Plains([c]) == [p];
  }

  /** The output for these pieces is scanned as what each of them becomes. */
  ghost predicate Keeps(ps: seq<Piece>, args: seq<Arg>, used: nat) {
    && AllScanned(ps) && Fills(ps, args, used).Wrote?
    && Scan(Fills(ps, args, used).text) == Parts(Substituted(ps, args, used), "")
  }

  lemma MarkKeeps(ps: seq<Piece>, args: seq<Arg>, used: nat)
    requires AllScanned(ps) && ps != [] && ps[0] == Mark && used < |args| && PlainArg(args[used])
    requires Keeps(ps[1..], args, used + 1)
    ensures Keeps(ps, args, used)
  {
    hide Scan, Value, PiecesOf, PlainArg, AllScanned;
    ScanValue(args[used], Fills(ps[1..], args, used + 1).text);
  }

  lemma NumberKeeps(ps: seq<Piece>, args: seq<Arg>, used: nat, t: string)
    requires AllScanned(ps) && ps != [] && ps[0] == Number(t) && IsNumber(t)
    requires 1 <= IndexOf(t) <= MAX_INT && IndexOf(t) <= |args| && PlainArg(args[IndexOf(t) - 1])
    requires Keeps(ps[1..], args, Max(IndexOf(t), used))
    ensures Keeps(ps, args, used)
  {
    hide Scan, Value, IndexOf, PiecesOf, PlainArg, AllScanned, Max;
    ScanValue(args[IndexOf(t) - 1], Fills(ps[1..], args, Max(IndexOf(t), used)).text);
  }

  lemma OtherKeeps(ps: seq<Piece>, args: seq<Arg>, used: nat)
    requires AllScanned(ps) && ps != [] && Scanned(ps[0]) && !ps[0].Mark? && !ps[0].Number?
    requires Keeps(ps[1..], args, used)
    ensures Keeps(ps, args, used)
  {
    hide Scan, AllScanned, Scanned, TextOf;
    if !ps[0].Bare? { ScanKept(ps[0], Fills(ps[1..], args, used).text); }
  }

  /** Scanning the output gives the pieces of the query with each placeholder replaced by its value:
      a string argument is exactly one literal, and nothing else moves. */
  lemma {:induction false} OutputKeepsStructure(ps: seq<Piece>, args: seq<Arg>, used: nat)
    requires AllScanned(ps) && Fills(ps, args, used).Wrote?
    requires forall i :: 0 <= i < |args| ==> PlainArg(args[i])
    ensures Scan(Fills(ps, args, used).text) == Parts(Substituted(ps, args, used), "")
  {
    if ps != [] {
      assert Scanned(ps[0]) && AllScanned(ps[1..]);
      hide Scan, Value, Decimal, PlainArg, AllScanned, Substituted;
      match ps[0]
      case Mark =>
        OutputKeepsStructure(ps[1..], args, used + 1);
        MarkKeeps(ps, args, used);
      case Number(t) =>
        OutputKeepsStructure(ps[1..], args, Max(IndexOf(t), used));
        NumberKeeps(ps, args, used, t);
      case _ =>
        OutputKeepsStructure(ps[1..], args, used);
        OtherKeeps(ps, args, used);
    }
  }

  /** Together: formatting a query with closed quotes keeps its structure. */
  lemma FormatKeepsStructure(q: string, args: seq<Arg>)
    requires IsClosed(q) && args != [] && Formatted(q, args).Ok?
    requires forall i :: 0 <= i < |args| ==> PlainArg(args[i])
    ensures AllScanned(Scan(q).pieces) && Fills(Scan(q).pieces, args, 0).Wrote?
    ensures Scan(Formatted(q, args).text) == Parts(Substituted(Scan(q).pieces, args, 0), "")
  {
    FormatFills(q, args);
    OutputKeepsStructure(Scan(q).pieces, args, 0);
  }
}
