/** core/stores/sqlx/utils.go: escape and format, with their loops over a string builder. */
module SqlFormat {
  import opened Decimals
  import opened SqlTheory

  lemma EscapeStep(s: string, i: nat)
    requires i < |s|
    ensures Escape(s[i..]) == EscapeChar(s[i]) + Escape(s[i + 1..])
  {
    assert s[i..][1..] == s[i + 1..];
  }

  /** escape */
  method EscapeText(input: string) returns (b: string)
    ensures b == Escape(input)
  {
    hide EscapeChar;
    b := "";
    for i := 0 to |input|
      invariant b + Escape(input[i..]) == Escape(input)
    {
      var e := EscapeChar(input[i]);
      EscapeStep(input, i);
      assert b + (e + Escape(input[i + 1..])) == (b + e) + Escape(input[i + 1..]);
      b := b + e;
    }
    assert input[|input|..] == "";
  }

  /** writeValue */
  method WriteValue(buf: string, arg: Arg) returns (b: string)
    ensures b == buf + Value(arg)
  {
    match arg
    case BoolArg(v) => b := buf + (if v then "1" else "0");
    case StringArg(v) =>
      var e := EscapeText(v);
      b := buf + ("'" + e + "'");
    case OtherArg(repr) => b := buf + repr;
  }

  /** The digit loop of the ':' and '$' case. */
  method SkipDigits(query: string, start: nat) returns (j: nat)
    requires start <= |query|
    ensures j == DigitsEnd(query, start)
  {
    j := start;
    while j < |query| && IsDigit(query[j])
      invariant start <= j <= |query| && DigitsEnd(query, start) == DigitsEnd(query, j)
    {
      j := j + 1;
    }
  }

  /** strconv.Atoi on digits, before the range check. */
  method ReadDecimal(s: string) returns (n: nat)
    requires AllDigits(s)
    ensures n == Decimal(s)
  {
    n := 0;
    for i := 0 to |s|
      invariant n == Decimal(s[..i])
    {
      assert s[..i + 1][..i] == s[..i] && IsDigit(s[i]);
      n := n * 10 + (s[i] as int - '0' as int);
    }
    assert s[..|s|] == s;
  }

  /** The copying loop of the quote case: everything up to the closing quote, or to the end. */
  method CopyQuoted(query: string, i: nat) returns (text: string, end: QuoteEnd)
    requires i < |query| && IsQuote(query[i])
    ensures end == Quote(query, query[i], i + 1)
    ensures end.Closed? ==> text == query[i..end.end]
    ensures end.Open? ==> text == query[i..]
  {
    var ch := query[i];
    text := [ch];
    var j := i + 1;
    while j < |query|
      invariant i < j <= |query| && text == query[i..j] && Quote(query, ch, i + 1) == Quote(query, ch, j)
    {
      var cur := query[j];
      assert query[i..j] + [cur] == query[i..j + 1];
      text := text + [cur];
      if cur == '\\' {
        j := j + 1;
        if j >= |query| {
          return text, BadEscape;
        }
        assert query[i..j] + [query[j]] == query[i..j + 1];
        text := text + [query[j]];
      } else if cur == ch {
        return text, Closed(j + 1);
      }
      j := j + 1;
    }
    end := Open;
  }

  /** format */
  method Format(query: string, args: seq<Arg>) returns (r: Result)
    ensures r == Formatted(query, args)
    ensures args == [] ==> r == Ok(query)
  {
    hide Quote, Decimal, Value, DigitsEnd, EscapeChar;
    if |args| == 0 {
      return Ok(query);
    }
    var b, used := "", 0;
    var i := 0;
    while i < |query|
      invariant 0 <= i <= |query| && 0 <= used && Walk(query, i, args, used, b) == Walk(query, 0, args, 0, "")
    {
      var ch := query[i];
      if ch == '?' {
        if used >= |args| {
          return Err(TooFewArguments);
        }
        b := WriteValue(b, args[used]);
        used := used + 1;
      } else if ch == ':' || ch == '$' {
        var j := SkipDigits(query, i + 1);
        if j > i + 1 {
          var index := ReadDecimal(query[i + 1..j]);
          if index > MAX_INT {
            return Err(BadNumber);
          }
          if index > used {
            used := index;
          }
          index := index - 1;
          if index < 0 || |args| <= index {
            return Err(WrongIndex);
          }
          b := WriteValue(b, args[index]);
          i := j - 1;
        }
      } else if IsQuote(ch) {
        var text, end := CopyQuoted(query, i);
        b := b + text;
        if end.BadEscape? {
          return Err(UnbalancedEscape);
        }
        if end.Closed? {
          i := end.end - 1;
        }
      } else {
        b := b + [ch];
      }
      i := i + 1;
    }
    if used < |args| {
      return Err(NotMatching);
    }
    r := Ok(b);
  }
}
