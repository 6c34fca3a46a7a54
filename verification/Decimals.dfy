/** Decimal numerals: strconv.Itoa and strconv.Atoi on natural numbers. */
module Decimals {
  import opened Arith

  predicate IsDigit(c: char) { '0' <= c <= '9' }

  predicate AllDigits(s: string) {
    forall i :: 0 <= i < |s| ==> IsDigit(s[i])
  }

  function Digit(d: nat): (c: char)
    requires d < 10
    ensures c as int == '0' as int + d
  {
    "0123456789"[d]
  }

  /** strconv.Itoa */
  function Itoa(n: nat): (s: string) {
    if n < 10 then [Digit(n)] else Itoa(n / 10) + [Digit(n % 10)]
  }

  /** What a list of digits stands for. */
  function Decimal(s: string): (n: nat)
    requires AllDigits(s)
  {
    if s == "" then 0 else
    var c := s[|s| - 1];
    assert IsDigit(c);
    Decimal(s[..|s| - 1]) * 10 + (c as int - '0' as int)
  }

  /** The digits are the characters that print a number below ten. */
  lemma DigitsAreTheDigits(c: char)
    ensures IsDigit(c) <==> exists d: nat :: d < 10 && Digit(d) == c
  {
    if IsDigit(c) { assert Digit(c as int - '0' as int) == c; }
  }

  lemma DecimalPush(s: string, c: char)
    requires AllDigits(s) && IsDigit(c)
    ensures AllDigits(s + [c]) && Decimal(s + [c]) == Decimal(s) * 10 + (c as int - '0' as int)
  {
    assert (s + [c])[..|s|] == s;
  }

  /** Reading a printed number gives it back; printing puts no zero in front. */
  lemma {:induction false} ItoaIsRead(n: nat)
    ensures AllDigits(Itoa(n)) && Decimal(Itoa(n)) == n
    ensures Itoa(n) != "" && (Itoa(n)[0] == '0' ==> Itoa(n) == "0")
  {
    if n < 10 {
      DecimalPush("", Digit(n));
      assert "" + [Digit(n)] == [Digit(n)];
    } else {
      ItoaIsRead(n / 10);
      DecimalPush(Itoa(n / 10), Digit(n % 10));
      DivMod(n, 10);
    }
  }

  lemma ItoaInjective(m: nat, n: nat)
    requires Itoa(m) == Itoa(n)
    ensures m == n
  {
    ItoaIsRead(m);
    ItoaIsRead(n);
  }

  lemma LastDigit(s: string)
    requires AllDigits(s) && s != ""
    ensures AllDigits(s[..|s| - 1]) && IsDigit(s[|s| - 1]) && s == s[..|s| - 1] + [s[|s| - 1]]
  {
  }

  lemma Zero()
    ensures AllDigits("0") && Decimal("0") == 0
  {
    DecimalPush("", '0');
    assert "" + ['0'] == "0";
  }

  /** Zeros in front do not count ... */
  lemma {:induction false} LeadingZero(s: string)
    requires AllDigits(s)
    ensures AllDigits("0" + s) && Decimal("0" + s) == Decimal(s)
  {
    if s == "" {
      Zero();
      assert "0" + s == "0";
    } else {
      hide AllDigits, IsDigit, Decimal;
      LastDigit(s);
      var front, c := s[..|s| - 1], s[|s| - 1];
      LeadingZero(front);
      DecimalPush(front, c);
      DecimalPush("0" + front, c);
      assert "0" + s == ("0" + front) + [c];
    }
  }

  /** ... and a numeral without them is what its value prints as. */
  lemma {:induction false} ReadIsItoa(s: string)
    requires AllDigits(s) && s != "" && (s[0] == '0' ==> s == "0")
    ensures Itoa(Decimal(s)) == s
  {
    var front, c := s[..|s| - 1], s[|s| - 1];
    var d := c as int - '0' as int;
    assert IsDigit(c) && s == front + [c];
    if front == "" {
      assert s == [c] && Digit(d) == c;
    } else {
      ReadIsItoa(front);
      Positive(front);
      DivModUnique(Decimal(front) * 10 + d, 10, Decimal(front), d);
    }
  }

  lemma {:induction false} Positive(s: string)
    requires AllDigits(s) && s != "" && s[0] != '0'
    ensures Decimal(s) > 0
  {
    if |s| > 1 { Positive(s[..|s| - 1]); } else { assert IsDigit(s[0]) && s[..0] == ""; }
  }
}
