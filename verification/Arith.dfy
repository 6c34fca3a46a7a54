/** Extrema, and division with remainder by a positive number. */
module Arith {

  function Min(a: int, b: int): (m: int)
    ensures m <= a && m <= b && m in {a, b}
  {
    if a < b then a else b
  }

  function Max(a: int, b: int): (m: int)
    ensures m >= a && m >= b && m in {a, b}
  {
    if a < b then b else a
  }

  function Bit(b: bool): (n: nat) { if b then 1 else 0 }

  lemma DivMod(a: nat, n: nat)
    requires n > 0
    ensures a == a / n * n + a % n && 0 <= a % n < n
  {}

  lemma MultipleIsFar(k: int, n: nat)
    ensures k >= 1 ==> k * n >= n
    ensures k <= -1 ==> k * n <= 0 - n
  {}

  lemma DivModUnique(a: nat, n: nat, q: nat, r: nat)
    requires n > 0 && r < n && a == q * n + r
    ensures a % n == r && a / n == q
  {
    DivMod(a, n);
    MultipleIsFar(a / n - q, n);
    assert (a / n - q) * n == a / n * n - q * n;
  }

  lemma WrapAround(a: nat, n: nat)
    requires n > 0 && a < 2 * n
    ensures a % n == if a < n then a else a - n
  {
    if a < n { DivModUnique(a, n, 0, a); } else { DivModUnique(a, n, 1, a - n); }
  }
}
