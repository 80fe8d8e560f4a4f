/**
  Types and facts about numbers that several components need.
 */
module Basics {

  type Byte = x: nat | x < 256

  datatype Option<+T> = None | Some(value: T)

  /** The first place of an element. */
  function IndexOf<T(==)>(s: seq<T>, x: T): (k: nat)
    requires x in s
    ensures k < |s| && s[k] == x
  {
    if s[0] == x then 0 else 1 + IndexOf(s[1..], x)
  }

  /** The power of two. */
  function Power(n: nat): (p: nat)
    ensures p > 0
  {
    if n == 0 then 1 else 2 * Power(n - 1)
  }

  /** Quotient and remainder are determined by what they satisfy. */
  lemma Divided(x: nat, d: nat, q: nat, r: nat)
    requires d > 0 && x == d * q + r && r < d
    ensures x / d == q && x % d == r
  {
    var k := q - x / d;
    assert d * k == x % d - r;
    Grows(d, k);
    Grows(d, -k);
  }

  lemma Grows(d: nat, k: int)
    ensures k > 0 ==> d * k >= d
    ensures k <= 0 ==> d * k <= 0
  {
  }

  lemma Monotone(d: nat, a: nat, b: nat)
    requires a <= b
    ensures d * a <= d * b
  {
    assert d * b - d * a == d * (b - a);
    Grows(d, a - b);
  }

  /** What is below a multiple has a smaller quotient. */
  lemma QuotientBelow(x: nat, d: nat, q: nat)
    requires d > 0 && x < q * d
    ensures x / d < q
  {
    var k := x / d - q;
    assert d * k == x - x % d - d * q;
    Grows(d, k + 1);
  }

}
