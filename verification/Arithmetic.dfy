/** Division with remainder, proved once and used by name. */
module Arithmetic {

  function Quotient(a: nat, d: nat): nat
    requires d > 0
  {
    a / d
  }

  function Remainder(a: nat, d: nat): (r: nat)
    requires d > 0
    ensures r < d
  {
    a % d
  }

  lemma Division(a: nat, d: nat)
    requires d > 0
    ensures a == d * Quotient(a, d) + Remainder(a, d)
  {
  }

  /** A quotient and a remainder are the only ones of the number they make. */
  lemma DivisionOf(q: nat, r: nat, d: nat)
    requires r < d
    ensures Quotient(d * q + r, d) == q && Remainder(d * q + r, d) == r
  {
    var e := (d * q + r) / d - q;
    assert d * e == r - (d * q + r) % d;
    assert e >= 1 ==> d * e >= d;
    assert e <= -1 ==> d * e + d <= 0;
  }

  lemma AtLeastTwice(q: nat, d: nat)
    requires d >= 2
    ensures d * q >= q + q
  {
    var more := d - 2;
    assert d * q == q + q + more * q;
    assert more * q >= 0;
  }
}
