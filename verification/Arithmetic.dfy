// Multiples of a block size, kept apart from everything else.
module Arithmetic {
  lemma {:induction false} Apart(e: nat, a: nat, b: nat)
    requires a < b
    ensures a * e + e <= b * e
    decreases b
  {
    if b > a + 1 { Apart(e, a, b - 1); }
    assert b * e == (b - 1) * e + e;
  }

  // Quotient and remainder are determined by what they add up to.
  lemma Remainder(e: nat, q: nat, n: nat)
    requires n < e
    ensures (q * e + n) % e == n && (q * e + n) / e == q
  {
    var x := q * e + n;
    var p := x / e;
    assert x == p * e + x % e;
    if p < q { Apart(e, p, q); } else if p > q { Apart(e, q, p); }
  }
}
