// Products, quotients and remainders by variables, one step at a time.
module Arithmetic {

  lemma NonNegative(a: nat, b: nat)
    ensures a * b >= 0
    ensures b == 0 ==> a * b == 0
  {
  }

  lemma AtLeast(k: int, t: nat)
    ensures k >= 1 ==> k * t >= t
  {
    if k >= 1 {
      NonNegative(k - 1, t);
      assert k * t == t + (k - 1) * t;
    }
  }

  lemma Distribute(n: int, t: int)
    ensures (n + 1) * t == n * t + t
  {
  }

  lemma DivMod(total: nat, f: nat) returns (q: nat, r: nat)
    requires f > 0
    ensures q == total / f && r == total % f && total == f * q + r && r < f
  {
    q, r := total / f, total % f;
  }

  // A quotient with a remainder below the divisor is the quotient.
  lemma DivModUnique(a: nat, n: nat, t: nat, r: nat)
    requires t > 0 && a == n * t + r && r < t
    ensures a % t == r && a / t == n
  {
    var q, r' := DivMod(a, t);
    assert (n - q) * t == n * t - q * t == r' - r;
    assert (q - n) * t == r - r';
    AtLeast(n - q, t);
    AtLeast(q - n, t);
  }

  lemma MultipleMod(f: nat, q: nat)
    requires f > 0
    ensures (f * q) % f == 0 && (f * q) / f == q
  {
    DivModUnique(f * q, q, f, 0);
  }
}
