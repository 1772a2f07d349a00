/** Facts about division with remainder. */
module Division {
  lemma NonNegative(x: nat, d: nat, y: nat)
    requires d > 0
    ensures x / d >= 0 && 0 <= x % d < d && (x % d) * y >= 0
  {
  }

  lemma Apart(x: int, y: int, d: nat)
    requires x < y
    ensures x * d + d <= y * d
  {
    assert (x + 1) * d <= y * d;
  }

  lemma DivUnique(x: nat, d: nat, q: nat, r: nat)
    requires d > 0 && r < d && x == q * d + r
    ensures x / d == q && x % d == r
  {
    var y := x / d;
    assert x == y * d + x % d;
    if y < q {
      Apart(y, q, d);
    } else if y > q {
      Apart(q, y, d);
    }
  }
}
