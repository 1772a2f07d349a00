/** Integers modulo p: the scalar arithmetic of the commitment code.

    Specifications are written over plain integers and compared modulo p; the programs keep every
    scalar reduced. `Mod` is the remainder operator of the sources for a positive modulus. */
module Residue {

  /** The remainder of x modulo p, with a result in [0, p) also for a negative x. */
  function Mod(x: int, p: nat): (r: nat)
    requires p > 0
    ensures r < p
    decreases if x < 0 then p - x else x
  {
    if x < 0 then Mod(x + p, p) else if x < p then x else Mod(x - p, p)
  }

  ghost function Quotient(x: int, p: nat): int
    requires p > 0
    decreases if x < 0 then p - x else x
  {
    if x < 0 then Quotient(x + p, p) - 1 else if x < p then 0 else Quotient(x - p, p) + 1
  }

  lemma {:induction false} QuotientLaw(x: int, p: nat)
    requires p > 0
    ensures x == Quotient(x, p) * p + Mod(x, p)
    decreases if x < 0 then p - x else x
  {
    if x < 0 {
      QuotientLaw(x + p, p);
      Distribute(Quotient(x + p, p), 1, p);
    } else if x >= p {
      QuotientLaw(x - p, p);
      Distribute(Quotient(x - p, p), -1, p);
    }
  }

  /** a and b name the same scalar. */
  ghost predicate Cong(a: int, b: int, p: nat)
    requires p > 0
  {
    Mod(a, p) == Mod(b, p)
  }

  lemma {:induction false} ModShift(x: int, k: int, p: nat)
    requires p > 0
    ensures Mod(x + k * p, p) == Mod(x, p)
    decreases if k < 0 then -k else k
  {
    if k > 0 {
      assert x + k * p == (x + (k - 1) * p) + p;
      ModShift(x, k - 1, p);
      ModStep(x + (k - 1) * p, p);
    } else if k < 0 {
      assert x + k * p == (x + (k + 1) * p) - p;
      ModShift(x, k + 1, p);
      ModStep(x + k * p, p);
    }
  }

  lemma ModStep(x: int, p: nat)
    requires p > 0
    ensures Mod(x + p, p) == Mod(x, p)
  {
  }

  /** `Mod` is the Euclidean remainder. */
  lemma ModIsRemainder(x: int, p: nat)
    requires p > 0
    ensures Mod(x, p) == x % p
  {
    var q, r := x / p, x % p;
    assert x == r + q * p;
    ModShift(r, q, p);
  }

  lemma CongWitness(a: int, b: int, p: nat) returns (k: int)
    requires p > 0 && Cong(a, b, p)
    ensures a == b + k * p
  {
    k := Quotient(a, p) - Quotient(b, p);
    QuotientLaw(a, p);
    QuotientLaw(b, p);
    Distribute(Quotient(a, p), Quotient(b, p), p);
  }

  lemma Distribute(x: int, y: int, z: int)
    ensures (x - y) * z == x * z - y * z
  {
  }

  lemma CongFrom(a: int, b: int, k: int, p: nat)
    requires p > 0 && a == b + k * p
    ensures Cong(a, b, p)
  {
    ModShift(b, k, p);
  }

  lemma ModCong(a: int, p: nat)
    requires p > 0
    ensures Cong(Mod(a, p), a, p) && Mod(Mod(a, p), p) == Mod(a, p)
  {
  }

  lemma CongAdd(a: int, b: int, c: int, d: int, p: nat)
    requires p > 0 && Cong(a, b, p) && Cong(c, d, p)
    ensures Cong(a + c, b + d, p)
    ensures Cong(a - c, b - d, p)
  {
    hide *;
    var k := CongWitness(a, b, p);
    var l := CongWitness(c, d, p);
    Distribute(k, l, p);
    Distribute(k, -l, p);
    CongFrom(a + c, b + d, k + l, p);
    CongFrom(a - c, b - d, k - l, p);
  }

  lemma ProductStep(b: int, d: int, k: int, l: int, p: int)
    ensures (b + k * p) * (d + l * p) == b * d + (b * l + k * d + k * l * p) * p
  {
  }

  lemma CongMul(a: int, b: int, c: int, d: int, p: nat)
    requires p > 0 && Cong(a, b, p) && Cong(c, d, p)
    ensures Cong(a * c, b * d, p)
  {
    hide *;
    var k := CongWitness(a, b, p);
    var l := CongWitness(c, d, p);
    ProductStep(b, d, k, l, p);
    CongFrom(a * c, b * d, b * l + k * d + k * l * p, p);
  }

  /** Scaling both sides by the same factor. */
  lemma CongScale(c: int, a: int, b: int, p: nat)
    requires p > 0 && Cong(a, b, p)
    ensures Cong(c * a, c * b, p)
  {
    CongMul(c, c, a, b, p);
  }

  lemma CongRefl(a: int, p: nat)
    requires p > 0
    ensures Cong(a, a, p)
  {
  }

  lemma CongSym(a: int, b: int, p: nat)
    requires p > 0 && Cong(a, b, p)
    ensures Cong(b, a, p)
  {
  }

  lemma CongTrans(a: int, b: int, c: int, p: nat)
    requires p > 0 && Cong(a, b, p) && Cong(b, c, p)
    ensures Cong(a, c, p)
  {
  }

  /** Moving a term across: a - b is zero exactly when a and b are the same scalar. */
  lemma CongDiff(a: int, b: int, p: nat)
    requires p > 0
    ensures Cong(a - b, 0, p) <==> Cong(a, b, p)
  {
    if Cong(a, b, p) {
      CongAdd(a, b, b, b, p);
    }
    if Cong(a - b, 0, p) {
      CongAdd(a - b, 0, b, b, p);
    }
  }
}
