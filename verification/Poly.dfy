/** Polynomials as coefficient sequences, lowest degree first. */
module Poly {
  import opened Residue

  /** c[0] + c[1]*x + c[2]*x^2 + ... */
  function Eval(c: seq<int>, x: int): int {
    if c == [] then 0 else c[0] + x * Eval(c[1..], x)
  }

  function Pow(x: int, n: nat): int {
    if n == 0 then 1 else x * Pow(x, n - 1)
  }

  /** Coefficientwise congruence. */
  ghost predicate SeqCong(a: seq<int>, b: seq<int>, p: nat)
    requires p > 0
  {
    |a| == |b| && forall i :: 0 <= i < |a| ==> Cong(a[i], b[i], p)
  }

  lemma SeqCongRefl(a: seq<int>, p: nat)
    requires p > 0
    ensures SeqCong(a, a, p)
  {
  }

  ghost predicate AllZero(c: seq<int>, p: nat)
    requires p > 0
  {
    forall i :: 0 <= i < |c| ==> Cong(c[i], 0, p)
  }

  ghost predicate Reduced(c: seq<int>, p: nat)
    requires p > 0
  {
    forall i :: 0 <= i < |c| ==> 0 <= c[i] < p
  }

  // ----- powers -----

  lemma {:induction false} PowAdd(x: int, m: nat, n: nat)
    ensures Pow(x, m + n) == Pow(x, m) * Pow(x, n)
  {
    if m != 0 {
      PowAdd(x, m - 1, n);
      MulAssoc(x, Pow(x, m - 1), Pow(x, n));
    }
  }

  lemma MulAssoc(a: int, b: int, c: int)
    ensures a * (b * c) == (a * b) * c
  {
  }

  lemma {:induction false} PowTimes(x: int, m: nat, n: nat)
    ensures Pow(Pow(x, m), n) == Pow(x, m * n)
  {
    if n != 0 {
      PowTimes(x, m, n - 1);
      assert m * n == m + m * (n - 1);
      PowAdd(x, m, m * (n - 1));
    } else {
      assert m * n == 0;
    }
  }

  lemma {:induction false} PowProduct(x: int, y: int, n: nat)
    ensures Pow(x * y, n) == Pow(x, n) * Pow(y, n)
  {
    if n != 0 {
      PowProduct(x, y, n - 1);
      MulSwap(x, y, Pow(x, n - 1), Pow(y, n - 1));
    }
  }

  lemma MulSwap(a: int, b: int, c: int, d: int)
    ensures (a * b) * (c * d) == (a * c) * (b * d)
  {
  }

  lemma {:induction false} PowOne(n: nat)
    ensures Pow(1, n) == 1
  {
    if n != 0 { PowOne(n - 1); }
  }

  lemma {:induction false} PowCong(x: int, y: int, n: nat, p: nat)
    requires p > 0 && Cong(x, y, p)
    ensures Cong(Pow(x, n), Pow(y, n), p)
  {
    if n != 0 {
      PowCong(x, y, n - 1, p);
      CongMul(x, y, Pow(x, n - 1), Pow(y, n - 1), p);
    }
  }

  // ----- evaluation -----

  lemma {:induction false} EvalAppend(a: seq<int>, b: seq<int>, x: int)
    ensures Eval(a + b, x) == Eval(a, x) + Pow(x, |a|) * Eval(b, x)
  {
    if a == [] {
      assert a + b == b;
    } else {
      EvalAppend(a[1..], b, x);
      assert (a + b)[1..] == a[1..] + b;
      MulDistribute(x, Eval(a[1..], x), Pow(x, |a| - 1), Eval(b, x));
    }
  }

  lemma MulDistribute(x: int, u: int, v: int, w: int)
    ensures x * (u + v * w) == x * u + (x * v) * w
  {
  }

  lemma {:induction false} EvalCong(a: seq<int>, b: seq<int>, x: int, y: int, p: nat)
    requires p > 0 && SeqCong(a, b, p) && Cong(x, y, p)
    ensures Cong(Eval(a, x), Eval(b, y), p)
  {
    if a != [] {
      EvalCong(a[1..], b[1..], x, y, p);
      CongMul(x, y, Eval(a[1..], x), Eval(b[1..], y), p);
      CongAdd(a[0], b[0], x * Eval(a[1..], x), y * Eval(b[1..], y), p);
    }
  }

  lemma {:induction false} EvalAllZero(c: seq<int>, x: int, p: nat)
    requires p > 0 && AllZero(c, p)
    ensures Cong(Eval(c, x), 0, p)
  {
    if c != [] {
      EvalAllZero(c[1..], x, p);
      CongScale(x, Eval(c[1..], x), 0, p);
      CongAdd(c[0], 0, x * Eval(c[1..], x), 0, p);
    }
  }

  // ----- division by X - z -----

  /** The sequence of values of all suffixes of c at z; synthetic division leaves the remainder in
      its head and the quotient in its tail. */
  ghost function Tails(c: seq<int>, z: int): (b: seq<int>)
    ensures |b| == |c|
    ensures forall i :: 0 <= i < |c| ==> b[i] == Eval(c[i..], z)
  {
    if c == [] then [] else
      var t := Tails(c[1..], z);
      assert forall i :: 1 <= i < |c| ==> c[1..][i - 1..] == c[i..];
      [Eval(c, z)] + t
  }

  /** p(X) = q(X) * (X - z) + p(z), at every X. */
  lemma {:induction false} SyntheticDivision(c: seq<int>, z: int, x: int)
    requires c != []
    ensures Eval(c, x) == (x - z) * Eval(Tails(c[1..], z), x) + Eval(c, z)
  {
    var d := c[1..];
    if d != [] {
      SyntheticDivision(d, z, x);
      assert Tails(d, z)[1..] == Tails(d[1..], z);
      DivisionStep(c[0], Eval(d, x), Eval(d, z), Eval(Tails(d[1..], z), x), x, z);
    }
  }

  lemma DivisionStep(c0: int, dx: int, dz: int, t: int, x: int, z: int)
    requires dx == (x - z) * t + dz
    ensures c0 + x * dx == (x - z) * (dz + x * t) + (c0 + z * dz)
  {
    MulAssoc(x, x - z, t);
    MulAssoc(x - z, x, t);
    assert x * dx == x * ((x - z) * t) + x * dz;
    assert (x - z) * (dz + x * t) == (x - z) * dz + (x - z) * (x * t);
  }

  lemma PowZero(x: int, p: nat)
    requires p > 0
    ensures Cong(1, Pow(x, 0), p)
  {
  }

  /** The next power from a number congruent to one. */
  lemma NextPower(w: int, x: int, j: nat, p: nat)
    requires p > 0 && Cong(w, Pow(x, j), p)
    ensures Cong(Mod(w * x, p), Pow(x, j + 1), p)
  {
    CongScale(x, w, Pow(x, j), p);
    ModCong(w * x, p);
  }
}
