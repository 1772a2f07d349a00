/** The self-contained demonstration scheme: a file is cut into blocks, each block hashed to a value,
    the values interpolated at the points i/N, and the polynomial committed to in an exponent
    tracker. Every proof it makes is accepted. */
module ToyKzg {
  import opened Residue
  import opened Poly
  import opened Prime
  import opened Roots

  // ----- polynomial helpers -----

  /** poly_add */
  method PolyAdd(a: seq<int>, b: seq<int>, r: nat) returns (out: seq<int>)
    requires r > 1
    ensures |out| == (if |a| > |b| then |a| else |b|) && Reduced(out, r)
    ensures forall x :: Cong(Eval(out, x), Eval(a, x) + Eval(b, x), r)
  {
    hide Mod, Eval;
    var m := if |a| > |b| then |a| else |b|;
    out := [];
    ghost var ap, bp := Padded(a, m), Padded(b, m);
    for i := 0 to m
      invariant |out| == i && Reduced(out, r)
      invariant forall k :: 0 <= k < i ==> Cong(out[k], ap[k] + bp[k], r)
    {
      var av := if i < |a| then a[i] else 0;
      var bv := if i < |b| then b[i] else 0;
      ModCong(av + bv, r);
      out := out + [Mod(av + bv, r)];
    }
    forall x ensures Cong(Eval(out, x), Eval(a, x) + Eval(b, x), r) {
      PaddedSame(a, m, x);
      PaddedSame(b, m, x);
      EvalSum(out, ap, bp, x, r);
    }
  }

  ghost function Padded(a: seq<int>, m: nat): (s: seq<int>)
    requires |a| <= m
    ensures |s| == m
  {
    a + seq(m - |a|, _ => 0)
  }

  lemma PaddedSame(a: seq<int>, m: nat, x: int)
    requires |a| <= m
    ensures Eval(Padded(a, m), x) == Eval(a, x)
  {
    var zeros: seq<int> := seq(m - |a|, _ => 0);
    EvalAppend(a, zeros, x);
    ZerosValue(zeros, x);
  }

  lemma {:induction false} ZerosValue(s: seq<int>, x: int)
    requires forall i :: 0 <= i < |s| ==> s[i] == 0
    ensures Eval(s, x) == 0
  {
    if s != [] { ZerosValue(s[1..], x); }
  }

  lemma {:induction false} EvalSum(c: seq<int>, a: seq<int>, b: seq<int>, x: int, r: nat)
    requires r > 0 && |c| == |a| == |b| && forall k :: 0 <= k < |c| ==> Cong(c[k], a[k] + b[k], r)
    ensures Cong(Eval(c, x), Eval(a, x) + Eval(b, x), r)
  {
    hide Mod;
    if c != [] {
      EvalSum(c[1..], a[1..], b[1..], x, r);
      CongScale(x, Eval(c[1..], x), Eval(a[1..], x) + Eval(b[1..], x), r);
      CongAdd(c[0], a[0] + b[0], x * Eval(c[1..], x), x * (Eval(a[1..], x) + Eval(b[1..], x)), r);
      assert x * (Eval(a[1..], x) + Eval(b[1..], x)) == x * Eval(a[1..], x) + x * Eval(b[1..], x);
    }
  }

  /** poly_eval */
  method PolyEval(coeffs: seq<int>, x: int, r: nat) returns (acc: int)
    requires r > 1
    ensures 0 <= acc < r && Cong(acc, Eval(coeffs, x), r)
  {
    hide Mod, Eval;
    acc := 0;
    var i := |coeffs|;
    assert coeffs[i..] == [] && Eval([], x) == 0 by { EmptyEval(x); }
    CongRefl(0, r);
    while i > 0
      invariant 0 <= i <= |coeffs| && 0 <= acc < r && Cong(acc, Eval(coeffs[i..], x), r)
    {
      i := i - 1;
      EvalFrom(coeffs, i, x);
      CongScale(x, acc, Eval(coeffs[i + 1..], x), r);
      CongRefl(coeffs[i], r);
      CongAdd(x * acc, x * Eval(coeffs[i + 1..], x), coeffs[i], coeffs[i], r);
      ModCong(acc * x + coeffs[i], r);
      assert acc * x == x * acc;
      acc := Mod(acc * x + coeffs[i], r);
    }
    assert coeffs[0..] == coeffs;
  }

  lemma EmptyEval(x: int)
    ensures Eval([], x) == 0
  {
  }

  /** poly_div_by_x_minus_a: the quotient by X - a and the value at a. */
  method PolyDivByXMinusA(p: seq<int>, a: int, r: nat) returns (q: seq<int>, rem: int)
    requires r > 1
    ensures p == [] ==> q == [0] && rem == 0
    ensures p != [] ==> |q| == |p| - 1 && SeqCong(q, Tails(p[1..], a), r)
    ensures Cong(rem, Eval(p, a), r)
    ensures |p| > 1 || Reduced(p, r) ==> 0 <= rem < r
    ensures Reduced(p, r) ==> Reduced(q, r)
  {
    hide Mod, Eval, Tails;
    var n := |p| - 1;
    if n < 0 {
      EmptyEval(a);
      CongRefl(0, r);
      return [0], 0;
    }
    q := [];
    rem := p[n];
    EvalFrom(p, n, a);
    assert p[n + 1..] == [];
    EmptyEval(a);
    CongRefl(rem, r);
    var i := n;
    while i > 0
      invariant 0 <= i <= n && |q| == n - i
      invariant (i < n || Reduced(p, r) ==> 0 <= rem < r) && Cong(rem, Eval(p[i..], a), r)
      invariant forall k :: 0 <= k < |q| ==> Cong(q[k], Eval(p[i + 1 + k..], a), r)
      invariant Reduced(p, r) ==> Reduced(q, r)
    {
      i := i - 1;
      q := [rem] + q;
      EvalFrom(p, i, a);
      CongScale(a, rem, Eval(p[i + 1..], a), r);
      CongRefl(p[i], r);
      CongAdd(p[i], p[i], a * rem, a * Eval(p[i + 1..], a), r);
      ModCong(p[i] + rem * a, r);
      assert rem * a == a * rem;
      rem := Mod(p[i] + rem * a, r);
    }
    assert p[0..] == p;
    forall k | 0 <= k < n ensures Cong(q[k], Tails(p[1..], a)[k], r) {
      assert p[1..][k..] == p[1 + k..];
    }
  }

  /** poly_mul: the value of the product is the product of the values. */
  method PolyMul(a: seq<int>, b: seq<int>, r: nat) returns (out: seq<int>)
    requires r > 1
    ensures |out| == (if a == [] && b == [] then 0 else |a| + |b| - 1) && Reduced(out, r)
    ensures forall x :: Cong(Eval(out, x), Eval(a, x) * Eval(b, x), r)
    ensures a != [] && b != [] ==> Cong(out[|out| - 1], a[|a| - 1] * b[|b| - 1], r)
  {
    hide Mod, Eval, Pow;
    if a == [] && b == [] {
      forall x ensures Cong(Eval([], x), Eval(a, x) * Eval(b, x), r) {
        EmptyEval(x);
        CongRefl(0, r);
      }
      return [];
    }
    out := seq(|a| + |b| - 1, _ => 0);
    forall x ensures Eval(out, x) == 0 { ZerosValue(out, x); }
    ghost var done := a[..0];
    forall x ensures Cong(Eval(out, x), Eval(a[..0], x) * Eval(b, x), r) {
      EmptyEval(x);
      assert 0 * Eval(b, x) == 0;
      CongRefl(0, r);
    }
    for i := 0 to |a|
      invariant |out| == |a| + |b| - 1 && Reduced(out, r)
      invariant forall x :: Cong(Eval(out, x), Eval(a[..i], x) * Eval(b, x), r)
      invariant b != [] ==> forall k :: i + |b| - 1 <= k < |out| ==> out[k] == 0
      invariant i > 0 && b != [] ==> Cong(out[i + |b| - 2], a[i - 1] * b[|b| - 1], r)
    {
      ghost var row := out;
      forall x ensures Cong(Eval(out, x), Eval(row, x) + Pow(x, i) * (a[i] * Eval(b[..0], x)), r) {
        EmptyEval(x);
        assert Pow(x, i) * (a[i] * 0) == 0;
        CongRefl(Eval(row, x), r);
      }
      for j := 0 to |b|
        invariant |out| == |a| + |b| - 1 && Reduced(out, r)
        invariant forall x :: Cong(Eval(out, x), Eval(row, x) + Pow(x, i) * (a[i] * Eval(b[..j], x)), r)
        invariant b != [] ==> forall k :: i + |b| <= k < |out| ==> out[k] == 0
        invariant j < |b| ==> out[i + |b| - 1] == 0
        invariant j == |b| && b != [] ==> Cong(out[i + |b| - 1], a[i] * b[|b| - 1], r)
      {
        var term := a[i] * b[j];
        var next := out[i + j := Mod(out[i + j] + term, r)];
        forall x ensures Cong(Eval(next, x), Eval(row, x) + Pow(x, i) * (a[i] * Eval(b[..j + 1], x)), r) {
          AddTerm(out, next, i, j, a[i], b, row, x, r);
        }
        ModCong(out[i + j] + term, r);
        out := next;
      }
      forall x ensures Cong(Eval(out, x), Eval(a[..i + 1], x) * Eval(b, x), r) {
        RowDone(a, b, i, Eval(out, x), Eval(row, x), x, r);
      }
    }
    assert a[..|a|] == a;
  }

  lemma AddTerm(out: seq<int>, next: seq<int>, i: nat, j: nat, av: int, b: seq<int>, row: seq<int>, x: int, r: nat)
    requires r > 0 && j < |b| && i + j < |out| && next == out[i + j := Mod(out[i + j] + av * b[j], r)]
    requires Cong(Eval(out, x), Eval(row, x) + Pow(x, i) * (av * Eval(b[..j], x)), r)
    ensures Cong(Eval(next, x), Eval(row, x) + Pow(x, i) * (av * Eval(b[..j + 1], x)), r)
  {
    hide Mod, Eval, Pow;
    var t := av * b[j];
    EvalUpdate(out, i + j, next[i + j], x);
    ModCong(out[i + j] + t, r);
    CongRefl(out[i + j], r);
    CongAdd(next[i + j], out[i + j] + t, out[i + j], out[i + j], r);
    CongScale(Pow(x, i + j), next[i + j] - out[i + j], t, r);
    CongAdd(Eval(out, x), Eval(row, x) + Pow(x, i) * (av * Eval(b[..j], x)),
            Pow(x, i + j) * (next[i + j] - out[i + j]), Pow(x, i + j) * t, r);
    assert b[..j + 1] == b[..j] + [b[j]];
    EvalAppend(b[..j], [b[j]], x);
    SingletonEval(b[j], x);
    PowAdd(x, i, j);
    TermStep(Pow(x, i), Pow(x, j), av, b[j], Eval(b[..j], x));
  }

  lemma TermStep(xi: int, xj: int, av: int, bv: int, e: int)
    ensures xi * (av * (e + xj * bv)) == xi * (av * e) + (xi * xj) * (av * bv)
  {
    assert av * (e + xj * bv) == av * e + xj * (av * bv);
    assert xi * (xj * (av * bv)) == (xi * xj) * (av * bv);
  }

  lemma {:induction false} EvalUpdate(c: seq<int>, k: nat, v: int, x: int)
    requires k < |c|
    ensures Eval(c[k := v], x) == Eval(c, x) + Pow(x, k) * (v - c[k])
  {
    if k == 0 {
      assert c[0 := v][1..] == c[1..];
    } else {
      EvalUpdate(c[1..], k - 1, v, x);
      assert c[k := v][1..] == c[1..][k - 1 := v];
      MulAssoc(x, Pow(x, k - 1), v - c[k]);
      assert x * (Eval(c[1..], x) + Pow(x, k - 1) * (v - c[k]))
          == x * Eval(c[1..], x) + x * (Pow(x, k - 1) * (v - c[k]));
    }
  }

  lemma RowDone(a: seq<int>, b: seq<int>, i: nat, out: int, row: int, x: int, r: nat)
    requires r > 0 && i < |a| && Cong(row, Eval(a[..i], x) * Eval(b, x), r)
    requires Cong(out, row + Pow(x, i) * (a[i] * Eval(b[..|b|], x)), r)
    ensures Cong(out, Eval(a[..i + 1], x) * Eval(b, x), r)
  {
    hide Mod, Eval, Pow;
    assert b[..|b|] == b && a[..i + 1] == a[..i] + [a[i]];
    EvalAppend(a[..i], [a[i]], x);
    SingletonEval(a[i], x);
    var add := Pow(x, i) * (a[i] * Eval(b, x));
    CongRefl(add, r);
    CongAdd(row, Eval(a[..i], x) * Eval(b, x), add, add, r);
    RowStep(Eval(a[..i], x), Pow(x, i), a[i], Eval(b, x));
  }

  lemma RowStep(e: int, xi: int, av: int, bv: int)
    ensures (e + xi * av) * bv == e * bv + xi * (av * bv)
  {
    MulAssoc(xi, av, bv);
  }

  // ----- interpolation -----

  /** The product of all X - xs[j]. */
  ghost function Vanishing(xs: seq<int>, x: int): int {
    if xs == [] then 1 else Vanishing(xs[..|xs| - 1], x) * (x - xs[|xs| - 1])
  }

  ghost predicate IsVanishing(m: seq<int>, xs: seq<int>, r: nat)
    requires r > 1
  {
    |m| == |xs| + 1 && Reduced(m, r) && m[|xs|] == 1 && forall x :: Cong(Eval(m, x), Vanishing(xs, x), r)
  }

  /** The monic polynomial with roots xs. */
  method VanishingPoly(xs: seq<int>, r: nat) returns (m: seq<int>)
    requires r > 1
    ensures IsVanishing(m, xs, r)
  {
    hide Mod, Eval;
    m := [1];
    forall x ensures Cong(Eval(m, x), Vanishing(xs[..0], x), r) {
      SingletonEval(1, x);
      CongRefl(1, r);
    }
    for i := 0 to |xs|
      invariant IsVanishing(m, xs[..i], r)
    {
      ghost var before := m;
      var factor := [Mod(-xs[i], r), 1];
      m := PolyMul(m, factor, r);
      forall x ensures Cong(Eval(m, x), Vanishing(xs[..i + 1], x), r) {
        LinearFactor(before, factor, xs, i, x, r);
      }
      LeadingOne(before, factor, m, r);
    }
    assert xs[..|xs|] == xs;
  }

  lemma LinearFactor(m: seq<int>, factor: seq<int>, xs: seq<int>, i: nat, x: int, r: nat)
    requires r > 1 && i < |xs| && factor == [Mod(-xs[i], r), 1] && Cong(Eval(m, x), Vanishing(xs[..i], x), r)
    ensures Cong(Eval(m, x) * Eval(factor, x), Vanishing(xs[..i + 1], x), r)
  {
    hide Mod;
    assert factor[1..] == [1];
    SingletonEval(1, x);
    assert Eval(factor, x) == Mod(-xs[i], r) + x;
    ModCong(-xs[i], r);
    CongRefl(x, r);
    CongAdd(Mod(-xs[i], r), -xs[i], x, x, r);
    CongMul(Eval(m, x), Vanishing(xs[..i], x), Eval(factor, x), x - xs[i], r);
    assert xs[..i + 1][..i] == xs[..i];
  }

  lemma LeadingOne(m: seq<int>, factor: seq<int>, out: seq<int>, r: nat)
    requires r > 1 && m != [] && m[|m| - 1] == 1 && |factor| == 2 && factor[1] == 1
    requires |out| == |m| + 1 && Reduced(out, r) && Cong(out[|m|], m[|m| - 1] * factor[1], r)
    ensures out[|m|] == 1
  {
  }

  /** xs[k] is a root. */
  lemma {:induction false} VanishesAt(xs: seq<int>, k: nat)
    requires k < |xs|
    ensures Vanishing(xs, xs[k]) == 0
  {
    var n := |xs| - 1;
    if k < n {
      VanishesAt(xs[..n], k);
    }
  }

  /** The quotient of the vanishing polynomial by X - xs[i] is zero at every other point, and at xs[i]
      it is the derivative, which is not zero. */
  lemma QuotientOfVanishing(m: seq<int>, xs: seq<int>, i: nat, k: nat, r: nat)
    requires IsPrime(r) && Distinct(xs, r) && i < |xs| && k < |xs|
    requires IsVanishing(m, xs, r)
    ensures k != i ==> Cong(Eval(Tails(m[1..], xs[i]), xs[k]), 0, r)
    ensures k == i ==> Cong(Eval(Tails(m[1..], xs[i]), xs[k]), Eval(Derived(m[1..], 1), xs[i]), r)
  {
    hide Mod, Eval, Tails, Derived, IsPrime, Vanishing;
    PrimeSize(r);
    VanishesAt(xs, i);
    VanishesAt(xs, k);
    var q := Eval(Tails(m[1..], xs[i]), xs[k]);
    if k == i {
      DerivativeIsQuotient(m, xs[i]);
      CongRefl(q, r);
    } else {
      SyntheticDivision(m, xs[i], xs[k]);
      assert Cong(Eval(m, xs[k]), Vanishing(xs, xs[k]), r) && Cong(Eval(m, xs[i]), Vanishing(xs, xs[i]), r);
      CongAdd(Eval(m, xs[k]), 0, Eval(m, xs[i]), 0, r);
      DistinctPair(xs, i, k, r);
      CongDiff(xs[k], xs[i], r);
      ZeroProduct(xs[k] - xs[i], q, r);
    }
  }

  lemma DistinctPair(xs: seq<int>, i: nat, k: nat, r: nat)
    requires r > 0 && Distinct(xs, r) && i < |xs| && k < |xs| && i != k
    ensures !Cong(xs[k], xs[i], r)
  {
    if k < i { assert !Cong(xs[k], xs[i], r); } else { assert !Cong(xs[i], xs[k], r); }
  }

  /** The derivative does not vanish at a root: else the quotient would have too many roots. */
  lemma DerivativeNonzero(m: seq<int>, xs: seq<int>, i: nat, r: nat)
    requires IsPrime(r) && Distinct(xs, r) && i < |xs| && IsVanishing(m, xs, r)
    ensures !Cong(Eval(Derived(m[1..], 1), xs[i]), 0, r)
  {
    hide Mod, Eval, Derived, IsPrime, Vanishing, IsVanishing;
    PrimeSize(r);
    VanishingShape(m, xs, r);
    var q := Tails(m[1..], xs[i]);
    if Cong(Eval(Derived(m[1..], 1), xs[i]), 0, r) {
      forall k | 0 <= k < |xs| ensures Cong(Eval(q, xs[k]), 0, r) {
        QuotientOfVanishing(m, xs, i, k, r);
      }
      RootBound(q, xs, r);
      TopOfQuotient(m, xs[i], r);
    }
  }

  lemma VanishingShape(m: seq<int>, xs: seq<int>, r: nat)
    requires r > 1 && IsVanishing(m, xs, r)
    ensures |m| == |xs| + 1 && Reduced(m, r) && m[|xs|] == 1
  {
  }

  lemma TopOfQuotient(m: seq<int>, a: int, r: nat)
    requires r > 1 && |m| >= 2 && m[|m| - 1] == 1
    ensures !Cong(Tails(m[1..], a)[|m| - 2], 0, r)
  {
    assert m[1..][|m| - 2..] == [1];
    SingletonEval(1, a);
  }

  /** One scaled Lagrange term: y at its own point, zero at the others. */
  lemma LagrangeTerm(
      m: seq<int>, xs: seq<int>, y: int, q: seq<int>, denom: int, term: seq<int>, i: nat, k: nat, r: nat)
    requires IsPrime(r) && Distinct(xs, r) && i < |xs| && k < |xs| && IsVanishing(m, xs, r)
    requires m != [] && SeqCong(q, Tails(m[1..], xs[i]), r) && Cong(denom, Eval(Derived(m[1..], 1), xs[i]), r)
    requires |term| == |q|
    requires forall j :: 0 <= j < |q| ==> Cong(term[j], q[j] * Mod(y * Inv(denom, r), r), r)
    ensures Cong(Eval(term, xs[k]), if k == i then y else 0, r)
  {
    hide Mod, Eval, Derived, IsPrime, Vanishing, IsVanishing, Tails, Inv, Distinct;
    PrimeSize(r);
    var x, s := xs[k], Mod(y * Inv(denom, r), r);
    EvalTimes(term, q, s, x, r);
    CongRefl(x, r);
    EvalCong(q, Tails(m[1..], xs[i]), x, x, r);
    QuotientOfVanishing(m, xs, i, k, r);
    var e := Eval(q, x);
    if k == i {
      DerivativeNonzero(m, xs, i, r);
      assert Cong(e, denom, r);
      InverseLaw(denom, r);
      ModCong(y * Inv(denom, r), r);
      CongMul(s, y * Inv(denom, r), e, denom, r);
      CongScale(y, denom * Inv(denom, r), 1, r);
      assert (y * Inv(denom, r)) * denom == y * (denom * Inv(denom, r)) && y * 1 == y;
    } else {
      CongScale(s, e, 0, r);
    }
  }

  lemma {:induction false} EvalTimes(a: seq<int>, b: seq<int>, s: int, x: int, r: nat)
    requires r > 0 && |a| == |b| && forall j :: 0 <= j < |a| ==> Cong(a[j], b[j] * s, r)
    ensures Cong(Eval(a, x), s * Eval(b, x), r)
  {
    hide Mod;
    if a != [] {
      EvalTimes(a[1..], b[1..], s, x, r);
      CongScale(x, Eval(a[1..], x), s * Eval(b[1..], x), r);
      CongAdd(a[0], b[0] * s, x * Eval(a[1..], x), x * (s * Eval(b[1..], x)), r);
      assert x * (s * Eval(b[1..], x)) == s * (x * Eval(b[1..], x));
      assert s * (b[0] + x * Eval(b[1..], x)) == b[0] * s + s * (x * Eval(b[1..], x));
    }
  }

  /** lagrange_interpolate_coeffs. The division by X - xs[i] is exact whatever the points are; the
      polynomial hits every value when the points are distinct. */
  method LagrangeInterpolateCoeffs(xs: seq<int>, ys: seq<int>, r: nat) returns (P: seq<int>)
    requires IsPrime(r) && |xs| == |ys|
    ensures |P| <= |xs| && Reduced(P, r)
    ensures xs != [] ==> P != []
    ensures Distinct(xs, r) ==> forall k :: 0 <= k < |xs| ==> Cong(Eval(P, xs[k]), ys[k], r)
  {
    hide Mod, Eval, Derived, IsPrime, Vanishing, IsVanishing, Tails, Inv, Distinct, Pow;
    PrimeSize(r);
    var n := |xs|;
    var M := VanishingPoly(xs, r);
    VanishingShape(M, xs, r);
    var deriv := DerivativeCoeffs(M, r);
    P := seq(n, _ => 0);
    forall x ensures Eval(P, x) == 0 { ZerosValue(P, x); }
    CongRefl(0, r);
    for i := 0 to n
      invariant |P| == n && Reduced(P, r)
      invariant Distinct(xs, r) ==>
        forall k :: 0 <= k < n ==> Cong(Eval(P, xs[k]), if k < i then ys[k] else 0, r)
    {
      var denom := PolyEval(deriv, xs[i], r);
      EvalCong(deriv, Derived(M[1..], 1), xs[i], xs[i], r) by { CongRefl(xs[i], r); }
      var q, rem := PolyDivByXMinusA(M, xs[i], r);
      RemainderIsZero(M, xs, i, rem, r);
      assert rem == 0;
      var scale := Mod(ys[i] * Inv(denom, r), r);
      var term := ScaleCoeffs(q, scale, r);
      ghost var before := P;
      P := PolyAdd(P, term, r);
      if Distinct(xs, r) {
        forall k | 0 <= k < n ensures Cong(Eval(P, xs[k]), if k < i + 1 then ys[k] else 0, r) {
          LagrangeTerm(M, xs, ys[i], q, denom, term, i, k, r);
          CongAdd(Eval(before, xs[k]), if k < i then ys[k] else 0, Eval(term, xs[k]), if k == i then ys[i] else 0, r);
        }
      }
    }
    while |P| > 1 && P[|P| - 1] == 0
      invariant |P| <= n && Reduced(P, r) && (xs != [] ==> P != [])
      invariant Distinct(xs, r) ==> forall k :: 0 <= k < n ==> Cong(Eval(P, xs[k]), ys[k], r)
      decreases |P|
    {
      forall x ensures Eval(P[..|P| - 1], x) == Eval(P, x) { DropZero(P, x); }
      P := P[..|P| - 1];
    }
  }

  lemma DropZero(c: seq<int>, x: int)
    requires c != [] && c[|c| - 1] == 0
    ensures Eval(c[..|c| - 1], x) == Eval(c, x)
  {
    var n := |c| - 1;
    assert c == c[..n] + [c[n]];
    EvalAppend(c[..n], [c[n]], x);
    SingletonEval(0, x);
  }

  lemma RemainderIsZero(m: seq<int>, xs: seq<int>, i: nat, rem: int, r: nat)
    requires r > 1 && IsVanishing(m, xs, r) && i < |xs| && 0 <= rem < r && Cong(rem, Eval(m, xs[i]), r)
    ensures rem == 0
  {
    hide Eval, Vanishing;
    VanishesAt(xs, i);
    assert Cong(Eval(m, xs[i]), Vanishing(xs, xs[i]), r);
    assert Mod(0, r) == 0 && Mod(rem, r) == rem;
  }

  /** [mod((i+1) * M[i+1])] */
  method DerivativeCoeffs(m: seq<int>, r: nat) returns (out: seq<int>)
    requires r > 1 && m != []
    ensures SeqCong(out, Derived(m[1..], 1), r)
  {
    hide Mod;
    out := [];
    for i := 0 to |m| - 1
      invariant |out| == i && forall k :: 0 <= k < i ==> Cong(out[k], Derived(m[1..], 1)[k], r)
    {
      ModCong((i + 1) * m[i + 1], r);
      out := out + [Mod((i + 1) * m[i + 1], r)];
    }
  }

  method ScaleCoeffs(q: seq<int>, scale: int, r: nat) returns (term: seq<int>)
    requires r > 1
    ensures |term| == |q| && Reduced(term, r) && forall j :: 0 <= j < |q| ==> Cong(term[j], q[j] * scale, r)
  {
    hide Mod;
    term := [];
    for i := 0 to |q|
      invariant |term| == i && Reduced(term, r) && forall j :: 0 <= j < i ==> Cong(term[j], q[j] * scale, r)
    {
      ModCong(q[i] * scale, r);
      term := term + [Mod(q[i] * scale, r)];
    }
  }

  /** There is only one polynomial with at most as many coefficients as points through the values. */
  lemma InterpolationUnique(a: seq<int>, b: seq<int>, xs: seq<int>, ys: seq<int>, r: nat)
    requires IsPrime(r) && Distinct(xs, r) && |a| == |b| == |xs| == |ys|
    requires forall k :: 0 <= k < |xs| ==> Cong(Eval(a, xs[k]), ys[k], r) && Cong(Eval(b, xs[k]), ys[k], r)
    ensures SeqCong(a, b, r)
  {
    hide Mod, Eval, IsPrime;
    PrimeSize(r);
    var d := seq(|a|, i requires 0 <= i < |a| => a[i] - b[i]);
    forall k | 0 <= k < |xs| ensures Cong(Eval(d, xs[k]), 0, r) {
      EvalMinus(d, a, b, xs[k]);
      CongAdd(Eval(a, xs[k]), ys[k], Eval(b, xs[k]), ys[k], r);
    }
    RootBound(d, xs, r);
    forall i | 0 <= i < |a| ensures Cong(a[i], b[i], r) {
      assert Cong(d[i], 0, r);
      CongDiff(a[i], b[i], r);
    }
  }

  lemma {:induction false} EvalMinus(d: seq<int>, a: seq<int>, b: seq<int>, x: int)
    requires |d| == |a| == |b| && forall i :: 0 <= i < |d| ==> d[i] == a[i] - b[i]
    ensures Eval(d, x) == Eval(a, x) - Eval(b, x)
  {
    if d != [] {
      EvalMinus(d[1..], a[1..], b[1..], x);
      assert x * (Eval(a[1..], x) - Eval(b[1..], x)) == x * Eval(a[1..], x) - x * Eval(b[1..], x);
    }
  }
}
