/** The algebra of opening a committed blob at a point: sums over the domain, the barycentric value,
    and the quotient given by its values. Everything is stated for the interpolated coefficients
    c = Idft(f), so that the evaluation form is compared with plain division by X - z. */
module Opening {
  import opened Residue
  import opened Poly
  import opened Prime
  import opened Fft
  import opened Domain
  import opened Ifft

  // ----- sums of products -----

  ghost function Sum(t: seq<int>): int {
    if t == [] then 0 else Sum(t[..|t| - 1]) + t[|t| - 1]
  }

  ghost function Dot(a: seq<int>, b: seq<int>): int
    requires |a| == |b|
  {
    if a == [] then 0 else Dot(a[..|a| - 1], b[..|b| - 1]) + a[|a| - 1] * b[|b| - 1]
  }

  ghost function Powers(w: int, n: nat): (s: seq<int>)
    ensures |s| == n
  {
    seq(n, i requires 0 <= i => Pow(w, i))
  }

  lemma {:induction false} DotCong(a: seq<int>, b: seq<int>, c: seq<int>, d: seq<int>, p: nat)
    requires p > 0 && |a| == |b| && SeqCong(a, c, p) && SeqCong(b, d, p)
    ensures Cong(Dot(a, b), Dot(c, d), p)
  {
    hide Mod;
    if a != [] {
      var n := |a| - 1;
      DotCong(a[..n], b[..n], c[..n], d[..n], p);
      CongMul(a[n], c[n], b[n], d[n], p);
      CongAdd(Dot(a[..n], b[..n]), Dot(c[..n], d[..n]), a[n] * b[n], c[n] * d[n], p);
    }
  }

  lemma {:induction false} EvalIsDot(q: seq<int>, w: int)
    ensures Eval(q, w) == Dot(q, Powers(w, |q|))
  {
    if q != [] {
      var n := |q| - 1;
      EvalIsDot(q[..n], w);
      assert q == q[..n] + [q[n]];
      EvalAppend(q[..n], [q[n]], w);
      SingletonEval(q[n], w);
      assert Powers(w, |q|)[..n] == Powers(w, n);
    }
  }

  // ----- committing with Lagrange points -----

  /** The exponents of a Lagrange setup: entry i is the i-th Lagrange polynomial of the domain at the
      secret, (1/n) * sum over j of (v^i * tau)^j. */
  ghost predicate LagrangePoints(g1: seq<int>, tau: int, v: int, n: nat, p: nat)
    requires p >= 2
  {
    |g1| == n && forall i :: 0 <= i < n ==> Cong(g1[i], Inv(n, p) * Geo(Pow(v, i) * tau, n), p)
  }

  /** The i-th Lagrange polynomial is 1 at w^i and 0 at the other domain points. */
  lemma LagrangePolynomial(w: int, v: int, i: nat, k: nat, n: nat, p: nat)
    requires IsPrime(p) && RootPair(w, v, n, p) && !Cong(n, 0, p) && i < n && k < n
    ensures Cong(Inv(n, p) * Geo(Pow(v, i) * Pow(w, k), n), if i == k then 1 else 0, p)
  {
    hide Pow, Geo, Inv, Mod;
    RootPairSym(w, v, n, p);
    Orthogonal(v, w, i, k, n, p);
    InverseLaw(n, p);
    CongScale(Inv(n, p), Geo(Pow(v, i) * Pow(w, k), n), if i == k then n else 0, p);
    assert Inv(n, p) * n == n * Inv(n, p);
  }

  lemma {:induction false} KernelIsDot(f: seq<int>, v: int, y: int, n: nat, g: seq<int>)
    requires |g| == |f| && forall i :: 0 <= i < |f| ==> g[i] == Geo(Pow(v, i) * y, n)
    ensures Kernel(f, 1, v, y, n) == Dot(f, g)
  {
    if f != [] {
      var m := |f| - 1;
      KernelIsDot(f[..m], v, y, n, g[..m]);
      KernelAppend(f[..m], f[m], v, y, n);
      assert f == f[..m] + [f[m]];
    }
  }

  lemma {:induction false} KernelAppend(a: seq<int>, b: int, v: int, y: int, n: nat)
    ensures Kernel(a + [b], 1, v, y, n) == Kernel(a, 1, v, y, n) + b * Geo(Pow(v, |a|) * y, n)
  {
    if a == [] {
      assert (a + [b])[1..] == [] && Pow(v, 0) == 1;
    } else {
      assert (a + [b])[1..] == a[1..] + [b];
      KernelAppend(a[1..], b, v, v * y, n);
      assert Pow(v, |a| - 1) * (v * y) == Pow(v, |a|) * y by { ShiftPower(v, |a| - 1, y); }
    }
  }

  lemma ShiftPower(v: int, m: nat, y: int)
    ensures Pow(v, m) * (v * y) == Pow(v, m + 1) * y
  {
    MulAssoc(Pow(v, m), v, y);
  }

  lemma {:induction false} DotScale(f: seq<int>, g: seq<int>, h: seq<int>, u: int)
    requires |f| == |g| == |h| && forall i :: 0 <= i < |f| ==> h[i] == u * g[i]
    ensures Dot(f, h) == u * Dot(f, g)
  {
    if f != [] {
      var m := |f| - 1;
      DotScale(f[..m], g[..m], h[..m], u);
      assert f[m] * (u * g[m]) == u * (f[m] * g[m]);
    }
  }

  /** Combining Lagrange points with the values commits to the interpolated polynomial. */
  lemma LagrangeCommits(f: seq<int>, g1: seq<int>, tau: int, v: int, p: nat)
    requires p >= 2 && LagrangePoints(g1, tau, v, |f|, p)
    ensures Cong(Dot(f, g1), Eval(Idft(f, v, p), tau), p)
  {
    hide Pow, Geo, Inv, Mod, Eval, Dot, Kernel, Points, Dft;
    var n := |f|;
    var u := Inv(n, p);
    var g := seq(n, i requires 0 <= i < n => Geo(Pow(v, i) * tau, n));
    var h := seq(n, i requires 0 <= i < n => u * g[i]);
    SeqCongRefl(f, p);
    DotCong(f, g1, f, h, p);
    DotScale(f, g, h, u);
    KernelIsDot(f, v, tau, n, g);
    ExchangeSums(f, 1, v, tau, n);
    EvalScaledIdft(f, v, tau, p);
    DftIsPoints(f, v, n, p);
    CongRefl(tau, p);
    EvalCong(Dft(f, v, p), Points(f, 1, v, n), tau, tau, p);
    CongScale(u, Eval(Dft(f, v, p), tau), Eval(Points(f, 1, v, n), tau), p);
  }

  // ----- the top coefficient -----

  /** The sum over the domain of s(w^k) * w^k is n times the coefficient of X^(n-1). */
  lemma TopCoefficient(s: seq<int>, w: int, v: int, p: nat)
    requires p > 0 && RootPair(w, v, |s|, p)
    ensures Cong(Eval(Dft(s, w, p), w), |s| * s[|s| - 1], p)
  {
    hide Pow, Eval, Mod, RootPair, Dft;
    var n := |s|;
    assert n >= 2 by { RootPairSize(w, v, n, p); }
    TransformTwice(s, w, v, n - 1, p);
    LastPower(w, v, n, p);
    EvalCongAt(Dft(s, w, p), Pow(v, n - 1), w, p);
  }

  lemma RootPairSize(w: int, v: int, n: nat, p: nat)
    requires p > 0 && RootPair(w, v, n, p)
    ensures n >= 2 && Cong(w * v, 1, p)
  {
  }

  /** v^(n-1) = w. */
  lemma LastPower(w: int, v: int, n: nat, p: nat)
    requires p > 0 && RootPair(w, v, n, p)
    ensures Cong(Pow(v, n - 1), w, p)
  {
    hide Mod, Pow;
    RootPairSym(w, v, n, p);
    RootOrder(v, w, n, p);
    PowAdd(v, n - 1, 1);
    PowFirst(v);
    var x := Pow(v, n - 1);
    CongScale(w, x * v, 1, p);
    CongScale(x, w * v, 1, p);
    assert x * (w * v) == w * (x * v) && x * 1 == x && w * 1 == w;
  }

  // ----- division by X - z over the domain -----

  /** The quotient of c by X - z, padded to the length of c. */
  ghost function PaddedQuotient(c: seq<int>, z: int): (s: seq<int>)
    requires c != []
    ensures |s| == |c| && s[|c| - 1] == 0
  {
    Tails(c[1..], z) + [0]
  }

  lemma PaddedEval(c: seq<int>, z: int, x: int)
    requires c != []
    ensures Eval(PaddedQuotient(c, z), x) == Eval(Tails(c[1..], z), x)
    ensures Eval(c, x) == (x - z) * Eval(PaddedQuotient(c, z), x) + Eval(c, z)
  {
    hide Eval, Tails, Pow;
    EvalAppend(Tails(c[1..], z), [0], x);
    SingletonEval(0, x);
    SyntheticDivision(c, z, x);
  }

  /** At domain point k: (w^k - z) * s(w^k) = f[k] - c(z). */
  lemma DividedValue(f: seq<int>, w: int, v: int, z: int, k: nat, p: nat)
    requires IsPrime(p) && RootPair(w, v, |f|, p) && k < |f| && !Cong(|f|, 0, p)
    ensures var c := Idft(f, v, p);
      Cong((Pow(w, k) - z) * Dft(PaddedQuotient(c, z), w, p)[k], f[k] - Eval(c, z), p)
  {
    hide Mod, Pow, Eval, RootPair, Idft, Tails, IsPrime;
    var c, x := Idft(f, v, p), Pow(w, k);
    var s := PaddedQuotient(c, z);
    Interpolates(f, w, v, k, p);
    PaddedEval(c, z, x);
    DftAt(s, w, k, p);
    CongScale(x - z, Dft(s, w, p)[k], Eval(s, x), p);
    CongRefl(Eval(c, z), p);
    CongAdd(Eval(c, x), f[k], Eval(c, z), Eval(c, z), p);
    assert Eval(c, x) - Eval(c, z) == (x - z) * Eval(s, x);
  }

  // ----- the barycentric value -----

  /** The weights t[i] = w^i / (z - w^i). */
  ghost predicate Weights(t: seq<int>, w: int, z: int, p: nat)
    requires p >= 2
  {
    forall i :: 0 <= i < |t| ==> Cong(t[i], Pow(w, i) * Inv(z - Pow(w, i), p), p)
  }

  ghost predicate OutsideDomain(w: int, z: int, n: nat, p: nat)
    requires p > 0
  {
    forall i :: 0 <= i < n ==> !Cong(z, Pow(w, i), p)
  }

  /** If (x - z) * s = d then d * (x / (z - x)) = -x * s. */
  lemma WeightTimes(x: int, z: int, s: int, d: int, t: int, p: nat)
    requires IsPrime(p) && !Cong(z, x, p)
    requires Cong((x - z) * s, d, p) && Cong(t, x * Inv(z - x, p), p)
    ensures Cong(d * t, -(s * x), p)
  {
    hide Mod, Inv, IsPrime;
    assert p > 1 by { PrimeSize(p); }
    var u := Inv(z - x, p);
    CongDiff(z, x, p);
    InverseLaw(z - x, p);
    CongMul(d, (x - z) * s, t, x * u, p);
    CongScale(-(s * x), (z - x) * u, 1, p);
    WeightStep(x, z, s, u);
  }

  lemma WeightStep(x: int, z: int, s: int, u: int)
    ensures ((x - z) * s) * (x * u) == -(s * x) * ((z - x) * u)
    ensures -(s * x) * 1 == -(s * x)
  {
    var d := x - z;
    assert (d * s) * (x * u) == (s * x) * (d * u) by { MulSwap(d, s, x, u); MulSwap(s, x, d, u); Reorder4(d, s, x, u); }
    assert -(s * x) * ((z - x) * u) == (s * x) * (-((z - x) * u));
    assert -((z - x) * u) == (x - z) * u;
  }

  lemma Reorder4(a: int, b: int, c: int, d: int)
    ensures (a * b) * (c * d) == (b * c) * (a * d)
  {
    assert (a * b) * (c * d) == (b * a) * (c * d);
    MulSwap(b, a, c, d);
  }

  /** Weighted values minus Y times the weights, when the values are Y plus multiples of X - z. */
  lemma {:induction false} BarycentricPrefix(
      f: seq<int>, t: seq<int>, s: seq<int>, w: int, z: int, y: int, m: nat, p: nat)
    requires IsPrime(p) && |f| == |t| == |s| && m <= |f|
    requires OutsideDomain(w, z, |f|, p) && Weights(t, w, z, p)
    requires forall k :: 0 <= k < |f| ==> Cong((Pow(w, k) - z) * s[k], f[k] - y, p)
    ensures Cong(Dot(f[..m], t[..m]) - y * Sum(t[..m]), -Dot(s[..m], Powers(w, m)), p)
  {
    hide Mod, Pow, Inv, IsPrime, Cong, Dot, Sum, OutsideDomain, Weights;
    PrimeSize(p);
    if m == 0 {
      EmptySums(f[..0], t[..0], s[..0], Powers(w, 0), p);
      assert y * 0 == 0;
    } else {
      var k := m - 1;
      BarycentricPrefix(f, t, s, w, z, y, k, p);
      WeightAt(t, w, z, k, |f|, p);
      WeightTimes(Pow(w, k), z, s[k], f[k] - y, t[k], p);
      DotStep(f, t, k);
      SumStep(t, k);
      DotStep(s[..m], Powers(w, m), k);
      assert s[..m][..m] == s[..m] && s[..m][..k] == s[..k];
      assert Powers(w, m)[..m] == Powers(w, m) && Powers(w, m)[..k] == Powers(w, k);
      CongAdd(Dot(f[..k], t[..k]) - y * Sum(t[..k]), -Dot(s[..k], Powers(w, k)),
              (f[k] - y) * t[k], -(s[k] * Pow(w, k)), p);
      PrefixStep(Dot(f[..k], t[..k]), Sum(t[..k]), f[k], t[k], y);
    }
  }

  lemma EmptySums(f: seq<int>, t: seq<int>, s: seq<int>, x: seq<int>, p: nat)
    requires p > 0 && f == t == s == x == []
    ensures Dot(f, t) == Sum(t) == Dot(s, x) == 0 && Cong(0, -0, p)
  {
  }

  lemma WeightAt(t: seq<int>, w: int, z: int, k: nat, n: nat, p: nat)
    requires p >= 2 && k < n == |t| && OutsideDomain(w, z, n, p) && Weights(t, w, z, p)
    ensures !Cong(z, Pow(w, k), p) && Cong(t[k], Pow(w, k) * Inv(z - Pow(w, k), p), p)
  {
  }

  lemma DotStep(a: seq<int>, b: seq<int>, k: nat)
    requires |a| == |b| && k < |a|
    ensures Dot(a[..k + 1], b[..k + 1]) == Dot(a[..k], b[..k]) + a[k] * b[k]
  {
    assert a[..k + 1][..k] == a[..k] && b[..k + 1][..k] == b[..k];
  }

  lemma SumStep(t: seq<int>, k: nat)
    requires k < |t|
    ensures Sum(t[..k + 1]) == Sum(t[..k]) + t[k]
  {
    assert t[..k + 1][..k] == t[..k];
  }

  lemma PrefixStep(d: int, u: int, f: int, t: int, y: int)
    ensures (d + f * t) - y * (u + t) == (d - y * u) + (f - y) * t
  {
    assert y * (u + t) == y * u + y * t;
  }

  lemma BarycentricSum(f: seq<int>, t: seq<int>, s: seq<int>, w: int, z: int, y: int, p: nat)
    requires IsPrime(p) && |f| == |t| == |s|
    requires OutsideDomain(w, z, |f|, p) && Weights(t, w, z, p)
    requires forall k :: 0 <= k < |f| ==> Cong((Pow(w, k) - z) * s[k], f[k] - y, p)
    ensures Cong(Dot(f, t) - y * Sum(t), -Eval(s, w), p)
  {
    hide Mod, Pow, Inv, IsPrime, OutsideDomain, Weights, Powers;
    BarycentricPrefix(f, t, s, w, z, y, |f|, p);
    assert f[..|f|] == f && t[..|f|] == t && s[..|f|] == s;
    EvalIsDot(s, w);
  }

  /** The numerator is p(z) times the denominator. */
  lemma Numerator(f: seq<int>, t: seq<int>, w: int, v: int, z: int, p: nat)
    requires IsPrime(p) && RootPair(w, v, |f|, p) && !Cong(|f|, 0, p) && |t| == |f|
    requires OutsideDomain(w, z, |f|, p) && Weights(t, w, z, p)
    ensures Cong(Dot(f, t), Sum(t) * Eval(Idft(f, v, p), z), p)
  {
    hide Mod, Pow, Inv, IsPrime, OutsideDomain, Weights, RootPair, Eval, Dft, Idft, Tails, Dot, Sum;
    RootPairSize(w, v, |f|, p);
    var c := Idft(f, v, p);
    var q := PaddedQuotient(c, z);
    var s, y := Dft(q, w, p), Eval(c, z);
    forall k | 0 <= k < |f| ensures Cong((Pow(w, k) - z) * s[k], f[k] - y, p) {
      DividedValue(f, w, v, z, k, p);
    }
    BarycentricSum(f, t, s, w, z, y, p);
    TopCoefficient(q, w, v, p);
    assert |q| * q[|q| - 1] == 0;
    CongScale(-1, Eval(s, w), 0, p);
    assert -1 * Eval(s, w) == -Eval(s, w) && y * Sum(t) == Sum(t) * y;
    CongDiff(Dot(f, t), y * Sum(t), p);
  }

  ghost function Monomial(n: nat): (c: seq<int>)
    ensures |c| == n + 1
  {
    if n == 0 then [1] else [0] + Monomial(n - 1)
  }

  lemma {:induction false} MonomialEval(n: nat, x: int)
    ensures Eval(Monomial(n), x) == Pow(x, n) && Monomial(n)[n] == 1
  {
    if n == 0 {
      SingletonEval(1, x);
      assert Pow(x, 0) == 1;
    } else {
      MonomialEval(n - 1, x);
      assert Monomial(n)[1..] == Monomial(n - 1);
    }
  }

  /** The denominator times z^n - 1 is n, so it is never zero. */
  lemma Denominator(t: seq<int>, w: int, v: int, z: int, n: nat, p: nat)
    requires IsPrime(p) && RootPair(w, v, n, p) && !Cong(n, 0, p) && |t| == n
    requires OutsideDomain(w, z, n, p) && Weights(t, w, z, p)
    ensures Cong((Pow(z, n) - 1) * Sum(t), n, p)
    ensures !Cong(Sum(t), 0, p)
  {
    hide Mod, Pow, Inv, IsPrime, OutsideDomain, Weights, RootPair, Eval, Dft, Tails, Dot, Sum, Monomial;
    RootPairSize(w, v, n, p);
    var r := Tails(Monomial(n)[1..], z);
    var s := Dft(r, w, p);
    var e := 1 - Pow(z, n);
    forall k | 0 <= k < n ensures Cong((Pow(w, k) - z) * s[k], e - 0, p) {
      MonomialValue(w, v, z, k, n, p);
    }
    var f := seq(n, _ => e);
    BarycentricSum(f, t, s, w, z, 0, p);
    ConstantDot(e, t);
    TopCoefficient(r, w, v, p);
    LastTail(n, z);
    var dt := Sum(t);
    assert Dot(f, t) - 0 * dt == e * dt && |r| * r[n - 1] == n;
    CongScale(-1, e * dt, -Eval(s, w), p);
    assert -1 * (e * dt) == (Pow(z, n) - 1) * dt && -1 * -Eval(s, w) == Eval(s, w);
    if Cong(dt, 0, p) {
      CongScale(Pow(z, n) - 1, dt, 0, p);
    }
  }

  lemma {:induction false} ConstantDot(e: int, t: seq<int>)
    ensures Dot(seq(|t|, _ => e), t) == e * Sum(t)
  {
    if t != [] {
      var m := |t| - 1;
      ConstantDot(e, t[..m]);
      assert seq(|t|, _ => e)[..m] == seq(m, _ => e);
    }
  }

  lemma MonomialValue(w: int, v: int, z: int, k: nat, n: nat, p: nat)
    requires p > 0 && RootPair(w, v, n, p) && k < n
    ensures Cong((Pow(w, k) - z) * Dft(Tails(Monomial(n)[1..], z), w, p)[k], 1 - Pow(z, n), p)
  {
    hide Mod, Pow, Eval, RootPair, Tails, Monomial;
    var r, x := Tails(Monomial(n)[1..], z), Pow(w, k);
    SyntheticDivision(Monomial(n), z, x);
    MonomialEval(n, x);
    MonomialEval(n, z);
    DftAt(r, w, k, p);
    CongScale(x - z, Dft(r, w, p)[k], Eval(r, x), p);
    DomainPointOrder(w, v, k, n, p);
    CongAdd(Pow(x, n), 1, Pow(z, n), Pow(z, n), p);
    assert Pow(x, n) - Pow(z, n) == (x - z) * Eval(r, x);
  }

  lemma DomainPointOrder(w: int, v: int, k: nat, n: nat, p: nat)
    requires p > 0 && RootPair(w, v, n, p)
    ensures Cong(Pow(Pow(w, k), n), 1, p)
  {
    hide Mod, Pow, RootPair;
    RootOrder(w, v, n, p);
    PowTimes(w, k, n);
    PowTimes(w, n, k);
    assert k * n == n * k;
    PowCong(Pow(w, n), 1, k, p);
    PowOne(k);
  }

  lemma LastTail(n: nat, z: int)
    requires n > 0
    ensures Tails(Monomial(n)[1..], z)[n - 1] == 1
  {
    hide Tails;
    MonomialEval(n, z);
    assert Monomial(n)[1..][n - 1..] == [1];
    SingletonEval(1, z);
  }

  // ----- the quotient by its values -----

  /** q takes the values of a quotient of f - y by X - z, wherever X - z is not zero. */
  ghost predicate QuotientValues(f: seq<int>, q: seq<int>, w: int, z: int, y: int, p: nat)
    requires p > 0
  {
    |q| == |f| && Reduced(q, p) &&
    forall k :: 0 <= k < |f| ==> Cong((Pow(w, k) - z) * q[k], f[k] - y, p)
  }

  /** The values of the plain quotient of the interpolated polynomial. */
  ghost function PlainQuotient(f: seq<int>, w: int, v: int, z: int, p: nat): (d: seq<int>)
    requires p >= 2 && f != []
    ensures |d| == |f| && Reduced(d, p)
  {
    Dft(PaddedQuotient(Idft(f, v, p), z), w, p)
  }

  lemma QuotientEntry(f: seq<int>, q: seq<int>, w: int, v: int, z: int, k: nat, p: nat)
    requires IsPrime(p) && RootPair(w, v, |f|, p) && !Cong(|f|, 0, p)
    requires QuotientValues(f, q, w, z, Eval(Idft(f, v, p), z), p)
    requires k < |f| && !Cong(Pow(w, k), z, p)
    ensures q[k] == PlainQuotient(f, w, v, z, p)[k]
  {
    hide Pow, Inv, IsPrime, RootPair, Eval, Dft, Idft, Tails;
    RootPairSize(w, v, |f|, p);
    PrimeSize(p);
    var x := Pow(w, k);
    var d := PlainQuotient(f, w, v, z, p);
    DividedValue(f, w, v, z, k, p);
    CongDiff(x, z, p);
    Cancel(x - z, q[k], d[k], p);
  }

  /** Outside the domain the pointwise equations determine the quotient. */
  lemma QuotientOutside(f: seq<int>, q: seq<int>, w: int, v: int, z: int, p: nat)
    requires IsPrime(p) && RootPair(w, v, |f|, p) && !Cong(|f|, 0, p)
    requires QuotientValues(f, q, w, z, Eval(Idft(f, v, p), z), p) && OutsideDomain(w, z, |f|, p)
    ensures f != [] && q == PlainQuotient(f, w, v, z, p)
  {
    hide Mod, Pow, Inv, IsPrime, RootPair, Eval, Idft, PlainQuotient;
    RootPairSize(w, v, |f|, p);
    forall k | 0 <= k < |f| ensures q[k] == PlainQuotient(f, w, v, z, p)[k] {
      QuotientEntry(f, q, w, v, z, k, p);
    }
  }

  /** At a domain point z = w^m entry m is free; a zero sum of q[k] * w^k determines it. */
  lemma QuotientInside(f: seq<int>, q: seq<int>, w: int, v: int, z: int, m: nat, p: nat)
    requires IsPrime(p) && RootPair(w, v, |f|, p) && !Cong(|f|, 0, p)
    requires QuotientValues(f, q, w, z, Eval(Idft(f, v, p), z), p)
    requires m < |f| && Cong(Pow(w, m), z, p) && Cong(Eval(q, w), 0, p)
    ensures q == PlainQuotient(f, w, v, z, p)
  {
    hide Mod, Pow, Inv, IsPrime, RootPair, Eval, Dft, Idft, Tails;
    RootPairSize(w, v, |f|, p);
    PrimeSize(p);
    var s := PaddedQuotient(Idft(f, v, p), z);
    var d := PlainQuotient(f, w, v, z, p);
    forall k | 0 <= k < |f| && k != m ensures q[k] == d[k] {
      DistinctPoints(w, v, k, m, |f|, p);
      QuotientEntry(f, q, w, v, z, k, p);
    }
    TopCoefficient(s, w, v, p);
    assert |s| * s[|s| - 1] == 0;
    LastEntry(q, d, w, v, m, p);
  }

  /** Combining the quotient values with Lagrange points commits to the plain quotient. */
  lemma QuotientCommits(f: seq<int>, g1: seq<int>, tau: int, w: int, v: int, z: int, p: nat)
    requires IsPrime(p) && RootPair(w, v, |f|, p) && !Cong(|f|, 0, p)
    requires LagrangePoints(g1, tau, v, |f|, p)
    ensures f != []
    ensures Cong(Dot(PlainQuotient(f, w, v, z, p), g1), Eval(Tails(Idft(f, v, p)[1..], z), tau), p)
  {
    hide Mod, Pow, Inv, IsPrime, RootPair, Eval, Dft, Idft, Tails, Dot, LagrangePoints;
    RootPairSize(w, v, |f|, p);
    PrimeSize(p);
    var c := Idft(f, v, p);
    var s := PaddedQuotient(c, z);
    var q := PlainQuotient(f, w, v, z, p);
    assert |g1| == |q| by { LagrangeSize(g1, tau, v, |f|, p); }
    LagrangeCommits(q, g1, tau, v, p);
    RoundTripBack(s, w, v, p);
    CongRefl(tau, p);
    EvalCong(Idft(q, v, p), s, tau, tau, p);
    PaddedEval(c, z, tau);
  }

  lemma LagrangeSize(g1: seq<int>, tau: int, v: int, n: nat, p: nat)
    requires p >= 2 && LagrangePoints(g1, tau, v, n, p)
    ensures |g1| == n
  {
  }

  /** Different domain positions hold different points. */
  lemma DistinctPoints(w: int, v: int, j: nat, k: nat, n: nat, p: nat)
    requires IsPrime(p) && RootPair(w, v, n, p) && !Cong(n, 0, p) && j < n && k < n && j != k
    ensures !Cong(Pow(w, j), Pow(w, k), p)
  {
    hide Mod, Pow, Geo, RootPair, IsPrime;
    PrimeSize(p);
    if Cong(Pow(w, j), Pow(w, k), p) {
      CongScale(Pow(v, k), Pow(w, j), Pow(w, k), p);
      var y := Pow(w, j) * Pow(v, k);
      assert Pow(v, k) * Pow(w, j) == y && Pow(v, k) * Pow(w, k) == Pow(w, k) * Pow(v, k);
      GeoCong(y, Pow(w, k) * Pow(v, k), n, p);
      Orthogonal(w, v, j, k, n, p);
      Orthogonal(w, v, k, k, n, p);
    }
  }

  /** Two vectors with the same weighted sum that agree everywhere but at m agree at m. */
  lemma LastEntry(q: seq<int>, d: seq<int>, w: int, v: int, m: nat, p: nat)
    requires IsPrime(p) && |q| == |d| && m < |q| && Reduced(q, p) && Reduced(d, p) && Cong(w * v, 1, p)
    requires forall k :: 0 <= k < |q| && k != m ==> q[k] == d[k]
    requires Cong(Eval(q, w), 0, p) && Cong(Eval(d, w), 0, p)
    ensures q[m] == d[m]
  {
    hide Mod, Pow, IsPrime, Eval;
    PrimeSize(p);
    EvalDiffersAt(q, d, w, m);
    CongAdd(Eval(q, w), 0, Eval(d, w), 0, p);
    var x := Pow(w, m);
    if Cong(x, 0, p) {
      NonzeroPower(w, v, m, p);
    }
    ZeroProduct(x, q[m] - d[m], p);
    CongDiff(q[m], d[m], p);
    CongOfReduced(q[m], d[m], p);
    CongOfReduced(q[m], q[m], p);
  }

  lemma NonzeroPower(w: int, v: int, m: nat, p: nat)
    requires p > 1 && Cong(w * v, 1, p)
    ensures !Cong(Pow(w, m), 0, p)
  {
    hide Pow;
    CancelRoots(w, v, m, m, p);
    PowNone(w);
    assert Pow(v, m) * Pow(w, m) == Pow(w, m) * Pow(v, m);
    if Cong(Pow(w, m), 0, p) {
      CongScale(Pow(v, m), Pow(w, m), 0, p);
    }
  }

  lemma {:induction false} EvalDiffersAt(q: seq<int>, d: seq<int>, w: int, m: nat)
    requires |q| == |d| && m < |q| && forall k :: 0 <= k < |q| && k != m ==> q[k] == d[k]
    ensures Eval(q, w) - Eval(d, w) == Pow(w, m) * (q[m] - d[m])
  {
    if m == 0 {
      assert q[1..] == d[1..];
    } else {
      EvalDiffersAt(q[1..], d[1..], w, m - 1);
      MulAssoc(w, Pow(w, m - 1), q[m] - d[m]);
      assert w * (Eval(q[1..], w) - Eval(d[1..], w)) == w * Eval(q[1..], w) - w * Eval(d[1..], w);
    }
  }
}
