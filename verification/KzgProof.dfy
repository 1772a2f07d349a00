/** Opening proofs and their verification. */
module KzgProof {
  import opened Residue
  import opened Poly
  import opened Prime
  import opened BitReverse
  import opened Fft
  import opened Domain
  import opened Ifft
  import opened Opening
  import opened Kzg

  /** The exponent of the proof that opens the polynomial c at z: its plain quotient at the secret. */
  ghost function ProofExponent(c: seq<int>, z: int, tau: int, p: nat): nat
    requires p > 0 && c != []
  {
    Mod(Eval(Tails(c[1..], z), tau), p)
  }

  ghost function ClaimedValue(c: seq<int>, z: int, p: nat): nat
    requires p > 0
  {
    Mod(Eval(c, z), p)
  }

  // ----- coefficient form -----

  /** Horner's method, from the last coefficient down. */
  method Horner(coeffs: seq<int>, z: nat, p: nat) returns (y: nat)
    requires p > 1
    ensures y == Mod(Eval(coeffs, z), p)
  {
    hide Mod, Eval;
    y := 0;
    var i := |coeffs|;
    EvalSuffixEnd(coeffs, z, p);
    while i > 0
      invariant 0 <= i <= |coeffs|
      invariant Cong(y, Eval(coeffs[i..], z), p) && y < p
    {
      i := i - 1;
      EvalSuffix(coeffs, i, z);
      HornerCong(coeffs[i], z, y, Eval(coeffs[i + 1..], z), p);
      y := Mod(Mod(y * z, p) + coeffs[i], p);
    }
    assert coeffs[0..] == coeffs;
    CongOfReduced(Eval(coeffs, z), y, p) by { ReducedMod(y, p); }
  }

  lemma ReducedMod(y: nat, p: nat)
    requires y < p
    ensures Mod(y, p) == y
  {
  }

  lemma EvalSuffix(c: seq<int>, i: nat, z: int)
    requires i < |c|
    ensures Eval(c[i..], z) == c[i] + z * Eval(c[i + 1..], z)
  {
    assert c[i..][1..] == c[i + 1..];
  }

  lemma EvalSuffixEnd(c: seq<int>, z: int, p: nat)
    requires p > 0
    ensures Cong(0, Eval(c[|c|..], z), p)
  {
  }

  lemma HornerCong(c: int, z: int, y: int, e: int, p: nat)
    requires p > 0 && Cong(y, e, p)
    ensures Cong(Mod(Mod(y * z, p) + c, p), c + z * e, p)
    ensures Cong(Mod(c + Mod(y * z, p), p), c + z * e, p)
  {
    hide Mod;
    CongScale(z, y, e, p);
    ModCong(y * z, p);
    assert y * z == z * y;
    CongRefl(c, p);
    CongAdd(Mod(y * z, p), z * e, c, c, p);
    ModCong(Mod(y * z, p) + c, p);
  }

  /** Synthetic division: entry 0 is the remainder, the rest the quotient. */
  method SyntheticDivide(coeffs: seq<int>, z: nat, p: nat) returns (b: array<int>)
    requires p > 1 && coeffs != [] && Reduced(coeffs, p)
    ensures fresh(b) && Reduced(b[..], p) && SeqCong(b[..], Tails(coeffs, z), p)
  {
    hide Mod, Eval, Tails, Cong;
    var n := |coeffs|;
    b := new int[n](_ => 0);
    b[n - 1] := coeffs[n - 1];
    EvalSuffixEnd(coeffs, z, p);
    EvalSuffix(coeffs, n - 1, z);
    LastCoefficient(coeffs, z);
    CongRefl(coeffs[n - 1], p);
    var i := n - 1;
    while i > 0
      invariant 0 <= i < n
      invariant forall k :: i <= k < n ==> 0 <= b[k] < p && Cong(b[k], Eval(coeffs[k..], z), p)
    {
      i := i - 1;
      EvalSuffix(coeffs, i, z);
      HornerCong(coeffs[i], z, b[i + 1], Eval(coeffs[i + 1..], z), p);
      b[i] := Mod(coeffs[i] + Mod(b[i + 1] * z, p), p);
    }
  }

  lemma LastCoefficient(c: seq<int>, z: int)
    requires c != []
    ensures Eval(c[|c| - 1..], z) == c[|c| - 1]
  {
    assert c[|c| - 1..] == [c[|c| - 1]];
    SingletonEval(c[|c| - 1], z);
  }

  /** The branch for a setup of powers. */
  method ProveMonomial(ctx: Context, evals: array<int>, z: nat, d: Field, ghost tau: int)
      returns (r: Result<(nat, nat)>)
    requires d.Valid() && evals.Length == d.n && Reduced(evals[..], d.p) && ctx.monomial
    modifies evals
    ensures r.Ok?
    ensures Setup(ctx, tau, d) ==> var c := Coefficients(old(evals[..]), d);
      r.value == (ProofExponent(c, z, tau, d.p), ClaimedValue(c, z, d.p))
  {
    hide Mod, Pow, TwoPow, Dot, Eval, Inv, Dft, Idft, Tails;
    FieldLaws(d);
    ghost var f := evals[..];
    var out := IfftInPlace(evals, d.omega, d.n, d.p);
    assert evals[..] == Coefficients(f, d);
    var y := Horner(evals[..], z, d.p);
    var b := SyntheticDivide(evals[..], z, d.p);
    var acc := CommitCoefficients(ctx.g1, b[1..], d.p);
    if Setup(ctx, tau, d) {
      var c := evals[..];
      assert b[1..] == b[..][1..];
      TailsRest(c, z);
      forall i | 0 <= i < d.n - 1 ensures Cong(b[1..][i], Tails(c[1..], z)[i], d.p) {
        assert b[1..][i] == b[..][i + 1];
      }
      assert b[1..][..d.n - 1] == b[1..];
      MonomialCommits(ctx.g1, b[1..], tau, d.p);
      CongRefl(tau, d.p);
      EvalCong(b[1..], Tails(c[1..], z), tau, tau, d.p);
    }
    return Ok((Mod(acc, d.p), y));
  }

  lemma TailsRest(c: seq<int>, z: int)
    requires c != []
    ensures Tails(c, z)[1..] == Tails(c[1..], z)
  {
  }

  // ----- evaluation form -----

  /** The domain points 1, omega, omega^2, ... */
  method DomainPoints(d: Field) returns (domain: array<int>)
    requires d.Valid()
    ensures fresh(domain) && domain.Length == d.n
    ensures forall i :: 0 <= i < d.n ==> 0 <= domain[i] < d.p && Cong(domain[i], Pow(d.omega, i), d.p)
  {
    hide Mod, Pow, TwoPow;
    domain := new int[d.n](_ => 0);
    var x := 1;
    PowZero(d.omega, d.p);
    for i := 0 to d.n
      invariant 0 <= x < d.p && Cong(x, Pow(d.omega, i), d.p)
      invariant forall k :: 0 <= k < i ==> 0 <= domain[k] < d.p && Cong(domain[k], Pow(d.omega, k), d.p)
    {
      domain[i] := x;
      NextPower(x, d.omega, i, d.p);
      x := Mod(x * d.omega, d.p);
    }
  }

  /** The first domain position that holds z, or the length of the domain. */
  method FindInDomain(domain: array<int>, z: nat) returns (k: nat)
    ensures k <= domain.Length && (k < domain.Length ==> domain[k] == z)
    ensures forall i :: 0 <= i < k ==> domain[i] != z
  {
    k := 0;
    while k < domain.Length
      invariant k <= domain.Length && forall i :: 0 <= i < k ==> domain[i] != z
    {
      if domain[k] == z {
        return;
      }
      k := k + 1;
    }
  }

  lemma DifferentPoints(x: nat, z: nat, p: nat)
    requires x < p && z < p && x != z
    ensures !Cong(z, x, p) && !Cong(z - x, 0, p) && !Cong(x - z, 0, p)
  {
    ReducedMod(x, p);
    ReducedMod(z, p);
    CongDiff(z, x, p);
    CongDiff(x, z, p);
  }

  lemma InvCong(x: int, y: int, p: nat)
    requires p >= 2 && Cong(x, y, p)
    ensures Inv(x, p) == Inv(y, p)
  {
  }

  /** The weight x / (z - x) computed from a reduced domain point. */
  lemma WeightCong(x: int, w: int, z: int, p: nat)
    requires p >= 2 && Cong(x, w, p)
    ensures Cong(Mod(x * Inv(Mod(z - x, p), p), p), w * Inv(z - w, p), p)
  {
    hide Mod, Inv;
    ModCong(z - x, p);
    CongRefl(z, p);
    CongAdd(z, z, x, w, p);
    InvCong(Mod(z - x, p), z - w, p);
    var u := Inv(z - w, p);
    CongScale(u, x, w, p);
    ModCong(x * u, p);
    assert u * x == x * u && u * w == w * u;
  }

  /** Barycentric interpolation at a point outside the domain. Every inversion succeeds: no
      difference z - x is zero, and neither is the denominator. */
  method Barycentric(evals: seq<int>, domain: array<int>, z: nat, d: Field) returns (y: nat)
    requires d.Valid() && |evals| == domain.Length == d.n && Reduced(evals, d.p) && z < d.p
    requires forall i :: 0 <= i < d.n ==>
      0 <= domain[i] < d.p && Cong(domain[i], Pow(d.omega, i), d.p) && domain[i] != z
    ensures y == ClaimedValue(Coefficients(evals, d), z, d.p)
  {
    hide Mod, Pow, TwoPow, Inv, Dot, Sum, Cong, IsPrime, IsPowerOfTwo, Coefficients, ClaimedValue, OutsideDomain;
    PrimeSize(d.p);
    var p := d.p;
    var num, den := 0, 0;
    ghost var t: seq<int> := [];
    EmptySums([], [], [], [], p);
    CongRefl(0, p);
    for i := 0 to d.n
      invariant |t| == i && Weights(t, d.omega, z, p)
      invariant 0 <= num < p && Cong(num, Dot(evals[..i], t), p)
      invariant 0 <= den < p && Cong(den, Sum(t), p)
    {
      var ti := Mod(domain[i] * Inv(Mod(z - domain[i], p), p), p);
      BarycentricStep(evals, t, domain[i], num, den, z, d);
      den := Mod(den + ti, p);
      num := Mod(num + Mod(evals[i] * ti, p), p);
      t := t + [ti];
    }
    assert evals[..d.n] == evals;
    OutsideOf(domain[..], d, z);
    BarycentricValue(evals, t, num, den, z, d);
    y := Mod(num * Inv(den, p), p);
  }

  /** One more weight, and the two sums with it. */
  lemma BarycentricStep(evals: seq<int>, t: seq<int>, x: int, num: int, den: int, z: nat, d: Field)
    requires d.p >= 2 && |t| < |evals| && Weights(t, d.omega, z, d.p)
    requires Cong(num, Dot(evals[..|t|], t), d.p) && Cong(den, Sum(t), d.p)
    requires Cong(x, Pow(d.omega, |t|), d.p)
    ensures var p, i := d.p, |t|;
      var ti := Mod(x * Inv(Mod(z - x, p), p), p);
      Weights(t + [ti], d.omega, z, p) && Cong(Mod(den + ti, p), Sum(t + [ti]), p) &&
      Cong(Mod(num + Mod(evals[i] * ti, p), p), Dot(evals[..i + 1], t + [ti]), p)
  {
    hide Mod, Pow, Inv, Dot, Sum, Cong;
    var p, i := d.p, |t|;
    WeightCong(x, Pow(d.omega, i), z, p);
    NumStep(evals, t, Mod(x * Inv(Mod(z - x, p), p), p), i, num, den, p);
  }

  lemma OutsideOf(domain: seq<int>, d: Field, z: nat)
    requires d.p > 0 && |domain| == d.n && z < d.p
    requires forall i :: 0 <= i < d.n ==>
      0 <= domain[i] < d.p && Cong(domain[i], Pow(d.omega, i), d.p) && domain[i] != z
    ensures OutsideDomain(d.omega, z, d.n, d.p)
  {
    hide Mod, Pow;
    forall i | 0 <= i < d.n ensures !Cong(z, Pow(d.omega, i), d.p) {
      DifferentPoints(domain[i], z, d.p);
    }
  }

  /** The quotient of the two sums is the value of the polynomial. */
  lemma BarycentricValue(evals: seq<int>, t: seq<int>, num: nat, den: nat, z: nat, d: Field)
    requires d.Valid() && |evals| == |t| == d.n && Reduced(evals, d.p) && Weights(t, d.omega, z, d.p)
    requires OutsideDomain(d.omega, z, d.n, d.p)
    requires Cong(num, Dot(evals, t), d.p) && Cong(den, Sum(t), d.p)
    ensures Mod(num * Inv(den, d.p), d.p) == ClaimedValue(Coefficients(evals, d), z, d.p)
  {
    hide Mod, Pow, TwoPow, Inv, Dft, Idft, Eval, Dot, Sum, RootPair;
    FieldLaws(d);
    var p, v := d.p, Inv(d.omega, d.p);
    Denominator(t, d.omega, v, z, d.n, p);
    Numerator(evals, t, d.omega, v, z, p);
    var c := Eval(Idft(evals, v, p), z);
    CongScale(c, den, Sum(t), p);
    assert c * Sum(t) == Sum(t) * c && c * den == den * c;
    DivideBy(den, num, c, p);
  }

  lemma NumStep(evals: seq<int>, t: seq<int>, ti: int, i: nat, num: int, den: int, p: nat)
    requires p > 0 && i < |evals| && |t| == i
    requires Cong(num, Dot(evals[..i], t), p) && Cong(den, Sum(t), p)
    ensures Cong(Mod(num + Mod(evals[i] * ti, p), p), Dot(evals[..i + 1], t + [ti]), p)
    ensures Cong(Mod(den + ti, p), Sum(t + [ti]), p)
  {
    hide Mod, Dot, Sum;
    DotSnoc(evals[..i], t, evals[i], ti);
    assert evals[..i + 1] == evals[..i] + [evals[i]];
    SumStep(t + [ti], i);
    assert (t + [ti])[..i] == t && (t + [ti])[..i + 1] == t + [ti];
    var x := evals[i] * ti;
    ModCong(x, p);
    CongAdd(num, Dot(evals[..i], t), Mod(x, p), x, p);
    ModCong(num + Mod(x, p), p);
    CongRefl(ti, p);
    CongAdd(den, Sum(t), ti, ti, p);
    ModCong(den + ti, p);
  }

  /** q = (f - y) / (x - z) solves (x - z) * q = f - y. */
  lemma QuotientCong(x: int, w: int, z: int, f: int, y: int, p: nat)
    requires IsPrime(p) && Cong(x, w, p) && !Cong(x - z, 0, p)
    ensures Cong((w - z) * Mod(Mod(f - y, p) * Inv(Mod(x - z, p), p), p), f - y, p)
  {
    hide Mod, Inv, IsPrime, Cong;
    PrimeSize(p);
    ModCong(x - z, p);
    InvCong(Mod(x - z, p), x - z, p);
    var a, u, e := x - z, Inv(x - z, p), f - y;
    InverseLaw(a, p);
    var g := Mod(e, p);
    var q := Mod(g * u, p);
    ModCong(e, p);
    CongScale(u, g, e, p);
    ModCong(g * u, p);
    assert u * g == g * u;
    CongTrans(q, u * g, u * e, p);
    CongScale(a, q, u * e, p);
    CongScale(e, a * u, 1, p);
    QuotientRegroup(a, u, e);
    CongTrans(a * q, e * (a * u), e, p);
    CongRefl(z, p);
    CongAdd(x, w, z, z, p);
    CongScale(q, a, w - z, p);
    CongSym(q * a, q * (w - z), p);
    assert q * a == a * q && q * (w - z) == (w - z) * q;
    CongTrans((w - z) * q, a * q, e, p);
  }

  lemma QuotientRegroup(a: int, u: int, e: int)
    ensures a * (u * e) == e * (a * u) && e * 1 == e
  {
    MulAssoc(a, u, e);
  }

  /** The quotient values when z is outside the domain. */
  method QuotientOutsideDomain(evals: seq<int>, domain: array<int>, z: nat, y: nat, d: Field) returns (q: array<int>)
    requires d.Valid() && |evals| == domain.Length == d.n && z < d.p
    requires forall i :: 0 <= i < d.n ==>
      0 <= domain[i] < d.p && Cong(domain[i], Pow(d.omega, i), d.p) && domain[i] != z
    ensures fresh(q) && QuotientValues(evals, q[..], d.omega, z, y, d.p)
  {
    hide Mod, Pow, TwoPow, Inv;
    var p := d.p;
    q := new int[d.n](_ => 0);
    for i := 0 to d.n
      invariant forall k :: 0 <= k < i ==>
        0 <= q[k] < p && Cong((Pow(d.omega, k) - z) * q[k], evals[k] - y, p)
    {
      DifferentPoints(domain[i], z, p);
      QuotientCong(domain[i], Pow(d.omega, i), z, evals[i], y, p);
      q[i] := Mod(Mod(evals[i] - y, p) * Inv(Mod(domain[i] - z, p), p), p);
    }
  }

  lemma SumTermCong(sum: int, dot: int, q: int, x: int, w: int, p: nat)
    requires p > 0 && Cong(sum, dot, p) && Cong(x, w, p)
    ensures Cong(Mod(sum + Mod(q * x, p), p), dot + q * w, p)
  {
    hide Mod;
    CongScale(q, x, w, p);
    ModCong(q * x, p);
    CongAdd(sum, dot, Mod(q * x, p), q * w, p);
    ModCong(sum + Mod(q * x, p), p);
  }

  /** w * (-sum / z) = -sum when w = z. */
  lemma FinalEntryCong(sum: int, z: int, w: int, p: nat)
    requires IsPrime(p) && Cong(w, z, p) && !Cong(z, 0, p)
    ensures Cong(sum + w * Mod(Mod(-sum, p) * Inv(z, p), p), 0, p)
  {
    hide Mod, Inv, IsPrime, Cong;
    PrimeSize(p);
    var u, g := Inv(z, p), Mod(-sum, p);
    var q := Mod(g * u, p);
    ModCong(-sum, p);
    CongScale(u, g, -sum, p);
    ModCong(g * u, p);
    assert u * g == g * u;
    CongTrans(q, u * g, u * -sum, p);
    CongMul(w, z, q, u * -sum, p);
    InverseLaw(z, p);
    CongScale(-sum, z * u, 1, p);
    QuotientRegroup(z, u, -sum);
    CongTrans(w * q, -sum * (z * u), -sum, p);
    CongRefl(sum, p);
    CongAdd(sum, sum, w * q, -sum, p);
  }

  /** The entries computed before the last one: all but entry m, which is still zero. */
  ghost predicate AllBut(f: seq<int>, q: seq<int>, w: int, z: int, m: nat, p: nat)
    requires p > 0
  {
    m < |f| == |q| && q[m] == 0 && Reduced(q, p) &&
    forall k :: 0 <= k < |f| && k != m ==> Cong((Pow(w, k) - z) * q[k], f[k] - f[m], p)
  }

  /** Setting entry m leaves the others, and entry m multiplies a zero difference. */
  lemma SetLastValues(f: seq<int>, q: seq<int>, e: int, w: int, z: int, m: nat, p: nat)
    requires p > 0 && AllBut(f, q, w, z, m, p) && Cong(Pow(w, m), z, p) && 0 <= e < p
    ensures QuotientValues(f, q[m := e], w, z, f[m], p)
  {
    hide Mod, Pow;
    var x := Pow(w, m);
    CongDiff(x, z, p);
    CongScale(e, x - z, 0, p);
    assert e * (x - z) == (x - z) * e && f[m] - f[m] == 0;
  }

  /** Setting entry m makes the weighted sum of all entries vanish. */
  lemma SetLastEntry(f: seq<int>, q: seq<int>, sum: int, w: int, v: int, z: int, m: nat, p: nat)
    requires IsPrime(p) && AllBut(f, q, w, z, m, p) && Cong(sum, Eval(q, w), p)
    requires Cong(Pow(w, m), z, p) && Cong(w * v, 1, p)
    ensures var r := q[m := Mod(Mod(-sum, p) * Inv(z, p), p)];
      QuotientValues(f, r, w, z, f[m], p) && Cong(Eval(r, w), 0, p)
  {
    hide Mod, Pow, Inv, Eval, IsPrime, QuotientValues;
    PrimeSize(p);
    var x := Pow(w, m);
    var e := Mod(Mod(-sum, p) * Inv(z, p), p);
    NonzeroPower(w, v, m, p);
    FinalEntryCong(sum, z, x, p);
    EvalDiffersAt(q[m := e], q, w, m);
    CongRefl(x * e, p);
    CongAdd(sum, Eval(q, w), x * e, x * e, p);
    SetLastValues(f, q, e, w, z, m, p);
  }

  /** Taking entry i into the sum; position m contributes nothing while it holds zero. */
  lemma SumEntry(q: seq<int>, i: nat, sum: int, x: int, w: int, p: nat)
    requires p > 0 && i < |q| && Cong(sum, Dot(q[..i], Powers(w, i)), p) && Cong(x, Pow(w, i), p)
    ensures Cong(Mod(sum + Mod(q[i] * x, p), p), Dot(q[..i + 1], Powers(w, i + 1)), p)
    ensures q[i] == 0 ==> Cong(sum, Dot(q[..i + 1], Powers(w, i + 1)), p)
  {
    hide Mod, Pow, Dot;
    assert q[..i + 1] == q[..i] + [q[i]];
    assert Powers(w, i + 1) == Powers(w, i) + [Pow(w, i)];
    DotSnoc(q[..i], Powers(w, i), q[i], Pow(w, i));
    SumTermCong(sum, Dot(q[..i], Powers(w, i)), q[i], x, Pow(w, i), p);
    assert q[i] == 0 ==> q[i] * Pow(w, i) == 0;
  }

  /** The quotient values when z is domain point m: entry m is set last, from the sum of the others. */
  method QuotientInsideDomain(evals: seq<int>, domain: array<int>, m: nat, z: nat, d: Field) returns (q: array<int>)
    requires d.Valid() && |evals| == domain.Length == d.n && m < d.n && domain[m] == z
    requires forall i :: 0 <= i < d.n ==> 0 <= domain[i] < d.p && Cong(domain[i], Pow(d.omega, i), d.p)
    ensures fresh(q) && QuotientValues(evals, q[..], d.omega, z, evals[m], d.p)
    ensures Cong(Eval(q[..], d.omega), 0, d.p)
  {
    hide Mod, Pow, TwoPow, Inv, Dot, Eval, RootPair, QuotientValues, IsPowerOfTwo;
    FieldLaws(d);
    var p, y := d.p, evals[m];
    q := new int[d.n](_ => 0);
    var sum := 0;
    ghost var v := Inv(d.omega, p);
    RootPairSize(d.omega, v, d.n, p);
    EmptyDot();
    CongRefl(0, p);
    for i := 0 to d.n
      invariant forall k :: 0 <= k < d.n ==> 0 <= q[k] < p
      invariant forall k :: 0 <= k < i && k != m ==> Cong((Pow(d.omega, k) - z) * q[k], evals[k] - y, p)
      invariant q[m] == 0
      invariant Cong(sum, Dot(q[..i], Powers(d.omega, i)), p)
    {
      ghost var before := q[..i];
      if i != m {
        DifferentDomainPoints(domain, i, m, d);
        QuotientCong(domain[i], Pow(d.omega, i), z, evals[i], y, p);
        q[i] := Mod(Mod(evals[i] - y, p) * Inv(Mod(domain[i] - z, p), p), p);
        assert q[..i] == before;
        SumEntry(q[..], i, sum, domain[i], d.omega, p);
        sum := Mod(sum + Mod(q[i] * domain[i], p), p);
      } else {
        SumEntry(q[..], i, sum, domain[i], d.omega, p);
      }
      assert q[..][..i + 1] == q[..i + 1];
    }
    EvalIsDot(q[..], d.omega);
    assert q[..d.n] == q[..];
    SetLastEntry(evals, q[..], sum, d.omega, v, z, m, p);
    ghost var before := q[..];
    q[m] := Mod(Mod(-sum, p) * Inv(z, p), p);
    assert q[..] == before[m := q[m]];
  }

  lemma DifferentDomainPoints(domain: array<int>, i: nat, m: nat, d: Field)
    requires d.Valid() && domain.Length == d.n && i < d.n && m < d.n && i != m
    requires forall k :: 0 <= k < d.n ==> 0 <= domain[k] < d.p && Cong(domain[k], Pow(d.omega, k), d.p)
    ensures !Cong(domain[i] - domain[m], 0, d.p)
  {
    hide Mod, Pow, TwoPow, Inv;
    FieldLaws(d);
    DistinctPoints(d.omega, Inv(d.omega, d.p), i, m, d.n, d.p);
    CongDiff(domain[i], domain[m], d.p);
  }

  /** The branch for a setup of Lagrange points. */
  method ProveLagrange(ctx: Context, evals: seq<int>, z: nat, d: Field, ghost tau: int)
      returns (r: Result<(nat, nat)>)
    requires d.Valid() && |evals| == d.n && Reduced(evals, d.p) && !ctx.monomial && z < d.p
    ensures r.Ok?
    ensures Setup(ctx, tau, d) ==> var c := Coefficients(evals, d);
      r.value == (ProofExponent(c, z, tau, d.p), ClaimedValue(c, z, d.p))
  {
    hide Mod, Pow, TwoPow, Inv, Dot, Eval, Idft, RootPair, PlainQuotient, QuotientValues, Tails;
    FieldLaws(d);
    ghost var v := Inv(d.omega, d.p);
    ghost var c := Coefficients(evals, d);
    var domain := DomainPoints(d);
    var k := FindInDomain(domain, z);
    var y: nat, q: array<int>;
    if k < domain.Length {
      y := evals[k];
      q := QuotientInsideDomain(evals, domain, k, z, d);
      Interpolates(evals, d.omega, v, k, d.p);
      EvalCongAt(c, Pow(d.omega, k), z, d.p);
      CongOfReduced(Eval(c, z), y, d.p);
      QuotientValuesCong(evals, q[..], d.omega, z, y, Eval(c, z), d.p);
      QuotientInside(evals, q[..], d.omega, v, z, k, d.p);
    } else {
      y := Barycentric(evals, domain, z, d);
      q := QuotientOutsideDomain(evals, domain, z, y, d);
      ModCong(Eval(c, z), d.p);
      QuotientValuesCong(evals, q[..], d.omega, z, y, Eval(c, z), d.p);
      assert OutsideDomain(d.omega, z, d.n, d.p) by {
        forall i | 0 <= i < d.n ensures !Cong(z, Pow(d.omega, i), d.p) {
          DifferentPoints(domain[i], z, d.p);
        }
      }
      QuotientOutside(evals, q[..], d.omega, v, z, d.p);
    }
    var acc := CommitValues(ctx.g1, q[..], d.p);
    if Setup(ctx, tau, d) {
      assert q[..][..d.n] == q[..] && ctx.g1[..d.n] == ctx.g1;
      QuotientCommits(evals, ctx.g1, tau, d.omega, v, z, d.p);
    }
    return Ok((Mod(acc, d.p), y));
  }

  lemma QuotientValuesCong(f: seq<int>, q: seq<int>, w: int, z: int, y: int, y2: int, p: nat)
    requires p > 0 && QuotientValues(f, q, w, z, y, p) && Cong(y, y2, p)
    ensures QuotientValues(f, q, w, z, y2, p)
  {
    hide Mod, Pow;
    forall k | 0 <= k < |f| ensures Cong((Pow(w, k) - z) * q[k], f[k] - y2, p) {
      CongRefl(f[k], p);
      CongAdd(f[k], f[k], y, y2, p);
    }
  }
}
