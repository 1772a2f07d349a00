/** The commitment context: committing to a blob, opening it at a point in coefficient form or in
    evaluation form, and checking an opening. Curve points are their exponents modulo p with respect
    to a fixed generator, and a pairing multiplies exponents. */
module Kzg {
  import opened Residue
  import opened Poly
  import opened Prime
  import opened BitReverse
  import opened Bytes
  import opened Groups
  import opened Pippenger
  import opened Fft
  import opened Domain
  import opened Ifft
  import opened Opening

  datatype Result<T> = Ok(value: T) | Err(error: KzgError)

  /** The scalar field and the evaluation domain: n points, the powers of omega. */
  datatype Field = Field(p: nat, n: nat, omega: nat) {
    ghost predicate Valid() {
      IsPrime(p) && p <= TwoPow(256) && IsPowerOfTwo(n) && 2 <= n < p && n <= TwoPow(64) &&
      omega < p && Cong(Pow(omega, n / 2), -1, p)
    }
  }

  /** The points of a trusted setup, and what loading it found out about them. */
  datatype Context = Context(g1: seq<int>, g2: seq<int>, generator: int, monomial: bool)

  /** A group whose elements are exponents: adding exponents multiplies points. */
  function Exponents(): Group<int> {
    Group(0, (a: int, b: int) => a + b)
  }

  lemma ExponentsAbelian()
    ensures Abelian(Exponents())
  {
    forall a, b, c ensures LawsAt(Exponents(), a, b, c) {
    }
  }

  function Pairing(a: int, b: int, p: nat): nat
    requires p > 0
  {
    Mod(a * b, p)
  }

  lemma {:induction false} TimesExponent(k: nat, x: int)
    ensures Times(Exponents(), k, x) == k * x
  {
    if k != 0 {
      TimesExponent(k - 1, x);
      assert (k - 1) * x == k * x - x;
    }
  }

  lemma {:induction false} MsmIsDot(points: seq<int>, scalars: seq<nat>)
    requires |points| == |scalars|
    ensures Msm(Exponents(), points, scalars) == Dot(scalars, points)
  {
    if points != [] {
      var n := |points| - 1;
      MsmIsDot(points[..n], scalars[..n]);
      TimesExponent(scalars[n], points[n]);
    }
  }

  // ----- scalars as bytes -----

  /** One 32-byte big-endian chunk: canonical values are taken as they are, others reduced. */
  function ScalarOf(chunk: seq<byte>, p: nat): (s: nat)
    requires p > 0
    ensures s == Mod(BeValue(chunk), p)
  {
    var v := BeValue(chunk);
    if v < p then v else Mod(v, p)
  }

  ghost function ScalarsOf(bytes: seq<byte>, p: nat): (s: seq<int>)
    requires p > 0 && |bytes| % 32 == 0
    ensures |s| == |bytes| / 32 && Reduced(s, p)
  {
    seq(|bytes| / 32, i requires 0 <= i < |bytes| / 32 => ScalarOf(bytes[32 * i..32 * i + 32], p))
  }

  /** bytes_to_scalars */
  method BytesToScalars(bytes: seq<byte>, p: nat) returns (scalars: array<int>)
    requires p > 0 && |bytes| % 32 == 0
    ensures scalars[..] == ScalarsOf(bytes, p) && fresh(scalars)
  {
    scalars := new int[|bytes| / 32](_ => 0);
    for i := 0 to scalars.Length
      invariant forall k :: 0 <= k < i ==> scalars[k] == ScalarOf(bytes[32 * k..32 * k + 32], p)
    {
      scalars[i] := ScalarOf(bytes[32 * i..32 * i + 32], p);
    }
  }

  function ScalarToBytes(s: nat): (b: seq<byte>)
    ensures |b| == 32
  {
    Reversed(LeBytes(s, 32))
  }

  lemma ScalarBytesValue(s: nat, p: nat)
    requires s < p <= TwoPow(256)
    ensures BeValue(ScalarToBytes(s)) == s
  {
    LeRoundTrip(s, 32);
    ReversedValue(LeBytes(s, 32));
  }

  /** parse_scalar: only canonical encodings are accepted. */
  function ParseScalar(bytes: seq<byte>, p: nat): (r: Result<nat>)
    ensures r.Ok? ==> r.value < p
  {
    if |bytes| != 32 then Err(InvalidDataLength)
    else if BeValue(bytes) < p then Ok(BeValue(bytes))
    else Err(Internal)
  }

  // ----- the setup -----

  /** load_from_reader after the points are parsed. */
  method LoadContext(g1: seq<int>, g2: seq<int>, p: nat) returns (r: Result<Context>)
    requires p > 0
    ensures r.Ok? <==> |g1| >= 2 && |g2| >= 2
    ensures r.Ok? ==> r.value.g1 == g1 && r.value.g2 == g2
    ensures r.Ok? ==> (r.value.monomial <==> Cong(g1[1] * g2[0], g1[0] * g2[1], p))
    ensures r.Ok? ==> r.value.generator == if r.value.monomial then g1[0] else Sum(g1)
  {
    if |g1| < 2 || |g2| < 2 {
      return Err(Internal);
    }
    var monomial := Pairing(g1[1], g2[0], p) == Pairing(g1[0], g2[1], p);
    var generator := g1[0];
    if !monomial {
      generator := 0;
      for i := 0 to |g1|
        invariant generator == Sum(g1[..i])
      {
        SumStep(g1, i);
        generator := generator + g1[i];
      }
      assert g1[..|g1|] == g1;
    }
    return Ok(Context(g1, g2, generator, monomial));
  }

  /** The setup for secret tau: powers of tau, or the Lagrange polynomials of the domain at tau. */
  ghost predicate SetupPoints(g1: seq<int>, g2: seq<int>, monomial: bool, tau: int, d: Field)
    requires d.p >= 2
  {
    |g1| >= 2 && |g2| >= 2 && Cong(g2[1], tau * g2[0], d.p) &&
    if monomial then |g1| >= d.n && SeqCong(g1, Powers(tau, |g1|), d.p)
    else LagrangePoints(g1, tau, Inv(d.omega, d.p), d.n, d.p)
  }

  ghost predicate Setup(ctx: Context, tau: int, d: Field)
    requires d.p >= 2
  {
    SetupPoints(ctx.g1, ctx.g2, ctx.monomial, tau, d) && Cong(ctx.generator, 1, d.p)
  }

  lemma FieldLaws(d: Field)
    requires d.Valid()
    ensures RootPair(d.omega, Inv(d.omega, d.p), d.n, d.p) && !Cong(d.n, 0, d.p) && !Cong(d.omega, 0, d.p)
  {
    hide Pow, Inv;
    if Cong(d.omega, 0, d.p) {
      ZeroPower(d.omega, d.n / 2, d.p);
    } else {
      InverseLaw(d.omega, d.p);
    }
  }

  lemma ZeroPower(x: int, n: nat, p: nat)
    requires p >= 2 && n > 0 && Cong(x, 0, p)
    ensures !Cong(Pow(x, n), -1, p)
  {
    CongScale(Pow(x, n - 1), x, 0, p);
    assert Pow(x, n) == Pow(x, n - 1) * x && Pow(x, n - 1) * 0 == 0;
    assert Mod(-1, p) == p - 1;
  }

  /** The coefficients of the blob polynomial. */
  ghost function Coefficients(evals: seq<int>, d: Field): (c: seq<int>)
    requires d.p >= 2
    ensures |c| == |evals| && Reduced(c, d.p)
  {
    Idft(evals, Inv(d.omega, d.p), d.p)
  }

  /** The scalars of a blob of n field elements. */
  ghost function BlobValues(blob: seq<byte>, d: Field): (f: seq<int>)
    requires d.p > 0 && |blob| == 32 * d.n
    ensures |f| == d.n && Reduced(f, d.p)
  {
    ScalarsOf(blob, d.p)
  }

  /** The coefficients of the polynomial a blob stands for. */
  ghost function BlobPolynomial(blob: seq<byte>, d: Field): (c: seq<int>)
    requires d.p >= 2 && |blob| == 32 * d.n
    ensures |c| == d.n && Reduced(c, d.p)
  {
    Coefficients(BlobValues(blob, d), d)
  }

  // ----- committing -----

  /** Collecting the non-zero coefficients that have a setup point, and their combination. */
  method CommitCoefficients(g1: seq<int>, coeffs: seq<int>, p: nat) returns (acc: int)
    requires 0 < p <= TwoPow(256) && Reduced(coeffs, p)
    ensures var m := if |coeffs| < |g1| then |coeffs| else |g1|;
      acc == Dot(coeffs[..m], g1[..m])
  {
    hide Mod, TwoPow, Dot;
    var points: seq<int>, scalars: seq<seq<byte>>, i := [], [], 0;
    ghost var used: seq<nat> := [];
    ghost var m := if |coeffs| < |g1| then |coeffs| else |g1|;
    EmptyDot();
    while i < |coeffs| && i < |g1|
      invariant 0 <= i <= m
      invariant |points| == |scalars| == |used|
      invariant forall k :: 0 <= k < |scalars| ==> |scalars[k]| == 32 && LeValue(scalars[k]) == used[k]
      invariant Dot(used, points) == Dot(coeffs[..i], g1[..i])
    {
      DotStep(coeffs[..m], g1[..m], i);
      assert coeffs[..m][..i] == coeffs[..i] && g1[..m][..i] == g1[..i];
      assert coeffs[..m][..i + 1] == coeffs[..i + 1] && g1[..m][..i + 1] == g1[..i + 1];
      if coeffs[i] != 0 {
        LeRoundTrip(coeffs[i], 32);
        DotSnoc(used, points, coeffs[i], g1[i]);
        points := points + [g1[i]];
        scalars := scalars + [LeBytes(coeffs[i], 32)];
        used := used + [coeffs[i]];
      }
      i := i + 1;
    }
    if points == [] {
      return 0;
    }
    ExponentsAbelian();
    acc := MsmPippenger(Exponents(), points, scalars);
    assert points[..|points|] == points && scalars[..|points|] == scalars;
    assert Values(scalars) == used;
    MsmIsDot(points, used);
  }

  lemma EmptyDot()
    ensures Dot([], []) == 0
  {
  }

  lemma DotSnoc(a: seq<int>, b: seq<int>, x: int, y: int)
    requires |a| == |b|
    ensures Dot(a + [x], b + [y]) == Dot(a, b) + x * y
  {
    assert (a + [x])[..|a|] == a && (b + [y])[..|b|] == b;
  }

  /** The combination of all values with all points, as `msm_pippenger_g1` computes it. */
  method CommitValues(g1: seq<int>, values: seq<int>, p: nat) returns (acc: int)
    requires 0 < p <= TwoPow(256) && Reduced(values, p)
    ensures var m := if |values| < |g1| then |values| else |g1|;
      acc == Dot(values[..m], g1[..m])
  {
    hide Mod, TwoPow, Dot;
    var scalars := seq(|values|, i requires 0 <= i < |values| => LeBytes(values[i], 32));
    ghost var m := if |values| < |g1| then |values| else |g1|;
    ExponentsAbelian();
    acc := MsmPippenger(Exponents(), g1, scalars);
    forall i | 0 <= i < m ensures Values(scalars[..m])[i] == values[i] {
      LeRoundTrip(values[i], 32);
    }
    ghost var used: seq<nat> := Values(scalars[..m]);
    assert used == values[..m];
    MsmIsDot(g1[..m], used);
  }

  /** Powers of tau evaluate the coefficients at tau. */
  lemma MonomialCommits(g1: seq<int>, c: seq<int>, tau: int, p: nat)
    requires p > 0 && |c| <= |g1| && SeqCong(g1, Powers(tau, |g1|), p)
    ensures Cong(Dot(c, g1[..|c|]), Eval(c, tau), p)
  {
    hide Mod, Pow, Dot, Eval;
    EvalIsDot(c, tau);
    SeqCongRefl(c, p);
    forall i | 0 <= i < |c| ensures Cong(g1[..|c|][i], Powers(tau, |c|)[i], p) {
    }
    DotCong(c, g1[..|c|], c, Powers(tau, |c|), p);
  }

  /** With either kind of setup the combination is the value of the polynomial at the secret. */
  lemma SetupCommits(ctx: Context, f: seq<int>, tau: int, d: Field)
    requires d.Valid() && Setup(ctx, tau, d) && |f| == d.n
    ensures |ctx.g1| >= d.n
    ensures var c := Coefficients(f, d);
      Mod(Dot(if ctx.monomial then c else f, ctx.g1[..d.n]), d.p) == Mod(Eval(c, tau), d.p)
  {
    hide Mod, Pow, TwoPow, Dot, Eval, Inv, Dft, Idft;
    FieldLaws(d);
    if ctx.monomial {
      MonomialCommits(ctx.g1, Coefficients(f, d), tau, d.p);
    } else {
      assert ctx.g1[..d.n] == ctx.g1;
      LagrangeCommits(f, ctx.g1, tau, Inv(d.omega, d.p), d.p);
    }
  }

  /** The combination for the scalars of a blob: of its coefficients with a setup of powers, of the values
      themselves with a Lagrange setup. */
  method CommitEvaluations(ctx: Context, evals: array<int>, d: Field) returns (acc: int)
    requires d.Valid() && evals.Length == d.n && Reduced(evals[..], d.p)
    modifies evals
    ensures var f := old(evals[..]);
      |ctx.g1| >= d.n ==> acc == Dot(if ctx.monomial then Coefficients(f, d) else f, ctx.g1[..d.n])
  {
    hide Mod, Pow, TwoPow, Dot, Eval, Inv, Dft, Idft, RootPair;
    FieldLaws(d);
    if ctx.monomial {
      var out := IfftInPlace(evals, d.omega, d.n, d.p);
      acc := CommitCoefficients(ctx.g1, evals[..], d.p);
    } else {
      acc := CommitValues(ctx.g1, evals[..], d.p);
    }
    assert evals[..d.n] == evals[..];
  }

  /** blob_to_commitment: with either kind of setup, the value of the interpolated polynomial at the
      secret. */
  method BlobToCommitment(ctx: Context, blob: seq<byte>, d: Field, ghost tau: int) returns (r: Result<nat>)
    requires d.Valid()
    ensures r.Ok? <==> |blob| == 32 * d.n
    ensures r.Err? ==> r.error == InvalidDataLength
    ensures r.Ok? && Setup(ctx, tau, d) ==>
      r.value == Mod(Eval(BlobPolynomial(blob, d), tau), d.p)
  {
    hide Mod, Pow, TwoPow, Dot, Eval, Cong, Setup, IsPrime, IsPowerOfTwo, Coefficients, ScalarsOf;
    PrimeSize(d.p);
    if |blob| != 32 * d.n {
      return Err(InvalidDataLength);
    }
    if forall i :: 0 <= i < |blob| ==> blob[i] == 0 {
      ZeroBlob(blob, d, tau);
      return Ok(0);
    }
    if Setup(ctx, tau, d) {
      SetupCommits(ctx, BlobValues(blob, d), tau, d);
    }
    var evals := BytesToScalars(blob, d.p);
    var acc := CommitEvaluations(ctx, evals, d);
    return Ok(Mod(acc, d.p));
  }

  lemma {:induction false} ZeroBytes(b: seq<byte>)
    requires forall i :: 0 <= i < |b| ==> b[i] == 0
    ensures BeValue(b) == 0
  {
    if b != [] { ZeroBytes(b[..|b| - 1]); }
  }

  lemma ZeroIdft(f: seq<int>, v: int, j: nat, p: nat)
    requires p >= 2 && j < |f| && forall i :: 0 <= i < |f| ==> f[i] == 0
    ensures Cong(Idft(f, v, p)[j], 0, p)
  {
    hide Pow, Inv, Eval;
    EvalAllZero(f, Pow(v, j), p);
    assert Dft(f, v, p)[j] == 0;
    assert 0 * Inv(|f|, p) == 0;
  }

  /** The all-zero blob is the zero polynomial. */
  lemma ZeroBlob(blob: seq<byte>, d: Field, tau: int)
    requires d.Valid() && |blob| == 32 * d.n && forall i :: 0 <= i < |blob| ==> blob[i] == 0
    ensures Mod(Eval(BlobPolynomial(blob, d), tau), d.p) == 0
  {
    hide Pow, TwoPow, Inv, Eval, Idft;
    PrimeSize(d.p);
    var f := BlobValues(blob, d);
    var v := Inv(d.omega, d.p);
    forall i | 0 <= i < d.n ensures f[i] == 0 {
      ZeroBytes(blob[32 * i..32 * i + 32]);
    }
    forall j | 0 <= j < d.n ensures Cong(Idft(f, v, d.p)[j], 0, d.p) {
      ZeroIdft(f, v, j, d.p);
    }
    EvalAllZero(Idft(f, v, d.p), tau, d.p);
  }
}
