/** The whole commitment scheme: every honest opening is accepted, a false one reveals the secret,
    and the manifest built on top of it proves every root it holds. */
module KzgScheme {
  import opened Residue
  import opened Poly
  import opened Prime
  import opened BitReverse
  import opened Bytes
  import opened Division
  import opened Fft
  import opened Domain
  import opened Ifft
  import opened Opening
  import opened Kzg
  import opened KzgProof

  /** compute_proof */
  method ComputeProof(ctx: Context, blob: seq<byte>, zBytes: seq<byte>, d: Field, ghost tau: int)
      returns (r: Result<(nat, seq<byte>)>)
    requires d.Valid()
    ensures r.Ok? <==> |blob| == 32 * d.n && |zBytes| == 32 && BeValue(zBytes) < d.p
    ensures r.Err? ==> r.error == if |blob| != 32 * d.n || |zBytes| != 32 then InvalidDataLength else Internal
    ensures r.Ok? && Setup(ctx, tau, d) ==>
      var c := BlobPolynomial(blob, d);
      r.value == (ProofExponent(c, BeValue(zBytes), tau, d.p), ScalarToBytes(ClaimedValue(c, BeValue(zBytes), d.p)))
  {
    hide Mod, Pow, TwoPow, Inv, Eval, Idft, Tails, BeValue, Cong, Setup, Coefficients, ScalarsOf,
         ProofExponent, ClaimedValue;
    if |blob| != 32 * d.n || |zBytes| != 32 {
      return Err(InvalidDataLength);
    }
    var z := ParseScalar(zBytes, d.p);
    if z.Err? {
      return Err(z.error);
    }
    var evals := BytesToScalars(blob, d.p);
    var opening: Result<(nat, nat)>;
    if ctx.monomial {
      opening := ProveMonomial(ctx, evals, z.value, d, tau);
    } else {
      opening := ProveLagrange(ctx, evals[..], z.value, d, tau);
    }
    return Ok((opening.value.0, ScalarToBytes(opening.value.1)));
  }

  /** verify_proof: e(proof, s*h - z*h) against e(C - y*g, h). */
  function VerifyProof(ctx: Context, commitment: int, zBytes: seq<byte>, yBytes: seq<byte>, proof: int, p: nat)
      : (r: Result<bool>)
    requires p > 0
  {
    if |ctx.g2| < 2 then Err(Internal)
    else
      var z, y := ParseScalar(zBytes, p), ParseScalar(yBytes, p);
      if z.Err? then Err(z.error)
      else if y.Err? then Err(y.error)
      else Ok(Accepts(ctx, commitment, z.value, y.value, proof, p))
  }

  predicate Accepts(ctx: Context, commitment: int, z: nat, y: nat, proof: int, p: nat)
    requires p > 0 && |ctx.g2| >= 2
  {
    Pairing(proof, ctx.g2[1] - z * ctx.g2[0], p) == Pairing(commitment - y * ctx.generator, ctx.g2[0], p)
  }

  /** The check compares proof * (tau - z) with C - y, scaled by the base of the second group. */
  lemma AcceptsMeaning(ctx: Context, commitment: int, z: nat, y: nat, proof: int, tau: int, d: Field)
    requires d.p >= 2 && Setup(ctx, tau, d)
    ensures Accepts(ctx, commitment, z, y, proof, d.p) <==>
      Cong(proof * (tau - z) * ctx.g2[0], (commitment - y) * ctx.g2[0], d.p)
  {
    hide Mod, LagrangePoints, Powers;
    var p, h := d.p, ctx.g2[0];
    CongRefl(z * h, p);
    CongAdd(ctx.g2[1], tau * h, z * h, z * h, p);
    CongScale(proof, ctx.g2[1] - z * h, tau * h - z * h, p);
    CongScale(y, ctx.generator, 1, p);
    CongRefl(commitment, p);
    CongAdd(commitment, commitment, y * ctx.generator, y * 1, p);
    CongScale(h, commitment - y * ctx.generator, commitment - y, p);
    MeaningStep(proof, tau, z, h);
    assert h * (commitment - y * ctx.generator) == (commitment - y * ctx.generator) * h;
    assert h * (commitment - y) == (commitment - y) * h;
  }

  lemma MeaningStep(proof: int, tau: int, z: int, h: int)
    ensures proof * (tau * h - z * h) == proof * (tau - z) * h
  {
    assert tau * h - z * h == (tau - z) * h;
  }

  lemma OpeningIdentity(q: int, q1: int, c: int, c1: int, y: int, y1: int, t: int, h: int, p: nat)
    requires p > 0 && Cong(q1, q, p) && Cong(c1, c, p) && Cong(y1, y, p) && c == t * q + y
    ensures Cong(q1 * t * h, (c1 - y1) * h, p)
  {
    hide Mod, Cong;
    CongAdd(c1, c, y1, y, p);
    CongScale(t, q1, q, p);
    CongSym(c1 - y1, c - y, p);
    CongTrans(t * q1, c - y, c1 - y1, p);
    CongScale(h, t * q1, c1 - y1, p);
    assert h * (t * q1) == q1 * t * h && h * (c1 - y1) == (c1 - y1) * h;
  }

  /** Every honestly computed opening is accepted, at every point. */
  lemma Completeness(ctx: Context, c: seq<int>, zBytes: seq<byte>, tau: int, d: Field)
    requires d.Valid() && Setup(ctx, tau, d) && c != []
    requires |zBytes| == 32 && BeValue(zBytes) < d.p
    ensures var z := BeValue(zBytes);
      VerifyProof(ctx, Mod(Eval(c, tau), d.p), zBytes, ScalarToBytes(ClaimedValue(c, z, d.p)),
                  ProofExponent(c, z, tau, d.p), d.p) == Ok(true)
  {
    hide Mod, Eval, Tails, Pow, BeValue, LagrangePoints, Powers, Accepts;
    var p, z := d.p, BeValue(zBytes);
    var y, q := Eval(c, z), Eval(Tails(c[1..], z), tau);
    ScalarBytesValue(Mod(y, p), p);
    AcceptsMeaning(ctx, Mod(Eval(c, tau), p), z, Mod(y, p), Mod(q, p), tau, d);
    SyntheticDivision(c, z, tau);
    ModCong(Eval(c, tau), p);
    ModCong(y, p);
    ModCong(q, p);
    OpeningIdentity(q, Mod(q, p), Eval(c, tau), Mod(Eval(c, tau), p), y, Mod(y, p), tau - z, ctx.g2[0], p);
  }

  /** Committing, opening and checking, as one run of the programs. */
  method CommitOpenVerify(ctx: Context, blob: seq<byte>, zBytes: seq<byte>, d: Field, ghost tau: int)
      returns (accepted: Result<bool>)
    requires d.Valid() && Setup(ctx, tau, d)
    requires |blob| == 32 * d.n && |zBytes| == 32 && BeValue(zBytes) < d.p
    ensures accepted == Ok(true)
  {
    hide Mod, Eval, Tails, Pow, BeValue, LagrangePoints, Powers, Idft, VerifyProof, Cong, Setup,
         Coefficients, ScalarsOf;
    var commitment := BlobToCommitment(ctx, blob, d, tau);
    var opening := ComputeProof(ctx, blob, zBytes, d, tau);
    Completeness(ctx, BlobPolynomial(blob, d), zBytes, tau, d);
    accepted := VerifyProof(ctx, commitment.value, zBytes, opening.value.1, opening.value.0, d.p);
  }

  /** Two accepted values for one commitment at one point give the secret away. */
  lemma TwoValuesRevealSecret(
      ctx: Context, commitment: int, z: nat, y1: nat, proof1: int, y2: nat, proof2: int, tau: int, d: Field)
    requires d.Valid() && Setup(ctx, tau, d) && !Cong(ctx.g2[0], 0, d.p)
    requires Accepts(ctx, commitment, z, y1, proof1, d.p) && Accepts(ctx, commitment, z, y2, proof2, d.p)
    requires !Cong(y1, y2, d.p)
    ensures Cong(tau, z + (y2 - y1) * Inv(proof1 - proof2, d.p), d.p)
  {
    hide Mod, LagrangePoints, Powers, Inv, Pow, Accepts;
    var p, e := d.p, tau - z;
    AcceptsMeaning(ctx, commitment, z, y1, proof1, tau, d);
    AcceptsMeaning(ctx, commitment, z, y2, proof2, tau, d);
    DifferentProofs(proof1, proof2, commitment, y1, y2, e, ctx.g2[0], p);
    DivideBy(proof1 - proof2, y2 - y1, e, p);
    CongRefl(z, p);
    CongAdd(z, z, (y2 - y1) * Inv(proof1 - proof2, p), e, p);
  }

  lemma DifferentProofs(a1: int, a2: int, c: int, y1: int, y2: int, e: int, h: int, p: nat)
    requires IsPrime(p) && !Cong(h, 0, p) && !Cong(y1, y2, p)
    requires Cong(a1 * e * h, (c - y1) * h, p) && Cong(a2 * e * h, (c - y2) * h, p)
    ensures !Cong(a1 - a2, 0, p) && Cong((a1 - a2) * e, y2 - y1, p)
  {
    hide Mod, Cong, IsPrime;
    PrimeSize(p);
    CancelRight(a1 * e, c - y1, h, p);
    CancelRight(a2 * e, c - y2, h, p);
    CongAdd(a1 * e, c - y1, a2 * e, c - y2, p);
    var a := a1 - a2;
    assert a1 * e - a2 * e == a * e && (c - y1) - (c - y2) == y2 - y1;
    if Cong(a, 0, p) {
      CongScale(e, a, 0, p);
      assert e * a == a * e && e * 0 == 0;
      CongSym(a * e, y2 - y1, p);
      CongTrans(y2 - y1, a * e, 0, p);
      CongDiff(y2, y1, p);
      CongSym(y2, y1, p);
    }
  }

  lemma CancelRight(a: int, b: int, h: int, p: nat)
    requires IsPrime(p) && !Cong(h, 0, p) && Cong(a * h, b * h, p)
    ensures Cong(a, b, p)
  {
    assert a * h == h * a && b * h == h * b;
    Cancel(h, a, b, p);
  }

  /** A proof is accepted for one value of a commitment at a point, and no other. */
  lemma OneProofOneValue(ctx: Context, commitment: int, z: nat, y1: nat, y2: nat, proof: int, tau: int, d: Field)
    requires d.Valid() && Setup(ctx, tau, d) && !Cong(ctx.g2[0], 0, d.p) && y1 < d.p && y2 < d.p
    requires Accepts(ctx, commitment, z, y1, proof, d.p) && Accepts(ctx, commitment, z, y2, proof, d.p)
    ensures y1 == y2
  {
    hide Mod, LagrangePoints, Powers, Pow, Accepts, TwoPow, IsPowerOfTwo;
    if y1 != y2 {
      DifferentPoints(y1, y2, d.p);
      AcceptsMeaning(ctx, commitment, z, y1, proof, tau, d);
      AcceptsMeaning(ctx, commitment, z, y2, proof, tau, d);
      DifferentProofs(proof, proof, commitment, y1, y2, tau - z, ctx.g2[0], d.p);
      CongRefl(0, d.p);
    }
  }

  /** The honest value and proof are accepted. */
  lemma HonestAccepts(ctx: Context, c: seq<int>, z: nat, tau: int, d: Field)
    requires d.Valid() && Setup(ctx, tau, d) && c != [] && z < d.p
    ensures |ctx.g2| >= 2 && ClaimedValue(c, z, d.p) < d.p
    ensures Accepts(ctx, Mod(Eval(c, tau), d.p), z, ClaimedValue(c, z, d.p), ProofExponent(c, z, tau, d.p), d.p)
  {
    hide Mod, Eval, Tails, Pow, LagrangePoints, Powers, BeValue, Accepts;
    ScalarBytesValue(z, d.p);
    ScalarBytesValue(ClaimedValue(c, z, d.p), d.p);
    Completeness(ctx, c, ScalarToBytes(z), tau, d);
  }

  /** So an accepted value of an honest commitment is the polynomial's value, or reveals the secret. */
  lemma FalseValueRevealsSecret(ctx: Context, c: seq<int>, z: nat, y: nat, proof: int, tau: int, d: Field)
    requires d.Valid() && Setup(ctx, tau, d) && !Cong(ctx.g2[0], 0, d.p) && c != [] && z < d.p && y < d.p
    requires Accepts(ctx, Mod(Eval(c, tau), d.p), z, y, proof, d.p)
    ensures y == ClaimedValue(c, z, d.p) ||
      Cong(tau, z + (ClaimedValue(c, z, d.p) - y) * Inv(proof - ProofExponent(c, z, tau, d.p), d.p), d.p)
  {
    hide Mod, Eval, Inv, Accepts, Cong, Setup, ClaimedValue, ProofExponent, IsPrime, IsPowerOfTwo, TwoPow, Pow;
    PrimeSize(d.p);
    HonestAccepts(ctx, c, z, tau, d);
    var claimed, honest := ClaimedValue(c, z, d.p), ProofExponent(c, z, tau, d.p);
    if y != claimed {
      DifferentPoints(claimed, y, d.p);
      TwoValuesRevealSecret(ctx, Mod(Eval(c, tau), d.p), z, y, proof, claimed, honest, tau, d);
    }
  }

  // ----- what loading finds out -----

  ghost function Unit(n: nat): (s: seq<int>)
    requires n > 0
    ensures |s| == n
  {
    [1] + seq(n - 1, _ => 0)
  }

  lemma UnitEval(n: nat, x: int)
    requires n > 0
    ensures Eval(Unit(n), x) == 1
  {
    var zeros: seq<int> := seq(n - 1, _ => 0);
    assert Unit(n)[1..] == zeros;
    ZerosEval(zeros, x);
  }

  lemma {:induction false} ZerosEval(s: seq<int>, x: int)
    requires forall i :: 0 <= i < |s| ==> s[i] == 0
    ensures Eval(s, x) == 0
  {
    if s != [] { ZerosEval(s[1..], x); }
  }

  /** The Lagrange points of a setup sum to the generator. */
  lemma LagrangeGenerator(g1: seq<int>, tau: int, w: int, v: int, p: nat)
    requires IsPrime(p) && RootPair(w, v, |g1|, p) && !Cong(|g1|, 0, p) && LagrangePoints(g1, tau, v, |g1|, p)
    ensures Cong(Sum(g1), 1, p)
  {
    hide Mod, Pow, Inv, Geo, Eval, Idft, Dot, Sum, RootPair, LagrangePoints, Unit;
    var n := |g1|;
    RootPairSize(w, v, n, p);
    PrimeSize(p);
    var ones: seq<int> := seq(n, _ => 1);
    forall k | 0 <= k < n ensures Dft(Unit(n), w, p)[k] == 1 {
      UnitEval(n, Pow(w, k));
      ReducedMod(1, p);
    }
    assert Dft(Unit(n), w, p) == ones;
    RoundTripBack(Unit(n), w, v, p);
    CongRefl(tau, p);
    EvalCong(Idft(ones, v, p), Unit(n), tau, tau, p);
    UnitEval(n, tau);
    LagrangeCommits(ones, g1, tau, v, p);
    ConstantDot(1, g1);
  }

  /** Geo in closed form. */
  lemma {:induction false} GeoClosed(y: int, n: nat)
    ensures Geo(y, n) * (y - 1) == Pow(y, n) - 1
  {
    if n != 0 {
      GeoClosed(y, n - 1);
      var g := Geo(y, n - 1);
      assert (1 + y * g) * (y - 1) == (y - 1) + y * (g * (y - 1));
    }
  }

  /** Two products with equal factors on one side of two equal products. */
  lemma CrossMultiply(g0: int, g1: int, a: int, b: int, e: int, tau: int, p: nat)
    requires IsPrime(p) && !Cong(e, 0, p) && Cong(g0 * a, e, p) && Cong(g1 * b, e, p)
    ensures Cong(g1, tau * g0, p) <==> Cong(a, tau * b, p)
  {
    hide Mod, IsPrime;
    PrimeSize(p);
    // g1 * (b * a) = e * a and (tau * g0) * (b * a) = e * (tau * b)
    CongScale(a, g1 * b, e, p);
    CongScale(tau * b, g0 * a, e, p);
    var m := b * a;
    CrossStep(g0, g1, a, b, e, tau);
    if Cong(a, 0, p) { CongScale(g0, a, 0, p); }
    if Cong(b, 0, p) { CongScale(g1, b, 0, p); }
    if Cong(m, 0, p) { ZeroProduct(b, a, p); }
    if Cong(g1, tau * g0, p) {
      CongScale(m, g1, tau * g0, p);
      Cancel(e, a, tau * b, p);
    }
    if Cong(a, tau * b, p) {
      CongScale(e, a, tau * b, p);
      Cancel(m, g1, tau * g0, p);
    }
  }

  lemma CrossStep(g0: int, g1: int, a: int, b: int, e: int, tau: int)
    ensures a * (g1 * b) == (b * a) * g1 && (tau * b) * (g0 * a) == (b * a) * (tau * g0)
    ensures a * e == e * a && (tau * b) * e == e * (tau * b)
  {
    MulAssoc(a, g1, b);
    assert (b * a) * g1 == g1 * (a * b) && a * g1 * b == g1 * (a * b);
    MulSwap(tau, b, g0, a);
    MulSwap(b, a, tau, g0);
    assert (tau * g0) * (b * a) == (b * a) * (tau * g0);
  }

  /** A Lagrange setup is taken for one of powers exactly when the secret is a point of the domain other than
      its first two, or, outside the domain, a root of v*X^2 - 2*X + 1. */
  lemma LagrangeMisread(g1: seq<int>, g2: seq<int>, tau: int, d: Field)
    requires d.Valid() && SetupPoints(g1, g2, false, tau, d) && !Cong(g2[0], 0, d.p)
    ensures Cong(g1[1] * g2[0], g1[0] * g2[1], d.p) <==>
      if Cong(Pow(tau, d.n), 1, d.p) then !Cong(tau, 1, d.p) && !Cong(tau, d.omega, d.p)
      else Cong(Inv(d.omega, d.p) * tau * tau - 2 * tau + 1, 0, d.p)
  {
    hide Mod, Pow, Inv, Geo, Cong, IsPrime, LagrangePoints, RootPair, TwoPow, IsPowerOfTwo;
    FieldLaws(d);
    var p, n := d.p, d.n;
    PrimeSize(p);
    var v, u := Inv(d.omega, p), Inv(n, p);
    FirstPoints(g1, tau, v, n, p);
    InverseNonzero(n, p);
    LagrangeFlag(g1[0], g1[1], Geo(tau, n), Geo(v * tau, n), u, g2[0], g2[1], tau, p);
    GeoProducts(d.omega, v, tau, n, p);
    CongDiff(Pow(tau, n), 1, p);
    if Cong(Pow(tau, n), 1, p) {
      CongTrans(Geo(tau, n) * (tau - 1), Pow(tau, n) - 1, 0, p);
      CongTrans(Geo(v * tau, n) * (v * tau - 1), Pow(tau, n) - 1, 0, p);
      DomainMisread(d.omega, v, tau, n, p);
    } else {
      CrossMultiply(Geo(tau, n), Geo(v * tau, n), tau - 1, v * tau - 1, Pow(tau, n) - 1, tau, p);
      Quadratic(v, tau, p);
    }
  }

  /** At a point of the domain a sum of its powers is zero, except at 1. */
  lemma GeoInDomain(y: int, n: nat, p: nat)
    requires IsPrime(p) && !Cong(n, 0, p) && Cong(Geo(y, n) * (y - 1), 0, p)
    ensures Cong(Geo(y, n), 0, p) <==> !Cong(y, 1, p)
  {
    hide Mod, Geo, IsPrime;
    PrimeSize(p);
    CongDiff(y, 1, p);
    if Cong(y, 1, p) {
      GeoCong(y, 1, n, p);
      GeoOne(n);
    } else {
      ZeroProduct(Geo(y, n), y - 1, p);
    }
  }

  /** The case of a secret in the domain. */
  lemma DomainMisread(w: int, v: int, tau: int, n: nat, p: nat)
    requires IsPrime(p) && RootPair(w, v, n, p) && !Cong(n, 0, p)
    requires Cong(Geo(tau, n) * (tau - 1), 0, p) && Cong(Geo(v * tau, n) * (v * tau - 1), 0, p)
    ensures Cong(Geo(v * tau, n), tau * Geo(tau, n), p) <==> !Cong(tau, 1, p) && !Cong(tau, w, p)
  {
    hide Mod, Geo, IsPrime, Pow, RootPair;
    PrimeSize(p);
    var g0, g1 := Geo(tau, n), Geo(v * tau, n);
    GeoInDomain(tau, n, p);
    GeoInDomain(v * tau, n, p);
    SecondPoint(w, v, tau, n, p);
    if !Cong(tau, 1, p) {
      CongScale(tau, g0, 0, p);
    } else {
      CongScale(g0, tau, 1, p);
      assert g0 * tau == tau * g0;
    }
  }

  /** The quotient of the secret by omega is 1 exactly at omega, and never where the secret is 1. */
  lemma SecondPoint(w: int, v: int, tau: int, n: nat, p: nat)
    requires IsPrime(p) && RootPair(w, v, n, p) && !Cong(n, 0, p)
    ensures Cong(v * tau, 1, p) <==> Cong(tau, w, p)
    ensures !(Cong(tau, 1, p) && Cong(tau, w, p))
  {
    hide Mod, IsPrime, Pow, RootPair;
    RootPairSize(w, v, n, p);
    PrimeSize(p);
    DistinctPoints(w, v, 0, 1, n, p);
    PowNone(w);
    PowFirst(w);
    CongScale(tau, w * v, 1, p);
    assert tau * (w * v) == w * (v * tau) && w * v == v * w;
    if Cong(v * tau, 1, p) { CongScale(w, v * tau, 1, p); }
    if Cong(tau, w, p) { CongScale(v, tau, w, p); }
  }

  lemma FirstPoints(g1: seq<int>, tau: int, v: int, n: nat, p: nat)
    requires p >= 2 && n >= 2 && LagrangePoints(g1, tau, v, n, p)
    ensures Cong(g1[0], Inv(n, p) * Geo(tau, n), p) && Cong(g1[1], Inv(n, p) * Geo(v * tau, n), p)
  {
    hide Mod, Inv, Geo, Cong;
    PowNone(v);
    PowFirst(v);
    assert 1 * tau == tau;
    assert Cong(g1[0], Inv(n, p) * Geo(Pow(v, 0) * tau, n), p) && Cong(g1[1], Inv(n, p) * Geo(Pow(v, 1) * tau, n), p);
  }

  lemma InverseNonzero(x: int, p: nat)
    requires IsPrime(p) && !Cong(x, 0, p)
    ensures !Cong(Inv(x, p), 0, p)
  {
    hide Inv;
    InverseLaw(x, p);
    if Cong(Inv(x, p), 0, p) { CongScale(x, Inv(x, p), 0, p); }
  }

  /** Both sums times their denominators are tau^n - 1. */
  lemma GeoProducts(w: int, v: int, tau: int, n: nat, p: nat)
    requires p > 0 && RootPair(w, v, n, p)
    ensures Cong(Geo(tau, n) * (tau - 1), Pow(tau, n) - 1, p)
    ensures Cong(Geo(v * tau, n) * (v * tau - 1), Pow(tau, n) - 1, p)
  {
    hide Mod, Pow, Geo;
    GeoClosed(tau, n);
    GeoClosed(v * tau, n);
    RootPairSym(w, v, n, p);
    RootOrder(v, w, n, p);
    PowProduct(v, tau, n);
    CongScale(Pow(tau, n), Pow(v, n), 1, p);
    assert Pow(v, n) * Pow(tau, n) == Pow(tau, n) * Pow(v, n);
    CongAdd(Pow(v * tau, n), Pow(tau, n), 1, 1, p);
  }

  lemma Quadratic(v: int, tau: int, p: nat)
    requires p > 0
    ensures Cong(tau - 1, tau * (v * tau - 1), p) <==> Cong(v * tau * tau - 2 * tau + 1, 0, p)
  {
    hide Mod, Cong;
    var x := tau * (v * tau - 1);
    CongDiff(x, tau - 1, p);
    assert x - (tau - 1) == v * tau * tau - 2 * tau + 1;
    if Cong(tau - 1, x, p) { CongSym(tau - 1, x, p); }
    if Cong(x, tau - 1, p) { CongSym(x, tau - 1, p); }
  }

  lemma LagrangeFlag(a0: int, a1: int, y0: int, y1: int, u: int, h: int, s: int, tau: int, p: nat)
    requires IsPrime(p) && !Cong(h, 0, p) && !Cong(u, 0, p)
    requires Cong(a0, u * y0, p) && Cong(a1, u * y1, p) && Cong(s, tau * h, p)
    ensures Cong(a1 * h, a0 * s, p) <==> Cong(y1, tau * y0, p)
  {
    hide Mod, IsPrime;
    PrimeSize(p);
    CongScale(h, a1, u * y1, p);
    CongMul(a0, u * y0, s, tau * h, p);
    assert h * a1 == a1 * h && h * (u * y1) == (h * u) * y1;
    FlagStep(u, y0, tau, h);
    if Cong(h * u, 0, p) { ZeroProduct(h, u, p); }
    if Cong(a1 * h, a0 * s, p) {
      Cancel(h * u, y1, tau * y0, p);
    }
    if Cong(y1, tau * y0, p) {
      CongScale(h * u, y1, tau * y0, p);
    }
  }

  lemma FlagStep(u: int, y0: int, tau: int, h: int)
    ensures (u * y0) * (tau * h) == (h * u) * (tau * y0)
  {
    MulSwap(u, y0, tau, h);
    MulSwap(h, u, tau, y0);
    assert (u * tau) * (y0 * h) == (h * tau) * (u * y0) by { Shuffle(u, tau, y0, h); }
  }

  lemma Shuffle(u: int, tau: int, y0: int, h: int)
    ensures (u * tau) * (y0 * h) == (h * tau) * (u * y0)
  {
    assert (u * tau) * (y0 * h) == u * (tau * (y0 * h));
    assert (h * tau) * (u * y0) == u * (tau * (y0 * h));
  }

  /** A loaded setup is usable, except for that misreading. */
  lemma LoadedSetup(ctx: Context, powers: bool, tau: int, d: Field)
    requires d.Valid() && SetupPoints(ctx.g1, ctx.g2, powers, tau, d)
    requires ctx.monomial <==> Cong(ctx.g1[1] * ctx.g2[0], ctx.g1[0] * ctx.g2[1], d.p)
    requires ctx.generator == if ctx.monomial then ctx.g1[0] else Sum(ctx.g1)
    ensures powers ==> ctx.monomial
    ensures powers == ctx.monomial ==> Setup(ctx, tau, d)
  {
    hide Mod, Pow, Inv, Geo;
    FieldLaws(d);
    var p, h := d.p, ctx.g2[0];
    if powers {
      PowNone(tau);
      PowFirst(tau);
      assert Cong(ctx.g1[0], Powers(tau, |ctx.g1|)[0], p) && Cong(ctx.g1[1], Powers(tau, |ctx.g1|)[1], p);
      CongMul(ctx.g1[0], 1, ctx.g2[1], tau * h, p);
      CongScale(h, ctx.g1[1], tau, p);
      assert 1 * (tau * h) == h * tau && h * ctx.g1[1] == ctx.g1[1] * h;
    } else if !ctx.monomial {
      LagrangeGenerator(ctx.g1, tau, d.omega, Inv(d.omega, p), p);
    }
  }

  /** Every secret has a setup of either kind. */
  lemma SetupsExist(tau: int, d: Field) returns (powers: Context, lagrange: Context)
    requires d.Valid()
    ensures powers.monomial && Setup(powers, tau, d)
    ensures !lagrange.monomial && Setup(lagrange, tau, d)
    ensures powers.g2 == lagrange.g2 == [1, tau]
  {
    hide Mod, Pow, Inv, Geo;
    var v, u := Inv(d.omega, d.p), Inv(d.n, d.p);
    powers := Context(Powers(tau, d.n), [1, tau], 1, true);
    lagrange := Context(seq(d.n, i requires 0 <= i < d.n => u * Geo(Pow(v, i) * tau, d.n)), [1, tau], 1, false);
  }

  /** So of n domain points, all but two are secrets whose Lagrange setup is taken for powers. */
  lemma MisreadSecrets(k: nat, d: Field) returns (g1: seq<int>, g2: seq<int>)
    requires d.Valid() && 2 <= k < d.n
    ensures SetupPoints(g1, g2, false, Pow(d.omega, k), d) && !Cong(g2[0], 0, d.p)
    ensures Cong(g1[1] * g2[0], g1[0] * g2[1], d.p)
  {
    hide Mod, Pow, Inv, Geo;
    var p, n, tau, v := d.p, d.n, Pow(d.omega, k), Inv(d.omega, d.p);
    var powers, lagrange := SetupsExist(tau, d);
    g1, g2 := lagrange.g1, lagrange.g2;
    FieldLaws(d);
    ReducedMod(1, p);
    ReducedMod(0, p);
    PowTimes(d.omega, k, n);
    PowTimes(d.omega, n, k);
    assert k * n == n * k;
    RootOrder(d.omega, v, n, p);
    PowCong(Pow(d.omega, n), 1, k, p);
    PowOne(k);
    DistinctPoints(d.omega, v, k, 0, n, p);
    DistinctPoints(d.omega, v, k, 1, n, p);
    PowNone(d.omega);
    PowFirst(d.omega);
    LagrangeMisread(g1, g2, tau, d);
  }

  /** The integers modulo 17 with the powers of 4 are such a field. */
  lemma SmallField()
    ensures Field(17, 4, 4).Valid()
  {
    forall d | 1 < d < 17 ensures Mod(17, d) != 0 {
      ModIsRemainder(17, d);
      SeventeenIsPrime(d);
    }
    TwoPowMonotone(5, 256);
    assert Pow(4, 2) == 16;
  }

  lemma SeventeenIsPrime(d: nat)
    requires 1 < d < 17
    ensures 17 % d != 0
  {
  }

  /** A number without a divisor up to d, where d * d exceeds it, is prime. */
  lemma PrimeByTrial(n: nat, d: nat)
    requires 2 <= d < n < d * d && forall e :: 2 <= e <= d ==> Mod(n, e) != 0
    ensures IsPrime(n)
  {
    hide Mod;
    forall e | 1 < e < n ensures Mod(n, e) != 0 {
      ModIsRemainder(n, e);
      if e > d && n % e == 0 {
        var q := n / e;
        SmallCofactor(n, d, e, q);
        DivUnique(n, q, e, 0);
        ModIsRemainder(n, q);
      }
    }
  }

  lemma SmallCofactor(n: nat, d: nat, e: nat, q: int)
    requires d < e < n < d * d && n == q * e
    ensures 2 <= q <= d
  {
    assert q > d ==> q * e >= d * e;
    assert d * e >= d * d;
  }

  /** No number up to its square root divides 12289. */
  lemma TrialDivision(e: nat)
    requires 2 <= e < 112
    ensures 12289 % e != 0
  {
    assert e < 32 ==> 12289 % e != 0;
  }

  lemma NextSquare(w: int, e: nat, a: int, b: int, p: nat)
    requires p > 0 && Cong(Pow(w, e), a, p) && Cong(a * a, b, p)
    ensures Cong(Pow(w, 2 * e), b, p)
  {
    hide Mod, Pow;
    PowAdd(w, e, e);
    CongMul(Pow(w, e), a, Pow(w, e), a, p);
  }

  lemma SquareIs(a: nat, b: nat)
    requires a * a % 12289 == b
    ensures Cong(a * a, b, 12289)
  {
    ModIsRemainder(a * a, 12289);
    ModIsRemainder(b, 12289);
  }

  lemma BlobPrime()
    ensures IsPrime(12289)
  {
    hide Mod;
    forall e | 2 <= e <= 111 ensures Mod(12289, e) != 0 {
      ModIsRemainder(12289, e);
      TrialDivision(e);
    }
    PrimeByTrial(12289, 111);
  }

  /** 1331^2048 = -1. */
  lemma MiddlePower()
    ensures Cong(Pow(1331, 2048), -1, 12289)
  {
    hide Mod, Pow, Cong;
    PowFirst(1331);
    CongRefl(1331, 12289);
    SquareIs(1331, 1945);
    NextSquare(1331, 1, 1331, 1945, 12289);
    SquareIs(1945, 10302);
    NextSquare(1331, 2, 1945, 10302, 12289);
    SquareIs(10302, 3400);
    NextSquare(1331, 4, 10302, 3400, 12289);
    SquareIs(3400, 8340);
    NextSquare(1331, 8, 3400, 8340, 12289);
    SquareIs(8340, 12149);
    NextSquare(1331, 16, 8340, 12149, 12289);
    SquareIs(12149, 7311);
    NextSquare(1331, 32, 12149, 7311, 12289);
    SquareIs(7311, 5860);
    NextSquare(1331, 64, 7311, 5860, 12289);
    SquareIs(5860, 4134);
    NextSquare(1331, 128, 5860, 4134, 12289);
    SquareIs(4134, 8246);
    NextSquare(1331, 256, 4134, 8246, 12289);
    SquareIs(8246, 1479);
    NextSquare(1331, 512, 8246, 1479, 12289);
    SquareIs(1479, 12288);
    NextSquare(1331, 1024, 1479, 12288, 12289);
    CongFrom(12288, -1, 1, 12289);
    CongTrans(Pow(1331, 2048), 12288, -1, 12289);
  }

  lemma BlobSize()
    ensures IsPowerOfTwo(4096)
  {
    assert IsPowerOfTwo(8);
    assert IsPowerOfTwo(64);
    assert IsPowerOfTwo(512);
  }

  lemma BlobLimits()
    ensures 4096 <= TwoPow(64) && 12289 <= TwoPow(256)
  {
    hide TwoPow;
    ByteLimit();
    TwoPowAdd(8, 8);
    TwoPowMonotone(16, 64);
    TwoPowMonotone(16, 256);
  }

  lemma ByteLimit()
    ensures TwoPow(8) == 256
  {
    assert TwoPow(4) == 16;
  }

  /** The integers modulo 12289 with the powers of 1331 are one with as many domain points as a blob has scalars. */
  lemma BlobField()
    ensures Field(12289, 4096, 1331).Valid()
  {
    hide Mod, Pow, Cong, IsPrime, IsPowerOfTwo, TwoPow;
    BlobPrime();
    BlobSize();
    BlobLimits();
    MiddlePower();
  }

  // ----- the manifest -----

  /** z_for_cell: the encoding of omega^idx. */
  function ZForCell(idx: nat, d: Field): (b: seq<byte>)
    requires d.p > 0
    ensures |b| == 32
  {
    ScalarToBytes(Mod(Pow(d.omega, idx), d.p))
  }

  /** Cell i of the manifest: the reduced root, or zero past the last one. */
  function ManifestCell(roots: seq<seq<byte>>, i: nat, p: nat): (cell: seq<byte>)
    requires p > 0
    ensures |cell| == 32
  {
    if i < |roots| then ScalarToBytes(ScalarOf(roots[i], p)) else seq(32, _ => 0)
  }

  /** The manifest blob: the reduced roots, in order, followed by zeros. */
  method ManifestBlob(roots: seq<seq<byte>>, d: Field) returns (blob: seq<byte>)
    requires d.Valid() && forall i :: 0 <= i < |roots| ==> |roots[i]| == 32
    ensures |blob| == 32 * d.n
    ensures forall i :: 0 <= i < d.n ==> blob[32 * i..32 * i + 32] == ManifestCell(roots, i, d.p)
  {
    hide Mod, Pow, TwoPow, BeValue;
    var bytes := new byte[32 * d.n](_ => 0);
    var i := 0;
    while i < |roots| && i < d.n
      invariant 0 <= i <= d.n && i <= |roots|
      invariant forall k :: 0 <= k < i ==> bytes[32 * k..32 * k + 32] == ScalarToBytes(ScalarOf(roots[k], d.p))
      invariant forall k :: 32 * i <= k < bytes.Length ==> bytes[k] == 0
    {
      var root := ScalarToBytes(ScalarOf(roots[i], d.p));
      ghost var before := bytes[..];
      forall k | 0 <= k < 32 {
        bytes[32 * i + k] := root[k];
      }
      assert bytes[32 * i..32 * i + 32] == root;
      forall k | 0 <= k < i ensures bytes[32 * k..32 * k + 32] == before[32 * k..32 * k + 32] {
      }
      i := i + 1;
    }
    blob := bytes[..];
    forall k | 0 <= k < d.n
      ensures blob[32 * k..32 * k + 32] == ManifestCell(roots, k, d.p)
    {
      assert blob[32 * k..32 * k + 32] == bytes[32 * k..32 * k + 32];
    }
  }

  /** verify_manifest_inclusion */
  function VerifyManifestInclusion(
      ctx: Context, commitment: int, root: seq<byte>, index: nat, proof: int, d: Field): (r: Result<bool>)
    requires d.p > 0
  {
    if index >= d.n then Ok(false)
    else if |root| != 32 then Err(InvalidDataLength)
    else VerifyProof(ctx, commitment, ZForCell(index, d), ScalarToBytes(ScalarOf(root, d.p)), proof, d.p)
  }

  /** The polynomial of the manifest takes, at the point of a cell, the root stored there. */
  lemma ManifestValue(blob: seq<byte>, roots: seq<seq<byte>>, index: nat, d: Field)
    requires d.Valid() && |blob| == 32 * d.n && index < |roots| && index < d.n
    requires blob[32 * index..32 * index + 32] == ManifestCell(roots, index, d.p)
    ensures BeValue(ZForCell(index, d)) < d.p
    ensures ClaimedValue(BlobPolynomial(blob, d), BeValue(ZForCell(index, d)), d.p)
      == ScalarOf(roots[index], d.p)
  {
    hide Mod, Eval, Pow, BeValue, Idft, TwoPow, Inv, RootPair, ScalarOf, ScalarToBytes;
    FieldLaws(d);
    var z, y := Mod(Pow(d.omega, index), d.p), ScalarOf(roots[index], d.p);
    ScalarBytesValue(z, d.p);
    ScalarBytesValue(y, d.p);
    ScalarOfCanonical(ScalarToBytes(y), y, d.p);
    var f := BlobValues(blob, d);
    var c := Coefficients(f, d);
    assert f[index] == y;
    Interpolates(f, d.omega, Inv(d.omega, d.p), index, d.p);
    ModCong(Pow(d.omega, index), d.p);
    EvalCongAt(c, z, Pow(d.omega, index), d.p);
    CongOfReduced(Eval(c, z), y, d.p);
  }

  /** Committing to any list of roots and proving any of them: the inclusion check accepts. */
  method ProveManifestEntry(ctx: Context, roots: seq<seq<byte>>, index: nat, d: Field, ghost tau: int)
      returns (accepted: Result<bool>)
    requires d.Valid() && Setup(ctx, tau, d) && forall i :: 0 <= i < |roots| ==> |roots[i]| == 32
    requires index < |roots| && index < d.n
    ensures accepted == Ok(true)
  {
    hide Mod, Eval, Pow, BeValue, Setup, Idft, VerifyProof, TwoPow, Inv, ScalarOf, ScalarToBytes, ManifestCell;
    var blob := ManifestBlob(roots, d);
    var commitment := BlobToCommitment(ctx, blob, d, tau);
    var zBytes := ZForCell(index, d);
    ManifestValue(blob, roots, index, d);
    var opening := ComputeProof(ctx, blob, zBytes, d, tau);
    Completeness(ctx, BlobPolynomial(blob, d), zBytes, tau, d);
    accepted := VerifyManifestInclusion(ctx, commitment.value, roots[index], index, opening.value.0, d);
  }

  lemma ScalarOfCanonical(chunk: seq<byte>, y: nat, p: nat)
    requires y < p && BeValue(chunk) == y
    ensures ScalarOf(chunk, p) == y
  {
  }
}
