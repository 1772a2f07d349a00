/** The demonstration scheme end to end: setup, commitment to a file, opening at a block, check. */
module ToyScheme {
  import opened Residue
  import opened Poly
  import opened Prime
  import opened Roots
  import opened Bytes
  import opened ToyKzg

  const CHUNK: nat := 131072

  // ----- exponent trackers -----

  /** An element of either source group or of the target group, by its exponent. */
  datatype Element = Element(e: nat) {
    /** group multiplication */
    function Mul(other: Element, r: nat): Element
      requires r > 0
    {
      Element(Mod(e + other.e, r))
    }

    function Power(k: int, r: nat): Element
      requires r > 0
    {
      Element(Mod(e * Mod(k, r), r))
    }
  }

  function Pair(a: Element, b: Element, r: nat): Element
    requires r > 0
  {
    Element(Mod(a.e * b.e, r))
  }

  datatype Srs = Srs(tau: nat, g1Pows: seq<Element>, g2Gen: Element, g2Tau: Element)

  ghost predicate ValidSrs(srs: Srs, r: nat)
    requires r > 1
  {
    srs.tau < r && srs.g2Gen == Element(1) && srs.g2Tau == Element(srs.tau) &&
    forall j :: 0 <= j < |srs.g1Pows| ==> srs.g1Pows[j].e < r && Cong(srs.g1Pows[j].e, Pow(srs.tau, j), r)
  }

  /** setup, for a secret drawn by the caller */
  method Setup(maxDegree: nat, tau: nat, r: nat) returns (srs: Srs)
    requires 1 < r && tau < r
    ensures ValidSrs(srs, r) && srs.tau == tau && |srs.g1Pows| == maxDegree + 1
  {
    hide Mod, Pow;
    var g1Pows: seq<Element> := [];
    var tauPow := 1;
    PowZero(tau, r);
    for j := 0 to maxDegree + 1
      invariant |g1Pows| == j && 0 <= tauPow < r && Cong(tauPow, Pow(tau, j), r)
      invariant forall k :: 0 <= k < j ==> g1Pows[k].e < r && Cong(g1Pows[k].e, Pow(tau, k), r)
    {
      g1Pows := g1Pows + [Element(tauPow)];
      NextPower(tauPow, tau, j, r);
      tauPow := Mod(tauPow * tau, r);
    }
    return Srs(tau, g1Pows, Element(1), Element(tau));
  }

  datatype Result<T> = Ok(value: T) | AssertionError

  /** commit_from_coeffs: the exponent is the value of the polynomial at the secret. */
  method CommitFromCoeffs(coeffs: seq<int>, srs: Srs, r: nat) returns (c: Result<Element>)
    requires r > 1 && ValidSrs(srs, r)
    ensures c == AssertionError <==> |coeffs| > |srs.g1Pows|
    ensures c.Ok? ==> c.value.e == Mod(Eval(coeffs, srs.tau), r)
  {
    hide Mod, Pow, Eval;
    if |coeffs| > |srs.g1Pows| {
      return AssertionError;
    }
    var acc := Element(0);
    EmptyEval(srs.tau);
    CongRefl(0, r);
    for j := 0 to |coeffs|
      invariant acc.e < r && Cong(acc.e, Eval(coeffs[..j], srs.tau), r)
    {
      EvalPrefixStep(coeffs, j, srs.tau);
      if Mod(coeffs[j], r) == 0 {
        ZeroTerm(coeffs[j], Pow(srs.tau, j), r);
        CongAdd(acc.e, Eval(coeffs[..j], srs.tau), 0, Pow(srs.tau, j) * coeffs[j], r);
      } else {
        TermCong(acc.e, Eval(coeffs[..j], srs.tau), srs.g1Pows[j].e, Pow(srs.tau, j), coeffs[j], r);
        acc := acc.Mul(srs.g1Pows[j].Power(coeffs[j], r), r);
      }
    }
    assert coeffs[..|coeffs|] == coeffs;
    ReducedExponent(acc.e, Eval(coeffs, srs.tau), r);
    return Ok(acc);
  }

  lemma ReducedExponent(x: nat, e: int, r: nat)
    requires x < r && Cong(x, e, r)
    ensures x == Mod(e, r)
  {
  }

  lemma EvalPrefixStep(c: seq<int>, j: nat, x: int)
    requires j < |c|
    ensures Eval(c[..j + 1], x) == Eval(c[..j], x) + Pow(x, j) * c[j]
  {
    assert c[..j + 1] == c[..j] + [c[j]];
    EvalAppend(c[..j], [c[j]], x);
    SingletonEval(c[j], x);
  }

  lemma ZeroTerm(c: int, w: int, r: nat)
    requires r > 0 && Mod(c, r) == 0
    ensures Cong(0, w * c, r)
  {
    assert Cong(c, 0, r);
    CongScale(w, c, 0, r);
  }

  lemma TermCong(acc: int, v: int, g: int, w: int, c: int, r: nat)
    requires r > 0 && Cong(acc, v, r) && Cong(g, w, r)
    ensures Cong(Mod(acc + Mod(g * Mod(c, r), r), r), v + w * c, r)
  {
    hide Mod;
    ModCong(c, r);
    CongMul(g, w, Mod(c, r), c, r);
    ModCong(g * Mod(c, r), r);
    CongAdd(acc, v, Mod(g * Mod(c, r), r), w * c, r);
    ModCong(acc + Mod(g * Mod(c, r), r), r);
  }

  // ----- files and blocks -----

  /** The blocks of a file: an empty file is one empty block, and a short last block is padded. */
  function BlockCount(data: seq<byte>): (n: nat)
    ensures n >= 1
  {
    if data == [] then 1 else (|data| + CHUNK - 1) / CHUNK
  }

  function BlockAt(data: seq<byte>, i: nat): (b: seq<byte>)
    requires i < BlockCount(data)
    ensures |b| == CHUNK
  {
    var from := i * CHUNK;
    var to := if from + CHUNK <= |data| then from + CHUNK else |data|;
    data[from..to] + Zeros(CHUNK - (to - from))
  }

  /** The stretch of the file that a block is made of. */
  function Piece(data: seq<byte>, i: nat): (b: seq<byte>)
    requires i * CHUNK < |data|
    ensures |b| <= CHUNK
  {
    data[i * CHUNK..if i * CHUNK + CHUNK <= |data| then i * CHUNK + CHUNK else |data|]
  }

  lemma PieceIsBlock(data: seq<byte>, i: nat)
    requires i * CHUNK < |data|
    ensures BlockAt(data, i) == Piece(data, i) + Zeros(CHUNK - |Piece(data, i)|)
    ensures (i + 1) * CHUNK <= |data| ==> BlockAt(data, i) == Piece(data, i) && |Piece(data, i)| == CHUNK
  {
    assert Zeros(0) == [];
  }

  method SplitBlocks(data: seq<byte>) returns (blocks: seq<seq<byte>>)
    ensures |blocks| == BlockCount(data)
    ensures forall i :: 0 <= i < |blocks| ==> blocks[i] == BlockAt(data, i)
  {
    hide Piece, BlockAt;
    blocks := [];
    var i := 0;
    while i < |data|
      invariant i == |blocks| * CHUNK && |blocks| * CHUNK < |data| + CHUNK
      invariant forall k :: 0 <= k < |blocks| ==> k * CHUNK < |data| && blocks[k] == Piece(data, k)
    {
      assert data[i..if i + CHUNK <= |data| then i + CHUNK else |data|] == Piece(data, |blocks|) by {
        PieceIs(data, |blocks|);
      }
      blocks := blocks + [data[i..if i + CHUNK <= |data| then i + CHUNK else |data|]];
      i := i + CHUNK;
    }
    if |blocks| == 0 {
      blocks := [[]];
      NoPiece(data);
    } else {
      forall k | 0 <= k < |blocks| ensures k < |blocks| - 1 ==> blocks[k] == BlockAt(data, k) {
        PieceIsBlock(data, k);
      }
      PieceIsBlock(data, |blocks| - 1);
    }
    var last := |blocks| - 1;
    if |blocks[last]| < CHUNK {
      blocks := blocks[last := blocks[last] + Zeros(CHUNK - |blocks[last]|)];
    } else {
      assert blocks[last] + Zeros(0) == blocks[last];
    }
  }

  lemma PieceIs(data: seq<byte>, i: nat)
    requires i * CHUNK < |data|
    ensures Piece(data, i) == data[i * CHUNK..if i * CHUNK + CHUNK <= |data| then i * CHUNK + CHUNK else |data|]
  {
  }

  lemma NoPiece(data: seq<byte>)
    requires data == []
    ensures BlockAt(data, 0) == [] + Zeros(CHUNK)
  {
  }

  /** seek and read of one block, padded */
  function ReadBlock(data: seq<byte>, i: nat): (b: seq<byte>)
    ensures |b| == CHUNK
  {
    var from := if i * CHUNK <= |data| then i * CHUNK else |data|;
    var to := if from + CHUNK <= |data| then from + CHUNK else |data|;
    var block := data[from..to];
    if |block| < CHUNK then block + Zeros(CHUNK - |block|) else block
  }

  /** Reading block i again gives the block that was committed to. */
  lemma ReadsCommittedBlock(data: seq<byte>, i: nat)
    requires i < BlockCount(data)
    ensures ReadBlock(data, i) == BlockAt(data, i)
  {
  }

  // ----- pledge and proof -----

  datatype Pledge = Pledge(n: nat, xs: seq<int>, ys: seq<int>, coeffs: seq<int>, commit: Element, srs: Srs)

  datatype Proof = Proof(i: nat, xi: int, yi: int, block: seq<byte>, pi: Element)

  /** The value of a block: its hash modulo r. */
  function HashToField(hash: seq<byte> -> nat, block: seq<byte>, r: nat): nat
    requires r > 0
  {
    Mod(hash(block), r)
  }

  /** What committing to a file with fewer than r blocks establishes. */
  ghost predicate Committed(pl: Pledge, data: seq<byte>, hash: seq<byte> -> nat, r: nat)
    requires r > 1
  {
    pl.n == BlockCount(data) && |pl.xs| == |pl.ys| == pl.n && pl.coeffs != [] && |pl.coeffs| <= pl.n &&
    Reduced(pl.coeffs, r) && ValidSrs(pl.srs, r) && |pl.coeffs| <= |pl.srs.g1Pows| &&
    pl.commit.e == Mod(Eval(pl.coeffs, pl.srs.tau), r) &&
    (forall i :: 0 <= i < pl.n ==>
      pl.xs[i] == Mod(i * Inv(pl.n, r), r) && pl.ys[i] == HashToField(hash, BlockAt(data, i), r)) &&
    (pl.n < r ==> forall i :: 0 <= i < pl.n ==> Cong(Eval(pl.coeffs, pl.xs[i]), pl.ys[i], r))
  }

  /** commit_file */
  method CommitFile(data: seq<byte>, srs: Srs, hash: seq<byte> -> nat, r: nat) returns (c: Result<Pledge>)
    requires IsPrime(r) && ValidSrs(srs, r)
    ensures c.Ok? ==> Committed(c.value, data, hash, r) && c.value.srs == srs
    ensures BlockCount(data) <= |srs.g1Pows| ==> c.Ok?
  {
    hide Mod, Pow, Eval, Inv, IsPrime, ValidSrs, Distinct, BlockAt, BlockCount;
    PrimeSize(r);
    var blocks := SplitBlocks(data);
    var n := |blocks|;
    var ys: seq<int> := seq(n, i requires 0 <= i < n => HashToField(hash, blocks[i], r));
    var invN := Inv(n, r);
    var xs: seq<int> := seq(n, i requires 0 <= i < n => Mod(i * invN, r));
    var coeffs := LagrangeInterpolateCoeffs(xs, ys, r);
    if n < r {
      PointsDistinct(xs, n, r);
    }
    assert |xs| >= 1;
    var commit := CommitFromCoeffs(coeffs, srs, r);
    if commit == AssertionError {
      return AssertionError;
    }
    return Ok(Pledge(n, xs, ys, coeffs, commit.value, srs));
  }

  /** The points i/n are distinct while there are fewer than r of them. */
  lemma PointsDistinct(xs: seq<int>, n: nat, r: nat)
    requires IsPrime(r) && 0 < n < r && |xs| == n && forall i :: 0 <= i < n ==> xs[i] == Mod(i * Inv(n, r), r)
    ensures Distinct(xs, r)
  {
    hide Inv, IsPrime;
    PrimeSize(r);
    var u := Inv(n, r);
    assert !Cong(n, 0, r);
    InverseLaw(n, r);
    forall i, j | 0 <= i < j < n ensures !Cong(xs[i], xs[j], r) {
      assert Mod(i, r) == i && Mod(j, r) == j;
      if Cong(xs[i], xs[j], r) {
        SamePoint(i, j, n, u, r);
      }
    }
  }

  lemma SamePoint(i: int, j: int, n: int, u: int, r: nat)
    requires r > 0 && Cong(n * u, 1, r) && Cong(Mod(i * u, r), Mod(j * u, r), r)
    ensures Cong(i, j, r)
  {
    hide Mod, Cong;
    ModCong(i * u, r);
    ModCong(j * u, r);
    CongSym(Mod(i * u, r), i * u, r);
    CongTrans(i * u, Mod(i * u, r), Mod(j * u, r), r);
    CongTrans(i * u, Mod(j * u, r), j * u, r);
    CongScale(n, i * u, j * u, r);
    CongScale(i, n * u, 1, r);
    CongScale(j, n * u, 1, r);
    assert n * (i * u) == i * (n * u) && n * (j * u) == j * (n * u) && i * 1 == i && j * 1 == j;
    CongSym(i * (n * u), i, r);
    CongTrans(i, i * (n * u), j * (n * u), r);
    CongTrans(i, j * (n * u), j, r);
  }

  /** prove_index */
  method ProveIndex(pl: Pledge, i: nat, data: seq<byte>, hash: seq<byte> -> nat, r: nat) returns (p: Result<Proof>)
    requires IsPrime(r) && Committed(pl, data, hash, r)
    ensures i >= pl.n ==> p == AssertionError
    ensures i < pl.n < r ==> p.Ok?
    ensures p.Ok? ==> i < pl.n && p.value.i == i && p.value.xi == pl.xs[i] && p.value.yi == pl.ys[i]
    ensures p.Ok? ==> p.value.block == BlockAt(data, i)
    ensures p.Ok? ==> Cong(p.value.pi.e * (pl.srs.tau - pl.xs[i]), Eval(pl.coeffs, pl.srs.tau) - pl.ys[i], r)
  {
    hide Mod, Pow, Eval, Inv, IsPrime, Tails, ValidSrs, BlockAt;
    PrimeSize(r);
    if i >= pl.n {
      return AssertionError;
    }
    var xi, yi := pl.xs[i], pl.ys[i];
    var shifted := pl.coeffs[0 := Mod(pl.coeffs[0] - yi, r)];
    ShiftConstant(pl.coeffs, yi, xi, r);
    ShiftConstant(pl.coeffs, yi, pl.srs.tau, r);
    var q, rem := PolyDivByXMinusA(shifted, xi, r);
    if pl.n < r {
      RemainderAtPoint(Eval(pl.coeffs, xi), yi, Eval(shifted, xi), rem, r);
    }
    if rem != 0 {
      return AssertionError;
    }
    var pi := CommitFromCoeffs(q, pl.srs, r);
    ReadsCommittedBlock(data, i);
    ModCong(Eval(q, pl.srs.tau), r);
    ProofEquation(shifted, q, xi, pl.srs.tau, pi.value.e, r);
    CongAddThrough(pi.value.e * (pl.srs.tau - xi), Eval(shifted, pl.srs.tau), Eval(pl.coeffs, pl.srs.tau) - yi, r);
    return Ok(Proof(i, xi, yi, ReadBlock(data, i), pi.value));
  }

  lemma CongAddThrough(a: int, b: int, c: int, r: nat)
    requires r > 0 && Cong(a, b, r) && Cong(b, c, r)
    ensures Cong(a, c, r)
  {
  }

  lemma ShiftConstant(c: seq<int>, y: int, x: int, r: nat)
    requires r > 0 && c != []
    ensures Cong(Eval(c[0 := Mod(c[0] - y, r)], x), Eval(c, x) - y, r)
  {
    hide Mod;
    var d := c[0 := Mod(c[0] - y, r)];
    assert d[1..] == c[1..];
    ModCong(c[0] - y, r);
    var e := x * Eval(c[1..], x);
    CongRefl(e, r);
    CongAdd(d[0], c[0] - y, e, e, r);
  }

  lemma RemainderAtPoint(v: int, y: int, e: int, rem: int, r: nat)
    requires r > 1 && Cong(v, y, r) && Cong(e, v - y, r) && 0 <= rem < r && Cong(rem, e, r)
    ensures rem == 0
  {
    CongDiff(v, y, r);
  }

  lemma ProofEquation(c: seq<int>, q: seq<int>, xi: int, tau: int, pi: int, r: nat)
    requires r > 1 && c != [] && SeqCong(q, Tails(c[1..], xi), r)
    requires Cong(Eval(c, xi), 0, r) && Cong(pi, Eval(q, tau), r)
    ensures Cong(pi * (tau - xi), Eval(c, tau), r)
  {
    hide Mod, Eval, Tails;
    SyntheticDivision(c, xi, tau);
    CongRefl(tau, r);
    EvalCong(q, Tails(c[1..], xi), tau, tau, r);
    var t := Eval(Tails(c[1..], xi), tau);
    CongScale(tau - xi, pi, t, r);
    CongAdd((tau - xi) * t, (tau - xi) * t, Eval(c, xi), 0, r);
    assert (tau - xi) * pi == pi * (tau - xi);
  }

  /** verify_proof: the point, the hash of the block, and the pairing equation. */
  predicate VerifyProof(pl: Pledge, proof: Proof, hash: seq<byte> -> nat, r: nat)
    requires r > 1
  {
    Mod(proof.xi - Mod(proof.i * Inv(pl.n, r), r), r) == 0 &&
    HashToField(hash, proof.block, r) == proof.yi &&
    Pair(pl.commit.Mul(Element(1).Power(-proof.yi, r), r), pl.srs.g2Gen, r)
      == Pair(proof.pi, pl.srs.g2Tau.Mul(pl.srs.g2Gen.Power(-proof.xi, r), r), r)
  }

  /** The pairing equation compares C - y with pi * (tau - x). */
  lemma PairingMeaning(c: nat, y: int, pi: nat, tau: nat, x: int, r: nat)
    requires r > 1
    ensures Pair(Element(c).Mul(Element(1).Power(-y, r), r), Element(1), r)
        == Pair(Element(pi), Element(tau).Mul(Element(1).Power(-x, r), r), r)
      <==> Cong(pi * (tau - x), c - y, r)
  {
    NegatedPower(c, y, r);
    NegatedPower(tau, x, r);
    hide Mod;
    var left := Mod(c + Mod(1 * Mod(-y, r), r), r);
    var right := Mod(tau + Mod(1 * Mod(-x, r), r), r);
    CongScale(pi, right, tau - x, r);
    assert left * 1 == left;
  }

  lemma NegatedPower(c: int, y: int, r: nat)
    requires r > 1
    ensures Cong(Mod(c + Mod(1 * Mod(-y, r), r), r), c - y, r)
  {
    hide Mod;
    ModCong(-y, r);
    assert 1 * Mod(-y, r) == Mod(-y, r);
    ModCong(Mod(-y, r), r);
    CongRefl(c, r);
    CongAdd(c, c, Mod(Mod(-y, r), r), -y, r);
    ModCong(c + Mod(Mod(-y, r), r), r);
  }

  /** Every file with fewer than r blocks, every block: the proof is made and accepted. */
  method CommitProveVerify(data: seq<byte>, i: nat, tau: nat, hash: seq<byte> -> nat, r: nat) returns (accepted: bool)
    requires IsPrime(r) && tau < r && BlockCount(data) < r && i < BlockCount(data)
    ensures accepted
  {
    hide Mod, Pow, Eval, Inv, IsPrime, ValidSrs, BlockAt, BlockCount;
    PrimeSize(r);
    var srs := Setup(BlockCount(data), tau, r);
    var pl := CommitFile(data, srs, hash, r);
    var proof := ProveIndex(pl.value, i, data, hash, r);
    Accepted(pl.value, proof.value, data, hash, r);
    accepted := VerifyProof(pl.value, proof.value, hash, r);
  }

  lemma Accepted(pl: Pledge, proof: Proof, data: seq<byte>, hash: seq<byte> -> nat, r: nat)
    requires r > 1 && Committed(pl, data, hash, r) && proof.i < pl.n
    requires proof.xi == pl.xs[proof.i] && proof.yi == pl.ys[proof.i] && proof.block == BlockAt(data, proof.i)
    requires Cong(proof.pi.e * (pl.srs.tau - proof.xi), Eval(pl.coeffs, pl.srs.tau) - proof.yi, r)
    ensures VerifyProof(pl, proof, hash, r)
  {
    hide Mod, Pow, Eval, Inv, BlockAt;
    var c, y := pl.commit.e, proof.yi;
    ModCong(Eval(pl.coeffs, pl.srs.tau), r);
    CongRefl(y, r);
    CongAdd(c, Eval(pl.coeffs, pl.srs.tau), y, y, r);
    PairingMeaning(c, y, proof.pi.e, pl.srs.tau, proof.xi, r);
    CongDiff(proof.xi, Mod(proof.i * Inv(pl.n, r), r), r);
    ZeroMod(proof.xi - Mod(proof.i * Inv(pl.n, r), r), r);
  }

  lemma ZeroMod(x: int, r: nat)
    requires r > 0 && x == 0
    ensures Mod(x, r) == 0
  {
  }

  // ----- what an accepted proof proves, whoever made it -----

  /** The point of an index. */
  function PointOf(n: nat, i: nat, r: nat): nat
    requires r > 1
  {
    Mod(i * Inv(n, r), r)
  }

  /** The check in exponents: the point of the index, the hash of the block, and pi * (tau - x) = C - y. */
  lemma VerifyMeaning(pl: Pledge, proof: Proof, hash: seq<byte> -> nat, r: nat)
    requires r > 1 && ValidSrs(pl.srs, r)
    ensures VerifyProof(pl, proof, hash, r) <==>
      Cong(proof.xi, PointOf(pl.n, proof.i, r), r) && proof.yi == HashToField(hash, proof.block, r) &&
      Cong(proof.pi.e * (pl.srs.tau - PointOf(pl.n, proof.i, r)), pl.commit.e - proof.yi, r)
  {
    hide Mod, Pow, Inv;
    var x, c, e := PointOf(pl.n, proof.i, r), pl.commit.e - proof.yi, proof.pi.e;
    PairingMeaning(pl.commit.e, proof.yi, e, pl.srs.tau, proof.xi, r);
    CongDiff(proof.xi, x, r);
    ModOfZero(r);
    if Cong(proof.xi, x, r) {
      CongRefl(pl.srs.tau, r);
      CongAdd(pl.srs.tau, pl.srs.tau, proof.xi, x, r);
      CongScale(e, pl.srs.tau - proof.xi, pl.srs.tau - x, r);
    }
  }

  lemma ModOfZero(r: nat)
    requires r > 0
    ensures Mod(0, r) == 0
  {
  }

  /** Two openings of one exponent at one point: of the same value, or they give the secret away. */
  lemma TwoOpenings(a: int, b: int, c: int, y: nat, z: nat, x: int, tau: int, r: nat)
    requires IsPrime(r) && y < r && z < r && Cong(a * (tau - x), c - y, r) && Cong(b * (tau - x), c - z, r)
    ensures r > 1 && (y == z || Cong(tau, x + (z - y) * Inv(a - b, r), r))
    ensures y == z ==> Cong(a, b, r) || Cong(tau, x, r)
  {
    hide Mod, Inv, IsPrime, Cong;
    PrimeSize(r);
    var d, e := a - b, tau - x;
    CongAdd(a * e, c - y, b * e, c - z, r);
    assert a * e - b * e == d * e && (c - y) - (c - z) == z - y;
    if y == z {
      ZeroProduct(d, e, r);
      CongDiff(a, b, r);
      CongDiff(tau, x, r);
    } else {
      if Cong(d, 0, r) {
        CongScale(e, d, 0, r);
        assert e * d == d * e;
        CongSym(d * e, z - y, r);
        CongTrans(z - y, d * e, 0, r);
        CongDiff(z, y, r);
        SameReduced(z, y, r);
      }
      DivideBy(d, z - y, e, r);
      CongRefl(x, r);
      CongAdd(x, x, (z - y) * Inv(d, r), e, r);
      CongSym(x + (z - y) * Inv(d, r), tau, r);
    }
  }

  lemma SameReduced(y: nat, z: nat, r: nat)
    requires y < r && z < r && Cong(y, z, r)
    ensures y == z
  {
  }

  /** The exponent of the honest proof at a point. */
  ghost function HonestPi(pl: Pledge, x: int, r: nat): nat
    requires r > 1 && pl.coeffs != []
  {
    Mod(Eval(Tails(pl.coeffs[1..], x), pl.srs.tau), r)
  }

  lemma HonestOpening(pl: Pledge, x: int, y: int, r: nat)
    requires r > 1 && pl.coeffs != [] && Cong(Eval(pl.coeffs, x), y, r)
    ensures Cong(HonestPi(pl, x, r) * (pl.srs.tau - x), Mod(Eval(pl.coeffs, pl.srs.tau), r) - y, r)
  {
    hide Mod, Eval, Tails, Cong;
    var c, tau := pl.coeffs, pl.srs.tau;
    var t, e := Eval(Tails(c[1..], x), tau), tau - x;
    SyntheticDivision(c, x, tau);
    ModCong(t, r);
    ModCong(Eval(c, tau), r);
    CongScale(e, Mod(t, r), t, r);
    CongAdd(Mod(Eval(c, tau), r), Eval(c, tau), y, Eval(c, x), r) by { CongSym(Eval(c, x), y, r); }
    assert Mod(t, r) * e == e * Mod(t, r) && e * t == Eval(c, tau) - Eval(c, x);
    CongSym(Mod(Eval(c, tau), r) - y, Eval(c, tau) - Eval(c, x), r);
    CongTrans(e * Mod(t, r), e * t, Mod(Eval(c, tau), r) - y, r);
  }

  /** An accepted proof of any index is of a block whose hash is the value of the committed polynomial at its point, or
      it gives the secret away. */
  lemma AcceptedIsValue(pl: Pledge, proof: Proof, hash: seq<byte> -> nat, r: nat)
    requires IsPrime(r) && r > 1 && ValidSrs(pl.srs, r) && pl.coeffs != [] && VerifyProof(pl, proof, hash, r)
    requires pl.commit.e == Mod(Eval(pl.coeffs, pl.srs.tau), r)
    ensures var x := PointOf(pl.n, proof.i, r);
      var y := Mod(Eval(pl.coeffs, x), r);
      HashToField(hash, proof.block, r) == y ||
      Cong(pl.srs.tau, x + (y - proof.yi) * Inv(proof.pi.e - HonestPi(pl, x, r), r), r)
  {
    hide Mod, Pow, Eval, Inv, VerifyProof, IsPrime, Cong, HonestPi;
    var x := PointOf(pl.n, proof.i, r);
    var y := Mod(Eval(pl.coeffs, x), r);
    VerifyMeaning(pl, proof, hash, r);
    ModCong(Eval(pl.coeffs, x), r);
    CongSym(y, Eval(pl.coeffs, x), r);
    HonestOpening(pl, x, y, r);
    ReducedHash(hash, proof.block, r);
    ModBelow(Eval(pl.coeffs, x), r);
    TwoOpenings(proof.pi.e, HonestPi(pl, x, r), pl.commit.e, proof.yi, y, x, pl.srs.tau, r);
  }

  lemma ModBelow(x: int, r: nat)
    requires r > 0
    ensures 0 <= Mod(x, r) < r
  {
  }

  /** So an accepted proof of a block of the file is of the block that was committed at its index, or of one with the
      same hash, or it gives the secret away. */
  lemma AcceptedIsCommitted(pl: Pledge, proof: Proof, data: seq<byte>, hash: seq<byte> -> nat, r: nat)
    requires IsPrime(r) && r > 1 && Committed(pl, data, hash, r) && proof.i < pl.n < r
    requires VerifyProof(pl, proof, hash, r)
    ensures Cong(proof.xi, pl.xs[proof.i], r)
    ensures var x, y := pl.xs[proof.i], HashToField(hash, BlockAt(data, proof.i), r);
      HashToField(hash, proof.block, r) == y ||
      Cong(pl.srs.tau, x + (y - proof.yi) * Inv(proof.pi.e - HonestPi(pl, x, r), r), r)
  {
    hide Mod, Pow, Eval, Inv, BlockAt, VerifyProof, IsPrime, HonestPi, BlockCount, ValidSrs;
    VerifyMeaning(pl, proof, hash, r);
    AcceptedIsValue(pl, proof, hash, r);
    ReducedHash(hash, BlockAt(data, proof.i), r);
    ReducedExponent(HashToField(hash, BlockAt(data, proof.i), r), Eval(pl.coeffs, pl.xs[proof.i]), r);
  }

  lemma ReducedHash(hash: seq<byte> -> nat, block: seq<byte>, r: nat)
    requires r > 0
    ensures HashToField(hash, block, r) < r
  {
  }

  /** Whatever the pledge, two accepted proofs of one index are of blocks with one hash, or they give the secret away;
      and then they are one proof modulo r, unless the secret is the point of the index. */
  lemma TwoProofs(pl: Pledge, p: Proof, q: Proof, hash: seq<byte> -> nat, r: nat)
    requires IsPrime(r) && r > 1 && ValidSrs(pl.srs, r) && p.i == q.i
    requires VerifyProof(pl, p, hash, r) && VerifyProof(pl, q, hash, r)
    ensures var x := PointOf(pl.n, p.i, r);
      p.yi == q.yi || Cong(pl.srs.tau, x + (q.yi - p.yi) * Inv(p.pi.e - q.pi.e, r), r)
    ensures p.yi == q.yi ==> Cong(p.pi.e, q.pi.e, r) || Cong(pl.srs.tau, PointOf(pl.n, p.i, r), r)
  {
    hide Mod, Pow, Inv, VerifyProof, IsPrime, Cong;
    VerifyMeaning(pl, p, hash, r);
    VerifyMeaning(pl, q, hash, r);
    ReducedHash(hash, p.block, r);
    ReducedHash(hash, q.block, r);
    TwoOpenings(p.pi.e, q.pi.e, pl.commit.e, p.yi, q.yi, PointOf(pl.n, p.i, r), pl.srs.tau, r);
  }

  /** The check does not ask for an index below n: it takes any that is the same modulo r. */
  lemma IndexModR(pl: Pledge, proof: Proof, hash: seq<byte> -> nat, r: nat)
    requires r > 1 && ValidSrs(pl.srs, r)
    ensures VerifyProof(pl, proof.(i := proof.i + r), hash, r) <==> VerifyProof(pl, proof, hash, r)
  {
    hide Pow, Inv, VerifyProof, Mod;
    VerifyMeaning(pl, proof, hash, r);
    VerifyMeaning(pl, proof.(i := proof.i + r), hash, r);
    var u := Inv(pl.n, r);
    assert (proof.i + r) * u == proof.i * u + u * r;
    ModShift(proof.i * u, u, r);
  }
}
