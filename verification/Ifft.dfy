/** The inverse transform and its round trip with the forward one. */
module Ifft {
  import opened Residue
  import opened Poly
  import opened Prime
  import opened BitReverse
  import opened Fft
  import opened Domain

  /** The coefficients that `ifft_in_place` computes from the values f: the transform with the
      inverse root, scaled by 1/n. */
  ghost function Idft(f: seq<int>, v: int, p: nat): (c: seq<int>)
    requires p >= 2
    ensures |c| == |f| && Reduced(c, p)
  {
    seq(|f|, j requires 0 <= j < |f| => Mod(Dft(f, v, p)[j] * Inv(|f|, p), p))
  }

  lemma DftIsPoints(a: seq<int>, w: int, n: nat, p: nat)
    requires p > 0 && n == |a|
    ensures SeqCong(Dft(a, w, p), Points(a, 1, w, n), p)
  {
    hide Eval, Pow;
    forall k | 0 <= k < n ensures Cong(Dft(a, w, p)[k], Points(a, 1, w, n)[k], p) {
      PointsAt(a, 1, w, n, k);
    }
  }

  /** Transforming twice, the second time with the inverse root, multiplies by n. */
  lemma TransformTwice(a: seq<int>, w: int, v: int, j: nat, p: nat)
    requires p > 0 && RootPair(w, v, |a|, p) && j < |a|
    ensures Cong(Eval(Dft(a, w, p), Pow(v, j)), |a| * a[j], p)
  {
    hide Eval, Pow, Mod, RootPair, Dft;
    DftIsPoints(a, w, |a|, p);
    CongRefl(Pow(v, j), p);
    EvalCong(Dft(a, w, p), Points(a, 1, w, |a|), Pow(v, j), Pow(v, j), p);
    Extract(a, w, v, j, |a|, p);
  }

  /** Scaling every coefficient scales every value. */
  lemma {:induction false} EvalScaled(a: seq<int>, b: seq<int>, c: int, x: int, p: nat)
    requires p > 0 && |a| == |b| && forall i :: 0 <= i < |a| ==> Cong(a[i], b[i] * c, p)
    ensures Cong(Eval(a, x), c * Eval(b, x), p)
  {
    hide Mod;
    if a != [] {
      EvalScaled(a[1..], b[1..], c, x, p);
      CongScale(x, Eval(a[1..], x), c * Eval(b[1..], x), p);
      CongAdd(a[0], b[0] * c, x * Eval(a[1..], x), x * (c * Eval(b[1..], x)), p);
      ScaleStep(b[0], c, x, Eval(b[1..], x));
    }
  }

  lemma ScaleStep(b0: int, c: int, x: int, e: int)
    ensures b0 * c + x * (c * e) == c * (b0 + x * e)
  {
    assert x * (c * e) == c * (x * e);
  }

  /** The polynomial interpolated by Idft takes value f[k] at w^k. */
  lemma Interpolates(f: seq<int>, w: int, v: int, k: nat, p: nat)
    requires IsPrime(p) && RootPair(w, v, |f|, p) && k < |f| && !Cong(|f|, 0, p)
    ensures Cong(Eval(Idft(f, v, p), Pow(w, k)), f[k], p)
  {
    hide Eval, Pow, Dft, Mod, Inv;
    var n, u := |f|, Inv(|f|, p);
    RootPairSym(w, v, n, p);
    TransformTwice(f, v, w, k, p);
    EvalScaledIdft(f, v, Pow(w, k), p);
    var e := Eval(Dft(f, v, p), Pow(w, k));
    CongScale(u, e, n * f[k], p);
    InverseLaw(n, p);
    CongScale(f[k], n * u, 1, p);
    assert u * (n * f[k]) == f[k] * (n * u) && f[k] * 1 == f[k];
  }

  lemma EvalScaledIdft(f: seq<int>, v: int, x: int, p: nat)
    requires p >= 2
    ensures Cong(Eval(Idft(f, v, p), x), Inv(|f|, p) * Eval(Dft(f, v, p), x), p)
  {
    hide Eval, Pow, Dft, Inv;
    forall i | 0 <= i < |f| ensures Cong(Idft(f, v, p)[i], Dft(f, v, p)[i] * Inv(|f|, p), p) {
    }
    EvalScaled(Idft(f, v, p), Dft(f, v, p), Inv(|f|, p), x, p);
  }

  /** Forward after inverse is the identity. */
  lemma RoundTrip(f: seq<int>, w: int, v: int, p: nat)
    requires IsPrime(p) && RootPair(w, v, |f|, p) && !Cong(|f|, 0, p) && Reduced(f, p)
    ensures Dft(Idft(f, v, p), w, p) == f
  {
    hide Eval, Pow, Idft, Inv, RootPair, IsPrime;
    forall k | 0 <= k < |f| ensures Dft(Idft(f, v, p), w, p)[k] == f[k] {
      Interpolates(f, w, v, k, p);
    }
  }

  /** Inverse after forward is the identity too. */
  lemma RoundTripBack(c: seq<int>, w: int, v: int, p: nat)
    requires IsPrime(p) && RootPair(w, v, |c|, p) && !Cong(|c|, 0, p)
    ensures SeqCong(Idft(Dft(c, w, p), v, p), c, p)
    ensures Reduced(c, p) ==> Idft(Dft(c, w, p), v, p) == c
  {
    hide Eval, Pow, RootPair, IsPrime, Inv, Mod;
    var n, u := |c|, Inv(|c|, p);
    var b := Idft(Dft(c, w, p), v, p);
    forall j | 0 <= j < n ensures Cong(b[j], c[j], p) && (0 <= c[j] < p ==> b[j] == c[j]) {
      TransformTwice(c, w, v, j, p);
      var d := Dft(Dft(c, w, p), v, p)[j];
      DftAt(Dft(c, w, p), v, j, p);
      CongScale(u, d, n * c[j], p);
      InverseLaw(n, p);
      CongScale(c[j], n * u, 1, p);
      assert u * (n * c[j]) == c[j] * (n * u) && d * u == u * d && c[j] * 1 == c[j];
      ModCong(d * u, p);
      if 0 <= c[j] < p { CongOfReduced(d * u, c[j], p); }
    }
  }

  lemma CongOfReduced(x: int, y: nat, p: nat)
    requires y < p && Cong(x, y, p)
    ensures Mod(x, p) == y
  {
  }

  /** ifft_in_place for a domain of `size` points. The array is left holding the interpolated
      coefficients, and transforming it forward restores the values. */
  method IfftInPlace(values: array<int>, omega: nat, size: nat, p: nat) returns (r: Outcome)
    requires IsPrime(p) && Reduced(values[..], p) && size != 1 && size <= TwoPow(64)
    modifies values
    ensures r == Done <==>
      values.Length == size && IsPowerOfTwo(size) && size != 0 && !Cong(omega, 0, p) && !Cong(size, 0, p)
    ensures values.Length != size || Cong(omega, 0, p) ==> values[..] == old(values[..])
    ensures r == Done && Cong(Pow(omega, size / 2), -1, p) ==>
      values[..] == Idft(old(values[..]), Inv(omega, p), p) &&
      Dft(values[..], omega, p) == old(values[..])
  {
    hide Pow, Inv, Dft, TwoPow, Eval;
    ghost var f := values[..];
    if values.Length != size {
      return Failed(InvalidDataLength);
    }
    if Mod(omega, p) == 0 {
      return Failed(Internal);
    }
    var omegaInv := Inv(omega, p);
    var out := FftInPlace(values, omegaInv, p);
    if out.Failed? {
      return out;
    }
    if Mod(size, p) == 0 {
      return Failed(Internal);
    }
    var nInv := Inv(size, p);
    ghost var d := values[..];
    for i := 0 to values.Length
      invariant forall k :: 0 <= k < i ==> values[k] == Mod(d[k] * nInv, p)
      invariant forall k :: i <= k < values.Length ==> values[k] == d[k]
    {
      values[i] := Mod(values[i] * nInv, p);
    }
    if Cong(Pow(omega, size / 2), -1, p) {
      InverseLaw(omega, p);
      assert RootPair(omega, omegaInv, size, p);
      RootPairSym(omega, omegaInv, size, p);
      assert values[..] == Idft(f, omegaInv, p);
      RoundTrip(f, omega, omegaInv, p);
    }
    return Done;
  }
}
