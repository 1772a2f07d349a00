/** The in-place radix-2 transform: what one butterfly pass does to a decimated array, and that the
    passes together evaluate the coefficient vector at every power of omega. */
module Fft {
  import opened Residue
  import opened Poly
  import opened BitReverse

  // ----- decimation -----

  ghost function Evens(a: seq<int>): (s: seq<int>)
    requires |a| % 2 == 0
    ensures |s| == |a| / 2
    ensures forall i :: 0 <= i < |s| ==> s[i] == a[2 * i]
  {
    if a == [] then [] else [a[0]] + Evens(a[2..])
  }

  ghost function Odds(a: seq<int>): (s: seq<int>)
    requires |a| % 2 == 0
    ensures |s| == |a| / 2
    ensures forall i :: 0 <= i < |s| ==> s[i] == a[2 * i + 1]
  {
    if a == [] then [] else [a[1]] + Odds(a[2..])
  }

  /** a(x) = even(x^2) + x * odd(x^2). */
  lemma {:induction false} EvalSplit(a: seq<int>, x: int)
    requires |a| % 2 == 0
    ensures Eval(a, x) == Eval(Evens(a), x * x) + x * Eval(Odds(a), x * x)
  {
    if a != [] {
      EvalSplit(a[2..], x);
      assert a[1..][1..] == a[2..];
      assert Evens(a)[1..] == Evens(a[2..]) && Odds(a)[1..] == Odds(a[2..]);
      SplitStep(a[0], a[1], Eval(Evens(a[2..]), x * x), Eval(Odds(a[2..]), x * x), x);
    }
  }

  lemma SplitStep(a0: int, a1: int, e: int, o: int, x: int)
    ensures a0 + x * (a1 + x * (e + x * o)) == (a0 + x * x * e) + x * (a1 + x * x * o)
  {
    MulAssoc(x, x, e);
    MulAssoc(x, x, o);
    MulAssoc(x, x, x * o);
    assert x * (e + x * o) == x * e + x * (x * o);
    assert x * (a1 + x * (e + x * o)) == x * a1 + x * (x * e) + x * (x * (x * o));
    assert x * (a1 + x * x * o) == x * a1 + x * (x * x * o);
  }

  // ----- the transform and its stages -----

  /** The values of a at w^0, w^1, ..., one for each coefficient. */
  ghost function Dft(a: seq<int>, w: int, p: nat): (s: seq<int>)
    requires p > 0
    ensures |s| == |a|
    ensures Reduced(s, p)
  {
    seq(|a|, k requires 0 <= k => Mod(Eval(a, Pow(w, k)), p))
  }

  /** The array when all blocks of length len hold the transform of their decimated part of a. */
  ghost function Stage(a: seq<int>, len: nat, w: int, p: nat): (s: seq<int>)
    requires p > 0 && IsPowerOfTwo(|a|) && IsPowerOfTwo(len) && len <= |a|
    ensures |s| == |a|
    decreases |a|
  {
    if len == |a| then Dft(a, w, p)
    else
      HalfStillFits(len, |a|);
      Stage(Evens(a), len, w, p) + Stage(Odds(a), len, w, p)
  }

  lemma {:induction false} HalfStillFits(len: nat, n: nat)
    requires IsPowerOfTwo(len) && IsPowerOfTwo(n) && len < n
    ensures IsPowerOfTwo(n / 2) && n % 2 == 0 && len <= n / 2
    decreases n
  {
    if len > 1 { HalfStillFits(len / 2, n / 2); }
  }

  /** What one butterfly does to a block v of even length. */
  ghost function Butterfly(v: seq<int>, w: int, p: nat): (s: seq<int>)
    requires p > 0 && |v| % 2 == 0
    ensures |s| == |v|
  {
    var h := |v| / 2;
    seq(|v|, k requires 0 <= k < |v| =>
      if k < h then Upper(v[k], v[k + h], Pow(w, k), p) else Lower(v[k - h], v[k], Pow(w, k - h), p))
  }

  /** The two results of combining u and v with twiddle factor t. */
  ghost function Upper(u: int, v: int, t: int, p: nat): int
    requires p > 0
  {
    Mod(u + v * t, p)
  }

  ghost function Lower(u: int, v: int, t: int, p: nat): int
    requires p > 0
  {
    Mod(u - v * t, p)
  }

  /** One pass: a butterfly on every block of length len. */
  ghost function Pass(v: seq<int>, len: nat, w: int, p: nat): (s: seq<int>)
    requires p > 0 && len > 0 && len % 2 == 0
    ensures |s| <= |v|
    decreases |v|
  {
    if |v| < len then [] else Butterfly(v[..len], w, p) + Pass(v[len..], len, w, p)
  }

  ghost predicate Multiple(n: int, len: nat)
    requires len > 0
    decreases n
  {
    n == 0 || (n >= len && Multiple(n - len, len))
  }

  lemma {:induction false} PassAppend(s: seq<int>, t: seq<int>, len: nat, w: int, p: nat)
    requires p > 0 && len > 0 && len % 2 == 0 && Multiple(|s|, len)
    ensures Pass(s + t, len, w, p) == Pass(s, len, w, p) + Pass(t, len, w, p)
    decreases |s|
  {
    hide Butterfly, Mod;
    if s == [] {
      assert s + t == t;
    } else {
      PassAppend(s[len..], t, len, w, p);
      assert (s + t)[..len] == s[..len] && (s + t)[len..] == s[len..] + t;
    }
  }

  lemma {:induction false} MultipleAdd(m: nat, n: nat, len: nat)
    requires len > 0 && Multiple(m, len) && Multiple(n, len)
    ensures Multiple(m + n, len)
    decreases m
  {
    if m != 0 { MultipleAdd(m - len, n, len); }
  }

  lemma {:induction false} PowerMultiple(n: nat, len: nat)
    requires IsPowerOfTwo(n) && IsPowerOfTwo(len) && len <= n
    ensures Multiple(n, len)
    decreases n
  {
    if len < n {
      HalfStillFits(len, n);
      PowerMultiple(n / 2, len);
      MultipleAdd(n / 2, n / 2, len);
    }
  }

  // ----- one pass doubles the block length -----

  lemma DftAt(a: seq<int>, w: int, k: nat, p: nat)
    requires p > 0 && k < |a|
    ensures Cong(Dft(a, w, p)[k], Eval(a, Pow(w, k)), p)
  {
  }

  ghost function Square(w: int): int { w * w }

  lemma {:induction false} SquarePow(w: int, k: nat)
    ensures Pow(Square(w), k) == Pow(w, k) * Pow(w, k)
  {
    PowProduct(w, w, k);
  }

  lemma EvalAtNegative(a: seq<int>, x: int)
    requires |a| % 2 == 0
    ensures Eval(a, -x) == Eval(Evens(a), x * x) - x * Eval(Odds(a), x * x)
  {
    EvalSplit(a, -x);
    assert (-x) * (-x) == x * x;
    assert (-x) * Eval(Odds(a), x * x) == -(x * Eval(Odds(a), x * x));
  }

  lemma ButterflySums(e: int, o: int, ev: int, ov: int, x: int, p: nat)
    requires p > 0 && Cong(e, ev, p) && Cong(o, ov, p)
    ensures Cong(e + o * x, ev + x * ov, p) && Cong(e - o * x, ev - x * ov, p)
  {
    CongScale(x, o, ov, p);
    CongAdd(e, ev, x * o, x * ov, p);
    assert o * x == x * o;
  }

  /** Past the middle the powers of w repeat with the opposite sign. */
  lemma UpperHalfPower(w: int, h: nat, k: nat, p: nat)
    requires p > 0 && Cong(Pow(w, h), -1, p)
    ensures Cong(Pow(w, h + k), -Pow(w, k), p)
  {
    hide Cong, Mod, Pow;
    PowAdd(w, h, k);
    assert Pow(w, h) * Pow(w, k) == Pow(w, k) * Pow(w, h);
    CongScale(Pow(w, k), Pow(w, h), -1, p);
    assert Pow(w, k) * -1 == -Pow(w, k);
  }

  /** The two outputs of a butterfly on transformed halves are values of the whole polynomial. */
  lemma ButterflyValue(a: seq<int>, w: int, k: nat, e: int, o: int, p: nat)
    requires p > 0 && |a| % 2 == 0 && Cong(Pow(w, |a| / 2), -1, p)
    requires Cong(e, Eval(Evens(a), Pow(Square(w), k)), p) && Cong(o, Eval(Odds(a), Pow(Square(w), k)), p)
    ensures Upper(e, o, Pow(w, k), p) == Mod(Eval(a, Pow(w, k)), p)
    ensures Lower(e, o, Pow(w, k), p) == Mod(Eval(a, Pow(w, |a| / 2 + k)), p)
  {
    hide Mod, Eval, Pow, Evens, Odds;
    var h, x := |a| / 2, Pow(w, k);
    SquarePow(w, k);
    ButterflySums(e, o, Eval(Evens(a), x * x), Eval(Odds(a), x * x), x, p);
    EvalSplit(a, x);
    EvalAtNegative(a, x);
    UpperHalfPower(w, h, k, p);
    EvalCongAt(a, Pow(w, h + k), -x, p);
  }

  lemma EvalCongAt(a: seq<int>, x: int, y: int, p: nat)
    requires p > 0 && Cong(x, y, p)
    ensures Cong(Eval(a, x), Eval(a, y), p)
  {
    EvalCong(a, a, x, y, p);
  }

  lemma ButterflyAt(u: seq<int>, v: seq<int>, w: int, k: nat, p: nat)
    requires p > 0 && |u| == |v| && k < |u|
    ensures Butterfly(u + v, w, p)[k] == Upper(u[k], v[k], Pow(w, k), p)
    ensures Butterfly(u + v, w, p)[|u| + k] == Lower(u[k], v[k], Pow(w, k), p)
  {
    hide Mod, Pow, Upper, Lower;
    assert (u + v)[k] == u[k] && (u + v)[k + |u|] == v[k];
  }

  lemma ButterflyEntry(a: seq<int>, w: int, k: nat, p: nat)
    requires p > 0 && |a| % 2 == 0 && Cong(Pow(w, |a| / 2), -1, p) && k < |a|
    ensures Butterfly(Dft(Evens(a), Square(w), p) + Dft(Odds(a), Square(w), p), w, p)[k] == Dft(a, w, p)[k]
  {
    hide Mod, Pow, Eval, Evens, Odds, Square, Upper, Lower, Cong, Butterfly;
    var h := |a| / 2;
    var e, o := Dft(Evens(a), Square(w), p), Dft(Odds(a), Square(w), p);
    var j := if k < h then k else k - h;
    DftAt(Evens(a), Square(w), j, p);
    DftAt(Odds(a), Square(w), j, p);
    ButterflyValue(a, w, j, e[j], o[j], p);
    ButterflyAt(e, o, w, j, p);
  }

  lemma ButterflyIsDft(a: seq<int>, w: int, p: nat)
    requires p > 0 && |a| % 2 == 0 && Cong(Pow(w, |a| / 2), -1, p)
    ensures Butterfly(Dft(Evens(a), Square(w), p) + Dft(Odds(a), Square(w), p), w, p) == Dft(a, w, p)
  {
    hide Mod, Pow, Eval, Evens, Odds, Square, Dft, Butterfly, Cong;
    forall k | 0 <= k < |a|
      ensures Butterfly(Dft(Evens(a), Square(w), p) + Dft(Odds(a), Square(w), p), w, p)[k] == Dft(a, w, p)[k]
    {
      ButterflyEntry(a, w, k, p);
    }
  }

  /** The last pass is one butterfly. */
  lemma TopPass(a: seq<int>, h: nat, w: int, p: nat)
    requires p > 0 && IsPowerOfTwo(|a|) && IsPowerOfTwo(h) && 2 * h == |a| && Cong(Pow(w, h), -1, p)
    ensures IsPowerOfTwo(2 * h)
    ensures Pass(Stage(a, h, Square(w), p), 2 * h, w, p) == Stage(a, 2 * h, w, p)
  {
    hide Mod, Pow, Dft, Butterfly, Cong, Square, Evens, Odds, Upper, Lower;
    var s := Stage(a, h, Square(w), p);
    assert Stage(Evens(a), h, Square(w), p) == Dft(Evens(a), Square(w), p);
    assert Stage(Odds(a), h, Square(w), p) == Dft(Odds(a), Square(w), p);
    ButterflyIsDft(a, w, p);
    assert s[..2 * h] == s && s[2 * h..] == [];
  }

  /** Longer arrays are two stages side by side. */
  lemma StageHalves(a: seq<int>, len: nat, w: int, p: nat)
    requires p > 0 && IsPowerOfTwo(|a|) && IsPowerOfTwo(len) && len < |a|
    ensures |a| % 2 == 0 && IsPowerOfTwo(|a| / 2) && len <= |a| / 2
    ensures Stage(a, len, w, p) == Stage(Evens(a), len, w, p) + Stage(Odds(a), len, w, p)
  {
    hide Evens, Odds, Dft;
    HalfStillFits(len, |a|);
  }

  lemma {:induction false} StageStep(a: seq<int>, h: nat, w: int, p: nat)
    requires p > 0 && IsPowerOfTwo(|a|) && IsPowerOfTwo(h) && 2 * h <= |a|
    requires Cong(Pow(w, h), -1, p)
    ensures IsPowerOfTwo(2 * h)
    ensures Pass(Stage(a, h, Square(w), p), 2 * h, w, p) == Stage(a, 2 * h, w, p)
    decreases |a|
  {
    hide Mod, Pow, Dft, Butterfly, Cong, Square, Evens, Odds, Upper, Lower, Pass, Stage;
    assert IsPowerOfTwo(2 * h);
    if 2 * h == |a| {
      TopPass(a, h, w, p);
    } else {
      StageHalves(a, h, Square(w), p);
      StageHalves(a, 2 * h, w, p);
      StageStep(Evens(a), h, w, p);
      StageStep(Odds(a), h, w, p);
      PowerMultiple(|a| / 2, 2 * h);
      PassAppend(Stage(Evens(a), h, Square(w), p), Stage(Odds(a), h, Square(w), p), 2 * h, w, p);
    }
  }

  lemma PermutedHalves(a: seq<int>, r: seq<int>, b: nat)
    requires b > 0 && IsPermuted(a, r, b)
    ensures |a| % 2 == 0 && |a| / 2 == TwoPow(b - 1)
    ensures IsPermuted(Evens(a), r[..|a| / 2], b - 1)
    ensures IsPermuted(Odds(a), r[|a| / 2..], b - 1)
  {
    hide Reverse, Evens, Odds;
    var h := |a| / 2;
    assert TwoPow(b) == 2 * TwoPow(b - 1);
    var lo, hi, e, o, c := r[..h], r[h..], Evens(a), Odds(a), b - 1;
    forall i | 0 <= i < h ensures Reverse(i, c) < h && lo[i] == e[Reverse(i, c)] && hi[i] == o[Reverse(i, c)] {
      PermutedHalf(a, r, b, i);
    }
  }

  lemma PermutedHalf(a: seq<int>, r: seq<int>, b: nat, i: nat)
    requires b > 0 && IsPermuted(a, r, b) && i < |a| / 2
    ensures |a| / 2 == TwoPow(b - 1) && Reverse(i, b - 1) < |a| / 2 && i + |a| / 2 < |r|
    ensures r[i] == Evens(a)[Reverse(i, b - 1)] && r[|a| / 2 + i] == Odds(a)[Reverse(i, b - 1)]
  {
    hide Reverse;
    var h := |a| / 2;
    assert TwoPow(b) == 2 * TwoPow(b - 1);
    assert 0 * TwoPow(b - 1) + i == i && 1 * TwoPow(b - 1) + i == h + i;
    assert r[i] == a[Reverse(i, b)] && r[h + i] == a[Reverse(h + i, b)];
    ReverseTop(0, i, b);
    ReverseTop(1, i, b);
    ReverseBound(i, b - 1);
  }

  /** Blocks of length one: the bit-reversed array. */
  lemma {:induction false} FirstStage(a: seq<int>, r: seq<int>, w: int, p: nat)
    requires p > 0 && IsPowerOfTwo(|a|) && Reduced(a, p) && IsPermuted(a, r, Log2(|a|))
    ensures r == Stage(a, 1, w, p)
    decreases |a|
  {
    hide Mod, Pow, Eval, Reverse, TwoPow, Dft;
    if |a| == 1 {
      SinglePoint(a, r, w, p);
    } else {
      PermutedHalves(a, r, Log2(|a|));
      FirstStage(Evens(a), r[..|a| / 2], w, p);
      FirstStage(Odds(a), r[|a| / 2..], w, p);
      assert r == r[..|a| / 2] + r[|a| / 2..];
    }
  }

  lemma SinglePoint(a: seq<int>, r: seq<int>, w: int, p: nat)
    requires p > 0 && |a| == 1 && Reduced(a, p) && IsPermuted(a, r, 0)
    ensures r == Dft(a, w, p)
  {
    assert a[1..] == [] && Pow(w, 0) == 1;
    assert Reverse(0, 0) == 0;
    assert Eval(a, 1) == a[0];
  }

  // ----- congruent roots -----

  lemma DftCong(a: seq<int>, w: int, v: int, p: nat)
    requires p > 0 && Cong(w, v, p)
    ensures Dft(a, w, p) == Dft(a, v, p)
  {
    hide Mod, Eval, Pow;
    forall k | 0 <= k < |a| ensures Dft(a, w, p)[k] == Dft(a, v, p)[k] {
      PowCong(w, v, k, p);
      EvalCongAt(a, Pow(w, k), Pow(v, k), p);
    }
  }

  lemma {:induction false} StageCong(a: seq<int>, len: nat, w: int, v: int, p: nat)
    requires p > 0 && IsPowerOfTwo(|a|) && IsPowerOfTwo(len) && len <= |a| && Cong(w, v, p)
    ensures Stage(a, len, w, p) == Stage(a, len, v, p)
    decreases |a|
  {
    if len == |a| {
      DftCong(a, w, v, p);
    } else {
      HalfStillFits(len, |a|);
      StageCong(Evens(a), len, w, v, p);
      StageCong(Odds(a), len, w, v, p);
    }
  }

  // ----- the roots used by the passes -----

  /** The root of unity of blocks of length len. */
  function BlockRoot(omega: int, n: nat, len: nat, p: nat): (w: nat)
    requires p > 0 && len > 0
    ensures w < p
  {
    Mod(Pow(omega, n / len), p)
  }

  lemma {:induction false} PowerQuotient(n: nat, len: nat)
    requires IsPowerOfTwo(n) && IsPowerOfTwo(len) && len <= n
    ensures n / len * len == n
    decreases n
  {
    if len == n {
      DivideExactly(1, n);
    } else {
      HalfStillFits(len, n);
      PowerQuotient(n / 2, len);
      var q := n / 2 / len;
      assert 2 * q * len == n;
      DivideExactly(2 * q, len);
    }
  }

  lemma BlockRootPower(omega: int, n: nat, len: nat, e: nat, p: nat)
    requires p > 0 && len > 0
    ensures Cong(Pow(BlockRoot(omega, n, len, p), e), Pow(omega, n / len * e), p)
  {
    hide Pow;
    PowCong(BlockRoot(omega, n, len, p), Pow(omega, n / len), e, p);
    PowTimes(omega, n / len, e);
  }

  /** The middle power of a block root is -1, and its square is the root of blocks half as long. */
  lemma BlockRootLaws(omega: int, n: nat, h: nat, p: nat)
    requires p > 0 && IsPowerOfTwo(n) && IsPowerOfTwo(h) && 2 * h <= n && Cong(Pow(omega, n / 2), -1, p)
    ensures IsPowerOfTwo(2 * h)
    ensures Cong(Pow(BlockRoot(omega, n, 2 * h, p), h), -1, p)
    ensures Cong(Square(BlockRoot(omega, n, 2 * h, p)), BlockRoot(omega, n, h, p), p)
  {
    hide Pow, Mod, BlockRoot;
    BlockExponents(n, h);
    BlockRootPower(omega, n, 2 * h, h, p);
    BlockRootSquare(omega, n, h, p);
  }

  lemma BlockExponents(n: nat, h: nat)
    requires IsPowerOfTwo(n) && IsPowerOfTwo(h) && 2 * h <= n
    ensures IsPowerOfTwo(2 * h)
    ensures n / (2 * h) * h == n / 2 && n / (2 * h) * 2 == n / h
  {
    var q := n / (2 * h);
    assert IsPowerOfTwo(2 * h);
    PowerQuotient(n, 2 * h);
    ExactHalf(q, h, n);
    DivideExactly(2 * q, h);
  }

  lemma BlockRootSquare(omega: int, n: nat, h: nat, p: nat)
    requires p > 0 && h > 0 && n / (2 * h) * 2 == n / h
    ensures Cong(Square(BlockRoot(omega, n, 2 * h, p)), BlockRoot(omega, n, h, p), p)
  {
    hide Pow, Mod;
    BlockRootPower(omega, n, 2 * h, 2, p);
    PowTwo(BlockRoot(omega, n, 2 * h, p));
    ModCong(Pow(omega, n / h), p);
  }

  lemma PowTwo(w: int)
    ensures Pow(w, 2) == w * w
  {
    assert Pow(w, 1) == w * Pow(w, 0);
  }

  lemma ExactHalf(q: nat, h: nat, n: nat)
    requires q * (2 * h) == n
    ensures n == (2 * q) * h && n / 2 == q * h
  {
  }

  // ----- the programs -----

  datatype KzgError = InvalidDataLength | Internal

  datatype Outcome = Done | Failed(error: KzgError)

  /** The two values of one butterfly. */
  method ButterflyPair(values: array<int>, lo: nat, hi: nat, w: int, ghost t: int, p: nat)
    requires p > 0 && lo < hi < values.Length && Cong(w, t, p)
    modifies values
    ensures values[lo] == Upper(old(values[lo]), old(values[hi]), t, p)
    ensures values[hi] == Lower(old(values[lo]), old(values[hi]), t, p)
    ensures forall m :: 0 <= m < values.Length && m != lo && m != hi ==> values[m] == old(values[m])
  {
    hide Mod, Upper, Lower, Cong;
    var u := values[lo];
    var x := values[hi];
    var v := Mod(x * w, p);
    ButterflyScalars(u, x, w, t, p);
    values[lo] := Mod(u + v, p);
    values[hi] := Mod(u - v, p);
  }

  /** One block of one pass, in place. */
  method ButterflyInPlace(values: array<int>, i: nat, len: nat, wlen: nat, p: nat)
    requires p > 1 && len % 2 == 0 && i + len <= values.Length
    modifies values
    ensures values[..]
      == old(values[..i]) + Butterfly(old(values[i..i + len]), wlen, p) + old(values[i + len..])
  {
    hide Mod, Pow, Upper, Lower, Butterfly, Cong, Halfway;
    var half := len / 2;
    var w := 1;
    ghost var b := values[i..i + len];
    PowZero(wlen, p);
    HalfwayStart(b, wlen, p);
    for j := 0 to half
      invariant Cong(w, Pow(wlen, j), p)
      invariant values[..i] == old(values[..i]) && values[i + len..] == old(values[i + len..])
      invariant Halfway(b, values[i..i + len], j, wlen, p)
    {
      ghost var c := values[i..i + len];
      HalfwayStep(b, c, j, wlen, p);
      ButterflyPair(values, i + j, i + j + half, w, Pow(wlen, j), p);
      assert values[i..i + len]
        == c[j := Upper(c[j], c[j + half], Pow(wlen, j), p)][j + half := Lower(c[j], c[j + half], Pow(wlen, j), p)];
      NextPower(w, wlen, j, p);
      w := Mod(w * wlen, p);
    }
    HalfwayEnd(b, values[i..i + len], wlen, p);
    assert values[..] == values[..i] + values[i..i + len] + values[i + len..];
  }

  /** Butterfly k of a block, done if k < j. */
  ghost predicate PairDone(b: seq<int>, c: seq<int>, j: nat, k: nat, w: int, p: nat)
    requires p > 0 && |c| == |b| && k + |b| / 2 < |b|
  {
    var h, t := k + |b| / 2, Pow(w, k);
    if k < j then c[k] == Upper(b[k], b[h], t, p) && c[h] == Lower(b[k], b[h], t, p)
    else c[k] == b[k] && c[h] == b[h]
  }

  /** A block of which j butterflies are done. */
  ghost predicate Halfway(b: seq<int>, c: seq<int>, j: nat, w: int, p: nat)
    requires p > 0
  {
    |b| % 2 == 0 && |c| == |b| && j <= |b| / 2 && forall k: nat :: k < |b| / 2 ==> PairDone(b, c, j, k, w, p)
  }

  lemma HalfwayStart(b: seq<int>, w: int, p: nat)
    requires p > 0 && |b| % 2 == 0
    ensures Halfway(b, b, 0, w, p)
  {
  }

  lemma HalfwayStep(b: seq<int>, c: seq<int>, j: nat, w: int, p: nat)
    requires p > 0 && Halfway(b, c, j, w, p) && j < |b| / 2
    ensures |c| == |b| && c[j] == b[j] && c[j + |b| / 2] == b[j + |b| / 2]
    ensures var half, t := |b| / 2, Pow(w, j);
      Halfway(b, c[j := Upper(c[j], c[j + half], t, p)][j + half := Lower(c[j], c[j + half], t, p)], j + 1, w, p)
  {
    hide Pow, Upper, Lower;
    assert PairDone(b, c, j, j, w, p);
    var half, t := |b| / 2, Pow(w, j);
    var d := c[j := Upper(c[j], c[j + half], t, p)][j + half := Lower(c[j], c[j + half], t, p)];
    var next := j + 1;
    forall k: nat | k < half ensures PairDone(b, d, next, k, w, p) {
      assert PairDone(b, c, j, k, w, p);
    }
  }

  lemma HalfwayEnd(b: seq<int>, c: seq<int>, w: int, p: nat)
    requires p > 0 && Halfway(b, c, |b| / 2, w, p)
    ensures c == Butterfly(b, w, p)
  {
    hide Pow, Upper, Lower;
    var half := |b| / 2;
    forall k | 0 <= k < half
      ensures c[k] == Upper(b[k], b[k + half], Pow(w, k), p) && c[k + half] == Lower(b[k], b[k + half], Pow(w, k), p)
    {
      assert PairDone(b, c, half, k, w, p);
    }
    forall k | half <= k < |b| ensures c[k] == Lower(b[k - half], b[k], Pow(w, k - half), p) {
      assert PairDone(b, c, half, k - half, w, p);
    }
    ButterflyFrom(b, c, w, p);
  }

  lemma ButterflyFrom(b: seq<int>, c: seq<int>, w: int, p: nat)
    requires p > 0 && |b| % 2 == 0 && |c| == |b|
    requires forall k :: 0 <= k < |b| / 2 ==> c[k] == Upper(b[k], b[k + |b| / 2], Pow(w, k), p)
    requires forall k :: |b| / 2 <= k < |b| ==> c[k] == Lower(b[k - |b| / 2], b[k], Pow(w, k - |b| / 2), p)
    ensures c == Butterfly(b, w, p)
  {
    hide Mod, Pow, Upper, Lower;
  }

  lemma ButterflyScalars(u: int, x: int, w: int, t: int, p: nat)
    requires p > 0 && Cong(w, t, p)
    ensures Mod(u + Mod(x * w, p), p) == Upper(u, x, t, p)
    ensures Mod(u - Mod(x * w, p), p) == Lower(u, x, t, p)
  {
    CongScale(x, w, t, p);
    ModCong(x * w, p);
    CongAdd(u, u, Mod(x * w, p), x * t, p);
  }

  /** One pass over all blocks of length len, in place. */
  method PassInPlace(values: array<int>, len: nat, wlen: nat, p: nat)
    requires p > 1 && len > 0 && len % 2 == 0 && Multiple(values.Length, len)
    modifies values
    ensures values[..] == Pass(old(values[..]), len, wlen, p)
  {
    hide Butterfly, Mod, Pass;
    ghost var v, done := values[..], [];
    var i := 0;
    while i < values.Length
      invariant 0 <= i <= values.Length && Multiple(values.Length - i, len)
      invariant |done| == i && values[..] == done + v[i..]
      invariant done + Pass(v[i..], len, wlen, p) == Pass(v, len, wlen, p)
    {
      PassHead(v, i, len, wlen, p);
      SliceOfRest(done, v, i, len);
      ButterflyInPlace(values, i, len, wlen, p);
      done := done + Butterfly(v[i..i + len], wlen, p);
      i := i + len;
    }
    NoMoreBlocks(v, len, wlen, p);
  }

  lemma PassHead(v: seq<int>, i: nat, len: nat, w: int, p: nat)
    requires p > 0 && len > 0 && len % 2 == 0 && i + len <= |v|
    ensures Pass(v[i..], len, w, p) == Butterfly(v[i..i + len], w, p) + Pass(v[i + len..], len, w, p)
  {
    hide Butterfly;
    assert v[i..][..len] == v[i..i + len] && v[i..][len..] == v[i + len..];
  }

  lemma SliceOfRest(done: seq<int>, v: seq<int>, i: nat, len: nat)
    requires |done| == i && i + len <= |v|
    ensures var s := done + v[i..];
      s[..i] == done && s[i..i + len] == v[i..i + len] && s[i + len..] == v[i + len..]
  {
  }

  lemma NoMoreBlocks(v: seq<int>, len: nat, w: int, p: nat)
    requires p > 0 && len > 0 && len % 2 == 0
    ensures Pass(v[|v|..], len, w, p) == [] == v[|v|..]
  {
  }

  /** fft_in_place: for a root of unity omega of order n the array becomes the values of its old
      contents, read as coefficients, at 1, omega, omega^2, ... A one-element slice is out: the
      source shifts by the whole word width there. */
  method FftInPlace(values: array<int>, omega: nat, p: nat) returns (r: Outcome)
    requires p > 1 && Reduced(values[..], p) && values.Length != 1 && values.Length <= TwoPow(64)
    modifies values
    ensures r == if values.Length != 0 && IsPowerOfTwo(values.Length) then Done else Failed(InvalidDataLength)
    ensures r.Failed? ==> values[..] == old(values[..])
    ensures r == Done && Cong(Pow(omega, values.Length / 2), -1, p)
      ==> values[..] == Dft(old(values[..]), omega, p)
  {
    hide Mod, Pow, Stage, Dft, Pass, TwoPow, Square, IsPermuted, BlockRoot;
    var n := values.Length;
    if n == 0 || !IsPowerOfTwo(n) {
      return Failed(InvalidDataLength);
    }
    ghost var a := values[..];
    BitReversePermute(values);
    FirstStage(a, values[..], BlockRoot(omega, n, 1, p), p);
    var len := 2;
    ghost var h := 1;
    while len <= n
      invariant len == 2 * h && IsPowerOfTwo(h) && h <= n
      invariant Cong(Pow(omega, n / 2), -1, p) ==> values[..] == Stage(a, h, BlockRoot(omega, n, h, p), p)
      decreases 2 * n - len
    {
      var wlen := BlockRoot(omega, n, len, p);
      assert IsPowerOfTwo(len);
      PowerMultiple(n, len);
      ghost var before := values[..];
      PassInPlace(values, len, wlen, p);
      if Cong(Pow(omega, n / 2), -1, p) {
        BlockRootLaws(omega, n, h, p);
        StageCong(a, h, BlockRoot(omega, n, h, p), Square(wlen), p);
        StageStep(a, h, wlen, p);
      }
      len := len * 2;
      h := h * 2;
    }
    if h < n { HalfStillFits(h, n); }
    LastStage(a, omega, p);
    return Done;
  }

  lemma LastStage(a: seq<int>, omega: int, p: nat)
    requires p > 0 && IsPowerOfTwo(|a|)
    ensures Stage(a, |a|, BlockRoot(omega, |a|, |a|, p), p) == Dft(a, omega, p)
  {
    hide Mod, Pow;
    DivideExactly(1, |a|);
    PowFirst(omega);
    ModCong(omega, p);
    DftCong(a, BlockRoot(omega, |a|, |a|, p), omega, p);
  }

  lemma PowFirst(x: int)
    ensures Pow(x, 1) == x
  {
    assert Pow(x, 0) == 1;
  }
}
