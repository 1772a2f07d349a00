/** The evaluation domain 1, w, w^2, ..., w^(n-1) of a root of unity w of order n (a power of two):
    geometric sums over it, and reading a coefficient back from the values. */
module Domain {
  import opened Residue
  import opened Poly
  import opened BitReverse

  /** 1 + y + ... + y^(n-1). */
  ghost function Geo(y: int, n: nat): int {
    if n == 0 then 0 else 1 + y * Geo(y, n - 1)
  }

  /** The values of a at x, x*w, x*w^2, ... (n of them). */
  ghost function Points(a: seq<int>, x: int, w: int, n: nat): (s: seq<int>)
    ensures |s| == n
    decreases n
  {
    if n == 0 then [] else [Eval(a, x)] + Points(a, x * w, w, n - 1)
  }

  lemma {:induction false} PointsAt(a: seq<int>, x: int, w: int, n: nat, k: nat)
    requires k < n
    ensures Points(a, x, w, n)[k] == Eval(a, x * Pow(w, k))
    decreases n
  {
    if k != 0 {
      PointsAt(a, x * w, w, n - 1, k - 1);
      MulAssoc(x, w, Pow(w, k - 1));
    }
  }

  // ----- exchanging the two sums -----

  /** The sum over i of a[i] * x^i * Geo(w^i * y, n). */
  ghost function Kernel(a: seq<int>, x: int, w: int, y: int, n: nat): int {
    if a == [] then 0 else a[0] * Geo(y, n) + x * Kernel(a[1..], x, w, w * y, n)
  }

  lemma {:induction false} PointsHead(a: seq<int>, x: int, w: int, y: int, n: nat)
    requires a != []
    ensures Eval(Points(a, x, w, n), y) == a[0] * Geo(y, n) + x * Eval(Points(a[1..], x, w, n), w * y)
    decreases n
  {
    if n != 0 {
      PointsHead(a, x * w, w, y, n - 1);
      var d := a[1..];
      assert Points(a, x, w, n)[1..] == Points(a, x * w, w, n - 1);
      assert Points(d, x, w, n)[1..] == Points(d, x * w, w, n - 1);
      HeadStep(a[0], x, Eval(d, x), y, w, Geo(y, n - 1), Eval(Points(d, x * w, w, n - 1), w * y));
    }
  }

  lemma HeadStep(a0: int, x: int, d: int, y: int, w: int, g: int, e: int)
    ensures (a0 + x * d) + y * (a0 * g + (x * w) * e) == a0 * (1 + y * g) + x * (d + (w * y) * e)
  {
    assert y * (a0 * g + (x * w) * e) == y * (a0 * g) + y * ((x * w) * e);
    assert y * (a0 * g) == a0 * (y * g);
    assert y * ((x * w) * e) == x * ((w * y) * e) by { Regroup(x, y, w, e); }
    assert x * (d + (w * y) * e) == x * d + x * ((w * y) * e);
    assert a0 * (1 + y * g) == a0 + a0 * (y * g);
  }

  lemma Regroup(x: int, y: int, w: int, e: int)
    ensures y * ((x * w) * e) == x * ((w * y) * e)
  {
    MulAssoc(y, x * w, e);
    MulAssoc(x, w * y, e);
    assert y * (x * w) == x * (w * y) by { MulAssoc(y, x, w); MulAssoc(x, y, w); }
  }

  lemma {:induction false} ExchangeSums(a: seq<int>, x: int, w: int, y: int, n: nat)
    ensures Eval(Points(a, x, w, n), y) == Kernel(a, x, w, y, n)
  {
    if a == [] {
      NoPoints(x, w, y, n);
    } else {
      ExchangeSums(a[1..], x, w, w * y, n);
      PointsHead(a, x, w, y, n);
    }
  }

  lemma {:induction false} NoPoints(x: int, w: int, y: int, n: nat)
    ensures Eval(Points([], x, w, n), y) == 0
    decreases n
  {
    if n != 0 {
      NoPoints(x * w, w, y, n - 1);
      assert Points([], x, w, n)[1..] == Points([], x * w, w, n - 1);
    }
  }

  // ----- geometric sums -----

  lemma {:induction false} GeoAdd(y: int, m: nat, n: nat)
    ensures Geo(y, m + n) == Geo(y, m) + Pow(y, m) * Geo(y, n)
  {
    if m != 0 {
      GeoAdd(y, m - 1, n);
      MulDistribute(y, Geo(y, m - 1), Pow(y, m - 1), Geo(y, n));
    }
  }

  lemma {:induction false} GeoCong(y: int, z: int, n: nat, p: nat)
    requires p > 0 && Cong(y, z, p)
    ensures Cong(Geo(y, n), Geo(z, n), p)
  {
    if n != 0 {
      GeoCong(y, z, n - 1, p);
      CongMul(y, z, Geo(y, n - 1), Geo(z, n - 1), p);
      CongAdd(1, 1, y * Geo(y, n - 1), z * Geo(z, n - 1), p);
    }
  }

  lemma {:induction false} GeoOne(n: nat)
    ensures Geo(1, n) == n
  {
    if n != 0 { GeoOne(n - 1); }
  }

  /** A sum of even length vanishes when the middle power is -1, and when its half vanishes. */
  lemma GeoVanishes(y: int, h: nat, p: nat)
    requires p > 0 && (Cong(Pow(y, h), -1, p) || Cong(Geo(y, h), 0, p))
    ensures Cong(Geo(y, 2 * h), 0, p)
  {
    hide Mod, Pow, Geo;
    GeoAdd(y, h, h);
    var g := Geo(y, h);
    assert g + Pow(y, h) * g == g * (1 + Pow(y, h)) && g * (1 + Pow(y, h)) == (1 + Pow(y, h)) * g;
    if Cong(Pow(y, h), -1, p) {
      CongAdd(1, 1, Pow(y, h), -1, p);
      CongScale(g, 1 + Pow(y, h), 0, p);
    } else {
      CongScale(1 + Pow(y, h), g, 0, p);
    }
  }

  lemma {:induction false} OddPowerOfMinusOne(x: int, e: nat, p: nat)
    requires p > 0 && Cong(x, -1, p)
    ensures Cong(Pow(x, e), if e % 2 == 1 then -1 else 1, p)
  {
    if e != 0 {
      OddPowerOfMinusOne(x, e - 1, p);
      CongMul(x, -1, Pow(x, e - 1), if e % 2 == 1 then 1 else -1, p);
    }
  }

  /** Summing w^e over the domain gives zero for every e that is not a multiple of the order. */
  lemma {:induction false} GeoOfRoot(w: int, e: nat, n: nat, p: nat)
    requires p > 0 && IsPowerOfTwo(n) && 0 < e < n && Cong(Pow(w, n / 2), -1, p)
    ensures Cong(Geo(Pow(w, e), n), 0, p)
    decreases n
  {
    hide Mod, Pow, Geo, Cong;
    var h := n / 2;
    if e % 2 == 1 {
      PowTimes(w, e, h);
      PowTimes(w, h, e);
      assert e * h == h * e;
      OddPowerOfMinusOne(Pow(w, h), e, p);
    } else {
      var w2 := Pow(w, 2);
      PowTimes(w, 2, h / 2);
      PowTimes(w, 2, e / 2);
      assert IsPowerOfTwo(h);
      GeoOfRoot(w2, e / 2, h, p);
    }
    GeoVanishes(Pow(w, e), h, p);
  }

  // ----- inverse roots -----

  /** w is a root of unity of order n and v its inverse. */
  ghost predicate RootPair(w: int, v: int, n: nat, p: nat)
    requires p > 0
  {
    IsPowerOfTwo(n) && n >= 2 && Cong(Pow(w, n / 2), -1, p) && Cong(w * v, 1, p)
  }

  lemma RootPairSym(w: int, v: int, n: nat, p: nat)
    requires p > 0 && RootPair(w, v, n, p)
    ensures RootPair(v, w, n, p)
  {
    hide Mod, Pow;
    var h := n / 2;
    PowCong(w * v, 1, h, p);
    PowOne(h);
    PowProduct(w, v, h);
    var a, b := Pow(w, h), Pow(v, h);
    CongScale(b, a, -1, p);
    CongScale(-1, b * a, 1, p);
    CongScale(-1, b * a, b * -1, p);
    assert b * a == a * b && -1 * (b * -1) == b && w * v == v * w;
  }

  lemma {:induction false} CancelRoots(w: int, v: int, i: nat, j: nat, p: nat)
    requires p > 0 && i >= j && Cong(w * v, 1, p)
    ensures Cong(Pow(w, i) * Pow(v, j), Pow(w, i - j), p)
  {
    hide Mod, Pow, Cong;
    PowAdd(w, i - j, j);
    PowProduct(w, v, j);
    PowCong(w * v, 1, j, p);
    PowOne(j);
    var u := Pow(w, i - j);
    CongScale(u, Pow(w * v, j), 1, p);
    MulAssoc(u, Pow(w, j), Pow(v, j));
    assert u * 1 == u;
  }

  lemma RootOrder(w: int, v: int, n: nat, p: nat)
    requires p > 0 && RootPair(w, v, n, p)
    ensures Cong(Pow(w, n), 1, p)
  {
    hide Mod, Pow;
    PowAdd(w, n / 2, n / 2);
    CongMul(Pow(w, n / 2), -1, Pow(w, n / 2), -1, p);
  }

  /** Reading entry j: the domain sum of w^i * v^j is n for i == j and zero otherwise. */
  lemma Orthogonal(w: int, v: int, i: nat, j: nat, n: nat, p: nat)
    requires p > 0 && RootPair(w, v, n, p) && i < n && j < n
    ensures Cong(Geo(Pow(w, i) * Pow(v, j), n), if i == j then n else 0, p)
  {
    hide Mod, Pow, Geo, Cong;
    var y := Pow(w, i) * Pow(v, j);
    if i >= j {
      CancelRoots(w, v, i, j, p);
      GeoCong(y, Pow(w, i - j), n, p);
      if i == j {
        assert Pow(w, 0) == 1 by { PowNone(w); }
        GeoOne(n);
      } else {
        GeoOfRoot(w, i - j, n, p);
        CongTrans(Geo(y, n), Geo(Pow(w, i - j), n), 0, p);
      }
    } else {
      RootPairSym(w, v, n, p);
      CancelRoots(v, w, j, i, p);
      assert y == Pow(v, j) * Pow(w, i);
      GeoCong(y, Pow(v, j - i), n, p);
      GeoOfRoot(v, j - i, n, p);
      CongTrans(Geo(y, n), Geo(Pow(v, j - i), n), 0, p);
    }
  }

  lemma PowNone(x: int)
    ensures Pow(x, 0) == 1
  {
  }

  lemma {:induction false} KernelFrom(a: seq<int>, w: int, v: int, i: nat, j: nat, n: nat, p: nat)
    requires p > 0 && RootPair(w, v, n, p) && |a| <= n && i <= |a| && j < n
    ensures Cong(Kernel(a[i..], 1, w, Pow(w, i) * Pow(v, j), n), if i <= j < |a| then n * a[j] else 0, p)
    decreases |a| - i
  {
    hide Mod, Geo, Cong;
    var y := Pow(w, i) * Pow(v, j);
    if i == |a| {
      CongRefl(0, p);
    } else {
      KernelFrom(a, w, v, i + 1, j, n, p);
      Orthogonal(w, v, i, j, n, p);
      MulAssoc(w, Pow(w, i), Pow(v, j));
      assert a[i..][1..] == a[i + 1..] && a[i..][0] == a[i];
      var rest := Kernel(a[i + 1..], 1, w, w * y, n);
      CongScale(a[i], Geo(y, n), if i == j then n else 0, p);
      var r := if i + 1 <= j < |a| then n * a[j] else 0;
      CongAdd(a[i] * Geo(y, n), a[i] * (if i == j then n else 0), rest, r, p);
      assert 1 * rest == rest && a[i] * n == n * a[i];
    }
  }

  /** Coefficient j from the values at the domain. */
  lemma Extract(a: seq<int>, w: int, v: int, j: nat, n: nat, p: nat)
    requires p > 0 && RootPair(w, v, n, p) && |a| <= n && j < n
    ensures Cong(Eval(Points(a, 1, w, n), Pow(v, j)), if j < |a| then n * a[j] else 0, p)
  {
    hide Mod, Geo, Cong, Kernel;
    ExchangeSums(a, 1, w, Pow(v, j), n);
    KernelFrom(a, w, v, 0, j, n, p);
    assert a[0..] == a;
    PowNone(w);
    assert Pow(w, 0) * Pow(v, j) == Pow(v, j);
  }
}
