/** The bucket multi-scalar multiplication: bit windows of 256-bit scalars, one bucket per window
    value, and a running sum over the buckets. */
module Pippenger {
  import opened BitReverse
  import opened Bytes
  import opened Division
  import opened Groups

  // ----- windows of a scalar -----

  /** The smallest window of at least 3 bits with four points to a bucket, and no more than 12. */
  function WindowSize(n: nat): (w: nat)
    ensures 3 <= w <= 12 && (w == 12 || n <= 4 * TwoPow(w)) && (w == 3 || n > 2 * TwoPow(w))
  {
    assert TwoPow(3) == 8 && TwoPow(4) == 16 && TwoPow(5) == 32 && TwoPow(6) == 64 && TwoPow(7) == 128;
    assert TwoPow(8) == 256 && TwoPow(9) == 512 && TwoPow(10) == 1024 && TwoPow(11) == 2048 && TwoPow(12) == 4096;
    if n <= 32 then 3
    else if n <= 64 then 4
    else if n <= 128 then 5
    else if n <= 256 then 6
    else if n <= 512 then 7
    else if n <= 1024 then 8
    else if n <= 2048 then 9
    else if n <= 4096 then 10
    else if n <= 8192 then 11
    else 12
  }

  /** pippenger_window: the window is cut out of the four bytes that start at its first byte. Or-ing
      bytes into disjoint positions of the word is their weighted sum. */
  function Window(bytes: seq<byte>, bitOffset: nat, windowBits: nat): nat
    requires |bytes| == 32
  {
    var startByte := bitOffset / 8;
    if startByte >= 32 then 0
    else
      var startBit := bitOffset % 8;
      var word := LeValue(bytes[startByte..if startByte + 4 <= 32 then startByte + 4 else 32]);
      word / TwoPow(startBit) % TwoPow(windowBits)
  }

  lemma DivDiv(x: nat, d: nat, e: nat)
    requires d > 0 && e > 0
    ensures d * e > 0 && x / (d * e) == x / d / e
  {
    var q, r := x / d, x % d;
    var t, u := q / e, q % e;
    assert q == t * e + u;
    assert u * d + r < d * e by { Apart(u, e, d); }
    assert x == (t * e + u) * d + r == t * (d * e) + (u * d + r) by { Regroup(t, e, u, d); }
    DivUnique(x, d * e, t, u * d + r);
  }

  lemma Regroup(t: int, e: int, u: int, d: int)
    ensures (t * e + u) * d == t * (d * e) + u * d
  {
    assert (t * e) * d == t * (d * e);
  }

  /** Dropping whole low bytes. */
  lemma DropBytes(bytes: seq<byte>, k: nat)
    requires k <= |bytes|
    ensures LeValue(bytes) / TwoPow(8 * k) == LeValue(bytes[k..])
  {
    assert bytes == bytes[..k] + bytes[k..];
    LeAppend(bytes[..k], bytes[k..]);
    LeBound(bytes[..k]);
    DivUnique(LeValue(bytes), TwoPow(8 * k), LeValue(bytes[k..]), LeValue(bytes[..k]));
  }

  lemma FieldIgnoresHigh(word: nat, m: nat, a: nat, b: nat)
    requires a > 0 && b > 0
    ensures (word + (m * b) * a) / a % b == word / a % b
  {
    AddMultiple(word, m * b, a);
    AddMultiple(word / a, m, b);
  }

  lemma AddMultiple(x: nat, q: nat, d: nat)
    requires d > 0
    ensures (x + q * d) / d == x / d + q && (x + q * d) % d == x % d
  {
    MulSum(x / d, q, d);
    DivUnique(x + q * d, d, x / d + q, x % d);
  }

  /** High bits do not reach a window that ends below them. */
  lemma LowWindow(word: nat, rest: nat, s: nat, w: nat, total: nat)
    requires s + w <= total
    ensures (word + TwoPow(total) * rest) / TwoPow(s) % TwoPow(w) == word / TwoPow(s) % TwoPow(w)
  {
    hide TwoPow;
    var a, b, c := TwoPow(s), TwoPow(w), TwoPow(total - s - w);
    TwoPowAdd(s, w);
    TwoPowAdd(s + w, total - s - w);
    Reorder(a, b, c, rest);
    FieldIgnoresHigh(word, c * rest, a, b);
  }

  lemma Reorder(a: int, b: int, c: int, rest: int)
    ensures (a * b) * c * rest == ((c * rest) * b) * a
  {
    assert (a * b) * c * rest == (a * b) * (c * rest);
    assert ((c * rest) * b) * a == (c * rest) * (b * a);
  }

  lemma MulSum(x: int, y: int, z: int)
    ensures (x + y) * z == x * z + y * z
  {
  }

  /** Dividing by 2^off drops whole bytes and then single bits. */
  lemma DropBits(bytes: seq<byte>, off: nat)
    requires off / 8 <= |bytes|
    ensures LeValue(bytes) / TwoPow(off) == LeValue(bytes[off / 8..]) / TwoPow(off % 8)
  {
    hide TwoPow;
    var sb, s := off / 8, off % 8;
    TwoPowAdd(8 * sb, s);
    DivDiv(LeValue(bytes), TwoPow(8 * sb), TwoPow(s));
    DropBytes(bytes, sb);
  }

  /** Of what is left, only the first four bytes matter. */
  lemma FourBytes(tail: seq<byte>, s: nat, w: nat)
    requires |tail| >= 4 && s + w <= 32
    ensures LeValue(tail) / TwoPow(s) % TwoPow(w) == LeValue(tail[..4]) / TwoPow(s) % TwoPow(w)
  {
    hide TwoPow;
    assert tail == tail[..4] + tail[4..];
    LeAppend(tail[..4], tail[4..]);
    LowWindow(LeValue(tail[..4]), LeValue(tail[4..]), s, w, 32);
  }

  /** Beyond the last byte there is nothing. */
  lemma NoBits(bytes: seq<byte>, off: nat, w: nat)
    requires |bytes| == 32 && off >= 256
    ensures LeValue(bytes) / TwoPow(off) % TwoPow(w) == 0
  {
    hide TwoPow;
    LeBound(bytes);
    TwoPowAtLeast(256, off);
    DivUnique(LeValue(bytes), TwoPow(off), 0, LeValue(bytes));
    DivUnique(0, TwoPow(w), 0, 0);
  }

  /** The extracted window is the bit field of the whole scalar. */
  lemma WindowIsField(bytes: seq<byte>, off: nat, w: nat)
    requires |bytes| == 32 && w <= 12
    ensures Window(bytes, off, w) == LeValue(bytes) / TwoPow(off) % TwoPow(w)
  {
    hide TwoPow, LeValue;
    var sb, s := off / 8, off % 8;
    if sb >= 32 {
      NoBits(bytes, off, w);
    } else {
      DropBits(bytes, off);
      var tail := bytes[sb..];
      if sb + 4 <= 32 {
        assert bytes[sb..sb + 4] == tail[..4];
        FourBytes(tail, s, w);
      } else {
        assert bytes[sb..32] == tail;
      }
    }
  }

  lemma {:induction false} TwoPowAtLeast(b: nat, c: nat)
    requires b <= c
    ensures TwoPow(b) <= TwoPow(c)
  {
    if b < c { TwoPowMonotone(b, c); }
  }

  // ----- buckets -----

  /** The sum of the buckets from index lo on. */
  ghost function Total<G>(g: Group<G>, b: seq<G>, lo: nat): G
    requires lo <= |b|
    decreases |b| - lo
  {
    if lo == |b| then g.zero else g.add(Total(g, b, lo + 1), b[lo])
  }

  /** The sum of all running sums from the top bucket down to index lo. */
  ghost function RunningSums<G>(g: Group<G>, b: seq<G>, lo: nat): G
    requires lo <= |b|
    decreases |b| - lo
  {
    if lo == |b| then g.zero else g.add(RunningSums(g, b, lo + 1), Total(g, b, lo))
  }

  /** Each bucket from lo on counted with its own index. */
  ghost function Weighted<G>(g: Group<G>, b: seq<G>, lo: nat): G
    requires lo <= |b|
    decreases |b| - lo
  {
    if lo == |b| then g.zero else g.add(Weighted(g, b, lo + 1), Times(g, lo, b[lo]))
  }

  /** The running sums weigh bucket i by i - lo + 1. */
  lemma {:induction false} RunningSumsWeigh<G(!new)>(g: Group<G>, b: seq<G>, lo: nat)
    requires Abelian(g) && 0 < lo <= |b|
    ensures Weighted(g, b, lo) == g.add(RunningSums(g, b, lo), Times(g, lo - 1, Total(g, b, lo)))
    decreases |b| - lo
  {
    hide Abelian;
    if lo == |b| {
      TimesZero(g, lo - 1);
      ZeroRight(g, g.zero);
    } else {
      RunningSumsWeigh(g, b, lo + 1);
      var r, t, x := RunningSums(g, b, lo + 1), Total(g, b, lo + 1), b[lo];
      // lo * t == t + (lo - 1) * t, and likewise for x
      TimesSum(g, lo - 1, t, x);
      Interchange(g, t, Times(g, lo - 1, t), x, Times(g, lo - 1, x));
      Assoc(g, r, Times(g, lo, t), Times(g, lo, x));
      Assoc(g, r, g.add(t, x), Times(g, lo - 1, g.add(t, x)));
    }
  }

  lemma {:induction false} WeightedUpdate<G(!new)>(g: Group<G>, b: seq<G>, lo: nat, w: nat, x: G)
    requires Abelian(g) && lo <= w < |b|
    ensures Weighted(g, b[w := g.add(b[w], x)], lo) == g.add(Weighted(g, b, lo), Times(g, w, x))
    decreases |b| - lo
  {
    hide Abelian;
    var c := b[w := g.add(b[w], x)];
    if lo == w {
      WeightedSame(g, b, c, lo + 1);
      TimesSum(g, w, b[w], x);
      Assoc(g, Weighted(g, b, lo + 1), Times(g, w, b[w]), Times(g, w, x));
    } else {
      WeightedUpdate(g, b, lo + 1, w, x);
      var u, y, z := Weighted(g, b, lo + 1), Times(g, w, x), Times(g, lo, b[lo]);
      Assoc(g, u, y, z);
      Commute(g, y, z);
      Assoc(g, u, z, y);
    }
  }

  lemma {:induction false} WeightedSame<G>(g: Group<G>, b: seq<G>, c: seq<G>, lo: nat)
    requires lo <= |b| == |c| && b[lo..] == c[lo..]
    ensures Weighted(g, b, lo) == Weighted(g, c, lo)
    decreases |b| - lo
  {
    if lo < |b| {
      assert b[lo] == b[lo..][0] == c[lo..][0] == c[lo];
      assert b[lo + 1..] == b[lo..][1..] == c[lo..][1..] == c[lo + 1..];
      WeightedSame(g, b, c, lo + 1);
    }
  }

  lemma {:induction false} WeightedEmpty<G(!new)>(g: Group<G>, b: seq<G>, lo: nat)
    requires Abelian(g) && lo <= |b| && forall i :: 0 <= i < |b| ==> b[i] == g.zero
    ensures Weighted(g, b, lo) == g.zero
    decreases |b| - lo
  {
    if lo < |b| {
      WeightedEmpty(g, b, lo + 1);
      TimesZero(g, lo);
      ZeroRight(g, g.zero);
    }
  }

  // ----- the program -----

  ghost function High(x: nat, off: nat): nat {
    QuotientNat(x, TwoPow(off));
    x / TwoPow(off)
  }

  lemma QuotientNat(x: nat, d: nat)
    requires d > 0
    ensures x / d >= 0
  {
  }

  /** The bit fields of all scalars above bit position off. */
  ghost function Above(scalars: seq<seq<byte>>, off: nat): (s: seq<nat>)
    ensures |s| == |scalars|
  {
    seq(|scalars|, i requires 0 <= i < |scalars| => High(LeValue(scalars[i]), off))
  }

  ghost function Windows(scalars: seq<seq<byte>>, off: nat, w: nat): (s: seq<nat>)
    requires forall i :: 0 <= i < |scalars| ==> |scalars[i]| == 32
    ensures |s| == |scalars|
  {
    seq(|scalars|, i requires 0 <= i < |scalars| => Window(scalars[i], off, w))
  }

  ghost function Values(scalars: seq<seq<byte>>): (s: seq<nat>)
    ensures |s| == |scalars|
  {
    seq(|scalars|, i requires 0 <= i < |scalars| => LeValue(scalars[i]))
  }

  /** Horner's step over windows: shift the part above and add the window. */
  lemma HornerStep<G(!new)>(g: Group<G>, points: seq<G>, scalars: seq<seq<byte>>, off: nat, w: nat)
    requires Abelian(g) && |points| == |scalars| && w <= 12
    requires forall i :: 0 <= i < |scalars| ==> |scalars[i]| == 32
    ensures Msm(g, points, Above(scalars, off))
      == g.add(Times(g, TwoPow(w), Msm(g, points, Above(scalars, off + w))), Msm(g, points, Windows(scalars, off, w)))
  {
    hide Abelian, TwoPow, LeValue, Window, Msm, Times;
    forall i | 0 <= i < |scalars|
      ensures Above(scalars, off)[i] == TwoPow(w) * Above(scalars, off + w)[i] + Windows(scalars, off, w)[i]
    {
      var v := LeValue(scalars[i]);
      WindowIsField(scalars[i], off, w);
      TwoPowAdd(off, w);
      DivDiv(v, TwoPow(off), TwoPow(w));
    }
    MsmCombine(g, points, TwoPow(w), Above(scalars, off + w), Windows(scalars, off, w), Above(scalars, off));
  }

  /** acc.double() repeated. */
  method DoubleRepeatedly<G(!new)>(g: Group<G>, x: G, times: nat) returns (acc: G)
    requires Abelian(g)
    ensures acc == Times(g, TwoPow(times), x)
  {
    hide Abelian;
    acc := x;
    ZeroRight(g, x);
    assert Times(g, 1, x) == g.add(x, Times(g, 0, x));
    for i := 0 to times
      invariant acc == Times(g, TwoPow(i), x)
    {
      TimesAdd(g, TwoPow(i), TwoPow(i), x);
      acc := g.add(acc, acc);
    }
  }

  /** The bucket phase of one window. */
  method WindowSum<G(!new)>(g: Group<G>, points: seq<G>, scalars: seq<seq<byte>>, buckets: array<G>, off: nat, w: nat)
      returns (windowSum: G)
    requires Abelian(g) && |points| == |scalars| && w <= 12
    requires buckets.Length == TwoPow(w) && forall i :: 0 <= i < |scalars| ==> |scalars[i]| == 32
    modifies buckets
    ensures windowSum == Msm(g, points, Windows(scalars, off, w))
  {
    hide Abelian, Window, TwoPow;
    ghost var ws := Windows(scalars, off, w);
    for i := 0 to buckets.Length
      invariant forall k :: 0 <= k < i ==> buckets[k] == g.zero
    {
      buckets[i] := g.zero;
    }
    WeightedEmpty(g, buckets[..], 1);
    for i := 0 to |points|
      invariant Weighted(g, buckets[..], 1) == Msm(g, points[..i], ws[..i])
    {
      var v := Window(scalars[i], off, w);
      assert points[..i + 1][..i] == points[..i] && ws[..i + 1][..i] == ws[..i];
      if v != 0 && v < buckets.Length {
        WeightedUpdate(g, buckets[..], 1, v, points[i]);
        ghost var before := buckets[..];
        buckets[v] := g.add(buckets[v], points[i]);
        assert buckets[..] == before[v := g.add(before[v], points[i])];
      } else {
        WindowInRange(scalars[i], off, w);
        ZeroRight(g, Msm(g, points[..i], ws[..i]));
      }
    }
    assert points[..|points|] == points && ws[..|points|] == ws;
    var running := g.zero;
    windowSum := g.zero;
    var idx := buckets.Length;
    while idx > 1
      invariant 1 <= idx <= buckets.Length
      invariant running == Total(g, buckets[..], idx)
      invariant windowSum == RunningSums(g, buckets[..], idx)
    {
      idx := idx - 1;
      running := g.add(running, buckets[idx]);
      windowSum := g.add(windowSum, running);
    }
    RunningSumsWeigh(g, buckets[..], 1);
    ZeroRight(g, windowSum);
  }

  lemma WindowInRange(bytes: seq<byte>, off: nat, w: nat)
    requires |bytes| == 32 && w <= 12
    ensures Window(bytes, off, w) < TwoPow(w)
  {
    WindowIsField(bytes, off, w);
  }

  /** msm_pippenger_g1: the result is the naive sum over the common length of both inputs, in any
      abelian group. */
  method MsmPippenger<G(!new)>(g: Group<G>, points: seq<G>, scalars: seq<seq<byte>>) returns (acc: G)
    requires Abelian(g) && forall i :: 0 <= i < |scalars| ==> |scalars[i]| == 32
    ensures var n := if |points| < |scalars| then |points| else |scalars|;
      acc == Msm(g, points[..n], Values(scalars[..n]))
  {
    hide Abelian, Window, TwoPow, LeValue, Above, Msm, Values;
    var n := if |points| < |scalars| then |points| else |scalars|;
    if n == 0 {
      MsmZero(g, points[..n], Values(scalars[..n]));
      return g.zero;
    }
    var ps, ss := points[..n], scalars[..n];
    var w := WindowSize(n);
    var windows := (256 + w - 1) / w;
    var buckets := new G[TwoPow(w)](_ => g.zero);
    acc := g.zero;
    var k := windows;
    EnoughWindows(w);
    NothingAbove(g, ps, ss, windows * w);
    while k > 0
      invariant 0 <= k <= windows
      invariant acc == Msm(g, ps, Above(ss, k * w))
    {
      k := k - 1;
      var off := k * w;
      MulSum(k, 1, w);
      if k != windows - 1 {
        acc := DoubleRepeatedly(g, acc, w);
      } else {
        TimesZero(g, TwoPow(w));
      }
      var sum := WindowSum(g, ps, ss, buckets, off, w);
      HornerStep(g, ps, ss, off, w);
      acc := g.add(acc, sum);
    }
    AboveZero(ss);
  }

  lemma EnoughWindows(w: nat)
    requires w > 0
    ensures (256 + w - 1) / w * w >= 256
  {
    assert 256 + w - 1 == (256 + w - 1) / w * w + (256 + w - 1) % w;
  }

  lemma NothingAbove<G(!new)>(g: Group<G>, points: seq<G>, scalars: seq<seq<byte>>, off: nat)
    requires Abelian(g) && |points| == |scalars| && off >= 256
    requires forall i :: 0 <= i < |scalars| ==> |scalars[i]| == 32
    ensures Msm(g, points, Above(scalars, off)) == g.zero
  {
    hide Abelian, TwoPow, LeValue;
    forall i | 0 <= i < |scalars| ensures Above(scalars, off)[i] == 0 {
      LeBound(scalars[i]);
      TwoPowAtLeast(256, off);
      DivUnique(LeValue(scalars[i]), TwoPow(off), 0, LeValue(scalars[i]));
    }
    MsmZero(g, points, Above(scalars, off));
  }

  lemma AboveZero(scalars: seq<seq<byte>>)
    ensures Above(scalars, 0) == Values(scalars)
  {
    hide LeValue;
    assert TwoPow(0) == 1;
  }
}
