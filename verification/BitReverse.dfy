/** Powers of two and the bit-reversal permutation of the FFT. */
module BitReverse {
  import opened Division


  function TwoPow(b: nat): (r: nat)
    ensures r > 0
  {
    if b == 0 then 1 else 2 * TwoPow(b - 1)
  }

  predicate IsPowerOfTwo(n: nat) {
    n == 1 || (n > 1 && n % 2 == 0 && IsPowerOfTwo(n / 2))
  }

  /** trailing_zeros of a power of two. */
  function Log2(n: nat): (b: nat)
    requires IsPowerOfTwo(n)
    ensures TwoPow(b) == n
  {
    if n == 1 then 0 else 1 + Log2(n / 2)
  }

  /** The low b bits of i in reverse order. */
  function Reverse(i: nat, b: nat): nat {
    if b == 0 then 0 else (i % 2) * TwoPow(b - 1) + Reverse(i / 2, b - 1)
  }

  /** The index swapped with i: a full 64-bit reversal shifted down to `bits` bits. */
  function Mirror(i: nat, bits: nat): nat
    requires bits <= 64
  {
    Reverse(i, 64) / TwoPow(64 - bits)
  }

  lemma {:induction false} ReverseBound(i: nat, b: nat)
    ensures Reverse(i, b) < TwoPow(b)
  {
    if b != 0 {
      ReverseBound(i / 2, b - 1);
      assert i % 2 == 0 || i % 2 == 1;
    }
  }

  lemma {:induction false} ReverseZero(b: nat)
    ensures Reverse(0, b) == 0
  {
    if b != 0 { ReverseZero(b - 1); }
  }

  lemma {:induction false} TwoPowAdd(b: nat, c: nat)
    ensures TwoPow(b + c) == TwoPow(b) * TwoPow(c)
  {
    if b != 0 { TwoPowAdd(b - 1, c); }
  }

  lemma {:induction false} ReverseWide(i: nat, b: nat, c: nat)
    requires i < TwoPow(b)
    ensures Reverse(i, b + c) == Reverse(i, b) * TwoPow(c)
  {
    if b == 0 {
      ReverseZero(c);
    } else {
      ReverseWide(i / 2, b - 1, c);
      TwoPowAdd(b - 1, c);
      Spread(i % 2, TwoPow(b - 1), Reverse(i / 2, b - 1), TwoPow(c));
    }
  }

  lemma Spread(d: int, h: int, r: int, c: int)
    requires d == 0 || d == 1
    ensures (d * h + r) * c == d * (h * c) + r * c
  {
  }

  lemma DivideExactly(q: nat, d: nat)
    requires d > 0
    ensures (q * d) / d == q
  {
    DivUnique(q * d, d, q, 0);
  }

  /** For an in-range index the shifted 64-bit reversal is the reversal of its `bits` bits. */
  lemma MirrorIsReverse(i: nat, bits: nat)
    requires bits <= 64 && i < TwoPow(bits)
    ensures Mirror(i, bits) == Reverse(i, bits) < TwoPow(bits)
  {
    ReverseWide(i, bits, 64 - bits);
    DivideExactly(Reverse(i, bits), TwoPow(64 - bits));
    ReverseBound(i, bits);
  }

  /** The top bit of the argument becomes the low bit of the result. */
  lemma {:induction false} ReverseTop(hi: nat, lo: nat, b: nat)
    requires b > 0 && hi <= 1 && lo < TwoPow(b - 1)
    ensures Reverse(hi * TwoPow(b - 1) + lo, b) == 2 * Reverse(lo, b - 1) + hi
  {
    if hi == 0 {
      assert hi * TwoPow(b - 1) + lo == lo;
    } else {
      assert hi * TwoPow(b - 1) + lo == TwoPow(b - 1) + lo;
    }
    if b > 1 {
      ReverseTop(hi, lo / 2, b - 1);
    } else {
      assert Reverse(hi, 0) == Reverse(lo, 0) == 0;
    }
  }

  lemma {:induction false} ReverseTwice(i: nat, b: nat)
    requires i < TwoPow(b)
    ensures Reverse(Reverse(i, b), b) == i
  {
    if b != 0 {
      ReverseTwice(i / 2, b - 1);
      ReverseBound(i / 2, b - 1);
      ReverseTop(i % 2, Reverse(i / 2, b - 1), b);
    }
  }

  /** Every entry i of the result is entry Reverse(i) of a. */
  ghost predicate IsPermuted(a: seq<int>, r: seq<int>, bits: nat) {
    |a| == |r| == TwoPow(bits) &&
    forall i :: 0 <= i < |a| ==> Reverse(i, bits) < |a| && r[i] == a[Reverse(i, bits)]
  }

  method BitReversePermute(values: array<int>)
    requires IsPowerOfTwo(values.Length) && values.Length <= TwoPow(64)
    modifies values
    ensures IsPermuted(old(values[..]), values[..], Log2(values.Length))
  {
    hide Reverse, TwoPow, Mirror;
    var n := values.Length;
    var bits := Log2(n);
    BitsFit(n);
    ghost var a := values[..];
    for i := 0 to n
      invariant forall k :: 0 <= k < n ==> Reverse(k, bits) < n
      invariant forall k :: 0 <= k < n ==>
        values[k] == if k < i || Reverse(k, bits) < i then a[Reverse(k, bits)] else a[k]
    {
      MirrorIsReverse(i, bits);
      ReverseTwice(i, bits);
      var j := Mirror(i, bits);
      if j > i {
        values[i], values[j] := values[j], values[i];
      }
      forall k | 0 <= k < n
        ensures values[k] == if k < i + 1 || Reverse(k, bits) < i + 1 then a[Reverse(k, bits)] else a[k]
      {
        ReverseTwice(k, bits);
      }
    }
  }

  lemma {:induction false} TwoPowMonotone(b: nat, c: nat)
    requires b < c
    ensures 2 * TwoPow(b) <= TwoPow(c)
  {
    if b + 1 < c { TwoPowMonotone(b, c - 1); }
  }

  lemma BitsFit(n: nat)
    requires IsPowerOfTwo(n) && n <= TwoPow(64)
    ensures Log2(n) <= 64
    ensures forall k :: 0 <= k < n ==> Reverse(k, Log2(n)) < n
  {
    var b := Log2(n);
    if b > 64 { TwoPowMonotone(64, b); }
    forall k | 0 <= k < n ensures Reverse(k, b) < n {
      ReverseBound(k, b);
    }
  }
}
