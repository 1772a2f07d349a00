/** Bytes and their little- and big-endian integer values. */
module Bytes {
  import opened BitReverse

  type byte = x: int | 0 <= x < 256

  function LeValue(b: seq<byte>): nat {
    if b == [] then 0 else b[0] + 256 * LeValue(b[1..])
  }

  function BeValue(b: seq<byte>): nat {
    if b == [] then 0 else BeValue(b[..|b| - 1]) * 256 + b[|b| - 1]
  }

  /** The n low bytes of x, least significant first (`to_le_bytes`). */
  function LeBytes(x: nat, n: nat): (b: seq<byte>)
    ensures |b| == n
  {
    if n == 0 then [] else [x % 256] + LeBytes(x / 256, n - 1)
  }

  function Reversed(b: seq<byte>): (r: seq<byte>)
    ensures |r| == |b|
    ensures forall i :: 0 <= i < |b| ==> r[i] == b[|b| - 1 - i]
  {
    if b == [] then [] else Reversed(b[1..]) + [b[0]]
  }

  function Zeros(n: nat): (b: seq<byte>)
    ensures |b| == n
  {
    seq(n, _ => 0)
  }

  lemma SliceOfSlice<T>(b: seq<T>, from: nat, to: nat, lo: nat, hi: nat)
    requires from <= to <= |b| && lo <= hi <= to - from
    ensures b[from..to][lo..hi] == b[from + lo..from + hi]
  {
    var part, whole := b[from..to][lo..hi], b[from + lo..from + hi];
    forall i | 0 <= i < hi - lo ensures part[i] == whole[i] {
      assert part[i] == b[from..to][lo + i] == b[from + lo + i];
    }
  }

  lemma {:induction false} LeRoundTrip(x: nat, n: nat)
    requires x < TwoPow(8 * n)
    ensures LeValue(LeBytes(x, n)) == x
  {
    if n != 0 {
      TwoPowByte(n - 1);
      LeRoundTrip(x / 256, n - 1);
      assert LeBytes(x, n)[1..] == LeBytes(x / 256, n - 1);
    }
  }

  lemma TwoPowByte(n: nat)
    ensures TwoPow(8 * n + 8) == 256 * TwoPow(8 * n)
  {
    TwoPowAdd(8, 8 * n);
    assert TwoPow(8) == 256;
  }

  lemma {:induction false} LeBound(b: seq<byte>)
    ensures LeValue(b) < TwoPow(8 * |b|)
  {
    if b != [] {
      LeBound(b[1..]);
      TwoPowByte(|b| - 1);
    }
  }

  lemma {:induction false} LeBytesOfValue(b: seq<byte>)
    ensures LeBytes(LeValue(b), |b|) == b
  {
    if b != [] {
      LeBytesOfValue(b[1..]);
    }
  }

  lemma {:induction false} LeAppend(a: seq<byte>, b: seq<byte>)
    ensures LeValue(a + b) == LeValue(a) + TwoPow(8 * |a|) * LeValue(b)
  {
    if a == [] {
      assert a + b == b;
    } else {
      LeAppend(a[1..], b);
      assert (a + b)[1..] == a[1..] + b;
      TwoPowByte(|a| - 1);
      assert 256 * (TwoPow(8 * |a[1..]|) * LeValue(b)) == (256 * TwoPow(8 * |a[1..]|)) * LeValue(b);
    }
  }

  lemma {:induction false} ReversedValue(b: seq<byte>)
    ensures BeValue(Reversed(b)) == LeValue(b)
  {
    if b != [] {
      ReversedValue(b[1..]);
      assert Reversed(b)[..|b| - 1] == Reversed(b[1..]);
    }
  }
}
