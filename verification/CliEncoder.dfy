/** The command-line encoder: every 31-byte chunk becomes a big integer, is written back as a 32-byte
    big-endian scalar, and scalars are packed into blobs. */
module CliEncoder {
  import opened Bytes
  import opened Codec

  /** BigUint::to_bytes_be: no leading zeros, one byte for zero. */
  function ToBytesBe(x: nat): (b: seq<byte>) {
    if x < 256 then [x] else ToBytesBe(x / 256) + [x % 256]
  }

  /** The n-byte rendering of x. */
  ghost function Rendered(x: nat, n: nat): (b: seq<byte>)
    ensures |b| == n
  {
    if n == 0 then [] else Rendered(x / 256, n - 1) + [x % 256]
  }

  /** fr_to_bytes_be: the source panics when the integer needs more than 32 bytes. */
  function FrToBytesBe(x: nat): (b: seq<byte>)
    requires |ToBytesBe(x)| <= 32
    ensures |b| == 32
  {
    Zeros(32 - |ToBytesBe(x)|) + ToBytesBe(x)
  }

  lemma {:induction false} RenderedZero(n: nat)
    ensures Rendered(0, n) == Zeros(n)
  {
    if n != 0 {
      RenderedZero(n - 1);
      assert Zeros(n) == Zeros(n - 1) + [0];
    }
  }

  lemma {:induction false} RenderedBytes(x: nat, n: nat)
    requires |ToBytesBe(x)| <= n
    ensures Rendered(x, n) == Zeros(n - |ToBytesBe(x)|) + ToBytesBe(x)
  {
    if x < 256 {
      RenderedZero(n - 1);
    } else {
      RenderedBytes(x / 256, n - 1);
    }
  }

  /** Rendering the value of a byte string gives it back, with leading zeros. */
  lemma {:induction false} RenderedValue(c: seq<byte>, n: nat)
    requires |c| <= n
    ensures Rendered(BeValue(c), n) == Zeros(n - |c|) + c
  {
    if c == [] {
      RenderedZero(n);
    } else {
      var m := |c| - 1;
      RenderedValue(c[..m], n - 1);
      assert c == c[..m] + [c[m]];
    }
  }

  lemma {:induction false} ShortBytes(c: seq<byte>)
    ensures |ToBytesBe(BeValue(c))| <= if c == [] then 1 else |c|
  {
    if c != [] {
      ShortBytes(c[..|c| - 1]);
    }
  }

  /** A chunk survives the trip through a big integer, right-aligned in its scalar. */
  lemma ChunkThroughInteger(c: seq<byte>)
    requires |c| <= 32
    ensures |ToBytesBe(BeValue(c))| <= 32
    ensures FrToBytesBe(BeValue(c)) == Zeros(32 - |c|) + c
  {
    ShortBytes(c);
    RenderedBytes(BeValue(c), 32);
    RenderedValue(c, 32);
  }

  /** The integers of the chunks of raw. */
  function ChunkAt(raw: seq<byte>, s: nat): (c: seq<byte>)
    ensures |c| == ChunkLen(|raw|, s)
  {
    if 31 * s >= |raw| then [] else raw[31 * s..31 * s + ChunkLen(|raw|, s)]
  }

  ghost predicate ChunkIntegers(frs: seq<nat>, raw: seq<byte>) {
    |frs| == (|raw| + 30) / 31 && forall s :: 0 <= s < |frs| ==> frs[s] == BeValue(ChunkAt(raw, s))
  }

  /** Scalar s of the encoding, as its 32 bytes. */
  lemma ScalarBytes(raw: seq<byte>, s: nat, o: nat)
    requires o < 32
    ensures (Zeros(32 - ChunkLen(|raw|, s)) + ChunkAt(raw, s))[o] == EncodedByte(raw, 32 * s + o)
  {
    assert (32 * s + o) / 32 == s && (32 * s + o) % 32 == o;
  }

  /** The integers that fit a scalar; the source panics on others. */
  ghost predicate AllFit(frs: seq<nat>) {
    forall s :: 0 <= s < |frs| ==> |ToBytesBe(frs[s])| <= 32
  }

  /** Byte `pos` of the packing: that of the scalar it lies in, or zero beyond the last one. */
  ghost function PackedByte(frs: seq<nat>, pos: nat): byte
    requires AllFit(frs)
  {
    if pos / 32 < |frs| then FrToBytesBe(frs[pos / 32])[pos % 32] else 0
  }

  /** frs_to_blobs: the integers in natural order, 4096 to a blob. */
  method FrsToBlobs(frs: seq<nat>) returns (blobs: seq<seq<byte>>)
    requires AllFit(frs)
    ensures |blobs| == (|frs| + 4095) / 4096
    ensures forall b :: 0 <= b < |blobs| ==> |blobs[b]| == BLOB_SIZE
    ensures forall b, i :: 0 <= b < |blobs| && 0 <= i < BLOB_SIZE ==> blobs[b][i] == PackedByte(frs, b * BLOB_SIZE + i)
  {
    hide PackedByte;
    blobs := [];
    var first := 0;
    while first < |frs|
      invariant first == 4096 * |blobs| && first < |frs| + 4096
      invariant forall b :: 0 <= b < |blobs| ==> |blobs[b]| == BLOB_SIZE
      invariant forall b, i :: 0 <= b < |blobs| && 0 <= i < BLOB_SIZE ==>
        blobs[b][i] == PackedByte(frs, b * BLOB_SIZE + i)
    {
      var blob := PackBlob(frs, first);
      assert 32 * first == |blobs| * BLOB_SIZE;
      blobs := blobs + [blob];
      first := first + 4096;
    }
  }

  method PackBlob(frs: seq<nat>, first: nat) returns (blob: seq<byte>)
    requires AllFit(frs) && first < |frs|
    ensures |blob| == BLOB_SIZE
    ensures forall i :: 0 <= i < BLOB_SIZE ==> blob[i] == PackedByte(frs, 32 * first + i)
  {
    hide FrToBytesBe, PackedByte;
    var buffer := new byte[BLOB_SIZE](_ => 0);
    var k := 0;
    while k < 4096 && first + k < |frs|
      invariant 0 <= k <= 4096 && first + k <= |frs|
      invariant forall i :: 0 <= i < BLOB_SIZE ==>
        buffer[i] == if i < 32 * k then PackedByte(frs, 32 * first + i) else 0
    {
      var s := first + k;
      var bytes := FrToBytesBe(frs[s]);
      forall o | 0 <= o < 32 {
        buffer[32 * k + o] := bytes[o];
      }
      forall i | 32 * k <= i < 32 * k + 32 ensures buffer[i] == PackedByte(frs, 32 * first + i) {
        PackedAt(frs, s, i - 32 * k);
      }
      k := k + 1;
    }
    blob := buffer[..];
    forall i | 0 <= i < BLOB_SIZE ensures blob[i] == PackedByte(frs, 32 * first + i) {
      if i >= 32 * k {
        NothingPacked(frs, 32 * first + i);
      }
    }
  }

  lemma PackedAt(frs: seq<nat>, s: nat, o: nat)
    requires AllFit(frs) && s < |frs| && o < 32
    ensures PackedByte(frs, 32 * s + o) == FrToBytesBe(frs[s])[o]
  {
    assert (32 * s + o) / 32 == s && (32 * s + o) % 32 == o;
  }

  lemma NothingPacked(frs: seq<nat>, pos: nat)
    requires AllFit(frs) && pos >= 32 * |frs|
    ensures PackedByte(frs, pos) == 0
  {
  }

  /** Packing the integers of the chunks of raw gives the bytes of its encoding. */
  lemma PackedIsEncoded(frs: seq<nat>, raw: seq<byte>)
    requires ChunkIntegers(frs, raw)
    ensures AllFit(frs) && forall pos: nat :: PackedByte(frs, pos) == EncodedByte(raw, pos)
  {
    hide BeValue, FrToBytesBe, ToBytesBe, EncodedByte, PackedByte;
    forall s | 0 <= s < |frs| ensures |ToBytesBe(frs[s])| <= 32 {
      ChunkThroughInteger(ChunkAt(raw, s));
    }
    forall pos: nat ensures PackedByte(frs, pos) == EncodedByte(raw, pos) {
      var s, o := pos / 32, pos % 32;
      if s < |frs| {
        PackedAt(frs, s, o);
        ChunkThroughInteger(ChunkAt(raw, s));
        ScalarBytes(raw, s, o);
      } else {
        NothingPacked(frs, pos);
        PastTheEnd(raw, pos);
      }
    }
  }

  lemma PastTheEnd(raw: seq<byte>, pos: nat)
    requires pos >= 32 * ((|raw| + 30) / 31)
    ensures EncodedByte(raw, pos) == 0
  {
    assert ChunkLen(|raw|, pos / 32) == 0;
  }

  /** encode_to_mdu of the command line. Up to one MDU of payload it agrees with the copy-based
      encoder; beyond that it does not truncate, and the result is longer than an MDU. */
  method EncodeThroughIntegers(raw: seq<byte>) returns (mdu: seq<byte>)
    ensures |raw| <= MDU_PAYLOAD_BYTES ==> mdu == Encoded(raw)
    ensures |raw| > MDU_PAYLOAD_BYTES ==> |mdu| > MDU_SIZE
  {
    hide BeValue, EncodedByte, PackedByte;
    var frs: seq<nat> := [];
    while 31 * |frs| < |raw|
      invariant 31 * |frs| < |raw| + 31
      invariant forall s :: 0 <= s < |frs| ==> frs[s] == BeValue(ChunkAt(raw, s))
      decreases |raw| - 31 * |frs|
    {
      var s := |frs|;
      var end := if 31 * s + 31 <= |raw| then 31 * s + 31 else |raw|;
      assert raw[31 * s..end] == ChunkAt(raw, s);
      frs := frs + [BeValue(raw[31 * s..end])];
    }
    PackedIsEncoded(frs, raw);
    var blobs := FrsToBlobs(frs);
    mdu := [];
    for b := 0 to |blobs|
      invariant |mdu| == b * BLOB_SIZE
      invariant forall pos :: 0 <= pos < |mdu| ==> mdu[pos] == EncodedByte(raw, pos)
    {
      ghost var before := mdu;
      mdu := mdu + blobs[b];
      forall pos | |before| <= pos < |mdu| ensures mdu[pos] == EncodedByte(raw, pos) {
        assert mdu[pos] == blobs[b][pos - |before|] == PackedByte(frs, b * BLOB_SIZE + (pos - |before|));
      }
    }
    if |mdu| < MDU_SIZE {
      ghost var before := mdu;
      mdu := mdu + Zeros(MDU_SIZE - |mdu|);
      forall pos | |before| <= pos < MDU_SIZE ensures EncodedByte(raw, pos) == 0 {
        PastTheEnd(raw, pos);
      }
    }
  }
}
