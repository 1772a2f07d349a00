/** The field-aligned layout of a payload: 31-byte chunks, each right-aligned in a 32-byte scalar. */
module Codec {
  import opened Bytes

  const SCALAR_PAYLOAD_BYTES: nat := 31
  const BLOB_SIZE: nat := 131072
  const BLOBS_PER_MDU: nat := 64
  const MDU_SIZE: nat := 8388608
  const SCALARS_PER_BLOB: nat := 4096
  const SCALARS_PER_MDU: nat := 262144
  const MDU_PAYLOAD_BYTES: nat := 8126464

  // ----- the layout, position by position -----

  /** The number of payload bytes in scalar s of a payload of `len` bytes. */
  function ChunkLen(len: nat, s: nat): (n: nat)
    ensures n <= 31
  {
    if len <= 31 * s then 0 else if len - 31 * s < 31 then len - 31 * s else 31
  }

  /** The byte at position pos of the encoding. */
  function EncodedByte(payload: seq<byte>, pos: nat): byte {
    var s, o := pos / 32, pos % 32;
    var n := ChunkLen(|payload|, s);
    if o < 32 - n then 0 else payload[31 * s + o - (32 - n)]
  }

  /** The whole MDU that holds a payload. */
  function Encoded(payload: seq<byte>): (mdu: seq<byte>)
    ensures |mdu| == MDU_SIZE
  {
    seq(MDU_SIZE, pos requires 0 <= pos < MDU_SIZE => EncodedByte(payload, pos))
  }

  /** At most one MDU of payload. */
  function Truncated(raw: seq<byte>): (p: seq<byte>)
    ensures |p| <= MDU_PAYLOAD_BYTES
    ensures |raw| <= MDU_PAYLOAD_BYTES ==> p == raw
  {
    if |raw| <= MDU_PAYLOAD_BYTES then raw else raw[..MDU_PAYLOAD_BYTES]
  }

  /** The position of payload byte off in the encoding. */
  function PositionOf(len: nat, off: nat): nat
    requires off < len
  {
    var s := off / 31;
    32 * s + (32 - ChunkLen(len, s)) + off % 31
  }

  lemma EncodedAt(payload: seq<byte>, off: nat)
    requires off < |payload|
    ensures EncodedByte(payload, PositionOf(|payload|, off)) == payload[off]
    ensures PositionOf(|payload|, off) / 32 == off / 31
  {
    var s := off / 31;
    assert off == 31 * s + off % 31;
    assert ChunkLen(|payload|, s) > off % 31;
  }

  // ----- copy-based encoder -----

  /** nil_encode_payload_to_mdu, and encode_to_mdu of the coding module on a truncated payload. */
  method EncodePayload(payload: seq<byte>, mdu: array<byte>)
    requires |payload| <= MDU_PAYLOAD_BYTES && mdu.Length == MDU_SIZE
    modifies mdu
    ensures mdu[..] == Encoded(payload)
  {
    forall i | 0 <= i < mdu.Length {
      mdu[i] := 0;
    }
    var s := 0;
    while 31 * s < |payload|
      invariant 0 <= s && 31 * s < |payload| + 31
      invariant forall pos :: 0 <= pos < MDU_SIZE ==>
        mdu[pos] == if pos < 32 * s then EncodedByte(payload, pos) else 0
      decreases |payload| - 31 * s
    {
      var n := ChunkLen(|payload|, s);
      var start, pad := 32 * s, 32 - n;
      forall k | 0 <= k < n {
        mdu[start + pad + k] := payload[31 * s + k];
      }
      s := s + 1;
    }
    forall pos | 32 * s <= pos < MDU_SIZE ensures EncodedByte(payload, pos) == 0 {
      assert pos / 32 >= s;
      assert ChunkLen(|payload|, pos / 32) == 0;
    }
  }

  method EncodeToMdu(raw: seq<byte>) returns (mdu: array<byte>)
    ensures fresh(mdu) && mdu[..] == Encoded(Truncated(raw))
  {
    mdu := new byte[MDU_SIZE](_ => 0);
    EncodePayload(Truncated(raw), mdu);
  }

  /** Byte i of blob blobIdx of the encoding. */
  function BlobByte(payload: seq<byte>, blobIdx: nat, i: nat): byte {
    EncodedByte(payload, blobIdx * BLOB_SIZE + i)
  }

  /** encode_payload_into_blob: blob `blobIdx` of the encoding, written at offset `at` of a buffer. */
  method EncodePayloadIntoBlob(payload: seq<byte>, blobIdx: nat, out: array<byte>, at: nat)
    requires at + BLOB_SIZE <= out.Length
    modifies out
    ensures forall x :: at <= x < at + BLOB_SIZE ==> out[x] == BlobByte(payload, blobIdx, x - at)
    ensures forall x :: 0 <= x < at || at + BLOB_SIZE <= x < out.Length ==> out[x] == old(out[x])
  {
    var base := blobIdx * SCALARS_PER_BLOB * SCALAR_PAYLOAD_BYTES;
    forall x | at <= x < at + BLOB_SIZE {
      out[x] := 0;
    }
    if base >= |payload| {
      ZerosFrom(payload, blobIdx, 0);
      return;
    }
    var src, s := base, 0;
    while s < SCALARS_PER_BLOB && src < |payload|
      invariant 0 <= s <= SCALARS_PER_BLOB
      invariant src == if base + 31 * s <= |payload| then base + 31 * s else |payload|
      invariant forall x :: 0 <= x < at || at + BLOB_SIZE <= x < out.Length ==> out[x] == old(out[x])
      invariant forall x :: at <= x < at + 32 * s ==> out[x] == BlobByte(payload, blobIdx, x - at)
      invariant forall x :: at + 32 * s <= x < at + BLOB_SIZE ==> out[x] == 0
      decreases SCALARS_PER_BLOB - s
    {
      var remaining := |payload| - src;
      var n := if remaining < 31 then remaining else 31;
      var dst, pad := 32 * s, 32 - n;
      forall k | 0 <= k < n {
        out[at + dst + pad + k] := payload[src + k];
      }
      forall i | dst <= i < dst + 32
        ensures BlobByte(payload, blobIdx, i) == if i < dst + pad then 0 else payload[src + i - dst - pad]
      {
        ScalarOfBlob(payload, blobIdx, s, i);
      }
      src := src + n;
      s := s + 1;
    }
    ZerosFrom(payload, blobIdx, s);
  }

  /** Scalar s of a blob is scalar blobIdx * 4096 + s of the payload. */
  lemma ScalarOfBlob(payload: seq<byte>, blobIdx: nat, s: nat, i: nat)
    requires 32 * s <= i < 32 * s + 32
    ensures var n := ChunkLen(|payload|, blobIdx * 4096 + s);
      BlobByte(payload, blobIdx, i)
        == if i - 32 * s < 32 - n then 0 else payload[31 * (blobIdx * 4096 + s) + (i - 32 * s) - (32 - n)]
  {
    var pos := blobIdx * BLOB_SIZE + i;
    assert pos / 32 == blobIdx * 4096 + s && pos % 32 == i - 32 * s;
  }

  /** Past the last scalar of the payload the blob is zero. */
  lemma ZerosFrom(payload: seq<byte>, blobIdx: nat, s: nat)
    ensures |payload| <= 31 * (blobIdx * 4096 + s) ==>
      forall i :: 32 * s <= i < BLOB_SIZE ==> BlobByte(payload, blobIdx, i) == 0
  {
    if |payload| <= 31 * (blobIdx * 4096 + s) {
      forall i | 32 * s <= i < BLOB_SIZE ensures BlobByte(payload, blobIdx, i) == 0 {
        ScalarOfBlob(payload, blobIdx, i / 32, i);
      }
    }
  }

  // ----- decoder -----

  datatype Result<T> = Ok(value: T) | Err

  /** The bytes the decoder takes: for each chunk of the requested length, the right end of a scalar. */
  function DecodedByte(mdu: seq<byte>, len: nat, off: nat): byte
    requires |mdu| == MDU_SIZE && off < len <= MDU_PAYLOAD_BYTES
  {
    PositionInMdu(len, off);
    mdu[PositionOf(len, off)]
  }

  lemma PositionInMdu(len: nat, off: nat)
    requires off < len <= MDU_PAYLOAD_BYTES
    ensures PositionOf(len, off) < MDU_SIZE
  {
  }

  function Decoded(mdu: seq<byte>, len: nat): (p: seq<byte>)
    requires |mdu| == MDU_SIZE && len <= MDU_PAYLOAD_BYTES
    ensures |p| == len
  {
    seq(len, off requires 0 <= off < len => DecodedByte(mdu, len, off))
  }

  /** nil_decode_payload_from_mdu */
  method DecodePayload(mdu: seq<byte>, rawLen: nat) returns (r: Result<seq<byte>>)
    ensures r == if |mdu| == MDU_SIZE && rawLen <= MDU_PAYLOAD_BYTES then Ok(Decoded(mdu, rawLen)) else Err
  {
    if |mdu| != MDU_SIZE || rawLen > MDU_PAYLOAD_BYTES {
      return Err;
    }
    var scalarsUsed := (rawLen + 30) / 31;
    var out: seq<byte> := [];
    for s := 0 to scalarsUsed
      invariant |out| == if 31 * s <= rawLen then 31 * s else rawLen
      invariant forall off :: 0 <= off < |out| ==> out[off] == DecodedByte(mdu, rawLen, off)
    {
      var n := ChunkLen(rawLen, s);
      var from := 32 * s + (32 - n);
      ghost var before := out;
      out := out + mdu[from..from + n];
      forall off | |before| <= off < |out| ensures out[off] == DecodedByte(mdu, rawLen, off) {
        assert off / 31 == s && off % 31 == off - 31 * s;
      }
    }
    assert out == Decoded(mdu, rawLen);
    return Ok(out);
  }

  /** Decoding an encoded payload at its own length gives it back. */
  lemma DecodeEncode(payload: seq<byte>)
    requires |payload| <= MDU_PAYLOAD_BYTES
    ensures Decoded(Encoded(payload), |payload|) == payload
  {
    hide EncodedByte, PositionOf;
    forall off | 0 <= off < |payload| ensures Decoded(Encoded(payload), |payload|)[off] == payload[off] {
      EncodedAt(payload, off);
      PositionInMdu(|payload|, off);
    }
  }

  /** A shorter length decodes a prefix, for every payload, exactly when it ends at a chunk boundary. */
  lemma DecodePrefix(n: nat, k: nat)
    requires k <= n <= MDU_PAYLOAD_BYTES
    ensures (forall p: seq<byte> :: |p| == n ==> Decoded(Encoded(p), k) == p[..k]) <==> k == n || k % 31 == 0
  {
    if k == n {
      forall p: seq<byte> | |p| == n ensures Decoded(Encoded(p), k) == p[..k] {
        DecodeEncode(p);
        assert p[..k] == p;
      }
    } else if k % 31 == 0 {
      forall p: seq<byte> | |p| == n ensures Decoded(Encoded(p), k) == p[..k] {
        DecodeWholeChunks(p, k);
      }
    } else {
      var p := MisreadPayload(n, k);
      MisreadByte(n, k);
      assert Decoded(Encoded(p), k)[k - 1] != p[..k][k - 1];
    }
  }

  lemma DecodeWholeChunks(p: seq<byte>, k: nat)
    requires k <= |p| <= MDU_PAYLOAD_BYTES && k % 31 == 0
    ensures Decoded(Encoded(p), k) == p[..k]
  {
    hide EncodedByte;
    forall off | 0 <= off < k ensures Decoded(Encoded(p), k)[off] == p[off] {
      assert ChunkLen(k, off / 31) == 31 == ChunkLen(|p|, off / 31);
      assert PositionOf(k, off) == PositionOf(|p|, off);
      EncodedAt(p, off);
      PositionInMdu(k, off);
    }
  }

  /** All zero but for byte k, which a decoder asked for k bytes reads in place of byte k - 1. */
  function MisreadPayload(n: nat, k: nat): (p: seq<byte>)
    requires k < n
    ensures |p| == n
  {
    var last := 31 * (k / 31) + ChunkLen(n, k / 31) - 1;
    seq(n, i requires 0 <= i < n => if i == last then 1 else 0)
  }

  lemma MisreadByte(n: nat, k: nat)
    requires 0 < k < n <= MDU_PAYLOAD_BYTES && k % 31 != 0
    ensures var p := MisreadPayload(n, k);
      DecodedByte(Encoded(p), k, k - 1) == 1 && p[k - 1] == 0
  {
    var p, s := MisreadPayload(n, k), k / 31;
    var last := 31 * s + ChunkLen(n, s) - 1;
    assert (k - 1) / 31 == s && (k - 1) % 31 == k - 1 - 31 * s;
    assert ChunkLen(k, s) == k - 31 * s;
    PositionInMdu(k, k - 1);
    assert PositionOf(k, k - 1) == 32 * s + 31;
    assert last / 31 == s && last % 31 == last - 31 * s;
    assert PositionOf(n, last) == 32 * s + 31;
    EncodedAt(p, last);
  }
}
