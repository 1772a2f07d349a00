/** From a byte of a file to the blob it is stored in, and the session plan over a byte range. */
module BlobMap {
  import opened Bytes
  import opened Codec

  /** Payload bytes of one blob. */
  const BLOB_PAYLOAD: nat := 126976

  datatype BlobIndex = Blob(index: nat) | OutOfBounds

  /** rawOffsetToEncodedBlobIndex */
  function RawOffsetToEncodedBlobIndex(off: nat): BlobIndex {
    if off >= MDU_PAYLOAD_BYTES then OutOfBounds
    else
      var scalarIdx, payloadOffset := off / 31, off % 31;
      var encodedPos := scalarIdx * 32 + 1 + payloadOffset;
      var blobIdx := encodedPos / BLOB_SIZE;
      if blobIdx >= BLOBS_PER_MDU then OutOfBounds else Blob(blobIdx)
  }

  /** The index names the blob that holds the byte, in every payload that has it: also in a short last
      chunk, whose bytes sit further right than the formula assumes. */
  lemma IndexNamesTheBlob(payload: seq<byte>, off: nat)
    requires off < |payload| <= MDU_PAYLOAD_BYTES
    ensures RawOffsetToEncodedBlobIndex(off) == Blob(PositionOf(|payload|, off) / BLOB_SIZE)
    ensures var b := PositionOf(|payload|, off) / BLOB_SIZE;
      BlobByte(payload, b, PositionOf(|payload|, off) % BLOB_SIZE) == payload[off]
  {
    EncodedAt(payload, off);
    var pos := PositionOf(|payload|, off);
    var formula := off / 31 * 32 + 1 + off % 31;
    assert pos / 32 == off / 31 == formula / 32;
    assert pos / BLOB_SIZE == pos / 32 / 4096 && formula / BLOB_SIZE == formula / 32 / 4096;
    assert pos / BLOB_SIZE * BLOB_SIZE + pos % BLOB_SIZE == pos;
  }

  /** Every blob holds the same number of payload bytes, and what lies beyond them is out of bounds. */
  lemma IndexIsQuotient(off: nat)
    ensures RawOffsetToEncodedBlobIndex(off)
      == if off < 64 * BLOB_PAYLOAD then Blob(off / BLOB_PAYLOAD) else OutOfBounds
  {
    var formula := off / 31 * 32 + 1 + off % 31;
    assert formula / BLOB_SIZE == formula / 32 / 4096 && formula / 32 == off / 31;
    assert off / BLOB_PAYLOAD == off / 31 / 4096;
  }

  /** The MDU ordinal and blob of an absolute user-data offset. */
  function BlobOf(abs: nat): (nat, nat) {
    (abs / MDU_PAYLOAD_BYTES, abs % MDU_PAYLOAD_BYTES / BLOB_PAYLOAD)
  }

  lemma BlobOrder(a: nat, b: nat)
    requires a <= b
    ensures var x, y := BlobOf(a), BlobOf(b);
      x.0 * 64 + x.1 == a / BLOB_PAYLOAD && x.1 < 64 && x.0 * 64 + x.1 <= y.0 * 64 + y.1
  {
    assert forall n: nat {:trigger BlobOf(n)} :: BlobOf(n).0 * 64 + BlobOf(n).1 == n / BLOB_PAYLOAD;
  }

  /** The range check of a fetch: first and last byte in one MDU and one blob. */
  predicate RangeAccepted(abs: nat, len: nat)
    requires len > 0
  {
    var end := abs + len - 1;
    abs / MDU_PAYLOAD_BYTES == end / MDU_PAYLOAD_BYTES &&
    var b := RawOffsetToEncodedBlobIndex(end % MDU_PAYLOAD_BYTES);
    b.Blob? && RawOffsetToEncodedBlobIndex(abs % MDU_PAYLOAD_BYTES) == b
  }

  /** It accepts exactly the ranges that lie inside one blob. */
  lemma AcceptedRangeIsOneBlob(abs: nat, len: nat)
    requires len > 0
    ensures RangeAccepted(abs, len) <==> forall x :: abs <= x < abs + len ==> BlobOf(x) == BlobOf(abs)
  {
    var end := abs + len - 1;
    IndexIsQuotient(abs % MDU_PAYLOAD_BYTES);
    IndexIsQuotient(end % MDU_PAYLOAD_BYTES);
    if RangeAccepted(abs, len) {
      forall x | abs <= x < abs + len ensures BlobOf(x) == BlobOf(abs) {
        BlobOrder(abs, x);
        BlobOrder(x, end);
      }
    } else {
      assert BlobOf(end) != BlobOf(abs);
    }
  }
}
