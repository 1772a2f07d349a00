/** Reading a stretch of the witness bytes with the reader made for files: it takes the stretch for a file of
    its own, whose last chunk is shorter, but the encoder cut all witness bytes into chunks together. */
module WitnessRead {
  import opened Bytes
  import opened Codec
  import opened ErasureCode
  import opened Reader
  import opened Stripe
  import opened SlabLayout

  /** The witness MDUs of some bytes. */
  function WitnessDisk(b: seq<byte>, w: nat): map<nat, seq<byte>> {
    map i: nat | 1 <= i <= w :: WitnessMdu(b, i)
  }

  function WitnessMdu(b: seq<byte>, i: nat): seq<byte>
    requires i > 0
  {
    Encoded(WitnessPayload(b, i - 1))
  }

  /** The reader for bytes start..start + span of them. */
  function WitnessRecord(b: seq<byte>, w: nat, start: nat, span: nat): Record {
    Record(WitnessDisk(b, w), 1, start, span)
  }

  /** What the reader delivers. */
  function WitnessStretch(b: seq<byte>, w: nat, start: nat, span: nat): seq<byte> {
    Stream(WitnessRecord(b, w, start, span), start / 31, start % 31, span)
  }

  lemma WitnessHeld(b: seq<byte>, w: nat, start: nat, span: nat, from: nat, to: nat)
    requires from <= to <= |b| <= w * MDU_PAYLOAD_BYTES
    ensures Holds(WitnessRecord(b, w, start, span), 0, b, from, to)
  {
    hide Encoded, Cut, Holds;
    var r := WitnessRecord(b, w, start, span);
    forall i: nat | i * MDU_PAYLOAD_BYTES < to && from < (i + 1) * MDU_PAYLOAD_BYTES ensures HoldsMdu(r, 0, b, i) {
      assert i < w;
    }
    CutFileHolds(r, 0, b, from, to);
  }

  /** The chunk of the last byte of the stretch. */
  function LastChunk(start: nat, span: nat): nat
    requires span > 0
  {
    (start + span - 1) / 31
  }

  /** In that chunk the reader takes as many bytes as the encoder put in. */
  predicate LastAgrees(start: nat, span: nat, total: nat)
    requires span > 0
  {
    PayloadLen(Record(map[], 1, start, span), LastChunk(start, span)) == ChunkLen(total, LastChunk(start, span))
  }

  /** Before its last chunk reader and encoder agree. */
  lemma AgreesBefore(b: seq<byte>, w: nat, start: nat, span: nat, to: nat)
    requires 0 < span && start + span <= |b| && to <= start + span
    requires to <= 31 * LastChunk(start, span) || LastAgrees(start, span, |b|)
    ensures Agrees(WitnessRecord(b, w, start, span), 0, |b|, start, to)
  {
    var r, e := WitnessRecord(b, w, start, span), LastChunk(start, span);
    forall i: nat | 31 * i < to && start < 31 * i + 31 ensures PayloadLen(r, i) == ChunkLen(|b|, i) {
      assert i <= e;
      if i < e {
        assert 31 * i >= start ==> (31 * i - start) / 31 < (span - 1) / 31;
      }
    }
  }

  /** All zero but for one byte. */
  function OneHot(n: nat, x: nat): (b: seq<byte>)
    ensures |b| == n
  {
    seq(n, i requires 0 <= i < n => if i == x then 1 else 0)
  }

  /** Byte k of scalar q of the witness MDUs. */
  lemma ScalarByte(b: seq<byte>, w: nat, start: nat, span: nat, q: nat, k: nat)
    requires |b| <= w * MDU_PAYLOAD_BYTES && k < 32 && ScalarAt(WitnessRecord(b, w, start, span), q).Some?
    ensures var n := ChunkLen(|b|, q);
      ScalarAt(WitnessRecord(b, w, start, span), q).value[k]
        == if k < 32 - n then 0 else b[31 * q + (k - (32 - n))]
  {
    hide Cut, WitnessPayload, Encoded, ChunkLen;
    var m, s := q / SCALARS_PER_MDU, q % SCALARS_PER_MDU;
    ScalarOfMdu(WitnessRecord(b, w, start, span), 0, q, WitnessPayload(b, m));
    EncodedAtScalar(WitnessPayload(b, m), s, k);
    PayloadChunk(b, m, s);
  }

  lemma EncodedAtScalar(payload: seq<byte>, s: nat, k: nat)
    requires s < SCALARS_PER_MDU && k < 32
    ensures var n := ChunkLen(|payload|, s);
      Encoded(payload)[32 * s..32 * s + 32][k] == if k < 32 - n then 0 else payload[31 * s + (k - (32 - n))]
  {
    assert (32 * s + k) / 32 == s && (32 * s + k) % 32 == k;
    assert Encoded(payload)[32 * s + k] == EncodedByte(payload, 32 * s + k);
  }

  lemma PayloadChunk(b: seq<byte>, m: nat, s: nat)
    requires s < SCALARS_PER_MDU
    ensures var cut, q := WitnessPayload(b, m), m * SCALARS_PER_MDU + s;
      ChunkLen(|cut|, s) == ChunkLen(|b|, q) &&
      forall j :: 31 * s <= j < 31 * s + ChunkLen(|cut|, s) ==> cut[j] == b[j - 31 * s + 31 * q]
  {
  }

  /** The first byte a stream delivers. */
  lemma StreamHead(r: Record, q: nat, skip: nat, remaining: nat)
    requires remaining > 0 && skip < PayloadLen(r, q) && Stream(r, q, skip, remaining) != []
    ensures ScalarAt(r, q).Some?
    ensures Stream(r, q, skip, remaining)[0] == ScalarAt(r, q).value[32 - PayloadLen(r, q) + skip]
  {
    hide PayloadLen, ScalarAt;
  }

  /** Where reader and encoder disagree on the last chunk, the stretch of some bytes is read wrong. */
  lemma Misread(start: nat, span: nat, total: nat, w: nat)
    requires 0 < span && start + span <= total <= w * MDU_PAYLOAD_BYTES && !LastAgrees(start, span, total)
    ensures var e := LastChunk(start, span);
      var b := OneHot(total, if 31 * e > start then 31 * e else start);
      WitnessStretch(b, w, start, span) != b[start..start + span]
  {
    hide ScalarAt, PayloadLen, Stream, ChunkLen;
    var e := LastChunk(start, span);
    var x := if 31 * e > start then 31 * e else start;
    var b := OneHot(total, x);
    var r := WitnessRecord(b, w, start, span);
    if 31 * e > start {
      WitnessHeld(b, w, start, span, start, 31 * e);
      AgreesBefore(b, w, start, span, 31 * e);
      StreamSplit(r, b, start, 31 * e, span);
    }
    var rest := Stream(r, e, x - 31 * e, span - (x - start));
    assert WitnessStretch(b, w, start, span) == b[start..x] + rest;
    WrongHead(start, span, total, w);
    assert b[start..start + span][x - start] == 1;
  }

  /** The disagreeing chunk does not start with the byte it should. */
  lemma WrongHead(start: nat, span: nat, total: nat, w: nat)
    requires 0 < span && start + span <= total <= w * MDU_PAYLOAD_BYTES && !LastAgrees(start, span, total)
    ensures var e := LastChunk(start, span);
      var x := if 31 * e > start then 31 * e else start;
      var b := OneHot(total, x);
      var rest := Stream(WitnessRecord(b, w, start, span), e, x - 31 * e, span - (x - start));
      rest == [] || rest[0] != 1
  {
    hide ScalarAt, Stream, WitnessDisk;
    var e := LastChunk(start, span);
    var x := if 31 * e > start then 31 * e else start;
    var b := OneHot(total, x);
    var r := WitnessRecord(b, w, start, span);
    var skip := x - 31 * e;
    var n := PayloadLen(r, e);
    assert skip < n;
    if Stream(r, e, skip, span - (x - start)) != [] {
      StreamHead(r, e, skip, span - (x - start));
      ScalarByte(b, w, start, span, e, 32 - n + skip);
    }
  }

  lemma StreamStep(r: Record, q: nat, skip: nat, remaining: nat)
    requires remaining > 0 && ScalarAt(r, q).Some?
    ensures var p := Piece(r, q, skip);
      Stream(r, q, skip, remaining)
        == if |p| >= remaining then p[..remaining] else p + Stream(r, q + 1, 0, remaining - |p|)
    ensures Stream(r, q + 1, 0, 0) == []
  {
    hide Piece, ScalarAt;
  }

  /** The stream up to the next chunk boundary. */
  lemma FirstChunk(r: Record, b: seq<byte>, from: nat, mid: nat, length: nat)
    requires from < mid <= from + length && mid % 31 == 0 && mid <= |b|
    requires Holds(r, 0, b, from, mid) && Agrees(r, 0, |b|, from, mid)
    ensures var next := from / 31 * 31 + 31;
      next <= mid &&
      Stream(r, from / 31, from % 31, length) == b[from..next] + Stream(r, from / 31 + 1, 0, length - (next - from))
  {
    hide PayloadLen, ScalarAt, Piece, Holds, Agrees, Stream;
    FirstPiece(r, 0, b, from, mid);
    StreamStep(r, from / 31, from % 31, length);
  }

  /** The stream up to a chunk boundary, and from there on. */
  lemma {:induction false} StreamSplit(r: Record, b: seq<byte>, from: nat, mid: nat, length: nat)
    requires from <= mid <= from + length && mid % 31 == 0 && mid <= |b|
    requires Holds(r, 0, b, from, mid) && Agrees(r, 0, |b|, from, mid)
    ensures Stream(r, from / 31, from % 31, length)
      == b[from..mid] + if from == mid then Stream(r, from / 31, from % 31, length)
                        else Stream(r, mid / 31, 0, length - (mid - from))
    decreases mid - from
  {
    hide PayloadLen, ScalarAt, Piece, Holds, Agrees, Stream;
    if from < mid {
      var next := from / 31 * 31 + 31;
      FirstChunk(r, b, from, mid, length);
      assert next / 31 == from / 31 + 1 && next % 31 == 0 && next <= mid;
      Less(r, 0, b, from, next, mid);
      StreamSplit(r, b, next, mid, length - (next - from));
      assert b[from..mid] == b[from..next] + b[next..mid];
    }
  }

  /** The reader delivers the stretch, whatever the witness bytes are, exactly when it agrees with the encoder
      about the chunk of the stretch's last byte. */
  lemma WitnessReadExact(start: nat, span: nat, total: nat, w: nat)
    requires 0 < span && start + span <= total <= w * MDU_PAYLOAD_BYTES
    ensures (forall b: seq<byte> :: |b| == total ==> WitnessStretch(b, w, start, span) == b[start..start + span])
      <==> LastAgrees(start, span, total)
  {
    hide Stream, ChunkLen, PayloadLen, WitnessStretch;
    if LastAgrees(start, span, total) {
      forall b: seq<byte> | |b| == total ensures WitnessStretch(b, w, start, span) == b[start..start + span] {
        GoodStretch(b, w, start, span);
      }
    } else {
      Misread(start, span, total, w);
    }
  }

  lemma GoodStretch(b: seq<byte>, w: nat, start: nat, span: nat)
    requires 0 < span && start + span <= |b| <= w * MDU_PAYLOAD_BYTES && LastAgrees(start, span, |b|)
    ensures WitnessStretch(b, w, start, span) == b[start..start + span]
  {
    hide Stream, ChunkLen, PayloadLen, Holds, Agrees;
    WitnessHeld(b, w, start, span, start, start + span);
    AgreesBefore(b, w, start, span, start + span);
    StreamIsSlice(WitnessRecord(b, w, start, span), 0, b, start, span);
  }

  /** The same holds of the witness MDUs of a slab. */
  lemma SlabStretch(mdus: map<nat, seq<byte>>, b: seq<byte>, w: nat, start: nat, span: nat)
    requires WitnessStored(mdus, b, w) && 0 < span && start + span <= |b| <= w * MDU_PAYLOAD_BYTES
    requires LastAgrees(start, span, |b|)
    ensures 1 + start / MDU_PAYLOAD_BYTES in mdus
    ensures Readable(Record(mdus, 1, start, span), 0, span) == b[start..start + span]
  {
    hide Stream, ChunkLen, PayloadLen, Holds, Encoded, Cut, LastAgrees;
    var r := Record(mdus, 1, start, span);
    assert WitnessAt(mdus, b, start / MDU_PAYLOAD_BYTES);
    forall i: nat | i * MDU_PAYLOAD_BYTES < start + span && start < (i + 1) * MDU_PAYLOAD_BYTES
      ensures HoldsMdu(r, 0, b, i)
    {
      assert WitnessAt(mdus, b, i);
    }
    CutFileHolds(r, 0, b, start, start + span);
    AgreesBefore(b, w, start, span, start + span);
    SameAgrees(WitnessRecord(b, w, start, span), r, |b|, start, start + span);
    StreamIsSlice(r, 0, b, start, span);
  }

  lemma SameAgrees(q: Record, r: Record, len: nat, from: nat, to: nat)
    requires q.start == r.start && q.len == r.len && Agrees(q, 0, len, from, to)
    ensures Agrees(r, 0, len, from, to)
  {
  }

  /** A stretch that starts at a chunk boundary, such as that of the first user MDU, is read right only if it
      is the last one or a multiple of 31 bytes long. */
  lemma AlignedStretch(start: nat, span: nat, total: nat)
    requires 0 < span && start + span <= total && start % 31 == 0
    ensures LastAgrees(start, span, total) <==> span % 31 == 0 || start + span == total
  {
    var e := LastChunk(start, span);
    assert e == start / 31 + (span - 1) / 31;
    assert (31 * e - start) / 31 == (span - 1) / 31;
  }

  /** So with 8 + 4 slots the commitments of the first of two user MDUs are read wrong. */
  lemma FirstOfTwoMisread(c: Code)
    requires c.k == 8 && c.m == 4
    ensures Span(c) == 4608 && WitnessCount(2, c) == 1
    ensures exists b: seq<byte> :: |b| == 2 * Span(c) && WitnessStretch(b, 1, 0, Span(c)) != b[..Span(c)]
  {
    hide WitnessStretch, LastAgrees;
    assert Rows(8) == 8;
    assert LeafCount(c) == 96;
    WitnessReadExact(0, 4608, 9216, 1);
    AlignedStretch(0, 4608, 9216);
  }
}
