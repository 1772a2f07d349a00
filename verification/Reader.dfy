/** The streaming reader that decodes the bytes of a file record out of the MDUs of a slab. */
module Reader {
  import opened Bytes
  import opened Codec
  import opened ErasureCode

  /** What a reader was made for: the MDU files of a slab by index, the index of its first user MDU, and
      the extent of the file record. */
  datatype Record = Record(disk: map<nat, seq<byte>>, slabStart: nat, start: nat, len: nat)

  // ----- what a reader is to deliver -----

  /** Scalar q of the user space, if it is on disk. */
  function ScalarAt(r: Record, q: nat): (b: Option<seq<byte>>)
    ensures b.Some? ==> |b.value| == 32
  {
    var mdu, s := r.slabStart + q / SCALARS_PER_MDU, q % SCALARS_PER_MDU;
    if mdu in r.disk && 32 * s + 32 <= |r.disk[mdu]| then Some(r.disk[mdu][32 * s..32 * s + 32]) else None
  }

  /** How many bytes of scalar q are payload: 31, except in the last chunk of the record. */
  function PayloadLen(r: Record, q: nat): (n: nat)
    ensures 1 <= n <= 31
  {
    if r.len > 0 && 31 * q >= r.start && (31 * q - r.start) / 31 == (r.len - 1) / 31 && r.len % 31 != 0
    then r.len % 31 else 31
  }

  /** The payload bytes of scalar q after the first `skip`. */
  function Piece(r: Record, q: nat, skip: nat): (p: seq<byte>)
    requires ScalarAt(r, q).Some?
    ensures skip == 0 ==> |p| >= 1
  {
    var n := PayloadLen(r, q);
    if skip <= n then ScalarAt(r, q).value[32 - n + skip..] else []
  }

  /** The bytes that can be had from scalar q on, at most `remaining`, up to the first scalar that is
      not there. */
  function Stream(r: Record, q: nat, skip: nat, remaining: nat): (s: seq<byte>)
    ensures |s| <= remaining
    decreases remaining, skip
  {
    if remaining == 0 || ScalarAt(r, q).None? then [] else
      var p := Piece(r, q, skip);
      if |p| >= remaining then p[..remaining] else p + Stream(r, q + 1, 0, remaining - |p|)
  }

  lemma PieceIs(r: Record, q: nat, skip: nat, b: seq<byte>)
    requires ScalarAt(r, q) == Some(b)
    ensures var n := PayloadLen(r, q);
      Piece(r, q, skip) == if skip <= n then b[32 - n..][skip..] else []
  {
  }

  /** The bytes to come when b is buffered and the stream goes on at scalar q, or ends if no file is open. */
  function Pending(r: Record, isOpen: bool, b: seq<byte>, q: nat, skip: nat, remaining: nat): (s: seq<byte>)
    ensures |s| <= remaining
  {
    if |b| >= remaining then b[..remaining]
    else if isOpen then b + Stream(r, q, skip, remaining - |b|)
    else b
  }

  lemma TakeBuffered(r: Record, isOpen: bool, b: seq<byte>, q: nat, skip: nat, remaining: nat, k: nat)
    requires k <= |b| && k <= remaining
    ensures Pending(r, isOpen, b, q, skip, remaining)
      == b[..k] + Pending(r, isOpen, b[k..], q, skip, remaining - k)
  {
    hide Stream;
    assert b == b[..k] + b[k..];
  }

  lemma EndsWhenClosed(r: Record, q: nat, skip: nat, remaining: nat)
    ensures Pending(r, false, [], q, skip, remaining) == []
  {
  }

  lemma MissingMdu(r: Record, mdu: nat)
    requires r.slabStart + mdu !in r.disk
    ensures ScalarAt(r, mdu * SCALARS_PER_MDU).None?
  {
  }

  lemma NextScalar(r: Record, q: nat, skip: nat, remaining: nat)
    requires remaining > 0
    ensures Pending(r, true, [], q, skip, remaining)
      == if ScalarAt(r, q).None? then [] else Pending(r, true, Piece(r, q, skip), q + 1, 0, remaining)
  {
    hide Piece, ScalarAt;
  }

  // ----- the reader -----

  datatype ReadStatus = Okay | Eof | ClosedPipe | NotExist | ShortRead

  /** An MDU file that is open, and the position in it. */
  datatype OpenFile = OpenFile(content: seq<byte>, pos: nat)

  class DecodedReader {
    const record: Record
    var remaining: nat
    var currentUserMdu: nat
    var currentScalar: nat
    var payloadOffset: nat
    var payloadBuf: seq<byte>
    var payloadBufIndex: nat
    var file: Option<OpenFile>

    ghost function Position(): nat
      reads this
    {
      currentUserMdu * SCALARS_PER_MDU + currentScalar
    }

    /** The open file is the current MDU, positioned at the current scalar, unless it ended before. */
    ghost predicate Valid()
      reads this
    {
      currentScalar <= SCALARS_PER_MDU &&
      (currentScalar == SCALARS_PER_MDU ==> payloadOffset == 0) && (file.None? ==> Buffered() == []) &&
      (file.Some? ==>
        var mdu := record.slabStart + currentUserMdu;
        mdu in record.disk && file.value.content == record.disk[mdu] &&
        (file.value.pos == 32 * currentScalar ||
         (currentScalar < SCALARS_PER_MDU &&
          file.value.pos + 32 > |file.value.content| && 32 * currentScalar + 32 > |file.value.content|)))
    }

    ghost function Buffered(): (b: seq<byte>)
      reads this
    {
      if payloadBufIndex <= |payloadBuf| then payloadBuf[payloadBufIndex..] else []
    }

    /** All the bytes this reader will still deliver. */
    ghost function Upcoming(): (s: seq<byte>)
      reads this
      ensures |s| <= remaining
    {
      Pending(record, file.Some?, Buffered(), Position(), payloadOffset, remaining)
    }

    constructor (r: Record)
      ensures record == r && remaining == 0 && Valid() && Buffered() == [] && Upcoming() == []
    {
      record := r;
      remaining, currentUserMdu, currentScalar, payloadOffset := 0, 0, 0, 0;
      payloadBuf, payloadBufIndex, file := [], 0, None;
    }

    /** newNilfsDecodedReader. The scalar index is always inside the MDU. */
    static method Make(r: Record, start: nat, length: nat) returns (reader: DecodedReader?)
      ensures reader == null <==> length > 0 && r.slabStart + start / MDU_PAYLOAD_BYTES !in r.disk
      ensures reader != null ==> fresh(reader) && reader.Valid() && reader.record == r
      ensures reader != null ==> reader.remaining == length
      ensures reader != null ==> reader.Upcoming() == Stream(r, start / 31, start % 31, length)
    {
      reader := new DecodedReader(r);
      if length == 0 {
        return;
      }
      reader.remaining := length;
      reader.currentUserMdu := start / MDU_PAYLOAD_BYTES;
      var offsetInMdu := start % MDU_PAYLOAD_BYTES;
      reader.currentScalar := offsetInMdu / 31;
      reader.payloadOffset := offsetInMdu % 31;
      assert reader.Position() == start / 31 && reader.payloadOffset == start % 31;
      assert reader.currentScalar < SCALARS_PER_MDU;
      var ok := reader.OpenCurrent();
      if !ok {
        reader := null;
      }
    }

    method OpenCurrent() returns (ok: bool)
      requires currentScalar < SCALARS_PER_MDU && Buffered() == []
      modifies this
      ensures Valid() && Buffered() == []
      ensures ok <==> record.slabStart + currentUserMdu in record.disk
      ensures ok ==> file.Some? && Upcoming() == Stream(record, Position(), payloadOffset, remaining)
      ensures !ok ==> file.None? && Upcoming() == []
      ensures remaining == old(remaining) && currentUserMdu == old(currentUserMdu)
      ensures currentScalar == old(currentScalar) && payloadOffset == old(payloadOffset)
    {
      file := None;
      var slabIdx := record.slabStart + currentUserMdu;
      if slabIdx !in record.disk {
        return false;
      }
      file := Some(OpenFile(record.disk[slabIdx], 32 * currentScalar));
      payloadBuf, payloadBufIndex := [], 0;
      return true;
    }

    /** Where the payload bytes of the current scalar are: right-aligned in the record's last chunk. */
    method ChunkShape() returns (base: nat, chunkLen: nat)
      ensures chunkLen == PayloadLen(record, Position()) && base == 32 - chunkLen
    {
      chunkLen, base := 31, 1;
      if record.len > 0 {
        var finalChunkIdx := (record.len - 1) / 31;
        var scalarAbsStart := currentUserMdu * MDU_PAYLOAD_BYTES + currentScalar * 31;
        assert scalarAbsStart == 31 * Position();
        if scalarAbsStart >= record.start {
          var chunkIdx := (scalarAbsStart - record.start) / 31;
          if chunkIdx == finalChunkIdx {
            var rem := record.len % 31;
            if rem == 0 {
              rem := 31;
            }
            chunkLen := rem;
            if chunkLen < 31 {
              base := 32 - chunkLen;
            }
          }
        }
      }
    }

    /** The open file is at scalar Position() of the user space. */
    lemma AtPosition()
      requires Valid() && file.Some? && currentScalar < SCALARS_PER_MDU
      ensures var f := file.value;
        ScalarAt(record, Position())
          == if f.pos + 32 > |f.content| then None else Some(f.content[f.pos..f.pos + 32])
      ensures file.value.pos + 32 <= |file.value.content| ==> file.value.pos == 32 * currentScalar
    {
      assert Position() / SCALARS_PER_MDU == currentUserMdu && Position() % SCALARS_PER_MDU == currentScalar;
    }

    /** io.ReadFull of one scalar, and the choice of its payload bytes. */
    method ReadScalar() returns (ok: bool)
      requires Valid() && file.Some? && currentScalar < SCALARS_PER_MDU && Buffered() == [] && remaining > 0
      modifies this
      ensures Valid() && file.Some? && remaining == old(remaining)
      ensures ok ==> ScalarAt(record, old(Position())).Some?
      ensures ok ==> Buffered() == Piece(record, old(Position()), old(payloadOffset))
      ensures ok ==> Position() == old(Position()) + 1 && payloadOffset == 0 && currentScalar == old(currentScalar) + 1
      ensures !ok ==> ScalarAt(record, old(Position())).None? && Buffered() == []
      ensures !ok ==> Position() == old(Position()) && payloadOffset == old(payloadOffset)
    {
      hide Piece, ScalarAt, PayloadLen;
      AtPosition();
      var f := file.value;
      ghost var q := Position();
      if f.pos + 32 > |f.content| {
        file := Some(f.(pos := if f.pos <= |f.content| then |f.content| else f.pos));
        return false;
      }
      var scalarBuf := f.content[f.pos..f.pos + 32];
      file := Some(f.(pos := f.pos + 32));
      var base, chunkLen := ChunkShape();
      payloadBuf := scalarBuf[base..base + chunkLen];
      payloadBufIndex := payloadOffset;
      payloadOffset := 0;
      currentScalar := currentScalar + 1;
      PieceIs(record, q, old(payloadOffset), scalarBuf);
      return true;
    }

    /** Moving buffered bytes into the caller's buffer from position `at` on. */
    method CopyOut(p: array<byte>, at: nat) returns (k: nat)
      requires Valid() && at < p.Length && remaining > 0 && payloadBufIndex < |payloadBuf|
      modifies this`payloadBufIndex, this`remaining, p
      ensures Valid() && file.Some?
      ensures 0 < k <= p.Length - at && k <= |old(Upcoming())| && remaining == old(remaining) - k
      ensures p[at..at + k] == old(Upcoming())[..k] && Upcoming() == old(Upcoming())[k..]
      ensures forall i :: 0 <= i < at || at + k <= i < p.Length ==> p[i] == old(p[i])
    {
      hide Stream, Pending;
      k := p.Length - at;
      if k > |payloadBuf| - payloadBufIndex {
        k := |payloadBuf| - payloadBufIndex;
      }
      if k > remaining {
        k := remaining;
      }
      TakeBuffered(record, file.Some?, Buffered(), Position(), payloadOffset, remaining, k);
      forall i | 0 <= i < k {
        p[at + i] := payloadBuf[payloadBufIndex + i];
      }
      payloadBufIndex := payloadBufIndex + k;
      remaining := remaining - k;
      assert forall i :: 0 <= i < k ==> p[at..at + k][i] == old(Buffered())[..k][i];
    }

    /** Bounds how often the buffer is refilled before it has something. */
    ghost function Refills(): nat
      reads this
    {
      if Buffered() != [] then 0
      else 1 + (if payloadOffset > 0 then 2 else 0) + (if currentScalar >= SCALARS_PER_MDU then 1 else 0)
    }

    /** What Read does when its buffer is empty: go on to the next MDU, or decode the next scalar. */
    method Refill() returns (status: ReadStatus)
      requires Valid() && Buffered() == [] && remaining > 0
      modifies this
      ensures Valid() && remaining == old(remaining) && Upcoming() == old(Upcoming())
      ensures status == Okay ==> file.Some? && Refills() < old(Refills())
      ensures status != Okay ==> Upcoming() == []
      ensures status != Eof && (status == ClosedPipe <==> old(file).None?)
    {
      hide Piece, ScalarAt, PayloadLen, Stream, Pending;
      if file.None? {
        EndsWhenClosed(record, Position(), payloadOffset, remaining);
        return ClosedPipe;
      }
      if currentScalar >= SCALARS_PER_MDU {
        currentUserMdu := currentUserMdu + 1;
        currentScalar := 0;
        payloadOffset := 0;
        var ok := OpenCurrent();
        NextScalar(record, Position(), payloadOffset, remaining);
        if !ok {
          MissingMdu(record, currentUserMdu);
          return NotExist;
        }
        return Okay;
      }
      NextScalar(record, Position(), payloadOffset, remaining);
      var ok := ReadScalar();
      if !ok {
        return ShortRead;
      }
      return Okay;
    }

    /** Read: the next bytes of the stream fill the buffer. An error is only reported by a call that
        delivers nothing. */
    method Read(p: array<byte>) returns (n: nat, status: ReadStatus)
      requires Valid()
      modifies this, p
      ensures Valid()
      ensures n == if p.Length <= |old(Upcoming())| then p.Length else |old(Upcoming())|
      ensures p[..n] == old(Upcoming())[..n] && p[n..] == old(p[n..])
      ensures Upcoming() == old(Upcoming())[n..] && remaining == old(remaining) - n
      ensures status == Eof <==> old(remaining) == 0
      ensures status == Okay <==> old(remaining) > 0 && (p.Length == 0 || n > 0)
    {
      hide Pending, Valid, Upcoming, Position;
      if remaining == 0 {
        return 0, Eof;
      }
      if p.Length == 0 {
        return 0, Okay;
      }
      var written := 0;
      ghost var whole := Upcoming();
      while written < p.Length && remaining > 0
        invariant Valid() && 0 <= written <= p.Length
        invariant remaining == old(remaining) - written
        invariant file.None? ==> written == 0
        invariant written <= |whole| && p[..written] == whole[..written] && Upcoming() == whole[written..]
        invariant forall i :: written <= i < p.Length ==> p[i] == old(p[i])
        decreases remaining, Refills()
      {
        if payloadBufIndex < |payloadBuf| {
          ghost var done := p[..written];
          var k := CopyOut(p, written);
          assert p[..written + k] == done + p[written..written + k];
          written := written + k;
          continue;
        }
        var status := Refill();
        if status != Okay {
          return written, if status != ClosedPipe && written > 0 then Okay else status;
        }
      }
      return written, Okay;
    }
  }

  // ----- reading a file back -----

  /** Chunk i of some bytes is right-aligned in the i-th scalar from position `base` on. */
  ghost predicate HoldsChunk(r: Record, base: nat, b: seq<byte>, i: nat)
    requires 31 * i < |b|
  {
    var scalar, n := ScalarAt(r, base / 31 + i), ChunkLen(|b|, i);
    scalar.Some? && scalar.value[32 - n..] == b[31 * i..31 * i + n]
  }

  /** The disk holds bytes from..to of b, which starts at position `base` of the user space. */
  ghost predicate Holds(r: Record, base: nat, b: seq<byte>, from: nat, to: nat) {
    base % 31 == 0 && to <= |b| && forall i: nat | 31 * i < to && from < 31 * i + 31 :: HoldsChunk(r, base, b, i)
  }

  /** In every chunk of the range the reader takes as many bytes as the encoder put in. */
  ghost predicate Agrees(r: Record, base: nat, len: nat, from: nat, to: nat) {
    forall i: nat | 31 * i < to && from < 31 * i + 31 :: PayloadLen(r, base / 31 + i) == ChunkLen(len, i)
  }

  lemma FileAgreesAt(r: Record, i: nat)
    requires r.start % 31 == 0 && 31 * i < r.len
    ensures PayloadLen(r, r.start / 31 + i) == ChunkLen(r.len, i)
  {
    assert 31 * (r.start / 31 + i) - r.start == 31 * i;
  }

  /** They agree on all of a file, when the record is that of the file. */
  lemma FileAgrees(r: Record, from: nat, to: nat)
    requires r.start % 31 == 0 && to <= r.len
    ensures Agrees(r, r.start, r.len, from, to)
  {
    hide PayloadLen, ChunkLen;
    forall i: nat | 31 * i < to && from < 31 * i + 31 ensures PayloadLen(r, r.start / 31 + i) == ChunkLen(r.len, i) {
      FileAgreesAt(r, i);
    }
  }

  /** The payload of the chunk a range starts in. */
  lemma FirstPiece(r: Record, base: nat, b: seq<byte>, from: nat, to: nat)
    requires Holds(r, base, b, from, to) && Agrees(r, base, |b|, from, to) && from < to
    ensures var q, n := (base + from) / 31, ChunkLen(|b|, from / 31);
      ScalarAt(r, q).Some? && from < from / 31 * 31 + n <= |b| &&
      Piece(r, q, (base + from) % 31) == b[from..from / 31 * 31 + n]
  {
    hide PayloadLen, ScalarAt;
    var i := from / 31;
    assert (base + from) / 31 == base / 31 + i && (base + from) % 31 == from % 31;
    assert HoldsChunk(r, base, b, i);
  }

  /** A reader of a range that is on disk, and in which it agrees with the encoder, has exactly that range
      to deliver. */
  lemma {:induction false} StreamIsSlice(r: Record, base: nat, b: seq<byte>, from: nat, length: nat)
    requires from + length <= |b|
    requires Holds(r, base, b, from, from + length) && Agrees(r, base, |b|, from, from + length)
    ensures Stream(r, (base + from) / 31, (base + from) % 31, length) == b[from..from + length]
    decreases length
  {
    hide PayloadLen, ScalarAt, Piece, Holds, Agrees;
    if length > 0 {
      FirstPiece(r, base, b, from, from + length);
      var i := from / 31;
      var mid := 31 * i + ChunkLen(|b|, i);
      if mid - from < length {
        assert mid == 31 * i + 31;
        Less(r, base, b, from, mid, from + length);
        StreamIsSlice(r, base, b, mid, length - (mid - from));
        assert (base + mid) / 31 == (base + from) / 31 + 1 && (base + mid) % 31 == 0;
        assert b[from..from + length] == b[from..mid] + b[mid..from + length];
      }
    }
  }

  lemma Less(r: Record, base: nat, b: seq<byte>, from: nat, mid: nat, to: nat)
    requires Holds(r, base, b, from, to) && Agrees(r, base, |b|, from, to) && from <= mid
    ensures Holds(r, base, b, mid, to) && Agrees(r, base, |b|, mid, to) && base % 31 == 0
  {
    hide HoldsChunk, PayloadLen;
  }

  function Sum(sizes: seq<nat>): nat {
    if sizes == [] then 0 else Sum(sizes[..|sizes| - 1]) + sizes[|sizes| - 1]
  }

  /** Reading with buffers of the given sizes, one after the other. */
  method ReadBuffers(reader: DecodedReader, sizes: seq<nat>) returns (out: seq<byte>)
    requires reader.Valid()
    modifies reader
    ensures reader.Valid()
    ensures Sum(sizes) <= |old(reader.Upcoming())| ==> |out| == Sum(sizes)
    ensures Sum(sizes) > |old(reader.Upcoming())| ==> |out| == |old(reader.Upcoming())|
    ensures old(reader.Upcoming()) == out + reader.Upcoming()
    ensures reader.remaining == old(reader.remaining) - |out|
  {
    hide *;
    hide Sum;
    out := [];
    ghost var whole := reader.Upcoming();
    assert sizes[..0] == [];
    EmptySum();
    for i := 0 to |sizes|
      invariant reader.Valid() && whole == out + reader.Upcoming()
      invariant |out| == if Sum(sizes[..i]) <= |whole| then Sum(sizes[..i]) else |whole|
      invariant reader.remaining == old(reader.remaining) - |out|
    {
      var p := new byte[sizes[i]](_ => 0);
      var n, status := reader.Read(p);
      out := out + p[..n];
      SumNext(sizes, i);
    }
    assert sizes[..|sizes|] == sizes;
  }

  lemma EmptySum()
    ensures Sum([]) == 0
  {
  }

  lemma SumNext(sizes: seq<nat>, i: nat)
    requires i < |sizes|
    ensures Sum(sizes[..i + 1]) == Sum(sizes[..i]) + sizes[i]
  {
    assert sizes[..i + 1][..i] == sizes[..i];
  }

  /** The user MDU of a byte. */
  function MduOf(pos: nat): nat {
    pos / MDU_PAYLOAD_BYTES
  }

  lemma FirstOfRange(base: nat, start: nat, from: nat)
    ensures base + (start + from) / MDU_PAYLOAD_BYTES == base + MduOf(start + from)
  {
  }

  /** The bytes that can be had of a range of a record. */
  function Readable(r: Record, from: nat, length: nat): (data: seq<byte>)
    ensures |data| <= length
  {
    Stream(r, (r.start + from) / 31, (r.start + from) % 31, length)
  }

  /** Any way of reading a range of a file yields what can be had of it; where the file is held, that is the range,
      and then the end of the stream. */
  method ReadRange(r: Record, ghost file: seq<byte>, from: nat, length: nat, sizes: seq<nat>)
      returns (out: seq<byte>, status: ReadStatus)
    requires length > 0 ==> r.slabStart + (r.start + from) / MDU_PAYLOAD_BYTES in r.disk
    ensures var data := Readable(r, from, length);
      out == data[..if Sum(sizes) < |data| then Sum(sizes) else |data|]
    ensures from + length <= |file| == r.len && Holds(r, r.start, file, from, from + length) ==>
      if Sum(sizes) < length then out == file[from..from + Sum(sizes)] && status == Okay
      else out == file[from..from + length] && status == Eof
  {
    hide *;
    ghost var data := Readable(r, from, length);
    ReadableIs(r, file, from, length);
    var reader := DecodedReader.Make(r, r.start + from, length);
    out := ReadBuffers(reader, sizes);
    SlicePrefix(file, from, length, |out|);
    var p := new byte[1](_ => 0);
    var n;
    n, status := reader.Read(p);
  }

  lemma SlicePrefix(b: seq<byte>, from: nat, length: nat, k: nat)
    ensures k <= length && from + length <= |b| ==> b[from..from + length][..k] == b[from..from + k]
  {
  }

  lemma ReadableIs(r: Record, file: seq<byte>, from: nat, length: nat)
    ensures Readable(r, from, length) == Stream(r, (r.start + from) / 31, (r.start + from) % 31, length)
    ensures from + length <= |file| == r.len && Holds(r, r.start, file, from, from + length) ==>
      Readable(r, from, length) == file[from..from + length]
  {
    if from + length <= |file| == r.len && Holds(r, r.start, file, from, from + length) {
      hide *;
      FirstMduThere(r, file, from, length);
      FileAgrees(r, from, from + length);
      StreamIsSlice(r, r.start, file, from, length);
      ReadableStream(r, from, length);
    }
  }

  lemma ReadableStream(r: Record, from: nat, length: nat)
    ensures Readable(r, from, length) == Stream(r, (r.start + from) / 31, (r.start + from) % 31, length)
  {
  }

  lemma FirstMduThere(r: Record, file: seq<byte>, from: nat, length: nat)
    requires from + length <= |file| && Holds(r, r.start, file, from, from + length)
    ensures r.start % 31 == 0
    ensures length > 0 ==> r.slabStart + (r.start + from) / MDU_PAYLOAD_BYTES in r.disk
  {
    if length > 0 {
      assert HoldsChunk(r, r.start, file, from / 31);
      assert (r.start / 31 + from / 31) / SCALARS_PER_MDU == (r.start + from) / MDU_PAYLOAD_BYTES;
    }
  }

  // ----- files cut into MDUs -----

  /** The payload of the i-th MDU of a file. */
  function Cut(file: seq<byte>, i: nat): (p: seq<byte>)
    requires i * MDU_PAYLOAD_BYTES <= |file|
    ensures |p| <= MDU_PAYLOAD_BYTES
  {
    Truncated(file[i * MDU_PAYLOAD_BYTES..])
  }

  /** The i-th MDU of a file is in its place from position `base` on. */
  ghost predicate HoldsMdu(r: Record, base: nat, file: seq<byte>, i: nat)
    requires i * MDU_PAYLOAD_BYTES < |file|
  {
    var mdu := r.slabStart + base / MDU_PAYLOAD_BYTES + i;
    mdu in r.disk && r.disk[mdu] == Encoded(Cut(file, i))
  }

  /** A file whose MDUs were encoded one by one and stored in a row is held, as far as they are there. */
  lemma CutFileHolds(r: Record, base: nat, file: seq<byte>, from: nat, to: nat)
    requires base % MDU_PAYLOAD_BYTES == 0 && from <= to <= |file|
    requires forall i: nat | i * MDU_PAYLOAD_BYTES < to && from < (i + 1) * MDU_PAYLOAD_BYTES ::
      HoldsMdu(r, base, file, i)
    ensures Holds(r, base, file, from, to)
  {
    hide HoldsMdu, HoldsChunk;
    forall i: nat | 31 * i < to && from < 31 * i + 31 ensures HoldsChunk(r, base, file, i) {
      var m := i / SCALARS_PER_MDU;
      assert m * MDU_PAYLOAD_BYTES <= 31 * i < m * MDU_PAYLOAD_BYTES + MDU_PAYLOAD_BYTES;
      assert HoldsMdu(r, base, file, m);
      ChunkHeld(r, base, file, i);
    }
  }

  lemma ChunkHeld(r: Record, base: nat, file: seq<byte>, i: nat)
    requires base % MDU_PAYLOAD_BYTES == 0 && 31 * i < |file| && i / SCALARS_PER_MDU * MDU_PAYLOAD_BYTES < |file|
    requires HoldsMdu(r, base, file, i / SCALARS_PER_MDU)
    ensures HoldsChunk(r, base, file, i)
  {
    hide Encoded, EncodedByte, ScalarAt, Cut, ChunkLen;
    var m, s := i / SCALARS_PER_MDU, i % SCALARS_PER_MDU;
    assert m * MDU_PAYLOAD_BYTES + 31 * s == 31 * i;
    CutChunk(file, m, s);
    ScalarOfMdu(r, base, i, Cut(file, m));
    EncodedChunk(Cut(file, m), s);
  }

  lemma ScalarOfMdu(r: Record, base: nat, i: nat, payload: seq<byte>)
    requires base % MDU_PAYLOAD_BYTES == 0
    requires var mdu := r.slabStart + base / MDU_PAYLOAD_BYTES + i / SCALARS_PER_MDU;
      mdu in r.disk && r.disk[mdu] == Encoded(payload)
    ensures var s := i % SCALARS_PER_MDU;
      ScalarAt(r, base / 31 + i) == Some(Encoded(payload)[32 * s..32 * s + 32])
  {
    hide Encoded;
    assert (base / 31 + i) / SCALARS_PER_MDU == base / MDU_PAYLOAD_BYTES + i / SCALARS_PER_MDU;
    assert (base / 31 + i) % SCALARS_PER_MDU == i % SCALARS_PER_MDU;
  }

  lemma CutChunk(file: seq<byte>, m: nat, s: nat)
    requires s < SCALARS_PER_MDU && m * MDU_PAYLOAD_BYTES + 31 * s < |file|
    ensures var cut, i := Cut(file, m), m * SCALARS_PER_MDU + s;
      31 * s < |cut| && ChunkLen(|cut|, s) == ChunkLen(|file|, i) &&
      31 * s + ChunkLen(|cut|, s) <= |cut| && 31 * i + ChunkLen(|file|, i) <= |file| &&
      cut[31 * s..31 * s + ChunkLen(|cut|, s)] == file[31 * i..31 * i + ChunkLen(|file|, i)]
  {
    var cut, at := Cut(file, m), m * MDU_PAYLOAD_BYTES;
    var n := ChunkLen(|cut|, s);
    assert cut == file[at..at + |cut|];
    SliceOfSlice(file, at, at + |cut|, 31 * s, 31 * s + n);
  }

  lemma EncodedChunkByte(payload: seq<byte>, s: nat, k: nat)
    requires s < SCALARS_PER_MDU && 31 * s < |payload| <= MDU_PAYLOAD_BYTES && k < ChunkLen(|payload|, s)
    ensures EncodedByte(payload, 32 * s + (32 - ChunkLen(|payload|, s)) + k) == payload[31 * s + k]
  {
    var o := 32 - ChunkLen(|payload|, s) + k;
    assert (32 * s + o) / 32 == s && (32 * s + o) % 32 == o;
  }

  lemma EncodedChunk(payload: seq<byte>, s: nat)
    requires s < SCALARS_PER_MDU && 31 * s < |payload| <= MDU_PAYLOAD_BYTES
    ensures var n := ChunkLen(|payload|, s);
      Encoded(payload)[32 * s..32 * s + 32][32 - n..] == payload[31 * s..31 * s + n]
  {
    hide EncodedByte, ChunkLen;
    var n := ChunkLen(|payload|, s);
    assert 31 * s + n <= |payload| by { ChunkInside(|payload|, s); }
    var enc := Encoded(payload)[32 * s..32 * s + 32][32 - n..];
    forall k | 0 <= k < n ensures enc[k] == payload[31 * s + k] {
      EncodedChunkByte(payload, s, k);
    }
    assert enc == payload[31 * s..31 * s + n];
  }

  lemma ChunkInside(len: nat, s: nat)
    requires 31 * s < len
    ensures 31 * s + ChunkLen(len, s) <= len
    ensures ChunkLen(len, s) == if len - 31 * s < 31 then len - 31 * s else 31
  {
  }
}
