/** The header and the records of the file table in MDU 0, as bytes. */
module Layout {
  import opened BitReverse
  import opened Bytes
  import opened Division

  const MAGIC_NILF: seq<byte> := [0x4E, 0x49, 0x4C, 0x46]
  const HEADER_SIZE: nat := 128
  const RECORD_SIZE: nat := 64
  const PATH_SIZE: nat := 40
  const U64: nat := 0x1_0000_0000_0000_0000
  const LENGTH_LIMIT: nat := 0x100_0000_0000_0000

  datatype FileTableHeader = FileTableHeader(
    magic: seq<byte>, version: byte, pad1: byte, recordSize: nat, recordCount: nat, reserved: seq<byte>)

  datatype FileRecord = FileRecord(startOffset: nat, lengthAndFlags: nat, timestamp: nat, path: seq<byte>)

  ghost predicate HeaderFits(h: FileTableHeader) {
    |h.magic| == 4 && h.recordSize < 0x1_0000 && h.recordCount < 0x1_0000_0000 && |h.reserved| == 116
  }

  ghost predicate RecordFits(r: FileRecord) {
    r.startOffset < U64 && r.lengthAndFlags < U64 && r.timestamp < U64 && |r.path| == PATH_SIZE
  }

  /** FileTableHeader::default */
  function DefaultHeader(): (h: FileTableHeader)
    ensures HeaderFits(h)
  {
    FileTableHeader(MAGIC_NILF, 1, 0, 64, 0, seq(116, _ => 0))
  }

  /** to_bytes of the header */
  function HeaderBytes(h: FileTableHeader): (b: seq<byte>)
    ensures HeaderFits(h) ==> |b| == HEADER_SIZE
  {
    h.magic + [h.version, h.pad1] + LeBytes(h.recordSize, 2) + LeBytes(h.recordCount, 4) + h.reserved
  }

  /** from_bytes of the header */
  function HeaderOf(b: seq<byte>): FileTableHeader
    requires |b| == HEADER_SIZE
  {
    FileTableHeader(b[0..4], b[4], b[5], LeValue(b[6..8]), LeValue(b[8..12]), b[12..128])
  }

  /** to_bytes of a record */
  function RecordBytes(r: FileRecord): (b: seq<byte>)
    ensures |r.path| == PATH_SIZE ==> |b| == RECORD_SIZE
  {
    LeBytes(r.startOffset, 8) + LeBytes(r.lengthAndFlags, 8) + LeBytes(r.timestamp, 8) + r.path
  }

  /** from_bytes of a record */
  function RecordOf(b: seq<byte>): FileRecord
    requires |b| == RECORD_SIZE
  {
    FileRecord(LeValue(b[0..8]), LeValue(b[8..16]), LeValue(b[16..24]), b[24..64])
  }

  lemma LeFits(x: nat, n: nat)
    requires (n == 2 && x < 0x1_0000) || (n == 4 && x < 0x1_0000_0000) || (n == 8 && x < U64)
    ensures LeValue(LeBytes(x, n)) == x
  {
    ByteLimits();
    LeRoundTrip(x, n);
  }

  lemma ByteLimits()
    ensures TwoPow(16) == 0x1_0000 && TwoPow(32) == 0x1_0000_0000 && TwoPow(64) == U64
  {
    assert TwoPow(8) == 256;
    TwoPowAdd(8, 8);
    TwoPowAdd(16, 16);
    TwoPowAdd(32, 32);
  }

  /** Where the fields of a header are: magic at 0, version at 4, record size at 6 and count at 8, both lowest byte
      first, and 116 reserved bytes from 12 on. */
  lemma HeaderPlaces(h: FileTableHeader)
    requires HeaderFits(h)
    ensures var b := HeaderBytes(h);
      |b| == 128 && b[..4] == h.magic && b[4] == h.version && b[5] == h.pad1 && b[12..] == h.reserved &&
      LeValue(b[6..8]) == h.recordSize && LeValue(b[8..12]) == h.recordCount
  {
    hide LeBytes, LeValue;
    var b := HeaderBytes(h);
    LeFits(h.recordSize, 2);
    LeFits(h.recordCount, 4);
    assert b[6..8] == LeBytes(h.recordSize, 2) && b[8..12] == LeBytes(h.recordCount, 4);
  }

  /** The header of an empty table, byte by byte. */
  lemma DefaultHeaderBytes()
    ensures HeaderBytes(DefaultHeader()) == [0x4E, 0x49, 0x4C, 0x46, 1, 0, 64, 0, 0, 0, 0, 0] + seq(116, _ => 0)
  {
    assert LeBytes(64, 2) == [64, 0] && LeBytes(0, 4) == [0, 0, 0, 0];
  }

  lemma HeaderRoundTrip(h: FileTableHeader)
    requires HeaderFits(h)
    ensures HeaderOf(HeaderBytes(h)) == h
  {
    hide LeBytes, LeValue;
    LeFits(h.recordSize, 2);
    LeFits(h.recordCount, 4);
    var b := HeaderBytes(h);
    assert b[0..4] == h.magic && b[4] == h.version && b[5] == h.pad1;
    assert b[6..8] == LeBytes(h.recordSize, 2) && b[8..12] == LeBytes(h.recordCount, 4) && b[12..128] == h.reserved;
  }

  lemma HeaderOfBytes(b: seq<byte>)
    requires |b| == HEADER_SIZE
    ensures HeaderFits(HeaderOf(b)) && HeaderBytes(HeaderOf(b)) == b
  {
    hide LeBytes, LeValue;
    LeBytesOfValue(b[6..8]);
    LeBytesOfValue(b[8..12]);
    LeBound(b[6..8]);
    LeBound(b[8..12]);
    ByteLimits();
    assert b == b[0..4] + [b[4], b[5]] + b[6..8] + b[8..12] + b[12..128];
  }

  /** Where the fields of a record are: start at 0, length and flags at 8, timestamp at 16, each in 8 bytes with the
      lowest first, and the path from 24 on. */
  lemma RecordPlaces(r: FileRecord)
    requires RecordFits(r)
    ensures var b := RecordBytes(r);
      |b| == 64 && LeValue(b[..8]) == r.startOffset && LeValue(b[8..16]) == r.lengthAndFlags &&
      LeValue(b[16..24]) == r.timestamp && b[24..] == r.path
  {
    hide LeBytes, LeValue;
    LeFits(r.startOffset, 8);
    LeFits(r.lengthAndFlags, 8);
    LeFits(r.timestamp, 8);
    var b := RecordBytes(r);
    assert b[..8] == LeBytes(r.startOffset, 8) && b[8..16] == LeBytes(r.lengthAndFlags, 8);
    assert b[16..24] == LeBytes(r.timestamp, 8);
  }

  lemma RecordRoundTrip(r: FileRecord)
    requires RecordFits(r)
    ensures RecordOf(RecordBytes(r)) == r
  {
    hide LeBytes, LeValue;
    LeFits(r.startOffset, 8);
    LeFits(r.lengthAndFlags, 8);
    LeFits(r.timestamp, 8);
    var b := RecordBytes(r);
    assert b[0..8] == LeBytes(r.startOffset, 8) && b[8..16] == LeBytes(r.lengthAndFlags, 8);
    assert b[16..24] == LeBytes(r.timestamp, 8) && b[24..64] == r.path;
  }

  lemma RecordOfBytes(b: seq<byte>)
    requires |b| == RECORD_SIZE
    ensures RecordFits(RecordOf(b)) && RecordBytes(RecordOf(b)) == b
  {
    hide LeBytes, LeValue;
    LeBytesOfValue(b[0..8]);
    LeBytesOfValue(b[8..16]);
    LeBytesOfValue(b[16..24]);
    LeBound(b[0..8]);
    LeBound(b[8..16]);
    LeBound(b[16..24]);
    ByteLimits();
    assert b == b[0..8] + b[8..16] + b[16..24] + b[24..64];
  }

  // ----- length and flags in one word: the length in the low 56 bits, the flags above -----

  function PackLengthAndFlags(length: nat, flags: byte): (w: nat)
    ensures w < U64
  {
    flags * LENGTH_LIMIT + length % LENGTH_LIMIT
  }

  function UnpackLengthAndFlags(w: nat): (nat, nat) {
    (w % LENGTH_LIMIT, w / LENGTH_LIMIT)
  }

  function Length(r: FileRecord): (n: nat)
    ensures n < LENGTH_LIMIT
  {
    UnpackLengthAndFlags(r.lengthAndFlags).0
  }

  /** As bytes, the length comes first, in seven of them, and the flags are the eighth. */
  lemma PackPlaces(length: nat, flags: byte)
    ensures LeBytes(PackLengthAndFlags(length, flags), 8) == LeBytes(length, 7) + [flags]
  {
    hide LeBytes, LeValue, TwoPow;
    var bytes := LeBytes(length, 7) + [flags];
    LeAppend(LeBytes(length, 7), [flags]);
    LeTruncates(length, 7);
    FiftySix();
    assert LeValue([flags]) == flags by { LeOfOne([flags]); }
    LeBytesOfValue(bytes);
  }

  lemma LeOfOne(b: seq<byte>)
    requires |b| == 1
    ensures LeValue(b) == b[0]
  {
  }

  /** The n low bytes of a number are its remainder. */
  lemma {:induction false} LeTruncates(x: nat, n: nat)
    ensures LeValue(LeBytes(x, n)) == x % TwoPow(8 * n)
  {
    if n > 0 {
      var q := TwoPow(8 * (n - 1));
      LeTruncates(x / 256, n - 1);
      TwoPowByte(n - 1);
      RemainderStep(x, q);
    }
  }

  lemma RemainderStep(x: nat, q: nat)
    requires q > 0
    ensures x % 256 + 256 * (x / 256 % q) == x % (256 * q)
  {
    var a, s := x / 256, x / 256 % q;
    assert a == q * (a / q) + s;
    assert x == 256 * a + x % 256;
    assert 256 * (q * (a / q)) == (256 * q) * (a / q);
    DivUnique(x, 256 * q, a / q, 256 * s + x % 256);
  }

  lemma FiftySix()
    ensures TwoPow(56) == LENGTH_LIMIT
  {
    assert TwoPow(8) == 256;
    TwoPowAdd(8, 8);
    TwoPowAdd(16, 8);
    TwoPowAdd(24, 32);
    TwoPowAdd(16, 16);
  }

  lemma PackUnpack(length: nat, flags: byte, w: nat)
    ensures UnpackLengthAndFlags(PackLengthAndFlags(length, flags)) == (length, flags as nat) <==> length < LENGTH_LIMIT
    ensures w < U64 ==> var (l, f) := UnpackLengthAndFlags(w); f < 256 && PackLengthAndFlags(l, f) == w
  {
  }
}
