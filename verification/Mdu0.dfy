/** The builder of MDU 0: one byte buffer with the root table, the file-table header and the records. */
module Mdu0 {
  import opened Bytes
  import opened Codec
  import opened Layout

  const ROOT_SIZE: nat := 32
  const ROOT_TABLE_END: nat := 16 * BLOB_SIZE
  const FILE_TABLE_START: nat := 16 * BLOB_SIZE
  const FILE_TABLE_END: nat := 64 * BLOB_SIZE
  const MAX_ROOTS: nat := 65536
  const MAX_RECORDS: nat := 98302
  const COMMITMENT_BYTES: nat := 48

  // ----- views of the buffer -----

  function RecordOffset(i: nat): nat {
    FILE_TABLE_START + HEADER_SIZE + i * RECORD_SIZE
  }

  function RootAt(b: seq<byte>, i: nat): (root: seq<byte>)
    requires |b| == MDU_SIZE && i < MAX_ROOTS
    ensures |root| == ROOT_SIZE
  {
    b[i * ROOT_SIZE..i * ROOT_SIZE + ROOT_SIZE]
  }

  function HeaderAt(b: seq<byte>): FileTableHeader
    requires |b| == MDU_SIZE
  {
    HeaderOf(b[FILE_TABLE_START..FILE_TABLE_START + HEADER_SIZE])
  }

  function RecordAt(b: seq<byte>, i: nat): FileRecord
    requires |b| == MDU_SIZE && i < MAX_RECORDS
  {
    RecordOf(b[RecordOffset(i)..RecordOffset(i) + RECORD_SIZE])
  }

  /** The root table of an MDU 0. */
  function RootTable(b: seq<byte>): (roots: seq<seq<byte>>)
    requires |b| == MDU_SIZE
    ensures |roots| == MAX_ROOTS
  {
    seq(MAX_ROOTS, i requires 0 <= i < MAX_ROOTS => RootAt(b, i))
  }

  /** The first `count` records of an MDU 0. */
  function RecordTable(b: seq<byte>, count: nat): (records: seq<FileRecord>)
    requires |b| == MDU_SIZE && count <= MAX_RECORDS
    ensures |records| == count
  {
    seq(count, i requires 0 <= i < count => RecordAt(b, i))
  }

  // ----- overwriting a stretch of bytes -----

  function Splice(b: seq<byte>, off: nat, piece: seq<byte>): (r: seq<byte>)
    requires off + |piece| <= |b|
    ensures |r| == |b|
  {
    b[..off] + piece + b[off + |piece|..]
  }

  lemma SpliceThere(b: seq<byte>, off: nat, piece: seq<byte>)
    requires off + |piece| <= |b|
    ensures Splice(b, off, piece)[off..off + |piece|] == piece
  {
  }

  lemma SpliceElsewhere(b: seq<byte>, off: nat, piece: seq<byte>, lo: nat, hi: nat)
    requires off + |piece| <= |b| && lo <= hi <= |b| && (hi <= off || off + |piece| <= lo)
    ensures Splice(b, off, piece)[lo..hi] == b[lo..hi]
  {
  }

  /** Setting a root changes that root and nothing else. */
  lemma SpliceRoot(b: seq<byte>, i: nat, root: seq<byte>, count: nat)
    requires |b| == MDU_SIZE && i < MAX_ROOTS && |root| == ROOT_SIZE && count <= MAX_RECORDS
    ensures var c := Splice(b, i * ROOT_SIZE, root);
      RootTable(c) == RootTable(b)[i := root] && HeaderAt(c) == HeaderAt(b) &&
      RecordTable(c, count) == RecordTable(b, count)
  {
    hide Splice, HeaderOf, RecordOf;
    var off := i * ROOT_SIZE;
    var c := Splice(b, off, root);
    SpliceThere(b, off, root);
    forall j | 0 <= j < MAX_ROOTS ensures RootAt(c, j) == if j == i then root else RootAt(b, j) {
      if j != i {
        SpliceElsewhere(b, off, root, j * ROOT_SIZE, j * ROOT_SIZE + ROOT_SIZE);
      }
    }
    SpliceElsewhere(b, off, root, FILE_TABLE_START, FILE_TABLE_START + HEADER_SIZE);
    forall j | 0 <= j < count ensures RecordAt(c, j) == RecordAt(b, j) {
      SpliceElsewhere(b, off, root, RecordOffset(j), RecordOffset(j) + RECORD_SIZE);
    }
  }

  /** Setting a record changes that record and nothing else. */
  lemma SpliceRecord(b: seq<byte>, i: nat, rec: FileRecord, count: nat)
    requires |b| == MDU_SIZE && i < MAX_RECORDS && RecordFits(rec) && count <= MAX_RECORDS
    ensures var c := Splice(b, RecordOffset(i), RecordBytes(rec));
      RootTable(c) == RootTable(b) && HeaderAt(c) == HeaderAt(b) && RecordAt(c, i) == rec &&
      forall j :: 0 <= j < MAX_RECORDS && j != i ==> RecordAt(c, j) == RecordAt(b, j)
  {
    hide Splice, HeaderOf, RecordOf, RecordBytes;
    var off, piece := RecordOffset(i), RecordBytes(rec);
    var c := Splice(b, off, piece);
    SpliceThere(b, off, piece);
    RecordRoundTrip(rec);
    forall j | 0 <= j < MAX_ROOTS ensures RootAt(c, j) == RootAt(b, j) {
      SpliceElsewhere(b, off, piece, j * ROOT_SIZE, j * ROOT_SIZE + ROOT_SIZE);
    }
    SpliceElsewhere(b, off, piece, FILE_TABLE_START, FILE_TABLE_START + HEADER_SIZE);
    forall j | 0 <= j < MAX_RECORDS && j != i ensures RecordAt(c, j) == RecordAt(b, j) {
      SpliceElsewhere(b, off, piece, RecordOffset(j), RecordOffset(j) + RECORD_SIZE);
    }
  }

  /** Writing the header changes no root and no record. */
  lemma SpliceHeader(b: seq<byte>, h: FileTableHeader)
    requires |b| == MDU_SIZE && HeaderFits(h)
    ensures var c := Splice(b, FILE_TABLE_START, HeaderBytes(h));
      RootTable(c) == RootTable(b) && HeaderAt(c) == h &&
      forall j :: 0 <= j < MAX_RECORDS ==> RecordAt(c, j) == RecordAt(b, j)
  {
    hide Splice, HeaderOf, RecordOf, HeaderBytes;
    var piece := HeaderBytes(h);
    var c := Splice(b, FILE_TABLE_START, piece);
    SpliceThere(b, FILE_TABLE_START, piece);
    HeaderRoundTrip(h);
    forall j | 0 <= j < MAX_ROOTS ensures RootAt(c, j) == RootAt(b, j) {
      SpliceElsewhere(b, FILE_TABLE_START, piece, j * ROOT_SIZE, j * ROOT_SIZE + ROOT_SIZE);
    }
    forall j | 0 <= j < MAX_RECORDS ensures RecordAt(c, j) == RecordAt(b, j) {
      SpliceElsewhere(b, FILE_TABLE_START, piece, RecordOffset(j), RecordOffset(j) + RECORD_SIZE);
    }
  }

  // ----- the table of records and its tombstones -----

  predicate Tombstone(r: FileRecord)
    requires |r.path| == PATH_SIZE
  {
    r.path[0] == 0
  }

  /** A tombstone with room for `need` bytes. */
  predicate Roomy(r: FileRecord, need: nat)
    requires |r.path| == PATH_SIZE
  {
    Tombstone(r) && Length(r) >= need
  }

  ghost predicate AllFit(records: seq<FileRecord>) {
    forall i :: 0 <= i < |records| ==> RecordFits(records[i])
  }

  /** The first tombstone with room for `need` bytes, or the number of records. */
  ghost function FirstFit(records: seq<FileRecord>, need: nat, from: nat): (i: nat)
    requires from <= |records| && AllFit(records)
    ensures from <= i <= |records|
    ensures i < |records| ==> Roomy(records[i], need)
    ensures forall j :: from <= j < i ==> !Roomy(records[j], need)
    decreases |records| - from
  {
    if from == |records| then from
    else if Roomy(records[from], need) then from
    else FirstFit(records, need, from + 1)
  }

  /** The record put into a slot keeps the slot's place in the slab. */
  function Placed(rec: FileRecord, slot: FileRecord): FileRecord {
    rec.(startOffset := slot.startOffset)
  }

  function Leftover(slot: FileRecord, need: nat): FileRecord
    requires need < Length(slot)
  {
    FileRecord((slot.startOffset + need) % U64, PackLengthAndFlags(Length(slot) - need, 0), 0, seq(PATH_SIZE, _ => 0))
  }

  datatype Insertion = Insertion(records: seq<FileRecord>, slot: nat, ok: bool)

  function Reused(records: seq<FileRecord>, rec: FileRecord, i: nat): Insertion
    requires i < |records| && Length(rec) <= Length(records[i])
  {
    var placed := records[i := Placed(rec, records[i])];
    if Length(records[i]) == Length(rec) then Insertion(placed, i, true)
    else if |records| < MAX_RECORDS then Insertion(placed + [Leftover(records[i], Length(rec))], i, true)
    else Insertion(placed, i, false)
  }

  lemma LengthIs(r: FileRecord)
    ensures UnpackLengthAndFlags(r.lengthAndFlags).0 == Length(r)
  {
  }

  /** What inserting a record does to the table. */
  ghost function Inserted(records: seq<FileRecord>, rec: FileRecord): Insertion
    requires AllFit(records)
  {
    var i := FirstFit(records, Length(rec), 0);
    if i == |records| then
      if |records| < MAX_RECORDS then Insertion(records + [rec], i, true) else Insertion(records, i, false)
    else Reused(records, rec, i)
  }

  // ----- what insertion keeps -----

  function End(r: FileRecord): nat {
    r.startOffset + Length(r)
  }

  ghost predicate Covers(r: FileRecord, x: int) {
    r.startOffset <= x < End(r)
  }

  ghost predicate Covered(records: seq<FileRecord>, x: int) {
    exists i :: 0 <= i < |records| && Covers(records[i], x)
  }

  ghost predicate Separate(a: FileRecord, b: FileRecord) {
    forall x :: !(Covers(a, x) && Covers(b, x))
  }

  /** No two records, live or tombstones, cover the same byte. */
  ghost predicate Disjoint(records: seq<FileRecord>) {
    forall i, j :: 0 <= i < j < |records| ==> Separate(records[i], records[j])
  }

  /** Every record fits its bytes and ends inside the address range. */
  ghost predicate Sound(records: seq<FileRecord>) {
    forall i :: 0 <= i < |records| ==> RecordFits(records[i]) && End(records[i]) <= U64
  }

  function TotalLength(records: seq<FileRecord>): nat {
    if records == [] then 0 else TotalLength(records[..|records| - 1]) + Length(records[|records| - 1])
  }

  /** The slot's bytes are split between the record put there and the leftover. */
  lemma SlotSplit(slot: FileRecord, rec: FileRecord)
    requires RecordFits(slot) && End(slot) <= U64 && RecordFits(rec) && Length(rec) <= Length(slot)
    ensures forall x :: Covers(Placed(rec, slot), x) ==> Covers(slot, x)
    ensures RecordFits(Placed(rec, slot)) && End(Placed(rec, slot)) <= U64
    ensures Length(rec) < Length(slot) ==>
      var left := Leftover(slot, Length(rec));
      RecordFits(left) && End(left) <= U64 && Tombstone(left) && Length(left) == Length(slot) - Length(rec) &&
      forall x :: Covers(slot, x) <==> Covers(Placed(rec, slot), x) || Covers(left, x)
    ensures Length(rec) < Length(slot) ==> Separate(Placed(rec, slot), Leftover(slot, Length(rec)))
    ensures Length(rec) == Length(slot) ==> forall x :: Covers(slot, x) <==> Covers(Placed(rec, slot), x)
  {
  }

  lemma NotBoth(records: seq<FileRecord>, i: nat, j: nat, x: int)
    requires Disjoint(records) && i < |records| && j < |records| && i != j
    ensures !(Covers(records[i], x) && Covers(records[j], x))
  {
    hide Covers;
    assert Separate(records[if i < j then i else j], records[if i < j then j else i]);
  }

  /** Replacing a record by one inside it keeps the rest apart, and so does adding another inside it. */
  lemma SplitKeepsDisjoint(records: seq<FileRecord>, i: nat, a: FileRecord, b: FileRecord)
    requires Disjoint(records) && i < |records|
    requires forall x :: Covers(a, x) || Covers(b, x) ==> Covers(records[i], x)
    requires Separate(a, b)
    ensures Disjoint(records[i := a]) && Disjoint(records[i := a] + [b])
  {
    hide Covers, Separate;
    var r := records[i := a] + [b];
    forall p, q | 0 <= p < q < |r| ensures Separate(r[p], r[q]) {
      if q == |records| && p == i {
      } else if q == |records| {
        Inside(records, i, b, p);
      } else if q == i {
        Inside(records, i, a, p);
      } else if p == i {
        Inside(records, i, a, q);
      } else {
        assert Separate(records[p], records[q]);
      }
    }
    var s := records[i := a];
    forall p, q | 0 <= p < q < |s| ensures Separate(s[p], s[q]) {
      assert Separate(r[p], r[q]);
    }
  }

  lemma Inside(records: seq<FileRecord>, i: nat, a: FileRecord, j: nat)
    requires Disjoint(records) && i < |records| && j < |records| && i != j
    requires forall x :: Covers(a, x) ==> Covers(records[i], x)
    ensures Separate(records[j], a) && Separate(a, records[j])
  {
    hide Covers;
    forall x ensures !(Covers(records[j], x) && Covers(a, x)) {
      NotBoth(records, i, j, x);
    }
  }

  /** Insertion keeps all extents pairwise disjoint; a record that is appended must bring an extent of
      its own, one that reuses a slot need not. */
  lemma InsertKeepsDisjoint(records: seq<FileRecord>, rec: FileRecord)
    requires Sound(records) && Disjoint(records) && RecordFits(rec)
    requires FirstFit(records, Length(rec), 0) == |records| ==>
      End(rec) <= U64 && forall i :: 0 <= i < |records| ==> Separate(records[i], rec)
    ensures Sound(Inserted(records, rec).records) && Disjoint(Inserted(records, rec).records)
  {
    hide Covers, Length, FirstFit, Leftover, Placed, Separate, End, RecordFits;
    var i := FirstFit(records, Length(rec), 0);
    if i < |records| {
      SlotSplit(records[i], rec);
      var a := Placed(rec, records[i]);
      var b := if Length(rec) < Length(records[i]) then Leftover(records[i], Length(rec)) else Nothing();
      NothingCovered(a);
      SplitKeepsDisjoint(records, i, a, b);
    }
  }

  function Nothing(): FileRecord {
    FileRecord(0, 0, 0, [])
  }

  lemma NothingCovered(a: FileRecord)
    ensures Separate(a, Nothing()) && forall x :: !Covers(Nothing(), x)
  {
  }

  /** A reused slot's bytes stay covered, no others are gained, and the total length is the same. */
  lemma InsertConservesBytes(records: seq<FileRecord>, rec: FileRecord)
    requires Sound(records) && RecordFits(rec) && Inserted(records, rec).ok
    requires FirstFit(records, Length(rec), 0) < |records|
    ensures forall x :: Covered(Inserted(records, rec).records, x) <==> Covered(records, x)
    ensures TotalLength(Inserted(records, rec).records) == TotalLength(records)
  {
    hide Covers, FirstFit, Leftover, Placed, Length;
    var r, need := Inserted(records, rec), Length(rec);
    var slot := records[r.slot];
    SlotSplit(slot, rec);
    var placed := records[r.slot := Placed(rec, slot)];
    PlacedLength(slot, rec);
    TotalUpdate(records, r.slot, Placed(rec, slot));
    if r.records != placed {
      assert r.records[..|records|] == placed;
    }
    forall x ensures Covered(r.records, x) <==> Covered(records, x) {
      if Covered(records, x) {
        var i :| 0 <= i < |records| && Covers(records[i], x);
        if i == r.slot {
          assert Covers(r.records[i], x) || Covers(r.records[|r.records| - 1], x);
        } else {
          assert Covers(r.records[i], x);
        }
      }
      if Covered(r.records, x) {
        var i :| 0 <= i < |r.records| && Covers(r.records[i], x);
        if i == r.slot || i == |records| {
          assert Covers(records[r.slot], x);
        } else {
          assert Covers(records[i], x);
        }
      }
    }
  }

  lemma PlacedLength(slot: FileRecord, rec: FileRecord)
    ensures Length(Placed(rec, slot)) == Length(rec)
  {
  }

  lemma {:induction false} TotalUpdate(records: seq<FileRecord>, i: nat, rec: FileRecord)
    requires i < |records|
    ensures TotalLength(records[i := rec]) == TotalLength(records) - Length(records[i]) + Length(rec)
  {
    hide Length;
    var n := |records| - 1;
    if i < n {
      TotalUpdate(records[..n], i, rec);
      assert records[i := rec][..n] == records[..n][i := rec];
    } else {
      assert records[i := rec][..n] == records[..n];
    }
  }

  /** Insertion is first-fit: it takes the first roomy tombstone, or appends, and leaves every other
      record alone. */
  lemma InsertIsFirstFit(records: seq<FileRecord>, rec: FileRecord)
    requires Sound(records) && RecordFits(rec)
    ensures var r := Inserted(records, rec);
      (forall j :: 0 <= j < r.slot ==> !Roomy(records[j], Length(rec))) &&
      (r.slot < |records| ==> Roomy(records[r.slot], Length(rec))) &&
      |records| <= |r.records| <= |records| + 1 &&
      (forall j :: 0 <= j < |records| && j != r.slot ==> r.records[j] == records[j]) &&
      (r.ok ==>
        r.slot < |r.records| && r.records[r.slot].path == rec.path && Length(r.records[r.slot]) == Length(rec)) &&
      (r.slot < |records| ==> r.records[r.slot].startOffset == records[r.slot].startOffset) &&
      (r.ok && r.slot < |records| < |r.records| ==> Tombstone(r.records[|records|]))
  {
    hide FirstFit;
    var r := Inserted(records, rec);
    if r.slot < |records| {
      SlotSplit(records[r.slot], rec);
    }
  }

  lemma PlacedEnd(slot: FileRecord, rec: FileRecord, x: int)
    ensures Covers(Placed(rec, slot), x) ==> x < slot.startOffset + Length(rec)
  {
  }

  /** A failed insertion leaves the table alone exactly when no tombstone had room. Otherwise the slot
      is overwritten already, and what is left over of it is in no record any more. */
  lemma FailedInsert(records: seq<FileRecord>, rec: FileRecord)
    requires Sound(records) && RecordFits(rec) && !Inserted(records, rec).ok
    ensures |records| >= MAX_RECORDS
    ensures Inserted(records, rec).records == records <==> FirstFit(records, Length(rec), 0) == |records|
    ensures Disjoint(records) && FirstFit(records, Length(rec), 0) < |records| ==>
      var slot := records[FirstFit(records, Length(rec), 0)];
      Length(rec) < Length(slot) &&
      forall x | slot.startOffset + Length(rec) <= x < End(slot) ::
        Covered(records, x) && !Covered(Inserted(records, rec).records, x)
  {
    hide FirstFit, Length;
    var i, r := FirstFit(records, Length(rec), 0), Inserted(records, rec);
    if i < |records| {
      PlacedLength(records[i], rec);
      assert Length(r.records[i]) != Length(records[i]);
      if Disjoint(records) {
        var slot := records[i];
        forall x | slot.startOffset + Length(rec) <= x < End(slot)
          ensures Covered(records, x) && !Covered(r.records, x)
        {
          assert Covers(records[i], x);
          forall j | 0 <= j < |r.records| ensures !Covers(r.records[j], x) {
            if j == i {
              PlacedEnd(slot, rec, x);
            } else {
              NotBoth(records, i, j, x);
            }
          }
        }
      }
    }
  }

  function Slot(start: nat): (r: FileRecord)
    requires start < U64 - 2
    ensures RecordFits(r) && Tombstone(r) && Length(r) == 2
  {
    FileRecord(start, 2, 0, seq(PATH_SIZE, _ => 0))
  }

  /** Such a failure that overwrites a slot: a full table of tombstones of two bytes each, and a file of one. */
  lemma FailedOverwrite() returns (records: seq<FileRecord>, rec: FileRecord)
    ensures |records| == MAX_RECORDS && Sound(records) && Disjoint(records)
    ensures RecordFits(rec) && !Tombstone(rec) && Length(rec) == 1
    ensures var r := Inserted(records, rec);
      !r.ok && |r.records| == MAX_RECORDS && Tombstone(records[0]) && r.records[0] == rec
  {
    hide Length, PackLengthAndFlags;
    records := seq(MAX_RECORDS, i requires 0 <= i < MAX_RECORDS => Slot(2 * i));
    rec := FileRecord(0, 1, 0, seq(PATH_SIZE, _ => 1));
    assert Length(rec) == UnpackLengthAndFlags(1).0 by { LengthIs(rec); }
    forall i, j | 0 <= i < j < |records| ensures Separate(records[i], records[j]) {
      assert End(records[i]) == 2 * i + 2 <= records[j].startOffset;
    }
    assert Roomy(records[0], 1) && FirstFit(records, 1, 0) == 0;
  }

  // ----- the builder -----

  /** ceil(n * c * 48 / 8 MiB): the fewest MDUs of 8 MiB with room for all commitments. */
  function WitnessMdus(userMdus: nat, commitmentsPerMdu: nat): (w: nat)
    ensures var size := userMdus * commitmentsPerMdu * 48;
      size <= w * 0x80_0000 && (w > 0 ==> (w - 1) * 0x80_0000 < size)
  {
    (userMdus * commitmentsPerMdu * COMMITMENT_BYTES + MDU_SIZE - 1) / MDU_SIZE
  }

  function Commitments(c: nat): nat {
    if c == 0 then 64 else c
  }

  predicate Loadable(data: seq<byte>) {
    |data| == MDU_SIZE && HeaderAt(data).magic == MAGIC_NILF
  }

  class Mdu0Builder {
    const buffer: array<byte>
    var header: FileTableHeader
    var witnessMduCount: nat
    var maxUserMdus: nat
    var commitmentsPerMdu: nat

    /** The header struct and the header bytes agree, and the records are inside the table. */
    ghost predicate Valid()
      reads this, buffer
    {
      buffer.Length == MDU_SIZE && HeaderFits(header) && HeaderAt(buffer[..]) == header &&
      header.magic == MAGIC_NILF && header.recordCount <= MAX_RECORDS
    }

    ghost function Roots(): seq<seq<byte>>
      requires Valid()
      reads this, buffer
    {
      RootTable(buffer[..])
    }

    ghost function Records(): seq<FileRecord>
      requires Valid()
      reads this, buffer
    {
      RecordTable(buffer[..], header.recordCount)
    }

    /** new_with_commitments */
    constructor (userMdus: nat, commitments: nat)
      ensures Valid() && fresh(buffer)
      ensures header == DefaultHeader() && Records() == []
      ensures forall i :: 0 <= i < MAX_ROOTS ==> Roots()[i] == seq(ROOT_SIZE, _ => 0)
      ensures maxUserMdus == userMdus && commitmentsPerMdu == if commitments == 0 then 64 else commitments
      ensures witnessMduCount == WitnessMdus(userMdus, if commitments == 0 then 64 else commitments)
    {
      witnessMduCount := WitnessMdus(userMdus, Commitments(commitments));
      header := DefaultHeader();
      maxUserMdus := userMdus;
      commitmentsPerMdu := Commitments(commitments);
      buffer := new byte[MDU_SIZE](_ => 0);
      new;
      ghost var zeros := buffer[..];
      FlushHeader();
      forall i | 0 <= i < MAX_ROOTS ensures RootAt(buffer[..], i) == seq(ROOT_SIZE, _ => 0) {
        assert RootTable(buffer[..])[i] == RootTable(zeros)[i];
      }
    }

    constructor FromBytes(data: seq<byte>, userMdus: nat, commitments: nat)
      requires |data| == MDU_SIZE
      ensures fresh(buffer) && buffer[..] == data && header == HeaderAt(data)
      ensures maxUserMdus == userMdus && commitmentsPerMdu == Commitments(commitments)
      ensures witnessMduCount == WitnessMdus(userMdus, Commitments(commitments))
    {
      buffer := new byte[MDU_SIZE](i requires 0 <= i < MDU_SIZE => data[i]);
      header := HeaderAt(data);
      maxUserMdus := userMdus;
      commitmentsPerMdu := Commitments(commitments);
      witnessMduCount := WitnessMdus(userMdus, Commitments(commitments));
    }

    /** load_with_commitments: only the size and the magic number are checked. */
    static method Load(data: seq<byte>, userMdus: nat, commitments: nat) returns (b: Mdu0Builder?)
      ensures b == null <==> !Loadable(data)
      ensures b != null ==> fresh(b) && fresh(b.buffer) && b.buffer[..] == data && b.header == HeaderAt(data)
      ensures b != null && HeaderAt(data).recordCount <= MAX_RECORDS ==> b.Valid()
      ensures b != null ==> b.witnessMduCount == WitnessMdus(userMdus, if commitments == 0 then 64 else commitments)
    {
      hide HeaderOf;
      if |data| != MDU_SIZE {
        return null;
      }
      HeaderOfBytes(data[FILE_TABLE_START..FILE_TABLE_START + HEADER_SIZE]);
      if HeaderAt(data).magic != MAGIC_NILF {
        return null;
      }
      b := new Mdu0Builder.FromBytes(data, userMdus, commitments);
    }

    /** The bytes from `off` on become `piece`. */
    method Overwrite(off: nat, piece: seq<byte>)
      requires buffer.Length == MDU_SIZE && off + |piece| <= MDU_SIZE
      modifies buffer
      ensures buffer[..] == Splice(old(buffer[..]), off, piece)
    {
      forall j | 0 <= j < |piece| {
        buffer[off + j] := piece[j];
      }
    }

    method FlushHeader()
      requires buffer.Length == MDU_SIZE && HeaderFits(header)
      modifies buffer
      ensures HeaderAt(buffer[..]) == header && RootTable(buffer[..]) == old(RootTable(buffer[..]))
      ensures forall j :: 0 <= j < MAX_RECORDS ==> RecordAt(buffer[..], j) == old(RecordAt(buffer[..], j))
    {
      hide Splice, HeaderBytes, HeaderAt, RecordAt, RootTable;
      SpliceHeader(buffer[..], header);
      Overwrite(FILE_TABLE_START, HeaderBytes(header));
    }

    method GetRoot(index: nat) returns (root: seq<byte>)
      requires Valid() && index < MAX_ROOTS
      ensures root == Roots()[index] && |root| == ROOT_SIZE
    {
      var offset := index * ROOT_SIZE;
      return buffer[offset..offset + ROOT_SIZE];
    }

    method SetRoot(index: nat, root: seq<byte>) returns (ok: bool)
      requires Valid() && |root| == ROOT_SIZE
      modifies buffer
      ensures Valid() && Records() == old(Records()) && (ok <==> index < MAX_ROOTS)
      ensures Roots() == if ok then old(Roots())[index := root] else old(Roots())
    {
      hide Splice, HeaderAt, RecordTable, RootTable;
      var offset := index * ROOT_SIZE;
      if offset + ROOT_SIZE > ROOT_TABLE_END {
        return false;
      }
      SpliceRoot(buffer[..], index, root, header.recordCount);
      Overwrite(offset, root);
      return true;
    }

    method GetFileRecord(index: nat) returns (rec: FileRecord)
      requires Valid() && index < header.recordCount
      ensures rec == Records()[index]
    {
      var offset := RecordOffset(index);
      return RecordOf(buffer[offset..offset + RECORD_SIZE]);
    }

    method AppendFileRecord(rec: FileRecord) returns (ok: bool)
      requires Valid() && RecordFits(rec)
      modifies this`header, buffer
      ensures Valid() && Roots() == old(Roots()) && (ok <==> |old(Records())| < MAX_RECORDS)
      ensures Records() == if ok then old(Records()) + [rec] else old(Records())
    {
      hide Splice, HeaderAt, RecordAt, RootTable, RecordBytes;
      var index := header.recordCount;
      var offset := RecordOffset(index);
      if offset + RECORD_SIZE > FILE_TABLE_END {
        return false;
      }
      ghost var before := buffer[..];
      SpliceRecord(before, index, rec, 0);
      Overwrite(offset, RecordBytes(rec));
      header := header.(recordCount := index + 1);
      FlushHeader();
      return true;
    }

    method UpdateFileRecord(index: nat, rec: FileRecord) returns (ok: bool)
      requires Valid() && RecordFits(rec)
      modifies buffer
      ensures Valid() && Roots() == old(Roots()) && (ok <==> index < |Records()|)
      ensures Records() == if ok then old(Records())[index := rec] else old(Records())
    {
      hide Splice, HeaderAt, RecordAt, RootTable, RecordBytes;
      if index >= header.recordCount {
        return false;
      }
      SpliceRecord(buffer[..], index, rec, 0);
      Overwrite(RecordOffset(index), RecordBytes(rec));
      return true;
    }

    lemma RecordsFit()
      requires Valid()
      ensures AllFit(Records())
    {
      forall i | 0 <= i < header.recordCount ensures RecordFits(RecordAt(buffer[..], i)) {
        RecordOfBytes(buffer[..][RecordOffset(i)..RecordOffset(i) + RECORD_SIZE]);
      }
    }

    /** The slot is overwritten, and what is left of it becomes a tombstone at the end. */
    method ReuseSlot(i: nat, rec: FileRecord, requiredLen: nat) returns (ok: bool)
      requires Valid() && RecordFits(rec) && AllFit(Records()) && i < |Records()|
      requires requiredLen == Length(rec) <= Length(Records()[i])
      modifies this`header, buffer
      ensures Valid() && Roots() == old(Roots())
      ensures Insertion(Records(), i, ok) == Reused(old(Records()), rec, i)
    {
      hide Length, PackLengthAndFlags, Valid, Records, Roots;
      CountIs();
      var existing := GetFileRecord(i);
      var tombLen := UnpackLengthAndFlags(existing.lengthAndFlags).0;
      assert tombLen == Length(existing) by { LengthIs(existing); }
      var updated := UpdateFileRecord(i, rec.(startOffset := existing.startOffset));
      var leftover := tombLen - requiredLen;
      if leftover > 0 {
        var newTomb := FileRecord(
          (existing.startOffset + requiredLen) % U64, PackLengthAndFlags(leftover, 0), 0, seq(PATH_SIZE, _ => 0));
        ok := AppendFileRecord(newTomb);
      } else {
        ok := true;
      }
    }

    /** find_free_slot_and_insert */
    method FindFreeSlotAndInsert(rec: FileRecord) returns (ok: bool, slot: nat)
      requires Valid() && RecordFits(rec)
      modifies this`header, buffer
      ensures Valid() && Roots() == old(Roots()) && AllFit(old(Records()))
      ensures Insertion(Records(), if ok then slot else Inserted(old(Records()), rec).slot, ok)
        == Inserted(old(Records()), rec)
    {
      hide FirstFit, Length, Valid, Records, Roots, Reused;
      RecordsFit();
      ghost var before := Records();
      var requiredLen := UnpackLengthAndFlags(rec.lengthAndFlags).0;
      LengthIs(rec);
      var count := header.recordCount;
      CountIs();
      var i := 0;
      while i < count
        invariant 0 <= i <= count == header.recordCount && Valid() && Records() == before && Roots() == old(Roots())
        invariant FirstFit(before, requiredLen, 0) == FirstFit(before, requiredLen, i)
      {
        FirstFitStep(before, requiredLen, i);
        var existing := GetFileRecord(i);
        LengthIs(existing);
        if existing.path[0] == 0 && UnpackLengthAndFlags(existing.lengthAndFlags).0 >= requiredLen {
          ok := ReuseSlot(i, rec, requiredLen);
          return ok, i;
        }
        i := i + 1;
      }
      FirstFitStep(before, requiredLen, count);
      ok := AppendFileRecord(rec);
      CountIs();
      slot := if ok then header.recordCount - 1 else 0;
    }

    lemma CountIs()
      requires Valid()
      ensures |Records()| == header.recordCount
    {
    }

    /** bytes() */
    method Bytes() returns (data: seq<byte>)
      requires Valid()
      modifies buffer
      ensures Valid() && Roots() == old(Roots()) && Records() == old(Records())
      ensures data == buffer[..]
    {
      FlushHeader();
      return buffer[..];
    }
  }

  lemma FirstFitStep(records: seq<FileRecord>, need: nat, i: nat)
    requires AllFit(records) && i <= |records|
    ensures FirstFit(records, need, i) ==
      if i == |records| then i else if Roomy(records[i], need) then i else FirstFit(records, need, i + 1)
  {
  }

  /** What a builder wrote, loaded again, has the same header, roots and records. */
  method Reload(b: Mdu0Builder, userMdus: nat, commitments: nat) returns (c: Mdu0Builder?)
    requires b.Valid()
    modifies b.buffer
    ensures c != null && c.Valid() && c.header == old(b.header)
    ensures c.Roots() == old(b.Roots()) && c.Records() == old(b.Records())
  {
    hide HeaderAt, RootTable, RecordTable;
    var data := b.Bytes();
    c := Mdu0Builder.Load(data, userMdus, commitments);
  }
}
