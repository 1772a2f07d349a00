/** Striping an MDU over k + m slots: blob row*k + slot of the MDU is row `row` of data slot `slot`,
    parity is coded row by row, and every row of every slot is committed to, slot by slot. */
module Stripe {
  import opened Bytes
  import opened Codec
  import opened Division
  import opened StripeIndex
  import opened ErasureCode

  datatype CodingError = Rs | InvalidRsParams | InvalidSize

  datatype Outcome<T> = Done(value: T) | Failed(error: CodingError)

  predicate ValidParams(k: nat, m: nat) {
    k > 0 && m > 0 && BLOBS_PER_MDU % k == 0
  }

  function Rows(k: nat): (rows: nat)
    requires k > 0
  {
    NonNegative(BLOBS_PER_MDU, k, 0);
    BLOBS_PER_MDU / k
  }

  lemma RowsTimes(k: nat)
    requires k > 0 && BLOBS_PER_MDU % k == 0
    ensures k * Rows(k) == BLOBS_PER_MDU && Rows(k) > 0
  {
    assert BLOBS_PER_MDU == BLOBS_PER_MDU / k * k + BLOBS_PER_MDU % k;
  }

  lemma BlobInMdu(k: nat, row: nat, slot: nat)
    requires k > 0 && BLOBS_PER_MDU % k == 0 && row < Rows(k) && slot < k
    ensures row * k + slot < BLOBS_PER_MDU
    ensures (row * k + slot) / k == row && (row * k + slot) % k == slot
  {
    RowsTimes(k);
    Apart(row, Rows(k), k);
    DivUnique(row * k + slot, k, row, slot);
  }

  // ----- what expansion produces -----

  /** The data bytes at offset o of the blobs of a row. */
  function DataColumn(mdu: seq<byte>, k: nat, row: nat, o: nat): (d: seq<byte>)
    requires |mdu| == MDU_SIZE && k > 0 && BLOBS_PER_MDU % k == 0 && row < Rows(k) && o < BLOB_SIZE
    ensures |d| == k
  {
    seq(k, slot requires 0 <= slot < k => MduByte(mdu, k, row, slot, o))
  }

  function MduByte(mdu: seq<byte>, k: nat, row: nat, slot: nat, o: nat): byte
    requires |mdu| == MDU_SIZE && k > 0 && BLOBS_PER_MDU % k == 0 && row < Rows(k) && slot < k && o < BLOB_SIZE
  {
    BlobInMdu(k, row, slot);
    mdu[(row * k + slot) * BLOB_SIZE + o]
  }

  function ShardByte(mdu: seq<byte>, c: Code, slot: nat, row: nat, o: nat): byte
    requires |mdu| == MDU_SIZE && ValidParams(c.k, c.m) && Lawful(c)
    requires slot < c.k + c.m && row < Rows(c.k) && o < BLOB_SIZE
  {
    var d := DataColumn(mdu, c.k, row, o);
    CodewordLength(c, d);
    Codeword(c, d)[slot]
  }

  lemma CodewordLength(c: Code, d: seq<byte>)
    requires Lawful(c) && |d| == c.k
    ensures |Codeword(c, d)| == c.k + c.m
  {
    assert Recovers(c, d, []);
  }

  /** Row `row` of a slot: one blob. */
  function ShardBlob(mdu: seq<byte>, c: Code, slot: nat, row: nat): (b: seq<byte>)
    requires |mdu| == MDU_SIZE && ValidParams(c.k, c.m) && Lawful(c) && slot < c.k + c.m && row < Rows(c.k)
    ensures |b| == BLOB_SIZE
  {
    seq(BLOB_SIZE, o requires 0 <= o < BLOB_SIZE => ShardByte(mdu, c, slot, row, o))
  }

  /** The whole shard of a slot. */
  function Shard(mdu: seq<byte>, c: Code, slot: nat): (s: seq<byte>)
    requires |mdu| == MDU_SIZE && ValidParams(c.k, c.m) && Lawful(c) && slot < c.k + c.m
    ensures |s| == Rows(c.k) * BLOB_SIZE
  {
    seq(Rows(c.k) * BLOB_SIZE, j requires 0 <= j < Rows(c.k) * BLOB_SIZE =>
      ShardByte(mdu, c, slot, j / BLOB_SIZE, j % BLOB_SIZE))
  }

  /** The commitment of leaf i: leaves run through the rows of slot 0, then of slot 1, ... */
  function WitnessEntry(mdu: seq<byte>, c: Code, commit: seq<byte> -> seq<byte>, i: nat): seq<byte>
    requires |mdu| == MDU_SIZE && ValidParams(c.k, c.m) && Lawful(c) && i < (c.k + c.m) * Rows(c.k)
  {
    LeafCell(c.k, c.m, i);
    commit(ShardBlob(mdu, c, i / Rows(c.k), i % Rows(c.k)))
  }

  lemma LeafCell(k: nat, m: nat, i: nat)
    requires ValidParams(k, m) && i < (k + m) * Rows(k)
    ensures Rows(k) > 0 && 0 <= i / Rows(k) < k + m && 0 <= i % Rows(k) < Rows(k)
  {
    RowsTimes(k);
    RowInRange(i, Rows(k), k + m);
    NonNegative(i, Rows(k), 0);
    assert (k + m) * Rows(k) == Rows(k) * (k + m);
  }

  function Shards(mdu: seq<byte>, c: Code): (s: seq<seq<byte>>)
    requires |mdu| == MDU_SIZE && ValidParams(c.k, c.m) && Lawful(c)
    ensures |s| == c.k + c.m
  {
    seq(c.k + c.m, slot requires 0 <= slot < c.k + c.m => Shard(mdu, c, slot))
  }

  function Witness(mdu: seq<byte>, c: Code, commit: seq<byte> -> seq<byte>): (w: seq<seq<byte>>)
    requires |mdu| == MDU_SIZE && ValidParams(c.k, c.m) && Lawful(c)
    ensures |w| == (c.k + c.m) * Rows(c.k)
  {
    seq((c.k + c.m) * Rows(c.k), i requires 0 <= i < (c.k + c.m) * Rows(c.k) => WitnessEntry(mdu, c, commit, i))
  }

  /** A data slot's row is a blob of the MDU. */
  lemma DataBlob(mdu: seq<byte>, c: Code, slot: nat, row: nat)
    requires |mdu| == MDU_SIZE && ValidParams(c.k, c.m) && Lawful(c) && slot < c.k && row < Rows(c.k)
    ensures row * c.k + slot < BLOBS_PER_MDU
    ensures ShardBlob(mdu, c, slot, row)
      == mdu[(row * c.k + slot) * BLOB_SIZE..(row * c.k + slot + 1) * BLOB_SIZE]
  {
    hide Lawful, Codeword, Rows;
    BlobInMdu(c.k, row, slot);
    forall o | 0 <= o < BLOB_SIZE ensures ShardByte(mdu, c, slot, row, o) == MduByte(mdu, c.k, row, slot, o) {
      DataSlotByte(mdu, c, slot, row, o);
    }
  }

  /** A row of a shard, cut out of the whole shard. */
  lemma ShardRow(mdu: seq<byte>, c: Code, slot: nat, row: nat)
    requires |mdu| == MDU_SIZE && ValidParams(c.k, c.m) && Lawful(c) && slot < c.k + c.m && row < Rows(c.k)
    ensures (row + 1) * BLOB_SIZE <= |Shard(mdu, c, slot)|
    ensures Shard(mdu, c, slot)[row * BLOB_SIZE..(row + 1) * BLOB_SIZE] == ShardBlob(mdu, c, slot, row)
  {
    hide Lawful, Codeword, Rows, ShardByte;
    var part := Shard(mdu, c, slot)[row * BLOB_SIZE..(row + 1) * BLOB_SIZE];
    forall o | 0 <= o < BLOB_SIZE ensures part[o] == ShardByte(mdu, c, slot, row, o) {
      assert (row * BLOB_SIZE + o) / BLOB_SIZE == row && (row * BLOB_SIZE + o) % BLOB_SIZE == o;
    }
  }

  /** The leaf of blob b of an MDU is the commitment of that blob, and its slot's shard holds it. */
  lemma LeafHoldsBlob(mdu: seq<byte>, c: Code, commit: seq<byte> -> seq<byte>, s: StripeParams, b: nat)
    requires |mdu| == MDU_SIZE && ValidParams(c.k, c.m) && Lawful(c) && b < BLOBS_PER_MDU
    requires ValidStripe(s) && s.mode == 2 && s.k == c.k && s.m == c.m && s.rows == Rows(c.k)
    ensures var leaf, blob := LeafIndexForBlobIndex(b, s), mdu[b * BLOB_SIZE..(b + 1) * BLOB_SIZE];
      leaf < |Witness(mdu, c, commit)| && Witness(mdu, c, commit)[leaf] == commit(blob)
    ensures var slot, row := SlotForLeafIndex(LeafIndexForBlobIndex(b, s), s), b / c.k;
      slot < c.k && row < Rows(c.k) && (row + 1) * BLOB_SIZE <= |Shard(mdu, c, slot)| &&
      Shard(mdu, c, slot)[row * BLOB_SIZE..(row + 1) * BLOB_SIZE] == mdu[b * BLOB_SIZE..(b + 1) * BLOB_SIZE]
  {
    hide Lawful, Codeword, Rows, ShardBlob, Shard, Witness, LeafIndexForBlobIndex, SlotForLeafIndex;
    LeafOfBlob(b, s);
    BlobCell(b, s);
    var slot, row := b % c.k, b / c.k;
    DataBlob(mdu, c, slot, row);
    ShardRow(mdu, c, slot, row);
    LeafEntry(mdu, c, commit, slot, row);
  }

  lemma BlobCell(b: nat, s: StripeParams)
    requires ValidStripe(s) && s.mode == 2 && b < BLOBS_PER_MDU
    ensures LeafIndexForBlobIndex(b, s) == b % s.k * s.rows + b / s.k && b == b / s.k * s.k + b % s.k
  {
  }

  lemma LeafEntry(mdu: seq<byte>, c: Code, commit: seq<byte> -> seq<byte>, slot: nat, row: nat)
    requires |mdu| == MDU_SIZE && ValidParams(c.k, c.m) && Lawful(c) && slot < c.k && row < Rows(c.k)
    ensures 0 <= slot * Rows(c.k) + row < |Witness(mdu, c, commit)|
    ensures Witness(mdu, c, commit)[slot * Rows(c.k) + row] == commit(ShardBlob(mdu, c, slot, row))
  {
    hide Lawful, Rows, ShardBlob;
    var rows := Rows(c.k);
    LeafOfCell(slot, row, c.k, rows);
    DivUnique(slot * rows + row, rows, slot, row);
    MoreSlots(c.k, c.m, rows);
    NonNegative(slot, c.k, rows);
    assert slot * rows >= 0;
  }

  lemma MoreSlots(k: nat, m: nat, rows: nat)
    ensures k * rows <= (k + m) * rows
  {
    assert (k + m) * rows == k * rows + m * rows;
  }

  lemma DataSlotByte(mdu: seq<byte>, c: Code, slot: nat, row: nat, o: nat)
    requires |mdu| == MDU_SIZE && ValidParams(c.k, c.m) && Lawful(c) && slot < c.k && row < Rows(c.k) && o < BLOB_SIZE
    ensures ShardByte(mdu, c, slot, row, o) == MduByte(mdu, c.k, row, slot, o)
  {
  }
}
