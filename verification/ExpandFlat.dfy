/** The fast path: a payload is encoded, coded and committed to row by row, straight into two flat
    buffers, without building the MDU. The buffers end up with the concatenated shards and leaves of
    the MDU that the slow path would have built. */
module ExpandFlat {
  import opened Bytes
  import opened Codec
  import opened Division
  import opened StripeIndex
  import opened ErasureCode
  import opened Stripe
  import opened Expand

  // ----- flat positions -----

  /** Offset o of row `row` of a slot, in a buffer of shards of `rows` blobs. */
  function At(slot: nat, row: nat, rows: nat): int {
    (slot * rows + row) * BLOB_SIZE
  }

  /** The expected byte at a flat position. */
  function FlatByte(mdu: seq<byte>, c: Code, x: nat): byte
    requires |mdu| == MDU_SIZE && ValidParams(c.k, c.m) && Lawful(c) && x < (c.k + c.m) * Rows(c.k) * BLOB_SIZE
  {
    var i := x / BLOB_SIZE;
    LeafCell(c.k, c.m, i);
    ShardByte(mdu, c, i / Rows(c.k), i % Rows(c.k), x % BLOB_SIZE)
  }

  function FlatShards(mdu: seq<byte>, c: Code): (s: seq<byte>)
    requires |mdu| == MDU_SIZE && ValidParams(c.k, c.m) && Lawful(c)
  {
    FlatSize(c.k, c.m);
    seq((c.k + c.m) * Rows(c.k) * BLOB_SIZE,
        x requires 0 <= x < (c.k + c.m) * Rows(c.k) * BLOB_SIZE => FlatByte(mdu, c, x))
  }

  lemma FlatSize(k: nat, m: nat)
    requires k > 0
    ensures (k + m) * Rows(k) >= 0 && (k + m) * Rows(k) * BLOB_SIZE >= 0
  {
  }

  function Concat(parts: seq<seq<byte>>): seq<byte> {
    if parts == [] then [] else Concat(parts[..|parts| - 1]) + parts[|parts| - 1]
  }

  /** Concatenating parts of one length. */
  lemma {:induction false} ConcatAt(parts: seq<seq<byte>>, len: nat, x: nat)
    requires len > 0 && forall i :: 0 <= i < |parts| ==> |parts[i]| == len
    requires x < |parts| * len
    ensures |Concat(parts)| == |parts| * len && x / len < |parts| && Concat(parts)[x] == parts[x / len][x % len]
  {
    var n := |parts| - 1;
    ConcatLength(parts, len);
    ConcatLength(parts[..n], len);
    assert |parts| * len == n * len + len;
    if x < n * len {
      ConcatAt(parts[..n], len, x);
    } else {
      DivUnique(x, len, n, x - n * len);
    }
  }

  lemma {:induction false} ConcatLength(parts: seq<seq<byte>>, len: nat)
    requires forall i :: 0 <= i < |parts| ==> |parts[i]| == len
    ensures |Concat(parts)| == |parts| * len
  {
    if parts != [] {
      ConcatLength(parts[..|parts| - 1], len);
      assert |parts| * len == (|parts| - 1) * len + len;
    }
  }

  /** The flat bytes are the shards one after the other. */
  lemma FlatShardsConcat(mdu: seq<byte>, c: Code)
    requires |mdu| == MDU_SIZE && ValidParams(c.k, c.m) && Lawful(c)
    ensures FlatShards(mdu, c) == Concat(Shards(mdu, c))
  {
    hide Lawful, Rows, ShardByte, Concat;
    RowsTimes(c.k);
    var rows := Rows(c.k);
    var len := rows * BLOB_SIZE;
    var flat, parts := FlatShards(mdu, c), Shards(mdu, c);
    ConcatLength(parts, len);
    assert (c.k + c.m) * rows * BLOB_SIZE == (c.k + c.m) * len by { Assoc3(c.k + c.m, rows); }
    forall x | 0 <= x < |flat| ensures flat[x] == Concat(parts)[x] {
      ConcatAt(parts, len, x);
      FlatCell(x, rows);
      var j := x % len;
      assert parts[x / len] == Shard(mdu, c, x / len);
    }
  }

  lemma Assoc3(a: int, b: int)
    ensures a * b * BLOB_SIZE == a * (b * BLOB_SIZE)
  {
  }

  /** Splitting a flat position by shard and then by row, or by leaf and then by row, is the same. */
  lemma FlatCell(x: nat, rows: nat)
    requires rows > 0
    ensures rows * BLOB_SIZE > 0
    ensures x / (rows * BLOB_SIZE) == x / BLOB_SIZE / rows
    ensures x % (rows * BLOB_SIZE) / BLOB_SIZE == x / BLOB_SIZE % rows
    ensures x % (rows * BLOB_SIZE) % BLOB_SIZE == x % BLOB_SIZE
  {
    var i, o := x / BLOB_SIZE, x % BLOB_SIZE;
    var slot, row := i / rows, i % rows;
    NonNegative(i, rows, 0);
    assert i == slot * rows + row;
    Assoc3(slot, rows);
    assert (slot * rows + row) * BLOB_SIZE == slot * rows * BLOB_SIZE + row * BLOB_SIZE;
    DivUnique(x, rows * BLOB_SIZE, slot, row * BLOB_SIZE + o);
  }

  // ----- filling one row -----

  function RowOf(x: nat, rows: nat): nat
    requires rows > 0
  {
    NonNegative(x / BLOB_SIZE, rows, 0);
    x / BLOB_SIZE % rows
  }

  function SlotOf(x: nat, rows: nat): nat
    requires rows > 0
  {
    NonNegative(x / BLOB_SIZE, rows, 0);
    x / BLOB_SIZE / rows
  }

  lemma AtInBuffer(slot: nat, row: nat, rows: nat, total: nat)
    requires slot < total && row < rows
    ensures 0 <= At(slot, row, rows) && At(slot, row, rows) + BLOB_SIZE <= total * rows * BLOB_SIZE
  {
    Apart(slot, total, rows);
    assert slot * rows + row + 1 <= total * rows;
  }

  /** A position lies in the piece of a slot and row exactly when those are its slot and row. */
  lemma InPiece(x: nat, slot: nat, row: nat, rows: nat)
    requires row < rows
    ensures At(slot, row, rows) <= x < At(slot, row, rows) + BLOB_SIZE <==>
      SlotOf(x, rows) == slot && RowOf(x, rows) == row
    ensures SlotOf(x, rows) == slot && RowOf(x, rows) == row ==> x - At(slot, row, rows) == x % BLOB_SIZE
  {
    var i := x / BLOB_SIZE;
    NonNegative(i, rows, 0);
    if SlotOf(x, rows) == slot && RowOf(x, rows) == row {
      assert i == slot * rows + row;
    }
    if At(slot, row, rows) <= x < At(slot, row, rows) + BLOB_SIZE {
      DivUnique(x, BLOB_SIZE, slot * rows + row, x - At(slot, row, rows));
      DivUnique(i, rows, slot, row);
    }
  }

  /** The k data pieces of a row; nothing else changes. */
  method FillData(payload: seq<byte>, k: nat, m: nat, row: nat, rows: nat, out: array<byte>)
    requires row < rows && out.Length == (k + m) * rows * BLOB_SIZE
    modifies out
    ensures forall x | 0 <= x < out.Length ::
      out[x] == if RowOf(x, rows) == row && SlotOf(x, rows) < k then PieceByte(payload, k, row, rows, x)
                else old(out[x])
  {
    hide RowOf, SlotOf, PieceByte, At;
    ghost var before := out[..];
    for slot := 0 to k
      invariant forall x | 0 <= x < out.Length ::
        out[x] == if RowOf(x, rows) == row && SlotOf(x, rows) < slot then PieceByte(payload, k, row, rows, x)
                  else before[x]
    {
      AtInBuffer(slot, row, rows, k + m);
      ghost var mid := out[..];
      EncodePayloadIntoBlob(payload, row * k + slot, out, At(slot, row, rows));
      forall x | 0 <= x < out.Length
        ensures out[x] ==
          if RowOf(x, rows) == row && SlotOf(x, rows) < slot + 1 then PieceByte(payload, k, row, rows, x) else before[x]
      {
        InPiece(x, slot, row, rows);
        if At(slot, row, rows) <= x < At(slot, row, rows) + BLOB_SIZE {
          PieceByteAt(payload, k, slot, row, rows, x);
        }
      }
    }
  }

  /** The data byte at flat position x of a row. */
  function PieceByte(payload: seq<byte>, k: nat, row: nat, rows: nat, x: nat): byte
    requires rows > 0
  {
    NonNegative(x / BLOB_SIZE, rows, 0);
    BlobByte(payload, row * k + SlotOf(x, rows), x % BLOB_SIZE)
  }

  lemma PieceByteAt(payload: seq<byte>, k: nat, slot: nat, row: nat, rows: nat, x: nat)
    requires rows > 0 && SlotOf(x, rows) == slot
    ensures PieceByte(payload, k, row, rows, x) == BlobByte(payload, row * k + slot, x % BLOB_SIZE)
  {
  }

  /** The parity bytes of one column. */
  method FillParityColumn(parity: seq<byte>, k: nat, m: nat, row: nat, rows: nat, o: nat, out: array<byte>)
    requires row < rows && o < BLOB_SIZE && |parity| == m && out.Length == (k + m) * rows * BLOB_SIZE
    modifies out
    ensures forall x | 0 <= x < out.Length ::
      if RowOf(x, rows) == row && x % BLOB_SIZE == o && SlotOf(x, rows) >= k
      then SlotOf(x, rows) < k + m && out[x] == parity[SlotOf(x, rows) - k]
      else out[x] == old(out[x])
  {
    hide RowOf, SlotOf, At;
    var slot := k;
    while slot < k + m
      invariant k <= slot <= k + m
      invariant forall x | 0 <= x < out.Length ::
        if RowOf(x, rows) == row && x % BLOB_SIZE == o && k <= SlotOf(x, rows) < slot
        then out[x] == parity[SlotOf(x, rows) - k]
        else out[x] == old(out[x])
    {
      AtInBuffer(slot, row, rows, k + m);
      var at := At(slot, row, rows) + o;
      InPiece(at, slot, row, rows);
      out[at] := parity[slot - k];
      forall x | 0 <= x < out.Length && x != at && RowOf(x, rows) == row && SlotOf(x, rows) == slot
        ensures x % BLOB_SIZE != o
      {
        InPiece(x, slot, row, rows);
      }
      slot := slot + 1;
    }
    forall x | 0 <= x < out.Length ensures SlotOf(x, rows) < k + m {
      SlotInRange(x, rows, k + m);
    }
  }

  lemma SlotInRange(x: nat, rows: nat, total: nat)
    requires rows > 0 && x < total * rows * BLOB_SIZE
    ensures 0 <= SlotOf(x, rows) < total && 0 <= RowOf(x, rows) < rows
  {
    var i := x / BLOB_SIZE;
    assert i < total * rows;
    NonNegative(i, rows, 0);
    assert rows * total == total * rows;
    RowInRange(i, rows, total);
  }

  /** The rest of a row: parity for every column, from the data pieces of that row. */
  method FillParity(c: Code, payload: seq<byte>, row: nat, rows: nat, out: array<byte>)
    requires Lawful(c) && ValidParams(c.k, c.m) && rows == Rows(c.k) && row < rows
    requires out.Length == (c.k + c.m) * rows * BLOB_SIZE && |payload| <= MDU_PAYLOAD_BYTES
    requires forall x | 0 <= x < out.Length ::
      RowOf(x, rows) == row && SlotOf(x, rows) < c.k ==> out[x] == PieceByte(payload, c.k, row, rows, x)
    modifies out
    ensures forall x | 0 <= x < out.Length ::
      out[x] == if RowOf(x, rows) == row then FlatByte(Encoded(payload), c, x) else old(out[x])
  {
    hide RowOf, SlotOf, At, Lawful, Rows, PieceByte, FlatByte, Codeword, BlobByte, DataColumn;
    ghost var before := out[..];
    ghost var mdu := Encoded(payload);
    for o := 0 to BLOB_SIZE
      invariant forall x | 0 <= x < out.Length ::
        out[x] == if RowOf(x, rows) == row && SlotOf(x, rows) >= c.k && x % BLOB_SIZE < o
                  then FlatByte(mdu, c, x) else before[x]
    {
      ghost var d := DataColumn(mdu, c.k, row, o);
      var column: seq<byte> := ReadColumn(out, c.k, c.m, row, rows, o);
      forall slot | 0 <= slot < c.k ensures column[slot] == d[slot] {
        AtInBuffer(slot, row, rows, c.k + c.m);
        var x := At(slot, row, rows) + o;
        InPiece(x, slot, row, rows);
        assert x % BLOB_SIZE == o;
        PieceByteAt(payload, c.k, slot, row, rows, x);
        ColumnByte(payload, c.k, row, slot, o);
      }
      assert column == d;
      CodewordLength(c, d);
      CodewordSplit(c, d);
      FillParityColumn(c.parity(column), c.k, c.m, row, rows, o, out);
      forall x | 0 <= x < out.Length && RowOf(x, rows) == row && SlotOf(x, rows) >= c.k && x % BLOB_SIZE == o
        ensures out[x] == FlatByte(mdu, c, x)
      {
        FlatParityByte(mdu, c, x);
      }
    }
    forall x | 0 <= x < out.Length && RowOf(x, rows) == row && SlotOf(x, rows) < c.k
      ensures out[x] == FlatByte(mdu, c, x)
    {
      FlatDataByte(payload, c, x);
    }
  }

  lemma CodewordSplit(c: Code, d: seq<byte>)
    requires Lawful(c) && |d| == c.k
    ensures |c.parity(d)| == c.m
    ensures forall i :: 0 <= i < c.m ==> c.parity(d)[i] == Codeword(c, d)[c.k + i]
  {
    CodewordLength(c, d);
  }

  method ReadColumn(out: array<byte>, k: nat, m: nat, row: nat, rows: nat, o: nat) returns (column: seq<byte>)
    requires row < rows && o < BLOB_SIZE && out.Length == (k + m) * rows * BLOB_SIZE
    ensures |column| == k
    ensures forall slot :: 0 <= slot < k ==>
      0 <= At(slot, row, rows) + o < out.Length && column[slot] == out[At(slot, row, rows) + o]
  {
    hide At;
    column := [];
    for slot := 0 to k
      invariant |column| == slot
      invariant forall s :: 0 <= s < slot ==>
        0 <= At(s, row, rows) + o < out.Length && column[s] == out[At(s, row, rows) + o]
    {
      AtInBuffer(slot, row, rows, k + m);
      column := column + [out[At(slot, row, rows) + o]];
    }
  }

  /** A column of the encoded payload, byte by byte. */
  lemma ColumnByte(payload: seq<byte>, k: nat, row: nat, slot: nat, o: nat)
    requires |payload| <= MDU_PAYLOAD_BYTES && k > 0 && BLOBS_PER_MDU % k == 0
    requires row < Rows(k) && slot < k && o < BLOB_SIZE
    ensures DataColumn(Encoded(payload), k, row, o)[slot] == BlobByte(payload, row * k + slot, o)
  {
    hide Rows, EncodedByte;
    BlobInMdu(k, row, slot);
  }

  lemma FlatParityByte(mdu: seq<byte>, c: Code, x: nat)
    requires |mdu| == MDU_SIZE && ValidParams(c.k, c.m) && Lawful(c) && x < (c.k + c.m) * Rows(c.k) * BLOB_SIZE
    ensures Rows(c.k) > 0 && RowOf(x, Rows(c.k)) < Rows(c.k)
    ensures var slot, d := SlotOf(x, Rows(c.k)), DataColumn(mdu, c.k, RowOf(x, Rows(c.k)), x % BLOB_SIZE);
      slot < |Codeword(c, d)| && FlatByte(mdu, c, x) == Codeword(c, d)[slot]
  {
    hide Lawful, Codeword, Rows, DataColumn;
    var i := x / BLOB_SIZE;
    assert i < (c.k + c.m) * Rows(c.k);
    LeafCell(c.k, c.m, i);
    var d := DataColumn(mdu, c.k, RowOf(x, Rows(c.k)), x % BLOB_SIZE);
    CodewordLength(c, d);
  }

  lemma FlatDataByte(payload: seq<byte>, c: Code, x: nat)
    requires |payload| <= MDU_PAYLOAD_BYTES && ValidParams(c.k, c.m) && Lawful(c)
    requires x < (c.k + c.m) * Rows(c.k) * BLOB_SIZE && Rows(c.k) > 0 && SlotOf(x, Rows(c.k)) < c.k
    ensures FlatByte(Encoded(payload), c, x) == PieceByte(payload, c.k, RowOf(x, Rows(c.k)), Rows(c.k), x)
  {
    hide Lawful, Rows, BlobByte, DataColumn;
    FlatParityByte(Encoded(payload), c, x);
    ColumnByte(payload, c.k, RowOf(x, Rows(c.k)), SlotOf(x, Rows(c.k)), x % BLOB_SIZE);
  }

  // ----- leaves -----

  function FlatWitnessByte(mdu: seq<byte>, c: Code, commit: seq<byte> -> seq<byte>, y: nat): byte
    requires |mdu| == MDU_SIZE && ValidParams(c.k, c.m) && Lawful(c) && CommitmentSize(commit)
    requires y < (c.k + c.m) * Rows(c.k) * 48
  {
    LeafCell(c.k, c.m, y / 48);
    var e := WitnessEntry(mdu, c, commit, y / 48);
    assert |e| == 48;
    e[y % 48]
  }

  /** Committing to row `row` of every slot, each into its own 48 bytes. */
  method FillLeaves(c: Code, commit: seq<byte> -> seq<byte>, ghost mdu: seq<byte>, row: nat, rows: nat,
                    shards: array<byte>, leaves: array<byte>)
    requires |mdu| == MDU_SIZE && Lawful(c) && ValidParams(c.k, c.m) && rows == Rows(c.k) && row < rows
    requires CommitmentSize(commit) && shards != leaves
    requires shards.Length == (c.k + c.m) * rows * BLOB_SIZE && leaves.Length == (c.k + c.m) * rows * 48
    requires forall x | 0 <= x < shards.Length :: RowOf(x, rows) == row ==> shards[x] == FlatByte(mdu, c, x)
    modifies leaves
    ensures forall y | 0 <= y < leaves.Length ::
      leaves[y] == if LeafRow(y, rows) == row then FlatWitnessByte(mdu, c, commit, y) else old(leaves[y])
  {
    hide RowOf, SlotOf, At, Lawful, Rows, FlatByte, Codeword, WitnessEntry, FlatWitnessByte, ShardBlob;
    for slot := 0 to c.k + c.m
      invariant forall y | 0 <= y < leaves.Length ::
        leaves[y] == if LeafRow(y, rows) == row && LeafSlot(y, rows) < slot
                     then FlatWitnessByte(mdu, c, commit, y) else old(leaves[y])
    {
      AtInBuffer(slot, row, rows, c.k + c.m);
      var at := At(slot, row, rows);
      var blob := shards[at..at + BLOB_SIZE];
      PieceIsBlob(shards[..], mdu, c, slot, row);
      assert blob == shards[..][at..at + BLOB_SIZE];
      var commitment := commit(blob);
      LeafInBuffer(slot, row, rows, c.k + c.m);
      var woff := (slot * rows + row) * 48;
      forall b | 0 <= b < 48 {
        leaves[woff + b] := commitment[b];
      }
      forall y | 0 <= y < leaves.Length
        ensures woff <= y < woff + 48 <==> LeafRow(y, rows) == row && LeafSlot(y, rows) == slot
        ensures woff <= y < woff + 48 ==> FlatWitnessByte(mdu, c, commit, y) == commitment[y - woff]
      {
        InLeaf(y, slot, row, rows);
        if woff <= y < woff + 48 {
          LeafByte(mdu, c, commit, slot, row, y);
        }
      }
    }
    forall y | 0 <= y < leaves.Length ensures LeafSlot(y, rows) < c.k + c.m {
      LeafSlotInRange(y, rows, c.k + c.m);
    }
  }

  function LeafRow(y: nat, rows: nat): nat
    requires rows > 0
  {
    NonNegative(y / 48, rows, 0);
    y / 48 % rows
  }

  function LeafSlot(y: nat, rows: nat): nat
    requires rows > 0
  {
    NonNegative(y / 48, rows, 0);
    y / 48 / rows
  }

  lemma LeafInBuffer(slot: nat, row: nat, rows: nat, total: nat)
    requires slot < total && row < rows
    ensures 0 <= (slot * rows + row) * 48 && (slot * rows + row) * 48 + 48 <= total * rows * 48
  {
    Apart(slot, total, rows);
    assert slot * rows + row + 1 <= total * rows;
  }

  lemma InLeaf(y: nat, slot: nat, row: nat, rows: nat)
    requires row < rows
    ensures var woff := (slot * rows + row) * 48;
      woff <= y < woff + 48 <==> LeafRow(y, rows) == row && LeafSlot(y, rows) == slot
  {
    var i, woff := y / 48, (slot * rows + row) * 48;
    if LeafRow(y, rows) == row && LeafSlot(y, rows) == slot {
      assert i == slot * rows + row;
    }
    if woff <= y < woff + 48 {
      DivUnique(y, 48, slot * rows + row, y - woff);
      DivUnique(i, rows, slot, row);
    }
  }

  lemma LeafSlotInRange(y: nat, rows: nat, total: nat)
    requires rows > 0 && y < total * rows * 48
    ensures LeafSlot(y, rows) < total && LeafRow(y, rows) < rows
  {
    var i := y / 48;
    assert i < total * rows;
    assert rows * total == total * rows;
    RowInRange(i, rows, total);
  }

  lemma LeafByte(mdu: seq<byte>, c: Code, commit: seq<byte> -> seq<byte>, slot: nat, row: nat, y: nat)
    requires |mdu| == MDU_SIZE && ValidParams(c.k, c.m) && Lawful(c) && CommitmentSize(commit)
    requires slot < c.k + c.m && row < Rows(c.k) && y < (c.k + c.m) * Rows(c.k) * 48
    requires (slot * Rows(c.k) + row) * 48 <= y < (slot * Rows(c.k) + row) * 48 + 48
    ensures |commit(ShardBlob(mdu, c, slot, row))| == 48
    ensures FlatWitnessByte(mdu, c, commit, y)
      == commit(ShardBlob(mdu, c, slot, row))[y - (slot * Rows(c.k) + row) * 48]
  {
    hide Lawful, Rows, ShardBlob;
    var i := slot * Rows(c.k) + row;
    DivUnique(y, 48, i, y - i * 48);
    DivUnique(i, Rows(c.k), slot, row);
  }

  /** The piece of a slot and row is that row of the shard. */
  lemma PieceIsBlob(shards: seq<byte>, mdu: seq<byte>, c: Code, slot: nat, row: nat)
    requires |mdu| == MDU_SIZE && ValidParams(c.k, c.m) && Lawful(c) && slot < c.k + c.m && row < Rows(c.k)
    requires |shards| == (c.k + c.m) * Rows(c.k) * BLOB_SIZE
    requires forall x | 0 <= x < |shards| :: RowOf(x, Rows(c.k)) == row ==> shards[x] == FlatByte(mdu, c, x)
    ensures var at := At(slot, row, Rows(c.k));
      0 <= at && at + BLOB_SIZE <= |shards| && shards[at..at + BLOB_SIZE] == ShardBlob(mdu, c, slot, row)
  {
    hide Lawful, Rows, At, RowOf, SlotOf, ShardByte;
    AtInBuffer(slot, row, Rows(c.k), c.k + c.m);
    var at := At(slot, row, Rows(c.k));
    forall o | 0 <= o < BLOB_SIZE ensures shards[at + o] == ShardByte(mdu, c, slot, row, o) {
      InPiece(at + o, slot, row, Rows(c.k));
      FlatByteAt(mdu, c, slot, row, at + o);
    }
  }

  lemma FlatByteAt(mdu: seq<byte>, c: Code, slot: nat, row: nat, x: nat)
    requires |mdu| == MDU_SIZE && ValidParams(c.k, c.m) && Lawful(c) && slot < c.k + c.m && row < Rows(c.k)
    requires x < (c.k + c.m) * Rows(c.k) * BLOB_SIZE && SlotOf(x, Rows(c.k)) == slot && RowOf(x, Rows(c.k)) == row
    ensures FlatByte(mdu, c, x) == ShardByte(mdu, c, slot, row, x % BLOB_SIZE)
  {
    hide Lawful, Rows, ShardByte;
  }

  /** The flat leaves are the commitments one after the other. */
  lemma FlatWitnessConcat(mdu: seq<byte>, c: Code, commit: seq<byte> -> seq<byte>, leaves: seq<byte>)
    requires |mdu| == MDU_SIZE && ValidParams(c.k, c.m) && Lawful(c) && CommitmentSize(commit)
    requires |leaves| == (c.k + c.m) * Rows(c.k) * 48
    requires forall y :: 0 <= y < |leaves| ==> leaves[y] == FlatWitnessByte(mdu, c, commit, y)
    ensures leaves == Concat(Witness(mdu, c, commit))
  {
    hide Lawful, Rows, ShardBlob, Concat;
    var parts := Witness(mdu, c, commit);
    ConcatLength(parts, 48);
    forall y | 0 <= y < |leaves| ensures leaves[y] == Concat(parts)[y] {
      ConcatAt(parts, 48, y);
    }
  }

  /** expand_payload_flat. Payload bytes beyond one MDU are ignored. */
  method ExpandPayloadFlat(payloadBytes: seq<byte>, k: nat, m: nat, c: Code, commit: seq<byte> -> seq<byte>,
                           outWitness: array<byte>, outShards: array<byte>) returns (r: Outcome<()>)
    requires ValidParams(k, m) ==> Lawful(c) && c.k == k && c.m == m
    requires CommitmentSize(commit) && outWitness != outShards
    modifies outWitness, outShards
    ensures r == if !ValidParams(k, m) then Failed(InvalidRsParams)
                 else if outWitness.Length != (k + m) * Rows(k) * 48 ||
                         outShards.Length != (k + m) * Rows(k) * BLOB_SIZE
                 then Failed(InvalidSize)
                 else Done(())
    ensures r.Failed? ==> outWitness[..] == old(outWitness[..]) && outShards[..] == old(outShards[..])
    ensures r.Done? ==>
      var mdu := Encoded(Truncated(payloadBytes));
      outShards[..] == Concat(Shards(mdu, c)) && outWitness[..] == Concat(Witness(mdu, c, commit))
  {
    hide Lawful, FlatByte, Codeword, WitnessEntry, FlatWitnessByte, ShardBlob, RowOf, SlotOf, LeafRow, LeafSlot,
         PieceByte, Concat, EncodedByte, Shard;
    if k == 0 || m == 0 {
      return Failed(InvalidRsParams);
    }
    if BLOBS_PER_MDU % k != 0 {
      return Failed(InvalidRsParams);
    }
    var payload := Truncated(payloadBytes);
    var rows := Rows(k);
    if outWitness.Length != (k + m) * rows * 48 || outShards.Length != (k + m) * rows * BLOB_SIZE {
      return Failed(InvalidSize);
    }
    ghost var mdu := Encoded(payload);
    RowsTimes(k);
    for row := 0 to rows
      invariant forall x | 0 <= x < outShards.Length :: RowOf(x, rows) < row ==> outShards[x] == FlatByte(mdu, c, x)
      invariant forall y | 0 <= y < outWitness.Length ::
        LeafRow(y, rows) < row ==> outWitness[y] == FlatWitnessByte(mdu, c, commit, y)
    {
      FillData(payload, k, m, row, rows, outShards);
      FillParity(c, payload, row, rows, outShards);
      FillLeaves(c, commit, mdu, row, rows, outShards, outWitness);
    }
    forall x | 0 <= x < outShards.Length ensures RowOf(x, rows) < rows {
      SlotInRange(x, rows, k + m);
    }
    forall y | 0 <= y < outWitness.Length ensures LeafRow(y, rows) < rows {
      LeafSlotInRange(y, rows, k + m);
    }
    assert outShards[..] == FlatShards(mdu, c);
    FlatShardsConcat(mdu, c);
    FlatWitnessConcat(mdu, c, commit, outWitness[..]);
    return Done(());
  }

  /** Both paths side by side on any payload: the buffers are the flattened result of the slow path. */
  method FastPathAgrees(payload: seq<byte>, k: nat, m: nat, c: Code, commit: seq<byte> -> seq<byte>)
      returns (leaves: array<byte>, shards: array<byte>, slow: Outcome<(seq<seq<byte>>, seq<seq<byte>>)>)
    requires ValidParams(k, m) && Lawful(c) && c.k == k && c.m == m && CommitmentSize(commit)
    ensures slow.Done? && leaves[..] == Concat(slow.value.0) && shards[..] == Concat(slow.value.1)
  {
    hide Lawful, Concat, Witness, Shards, EncodedByte, Rows;
    FlatSize(k, m);
    leaves := new byte[(k + m) * Rows(k) * 48](_ => 0);
    shards := new byte[(k + m) * Rows(k) * BLOB_SIZE](_ => 0);
    var fast := ExpandPayloadFlat(payload, k, m, c, commit, leaves, shards);
    var mdu := EncodeToMdu(payload);
    slow := ExpandMduEncoded(mdu[..], k, m, c, commit);
  }
}
