/** Expanding an MDU into shards and commitments: from an encoded MDU into one buffer per slot, and
    straight from a payload into flat buffers. Both produce the same bytes. */
module Expand {
  import opened Bytes
  import opened Codec
  import opened Division
  import opened ErasureCode
  import opened Stripe

  /** A commitment is 48 bytes. */
  ghost predicate CommitmentSize(commit: seq<byte> -> seq<byte>) {
    forall b :: |commit(b)| == 48
  }

  // ----- one buffer per slot -----

  /** One column of the coder: the data bytes at position j give the parity bytes at position j. */
  method EncodeColumn(c: Code, shards: array2<byte>, j: nat, ghost d: seq<byte>)
    requires Lawful(c) && shards.Length0 == c.k + c.m && j < shards.Length1
    requires |d| == c.k && forall slot :: 0 <= slot < c.k ==> shards[slot, j] == d[slot]
    modifies shards
    ensures |Codeword(c, d)| == c.k + c.m
    ensures forall slot :: 0 <= slot < c.k + c.m ==> shards[slot, j] == Codeword(c, d)[slot]
    ensures forall slot, i | 0 <= slot < shards.Length0 && 0 <= i < shards.Length1 && i != j ::
      shards[slot, i] == old(shards[slot, i])
  {
    hide Lawful;
    CodewordLength(c, d);
    LawfulSize(c);
    var column: seq<byte> := seq(c.k, slot requires 0 <= slot < c.k reads shards => shards[slot, j]);
    assert column == d;
    var parity := c.parity(column);
    var slot := c.k;
    while slot < c.k + c.m
      invariant c.k <= slot <= c.k + c.m
      invariant forall s :: 0 <= s < slot ==> shards[s, j] == Codeword(c, d)[s]
      invariant forall s, i | 0 <= s < shards.Length0 && 0 <= i < shards.Length1 && i != j ::
        shards[s, i] == old(shards[s, i])
    {
      shards[slot, j] := parity[slot - c.k];
      slot := slot + 1;
    }
  }

  lemma LawfulSize(c: Code)
    requires Lawful(c)
    ensures c.k > 0 && c.m > 0
  {
  }

  /** Row `row` of every slot. */
  ghost predicate RowStored(shards: array2<byte>, mdu: seq<byte>, c: Code, row: nat, upTo: nat)
    requires |mdu| == MDU_SIZE && ValidParams(c.k, c.m) && Lawful(c) && row < Rows(c.k) && upTo <= BLOB_SIZE
    requires shards.Length0 == c.k + c.m && shards.Length1 == Rows(c.k) * BLOB_SIZE
    reads shards
  {
    RowFits(row, Rows(c.k));
    forall slot, o :: 0 <= slot < c.k + c.m && 0 <= o < upTo ==>
      shards[slot, row * BLOB_SIZE + o] == ShardByte(mdu, c, slot, row, o)
  }

  lemma RowFits(row: nat, rows: nat)
    requires row < rows
    ensures row * BLOB_SIZE + BLOB_SIZE <= rows * BLOB_SIZE
  {
  }

  method EncodeRow(c: Code, mdu: seq<byte>, shards: array2<byte>, row: nat)
    requires |mdu| == MDU_SIZE && ValidParams(c.k, c.m) && Lawful(c) && row < Rows(c.k)
    requires shards.Length0 == c.k + c.m && shards.Length1 == Rows(c.k) * BLOB_SIZE
    modifies shards
    ensures RowStored(shards, mdu, c, row, BLOB_SIZE)
    ensures forall slot, j | 0 <= slot < shards.Length0 && 0 <= j < row * BLOB_SIZE ::
      shards[slot, j] == old(shards[slot, j])
  {
    hide Lawful, Rows, Codeword;
    RowFits(row, Rows(c.k));
    var start := row * BLOB_SIZE;
    forall slot, o | 0 <= slot < c.k && 0 <= o < BLOB_SIZE {
      shards[slot, start + o] := MduByte(mdu, c.k, row, slot, o);
    }
    forall slot, j | c.k <= slot < c.k + c.m && start <= j < start + BLOB_SIZE {
      shards[slot, j] := 0;
    }
    for o := 0 to BLOB_SIZE
      invariant RowStored(shards, mdu, c, row, o)
      invariant forall slot, i :: 0 <= slot < c.k && o <= i < BLOB_SIZE ==>
        shards[slot, start + i] == MduByte(mdu, c.k, row, slot, i)
      invariant forall slot, j :: 0 <= slot < shards.Length0 && 0 <= j < start ==>
        shards[slot, j] == old(shards[slot, j])
    {
      ghost var d := DataColumn(mdu, c.k, row, o);
      EncodeColumn(c, shards, start + o, d);
      forall slot | 0 <= slot < c.k + c.m
        ensures shards[slot, start + o] == ShardByte(mdu, c, slot, row, o)
      {
      }
    }
  }

  /** expand_mdu_encoded */
  method ExpandMduEncoded(mdu: seq<byte>, k: nat, m: nat, c: Code, commit: seq<byte> -> seq<byte>)
      returns (r: Outcome<(seq<seq<byte>>, seq<seq<byte>>)>)
    requires ValidParams(k, m) ==> Lawful(c) && c.k == k && c.m == m
    ensures r == if |mdu| != MDU_SIZE then Failed(InvalidSize)
                 else if !ValidParams(k, m) then Failed(InvalidRsParams)
                 else Done((Witness(mdu, c, commit), Shards(mdu, c)))
  {
    hide Lawful, Rows, Codeword, ShardByte;
    if |mdu| != MDU_SIZE {
      return Failed(InvalidSize);
    }
    if k == 0 || m == 0 {
      return Failed(InvalidRsParams);
    }
    if BLOBS_PER_MDU % k != 0 {
      return Failed(InvalidRsParams);
    }
    var rows := Rows(k);
    var total := k + m;
    var shards := new byte[total, rows * BLOB_SIZE]((_, _) => 0);
    for row := 0 to rows
      invariant forall i :: 0 <= i < row ==> RowStored(shards, mdu, c, i, BLOB_SIZE)
    {
      label before:
      EncodeRow(c, mdu, shards, row);
      forall i | 0 <= i < row ensures RowStored(shards, mdu, c, i, BLOB_SIZE) {
        assert old@before(RowStored(shards, mdu, c, i, BLOB_SIZE));
        RowFits(i, row);
        forall slot, o | 0 <= slot < c.k + c.m && 0 <= o < BLOB_SIZE
          ensures shards[slot, i * BLOB_SIZE + o] == ShardByte(mdu, c, slot, i, o)
        {
          assert shards[slot, i * BLOB_SIZE + o] == old@before(shards[slot, i * BLOB_SIZE + o]);
        }
      }
    }
    var leaves := CollectWitness(mdu, c, commit, shards, rows);
    var out := CollectShards(mdu, c, shards, rows);
    return Done((leaves, out));
  }

  method CollectWitness(ghost mdu: seq<byte>, c: Code, commit: seq<byte> -> seq<byte>, shards: array2<byte>, rows: nat)
      returns (leaves: seq<seq<byte>>)
    requires |mdu| == MDU_SIZE && ValidParams(c.k, c.m) && Lawful(c) && rows == Rows(c.k)
    requires shards.Length0 == c.k + c.m && shards.Length1 == rows * BLOB_SIZE
    requires forall i :: 0 <= i < rows ==> RowStored(shards, mdu, c, i, BLOB_SIZE)
    ensures leaves == Witness(mdu, c, commit)
  {
    hide Lawful, Rows, Codeword, ShardByte;
    leaves := [];
    for slot := 0 to c.k + c.m
      invariant |leaves| == slot * rows
      invariant forall i :: 0 <= i < |leaves| ==> i < (c.k + c.m) * rows && leaves[i] == WitnessEntry(mdu, c, commit, i)
    {
      Apart(slot, c.k + c.m, rows);
      for row := 0 to rows
        invariant |leaves| == slot * rows + row
        invariant forall i :: 0 <= i < |leaves| ==>
          i < (c.k + c.m) * rows && leaves[i] == WitnessEntry(mdu, c, commit, i)
      {
        RowFits(row, rows);
        var blob := seq(BLOB_SIZE, o requires 0 <= o < BLOB_SIZE reads shards => shards[slot, row * BLOB_SIZE + o]);
        assert RowStored(shards, mdu, c, row, BLOB_SIZE);
        assert blob == ShardBlob(mdu, c, slot, row);
        DivUnique(slot * rows + row, rows, slot, row);
        leaves := leaves + [commit(blob)];
      }
      assert (slot + 1) * rows == slot * rows + rows;
    }
  }

  method CollectShards(ghost mdu: seq<byte>, c: Code, shards: array2<byte>, rows: nat) returns (out: seq<seq<byte>>)
    requires |mdu| == MDU_SIZE && ValidParams(c.k, c.m) && Lawful(c) && rows == Rows(c.k)
    requires shards.Length0 == c.k + c.m && shards.Length1 == rows * BLOB_SIZE
    requires forall i :: 0 <= i < rows ==> RowStored(shards, mdu, c, i, BLOB_SIZE)
    ensures out == Shards(mdu, c)
  {
    hide Lawful, Rows, Codeword, ShardByte;
    out := [];
    for slot := 0 to c.k + c.m
      invariant |out| == slot
      invariant forall s :: 0 <= s < slot ==> out[s] == Shard(mdu, c, s)
    {
      var shard := seq(rows * BLOB_SIZE, j requires 0 <= j < rows * BLOB_SIZE reads shards => shards[slot, j]);
      forall j | 0 <= j < rows * BLOB_SIZE ensures shard[j] == ShardByte(mdu, c, slot, j / BLOB_SIZE, j % BLOB_SIZE) {
        var row, o := j / BLOB_SIZE, j % BLOB_SIZE;
        assert j == row * BLOB_SIZE + o && row < rows;
        assert RowStored(shards, mdu, c, row, BLOB_SIZE);
      }
      out := out + [shard];
    }
  }
}
