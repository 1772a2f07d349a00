/** The witness bytes of a slab: which commitment is where, and when they all found room. */
module SlabWitness {
  import opened Bytes
  import opened Codec
  import opened Division
  import opened StripeIndex
  import opened ErasureCode
  import opened Stripe
  import opened Expand
  import opened ExpandFlat
  import opened Mdu0
  import opened SlabLayout
  import opened SlabIngest
  import opened SlabAppend

  /** The witness bytes of user MDU u, blob b: the commitment of that blob, in the place of its leaf. */
  lemma LeafBytes(mdus: seq<seq<byte>>, s: Scheme, u: nat, b: nat, stripe: StripeParams)
    requires ValidScheme(s) && AllMdus(mdus) && u < |mdus| && b < BLOBS_PER_MDU
    requires ValidStripe(stripe) && stripe.mode == 2
    requires stripe.k == s.code.k && stripe.m == s.code.m && stripe.rows == Rows(s.code.k)
    ensures var at := u * Span(s.code) + LeafIndexForBlobIndex(b, stripe) * COMMITMENT_BYTES;
      0 <= at && at + COMMITMENT_BYTES <= |WitnessBytes(mdus, s)| &&
      WitnessBytes(mdus, s)[at..at + COMMITMENT_BYTES] == s.commit(mdus[u][b * BLOB_SIZE..(b + 1) * BLOB_SIZE])
  {
    hide ValidScheme, Concat, Witness, LeafIndexForBlobIndex, Span, Lawful, WitnessBytes;
    SchemeFacts(s);
    var leaf := LeafIndexForBlobIndex(b, stripe);
    LeafHoldsBlob(mdus[u], s.code, s.commit, stripe, b);
    var parts := Witness(mdus[u], s.code, s.commit);
    WitnessSizes(mdus[u], s);
    ConcatPart(parts, COMMITMENT_BYTES, leaf);
    UserStretch(mdus, u, s);
    var flat, all, from := Flat(mdus[u], s), WitnessBytes(mdus, s), u * Span(s.code);
    SliceOfSlice(all, from, from + |flat|, leaf * COMMITMENT_BYTES, leaf * COMMITMENT_BYTES + COMMITMENT_BYTES);
  }

  lemma SchemeFacts(s: Scheme)
    requires ValidScheme(s)
    ensures Lawful(s.code) && ValidParams(s.code.k, s.code.m) && CommitmentSize(s.commit)
  {
  }

  lemma WitnessSizes(mdu: seq<byte>, s: Scheme)
    requires |mdu| == MDU_SIZE && ValidScheme(s)
    ensures var parts := Witness(mdu, s.code, s.commit);
      forall i :: 0 <= i < |parts| ==> |parts[i]| == COMMITMENT_BYTES
  {
    hide ValidScheme, WitnessEntry, Rows;
    SchemeFacts(s);
    var parts := Witness(mdu, s.code, s.commit);
    forall i | 0 <= i < |parts| ensures |parts[i]| == COMMITMENT_BYTES {
      EntrySize(mdu, s.code, s.commit, i);
    }
  }

  lemma EntrySize(mdu: seq<byte>, c: Code, commit: seq<byte> -> seq<byte>, i: nat)
    requires |mdu| == MDU_SIZE && ValidParams(c.k, c.m) && Lawful(c) && CommitmentSize(commit)
    requires i < (c.k + c.m) * Rows(c.k)
    ensures |WitnessEntry(mdu, c, commit, i)| == COMMITMENT_BYTES
  {
    hide Lawful, ShardBlob, Rows;
    LeafCell(c.k, c.m, i);
  }

  lemma UserStretch(mdus: seq<seq<byte>>, u: nat, s: Scheme)
    requires ValidScheme(s) && AllMdus(mdus) && u < |mdus|
    ensures 0 <= u * Span(s.code) && u * Span(s.code) + Span(s.code) <= |WitnessBytes(mdus, s)|
    ensures WitnessBytes(mdus, s)[u * Span(s.code)..u * Span(s.code) + Span(s.code)] == Flat(mdus[u], s)
  {
    hide ValidScheme, Flat, Concat, Span;
    SchemeParams(s);
    var all := WitnessBytes(mdus, s);
    assert all[..|mdus| * Span(s.code)] == all;
    Stretch(all, mdus, u, s);
  }

  /** In the slab of any files, the slot of the leaf of blob b of user MDU u stores that blob in its shard. */
  lemma LeafShard(d: Dir, files: seq<File>, s: Scheme, u: nat, b: nat, stripe: StripeParams)
    requires ValidScheme(s) && IsSlab(d, files, s) && u < UserCount(files) && b < BLOBS_PER_MDU
    requires ValidStripe(stripe) && stripe.mode == 2
    requires stripe.k == s.code.k && stripe.m == s.code.m && stripe.rows == Rows(s.code.k)
    ensures var slot, row := SlotForLeafIndex(LeafIndexForBlobIndex(b, stripe), stripe), b / s.code.k;
      var key := (1 + WitnessCount(UserCount(files), s.code) + u, slot);
      key in d.shards && 0 <= row && (row + 1) * BLOB_SIZE <= |d.shards[key]| &&
      d.shards[key][row * BLOB_SIZE..(row + 1) * BLOB_SIZE] == UserMdus(files)[u][b * BLOB_SIZE..(b + 1) * BLOB_SIZE]
  {
    hide ValidScheme, Mdu0Holds, WitnessStored, UserMdus, WitnessCount, LeafIndexForBlobIndex, SlotForLeafIndex, Shard,
         Witness, Lawful, Rows;
    SchemeFacts(s);
    LeafHoldsBlob(UserMdus(files)[u], s.code, s.commit, stripe, b);
    var slot := SlotForLeafIndex(LeafIndexForBlobIndex(b, stripe), stripe);
    NonNegative(b, s.code.k, 0);
    assert ShardAt(d.shards, 1 + WitnessCount(UserCount(files), s.code), UserMdus(files), s, u, slot);
  }

  /** Decoding the witness MDUs of a slab and taking 48 bytes at a leaf of a user MDU gives the commitment
      of its blob, whenever all witness bytes found room. */
  method CommitmentAt(d: Dir, s: Scheme, u: nat, b: nat, stripe: StripeParams, userMdus: nat, ghost files: seq<File>)
      returns (commitment: seq<byte>)
    requires ValidScheme(s) && IsSlab(d, files, s) && u < userMdus == UserCount(files) && b < BLOBS_PER_MDU
    requires ValidStripe(stripe) && stripe.mode == 2
    requires stripe.k == s.code.k && stripe.m == s.code.m && stripe.rows == Rows(s.code.k)
    requires WitnessFits(userMdus, s.code)
    ensures commitment == s.commit(UserMdus(files)[u][b * BLOB_SIZE..(b + 1) * BLOB_SIZE])
  {
    hide ValidScheme, Mdu0Holds, ShardsStored, WitnessStored, UserMdus, LeafIndexForBlobIndex, WitnessBytes, LeafCount;
    SchemeParams(s);
    ghost var all := WitnessBytes(UserMdus(files), s);
    var w := WitnessCount(userMdus, s.code);
    var bytes := DecodeWitness(d.mdus, w, userMdus * Span(s.code), all, w);
    assert bytes == all;
    LeafBytes(UserMdus(files), s, u, b, stripe);
    var at := u * Span(s.code) + LeafIndexForBlobIndex(b, stripe) * COMMITMENT_BYTES;
    return bytes[at..at + COMMITMENT_BYTES];
  }

  /** The number of witness MDUs is computed from 8 MiB although each takes only 8126464 bytes. With 8 data
      and 4 parity slots, 1763 user MDUs leave a slab that can be appended to, 1764 do not. */
  lemma WitnessTooSmall(c: Code)
    requires c.k == 8 && c.m == 4
    ensures WitnessFits(1763, c) && !WitnessFits(1764, c)
    ensures 1764 + WitnessCount(1764, c) <= MAX_ROOTS
  {
    assert Rows(8) == 8;
    assert LeafCount(c) == 96 && Span(c) == 4608;
  }

  /** A root table has room for 65536 roots, a manifest for 4096. With 8 + 4 slots a file of 4092 user MDUs leaves
      every one of them a cell of the manifest; one of 4093 can be stored, and its last MDU has none. */
  lemma ManifestTooSmall(c: Code)
    requires c.k == 8 && c.m == 4
    ensures 1 + WitnessCount(4092, c) + 4091 < 4096 <= 1 + WitnessCount(4093, c) + 4092
    ensures 4093 + WitnessCount(4093, c) <= MAX_ROOTS
  {
    assert Rows(8) == 8;
    assert LeafCount(c) == 96;
  }
}
