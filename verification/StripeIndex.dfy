/** Where a blob of a striped MDU is: its leaf in the MDU's Merkle tree and its slot. */
module StripeIndex {
  import opened Codec
  import opened Division

  /** Mode 2 keeps blob b of an MDU in row b / k of slot b % k; leaves are numbered slot by slot. */
  datatype StripeParams = StripeParams(mode: nat, k: nat, m: nat, rows: nat, leafCount: nat, slotCount: nat)

  ghost predicate ValidStripe(s: StripeParams) {
    if s.mode == 2 then
      s.k > 0 && s.m > 0 && s.rows > 0 && s.k * s.rows == BLOBS_PER_MDU &&
      s.leafCount == (s.k + s.m) * s.rows && s.slotCount == s.k + s.m
    else s.leafCount == BLOBS_PER_MDU
  }

  /** leafIndexForBlobIndex, for parameters that passed the zero checks */
  function LeafIndexForBlobIndex(blob: nat, s: StripeParams): nat
    requires ValidStripe(s)
  {
    if s.mode != 2 then blob
    else
      NonNegative(blob, s.k, s.rows);
      (blob % s.k) * s.rows + blob / s.k
  }

  /** slotForLeafIndex */
  function SlotForLeafIndex(leaf: nat, s: StripeParams): nat
    requires ValidStripe(s)
  {
    if s.mode != 2 then 0
    else
      NonNegative(leaf, s.rows, 0);
      leaf / s.rows
  }

  /** The leaf of a blob lies in the slot of its column, below the parity leaves. */
  lemma LeafOfBlob(blob: nat, s: StripeParams)
    requires ValidStripe(s) && s.mode == 2 && blob < BLOBS_PER_MDU
    ensures blob / s.k < s.rows && blob % s.k < s.k
    ensures SlotForLeafIndex(LeafIndexForBlobIndex(blob, s), s) == blob % s.k
    ensures LeafIndexForBlobIndex(blob, s) < s.k * s.rows
  {
    RowInRange(blob, s.k, s.rows);
    LeafOfCell(blob % s.k, blob / s.k, s.k, s.rows);
  }

  lemma LeafOfCell(col: nat, row: nat, k: nat, rows: nat)
    requires col < k && row < rows
    ensures (col * rows + row) / rows == col && col * rows + row < k * rows
  {
    DivUnique(col * rows + row, rows, col, row);
    Apart(col, k, rows);
  }

  lemma RowInRange(blob: nat, k: nat, rows: nat)
    requires k > 0 && blob < k * rows
    ensures blob / k < rows && blob % k < k
  {
    var row := blob / k;
    assert blob == row * k + blob % k;
    assert (rows - 1) * k + k == k * rows;
    if row > rows - 1 {
      Apart(rows - 1, row, k);
    }
  }

  /** Different blobs have different leaves. */
  lemma LeafInjective(a: nat, b: nat, s: StripeParams)
    requires ValidStripe(s) && s.mode == 2 && a < BLOBS_PER_MDU && b < BLOBS_PER_MDU
    requires LeafIndexForBlobIndex(a, s) == LeafIndexForBlobIndex(b, s)
    ensures a == b
  {
    LeafOfBlob(a, s);
    LeafOfBlob(b, s);
    SameCell(a, b, s.k, s.rows);
  }

  lemma SameCell(a: nat, b: nat, k: nat, rows: nat)
    requires k > 0 && a % k == b % k && a % k * rows + a / k == b % k * rows + b / k
    ensures a == b
  {
    assert a == a / k * k + a % k && b == b / k * k + b % k;
  }
}
