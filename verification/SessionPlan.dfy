/** The session plan over a byte range: an interval of leaves, exact or not. */
module SessionPlan {
  import opened Codec
  import opened BlobMap
  import opened Division
  import opened StripeIndex

  datatype Plan = Planned(startGlobal: nat, blobCount: nat, startSlot: nat) | Rejected

  /** The range that is planned: the whole rest of the file for length zero, clamped to it otherwise. */
  function ClampedLen(fileLen: nat, rangeStart: nat, rangeLen: nat): (n: nat)
    requires rangeStart < fileLen
    ensures n > 0 && rangeStart + n <= fileLen
    ensures rangeLen == 0 ==> rangeStart + n == fileLen
    ensures rangeLen > 0 ==> n <= rangeLen && (n == rangeLen || rangeStart + n == fileLen)
  {
    if rangeLen == 0 || rangeLen > fileLen - rangeStart then fileLen - rangeStart else rangeLen
  }

  /** The global index of the leaf that holds absolute byte abs. */
  function GlobalOf(abs: nat, witnessCount: nat, s: StripeParams): nat
    requires ValidStripe(s)
  {
    NonNegativeProduct(1 + witnessCount + BlobOf(abs).0, s.leafCount);
    (1 + witnessCount + BlobOf(abs).0) * s.leafCount + LeafIndexForBlobIndex(BlobOf(abs).1, s)
  }

  lemma NonNegativeProduct(x: nat, y: nat)
    ensures x * y >= 0
  {
  }

  /** The arithmetic of GatewayPlanRetrievalSession. */
  function PlanSession(startOffset: nat, fileLen: nat, rangeStart: nat, rangeLen: nat, witnessCount: nat,
                       s: StripeParams): Plan
    requires ValidStripe(s)
  {
    if fileLen == 0 || rangeStart >= fileLen then Rejected
    else
      var absStart := startOffset + rangeStart;
      var absEnd := absStart + ClampedLen(fileLen, rangeStart, rangeLen) - 1;
      var startMdu := 1 + witnessCount + absStart / MDU_PAYLOAD_BYTES;
      var endMdu := 1 + witnessCount + absEnd / MDU_PAYLOAD_BYTES;
      var startBlob := RawOffsetToEncodedBlobIndex(absStart % MDU_PAYLOAD_BYTES);
      var endBlob := RawOffsetToEncodedBlobIndex(absEnd % MDU_PAYLOAD_BYTES);
      if startBlob.OutOfBounds? || endBlob.OutOfBounds? then Rejected
      else
        var startLeaf := LeafIndexForBlobIndex(startBlob.index, s);
        var endLeaf := LeafIndexForBlobIndex(endBlob.index, s);
        var slot := SlotForLeafIndex(startLeaf, s);
        if slot != SlotForLeafIndex(endLeaf, s) then Rejected
        else
          NonNegativeProduct(startMdu, s.leafCount);
          NonNegativeProduct(endMdu, s.leafCount);
          var startGlobal := startMdu * s.leafCount + startLeaf;
          var endGlobal := endMdu * s.leafCount + endLeaf;
          if endGlobal < startGlobal then Rejected
          else Planned(startGlobal, endGlobal - startGlobal + 1, slot)
  }

  /** The planned interval is exactly the set of leaves that hold a byte of the range. */
  ghost predicate PlanIsExact(plan: Plan, absStart: nat, len: nat, witnessCount: nat, s: StripeParams)
    requires ValidStripe(s) && plan.Planned?
  {
    forall g: nat :: InPlan(plan, g) <==> Touched(g, absStart, len, witnessCount, s)
  }

  ghost predicate InPlan(plan: Plan, g: nat)
    requires plan.Planned?
  {
    plan.startGlobal <= g < plan.startGlobal + plan.blobCount
  }

  ghost predicate Touched(g: nat, absStart: nat, len: nat, witnessCount: nat, s: StripeParams)
    requires ValidStripe(s)
  {
    exists x :: absStart <= x < absStart + len && GlobalOf(x, witnessCount, s) == g
  }

  /** Mode 1: every in-file range gets a plan, and the plan is exact. */
  lemma Mode1PlanIsExact(startOffset: nat, fileLen: nat, rangeStart: nat, rangeLen: nat, witnessCount: nat,
                         s: StripeParams)
    requires ValidStripe(s) && s.mode != 2
    ensures var plan := PlanSession(startOffset, fileLen, rangeStart, rangeLen, witnessCount, s);
      (plan.Planned? <==> rangeStart < fileLen) &&
      (plan.Planned? ==> plan.startSlot == 0) &&
      (plan.Planned? ==>
        PlanIsExact(plan, startOffset + rangeStart, ClampedLen(fileLen, rangeStart, rangeLen), witnessCount, s))
  {
    if rangeStart < fileLen {
      var a := startOffset + rangeStart;
      var len := ClampedLen(fileLen, rangeStart, rangeLen);
      var e := a + len - 1;
      var base := (1 + witnessCount) * 64;
      var plan := PlanSession(startOffset, fileLen, rangeStart, rangeLen, witnessCount, s);
      IndexIsQuotient(a % MDU_PAYLOAD_BYTES);
      IndexIsQuotient(e % MDU_PAYLOAD_BYTES);
      BlobOrder(a, e);
      assert plan == Planned(base + a / BLOB_PAYLOAD, e / BLOB_PAYLOAD - a / BLOB_PAYLOAD + 1, 0);
      forall x: nat ensures GlobalOf(x, witnessCount, s) == base + x / BLOB_PAYLOAD {
        BlobOrder(x, x);
      }
      forall g: nat ensures InPlan(plan, g) <==> Touched(g, a, len, witnessCount, s) {
        if InPlan(plan, g) {
          var q := g - base;
          var x := if q == a / BLOB_PAYLOAD then a else q * BLOB_PAYLOAD;
          assert x / BLOB_PAYLOAD == q && a <= x <= e;
          assert GlobalOf(x, witnessCount, s) == g;
        }
      }
    }
  }

  /** What a Mode 2 plan over [a, a + len) is made of. */
  ghost predicate PlanOf(plan: Plan, a: nat, len: nat, witnessCount: nat, s: StripeParams)
    requires ValidStripe(s) && s.mode == 2
  {
    len > 0 && plan.Planned? && plan.startGlobal == GlobalOf(a, witnessCount, s) &&
    plan.startGlobal + plan.blobCount == GlobalOf(a + len - 1, witnessCount, s) + 1 &&
    BlobOf(a).1 % s.k == BlobOf(a + len - 1).1 % s.k
  }

  lemma OneBlobPlan(plan: Plan, a: nat, len: nat, witnessCount: nat, s: StripeParams)
    requires ValidStripe(s) && s.mode == 2 && PlanOf(plan, a, len, witnessCount, s)
    requires BlobOf(a) == BlobOf(a + len - 1)
    ensures PlanIsExact(plan, a, len, witnessCount, s)
  {
    hide BlobOf, LeafIndexForBlobIndex;
    forall x | a <= x < a + len ensures BlobOf(x) == BlobOf(a) {
      BlobOrder(a, x);
      BlobOrder(x, a + len - 1);
    }
    assert GlobalOf(a, witnessCount, s) == plan.startGlobal;
  }

  lemma OneSlotGlobal(x: nat, witnessCount: nat, s: StripeParams)
    requires ValidStripe(s) && s.mode == 2 && s.k == 1
    ensures GlobalOf(x, witnessCount, s) == (1 + witnessCount + BlobOf(x).0) * s.leafCount + BlobOf(x).1
  {
    hide BlobOf;
    assert BlobOf(x).1 % 1 == 0 && BlobOf(x).1 / 1 == BlobOf(x).1;
  }

  /** Between two bytes of an MDU every blob from the first one's to the last one's has a byte. */
  lemma ByteOfBlob(a: nat, e: nat, u: nat, b: nat) returns (x: nat)
    requires a <= e && BlobOf(a).0 == u == BlobOf(e).0 && BlobOf(a).1 <= b <= BlobOf(e).1
    ensures a <= x <= e && BlobOf(x) == (u, b)
  {
    BlobOrder(a, a);
    BlobOrder(e, e);
    x := if b == BlobOf(a).1 then a else u * MDU_PAYLOAD_BYTES + b * BLOB_PAYLOAD;
  }

  /** One data slot: leaves are blobs. */
  lemma OneSlotPlan(plan: Plan, a: nat, len: nat, witnessCount: nat, s: StripeParams)
    requires ValidStripe(s) && s.mode == 2 && s.k == 1 && PlanOf(plan, a, len, witnessCount, s)
    requires BlobOf(a).0 == BlobOf(a + len - 1).0
    ensures PlanIsExact(plan, a, len, witnessCount, s)
  {
    hide BlobOf, GlobalOf;
    var e, u := a + len - 1, BlobOf(a).0;
    var base := (1 + witnessCount + u) * s.leafCount;
    forall x | a <= x <= e
      ensures GlobalOf(x, witnessCount, s) == base + BlobOf(x).1
      ensures BlobOf(a).1 <= BlobOf(x).1 <= BlobOf(e).1
    {
      BlobOrder(a, x);
      BlobOrder(x, e);
      BlobOrder(e, e);
      assert BlobOf(x).0 == u;
      OneSlotGlobal(x, witnessCount, s);
    }
    forall g: nat ensures InPlan(plan, g) <==> Touched(g, a, len, witnessCount, s) {
      if InPlan(plan, g) {
        var x := ByteOfBlob(a, e, u, g - base);
        assert GlobalOf(x, witnessCount, s) == g;
      }
      if Touched(g, a, len, witnessCount, s) {
        var x :| a <= x < a + len && GlobalOf(x, witnessCount, s) == g;
        assert BlobOf(a).1 <= BlobOf(x).1 <= BlobOf(e).1;
      }
    }
  }

  /** Leaves of an MDU come before those of a later one. */
  lemma GlobalOrder(u: nat, v: nat, leaf: nat, other: nat, count: nat)
    requires u < v && leaf < count
    ensures u * count + leaf < v * count + other
  {
    Apart(u, v, count);
  }

  /** A plan that crosses an MDU boundary includes parity leaves, which hold no byte of the file. */
  lemma SpanningPlan(plan: Plan, a: nat, len: nat, witnessCount: nat, s: StripeParams)
    requires ValidStripe(s) && s.mode == 2 && PlanOf(plan, a, len, witnessCount, s)
    requires BlobOf(a).0 != BlobOf(a + len - 1).0
    ensures !PlanIsExact(plan, a, len, witnessCount, s)
  {
    var e := a + len - 1;
    BlobOrder(a, e);
    BlobOrder(e, e);
    var u, v := 1 + witnessCount + BlobOf(a).0, 1 + witnessCount + BlobOf(e).0;
    LeafOfBlob(BlobOf(a).1, s);
    assert s.k * s.rows < s.leafCount by { assert s.leafCount == s.k * s.rows + s.m * s.rows; }
    var parity := u * s.leafCount + s.k * s.rows;
    GlobalOrder(u, v, s.k * s.rows, LeafIndexForBlobIndex(BlobOf(e).1, s), s.leafCount);
    assert InPlan(plan, parity);
    if Touched(parity, a, len, witnessCount, s) {
      var x :| a <= x < a + len && GlobalOf(x, witnessCount, s) == parity;
      BlobOrder(x, x);
      LeafOfBlob(BlobOf(x).1, s);
      SameMdu(1 + witnessCount + BlobOf(x).0, u, LeafIndexForBlobIndex(BlobOf(x).1, s), s.k * s.rows, s.leafCount);
    }
  }

  lemma SameMdu(u: nat, v: nat, leaf: nat, other: nat, count: nat)
    requires leaf < count && other < count && u * count + leaf == v * count + other
    ensures leaf == other
  {
    if u < v { Apart(u, v, count); }
    if v < u { Apart(v, u, count); }
  }

  /** A plan over several blobs of one MDU misses the blob after the first: it is in another slot. */
  lemma TwoBlobPlan(plan: Plan, a: nat, len: nat, witnessCount: nat, s: StripeParams)
    requires ValidStripe(s) && s.mode == 2 && s.k > 1 && PlanOf(plan, a, len, witnessCount, s)
    requires BlobOf(a).0 == BlobOf(a + len - 1).0 && BlobOf(a).1 != BlobOf(a + len - 1).1
    ensures !PlanIsExact(plan, a, len, witnessCount, s)
  {
    var e, u, b := a + len - 1, BlobOf(a).0, BlobOf(a).1;
    BlobOrder(a, e);
    BlobOrder(e, e);
    var x := u * MDU_PAYLOAD_BYTES + (b + 1) * BLOB_PAYLOAD;
    assert BlobOf(x) == (u, b + 1) && a <= x <= e;
    var g := GlobalOf(x, witnessCount, s);
    assert Touched(g, a, len, witnessCount, s);
    var base := (1 + witnessCount + u) * s.leafCount;
    LeafOfBlob(b, s);
    LeafOfBlob(b + 1, s);
    LeafOfBlob(BlobOf(e).1, s);
    NextColumn(b, s.k);
    if InPlan(plan, g) {
      SlotBetween(LeafIndexForBlobIndex(b, s), LeafIndexForBlobIndex(b + 1, s),
                  LeafIndexForBlobIndex(BlobOf(e).1, s), s.rows);
    }
  }

  lemma NextColumn(b: nat, k: nat)
    requires k > 1
    ensures (b + 1) % k != b % k
  {
    var q, r := b / k, b % k;
    assert b + 1 == q * k + r + 1;
    if r + 1 < k {
      DivUnique(b + 1, k, q, r + 1);
    } else {
      assert (q + 1) * k == q * k + k;
      DivUnique(b + 1, k, q + 1, 0);
    }
  }

  lemma SlotBetween(x: nat, y: nat, z: nat, rows: nat)
    requires rows > 0 && x <= y <= z && x / rows == z / rows
    ensures y / rows == x / rows
  {
    var q := x / rows;
    assert x == q * rows + x % rows && z == q * rows + z % rows;
    DivUnique(y, rows, q, y - q * rows);
  }

  /** Mode 2 compares only the slots of the two ends. An accepted plan is exact if and only if the range
      stays in one MDU and either in one blob or on a stripe with a single data slot. */
  lemma Mode2PlanExactness(startOffset: nat, fileLen: nat, rangeStart: nat, rangeLen: nat, witnessCount: nat,
                           s: StripeParams)
    requires ValidStripe(s) && s.mode == 2 && rangeStart < fileLen
    requires PlanSession(startOffset, fileLen, rangeStart, rangeLen, witnessCount, s).Planned?
    ensures var a := startOffset + rangeStart;
      var len := ClampedLen(fileLen, rangeStart, rangeLen);
      var x, y := BlobOf(a), BlobOf(a + len - 1);
      var plan := PlanSession(startOffset, fileLen, rangeStart, rangeLen, witnessCount, s);
      PlanIsExact(plan, a, len, witnessCount, s) <==> x.0 == y.0 && (x.1 == y.1 || s.k == 1)
  {
    var a := startOffset + rangeStart;
    var len := ClampedLen(fileLen, rangeStart, rangeLen);
    var e := a + len - 1;
    var x, y := BlobOf(a), BlobOf(e);
    var plan := PlanSession(startOffset, fileLen, rangeStart, rangeLen, witnessCount, s);
    IndexIsQuotient(a % MDU_PAYLOAD_BYTES);
    IndexIsQuotient(e % MDU_PAYLOAD_BYTES);
    BlobOrder(a, e);
    BlobOrder(e, e);
    LeafOfBlob(x.1, s);
    LeafOfBlob(y.1, s);
    if x.0 != y.0 {
      SpanningPlan(plan, a, len, witnessCount, s);
    } else if x.1 == y.1 {
      OneBlobPlan(plan, a, len, witnessCount, s);
    } else if s.k == 1 {
      OneSlotPlan(plan, a, len, witnessCount, s);
    } else {
      TwoBlobPlan(plan, a, len, witnessCount, s);
    }
  }

  /** A Mode 2 plan is accepted exactly when the blobs of its two ends are in one slot; it then runs from the leaf of
      the first to that of the last, in that slot. */
  lemma Mode2PlanOfEnds(startOffset: nat, fileLen: nat, rangeStart: nat, rangeLen: nat, witnessCount: nat,
                        s: StripeParams)
    requires ValidStripe(s) && s.mode == 2
    ensures PlanSession(startOffset, fileLen, rangeStart, rangeLen, witnessCount, s).Planned? ==> rangeStart < fileLen
    ensures rangeStart < fileLen ==>
      var a := startOffset + rangeStart;
      var e := a + ClampedLen(fileLen, rangeStart, rangeLen) - 1;
      var plan := PlanSession(startOffset, fileLen, rangeStart, rangeLen, witnessCount, s);
      (plan.Planned? <==> BlobOf(a).1 % s.k == BlobOf(e).1 % s.k) &&
      (plan.Planned? ==> plan.startSlot == BlobOf(a).1 % s.k && plan.startGlobal == GlobalOf(a, witnessCount, s)) &&
      (plan.Planned? ==> plan.startGlobal + plan.blobCount == GlobalOf(e, witnessCount, s) + 1)
  {
    if rangeStart < fileLen {
      var a := startOffset + rangeStart;
      var e := a + ClampedLen(fileLen, rangeStart, rangeLen) - 1;
      var x, y := BlobOf(a), BlobOf(e);
      IndexIsQuotient(a % MDU_PAYLOAD_BYTES);
      IndexIsQuotient(e % MDU_PAYLOAD_BYTES);
      BlobOrder(a, e);
      BlobOrder(e, e);
      LeafOfBlob(x.1, s);
      LeafOfBlob(y.1, s);
      if x.0 < y.0 {
        MoreLeaves(s);
        GlobalOrder(1 + witnessCount + x.0, 1 + witnessCount + y.0, LeafIndexForBlobIndex(x.1, s),
                    LeafIndexForBlobIndex(y.1, s), s.leafCount);
      } else if x.1 % s.k == y.1 % s.k {
        LaterRow(x.1, y.1, s.k);
      }
    }
  }

  lemma MoreLeaves(s: StripeParams)
    requires ValidStripe(s) && s.mode == 2
    ensures s.k * s.rows <= s.leafCount
  {
    assert s.leafCount == s.k * s.rows + s.m * s.rows;
  }

  lemma LaterRow(a: nat, b: nat, k: nat)
    requires k > 0 && a <= b
    ensures a / k <= b / k
  {
    assert a == a / k * k + a % k && b == b / k * k + b % k;
    if b / k < a / k {
      Apart(b / k, a / k, k);
    }
  }

  /** With 8 + 4 slots, the plan of a range from blob 0 to blob 8 is accepted with two leaves, those of its ends,
      and leaves out the seven blobs between them. */
  lemma PlanMissesBlobs(witnessCount: nat)
    ensures var s, len := StripeParams(2, 8, 4, 8, 96, 12), 8 * BLOB_PAYLOAD + 1;
      ValidStripe(s) &&
      var plan := PlanSession(0, len, 0, 0, witnessCount, s);
      plan == Planned((1 + witnessCount) * 96, 2, 0) && !PlanIsExact(plan, 0, len, witnessCount, s) &&
      forall b :: 1 <= b < 8 ==>
        Touched(GlobalOf(b * BLOB_PAYLOAD, witnessCount, s), 0, len, witnessCount, s) &&
        !InPlan(plan, GlobalOf(b * BLOB_PAYLOAD, witnessCount, s))
  {
    var s, len := StripeParams(2, 8, 4, 8, 96, 12), 8 * BLOB_PAYLOAD + 1;
    IndexIsQuotient(0);
    IndexIsQuotient(8 * BLOB_PAYLOAD);
    Mode2PlanExactness(0, len, 0, 0, witnessCount, s);
  }
}
