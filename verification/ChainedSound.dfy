/** What an accepted chain proves, whoever made it: a cell of the manifest, the root of its MDU, the commitment of a
    blob under that root, and the value of that blob. */
module ChainedSound {
  import opened Residue
  import opened Poly
  import opened Prime
  import opened BitReverse
  import opened Bytes
  import opened Codec
  import opened Division
  import opened Opening
  import opened Mdu0
  import opened StripeIndex
  import opened ErasureCode
  import opened Stripe
  import opened ExpandFlat
  import opened SlabLayout
  import opened SlabIngest
  import opened SlabHistory
  import opened SlabWitness
  import opened SessionMerkle
  import opened WitnessMerkle
  import opened Kzg
  import opened KzgProof
  import opened KzgScheme
  import opened ChainedProof

  // ----- what is left when a false chain is accepted -----

  /** A false value of a polynomial that is accepted with a proof gives the secret away. */
  ghost predicate Reveals(f: seq<int>, z: nat, y: nat, proof: int, tau: int, p: nat)
    requires p >= 2 && f != []
  {
    Cong(tau, z + (ClaimedValue(f, z, p) - y) * Inv(proof - ProofExponent(f, z, tau, p), p), p)
  }

  /** Two commitments, or two pairs of nodes, whose hashes are one scalar. */
  ghost predicate Clash(hash: HashFunction, p: nat)
    requires p > 0
  {
    exists a, b :: a != b && |a| == |b| && (|a| == COMMITMENT_BYTES || |a| == 2 * NODE_SIZE) &&
      ScalarOf(hash(a), p) == ScalarOf(hash(b), p)
  }

  lemma ClashFrom(hash: HashFunction, a: seq<byte>, b: seq<byte>, p: nat)
    requires p > 0 && a != b && |a| == |b| && (|a| == COMMITMENT_BYTES || |a| == 2 * NODE_SIZE)
    requires ScalarOf(hash(a), p) == ScalarOf(hash(b), p)
    ensures Clash(hash, p)
  {
  }

  lemma CollisionClashes(hash: HashFunction, p: nat)
    requires p > 0 && Collision(hash)
    ensures Clash(hash, p)
  {
    hide BeValue;
    var a, b :| a != b && |a| == |b| == 2 * NODE_SIZE && hash(a) == hash(b);
    ClashFrom(hash, a, b, p);
  }

  /** The sizes of the inputs. */
  ghost predicate Shaped(c: Chained) {
    |c.mduRoot| == NODE_SIZE && |c.blobCommitment| == COMMITMENT_BYTES && Nodes(c.path)
  }

  /** The scalar in a cell of the manifest of some roots. */
  function CellScalar(roots: seq<seq<byte>>, i: nat, p: nat): (s: nat)
    requires p > 0
    ensures s < p
  {
    ScalarBelow(if i < |roots| then roots[i] else [], p);
    if i < |roots| then ScalarOf(roots[i], p) else 0
  }

  // ----- the three hops -----

  /** Only the canonical bytes of a value are taken for it. */
  lemma CanonicalBytes(bytes: seq<byte>)
    requires |bytes| == 32
    ensures ScalarToBytes(BeValue(bytes)) == bytes
  {
    var r := Reversed(bytes);
    assert Reversed(r) == bytes;
    ReversedValue(r);
    LeBytesOfValue(r);
  }

  lemma Opened(ctx: Context, f: seq<int>, z: seq<byte>, y: seq<byte>, proof: int, tau: int, d: Field)
    requires d.Valid() && Setup(ctx, tau, d) && !Cong(ctx.g2[0], 0, d.p) && f != []
    requires VerifyProof(ctx, Mod(Eval(f, tau), d.p), z, y, proof, d.p) == Kzg.Ok(true)
    ensures |z| == |y| == 32 && BeValue(z) < d.p && BeValue(y) < d.p
    ensures BeValue(y) == ClaimedValue(f, BeValue(z), d.p) || Reveals(f, BeValue(z), BeValue(y), proof, tau, d.p)
  {
    hide Mod, Eval, Inv, Accepts, Cong, Setup, ClaimedValue, ProofExponent, IsPrime, IsPowerOfTwo, TwoPow, Pow, BeValue;
    PrimeSize(d.p);
    FalseValueRevealsSecret(ctx, f, BeValue(z), BeValue(y), proof, tau, d);
  }

  /** The value of the manifest at a cell, also beyond the roots. */
  lemma CellValue(manifest: seq<byte>, roots: seq<seq<byte>>, i: nat, d: Field)
    requires d.Valid() && |manifest| == 32 * d.n && i < d.n && forall j :: 0 <= j < |roots| ==> |roots[j]| == 32
    requires manifest[32 * i..32 * i + 32] == ManifestCell(roots, i, d.p)
    ensures ClaimedValue(BlobPolynomial(manifest, d), BeValue(ZForCell(i, d)), d.p) == CellScalar(roots, i, d.p)
  {
    hide BeValue, Eval, Mod, Pow, TwoPow, IsPrime, IsPowerOfTwo, BlobPolynomial, ZForCell, ScalarOf, ScalarToBytes;
    if i < |roots| {
      ManifestValue(manifest, roots, i, d);
    } else {
      var zero: seq<byte> := seq(32, _ => 0);
      var more := seq(i + 1, j => zero);
      ZeroScalar(d.p);
      PrimeSize(d.p);
      ManifestValue(manifest, more, i, d);
    }
  }

  lemma {:induction false} ZeroValue(n: nat)
    ensures BeValue(Zeros(n)) == 0
  {
    if n > 0 {
      ZeroValue(n - 1);
      assert Zeros(n)[..n - 1] == Zeros(n - 1);
    }
  }

  /** Zero bytes are the encoding of zero. */
  lemma ZeroScalar(p: nat)
    requires p > 0
    ensures ScalarOf(seq(32, _ => 0), p) == 0 && ScalarToBytes(0) == seq(32, _ => 0)
  {
    hide BeValue;
    var zero: seq<byte> := seq(32, _ => 0);
    assert zero == Zeros(32);
    ZeroValue(32);
    CanonicalBytes(zero);
  }

  /** The first hop: the root is the one in its cell, reduced, or the secret is given away. */
  lemma FirstHop(ctx: Context, manifest: seq<byte>, roots: seq<seq<byte>>, root: seq<byte>, index: nat, proof: int,
                 d: Field, tau: int)
    requires d.Valid() && Setup(ctx, tau, d) && !Cong(ctx.g2[0], 0, d.p)
    requires |manifest| == 32 * d.n && forall j :: 0 <= j < |roots| ==> |roots[j]| == 32
    requires forall i :: 0 <= i < d.n ==> manifest[32 * i..32 * i + 32] == ManifestCell(roots, i, d.p)
    requires VerifyManifestInclusion(ctx, Mod(Eval(BlobPolynomial(manifest, d), tau), d.p), root, index, proof, d)
      == Kzg.Ok(true)
    ensures index < d.n && |root| == 32
    ensures ScalarOf(root, d.p) == CellScalar(roots, index, d.p) ||
      Reveals(BlobPolynomial(manifest, d), BeValue(ZForCell(index, d)), ScalarOf(root, d.p), proof, tau, d.p)
  {
    hide BeValue, Eval, Mod, Pow, TwoPow, IsPrime, IsPowerOfTwo, BlobPolynomial, ZForCell, ScalarOf, ScalarToBytes,
         Setup, Cong, VerifyProof, ManifestCell, CellScalar, ClaimedValue, Reveals;
    PrimeSize(d.p);
    ScalarBelow(root, d.p);
    ScalarBytesValue(ScalarOf(root, d.p), d.p);
    Opened(ctx, BlobPolynomial(manifest, d), ZForCell(index, d), ScalarToBytes(ScalarOf(root, d.p)), proof, tau, d);
    CellValue(manifest, roots, index, d);
  }

  /** The tree's root is the hash of a pair of nodes, or its one leaf. */
  lemma RootIsHash(hash: HashFunction, leaves: seq<seq<byte>>) returns (pair: seq<byte>)
    requires HashSize(hash) && Nodes(leaves) && |leaves| > 1
    ensures |pair| == 2 * NODE_SIZE && hash(pair) == TreeRoot(hash, leaves)
  {
    hide TreeRoot;
    var k := LeftSize(|leaves|);
    TreeRootSize(hash, leaves[..k]);
    TreeRootSize(hash, leaves[k..]);
    Split(hash, leaves, k);
    pair := TreeRoot(hash, leaves[..k]) + TreeRoot(hash, leaves[k..]);
  }

  /** So is the node that a path leads to. */
  lemma {:induction false} ReachedIsHash(hash: HashFunction, h: seq<byte>, idx: nat, width: nat, path: seq<seq<byte>>)
      returns (pair: seq<byte>)
    requires HashSize(hash) && |h| == NODE_SIZE && Nodes(path) && idx < width && width > 1
    requires FoldWidth(hash, h, idx, width, path).Reached?
    ensures |pair| == 2 * NODE_SIZE && FoldWidth(hash, h, idx, width, path) == Reached(hash(pair))
    decreases width
  {
    var half := (width + 1) / 2;
    if idx % 2 == 0 && idx + 1 == width {
      pair := ReachedIsHash(hash, h, idx / 2, half, path);
    } else if half == 1 {
      pair := if idx % 2 == 0 then h + path[0] else path[0] + h;
    } else {
      pair := ReachedIsHash(hash, Parent(hash, h, path[0], idx), idx / 2, half, path[1..]);
    }
  }

  /** Two roots that reduce to one scalar: the same leaf, or the hash clashes. */
  lemma SecondHop(hash: HashFunction, flat: seq<byte>, leaf: nat, leafCount: nat, commitment: seq<byte>,
                  path: seq<seq<byte>>, root: seq<byte>, p: nat)
    requires p > 0 && HashSize(hash) && leaf < leafCount && |flat| == leafCount * COMMITMENT_BYTES
    requires |commitment| == COMMITMENT_BYTES && Nodes(path)
    requires FoldWidth(hash, hash(commitment), leaf, leafCount, path) == Reached(root)
    requires ScalarOf(root, p) == ScalarOf(RootOf(hash, flat), p)
    ensures LeafAt(leaf, |flat|, leafCount)
    ensures commitment == flat[leaf * COMMITMENT_BYTES..leaf * COMMITMENT_BYTES + COMMITMENT_BYTES] || Clash(hash, p)
  {
    hide FoldWidth, TreeRoot, PathOf, ScalarOf, Clash, Collision;
    LeafInside(leaf, leafCount);
    var own := flat[leaf * COMMITMENT_BYTES..leaf * COMMITMENT_BYTES + COMMITMENT_BYTES];
    var leaves := Leaves(hash, flat);
    assert leaves[leaf] == hash(own);
    if commitment != own {
      if hash(commitment) == hash(own) {
        ClashFrom(hash, commitment, own, p);
      } else if root == RootOf(hash, flat) {
        PathLeadsToRoot(hash, leaves, leaf);
        PathNodes(hash, leaves, leaf);
        WidthBinding(hash, hash(commitment), hash(own), leaf, leafCount, path, PathOf(hash, leaves, leaf));
        CollisionClashes(hash, p);
      } else if leafCount == 1 {
        OneLeaf(hash, leaves, hash(commitment), leaf, path);
        ClashFrom(hash, commitment, own, p);
      } else {
        var a := RootIsHash(hash, leaves);
        var b := ReachedIsHash(hash, hash(commitment), leaf, leafCount, path);
        ClashFrom(hash, a, b, p);
      }
    }
  }

  lemma LeafInside(leaf: nat, leafCount: nat)
    requires leaf < leafCount
    ensures LeafAt(leaf, leafCount * COMMITMENT_BYTES, leafCount)
  {
  }

  lemma OneLeaf(hash: HashFunction, leaves: seq<seq<byte>>, h: seq<byte>, idx: nat, path: seq<seq<byte>>)
    requires |leaves| == 1 && idx == 0 && FoldWidth(hash, h, idx, 1, path).Reached?
    ensures TreeRoot(hash, leaves) == leaves[0] && FoldWidth(hash, h, idx, 1, path) == Reached(h)
  {
  }

  /** The siblings on a path are nodes. */
  lemma {:induction false} PathNodes(hash: HashFunction, level: seq<seq<byte>>, idx: nat)
    requires HashSize(hash) && Nodes(level) && idx < |level|
    ensures Nodes(PathOf(hash, level, idx))
    decreases |level|
  {
    if |level| > 1 {
      PathNodes(hash, Up(hash, level), idx / 2);
    }
  }

  /** The commitment of a blob opens only to the values of that blob, or the secret is given away. */
  lemma ThirdHop(ctx: Context, pts: Points, blob: seq<byte>, z: seq<byte>, y: seq<byte>, proof: int, d: Field, tau: int)
    requires d.Valid() && Setup(ctx, tau, d) && !Cong(ctx.g2[0], 0, d.p) && PointLaw(pts, d.p) && |blob| == 32 * d.n
    requires var c := pts.unpack(Commitment(blob, pts, d, tau));
      c.Some? && VerifyProof(ctx, c.value, z, y, proof, d.p) == Kzg.Ok(true)
    ensures |z| == 32 && BeValue(z) < d.p && |y| == 32
    ensures y == ScalarToBytes(ClaimedValue(BlobPolynomial(blob, d), BeValue(z), d.p)) ||
      Reveals(BlobPolynomial(blob, d), BeValue(z), BeValue(y), proof, tau, d.p)
  {
    hide Mod, Eval, Pow, BeValue, Setup, TwoPow, BlobPolynomial, VerifyProof, ClaimedValue, Reveals, ScalarToBytes,
         Cong, IsPrime, IsPowerOfTwo;
    PrimeSize(d.p);
    var f := BlobPolynomial(blob, d);
    ModRange(Eval(f, tau), d.p);
    assert pts.unpack(pts.pack(Mod(Eval(f, tau), d.p))) == Some(Mod(Eval(f, tau), d.p));
    Opened(ctx, f, z, y, proof, tau, d);
    CanonicalBytes(y);
  }

  lemma ModRange(x: int, p: nat)
    requires p > 0
    ensures 0 <= Mod(x, p) < p
  {
  }

  // ----- all of them -----

  /** An accepted chain against the manifest of some roots, whoever made it: its MDU has a cell, and its root is the one
      there, reduced, or the secret is given away. */
  lemma AcceptedCell(c: Chained, manifest: seq<byte>, roots: seq<seq<byte>>, leafCount: nat, ctx: Context,
                     hash: HashFunction, pts: Points, d: Field, tau: int)
    requires d.Valid() && Setup(ctx, tau, d) && !Cong(ctx.g2[0], 0, d.p)
    requires |manifest| == 32 * d.n && forall j :: 0 <= j < |roots| ==> |roots[j]| == 32
    requires forall i :: 0 <= i < d.n ==> manifest[32 * i..32 * i + 32] == ManifestCell(roots, i, d.p)
    requires VerifyChained(ctx, hash, pts, d, Mod(Eval(BlobPolynomial(manifest, d), tau), d.p), c, leafCount)
      == Kzg.Ok(true)
    ensures c.mduIndex < d.n && |c.mduRoot| == 32
    ensures ScalarOf(c.mduRoot, d.p) == CellScalar(roots, c.mduIndex, d.p) ||
      Reveals(BlobPolynomial(manifest, d), BeValue(ZForCell(c.mduIndex, d)), ScalarOf(c.mduRoot, d.p),
              c.manifestOpening, tau, d.p)
  {
    hide BeValue, Eval, Mod, Pow, TwoPow, IsPrime, IsPowerOfTwo, BlobPolynomial, ZForCell, ScalarOf, ScalarToBytes,
         Setup, Cong, VerifyProof, VerifyManifestInclusion, ManifestCell, CellScalar, Reveals, FoldWidth;
    FirstHop(ctx, manifest, roots, c.mduRoot, c.mduIndex, c.manifestOpening, d, tau);
  }

  /** When its root is that of some witness bytes, reduced: its commitment is the one at its leaf, or the hash clashes;
      and when that is the commitment of some blob, its value is that of the blob, or the secret is given away. */
  lemma AcceptedValue(c: Chained, flat: seq<byte>, blob: seq<byte>, manifest: int, leafCount: nat, ctx: Context,
                      hash: HashFunction, pts: Points, d: Field, tau: int)
    requires d.Valid() && Setup(ctx, tau, d) && !Cong(ctx.g2[0], 0, d.p) && PointLaw(pts, d.p) && HashSize(hash)
    requires Shaped(c) && manifest >= 0 && |flat| == leafCount * COMMITMENT_BYTES && |blob| == 32 * d.n
    requires VerifyChained(ctx, hash, pts, d, manifest, c, leafCount) == Kzg.Ok(true)
    requires ScalarOf(c.mduRoot, d.p) == ScalarOf(RootOf(hash, flat), d.p)
    ensures c.leaf < leafCount && LeafAt(c.leaf, |flat|, leafCount)
    ensures c.blobCommitment == flat[c.leaf * COMMITMENT_BYTES..c.leaf * COMMITMENT_BYTES + COMMITMENT_BYTES] ||
      Clash(hash, d.p)
    ensures c.blobCommitment == Commitment(blob, pts, d, tau) ==>
      |c.z| == 32 && BeValue(c.z) < d.p &&
      (c.y == ScalarToBytes(ClaimedValue(BlobPolynomial(blob, d), BeValue(c.z), d.p)) ||
       Reveals(BlobPolynomial(blob, d), BeValue(c.z), BeValue(c.y), c.opening, tau, d.p))
  {
    hide BeValue, Eval, Mod, Pow, TwoPow, IsPrime, IsPowerOfTwo, BlobPolynomial, ScalarOf, ScalarToBytes, Setup, Cong,
         VerifyProof, VerifyManifestInclusion, Reveals, FoldWidth, RootOf, Clash, ClaimedValue, Commitment, LeafAt,
         PointLaw, HashSize;
    PrimeSize(d.p);
    SecondHop(hash, flat, c.leaf, leafCount, c.blobCommitment, c.path, c.mduRoot, d.p);
    if c.blobCommitment == Commitment(blob, pts, d, tau) {
      ThirdHop(ctx, pts, blob, c.z, c.y, c.opening, d, tau);
    }
  }

  /** Whatever the manifest and the commitment, a chain is accepted for one value of the blob only. */
  lemma ChangedValueRefused(c: Chained, y: seq<byte>, manifest: nat, leafCount: nat, ctx: Context, hash: HashFunction,
                            pts: Points, d: Field, tau: int)
    requires d.Valid() && Setup(ctx, tau, d) && !Cong(ctx.g2[0], 0, d.p) && y != c.y
    requires VerifyChained(ctx, hash, pts, d, manifest, c, leafCount) == Kzg.Ok(true)
    ensures VerifyChained(ctx, hash, pts, d, manifest, c.(y := y), leafCount) != Kzg.Ok(true)
  {
    hide BeValue, Pow, TwoPow, IsPrime, IsPowerOfTwo, Setup, Cong, VerifyManifestInclusion, FoldWidth, Accepts,
         ScalarToBytes;
    var r := VerifyChained(ctx, hash, pts, d, manifest, c.(y := y), leafCount);
    if r == Kzg.Ok(true) {
      PrimeSize(d.p);
      var commitment := pts.unpack(c.blobCommitment).value;
      OneProofOneValue(ctx, commitment, BeValue(c.z), BeValue(c.y), BeValue(y), c.opening, tau, d);
      CanonicalBytes(c.y);
      CanonicalBytes(y);
    }
  }

  /** The check answers rather than fails, unless root and path are right and commitment, point or value are no valid
      encodings. */
  lemma WhenItFails(c: Chained, manifest: nat, leafCount: nat, ctx: Context, hash: HashFunction, pts: Points, d: Field,
                    tau: int)
    requires d.Valid() && Setup(ctx, tau, d) && Shaped(c)
    ensures VerifyChained(ctx, hash, pts, d, manifest, c, leafCount).Err? <==>
      VerifyManifestInclusion(ctx, manifest, c.mduRoot, c.mduIndex, c.manifestOpening, d) == Kzg.Ok(true) &&
      c.leaf < leafCount &&
      FoldWidth(hash, hash(c.blobCommitment), c.leaf, leafCount, c.path) == Reached(c.mduRoot) &&
      (pts.unpack(c.blobCommitment).None? || |c.z| != 32 || |c.y| != 32 || BeValue(c.z) >= d.p || BeValue(c.y) >= d.p)
  {
    hide BeValue, Pow, TwoPow, IsPrime, IsPowerOfTwo, Cong, FoldWidth, Accepts, ScalarToBytes, ScalarOf, LagrangePoints,
         Powers;
    PrimeSize(d.p);
    CellPoint(c.mduIndex, d);
    ScalarBelow(c.mduRoot, d.p);
    ScalarBytesValue(ScalarOf(c.mduRoot, d.p), d.p);
  }

  // ----- chains for a slab -----

  /** The blob behind a leaf: the row of a slot, of which the data slots hold the MDU's own blobs. */
  function LeafBlob(mdu: seq<byte>, code: Code, leaf: nat): (b: seq<byte>)
    requires |mdu| == MDU_SIZE && ValidParams(code.k, code.m) && Lawful(code) && leaf < LeafCount(code)
    ensures |b| == BLOB_SIZE
  {
    LeafCell(code.k, code.m, leaf);
    ShardBlob(mdu, code, leaf / Rows(code.k), leaf % Rows(code.k))
  }

  /** The leaf of blob b has blob b behind it. */
  lemma LeafBlobIs(mdu: seq<byte>, code: Code, stripe: StripeParams, b: nat)
    requires |mdu| == MDU_SIZE && ValidParams(code.k, code.m) && Lawful(code) && b < BLOBS_PER_MDU
    requires ValidStripe(stripe) && stripe.mode == 2 && stripe.k == code.k && stripe.m == code.m
    requires stripe.rows == Rows(code.k)
    ensures LeafIndexForBlobIndex(b, stripe) < LeafCount(code)
    ensures LeafBlob(mdu, code, LeafIndexForBlobIndex(b, stripe)) == mdu[b * BLOB_SIZE..(b + 1) * BLOB_SIZE]
  {
    hide Lawful, Codeword, Rows, ShardBlob;
    LeafOfBlob(b, stripe);
    BlobCell(b, stripe);
    MoreSlots(code.k, code.m, stripe.rows);
    NonNegative(b % code.k, code.k, stripe.rows);
    DivUnique(b % code.k * stripe.rows + b / code.k, stripe.rows, b % code.k, b / code.k);
    DataBlob(mdu, code, b % code.k, b / code.k);
  }

  /** Every leaf of the witness bytes is the commitment of its blob. */
  lemma LeafCommits(mdu: seq<byte>, s: Scheme, leaf: nat)
    requires ValidScheme(s) && |mdu| == MDU_SIZE && leaf < LeafCount(s.code)
    ensures |Flat(mdu, s)| == LeafCount(s.code) * COMMITMENT_BYTES && LeafAt(leaf, |Flat(mdu, s)|, LeafCount(s.code))
    ensures Flat(mdu, s)[leaf * COMMITMENT_BYTES..leaf * COMMITMENT_BYTES + COMMITMENT_BYTES]
      == s.commit(LeafBlob(mdu, s.code, leaf))
  {
    hide ValidScheme, Concat, Lawful, ShardBlob, Rows;
    SchemeFacts(s);
    LeafInside(leaf, LeafCount(s.code));
    WitnessSizes(mdu, s);
    ConcatPart(Witness(mdu, s.code, s.commit), COMMITMENT_BYTES, leaf);
  }

  /** The chain tells the value of the blob behind its leaf. */
  ghost predicate Tells(c: Chained, mdu: seq<byte>, code: Code, d: Field)
    requires d.p >= 2 && d.n == 4096
    requires |mdu| == MDU_SIZE && ValidParams(code.k, code.m) && Lawful(code) && c.leaf < LeafCount(code)
  {
    |c.z| == 32 && BeValue(c.z) < d.p &&
    c.y == ScalarToBytes(ClaimedValue(BlobPolynomial(LeafBlob(mdu, code, c.leaf), d), BeValue(c.z), d.p))
  }

  /** A chain was forged: a manifest or blob opening gives the secret away, or the hash clashes. */
  ghost predicate Forged(c: Chained, manifest: seq<byte>, mdu: seq<byte>, code: Code, hash: HashFunction, d: Field,
                         tau: int)
    requires d.p >= 2 && d.n == 4096 && |manifest| == 32 * d.n
    requires |mdu| == MDU_SIZE && ValidParams(code.k, code.m) && Lawful(code) && c.leaf < LeafCount(code)
  {
    Clash(hash, d.p) ||
    Reveals(BlobPolynomial(manifest, d), BeValue(ZForCell(c.mduIndex, d)), ScalarOf(c.mduRoot, d.p), c.manifestOpening,
            tau, d.p) ||
    Reveals(BlobPolynomial(LeafBlob(mdu, code, c.leaf), d), BeValue(c.z), BeValue(c.y), c.opening, tau, d.p)
  }

  /** Any chain for a user MDU of a slab that is accepted tells the value of the blob behind its leaf, or was forged. */
  lemma AcceptedTells(c: Chained, manifest: seq<byte>, u: nat, dir: SlabLayout.Dir, content: Content, s: Scheme,
                      ctx: Context, hash: HashFunction, pts: Points, d: Field, tau: int)
    requires d.Valid() && d.n == 4096 && Setup(ctx, tau, d) && !Cong(ctx.g2[0], 0, d.p)
    requires HashSize(hash) && PointLaw(pts, d.p)
    requires ValidScheme(s) && s == SchemeOf(s.code, s.isText, hash, pts, d, tau)
    requires IsSlabOf(dir, content, s) && AllMdus(content.user) && Right(content, s) && u < |content.user|
    requires |manifest| == 32 * d.n
    requires forall i :: 0 <= i < d.n ==>
      manifest[32 * i..32 * i + 32] == ManifestCell(ManifestRoots(dir, content, s), i, d.p)
    requires Shaped(c) && c.mduIndex == 1 + WitnessCount(|content.user|, s.code) + u
    requires VerifyChained(ctx, hash, pts, d, Mod(Eval(BlobPolynomial(manifest, d), tau), d.p), c, LeafCount(s.code))
      == Kzg.Ok(true)
    ensures c.mduIndex < d.n && c.leaf < LeafCount(s.code)
    ensures Tells(c, content.user[u], s.code, d) || Forged(c, manifest, content.user[u], s.code, hash, d, tau)
  {
    hide Mod, Eval, BlobPolynomial, RootOf, HashSize, Flat, WitnessCount, IsSlabOf, Right, ManifestRoots, Lawful, Setup,
         LeafCount, LeafBlob, Commitment, BlobCommitments, Reveals, Clash, FoldWidth, VerifyManifestInclusion,
         VerifyProof, BeValue, ScalarOf, ScalarToBytes, ClaimedValue, Cong, PointLaw, IsPrime, IsPowerOfTwo, TwoPow,
         Pow, ZForCell, ManifestCell, Rows, LeafAt;
    FieldSize(d);
    SchemeFacts(s);
    var roots, mdu, leafCount := ManifestRoots(dir, content, s), content.user[u], LeafCount(s.code);
    RootInManifest(dir, content, s, u);
    AcceptedCell(c, manifest, roots, leafCount, ctx, hash, pts, d, tau);
    if !Forged(c, manifest, mdu, s.code, hash, d, tau) {
      LeafCommits(mdu, s, c.leaf);
      ModRange(Eval(BlobPolynomial(manifest, d), tau), d.p);
      AcceptedValue(c, Flat(mdu, s), LeafBlob(mdu, s.code, c.leaf), Mod(Eval(BlobPolynomial(manifest, d), tau), d.p),
                    leafCount, ctx, hash, pts, d, tau);
    }
  }

  /** The manifest of a slab, its commitment, and the check of a chain that anybody may have made. */
  method CheckForSlab(roots: seq<seq<byte>>, c: Chained, code: Code, ctx: Context, hash: HashFunction, pts: Points,
                      d: Field, ghost tau: int, ghost s: Scheme, ghost dir: SlabLayout.Dir, ghost content: Content)
      returns (manifest: seq<byte>, accepted: Kzg.Result<bool>)
    requires d.Valid() && d.n == 4096 && Setup(ctx, tau, d) && !Cong(ctx.g2[0], 0, d.p)
    requires HashSize(hash) && PointLaw(pts, d.p) && ValidScheme(s) && s == SchemeOf(code, s.isText, hash, pts, d, tau)
    requires IsSlabOf(dir, content, s) && AllMdus(content.user) && Right(content, s)
    requires roots == ManifestRoots(dir, content, s) && Shaped(c)
    ensures |manifest| == 32 * d.n && forall i :: 0 <= i < d.n ==>
      manifest[32 * i..32 * i + 32] == ManifestCell(roots, i, d.p)
    ensures accepted == Kzg.Ok(true) ==> c.mduIndex < d.n && c.leaf < LeafCount(code)
    ensures var u := c.mduIndex - 1 - WitnessCount(|content.user|, code);
      accepted == Kzg.Ok(true) && 0 <= u < |content.user| ==>
        Tells(c, content.user[u], code, d) || Forged(c, manifest, content.user[u], code, hash, d, tau)
  {
    hide Mod, Eval, BlobPolynomial, RootOf, HashSize, WitnessCount, IsSlabOf, Right, ManifestRoots, Lawful, Setup,
         LeafCount, Commitment, BlobCommitments, FoldWidth, VerifyManifestInclusion, VerifyProof, BeValue, ScalarOf,
         ScalarToBytes, Cong, PointLaw, IsPrime, IsPowerOfTwo, TwoPow, Pow, ZForCell, ManifestCell, Rows, Tells, Forged;
    FieldSize(d);
    SchemeFacts(s);
    RootSizes(dir, content, s);
    manifest := ManifestBlob(roots, d);
    var commitment := BlobToCommitment(ctx, manifest, d, tau);
    accepted := VerifyChained(ctx, hash, pts, d, commitment.value, c, LeafCount(code));
    if accepted == Kzg.Ok(true) {
      AcceptedCell(c, manifest, roots, LeafCount(code), ctx, hash, pts, d, tau);
      ghost var u := c.mduIndex - 1 - WitnessCount(|content.user|, code);
      if 0 <= u < |content.user| {
        AcceptedTells(c, manifest, u, dir, content, s, ctx, hash, pts, d, tau);
      }
    }
  }
}
