/** The proof of one blob of a deal in three hops: the root of its MDU is in the manifest, its commitment is a
    leaf under that root, and its polynomial takes the claimed value. Commitments and roots, which a slab
    leaves open, are those of the commitment scheme and of the tree over hashed commitments here. */
module ChainedProof {
  import opened Residue
  import opened Poly
  import opened Prime
  import opened BitReverse
  import opened Bytes
  import opened Codec
  import opened StripeIndex
  import opened ErasureCode
  import ReedSolomon
  import opened Stripe
  import opened ExpandFlat
  import opened Mdu0
  import opened Reader
  import opened SlabLayout
  import opened SlabIngest
  import opened SlabIndex
  import opened SlabAppend
  import opened SlabHistory
  import opened SlabRead
  import opened Reconstruct
  import opened SlabWitness
  import opened SessionMerkle
  import opened WitnessMerkle
  import opened WitnessRead
  import opened Kzg
  import opened KzgProof
  import opened KzgScheme

  // ----- commitments and roots -----

  /** Group elements, given by their exponents, as 48 bytes and back. */
  datatype Points = Points(pack: nat -> seq<byte>, unpack: seq<byte> -> Option<nat>)

  ghost predicate PointLaw(pts: Points, p: nat) {
    (forall x: nat :: |pts.pack(x)| == COMMITMENT_BYTES) &&
    (forall x: nat :: x < p ==> pts.unpack(pts.pack(x)) == Some(x)) &&
    (forall b :: pts.unpack(b).Some? ==> pts.unpack(b).value < p)
  }

  /** The commitment of a blob. */
  ghost function Commitment(blob: seq<byte>, pts: Points, d: Field, tau: int): seq<byte>
    requires d.p >= 2
  {
    pts.pack(if |blob| == 32 * d.n then Mod(Eval(BlobPolynomial(blob, d), tau), d.p) else 0)
  }

  /** The leaves of a tree over commitments: their hashes. */
  function Leaves(hash: HashFunction, flat: seq<byte>): (l: seq<seq<byte>>)
    ensures |l| == |flat| / COMMITMENT_BYTES
  {
    seq(|flat| / COMMITMENT_BYTES, i requires 0 <= i < |flat| / COMMITMENT_BYTES =>
      hash(flat[i * COMMITMENT_BYTES..i * COMMITMENT_BYTES + COMMITMENT_BYTES]))
  }

  /** create_mdu_merkle_root on concatenated commitments */
  function RootOf(hash: HashFunction, flat: seq<byte>): seq<byte> {
    if |flat| < COMMITMENT_BYTES then ZeroRoot() else TreeRoot(hash, Leaves(hash, flat))
  }

  /** The concatenated commitments of the blobs of an MDU. */
  ghost function BlobCommitments(mdu: seq<byte>, pts: Points, d: Field, tau: int): seq<byte>
    requires d.p >= 2
  {
    if |mdu| != MDU_SIZE then []
    else Concat(seq(BLOBS_PER_MDU, b requires 0 <= b < BLOBS_PER_MDU =>
                  Commitment(mdu[b * BLOB_SIZE..(b + 1) * BLOB_SIZE], pts, d, tau)))
  }

  /** What a slab leaves open, filled in. */
  ghost function SchemeOf(code: Code, isText: seq<byte> -> bool, hash: HashFunction, pts: Points, d: Field, tau: int)
      : (s: Scheme)
    requires d.p >= 2
    ensures s.code == code && s.isText == isText
  {
    Scheme(code, blob => Commitment(blob, pts, d, tau), flat => RootOf(hash, flat),
           mdu => RootOf(hash, BlobCommitments(mdu, pts, d, tau)), isText)
  }

  lemma {:induction false} TreeRootSize(hash: HashFunction, leaves: seq<seq<byte>>)
    requires HashSize(hash) && leaves != [] && Nodes(leaves)
    ensures |TreeRoot(hash, leaves)| == NODE_SIZE
    decreases |leaves|
  {
  }

  lemma RootSize(hash: HashFunction, flat: seq<byte>)
    requires HashSize(hash)
    ensures |RootOf(hash, flat)| == ROOT_SIZE
  {
    if |flat| >= COMMITMENT_BYTES {
      TreeRootSize(hash, Leaves(hash, flat));
    }
  }

  lemma SchemeIsValid(code: Code, isText: seq<byte> -> bool, hash: HashFunction, pts: Points, d: Field, tau: int)
    requires d.p >= 2 && Lawful(code) && ValidParams(code.k, code.m) && HashSize(hash) && PointLaw(pts, d.p)
    ensures ValidScheme(SchemeOf(code, isText, hash, pts, d, tau))
  {
    hide Lawful, RootOf, BlobCommitments, Eval, BlobPolynomial, HashSize;
    var s := SchemeOf(code, isText, hash, pts, d, tau);
    forall b ensures |s.commit(b)| == COMMITMENT_BYTES {
      assert s.commit(b) == Commitment(b, pts, d, tau);
    }
    forall b ensures |s.userRoot(b)| == ROOT_SIZE && |s.mduRoot(b)| == ROOT_SIZE {
      RootSize(hash, b);
      RootSize(hash, BlobCommitments(b, pts, d, tau));
    }
  }

  /** A hash whose digests are never all zeros. */
  ghost predicate NeverZero(hash: HashFunction) {
    forall b :: hash(b) != ZeroRoot()
  }

  lemma {:induction false} TreeNeverZero(hash: HashFunction, leaves: seq<seq<byte>>)
    requires NeverZero(hash) && leaves != [] && forall i :: 0 <= i < |leaves| ==> leaves[i] != ZeroRoot()
    ensures TreeRoot(hash, leaves) != ZeroRoot()
  {
    hide ZeroRoot;
  }

  lemma RootNeverZero(hash: HashFunction, flat: seq<byte>)
    requires NeverZero(hash) && |flat| >= COMMITMENT_BYTES
    ensures RootOf(hash, flat) != ZeroRoot()
  {
    hide ZeroRoot, TreeRoot;
    TreeNeverZero(hash, Leaves(hash, flat));
  }

  lemma BlobCommitmentsSize(mdu: seq<byte>, pts: Points, d: Field, tau: int)
    requires d.p >= 2 && PointLaw(pts, d.p) && |mdu| == MDU_SIZE
    ensures |BlobCommitments(mdu, pts, d, tau)| == BLOBS_PER_MDU * COMMITMENT_BYTES
  {
    hide Eval, BlobPolynomial, Mod, Concat;
    var parts := seq(BLOBS_PER_MDU, b requires 0 <= b < BLOBS_PER_MDU =>
                       Commitment(mdu[b * BLOB_SIZE..(b + 1) * BLOB_SIZE], pts, d, tau));
    ConcatLength(parts, COMMITMENT_BYTES);
  }

  /** With these commitments and trees no root of any slab is zero. */
  lemma SlabRootsNonZero(c: Content, s: Scheme, hash: HashFunction, pts: Points, d: Field, tau: int)
    requires d.p >= 2 && ValidScheme(s) && s == SchemeOf(s.code, s.isText, hash, pts, d, tau) && PointLaw(pts, d.p)
    requires NeverZero(hash) && ValidContent(c, s)
    ensures NoZeroRoot(c, s)
  {
    hide Lawful, RootOf, ZeroRoot, Span, BlobCommitments, NeverZero, PointLaw, Encoded, WitnessCount, StretchOf;
    var w, n := WitnessCount(|c.user|, s.code), |c.user|;
    var ws, us := WitnessRoots(c.commitments, w, s), RootsOf(c.commitments, n, s);
    SpanPositive(s.code);
    forall i | 0 <= i < w ensures ws[i] != ZeroRoot() {
      var mdu := Encoded(WitnessPayload(c.commitments, i));
      BlobCommitmentsSize(mdu, pts, d, tau);
      RootNeverZero(hash, BlobCommitments(mdu, pts, d, tau));
      assert ws[i] == s.mduRoot(mdu);
    }
    forall i | 0 <= i < n ensures us[i] != ZeroRoot() {
      StretchSize(c.commitments, i, n, Span(s.code));
      RootNeverZero(hash, StretchOf(c.commitments, i, Span(s.code)));
      assert us[i] == s.userRoot(StretchOf(c.commitments, i, Span(s.code)));
    }
  }

  lemma StretchSize(bytes: seq<byte>, i: nat, n: nat, span: nat)
    requires i < n && |bytes| == n * span
    ensures |StretchOf(bytes, i, span)| == span
  {
    StretchInside(i, n, span);
  }

  lemma SpanPositive(c: Code)
    requires c.k > 0
    ensures ValidParams(c.k, c.m) ==> 0 < COMMITMENT_BYTES <= Span(c)
  {
  }

  /** So the inferred number of witness MDUs is the real one for such slabs exactly when the last file is not empty. */
  lemma InferredForReal(dir: Dir, files: seq<File>, f: File, s: Scheme, dirMdus: nat, hash: HashFunction, pts: Points,
                        d: Field, tau: int)
    requires d.p >= 2 && ValidScheme(s) && s == SchemeOf(s.code, s.isText, hash, pts, d, tau) && PointLaw(pts, d.p)
    requires NeverZero(hash) && IsSlab(dir, files + [f], s) && Name(f.path) != []
    ensures var w := WitnessCount(UserCount(files + [f]), s.code);
      WitnessesLeft(NonZeroRoots(RootTable(dir.mdus[0])), RecordedMdus(MaxEnd(Records(files + [f]))), dirMdus)
        == Known(if f.content == [] then w + 1 else w)
  {
    hide *;
    FilesContent(files + [f], s);
    SlabRootsNonZero(ContentOf(files + [f], s), s, hash, pts, d, tau);
    InferredIsReal(dir, files, f, s, dirMdus);
  }

  /** And every range of every file of such a slab is read back. */
  method FetchReal(dir: Dir, name: seq<byte>, rangeStart: nat, rangeLen: nat, sizes: seq<nat>, first: nat -> Source,
                   second: nat -> Source, s: Scheme, ghost hash: HashFunction, ghost pts: Points, ghost d: Field,
                   ghost tau: int, ghost c: Content, ghost files: seq<File>) returns (r: Fetched)
    requires d.p >= 2 && ValidScheme(s) && s == SchemeOf(s.code, s.isText, hash, pts, d, tau) && PointLaw(pts, d.p)
    requires NeverZero(hash) && IsSlabOf(dir, c, s) && Serves(c, files, s)
    requires name != [] && AllMdus(c.user) && AllHonest(first, second, c, s)
    ensures r == NotFound <==> !exists i :: 0 <= i < |files| && Name(files[i].path) == name
    ensures (exists i :: 0 <= i < |files| && Name(files[i].path) == name) ==>
      FetchedRight(r, c, files, LastNamed(files, name), rangeStart, rangeLen, sizes, dir, first, second, s)
  {
    hide *;
    ServesMeans(c, files, s);
    SlabRootsNonZero(c, s, hash, pts, d, tau);
    r := Fetch(dir, name, rangeStart, rangeLen, sizes, first, second, s, c, files);
  }

  /** Exponents as 48 bytes, lowest first. */
  function PlainPoints(p: nat): Points {
    Points(x => LeBytes(x, 48), b => if |b| == 48 && LeValue(b) < p then Some(LeValue(b)) else None)
  }

  lemma PlainLaw(p: nat)
    requires p <= TwoPow(256)
    ensures PointLaw(PlainPoints(p), p)
  {
    hide LeBytes, LeValue, TwoPow;
    var pts := PlainPoints(p);
    TwoPowMonotone(256, 384);
    forall x: nat | x < p ensures pts.unpack(pts.pack(x)) == Some(x) {
      LeRoundTrip(x, 48);
    }
  }

  /** All that a proof of a blob is asked to rest on can be had, for every secret: a field with 4096 points, a
      setup of either kind, a code of 8 + 4 shards, points and a hash of the right sizes. */
  lemma ProvableSetting(tau: int, isText: seq<byte> -> bool)
      returns (d: Field, powers: Context, lagrange: Context, hash: HashFunction, pts: Points, s: Scheme)
    ensures d.Valid() && d.n == 4096 && HashSize(hash) && NeverZero(hash) && PointLaw(pts, d.p)
    ensures Setup(powers, tau, d) && powers.monomial && Setup(lagrange, tau, d) && !lagrange.monomial
    ensures !Cong(powers.g2[0], 0, d.p) && !Cong(lagrange.g2[0], 0, d.p)
    ensures ValidScheme(s) && s == SchemeOf(s.code, isText, hash, pts, d, tau) && s.code.k == 8 && s.code.m == 4
  {
    hide Lawful, SchemeOf, PointLaw;
    BlobField();
    d := Field(12289, 4096, 1331);
    powers, lagrange := SetupsExist(tau, d);
    hash := b => seq(NODE_SIZE, _ => 1);
    pts := PlainPoints(d.p);
    PlainLaw(d.p);
    ReedSolomon.RsIsLawful(8, 4);
    SchemeIsValid(ReedSolomon.RsCode(8, 4), isText, hash, pts, d, tau);
    s := SchemeOf(ReedSolomon.RsCode(8, 4), isText, hash, pts, d, tau);
    ReducedMod(1, d.p);
    ReducedMod(0, d.p);
  }

  // ----- making and checking a proof -----

  datatype Chained = Chained(mduIndex: nat, mduRoot: seq<byte>, manifestOpening: nat, blobCommitment: seq<byte>,
                             path: seq<seq<byte>>, leaf: nat, z: seq<byte>, y: seq<byte>, opening: nat)

  /** nil_verify_chained_proof */
  function VerifyChained(ctx: Context, hash: HashFunction, pts: Points, d: Field, manifest: nat, c: Chained,
                         leafCount: nat): Kzg.Result<bool>
    requires d.p > 0
  {
    var first := VerifyManifestInclusion(ctx, manifest, c.mduRoot, c.mduIndex, c.manifestOpening, d);
    if first != Kzg.Ok(true) then first
    else if c.leaf >= leafCount then Kzg.Ok(false)
    else if FoldWidth(hash, hash(c.blobCommitment), c.leaf, leafCount, c.path) != Reached(c.mduRoot) then Kzg.Ok(false)
    else match pts.unpack(c.blobCommitment)
      case None => Kzg.Err(Fft.Internal)
      case Some(commitment) => VerifyProof(ctx, commitment, c.z, c.y, c.opening, d.p)
  }

  /** What the honest proof for given witness bytes consists of. */
  ghost predicate ProofFor(c: Chained, flat: seq<byte>, leaf: nat, blob: seq<byte>, z: seq<byte>, manifest: seq<byte>,
                           index: nat, ctx: Context, hash: HashFunction, d: Field, tau: int)
    requires d.p >= 2 && d.n > 0 && |blob| == |manifest| == 32 * d.n
    requires leaf * COMMITMENT_BYTES + COMMITMENT_BYTES <= |flat|
  {
    var m, f := BlobPolynomial(manifest, d), BlobPolynomial(blob, d);
    c.mduIndex == index && c.mduRoot == RootOf(hash, flat) &&
    c.manifestOpening == ProofExponent(m, BeValue(ZForCell(index, d)), tau, d.p) &&
    c.blobCommitment == flat[leaf * COMMITMENT_BYTES..leaf * COMMITMENT_BYTES + COMMITMENT_BYTES] &&
    c.leaf == leaf && c.z == z &&
    FoldWidth(hash, hash(c.blobCommitment), leaf, |flat| / COMMITMENT_BYTES, c.path) == Reached(c.mduRoot) &&
    c.y == ScalarToBytes(ClaimedValue(f, BeValue(z), d.p)) && c.opening == ProofExponent(f, BeValue(z), tau, d.p)
  }

  /** generateProofHeaderJSON, from the witness bytes that were read on. */
  method MakeProof(ctx: Context, hash: HashFunction, d: Field, flat: seq<byte>, leaf: nat, leafCount: nat,
                   blob: seq<byte>, z: seq<byte>, manifest: seq<byte>, index: nat, ghost tau: int)
      returns (r: Option<Chained>)
    requires d.Valid() && Setup(ctx, tau, d)
    ensures r.Some? <==>
      |flat| == leafCount * COMMITMENT_BYTES && leaf < leafCount && |blob| == |manifest| == 32 * d.n &&
      |z| == 32 && BeValue(z) < d.p
    ensures r.Some? ==> leaf * COMMITMENT_BYTES + COMMITMENT_BYTES <= |flat|
    ensures r.Some? ==> ProofFor(r.value, flat, leaf, blob, z, manifest, index, ctx, hash, d, tau)
  {
    hide Mod, Pow, TwoPow, Eval, BeValue, Setup, TreeRoot, FoldWidth, ProofExponent, ClaimedValue, BlobPolynomial;
    if |flat| != leafCount * COMMITMENT_BYTES || leaf >= leafCount {
      return None;
    }
    var from := leaf * COMMITMENT_BYTES;
    var commitment := flat[from..from + COMMITMENT_BYTES];
    var root, path := MerkleRootAndPath(hash, Leaves(hash, flat), leaf);
    var opening := ComputeProof(ctx, blob, z, d, tau);
    if opening.Err? {
      return None;
    }
    CellPoint(index, d);
    var inManifest := ComputeProof(ctx, manifest, ZForCell(index, d), d, tau);
    if inManifest.Err? {
      return None;
    }
    return Some(Chained(index, root, inManifest.value.0, commitment, path, leaf, z, opening.value.1, opening.value.0));
  }

  lemma CellPoint(index: nat, d: Field)
    requires d.Valid()
    ensures BeValue(ZForCell(index, d)) < d.p
  {
    hide Mod, Pow, BeValue;
    ScalarBytesValue(Mod(Pow(d.omega, index), d.p), d.p);
  }

  // ----- the three hops of a blob of a slab -----

  /** The first hop of the honest proof is accepted for a root exactly when it reduces to the one in the cell. */
  lemma ManifestHop(ctx: Context, manifest: seq<byte>, roots: seq<seq<byte>>, index: nat, root: seq<byte>, d: Field,
                    tau: int)
    requires d.Valid() && Setup(ctx, tau, d) && !Cong(ctx.g2[0], 0, d.p)
    requires |manifest| == 32 * d.n && index < |roots| && index < d.n && |root| == 32 && |roots[index]| == 32
    requires manifest[32 * index..32 * index + 32] == ManifestCell(roots, index, d.p)
    ensures var m := BlobPolynomial(manifest, d);
      VerifyManifestInclusion(ctx, Mod(Eval(m, tau), d.p), root, index,
                              ProofExponent(m, BeValue(ZForCell(index, d)), tau, d.p), d)
        == Kzg.Ok(ScalarOf(root, d.p) == ScalarOf(roots[index], d.p))
  {
    hide Mod, Eval, Pow, BeValue, Setup, TwoPow, ScalarOf, ScalarToBytes, ManifestCell, BlobPolynomial, Accepts,
         ProofExponent, IsPrime, IsPowerOfTwo, ZForCell;
    var m, cell, p := BlobPolynomial(manifest, d), ZForCell(index, d), d.p;
    PrimeSize(p);
    ManifestValue(manifest, roots, index, d);
    Completeness(ctx, m, cell, tau, d);
    var y, right := ScalarOf(root, p), ScalarOf(roots[index], p);
    ScalarBelow(root, p);
    ScalarBelow(roots[index], p);
    ScalarBytesValue(y, p);
    ScalarBytesValue(right, p);
    var c, proof := Mod(Eval(m, tau), p), ProofExponent(m, BeValue(cell), tau, p);
    if Accepts(ctx, c, BeValue(cell), y, proof, p) {
      OneProofOneValue(ctx, c, BeValue(cell), y, right, proof, tau, d);
    }
  }

  lemma ScalarBelow(chunk: seq<byte>, p: nat)
    requires p > 0
    ensures ScalarOf(chunk, p) < p
  {
    hide BeValue;
  }

  /** The third hop of the honest proof. */
  lemma BlobHop(ctx: Context, pts: Points, blob: seq<byte>, z: seq<byte>, d: Field, tau: int)
    requires d.Valid() && Setup(ctx, tau, d) && PointLaw(pts, d.p)
    requires |blob| == 32 * d.n && |z| == 32 && BeValue(z) < d.p
    ensures var f := BlobPolynomial(blob, d);
      var c := pts.unpack(Commitment(blob, pts, d, tau));
      c.Some? && VerifyProof(ctx, c.value, z, ScalarToBytes(ClaimedValue(f, BeValue(z), d.p)),
                             ProofExponent(f, BeValue(z), tau, d.p), d.p) == Kzg.Ok(true)
  {
    hide Mod, Eval, Pow, BeValue, Setup, TwoPow, BlobPolynomial, VerifyProof, ProofExponent, ClaimedValue;
    Completeness(ctx, BlobPolynomial(blob, d), z, tau, d);
  }

  /** The check of the honest proof for some witness bytes against the manifest of some roots. */
  lemma ChainChecked(c: Chained, flat: seq<byte>, leaf: nat, blob: seq<byte>, z: seq<byte>, manifest: seq<byte>,
                     roots: seq<seq<byte>>, index: nat, ctx: Context, hash: HashFunction, pts: Points, d: Field,
                     tau: int)
    requires d.Valid() && Setup(ctx, tau, d) && !Cong(ctx.g2[0], 0, d.p) && PointLaw(pts, d.p) && HashSize(hash)
    requires |blob| == |manifest| == 32 * d.n && leaf * COMMITMENT_BYTES + COMMITMENT_BYTES <= |flat|
    requires |z| == 32 && BeValue(z) < d.p && index < |roots| && |roots[index]| == 32
    requires index < d.n ==> manifest[32 * index..32 * index + 32] == ManifestCell(roots, index, d.p)
    requires ProofFor(c, flat, leaf, blob, z, manifest, index, ctx, hash, d, tau)
    ensures var manifestExponent := Mod(Eval(BlobPolynomial(manifest, d), tau), d.p);
      var r := VerifyChained(ctx, hash, pts, d, manifestExponent, c, |flat| / COMMITMENT_BYTES);
      (r == Kzg.Ok(true) ==> index < d.n && ScalarOf(RootOf(hash, flat), d.p) == ScalarOf(roots[index], d.p)) &&
      (RootOf(hash, flat) == roots[index] && c.blobCommitment == Commitment(blob, pts, d, tau) ==>
        r == Kzg.Ok(index < d.n))
  {
    hide Mod, Eval, Pow, BeValue, Setup, TwoPow, ScalarOf, ScalarToBytes, ManifestCell, BlobPolynomial, VerifyProof,
         ProofExponent, ClaimedValue, Commitment, IsPrime, IsPowerOfTwo, ZForCell, RootOf, FoldWidth, HashSize,
         PointLaw, Cong;
    PrimeSize(d.p);
    RootSize(hash, flat);
    BlobHop(ctx, pts, blob, z, d, tau);
    if index < d.n {
      hide VerifyManifestInclusion;
      ManifestHop(ctx, manifest, roots, index, RootOf(hash, flat), d, tau);
    }
  }

  /** The commitment of a blob is at its leaf of the witness bytes. */
  lemma LeafInFlat(mdu: seq<byte>, s: Scheme, b: nat, stripe: StripeParams)
    requires ValidScheme(s) && |mdu| == MDU_SIZE && b < BLOBS_PER_MDU
    requires ValidStripe(stripe) && stripe.mode == 2
    requires stripe.k == s.code.k && stripe.m == s.code.m && stripe.rows == Rows(s.code.k)
    ensures var leaf := LeafIndexForBlobIndex(b, stripe);
      leaf < LeafCount(s.code) && |Flat(mdu, s)| == LeafCount(s.code) * COMMITMENT_BYTES &&
      leaf * COMMITMENT_BYTES + COMMITMENT_BYTES <= |Flat(mdu, s)| &&
      Flat(mdu, s)[leaf * COMMITMENT_BYTES..leaf * COMMITMENT_BYTES + COMMITMENT_BYTES]
        == s.commit(mdu[b * BLOB_SIZE..(b + 1) * BLOB_SIZE])
  {
    hide ValidScheme, Concat, Witness, LeafIndexForBlobIndex, Lawful;
    SchemeFacts(s);
    LeafHoldsBlob(mdu, s.code, s.commit, stripe, b);
    WitnessSizes(mdu, s);
    ConcatPart(Witness(mdu, s.code, s.commit), COMMITMENT_BYTES, LeafIndexForBlobIndex(b, stripe));
  }

  lemma RootSizes(dir: Dir, c: Content, s: Scheme)
    requires ValidScheme(s)
    ensures var roots := ManifestRoots(dir, c, s); forall i :: 0 <= i < |roots| ==> |roots[i]| == ROOT_SIZE
  {
    hide Lawful, WitnessCount, StretchOf, Encoded, WitnessPayload;
    if 0 in dir.mdus {
      var w := WitnessCount(|c.user|, s.code);
      var ws, us := WitnessRoots(c.commitments, w, s), RootsOf(c.commitments, |c.user|, s);
      var roots := ManifestRoots(dir, c, s);
      assert roots == [s.mduRoot(dir.mdus[0])] + (ws + us);
      forall i | 0 <= i < |roots| ensures |roots[i]| == ROOT_SIZE {
        if 1 <= i < 1 + w {
          assert roots[i] == ws[i - 1] == s.mduRoot(Encoded(WitnessPayload(c.commitments, i - 1)));
        } else if i >= 1 + w {
          assert roots[i] == us[i - 1 - w] == s.userRoot(StretchOf(c.commitments, i - 1 - w, Span(s.code)));
        }
      }
    }
  }

  /** The roots of a slab: all of one size, and after MDU 0 and the witness MDUs those of the user MDUs. */
  lemma RootInManifest(dir: Dir, c: Content, s: Scheme, u: nat)
    requires ValidScheme(s) && IsSlabOf(dir, c, s) && AllMdus(c.user) && Right(c, s) && u < |c.user|
    ensures var roots, index := ManifestRoots(dir, c, s), 1 + WitnessCount(|c.user|, s.code) + u;
      (forall i :: 0 <= i < |roots| ==> |roots[i]| == ROOT_SIZE) &&
      index < |roots| && roots[index] == s.userRoot(Flat(c.user[u], s))
  {
    hide Mdu0Holds, WitnessStored, ShardsStored, Restored, WitnessBytes, Flat, WitnessCount, Encoded, Lawful, StretchOf,
         ShardsFrom;
    RootsOfMdus(c.user, s);
    RootSizes(dir, c, s);
    var w := WitnessCount(|c.user|, s.code);
    var ws, us := WitnessRoots(c.commitments, w, s), UserRoots(c.user, s);
    var roots := ManifestRoots(dir, c, s);
    assert roots == [s.mduRoot(dir.mdus[0])] + (ws + us);
    assert us[u] == s.userRoot(Flat(c.user[u], s));
  }

  /** What a slab says about a blob: the sizes, its commitment, and the root of its MDU. */
  lemma BlobOfSlab(dir: Dir, c: Content, s: Scheme, u: nat, b: nat, stripe: StripeParams, hash: HashFunction,
                   pts: Points, d: Field, tau: int)
    requires d.p >= 2 && d.n == 4096 && ValidScheme(s) && s == SchemeOf(s.code, s.isText, hash, pts, d, tau)
    requires IsSlabOf(dir, c, s) && AllMdus(c.user) && Right(c, s) && u < |c.user| && b < BLOBS_PER_MDU
    requires ValidStripe(stripe) && stripe.mode == 2
    requires stripe.k == s.code.k && stripe.m == s.code.m && stripe.rows == Rows(s.code.k)
    ensures var roots, index := ManifestRoots(dir, c, s), 1 + WitnessCount(|c.user|, s.code) + u;
      (forall i :: 0 <= i < |roots| ==> |roots[i]| == 32) &&
      index < |roots| && roots[index] == RootOf(hash, Flat(c.user[u], s))
    ensures |c.user[u]| == MDU_SIZE && 0 <= b * BLOB_SIZE <= (b + 1) * BLOB_SIZE <= MDU_SIZE
    ensures var blob, leaf := c.user[u][b * BLOB_SIZE..(b + 1) * BLOB_SIZE], LeafIndexForBlobIndex(b, stripe);
      var flat := Flat(c.user[u], s);
      |blob| == 32 * d.n && leaf < LeafCount(s.code) && LeafAt(leaf, Span(s.code), LeafCount(s.code)) &&
      LeafAt(leaf, |flat|, LeafCount(s.code)) &&
      flat[leaf * COMMITMENT_BYTES..leaf * COMMITMENT_BYTES + COMMITMENT_BYTES] == Commitment(blob, pts, d, tau)
  {
    hide Mod, Eval, BlobPolynomial, RootOf, HashSize, Flat, WitnessCount, LeafIndexForBlobIndex, IsSlabOf, Right,
         ManifestRoots, ValidStripe, Lawful, LeafCount, Rows, Commitment;
    RootInManifest(dir, c, s, u);
    LeafInFlat(c.user[u], s, b, stripe);
  }

  /** The bytes of a leaf among those of so many. */
  ghost predicate LeafAt(leaf: nat, size: nat, leafCount: nat) {
    size == leafCount * COMMITMENT_BYTES && size / COMMITMENT_BYTES == leafCount &&
    0 <= leaf * COMMITMENT_BYTES && leaf * COMMITMENT_BYTES + COMMITMENT_BYTES <= size
  }

  /** The three hops for blob b of user MDU u of a slab, from the manifest on. With the right witness bytes the
      proof is accepted exactly when the MDU has a cell in the manifest, which it may lack, as a root table has
      room for more roots than a manifest. And only with witness bytes whose root reduces to the right one. */
  method ProveBlob(roots: seq<seq<byte>>, w: nat, u: nat, b: nat, mdu: seq<byte>, flat: seq<byte>,
                   z: seq<byte>, stripe: StripeParams, code: Code, ctx: Context, hash: HashFunction, pts: Points,
                   d: Field, ghost tau: int, ghost s: Scheme, ghost dir: Dir, ghost c: Content)
      returns (accepted: Kzg.Result<bool>)
    requires d.Valid() && d.n == 4096 && Setup(ctx, tau, d) && !Cong(ctx.g2[0], 0, d.p)
    requires HashSize(hash) && PointLaw(pts, d.p) && ValidScheme(s) && s == SchemeOf(code, s.isText, hash, pts, d, tau)
    requires IsSlabOf(dir, c, s) && AllMdus(c.user) && Right(c, s) && roots == ManifestRoots(dir, c, s)
    requires w == WitnessCount(|c.user|, code) && u < |c.user| && mdu == c.user[u]
    requires ValidStripe(stripe) && stripe.mode == 2
    requires stripe.k == code.k && stripe.m == code.m && stripe.rows == Rows(code.k)
    requires b < BLOBS_PER_MDU && |z| == 32 && BeValue(z) < d.p && |flat| == Span(code)
    ensures flat == Flat(mdu, s) ==> accepted == Kzg.Ok(1 + w + u < d.n)
    ensures accepted == Kzg.Ok(true) ==>
      1 + w + u < d.n && ScalarOf(RootOf(hash, flat), d.p) == ScalarOf(RootOf(hash, Flat(mdu, s)), d.p)
  {
    hide *;
    FieldSize(d);
    SchemeParams(s);
    BlobOfSlab(dir, c, s, u, b, stripe, hash, pts, d, tau);
    var manifest := ManifestBlob(roots, d);
    var commitment := BlobToCommitment(ctx, manifest, d, tau);
    var leaf := LeafIndexForBlobIndex(b, stripe);
    var leafCount := LeafCount(code);
    var blob := mdu[b * BLOB_SIZE..(b + 1) * BLOB_SIZE];
    LeafAtIs(leaf, |flat|, leafCount);
    var proof := MakeProof(ctx, hash, d, flat, leaf, leafCount, blob, z, manifest, 1 + w + u, tau);
    ChainChecked(proof.value, flat, leaf, blob, z, manifest, roots, 1 + w + u, ctx, hash, pts, d, tau);
    ProofTakes(proof.value, flat, leaf, blob, z, manifest, 1 + w + u, ctx, hash, d, tau);
    accepted := VerifyChained(ctx, hash, pts, d, commitment.value, proof.value, leafCount);
  }

  lemma OneBuffer(n: nat)
    ensures Sum([n]) == n
  {
    assert [n][..0] == [];
  }

  /** What the reader delivers where it delivers the right bytes. */
  lemma ReadOfUser(dir: Dir, c: Content, s: Scheme, u: nat)
    requires ValidScheme(s) && IsSlabOf(dir, c, s) && AllMdus(c.user) && Right(c, s) && u < |c.user|
    ensures 0 < Span(s.code) && 0 <= u * Span(s.code)
    ensures WitnessFits(|c.user|, s.code) && LastAgrees(u * Span(s.code), Span(s.code), |c.user| * Span(s.code)) ==>
      1 + u * Span(s.code) / MDU_PAYLOAD_BYTES in dir.mdus &&
      Readable(Record(dir.mdus, 1, u * Span(s.code), Span(s.code)), 0, Span(s.code)) == Flat(c.user[u], s) &&
      |Flat(c.user[u], s)| == Span(s.code)
  {
    hide *;
    SchemeParams(s);
    SchemeFacts(s);
    SpanPositive(s.code);
    OldSlab(dir, c, s);
    PathsFit(c, s);
    RightMeans(c, s);
    UserStretch(c.user, u, s);
    RoomMeans(|c.user|, s.code);
    var span, w := Span(s.code), WitnessCount(|c.user|, s.code);
    if WitnessFits(|c.user|, s.code) && LastAgrees(u * span, span, |c.user| * span) {
      SlabStretch(dir.mdus, c.commitments, w, u * span, span);
    }
  }

  lemma RoomMeans(u: nat, c: Code)
    requires c.k > 0
    ensures WitnessFits(u, c) ==> u * Span(c) <= WitnessCount(u, c) * MDU_PAYLOAD_BYTES
  {
    hide Span, WitnessCount;
  }

  /** The same with the witness bytes read from the slab by the file reader, which may fail: where they found room and
      reader and encoder agree about the chunk of the last byte, the proof is accepted exactly when the MDU has
      a cell. Whatever was read, without a cell it is not accepted. */
  method ProveFromSlab(dir: Dir, roots: seq<seq<byte>>, w: nat, u: nat, b: nat, mdu: seq<byte>, z: seq<byte>,
                       stripe: StripeParams, code: Code, ctx: Context, hash: HashFunction, pts: Points, d: Field,
                       ghost tau: int, ghost s: Scheme, ghost c: Content)
      returns (accepted: Option<Kzg.Result<bool>>)
    requires d.Valid() && d.n == 4096 && Setup(ctx, tau, d) && !Cong(ctx.g2[0], 0, d.p)
    requires HashSize(hash) && PointLaw(pts, d.p) && ValidScheme(s) && s == SchemeOf(code, s.isText, hash, pts, d, tau)
    requires IsSlabOf(dir, c, s) && AllMdus(c.user) && Right(c, s) && roots == ManifestRoots(dir, c, s)
    requires w == WitnessCount(|c.user|, code) && u < |c.user| && mdu == c.user[u]
    requires ValidStripe(stripe) && stripe.mode == 2
    requires stripe.k == code.k && stripe.m == code.m && stripe.rows == Rows(code.k)
    requires b < BLOBS_PER_MDU && |z| == 32 && BeValue(z) < d.p
    ensures 0 < Span(code) && 0 <= u * Span(code)
    ensures WitnessFits(|c.user|, code) && LastAgrees(u * Span(code), Span(code), |c.user| * Span(code)) ==>
      accepted == Some(Kzg.Ok(1 + w + u < d.n))
    ensures accepted == Some(Kzg.Ok(true)) ==> 1 + w + u < d.n
  {
    hide *;
    SchemeParams(s);
    SpanPositive(code);
    var span := Span(code);
    var start := u * span;
    ReadOfUser(dir, c, s, u);
    FirstOfRange(1, start, 0);
    if 1 + MduOf(start) !in dir.mdus {
      return None;
    }
    var flat, status := ReadRange(Record(dir.mdus, 1, start, span), [], 0, span, [span]);
    OneBuffer(span);
    if |flat| != span {
      return None;
    }
    var r := ProveBlob(roots, w, u, b, mdu, flat, z, stripe, code, ctx, hash, pts, d, tau, s, dir, c);
    return Some(r);
  }

  lemma FieldSize(d: Field)
    requires d.Valid()
    ensures d.p >= 2 && d.n >= 2
  {
    hide IsPowerOfTwo, TwoPow, Pow, Cong;
    PrimeSize(d.p);
  }

  lemma LeafAtIs(leaf: nat, size: nat, leafCount: nat)
    ensures LeafAt(leaf, size, leafCount) <==>
      size == leafCount * COMMITMENT_BYTES && size / COMMITMENT_BYTES == leafCount &&
      0 <= leaf * COMMITMENT_BYTES && leaf * COMMITMENT_BYTES + COMMITMENT_BYTES <= size
  {
  }

  lemma ProofTakes(c: Chained, flat: seq<byte>, leaf: nat, blob: seq<byte>, z: seq<byte>, manifest: seq<byte>,
                   index: nat, ctx: Context, hash: HashFunction, d: Field, tau: int)
    requires d.p >= 2 && d.n > 0 && |blob| == |manifest| == 32 * d.n
    requires leaf * COMMITMENT_BYTES + COMMITMENT_BYTES <= |flat|
    requires ProofFor(c, flat, leaf, blob, z, manifest, index, ctx, hash, d, tau)
    ensures 0 <= leaf * COMMITMENT_BYTES
    ensures c.blobCommitment == flat[leaf * COMMITMENT_BYTES..leaf * COMMITMENT_BYTES + COMMITMENT_BYTES]
  {
  }
}
