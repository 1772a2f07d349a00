# Verified model of nil-store's KZG core, NilFS slabs and gateway sessions

A Dafny model of three parts of nil-store that have to agree with each other, with proofs about all inputs, all runs
or all histories.

**The KZG core** (`nil_core/src/kzg.rs`, `demos/kzg/kzg_toy.py`). A number-theoretic transform with bit reversal and
its inverse, in place on an array; a bucket multi-scalar multiplication over any abelian group; openings in
coefficient form (synthetic division) and in evaluation form (barycentric, with the special quotient inside the
domain); the manifest of MDU roots; and the toy scheme from interpolation to verification. Group elements of the
scheme are exponents modulo a prime p, the domain is any power of two n >= 2 with a principal root of unity, and
`Kzg.Field.Valid` collects what is asked of them. The main results are completeness for both kinds of setup and every
point (`KzgScheme.CommitOpenVerify`, `ToyScheme.CommitProveVerify`), soundness up to giving the secret away
(`KzgScheme.FalseValueRevealsSecret`, `ToyScheme.AcceptedIsCommitted`), the transform and its round trips
(`Fft.FftInPlace`, `Ifft.IfftInPlace`), and that the bucket method is the naive sum (`Pippenger.MsmPippenger`). Such
fields and setups exist (`KzgScheme.SmallField`, `KzgScheme.BlobField`, `KzgScheme.SetupsExist`).

**NilFS slabs** (`coding.rs`, `ffi.rs`, `builder.rs`, `layout.rs`, and the gateway's ingest, resolve and reconstruct
files). Payload bytes are cut into 31-byte chunks right-aligned in 32-byte scalars; MDUs of 64 blobs are striped row
by row over K + M slots; MDU 0 is a byte buffer with the root table and the file table. An erasure code is any
function with the law that k of k + m bytes of a column recover it (`ErasureCode.Lawful`), which the Reed-Solomon code
over the field of 256 elements keeps for every k + m <= 256 (`ReedSolomon.RsIsLawful`); commitments and roots are
arbitrary functions of the right size. `SlabLayout.IsSlabOf` says what a directory holds for given user MDUs, witness
bytes and records, and `SlabLayout.IsSlab` for a list of files. Every create and every append leave such a slab
(`SlabIngest.BuildArtifacts`, `SlabAppend.Append`), so any history of named files does, empty ones included
(`SlabHistory.BuildSlab`), and from it every range of every file reads back through lookup, reconstruction from any k
shards and the streaming reader, unless the last file is empty (`SlabRead.Fetch`).

The two meet in `ChainedProof`: with the commitments of the scheme and the trees over their hashes put in for those
functions, the proof of any blob of a slab passes all three hops of its check (`ChainedProof.ProveBlob`), also with
the witness bytes read from the slab itself (`ChainedProof.ProveFromSlab`), and files read back
(`ChainedProof.FetchReal`). All that these ask for can be had at once (`ChainedProof.ProvableSetting`). `ChainedSound`
is the other direction: a proof that is accepted, whoever made it, tells the value of the blob it names, or the secret
can be computed from it, or the hash clashes (`ChainedSound.CheckForSlab`).

**Sessions** (`fetch_session.go`, `download_session.go`). `Sessions` has the operations one at a time over cache and
database; `SessionRuns` interleaves any number of them in atomic steps, of which `SessionAlone` shows that an operation
whose steps are not interleaved does what it does in `Sessions`; `SessionLosses` says from which operations
a session can be handed out twice or a chunk be lost, and `SessionLookups` what lookups show meanwhile.

Some things the code or its documentation promises do not hold as they stand. Each has a lemma with the exact
condition, and most have one with an input or a run that shows it:

- the number of witness MDUs is computed from 8 MiB while each takes 8126464 bytes (`SlabAppend.Append`,
  `SlabWitness.WitnessTooSmall`);
- an empty file takes a user MDU that the records do not count (`SlabIndex.InferredIsReal`), so that while it is the
  last one, reads go to the wrong MDUs (`SlabRead.Fetch`, `SlabRead.ReadsNextMdu`), and the next append may decode
  other witness bytes than were encoded (`SlabHistory.KeptExact`, `SlabHistory.AfterEmptyFile`);
- reading the commitments of one user MDU with the file reader (`WitnessRead.WitnessReadExact`,
  `WitnessRead.FirstOfTwoMisread`);
- a failed insertion into a full file table may already have overwritten a slot (`Mdu0.FailedInsert`,
  `Mdu0.FailedOverwrite`);
- a root table has room for 65536 roots, of which a manifest takes 4096 (`ChainedProof.ProveBlob`,
  `SlabWitness.ManifestTooSmall`);
- decoding an MDU at a shorter length than it was encoded with (`Codec.DecodePrefix`);
- a Lagrange setup mistaken for powers of the secret (`KzgScheme.LagrangeMisread`, `KzgScheme.MisreadSecrets`);
- the toy verifier takes an index only modulo r, not below the number of blocks (`ToyScheme.IndexModR`);
- session trees accept leaves at indices beyond the end (`SessionMerkle.BeyondTheEnd`);
- a Mode 2 plan over more than one blob (`SessionPlan.Mode2PlanExactness`, `SessionPlan.PlanMissesBlobs`);
- an id handed out twice after a failed commit (`SessionLosses.TakenTwice`), and a committed chunk lost to a second
  creation (`SessionLosses.ChunkLost`);
- a lookup that shows a session after it was taken (`SessionLookups.ShownAfterTake`, `SessionRuns.StaleLookup`).

Where code and comments disagree the model follows the code: the toy script speaks of 1 KiB blocks but cuts files
into its `CHUNK` of 131072 bytes, and `resolve.go` speaks of 8 MiB where it divides by 8126464.

## Model

| member | source | states |
|---|---|---|
| BitReverse.BitReversePermute | nil_core/src/kzg.rs:551-560 | in place, every entry ends at the bit-reversed index; an array of any power-of-two length |
| BitReverse.ReverseTwice | nil_core/src/kzg.rs:551-560 | reversing the bits of an index twice gives it back, so the swaps are a permutation |
| Fft.EvalSplit | nil_core/src/kzg.rs:524-549 | a polynomial value from its even and odd coefficients at the square of the point: the identity every butterfly uses |
| Fft.ButterflyInPlace | nil_core/src/kzg.rs:535-545 | one block of one pass, in place, equals the butterfly of its two halves and touches nothing else |
| Fft.StageStep | nil_core/src/kzg.rs:531-548 | one pass takes the transforms of all decimated parts of length h to those of length 2h |
| Fft.FftInPlace | nil_core/src/kzg.rs:524-549 | for every n = 2^k >= 2 and omega with omega^(n/2) = -1 the array becomes its discrete Fourier transform at omega; other lengths fail and leave it as it was |
| Ifft.IfftInPlace | nil_core/src/kzg.rs:506-522 | when it succeeds the array holds the inverse transform, and transforming that at omega gives the original array; fails exactly on a wrong length, a zero omega or a non-invertible n |
| Ifft.RoundTrip | nil_core/src/kzg.rs:506-549 | the transform of the inverse transform is the original sequence, entry by entry |
| Ifft.RoundTripBack | nil_core/src/kzg.rs:506-549 | the inverse transform of the transform is the original sequence |
| Ifft.Interpolates | nil_core/src/kzg.rs:506-522 | the polynomial with the inverse transform as coefficients takes value k at omega^k |
| Domain.Orthogonal | nil_core/src/kzg.rs:506-549 | powers of a principal root of unity sum to zero over the domain unless the exponent is a multiple of n |
| Pippenger.WindowIsField | nil_core/src/kzg.rs:578-597 | the window cut out of at most four bytes is the bit field of the whole 256-bit scalar, at every offset, also past its end |
| Pippenger.WindowSize | nil_core/src/kzg.rs:562-576 | the smallest window of 3 to 12 bits with at most four points to a bucket, or 12 |
| Pippenger.RunningSumsWeigh | nil_core/src/kzg.rs:628-648 | the running sums over the buckets add up every bucket as often as its index says |
| Pippenger.WindowSum | nil_core/src/kzg.rs:612-648 | filling the buckets for one window and summing them gives the sum of window digit times point |
| Pippenger.MsmPippenger | nil_core/src/kzg.rs:599-654 | in any abelian group the result is the naive sum of scalar times point, for all 256-bit scalars and any window size the code picks |
| Groups.MsmCombine | nil_core/src/kzg.rs:599-654 | a sum with scalars high * 2^w + low is 2^w times the sum of the highs plus the sum of the lows |
| Kzg.BytesToScalars | nil_core/src/kzg.rs:744-772 | 32-byte big-endian chunks become their values modulo the field, canonical or not |
| Kzg.LoadContext | nil_core/src/kzg.rs:119-149 | what loading decides: too few points fail; powers are recognised by comparing pairings; the generator is the first point or the sum of all |
| Kzg.SetupCommits | nil_core/src/kzg.rs:157-207 | with powers of the secret the coefficients, with a Lagrange setup the values themselves combine to the value of the polynomial at the secret |
| Opening.LagrangePolynomial | nil_core/src/kzg.rs:119-149 | what a Lagrange setup is asked for: the polynomial behind point i is 1 at omega^i and 0 at the other domain points |
| Kzg.BlobToCommitment | nil_core/src/kzg.rs:157-207 | the commitment is the interpolated polynomial at the secret, with either kind of setup, also for the all-zero blob; wrong length fails |
| KzgProof.SyntheticDivide | nil_core/src/kzg.rs:266-272 | the array holds the remainder and the coefficients of the quotient by x - z |
| KzgProof.ProveMonomial | nil_core/src/kzg.rs:250-298 | with powers of the secret: proof and value are those of the honest opening |
| KzgProof.Barycentric | nil_core/src/kzg.rs:322-336 | outside the domain the quotient of the two weighted sums is the value of the interpolated polynomial; every inversion in it succeeds |
| KzgProof.QuotientOutsideDomain | nil_core/src/kzg.rs:357-363 | the values of the quotient polynomial on the domain for a point outside it |
| KzgProof.QuotientInsideDomain | nil_core/src/kzg.rs:339-356 | for a point of the domain: the other entries, and the entry at the point fixed by the sum of q_i * omega^i being zero |
| KzgProof.ProveLagrange | nil_core/src/kzg.rs:300-374 | with a Lagrange setup: proof and value are those of the honest opening, inside and outside the domain |
| KzgScheme.ComputeProof | nil_core/src/kzg.rs:236-375 | for both kinds of setup the proof is the quotient polynomial at the secret and y the value at z; the error cases |
| KzgScheme.AcceptsMeaning | nil_core/src/kzg.rs:377-406 | the pairing check compares proof * (tau - z) with commitment - y |
| KzgScheme.Completeness | nil_core/src/kzg.rs:236-406 | every honestly computed opening is accepted, at every point of the field |
| KzgScheme.CommitOpenVerify | nil_core/src/kzg.rs:157-406 | blob_to_commitment, compute_proof and verify_proof run one after the other end in acceptance, for every blob and point |
| KzgScheme.TwoValuesRevealSecret | nil_core/src/kzg.rs:377-406 | two accepted different values for one commitment at one point determine the secret |
| KzgScheme.FalseValueRevealsSecret | nil_core/src/kzg.rs:377-406 | an accepted value for an honest commitment is the value of the polynomial, or reveals the secret |
| KzgScheme.OneProofOneValue | nil_core/src/kzg.rs:377-406 | one proof is accepted for one value of a commitment at a point and for no other, whatever the commitment |
| KzgScheme.LagrangeGenerator | nil_core/src/kzg.rs:135-141 | the sum of the Lagrange points is the generator |
| KzgScheme.LagrangeMisread | nil_core/src/kzg.rs:127-128 | a Lagrange setup passes the test for powers exactly when the secret is a point of the domain other than 1 and omega, or, outside the domain, a root of one quadratic equation |
| KzgScheme.MisreadSecrets | nil_core/src/kzg.rs:127-128 | every omega^k with 2 <= k < n is such a secret: its Lagrange setup exists and passes the test |
| KzgScheme.SetupsExist | nil_core/src/kzg.rs:119-149 | for every field and secret there are usable setups of both kinds |
| KzgScheme.SmallField | nil_core/src/kzg.rs:119-149 | the integers modulo 17 with the powers of 4 meet all that is asked of a field |
| KzgScheme.BlobField | nil_core/src/kzg.rs:119-149 | so do the integers modulo 12289 with the powers of 1331, which have as many domain points as a blob has scalars, 4096 |
| KzgScheme.LoadedSetup | nil_core/src/kzg.rs:119-149 | powers are always recognised, and whenever the kind was recognised the loaded generator is right for it |
| KzgScheme.ManifestBlob | nil_core/src/kzg.rs:408-422 | cell i holds root i reduced, cells beyond the roots are zero, roots beyond the cells are dropped |
| KzgScheme.ManifestValue | nil_core/src/kzg.rs:408-445 | the manifest polynomial takes, at the point of a cell, the root stored there |
| KzgScheme.ProveManifestEntry | nil_core/src/kzg.rs:408-445 | committing to any list of roots and opening any of them is accepted by the inclusion check |
| ToyKzg.PolyAdd | demos/kzg/kzg_toy.py:101-108 | the value of the sum is the sum of the values, at every point |
| ToyKzg.PolyMul | demos/kzg/kzg_toy.py:119-124 | the value of the product is the product of the values, for any two lists, also empty ones |
| ToyKzg.PolyDivByXMinusA | demos/kzg/kzg_toy.py:132-144 | quotient and remainder of the division by x - a, the remainder being the value at a, for any list; reduced where the list is |
| ToyKzg.VanishingPoly | demos/kzg/kzg_toy.py:146-170 | the product of all x - x_i: monic, of the right degree, zero exactly through its factors |
| ToyKzg.DerivativeNonzero | demos/kzg/kzg_toy.py:146-170 | at distinct points the derivative of the vanishing polynomial is invertible, so no interpolation weight fails |
| ToyKzg.LagrangeInterpolateCoeffs | demos/kzg/kzg_toy.py:146-170 | the result has at most as many coefficients as points and hits every (x_i, y_i); the remainder it asserts to be zero is zero |
| ToyKzg.InterpolationUnique | demos/kzg/kzg_toy.py:146-170 | two polynomials of that size through the same distinct points agree in every coefficient |
| Roots.RootBound | demos/kzg/kzg_toy.py:146-170 | a polynomial with as many distinct roots as coefficients is zero |
| Roots.DerivativeIsQuotient | demos/kzg/kzg_toy.py:156-165 | the derivative at a root is the quotient by the root, evaluated there |
| ToyScheme.CommitFromCoeffs | demos/kzg/kzg_toy.py:197-206 | the exponent of the commitment is the value of the polynomial at the secret |
| ToyScheme.SplitBlocks | demos/kzg/kzg_toy.py:208-229 | the blocks of a file, the last one possibly short |
| ToyScheme.ReadsCommittedBlock | demos/kzg/kzg_toy.py:208-249 | the block read back at proof time is the block that was committed |
| ToyScheme.CommitFile | demos/kzg/kzg_toy.py:208-229 | the pledge interpolates the hashes of all blocks; it succeeds whenever the setup is long enough |
| ToyScheme.ProveIndex | demos/kzg/kzg_toy.py:231-249 | an index out of range is an assertion error; otherwise, with fewer blocks than field elements, both assertions hold and the proof satisfies the opening equation |
| ToyScheme.CommitProveVerify | demos/kzg/kzg_toy.py:90-270 | for every file with fewer blocks than field elements and every index, the proof is accepted |
| ToyScheme.VerifyMeaning | demos/kzg/kzg_toy.py:260-270 | a proof is accepted if and only if its point is that of its index, its value the hash of its block, and pi * (tau - x) equals C - y in exponents |
| ToyScheme.AcceptedIsValue | demos/kzg/kzg_toy.py:260-270 | any accepted proof, of any index, has a block whose hash is the value of the committed polynomial at the point of the index, or the secret is an explicit expression in it and the honest proof |
| ToyScheme.AcceptedIsCommitted | demos/kzg/kzg_toy.py:260-270 | any accepted proof for an index of a committed file has the point of that index, and a block with the hash of the committed one, or the secret is an explicit expression in it and the honest proof |
| ToyScheme.TwoProofs | demos/kzg/kzg_toy.py:260-270 | whatever the pledge, two accepted proofs of one index have blocks with one hash or give the secret away; with one hash they are equal modulo r, unless the secret is the point |
| ToyScheme.IndexModR | demos/kzg/kzg_toy.py:260-270 | a proof is accepted for an index exactly when it is for the index plus r: no bound by the number of blocks is checked |
| Codec.EncodePayload | nil_core/src/ffi.rs:275-310 | every byte of the MDU: 31-byte chunks right-aligned in 32-byte scalars, zeros elsewhere |
| Codec.EncodeToMdu | nil_core/src/coding.rs:36-50 | the same MDU for the raw bytes, truncated to one MDU of payload |
| Codec.EncodePayloadIntoBlob | nil_core/src/coding.rs:52-81 | exactly the blob of the whole encoding, written without the MDU, and nothing outside it |
| Codec.DecodePayload | nil_core/src/ffi.rs:317-361 | for a right size and length the right-aligned bytes of each chunk; an error otherwise |
| Codec.DecodeEncode | nil_core/src/ffi.rs:275-361 | decoding an encoded payload at its own length gives it back, for every payload up to capacity |
| Codec.DecodePrefix | nil_core/src/ffi.rs:317-361 | decoding at a shorter length gives the prefix, for every payload, exactly when it ends at a chunk boundary |
| CliEncoder.ChunkThroughInteger | nil_core/src/utils.rs:37-48 | a chunk taken as a big integer and written back in 32 bytes is the right-aligned chunk |
| CliEncoder.FrsToBlobs | nil_core/src/utils.rs:139-158 | any integers of at most 32 bytes, in order, right-aligned in 32-byte scalars, 4096 to a blob, the last blob filled up with zeros |
| CliEncoder.EncodeThroughIntegers | nil_cli/src/main.rs:352-379 | the big-integer encoder yields the same MDU bytes as the copying one |
| BlobMap.IndexNamesTheBlob | nil_gateway/main.go:3387-3405 | the index is the blob where the encoder placed that byte, in every payload that has it |
| BlobMap.IndexIsQuotient | nil_gateway/main.go:3387-3405 | every blob has the same number of payload bytes, and exactly the offsets beyond those of an MDU are out of bounds |
| BlobMap.AcceptedRangeIsOneBlob | nil_gateway/main.go:2415-2427 | the range check accepts exactly the ranges all of whose bytes lie in one blob |
| SessionPlan.Mode1PlanIsExact | nil_gateway/main.go:2693-2760 | Mode 1: every in-file range gets a plan for slot 0, and its interval is exactly the set of blobs touched |
| SessionPlan.Mode2PlanExactness | nil_gateway/main.go:2724-2758 | Mode 2: an accepted plan is exact if and only if both ends lie in one MDU, and in one blob unless there is a single data slot |
| SessionPlan.Mode2PlanOfEnds | nil_gateway/main.go:2693-2758 | Mode 2: a plan is accepted exactly when the blobs of its two ends are in one slot, which it names, and runs from the leaf of the first to that of the last |
| SessionPlan.PlanMissesBlobs | nil_gateway/main.go:2724-2758 | with 8 + 4 slots a range from blob 0 to blob 8 gets a plan of two leaves, which leaves out the seven blobs between |
| StripeIndex.LeafOfBlob | nil_gateway/stripe_params.go:43-63 | the leaf of a blob lies in the slot of its column, below the parity leaves |
| StripeIndex.LeafInjective | nil_gateway/stripe_params.go:43-53 | different blobs have different leaves |
| Stripe.LeafHoldsBlob | nil_core/src/coding.rs:93-157 | the leaf of a blob is the commitment of that blob, and its slot's shard holds the blob in its row |
| ReedSolomon.RsIsLawful | nil_core/src/coding.rs:102-139 | the law asked of the erasure code is kept by the Reed-Solomon code over the field of 256 elements, for every k and m with k + m <= 256 |
| Expand.ExpandMduEncoded | nil_core/src/coding.rs:93-157 | row by row: the shards of all slots and the commitments of all rows, slot by slot; the parameter and size errors |
| ExpandFlat.ExpandPayloadFlat | nil_core/src/coding.rs:228-289 | the flat buffers are the concatenated shards and commitments of the encoded payload; errors leave them untouched |
| ExpandFlat.FastPathAgrees | nil_core/src/coding.rs:36-289 | for every payload and valid parameters the fast path is the flattened result of the slow path |
| Reconstruct.ReconstructMduFromShards | nil_core/src/coding.rs:291-345 | each error exactly in its case; any k shards of an MDU coded row by row give the MDU back |
| Reconstruct.CopyRows | nil_gateway/mode2_reconstruct.go:143-164 | the rows of the data shards end in blob order |
| Reconstruct.EnsureMode2Mdu | nil_gateway/mode2_reconstruct.go:40-101 | the two collection passes find k shards whenever k slots ever answer usably, and then the MDU is the original; otherwise it fails |
| Reader.DecodedReader.Make | nil_gateway/resolve.go:37-73 | it fails exactly when the first MDU is missing; otherwise what it will deliver is the decoded stream from the start offset |
| Reader.DecodedReader.Read | nil_gateway/resolve.go:98-181 | one call with any buffer delivers exactly the next bytes, leaves the rest of the buffer alone, and reports end or error only when it delivers nothing |
| Reader.StreamIsSlice | nil_gateway/resolve.go:98-181 | where the disk holds the range and reader and encoder agree on chunk lengths, the stream is exactly the range |
| Reader.FileAgrees | nil_gateway/resolve.go:146-166 | on the record of a file at a chunk boundary the reader takes as many bytes of every chunk as the encoder put in |
| Reader.CutFileHolds | nil_gateway/ingest_mode2.go:140-195 | a file cut into MDUs that were encoded one by one and stored in a row is held, across MDU boundaries and with its short last chunk |
| Reader.ReadRange | nil_gateway/resolve.go:37-181 | any sequence of buffer sizes yields, in order, what can be had of the range; where the file is held that is the range, and then end of file |
| WitnessRead.WitnessReadExact | nil_gateway/proof_helper.go:213-237 | reading the commitments of one user MDU with the file reader is right for all witness bytes exactly when reader and encoder agree about the chunk of the last byte |
| WitnessRead.AlignedStretch | nil_gateway/proof_helper.go:213-237 | for a stretch at a chunk boundary, as that of the first user MDU: only if it is the last one or a multiple of 31 bytes long |
| WitnessRead.FirstOfTwoMisread | nil_gateway/proof_helper.go:213-237 | with 8 + 4 slots the commitments of the first of two user MDUs are read wrong for some witness bytes |
| WitnessRead.SlabStretch | nil_gateway/proof_helper.go:213-237 | where reader and encoder agree, the stretch is read right from the witness MDUs of any slab whose witness bytes found room |
| Layout.HeaderRoundTrip | nil_core/src/layout.rs:39-67 | a header that fits its fields survives to_bytes and from_bytes |
| Layout.HeaderOfBytes | nil_core/src/layout.rs:39-67 | any 128 bytes survive from_bytes and to_bytes |
| Layout.HeaderPlaces | nil_core/src/layout.rs:39-67 | the place of every field in the 128 bytes |
| Layout.DefaultHeaderBytes | nil_core/src/layout.rs:23-34 | the bytes of the header of an empty table |
| Layout.RecordRoundTrip | nil_core/src/layout.rs:94-116 | a record that fits its fields survives to_bytes and from_bytes |
| Layout.RecordOfBytes | nil_core/src/layout.rs:94-116 | any 64 bytes survive from_bytes and to_bytes |
| Layout.RecordPlaces | nil_core/src/layout.rs:94-116 | the place of every field in the 64 bytes |
| Layout.PackUnpack | nil_core/src/layout.rs:119-131 | unpacking gives length and flags back exactly when the length is below 2^56, and packing gives every word back |
| Layout.PackPlaces | nil_core/src/layout.rs:119-131 | as little-endian bytes: seven of the length, then the flags |
| Mdu0.SpliceRoot | nil_core/src/builder.rs:93-100 | writing one root changes no other root, no record and not the header |
| Mdu0.SpliceRecord | nil_core/src/builder.rs:107-132 | writing one record changes no other record, no root and not the header |
| Mdu0.Mdu0Builder.constructor | nil_core/src/builder.rs:26-45 | an empty table, zero roots, and the number of witness MDUs |
| Mdu0.Mdu0Builder.Load | nil_core/src/builder.rs:51-74 | refused exactly for a wrong size or magic number; otherwise the bytes as they are |
| Mdu0.Mdu0Builder.SetRoot | nil_core/src/builder.rs:93-100 | one root is replaced and nothing else; fails exactly beyond 65536 roots |
| Mdu0.Mdu0Builder.AppendFileRecord | nil_core/src/builder.rs:107-121 | the table grows by the record, header and struct agreeing; fails exactly at 98302 records |
| Mdu0.Mdu0Builder.UpdateFileRecord | nil_core/src/builder.rs:123-132 | one record is replaced and nothing else; fails exactly beyond the table |
| Mdu0.Mdu0Builder.FindFreeSlotAndInsert | nil_core/src/builder.rs:134-177 | the new table, the slot and the outcome are those of first-fit insertion |
| Mdu0.InsertIsFirstFit | nil_core/src/builder.rs:134-177 | the first tombstone with room is taken and keeps its start, or the record is appended; every other record is as before |
| Mdu0.InsertKeepsDisjoint | nil_core/src/builder.rs:134-177 | all extents, live and tombstones, stay pairwise disjoint |
| Mdu0.InsertConservesBytes | nil_core/src/builder.rs:134-177 | reusing and splitting a slot covers the same bytes as before, with the same total length |
| Mdu0.FailedInsert | nil_core/src/builder.rs:150-169 | a failed insertion leaves the table alone exactly when no tombstone had room; otherwise the leftover of the overwritten slot is covered by no record |
| Mdu0.FailedOverwrite | nil_core/src/builder.rs:150-169 | such a failure that overwrites a slot: a full, disjoint table of tombstones of two bytes, and a file of one byte |
| Mdu0.Reload | nil_core/src/builder.rs:47-84 | load(bytes()) gives back the header, every root and every record |
| SlabIngest.ExpandPayload | nilchain/x/crypto_ffi/binding.go:377-420 | witness bytes and shards of one payload, the flat shard buffer cut into slots |
| SlabIngest.EncodeFile | nil_gateway/ingest_mode2.go:140-233 | reading a file MDU by MDU: its roots, its witness bytes in order, and every shard under its slab index |
| SlabIngest.BuildWitness | nil_gateway/ingest_mode2.go:254-287 | the witness MDUs encode the witness bytes in pieces, and their roots head the root table; fails exactly when the table is too small |
| SlabIngest.BuildArtifacts | nil_gateway/ingest_mode2.go:66-345 | a create stores the slab of its file, with the roots its manifest commits to; rejected exactly when the path is not text or the root table too small |
| SlabLayout.NameIs | nil_gateway/ingest_mode2.go:106-108 | the name of a path is the one beginning of it without a zero byte that ends with the path, before its first zero byte, or at 40 bytes |
| SlabLayout.PlainName | nil_core/src/ffi.rs:962-972 | a path of at most 40 bytes without a zero byte is its own name |
| SlabAppend.DecodeWitness | nil_gateway/ingest_mode2.go:678-709 | decoding old witness MDUs at the length that the records tell: with the right length the old witness bytes as far as the MDUs reach; for other lengths see SlabHistory.KeptExact |
| SlabAppend.RootsFromWitness | nil_gateway/ingest_mode2.go:825-844 | the roots of all stretches of the witness bytes that were decoded |
| SlabLayout.RootsOfMdus | nil_gateway/ingest_mode2.go:825-844 | and these are the original roots of the user MDUs when the witness bytes are theirs |
| SlabAppend.NewRoots | nil_gateway/ingest_mode2.go:846-885 | the rebuilt root table holds the new witness roots, then all user roots, then zeros, although both counts grew |
| SlabAppend.Append | nil_gateway/ingest_mode2.go:548-885 | on any slab, also one whose last file is empty: it works exactly when the records account for some user MDU and tell the right number of witness MDUs, the old witness bytes had found room, the path is text and both tables have room; it then leaves the slab of the user MDUs that are accounted for and the new ones, the old witness bytes as decoded and the new ones, and one more record |
| SlabHistory.BuildSlab | nil_gateway/ingest_mode2.go:66-885 | one create and any number of appends of named files, empty ones too, are accepted exactly as the history says, and the directory is then the slab of what the history says; when only the last file may be empty, the slab of all the files in order |
| SlabHistory.AppendedFiles | nil_gateway/ingest_mode2.go:548-885 | an append to the slab of some files, the last of them not empty, makes it the slab of those files and the new one |
| SlabHistory.HistoryOfFiles | nil_gateway/ingest_mode2.go:66-885 | a history in which only the last file may be empty leaves the slab of all its files, and is accepted exactly when each step finds room |
| SlabHistory.HistoryHolds | nil_gateway/ingest_mode2.go:66-885 | after any accepted history, with empty files anywhere in it, every file is under its record, with its MDUs where the record says |
| SlabHistory.FilesServe | nil_gateway/ingest_mode2.go:66-345 | so is every file of the slab of any named files |
| SlabHistory.KeptExact | nil_gateway/ingest_mode2.go:678-709 | n of the witness bytes that found room, decoded again, are the first n, whatever the bytes are, exactly when n ends at a chunk boundary or there are no others |
| SlabHistory.AppendedRight | nil_gateway/ingest_mode2.go:825-844 | an append keeps the witness bytes those of the user MDUs when the records account for all of these, or for a number whose commitments end at a chunk boundary |
| SlabHistory.AfterEmptyFile | nil_gateway/ingest_mode2.go:678-709 | with 8 + 4 slots an append after a file of one MDU and an empty file finds the right number of witness MDUs, but decodes the commitments of the first one wrong for some witness bytes |
| SlabWitness.WitnessTooSmall | nil_core/src/builder.rs:29-30 | the number of witness MDUs is computed from 8 MiB: with 8 + 4 slots a slab of 1764 user MDUs can be stored but never be appended to, one of 1763 can |
| SlabWitness.ManifestTooSmall | nil_core/src/kzg.rs:408-422 | with 8 + 4 slots a file of 4092 user MDUs leaves all of them a cell of the manifest; one of 4093 can be stored, but its last MDU has none |
| SlabWitness.LeafBytes | nil_gateway/ingest_mode2.go:678-709 | the witness bytes at user ordinal u and the leaf of blob b are the commitment of blob b of user MDU u |
| SlabWitness.LeafShard | nil_gateway/stripe_params.go:43-63 | in every slab the slot of that leaf stores that blob |
| SlabWitness.CommitmentAt | nil_gateway/ingest_mode2.go:678-709 | read back from the witness MDUs of any slab whose witness bytes found room, it is that commitment |
| SlabIndex.HighWater | nil_gateway/ingest_mode2.go:586-603 | the highest end of a record that is not a tombstone |
| SlabIndex.RecordedIsCounted | nil_gateway/ingest_mode2.go:604-610 | the records account for every user MDU, except the one that an empty last file takes |
| SlabIndex.InferWitnessCount | nil_gateway/resolve.go:365-438 | roots in the table less recorded user MDUs, with both invalid cases and the fallback to counting files |
| SlabIndex.InferredIsReal | nil_gateway/resolve.go:365-411 | in the slab of any files with no zero root in its table, the inferred number of witness MDUs is W of all user MDUs exactly when the last file is not empty, and one more otherwise |
| SlabIndex.InferredCount | nil_gateway/resolve.go:365-411 | in any slab with no zero root in its table, the inferred number is W of all user MDUs plus the number of user MDUs that the records do not account for |
| SlabIndex.IndexFiles | nil_gateway/fetch_cache.go:58-76 | the table by name holds what looking up each name finds |
| SlabIndex.LookupFindsLast | nil_gateway/fetch_cache.go:58-76 | looking up a name finds the record of the last file stored under it, in whatever places the files are |
| SlabRead.LoadSlabIndex | nil_gateway/fetch_cache.go:28-91 | files by name and the inferred number of witness MDUs, or an error |
| SlabRead.IndexSlab | nil_gateway/fetch_cache.go:28-91 | for any slab that holds some named files, with no zero root in its table: every name with the place of the last file under it, and the right number of witness MDUs plus the user MDUs that the records do not account for |
| SlabRead.EnsureOnDisk | nil_gateway/mode2_reconstruct.go:17-121 | an MDU that is there or can be had from k shards ends on disk as it was stored; the directory stays the slab it was |
| SlabRead.Fetch | nil_gateway/fetch_cache.go:116-147 | in any slab that holds some named files, with no zero root in its table, every range of every file, cut off at the end of the file and with length zero reaching to it, is read back byte for byte when the records account for the last user MDU, with any buffer sizes and from any k shards of each MDU; otherwise what the MDUs one further on decode to; unknown names, ranges beyond the end and missing shards are told apart |
| SlabRead.StoreAndFetch | nil_gateway/fetch_cache.go:93-147 | in raw paths: after any history of named files, fetching under a path has the outcome SlabRead.Fetch states for the last file stored as that path, and not found exactly when none was |
| SlabRead.ReadsNextMdu | nil_gateway/resolve.go:365-411 | in the slab of a file of one byte and an empty file that byte, whatever it is, is read back as zero |
| SessionMerkle.VerifyPath | nilchain/x/nilchain/types/session_merkle.go:20-36 | accepts exactly when all siblings are nodes and the fold by the bits of the index gives the root |
| SessionMerkle.RootAndPaths | nil_gateway/session_merkle.go:16-54 | for every number of leaves every leaf's path leads to the root, and all paths have the length of the tree's depth, or 1 for one leaf |
| SessionMerkle.DepthIsLog | nil_gateway/session_merkle.go:33-51 | that depth is the base-2 logarithm of the number of leaves, rounded up |
| SessionMerkle.Binding | nilchain/x/nilchain/types/session_merkle.go:20-36 | two different leaves accepted at one index and path length, or two different paths of that length for one leaf, yield a hash collision |
| SessionMerkle.HighBitsIgnored | nilchain/x/nilchain/types/session_merkle.go:20-36 | of the index only as many bits count as the path is long |
| SessionMerkle.RepeatedLeaf | nil_gateway/session_merkle.go:34-36 | repeating the last of an odd number of leaves does not change the root |
| SessionMerkle.BeyondTheEnd | nilchain/x/nilchain/types/session_merkle.go:20-36 | among the indices that n leaves' paths can tell apart, one at or beyond n is accepted if and only if n is 1 or no power of two |
| SessionMerkle.StandInAccepted | nilchain/x/nilchain/types/session_merkle.go:20-36 | at every index, the leaf that it stands for once repeated nodes are read as those they repeat is accepted |
| SessionMerkle.OnlyStandInAccepted | nilchain/x/nilchain/keeper/msg_server.go:1112-1126 | and no other leaf by a path of that length, or the hash collides; so behind the caller's check of the index only the leaf at the index itself |
| SessionMerkle.StandsForItself | nil_gateway/session_merkle.go:33-51 | an index of a leaf stands for that leaf, and the one past an odd number of leaves for the last one |
| WitnessMerkle.UpKeepsRoot | nil_gateway/proof_helper.go:365-383 | one level of the loop, the odd node moving up, keeps the root of the recursive tree |
| WitnessMerkle.MerkleRootAndPath | nil_gateway/proof_helper.go:342-389 | the root is that of the recursive tree, whatever the leaf, and the width-aware fold of the path from the leaf gives it; without such a leaf a zero root |
| WitnessMerkle.WidthBinding | nil_gateway/proof_helper.go:342-389 | two different leaves, or two different paths of one leaf, reaching one root from one index of one width yield a hash collision |
| ChainedProof.SchemeIsValid | nil_core/src/kzg.rs:222-234 | commitments of the scheme and roots over their hashes are an instance of what a slab leaves open |
| ChainedProof.MakeProof | nil_gateway/proof_helper.go:237-302 | from the witness bytes that were read: root, path, both openings, and when it fails |
| ChainedProof.ChainChecked | nil_core/src/ffi.rs:772-879 | the check of such a proof against a manifest passes only for a root that reduces to the one in the cell, and for the right bytes exactly when there is a cell |
| ChainedProof.ProveBlob | nil_core/src/ffi.rs:772-879 | for every blob of every user MDU of a slab whose witness bytes are those of its user MDUs: manifest opening, Merkle path and blob opening are accepted together exactly when the MDU is among the 4096 of the manifest, given the right witness bytes; with other bytes only if their root reduces to the same value |
| ChainedProof.ProveFromSlab | nil_gateway/proof_helper.go:213-302 | the same with the witness bytes read from the slab by the file reader: where they found room and reader and encoder agree, the proof is accepted exactly when the MDU has a cell; it is never accepted without one |
| ChainedProof.ProvableSetting | nil_core/src/kzg.rs:119-149 | for every secret there are a field with 4096 domain points, setups of both kinds, points, a hash and a scheme of 8 + 4 slots that meet all that is asked of them above, together |
| ChainedProof.SlabRootsNonZero | nil_core/src/kzg.rs:222-234 | with these commitments and trees no root of a slab is zero, unless the hash is at some input |
| ChainedProof.InferredForReal | nil_gateway/resolve.go:365-411 | so for such slabs the inferred number of witness MDUs is the real one exactly when the last file is not empty |
| ChainedProof.FetchReal | nil_gateway/fetch_cache.go:116-147 | and fetching a range of a file from such a slab has the outcome that SlabRead.Fetch states |
| ChainedSound.FirstHop | nil_core/src/kzg.rs:408-445 | an accepted inclusion proof, whoever made it: the index is a cell, and the root reduces to the one stored there, or to zero beyond the roots, or the secret is an explicit expression in the proof |
| ChainedSound.AcceptedCell | nil_core/src/ffi.rs:814-835 | so the MDU of any accepted chain has a cell, with that root |
| ChainedSound.AcceptedValue | nil_core/src/ffi.rs:837-879 | any accepted chain whose root reduces to that of some witness bytes has the commitment at its leaf, or the hash clashes modulo the field; and with the commitment of a blob, the value of that blob at its point, or the secret is an explicit expression in its opening |
| ChainedSound.ChangedValueRefused | nil_core/src/ffi.rs:859-879 | whatever the manifest and the commitment, changing the value of an accepted chain makes it refused |
| ChainedSound.WhenItFails | nil_core/src/ffi.rs:812-879 | for inputs of the right sizes the check fails rather than answers exactly when root and path are right and the commitment, point or value is no valid encoding |
| ChainedSound.AcceptedTells | nil_core/src/ffi.rs:772-879 | any accepted chain for a user MDU of a slab tells the value of the blob behind its leaf, data or parity, or it was forged: the secret given away or a hash clash |
| ChainedSound.LeafBlobIs | nil_gateway/stripe_params.go:43-53 | the blob behind the leaf of blob b is blob b |
| ChainedSound.CheckForSlab | nil_core/src/ffi.rs:772-879 | the same as one run: manifest, commitment and check, for a chain that anybody may have made |
| Sessions.SessionStore.Store | nil_gateway/fetch_session.go:91-118 | stored in cache and database, both otherwise as before, or in neither |
| Sessions.SessionStore.StoreWithId | nil_gateway/download_session.go:85-127 | stored under the given id, with half an hour when no expiry is given, or not at all |
| Sessions.SessionStore.StoreAndFind | nil_gateway/download_session.go:85-203 | a stored session is found by a lookup or a take up to and including its expiry, half an hour after it was stored unless it says otherwise, and no later |
| Sessions.SessionStore.Load | nil_gateway/fetch_session.go:121-170 | with no other operation in between, the session that exists; an expired one is removed from both; what the cache holds then |
| Sessions.SessionStore.Take | nil_gateway/fetch_session.go:173-218 | the session that exists, and it is gone afterwards from the cache, and from the database unless the commit failed |
| Sessions.SessionStore.Append | nil_gateway/download_session.go:205-260 | the chunk comes last, or an error when there is no live session or the commit fails; the cache stays within the database exactly when the commit of a found session did not fail |
| Sessions.SessionStore.AppendOrCreate | nil_gateway/download_session.go:129-140 | alone, it appends to the session that exists or to the initial one; when either commit fails, what is left in database and cache |
| SessionAlone.PutAlone | nil_gateway/download_session.go:42-83 | the steps of a put run one after the other leave cache and database as SessionStore.Put does |
| SessionAlone.LoadAlone | nil_gateway/download_session.go:142-203 | so do those of a lookup and SessionStore.Load, showing what it finds |
| SessionAlone.TakeAlone | nil_gateway/download_session.go:262-307 | so do those of a take and SessionStore.Take, handing out what it finds |
| SessionAlone.AppendAlone | nil_gateway/download_session.go:205-260 | so do those of an append and SessionStore.Append |
| SessionRuns.StepKeeps | nil_gateway/download_session.go:42-307 | every atomic step of every operation keeps the invariant: log and database agree, one writer, every held session accounted for |
| SessionRuns.TakenAtMostOnce | nil_gateway/download_session.go:262-307 | over every interleaving an id is handed out by takes at most as often as it was put, plus the takes whose commit failed; so at most as often as operations can put it, plus the failing steps of its takes |
| SessionRuns.TakenIsComplete | nil_gateway/download_session.go:205-307 | over every interleaving a session handed out carries exactly the chunks committed between its put and the take, in order, however stale the cache |
| SessionRuns.FreshIsComplete | nil_gateway/download_session.go:205-307 | when at most one operation can put an id and no take of it fails to commit, a session handed out carries all chunks ever appended to it |
| SessionRuns.RunBounds | nil_gateway/download_session.go:42-307 | over every run an id is put at most by the operations of the start that can, and leaked at most by its takes whose commit fails |
| SessionLosses.TakenTwice | nil_gateway/fetch_session.go:173-208 | for every set of operations some interleaving hands an id out more often than once if and only if one of them can put a live session and two can take the id; without a failing take commit, if and only if two can put one |
| SessionLosses.ChunkLost | nil_gateway/download_session.go:129-140 | for every set of operations some interleaving loses a committed chunk if and only if two of them can put a live session, one can append and one can take; and then one in which every commit succeeds |
| SessionLosses.RunLedger | nil_gateway/download_session.go:42-307 | over every run the puts, removals, takes and appends of an id that did happen and those that operations can still do stay within what the start allows |
| SessionRuns.StaleLookup | nil_gateway/fetch_session.go:121-170 | a run in which lookups show a session after it was taken |
| SessionLookups.ShownWasPut | nil_gateway/download_session.go:111-203 | over every interleaving a lookup shows a session as a put wrote it to the cache, or one that was put, with exactly the appends committed up to some point since and at most one more whose transaction was open |
| SessionLookups.ShownAfterTake | nil_gateway/download_session.go:142-307 | after a take cleared the cache of an id that is gone from the database, it can be shown again without being put again if and only if, at that step, a lookup had read it and was about to return it, or to fill the cache while another lookup waited and it was still valid |
| SessionLookups.GoneAfterRemoval | nil_gateway/download_session.go:262-307 | once a take has removed an id it is gone from the database for as long as it is not put again |
| RequestReplay.KeyInjective | nil_gateway/fetch_session.go:243-244 | different requests have different database keys, whatever the owner string is |
| RequestReplay.ReplayGuard.CheckAndStore | nil_gateway/fetch_session.go:229-273 | malformed exactly without nonce, owner or expiry; otherwise refused exactly while the last accepted request with its key is valid, and else recorded |
| RequestReplay.HandleAll | nil_gateway/fetch_session.go:229-273 | in any sequence of requests: which are malformed; every other is refused exactly while the last accepted one with its key is valid; so none is accepted while that one is valid |

## Left out

- HTTP handlers, chain queries, libp2p, S3 XML, the command line, uploads to providers and the web site: plumbing.
- Elliptic-curve points and pairings: replaced by their exponents. The blst path of blob_to_commitment computes the same sum as the bucket method and is not modelled apart.
- Keccak, BLAKE2s, the Reed-Solomon library and rs_merkle: arbitrary functions, with the law of an erasure code; binding is stated up to a collision. The coder's own refusal of more than 256 shards is not modelled.
- Primality of the BLS12-381 group order and the order of its root of unity are hypotheses on the field, not proved.
- The random choices (setup secret, challenges, session ids) are parameters.
- Fft.FftInPlace: one-element arrays are excluded; the library never transforms one.
- Pippenger.WindowIsField: or-ing shifted bytes into a 32-bit word is written as their weighted sum, which it is because they do not overlap.
- Layout.PackUnpack: mask and shift are written as remainder and quotient by 2^56.
- Mdu0.Mdu0Builder.SetRoot: the product of index and 32 is unbounded here; in the source it wraps for indices from 2^59 on.
- Mdu0.Mdu0Builder.constructor: the number of witness MDUs is an integer division rounded up; the source divides doubles, which agrees below 2^53 bytes.
- Mdu0.Mdu0Builder.Load: a header that claims more than 98302 records is loaded, but nothing is stated about using it; the source panics there.
- Kzg.LoadContext: parsing of the setup file, and points that are not on the curve. A setup of powers shorter than the blob is outside `Setup`.
- Reader.DecodedReader.Read: offsets are unbounded numbers; the source would wrap near 2^64.
- Reader.DecodedReader.Make: failures of seek and close.
- SlabIngest.BuildArtifacts: I/O errors, the staging directory and its race (one atomic commit here), the worker pool (each worker writes to places of its own), and errors of the root computations.
- SlabRead.LoadSlabIndex: the cache keyed by modification time. ResolveFileByPath, GetFileLocation and GetFileMetaByPath repeat the same lookup.
- SlabHistory.BuildSlab: files whose name is empty; their records are tombstones.
- SlabRead.Fetch: the source restores the one MDU of a fetched blob; here every MDU of the range is restored the same way. Providers answer with what they stored or with something of another size.
- Expand.ExpandMduEncoded: expand_mdu_encoded_flat is the same loop with another output and is not modelled apart.
- SessionMerkle.OnlyStandInAccepted: for paths as long as those of the leaves; the verifier takes paths of any length.
- Sessions.SessionStore.Store: the checks that owner, provider and path are not blank, trimming of ids, creation time and JSON errors.
- SessionLookups.ShownAfterTake: lookups check the expiry before they fill the cache, as those of download sessions do; those of fetch sessions check it after.
- SessionRuns.StepKeeps: the in-memory store without a database is modelled one operation at a time only, as its append is not atomic.
- RequestReplay.ReplayGuard.CheckAndStore: the in-memory guard is modelled one request at a time only. Clocks are numbers.
- SessionPlan.Mode1PlanIsExact: price, provider and fallback stripe parameters of the plan.
- ChainedProof.MakeProof: signing and submitting a proof, and its header cache.
- The simulation, test-network and signature-debug scripts.
