/** Appending a file to a Mode 2 slab: old shards move, old witness bytes are read back, all witness MDUs
    and all roots are made anew. */
module SlabAppend {
  import opened Bytes
  import opened Codec
  import opened ErasureCode
  import opened Stripe
  import opened ExpandFlat
  import opened Layout
  import opened Mdu0
  import opened SlabLayout
  import opened SlabIngest
  import opened SlabIndex

  type ShardFiles = map<(nat, nat), seq<byte>>

  // ----- what is taken from the old slab -----

  /** Copying the shards of one MDU; a missing shard file stops it. */
  method CopyMduShards(from: ShardFiles, oldIndex: nat, newIndex: nat, slots: nat, before: ShardFiles)
      returns (ok: bool, copied: ShardFiles)
    ensures ok <==> forall slot: nat | slot < slots :: (oldIndex, slot) in from
    ensures ok ==> forall slot: nat | slot < slots :: Kept(copied, newIndex, slot, from[(oldIndex, slot)])
    ensures ok ==> forall key :: key in before && key.0 != newIndex ==> key in copied && copied[key] == before[key]
    ensures forall key :: key in copied ==> key in before || key.0 == newIndex
  {
    copied := before;
    for slot := 0 to slots
      invariant forall t: nat | t < slot :: (oldIndex, t) in from && Kept(copied, newIndex, t, from[(oldIndex, t)])
      invariant forall key :: key in before && key.0 != newIndex ==> key in copied && copied[key] == before[key]
      invariant forall key :: key in copied ==> key in before || key.0 == newIndex
    {
      if (oldIndex, slot) !in from {
        return false, copied;
      }
      ghost var soFar := copied;
      copied := copied[(newIndex, slot) := from[(oldIndex, slot)]];
      forall t: nat | t < slot ensures Kept(copied, newIndex, t, from[(oldIndex, t)]) {
        assert Kept(soFar, newIndex, t, from[(oldIndex, t)]);
      }
    }
    return true, copied;
  }

  /** The shards of the first `count` user MDUs move from one base index to another. Where there is none at the old
      base index, this stops. */
  method CopyShards(from: ShardFiles, oldBase: nat, newBase: nat, count: nat, s: Scheme, ghost mdus: seq<seq<byte>>)
      returns (ok: bool, copied: ShardFiles)
    requires ValidScheme(s) && AllMdus(mdus) && count <= |mdus|
    ensures ShardsStored(from, oldBase, mdus[..count], s) ==> ok && ShardsStored(copied, newBase, mdus[..count], s)
    ensures ok && count > 0 ==> (oldBase, 0) in from
    ensures ShardsFrom(copied, newBase)
  {
    hide ValidScheme, Shards;
    SchemeParams(s);
    copied := map[];
    ghost var good := ShardsStored(from, oldBase, mdus[..count], s);
    for i := 0 to count
      invariant good ==> ShardsStored(copied, newBase, mdus[..i], s)
      invariant ShardsFrom(copied, newBase)
      invariant i > 0 ==> (oldBase, 0) in from
    {
      ghost var soFar := copied;
      var slots, oldIndex, newIndex := s.code.k + s.code.m, oldBase + i, newBase + i;
      ok, copied := CopyMduShards(from, oldIndex, newIndex, slots, copied);
      if good {
        forall slot: nat | slot < slots ensures (oldIndex, slot) in from {
          assert ShardAt(from, oldBase, mdus[..count], s, i, slot);
        }
      }
      if !ok {
        return;
      }
      if good {
        MovedShards(from, oldBase, newBase, oldIndex, newIndex, i, soFar, copied, mdus, count, s);
      }
    }
    ok := true;
  }

  lemma MovedShards(from: ShardFiles, oldBase: nat, newBase: nat, oldIndex: nat, newIndex: nat, i: nat,
                    before: ShardFiles, copied: ShardFiles, mdus: seq<seq<byte>>, count: nat, s: Scheme)
    requires ValidScheme(s) && AllMdus(mdus) && i < count <= |mdus|
    requires oldIndex == oldBase + i && newIndex == newBase + i
    requires ShardsStored(from, oldBase, mdus[..count], s) && ShardsStored(before, newBase, mdus[..i], s)
    requires forall slot: nat | slot < s.code.k + s.code.m ::
      (oldIndex, slot) in from && Kept(copied, newIndex, slot, from[(oldIndex, slot)])
    requires forall key :: key in before && key.0 != newIndex ==> key in copied && copied[key] == before[key]
    ensures ShardsStored(copied, newBase, mdus[..i + 1], s)
  {
    hide ValidScheme, Shards;
    var part, n := mdus[..i + 1], s.code.k + s.code.m;
    forall u: nat, slot: nat | u < |part| && slot < n ensures ShardAt(copied, newBase, part, s, u, slot) {
      if u < i {
        assert ShardAt(before, newBase, mdus[..i], s, u, slot);
      } else {
        assert ShardAt(from, oldBase, mdus[..count], s, i, slot);
        assert Kept(copied, newIndex, slot, from[(oldIndex, slot)]);
      }
    }
  }

  /** How many of n bytes are taken from witness MDU i. */
  function SegmentOf(n: nat, i: nat): (k: nat)
    ensures k <= MDU_PAYLOAD_BYTES
    ensures i * MDU_PAYLOAD_BYTES >= n ==> k == 0
  {
    if i * MDU_PAYLOAD_BYTES >= n then 0
    else if n - i * MDU_PAYLOAD_BYTES > MDU_PAYLOAD_BYTES then MDU_PAYLOAD_BYTES
    else n - i * MDU_PAYLOAD_BYTES
  }

  /** What is decoded from the first w witness MDUs of some bytes when there should be n of them. */
  function KeptBytes(all: seq<byte>, n: nat, w: nat): (b: seq<byte>)
    ensures |b| == if w * MDU_PAYLOAD_BYTES < n then w * MDU_PAYLOAD_BYTES else n
  {
    if w == 0 then []
    else KeptBytes(all, n, w - 1) + Decoded(Encoded(WitnessPayload(all, w - 1)), SegmentOf(n, w - 1))
  }

  /** Decoding the first w witness MDUs into at most `total` bytes. */
  method DecodeWitness(mdus: map<nat, seq<byte>>, w: nat, total: nat, ghost all: seq<byte>, ghost wAll: nat)
      returns (bytes: seq<byte>)
    requires w <= wAll && WitnessStored(mdus, all, wAll)
    ensures bytes == KeptBytes(all, total, w)
    ensures total == |all| ==> bytes == all[..|bytes|]
  {
    hide Encoded, EncodedByte, Decoded;
    bytes := [];
    for i := 0 to w
      invariant bytes == KeptBytes(all, total, i)
      invariant total == |all| ==> bytes == all[..|bytes|]
    {
      assert WitnessAt(mdus, all, i);
      var encoded := mdus[1 + i];
      var start, segLen := i * MDU_PAYLOAD_BYTES, 0;
      if start < total {
        segLen := total - start;
        if segLen > MDU_PAYLOAD_BYTES {
          segLen := MDU_PAYLOAD_BYTES;
        }
      }
      var decoded := DecodePayload(encoded, segLen);
      if total == |all| {
        assert |WitnessPayload(all, i)| == segLen;
        DecodeEncode(WitnessPayload(all, i));
      }
      bytes := bytes + decoded.value;
    }
  }

  /** Roots made from witness bytes, one stretch per user MDU. */
  method RootsFromWitness(bytes: seq<byte>, count: nat, s: Scheme) returns (roots: seq<seq<byte>>)
    requires ValidScheme(s) && |bytes| >= count * Span(s.code)
    ensures |roots| == count && forall i :: 0 <= i < count ==> |roots[i]| == ROOT_SIZE
    ensures roots == RootsOf(bytes, count, s)
  {
    hide ValidScheme, Span;
    SchemeParams(s);
    roots := [];
    var span := Span(s.code);
    for i := 0 to count
      invariant |roots| == i && forall j :: 0 <= j < i ==> |roots[j]| == ROOT_SIZE
      invariant roots == RootsOf(bytes, i, s)
    {
      StretchInside(i, count, span);
      var flat := bytes[i * span..i * span + span];
      RootIs(s, flat);
      RootsNext(bytes, i, s);
      assert flat == StretchOf(bytes, i, span);
      roots := roots + [s.userRoot(flat)];
    }
  }

  lemma RootsNext(bytes: seq<byte>, i: nat, s: Scheme)
    requires ValidScheme(s)
    ensures RootsOf(bytes, 0, s) == []
    ensures RootsOf(bytes, i + 1, s) == RootsOf(bytes, i, s) + [s.userRoot(StretchOf(bytes, i, Span(s.code)))]
  {
    hide Lawful, Span, StretchOf;
  }

  /** The stretch of a user MDU is its witness bytes. */
  lemma Stretch(bytes: seq<byte>, mdus: seq<seq<byte>>, i: nat, s: Scheme)
    requires ValidScheme(s) && AllMdus(mdus) && i < |mdus| && |bytes| >= |mdus| * Span(s.code)
    requires bytes[..|mdus| * Span(s.code)] == WitnessBytes(mdus, s)
    ensures 0 <= i * Span(s.code) && i * Span(s.code) + Span(s.code) <= |bytes|
    ensures bytes[i * Span(s.code)..i * Span(s.code) + Span(s.code)] == Flat(mdus[i], s)
  {
    hide ValidScheme, Flat, Concat, Span;
    SchemeParams(s);
    var flats := Flats(mdus, s);
    assert Concat(flats) == WitnessBytes(mdus, s);
    PartOfPrefix(bytes, flats, Span(s.code), i);
  }

  lemma PartOfPrefix(bytes: seq<byte>, parts: seq<seq<byte>>, len: nat, i: nat)
    requires i < |parts| && forall j :: 0 <= j < |parts| ==> |parts[j]| == len
    requires 0 <= |parts| * len <= |bytes| && bytes[..|parts| * len] == Concat(parts)
    ensures 0 <= i * len && i * len + len <= |bytes| && bytes[i * len..i * len + len] == parts[i]
  {
    hide Concat;
    StretchInside(i, |parts|, len);
    ConcatPart(parts, len, i);
    SliceOfSlice(bytes, 0, |parts| * len, i * len, i * len + len);
  }

  lemma StretchInside(i: nat, count: nat, span: nat)
    requires i < count
    ensures 0 <= i * span <= i * span + span <= count * span
  {
    assert count * span == i * span + span + (count - i - 1) * span;
    assert (count - i - 1) * span >= 0 && i * span >= 0;
  }

  // ----- the new slab -----

  lemma WitnessMonotone(a: nat, b: nat, c: Code)
    requires c.k > 0 && a <= b
    ensures WitnessCount(a, c) <= WitnessCount(b, c)
  {
    var l := Commitments(LeafCount(c));
    MoreSlots(a, b - a, l);
    assert a * l * COMMITMENT_BYTES <= b * l * COMMITMENT_BYTES;
  }

  /** Witness roots and user roots over a table that held no more roots than these. */
  lemma GrownTable(table: seq<seq<byte>>, before: seq<seq<byte>>, users: seq<seq<byte>>, witnesses: seq<seq<byte>>)
    requires TableHolds(table, before) && |before| <= |witnesses| + |users| <= |table|
    ensures TableHolds(SetRange(SetRange(table, 0, witnesses), |witnesses|, users), witnesses + users)
  {
    hide ZeroRoot;
  }

  lemma {:induction false} BothStored(stored: ShardFiles, base: nat, a: seq<seq<byte>>, b: seq<seq<byte>>, s: Scheme)
    requires ValidScheme(s) && AllMdus(a) && AllMdus(b)
    requires ShardsStored(stored, base, a, s) && ShardsStored(stored, base + |a|, b, s)
    ensures AllMdus(a + b) && ShardsStored(stored, base, a + b, s)
  {
    hide ValidScheme, Shards;
    var both, n := a + b, s.code.k + s.code.m;
    forall u: nat, slot: nat | u < |both| && slot < n ensures ShardAt(stored, base, both, s, u, slot) {
      if u < |a| {
        assert ShardAt(stored, base, a, s, u, slot);
      } else {
        assert ShardAt(stored, base + |a|, b, s, u - |a|, slot);
      }
    }
  }

  lemma KeptShards(before: ShardFiles, after: ShardFiles, base: nat, mdus: seq<seq<byte>>, s: Scheme)
    requires ValidScheme(s) && AllMdus(mdus) && ShardsStored(before, base, mdus, s)
    requires forall key :: key in before && key.0 < base + |mdus| ==> key in after && after[key] == before[key]
    ensures ShardsStored(after, base, mdus, s)
  {
    hide ValidScheme, Shards;
    var n := s.code.k + s.code.m;
    forall u: nat, slot: nat | u < |mdus| && slot < n ensures ShardAt(after, base, mdus, s, u, slot) {
      assert ShardAt(before, base, mdus, s, u, slot);
    }
  }

  /** The roots of more witness bytes: those of the first ones, then those of the rest. */
  lemma RootsOfSum(a: seq<byte>, b: seq<byte>, m: nat, n: nat, s: Scheme)
    requires ValidScheme(s) && |a| == m * Span(s.code) && |b| == n * Span(s.code)
    ensures RootsOf(a + b, m + n, s) == RootsOf(a + b, m, s) + RootsOf(b, n, s)
    ensures RootsOf(a + b, m, s) == RootsOf(a, m, s)
  {
    hide ValidScheme, Span;
    SchemeParams(s);
    var span := Span(s.code);
    forall i | 0 <= i < n ensures StretchOf(a + b, m + i, span) == StretchOf(b, i, span) {
      StretchInside(i, n, span);
      StretchInside(m + i, m + n, span);
      StretchShift(m, i, span);
      assert (a + b)[m * span + i * span..m * span + i * span + span] == b[i * span..i * span + span];
    }
    forall i | 0 <= i < m ensures StretchOf(a + b, i, span) == StretchOf(a, i, span) {
      StretchInside(i, m, span);
      StretchInside(i, m + n, span);
      SumOfProducts(m, n, span);
    }
  }

  lemma StretchShift(m: nat, i: nat, span: nat)
    ensures (m + i) * span == m * span + i * span
  {
  }

  lemma SumOfProducts(m: nat, n: nat, span: nat)
    ensures (m + n) * span == m * span + n * span
  {
  }

  /** All witness bytes of the slab found room in its witness MDUs. */
  ghost predicate WitnessFits(userMdus: nat, c: Code)
    requires c.k > 0
  {
    userMdus * Span(c) <= WitnessCount(userMdus, c) * MDU_PAYLOAD_BYTES
  }

  ghost predicate LastNonEmpty(files: seq<File>) {
    files != [] && files[|files| - 1].content != []
  }

  // ----- one append, on any slab -----

  /** The records account for all user MDUs but perhaps the last one. */
  ghost predicate Follows(c: Content)
    requires forall i :: 0 <= i < |c.records| ==> |c.records[i].path| == PATH_SIZE
  {
    Counted(c) <= |c.user| <= Counted(c) + 1
  }

  /** What a slab holds after appending a file: the user MDUs that the records account for and those of the file, the
      old witness bytes as they were decoded and those of the file, and one more record. */
  ghost function Appended(c: Content, f: File, s: Scheme): (a: Content)
    requires ValidScheme(s) && ValidContent(c, s) && Follows(c)
  {
    var n, mdus := Counted(c), FileMdus(f.content);
    SchemeParams(s);
    Content(c.user[..n] + mdus,
            KeptBytes(c.commitments, n * Span(s.code), WitnessCount(n, s.code)) + WitnessBytes(mdus, s),
            c.records + [RecordFor(f, n * MDU_PAYLOAD_BYTES)])
  }

  /** When appending a file to a slab works: some user MDU is accounted for, the number of witness MDUs computed from
      the records is the real one, the old witness bytes found room in them, the path is text, and both tables
      have room. */
  ghost predicate AppendableTo(c: Content, f: File, s: Scheme)
    requires ValidScheme(s) && ValidContent(c, s)
  {
    var n, total := Counted(c), Counted(c) + MduCount(|f.content|);
    SchemeParams(s);
    n > 0 && WitnessCount(n, s.code) == WitnessCount(|c.user|, s.code) && WitnessFits(n, s.code) &&
    s.isText(Name(f.path)) && |c.records| < MAX_RECORDS && total + WitnessCount(total, s.code) <= MAX_ROOTS
  }

  lemma AppendableMeans(c: Content, f: File, s: Scheme)
    requires ValidScheme(s) && ValidContent(c, s)
    ensures s.code.k > 0
    ensures var n, total := Counted(c), Counted(c) + MduCount(|f.content|);
      AppendableTo(c, f, s) <==>
        n > 0 && WitnessCount(n, s.code) == WitnessCount(|c.user|, s.code) &&
        n * Span(s.code) <= WitnessCount(n, s.code) * MDU_PAYLOAD_BYTES &&
        s.isText(Name(f.path)) && |c.records| < MAX_RECORDS && total + WitnessCount(total, s.code) <= MAX_ROOTS
  {
    hide Lawful, Span, WitnessCount, Counted, MduCount, Name;
  }

  /** What the old slab gives the append. */
  lemma OldSlab(d: Dir, c: Content, s: Scheme)
    requires ValidScheme(s) && IsSlabOf(d, c, s)
    ensures ValidContent(c, s) && 0 in d.mdus && Loadable(d.mdus[0])
    ensures HeaderAt(d.mdus[0]).recordCount == |c.records| <= MAX_RECORDS
    ensures RecordTable(d.mdus[0], |c.records|) == c.records
    ensures Mdu0Holds(d.mdus[0], c.records, TableRoots(c, s))
    ensures |c.user| + WitnessCount(|c.user|, s.code) <= MAX_ROOTS
    ensures var w := WitnessCount(|c.user|, s.code);
      WitnessStored(d.mdus, c.commitments, w) && ShardsStored(d.shards, 1 + w, c.user, s) && ShardsFrom(d.shards, 1 + w)
  {
    hide ValidScheme, RecordTable, HeaderAt, TableRoots, WitnessCount, ShardsStored, WitnessStored, ShardsFrom,
         ValidContent;
  }

  lemma PathsFit(c: Content, s: Scheme)
    requires ValidScheme(s) && ValidContent(c, s)
    ensures AllMdus(c.user) && |c.commitments| == |c.user| * Span(s.code)
    ensures forall i :: 0 <= i < |c.records| ==> |c.records[i].path| == PATH_SIZE
  {
  }

  lemma LoadedSlab(b: Mdu0Builder, d: Dir, c: Content, s: Scheme)
    requires ValidScheme(s) && 0 in d.mdus && Mdu0Holds(d.mdus[0], c.records, TableRoots(c, s))
    requires b.Valid() && b.buffer[..] == d.mdus[0] && b.header == HeaderAt(d.mdus[0])
    ensures b.Records() == c.records && TableHolds(b.Roots(), TableRoots(c, s)) && |b.Roots()| == MAX_ROOTS
  {
    hide ValidScheme, RootTable, RecordTable, HeaderAt, TableRoots;
  }

  lemma StartFits(n: nat)
    requires n <= MAX_ROOTS
    ensures n * MDU_PAYLOAD_BYTES < U64
  {
  }

  lemma ManifestIs(d: Dir, c: Content, s: Scheme)
    requires ValidScheme(s) && 0 in d.mdus
    ensures ManifestRoots(d, c, s) == [s.mduRoot(d.mdus[0])] + TableRoots(c, s)
  {
    hide ValidScheme, TableRoots;
  }

  lemma FileMdusCount(content: seq<byte>)
    ensures |FileMdus(content)| == MduCount(|content|)
  {
  }

  /** The parts of the new content, and its roots. */
  lemma AppendedParts(c: Content, f: File, s: Scheme)
    requires ValidScheme(s) && ValidContent(c, s) && Follows(c) && s.code.k > 0
    requires Counted(c) * Span(s.code) <= WitnessCount(Counted(c), s.code) * MDU_PAYLOAD_BYTES
    ensures var a, n, mdus := Appended(c, f, s), Counted(c), FileMdus(f.content);
      var kept := KeptBytes(c.commitments, n * Span(s.code), WitnessCount(n, s.code));
      var total := n + MduCount(|f.content|);
      a.user == c.user[..n] + mdus && a.commitments == kept + WitnessBytes(mdus, s) && ValidContent(a, s) &&
      a.records == c.records + [RecordFor(f, n * MDU_PAYLOAD_BYTES)] && |a.user| == total &&
      |kept| == n * Span(s.code) && |c.user| <= total &&
      TableRoots(a, s) == WitnessRoots(a.commitments, WitnessCount(total, s.code), s) +
                          (RootsOf(a.commitments, n, s) + UserRoots(mdus, s))
  {
    hide Lawful, Span, WitnessCount, Counted, MduCount, FileMdus, KeptBytes, WitnessBytes, WitnessRoots, RootsOf,
         UserRoots;
    var n, mdus := Counted(c), FileMdus(f.content);
    FileMdusCount(f.content);
    var kept := KeptBytes(c.commitments, n * Span(s.code), WitnessCount(n, s.code));
    RootsOfSum(kept, WitnessBytes(mdus, s), n, |mdus|, s);
    RootsOfMdus(mdus, s);
    SumOfProducts(n, |mdus|, Span(s.code));
  }

  lemma Monotone(a: nat, b: nat, c: Code)
    requires c.k > 0
    ensures a <= b ==> WitnessCount(a, c) <= WitnessCount(b, c)
  {
    if a <= b { WitnessMonotone(a, b, c); }
  }

  /** The rebuilt root table: the new witness roots, all user roots, and zeros, although both counts grew. */
  lemma NewRoots(table: seq<seq<byte>>, c: Content, f: File, s: Scheme)
    requires ValidScheme(s) && ValidContent(c, s) && Follows(c) && s.code.k > 0
    requires Counted(c) * Span(s.code) <= WitnessCount(Counted(c), s.code) * MDU_PAYLOAD_BYTES
    requires TableHolds(table, TableRoots(c, s))
    requires var total := Counted(c) + MduCount(|f.content|); total + WitnessCount(total, s.code) <= |table|
    ensures var a, total := Appended(c, f, s), Counted(c) + MduCount(|f.content|);
      var w := WitnessCount(total, s.code);
      var ws := WitnessRoots(a.commitments, w, s);
      var us := RootsOf(a.commitments, Counted(c), s) + UserRoots(FileMdus(f.content), s);
      TableHolds(SetRange(SetRange(table, 0, ws), w, us), TableRoots(a, s)) && TableRoots(a, s) == ws + us
  {
    hide *;
    PathsFit(c, s);
    AppendedParts(c, f, s);
    var a, n := Appended(c, f, s), Counted(c);
    var total := n + MduCount(|f.content|);
    var w := WitnessCount(total, s.code);
    Monotone(|c.user|, total, s.code);
    FileMdusCount(f.content);
    GrownTable(table, TableRoots(c, s), RootsOf(a.commitments, n, s) + UserRoots(FileMdus(f.content), s),
               WitnessRoots(a.commitments, w, s));
  }

  /** The second half of appending, once the old slab was read: `oldBytes` are the witness bytes of
      `oldUser` user MDUs whose shards are in their new place. */
  method Extend(builder: Mdu0Builder, file: File, s: Scheme, oldUser: nat, oldBytes: seq<byte>, shards: ShardFiles,
                ghost c: Content) returns (r: Ingest)
    requires ValidScheme(s) && ValidContent(c, s) && Follows(c) && oldUser == Counted(c) && builder.Valid()
    requires oldUser <= MAX_ROOTS && oldUser * Span(s.code) <= WitnessCount(oldUser, s.code) * MDU_PAYLOAD_BYTES
    requires builder.Records() == c.records && TableHolds(builder.Roots(), TableRoots(c, s))
    requires |builder.Roots()| == MAX_ROOTS
    requires oldBytes == KeptBytes(c.commitments, oldUser * Span(s.code), WitnessCount(oldUser, s.code))
    requires var base := 1 + WitnessCount(oldUser + MduCount(|file.content|), s.code);
      ShardsStored(shards, base, c.user[..oldUser], s) && ShardsFrom(shards, base)
    modifies builder, builder.buffer
    ensures var total := oldUser + MduCount(|file.content|);
      r.Stored? <==>
        s.isText(Name(file.path)) && |c.records| < MAX_RECORDS && total + WitnessCount(total, s.code) <= MAX_ROOTS
    ensures r.Stored? ==>
      IsSlabOf(r.dir, Appended(c, file, s), s) && r.roots == ManifestRoots(r.dir, Appended(c, file, s), s)
  {
    hide *;
    SchemeParams(s);
    PathsFit(c, s);
    FollowsMeans(c);
    AppendedParts(c, file, s);
    StartFits(oldUser);
    FileMdusCount(file.content);
    ghost var a, oldMdus, newMdus := Appended(c, file, s), c.user[..oldUser], FileMdus(file.content);
    ghost var table := builder.Roots();
    PartMdus(c.user, oldUser);
    var w := WitnessCount(oldUser + MduCount(|file.content|), s.code);
    var ok := AppendFile(builder, file, oldUser * MDU_PAYLOAD_BYTES, s);
    if !ok {
      return Rejected;
    }
    var newRoots, newBytes, stored := EncodeFile(file.content, s, 1 + w + oldUser, shards);
    var bytes := oldBytes + newBytes;
    var oldRoots := RootsFromWitness(bytes, oldUser, s);
    var mdus, witnessRoots;
    ok, mdus, witnessRoots := BuildWitness(bytes, w, s, builder);
    if !ok {
      return Rejected;
    }
    var userRoots := oldRoots + newRoots;
    UserRootSizes(newMdus, s);
    ok := SetRoots(builder, w, userRoots);
    if !ok {
      return Rejected;
    }
    var mdu0 := builder.Bytes();
    var dir := Dir(mdus[0 := mdu0], stored);
    NewRoots(table, c, file, s);
    KeptShards(shards, stored, 1 + w, oldMdus, s);
    BothStored(stored, 1 + w, oldMdus, newMdus, s);
    FromMore(shards, stored, 1 + w, oldUser);
    WitnessBeside(mdus, mdu0, bytes, w);
    Finished(builder, dir, a, s);
    ManifestIs(dir, a, s);
    return Stored(dir, [s.mduRoot(mdu0)] + witnessRoots + userRoots);
  }

  lemma PartMdus(mdus: seq<seq<byte>>, n: nat)
    requires AllMdus(mdus)
    ensures n <= |mdus| ==> AllMdus(mdus[..n])
  {
  }

  lemma FromMore(before: ShardFiles, after: ShardFiles, base: nat, n: nat)
    requires ShardsFrom(before, base) && forall key :: key in after ==> key in before || key.0 >= base + n
    ensures ShardsFrom(after, base)
  {
  }

  /** mode2BuildArtifactsAppend on any slab. */
  method Append(from: Dir, file: File, s: Scheme, ghost c: Content) returns (r: Ingest)
    requires ValidScheme(s) && IsSlabOf(from, c, s) && Follows(c)
    ensures r.Stored? <==> AppendableTo(c, file, s)
    ensures r.Stored? ==>
      IsSlabOf(r.dir, Appended(c, file, s), s) && r.roots == ManifestRoots(r.dir, Appended(c, file, s), s)
  {
    hide *;
    SchemeParams(s);
    OldSlab(from, c, s);
    PathsFit(c, s);
    FollowsMeans(c);
    AppendableMeans(c, file, s);
    var leaves := LeafCount(s.code);
    var loaded := Mdu0Builder.Load(from.mdus[0], 1, leaves);
    LoadedSlab(loaded, from, c, s);
    var maxEnd := HighWater(loaded);
    var oldUser := RecordedMdus(maxEnd);
    CountedIs(c);
    if oldUser == 0 {
      return Rejected;
    }
    var newUser := MduCount(|file.content|);
    var total := oldUser + newUser;
    var oldW := WitnessCount(oldUser, s.code);
    var w := WitnessCount(total, s.code);
    ghost var wAll := WitnessCount(|c.user|, s.code);
    Monotone(oldUser, |c.user|, s.code);
    assert oldUser <= |c.user|;
    var ok, shards := CopyShards(from.shards, 1 + oldW, 1 + w, oldUser, s, c.user);
    NoShardBelow(from.shards, 1 + wAll, 1 + oldW);
    FirstShards(from.shards, 1 + wAll, c.user, oldUser, s);
    if !ok {
      return Rejected;
    }
    var oldTotal := oldUser * Span(s.code);
    var oldBytes := DecodeWitness(from.mdus, oldW, oldTotal, c.commitments, wAll);
    if |oldBytes| != oldTotal {
      return Rejected;
    }
    var builder := Mdu0Builder.Load(from.mdus[0], total, leaves);
    LoadedSlab(builder, from, c, s);
    r := Extend(builder, file, s, oldUser, oldBytes, shards, c);
  }

  lemma FollowsMeans(c: Content)
    requires forall i :: 0 <= i < |c.records| ==> |c.records[i].path| == PATH_SIZE
    ensures Follows(c) <==> Counted(c) <= |c.user| <= Counted(c) + 1
  {
    hide Counted;
  }

  lemma CountedIs(c: Content)
    requires forall i :: 0 <= i < |c.records| ==> |c.records[i].path| == PATH_SIZE
    ensures Counted(c) == RecordedMdus(MaxEnd(c.records))
  {
    hide MaxEnd, RecordedMdus;
  }

  lemma NoShardBelow(shards: ShardFiles, base: nat, index: nat)
    requires ShardsFrom(shards, base)
    ensures (index, 0) in shards ==> index >= base
  {
  }

  lemma FirstShards(shards: ShardFiles, base: nat, mdus: seq<seq<byte>>, n: nat, s: Scheme)
    requires ValidScheme(s) && AllMdus(mdus) && n <= |mdus| && ShardsStored(shards, base, mdus, s)
    ensures ShardsStored(shards, base, mdus[..n], s)
  {
    hide ValidScheme, Shards;
    var part, slots := mdus[..n], s.code.k + s.code.m;
    forall u: nat, slot: nat | u < |part| && slot < slots ensures ShardAt(shards, base, part, s, u, slot) {
      assert ShardAt(shards, base, mdus, s, u, slot);
    }
  }
}
