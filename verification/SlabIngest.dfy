/** Creating a Mode 2 slab from a file and appending files to it. */
module SlabIngest {
  import opened Bytes
  import opened Codec
  import opened ErasureCode
  import opened Stripe
  import opened ExpandFlat
  import opened Layout
  import opened Mdu0
  import opened Reader
  import opened SlabLayout

  /** A new slab directory with the roots its manifest commits to. */
  datatype Ingest = Stored(dir: Dir, roots: seq<seq<byte>>) | Rejected

  // ----- user MDUs -----

  /** ExpandPayloadRs: the witness bytes and the shards of one payload. */
  method ExpandPayload(chunk: seq<byte>, s: Scheme) returns (flat: seq<byte>, shards: seq<seq<byte>>)
    requires ValidScheme(s) && |chunk| <= MDU_PAYLOAD_BYTES
    ensures flat == Flat(Encoded(chunk), s) && shards == Shards(Encoded(chunk), s.code)
  {
    hide Lawful, Concat, Witness, Shard, Encoded, EncodedByte, Rows;
    var k, m := s.code.k, s.code.m;
    var rows := Rows(k);
    FlatSize(k, m);
    var outWitness := new byte[(k + m) * rows * 48](_ => 0);
    var outShards := new byte[(k + m) * rows * BLOB_SIZE](_ => 0);
    var r := ExpandPayloadFlat(chunk, k, m, s.code, s.commit, outWitness, outShards);
    flat := outWitness[..];
    ghost var parts := Shards(Encoded(chunk), s.code);
    var len := rows * BLOB_SIZE;
    shards := [];
    for slot := 0 to k + m
      invariant |shards| == slot && shards == parts[..slot]
      invariant outShards[..] == Concat(parts)
    {
      ConcatPart(parts, len, slot);
      shards := shards + [outShards[slot * len..slot * len + len]];
    }
  }

  /** Reading a file MDU by MDU: expand each, keep its root and witness bytes, store its shards. The
      source does this for all MDUs in parallel, each writing to places of its own. */
  method EncodeFile(content: seq<byte>, s: Scheme, base: nat, before: map<(nat, nat), seq<byte>>)
      returns (roots: seq<seq<byte>>, bytes: seq<byte>, stored: map<(nat, nat), seq<byte>>)
    requires ValidScheme(s)
    ensures roots == UserRoots(FileMdus(content), s) && bytes == WitnessBytes(FileMdus(content), s)
    ensures ShardsStored(stored, base, FileMdus(content), s)
    ensures forall key :: key in before && key.0 < base ==> key in stored && stored[key] == before[key]
    ensures forall key :: key in stored ==> key in before || key.0 >= base
  {
    hide ValidScheme, Flat, Encoded, Shards, Concat, WitnessBytes;
    roots, bytes, stored := [], [], before;
    ghost var mdus := FileMdus(content);
    var count, pos, i := MduCount(|content|), 0, 0;
    NoWitness(s);
    while i < count
      invariant 0 <= i <= count
      invariant pos == if i * MDU_PAYLOAD_BYTES <= |content| then i * MDU_PAYLOAD_BYTES else |content|
      invariant roots == UserRoots(mdus[..i], s) && bytes == WitnessBytes(mdus[..i], s)
      invariant ShardsStored(stored, base, mdus[..i], s)
      invariant forall key :: key in before && key.0 < base ==> key in stored && stored[key] == before[key]
      invariant forall key :: key in stored ==> key in before || key.0 >= base
    {
      var chunk :=
        if |content| - pos > MDU_PAYLOAD_BYTES then content[pos..pos + MDU_PAYLOAD_BYTES] else content[pos..];
      pos := pos + |chunk|;
      assert chunk == Cut(content, i);
      var flat, shards := ExpandPayload(chunk, s);
      RootIs(s, flat);
      roots := roots + [s.userRoot(flat)];
      bytes := bytes + flat;
      stored := StoreShards(stored, base, i, shards, mdus, s);
      WitnessNext(mdus, i, s);
      i := i + 1;
    }
    assert mdus[..count] == mdus;
  }

  lemma NoWitness(s: Scheme)
    requires ValidScheme(s)
    ensures WitnessBytes([], s) == []
  {
  }

  lemma RootIs(s: Scheme, b: seq<byte>)
    requires ValidScheme(s)
    ensures |s.userRoot(b)| == ROOT_SIZE && |s.mduRoot(b)| == ROOT_SIZE
  {
  }

  lemma WitnessNext(mdus: seq<seq<byte>>, i: nat, s: Scheme)
    requires AllMdus(mdus) && ValidScheme(s) && i < |mdus|
    ensures WitnessBytes(mdus[..i + 1], s) == WitnessBytes(mdus[..i], s) + Flat(mdus[i], s)
    ensures UserRoots(mdus[..i + 1], s) == UserRoots(mdus[..i], s) + [s.userRoot(Flat(mdus[i], s))]
  {
    hide ValidScheme, Flat;
    assert mdus[..i + 1] == mdus[..i] + [mdus[i]];
    WitnessBytesAppend(mdus[..i], [mdus[i]], s);
    assert Flats([mdus[i]], s) == [Flat(mdus[i], s)];
    ConcatOne(Flat(mdus[i], s));
  }

  method StoreShards(before: map<(nat, nat), seq<byte>>, base: nat, i: nat, shards: seq<seq<byte>>,
                     ghost mdus: seq<seq<byte>>, s: Scheme)
      returns (stored: map<(nat, nat), seq<byte>>)
    requires ValidScheme(s) && AllMdus(mdus) && i < |mdus| && shards == Shards(mdus[i], s.code)
    requires ShardsStored(before, base, mdus[..i], s)
    ensures ShardsStored(stored, base, mdus[..i + 1], s)
    ensures forall key :: key in before && key.0 < base ==> key in stored && stored[key] == before[key]
    ensures forall key :: key in stored ==> key in before || key.0 >= base
  {
    hide ValidScheme, Shards;
    stored := before;
    ghost var n, part := s.code.k + s.code.m, mdus[..i + 1];
    for slot := 0 to s.code.k + s.code.m
      invariant forall key :: key in before && key.0 != base + i ==> key in stored && stored[key] == before[key]
      invariant forall key :: key in stored ==> key in before || key.0 >= base
      invariant forall t: nat :: t < slot ==> Kept(stored, base + i, t, shards[t])
    {
      ghost var soFar := stored;
      stored := stored[(base + i, slot) := shards[slot]];
      forall t: nat | t < slot + 1 ensures Kept(stored, base + i, t, shards[t]) {
        if t < slot {
          assert Kept(soFar, base + i, t, shards[t]);
        }
      }
    }
    forall u: nat, slot: nat | u < |part| && slot < n ensures ShardAt(stored, base, part, s, u, slot) {
      if u < i {
        assert ShardAt(before, base, mdus[..i], s, u, slot);
      } else {
        assert Kept(stored, base + i, slot, shards[slot]);
      }
    }
  }

  ghost predicate Kept(stored: map<(nat, nat), seq<byte>>, i: nat, slot: nat, shard: seq<byte>) {
    (i, slot) in stored && stored[(i, slot)] == shard
  }

  // ----- the root table -----

  function SetRange(table: seq<seq<byte>>, at: nat, roots: seq<seq<byte>>): (t: seq<seq<byte>>)
    ensures |t| == |table|
  {
    seq(|table|, j requires 0 <= j < |table| => if at <= j < at + |roots| then roots[j - at] else table[j])
  }

  method SetRoots(b: Mdu0Builder, at: nat, roots: seq<seq<byte>>) returns (ok: bool)
    requires b.Valid() && forall i :: 0 <= i < |roots| ==> |roots[i]| == ROOT_SIZE
    modifies b.buffer
    ensures b.Valid() && b.Records() == old(b.Records())
    ensures ok <==> roots == [] || at + |roots| <= MAX_ROOTS
    ensures ok ==> b.Roots() == SetRange(old(b.Roots()), at, roots)
  {
    hide RootTable, RecordTable, HeaderAt;
    var i := 0;
    while i < |roots|
      invariant 0 <= i <= |roots| && b.Valid() && b.Records() == old(b.Records())
      invariant i == 0 || at + i <= MAX_ROOTS
      invariant b.Roots() == SetRange(old(b.Roots()), at, roots[..i])
    {
      var done := b.SetRoot(at + i, roots[i]);
      if !done {
        return false;
      }
      i := i + 1;
    }
    assert roots[..|roots|] == roots;
    return true;
  }

  /** Encoding the witness bytes into witness MDUs, with their roots. */
  method BuildWitness(bytes: seq<byte>, w: nat, s: Scheme, b: Mdu0Builder)
      returns (ok: bool, mdus: map<nat, seq<byte>>, roots: seq<seq<byte>>)
    requires ValidScheme(s) && b.Valid()
    modifies b.buffer
    ensures b.Valid() && b.Records() == old(b.Records())
    ensures ok <==> w <= MAX_ROOTS
    ensures ok ==> b.Roots() == SetRange(old(b.Roots()), 0, WitnessRoots(bytes, w, s))
    ensures ok ==> WitnessStored(mdus, bytes, w) && roots == WitnessRoots(bytes, w, s)
    ensures forall key :: key in mdus ==> key <= w
  {
    hide RootTable, RecordTable, HeaderAt, ValidScheme, Encoded;
    mdus, roots := map[], [];
    var i := 0;
    while i < w
      invariant 0 <= i <= w && b.Valid() && b.Records() == old(b.Records()) && i <= MAX_ROOTS
      invariant b.Roots() == SetRange(old(b.Roots()), 0, WitnessRoots(bytes, i, s))
      invariant WitnessStored(mdus, bytes, i) && roots == WitnessRoots(bytes, i, s)
      invariant forall key :: key in mdus ==> key <= i
    {
      var start := i * MDU_PAYLOAD_BYTES;
      var end := start + MDU_PAYLOAD_BYTES;
      var chunk := [];
      if start < |bytes| {
        if end > |bytes| {
          end := |bytes|;
        }
        chunk := bytes[start..end];
      }
      assert chunk == WitnessPayload(bytes, i);
      var encoded := EncodeToMdu(chunk);
      RootIs(s, encoded[..]);
      var root := s.mduRoot(encoded[..]);
      roots := roots + [root];
      var done := b.SetRoot(i, root);
      if !done {
        return false, mdus, roots;
      }
      ghost var before := mdus;
      mdus := mdus[1 + i := encoded[..]];
      forall j: nat | j < i + 1 ensures WitnessAt(mdus, bytes, j) {
        if j < i {
          assert WitnessAt(before, bytes, j);
        }
      }
      i := i + 1;
    }
    return true, mdus, roots;
  }

  /** AppendFile of the gateway's binding: the path becomes a C string, which has to be text. */
  method AppendFile(b: Mdu0Builder, f: File, start: nat, s: Scheme) returns (ok: bool)
    requires b.Valid() && start < U64
    modifies b`header, b.buffer
    ensures b.Valid() && b.Roots() == old(b.Roots())
    ensures ok <==> s.isText(Name(f.path)) && |old(b.Records())| < MAX_RECORDS
    ensures b.Records() == if ok then old(b.Records()) + [RecordFor(f, start)] else old(b.Records())
  {
    hide RootTable, RecordTable, HeaderAt;
    var name := Name(f.path);
    if !s.isText(name) {
      return false;
    }
    var path := name + seq(PATH_SIZE - |name|, _ => 0);
    ok := b.AppendFileRecord(FileRecord(start, PackLengthAndFlags(|f.content|, 0), 0, path));
  }

  // ----- creating a slab -----

  /** The root table has room for the slab of these files. */
  ghost predicate TableFits(files: seq<File>, s: Scheme)
    requires s.code.k > 0
  {
    UserCount(files) + WitnessCount(UserCount(files), s.code) <= MAX_ROOTS
  }

  /** The roots a manifest commits to: MDU 0, the witness MDUs and the user MDUs. */
  ghost function ManifestRoots(d: Dir, c: Content, s: Scheme): seq<seq<byte>>
    requires ValidScheme(s)
  {
    if 0 in d.mdus then [s.mduRoot(d.mdus[0])] + TableRoots(c, s) else []
  }

  /** The finished MDU 0 and the directory with it. */
  lemma Finished(b: Mdu0Builder, d: Dir, c: Content, s: Scheme)
    requires ValidScheme(s) && ValidContent(c, s) && b.Valid() && b.Records() == c.records
    requires TableHolds(b.Roots(), TableRoots(c, s)) && 0 in d.mdus && d.mdus[0] == b.buffer[..]
    requires forall key :: key in d.mdus ==> key <= WitnessCount(|c.user|, s.code)
    requires WitnessStored(d.mdus, c.commitments, WitnessCount(|c.user|, s.code))
    requires ShardsStored(d.shards, 1 + WitnessCount(|c.user|, s.code), c.user, s)
    requires ShardsFrom(d.shards, 1 + WitnessCount(|c.user|, s.code))
    ensures IsSlabOf(d, c, s)
  {
    hide ValidScheme, RootTable, RecordTable, TableRoots, HeaderOf, ShardsStored, WitnessStored, TableHolds,
         WitnessCount, ShardsFrom, ValidContent;
  }

  /** What the slab of one file holds. */
  lemma OneContent(file: File, s: Scheme)
    requires ValidScheme(s)
    ensures var c, mdus := ContentOf([file], s), FileMdus(file.content);
      c.user == mdus && c.commitments == WitnessBytes(mdus, s) && c.records == [RecordFor(file, 0)] &&
      |mdus| == MduCount(|file.content|) && UserCount([file]) == |mdus| &&
      TableRoots(c, s) == WitnessRoots(WitnessBytes(mdus, s), WitnessCount(|mdus|, s.code), s) + UserRoots(mdus, s)
  {
    hide ValidScheme, FileMdus, UserMdus, SlabLayout.Records, WitnessBytes, WitnessRoots, UserRoots, RecordFor, RootsOf,
         WitnessCount, MduCount;
    SchemeParams(s);
    OneFile(file);
    RootsOfMdus(FileMdus(file.content), s);
  }

  lemma OneFile(file: File)
    ensures UserMdus([file]) == FileMdus(file.content) && Records([file]) == [RecordFor(file, 0)]
  {
    RecordsAppend([], file);
    assert [] + [file] == [file];
    assert UserMdus([]) == [] && UserCount([]) == 0;
  }

  lemma NewTable(table: seq<seq<byte>>, users: seq<seq<byte>>, witnesses: seq<seq<byte>>)
    requires forall i :: 0 <= i < |table| ==> table[i] == ZeroRoot()
    requires |witnesses| + |users| <= |table|
    ensures TableHolds(SetRange(SetRange(table, |witnesses|, users), 0, witnesses), witnesses + users)
  {
    hide ZeroRoot;
  }

  /** mode2BuildArtifacts: it stores the slab of the file, or rejects a path that is not text or a slab
      too big for the root table. */
  method BuildArtifacts(file: File, s: Scheme) returns (r: Ingest)
    requires ValidScheme(s)
    ensures r.Stored? <==> TableFits([file], s) && s.isText(Name(file.path))
    ensures r.Stored? ==> IsSlab(r.dir, [file], s) && r.roots == ManifestRoots(r.dir, ContentOf([file], s), s)
  {
    hide ValidScheme, RootTable, RecordTable, HeaderAt, WitnessRoots, UserRoots, FileMdus, UserMdus, SlabLayout.Records,
         WitnessBytes, LeafCount, WitnessMdus, ShardsStored, TableHolds, IsSlabOf, RecordFor, ZeroRoot, MduCount,
         ContentOf, TableRoots, ValidContent;
    OneContent(file, s);
    var userMdus := MduCount(|file.content|);
    SchemeParams(s);
    var builder := new Mdu0Builder(userMdus, LeafCount(s.code));
    var w := builder.witnessMduCount;
    ghost var zeros := builder.Roots();
    assert forall i :: 0 <= i < |zeros| ==> zeros[i] == ZeroRoot() by { ZeroRootIs(); }
    var userRoots, bytes, shards := EncodeFile(file.content, s, 1 + w, map[]);
    UserRootSizes(FileMdus(file.content), s);
    var ok := SetRoots(builder, w, userRoots);
    if !ok {
      return Rejected;
    }
    var mdus, witnessRoots;
    ok, mdus, witnessRoots := BuildWitness(bytes, w, s, builder);
    if !ok {
      return Rejected;
    }
    NewTable(zeros, userRoots, witnessRoots);
    ok := AppendFile(builder, file, 0, s);
    if !ok {
      return Rejected;
    }
    var mdu0 := builder.Bytes();
    var dir := Dir(mdus[0 := mdu0], shards);
    WitnessBeside(mdus, mdu0, bytes, w);
    Finished(builder, dir, ContentOf([file], s), s);
    return Stored(dir, [s.mduRoot(mdu0)] + witnessRoots + userRoots);
  }

  lemma UserRootSizes(mdus: seq<seq<byte>>, s: Scheme)
    requires AllMdus(mdus) && ValidScheme(s)
    ensures forall i :: 0 <= i < |mdus| ==> |UserRoots(mdus, s)[i]| == ROOT_SIZE
  {
    hide Flat, ValidScheme;
    forall i | 0 <= i < |mdus| ensures |UserRoots(mdus, s)[i]| == ROOT_SIZE {
      RootIs(s, Flat(mdus[i], s));
    }
  }

  lemma SchemeParams(s: Scheme)
    requires ValidScheme(s)
    ensures s.code.k > 0 && s.code.m > 0
  {
  }

  lemma ZeroRootIs()
    ensures ZeroRoot() == seq(ROOT_SIZE, _ => 0)
  {
  }

  lemma WitnessBeside(mdus: map<nat, seq<byte>>, mdu0: seq<byte>, bytes: seq<byte>, w: nat)
    requires WitnessStored(mdus, bytes, w)
    ensures WitnessStored(mdus[0 := mdu0], bytes, w)
  {
    var both := mdus[0 := mdu0];
    forall i: nat | i < w ensures WitnessAt(both, bytes, i) {
      assert WitnessAt(mdus, bytes, i);
    }
  }
}
