/** What a gateway reads off MDU 0: the files by name, how far the user data reaches, and from the number
    of roots how many witness MDUs there are. */
module SlabIndex {
  import opened Bytes
  import opened Codec
  import opened ErasureCode
  import opened Layout
  import opened Mdu0
  import opened SlabLayout

  // ----- the extent of the user data -----

  function Max(a: nat, b: nat): nat {
    if a < b then b else a
  }

  /** The highest end of a record that is not a tombstone. */
  function MaxEnd(records: seq<FileRecord>): nat
    requires forall i :: 0 <= i < |records| ==> |records[i].path| == PATH_SIZE
  {
    if records == [] then 0
    else
      var last := records[|records| - 1];
      Max(MaxEnd(records[..|records| - 1]), if Tombstone(last) then 0 else End(last))
  }

  /** The number of user MDUs the records account for. */
  function RecordedMdus(maxEnd: nat): nat {
    if maxEnd > 0 then (maxEnd + MDU_PAYLOAD_BYTES - 1) / MDU_PAYLOAD_BYTES else 0
  }

  /** The number of user MDUs that the records of a slab account for. */
  function Counted(c: Content): nat
    requires forall i :: 0 <= i < |c.records| ==> |c.records[i].path| == PATH_SIZE
  {
    RecordedMdus(MaxEnd(c.records))
  }

  method HighWater(b: Mdu0Builder) returns (maxEnd: nat)
    requires b.Valid()
    ensures AllFit(b.Records()) && maxEnd == MaxEnd(b.Records())
  {
    hide RootTable, RecordTable, HeaderAt, End, Tombstone;
    b.RecordsFit();
    b.CountIs();
    ghost var records := b.Records();
    assert records[..0] == [];
    maxEnd := 0;
    for i := 0 to b.header.recordCount
      invariant maxEnd == MaxEnd(records[..i])
    {
      assert records[..i + 1][..i] == records[..i];
      var rec := b.GetFileRecord(i);
      if rec.path[0] == 0 {
        assert Tombstone(rec) by { TombstoneIs(rec); }
        continue;
      }
      assert !Tombstone(rec) by { TombstoneIs(rec); }
      var end := rec.startOffset + UnpackLengthAndFlags(rec.lengthAndFlags).0;
      assert end == End(rec) by { EndIs(rec); }
      if end > maxEnd {
        maxEnd := end;
      }
    }
    assert records[..|records|] == records;
  }

  lemma TombstoneIs(r: FileRecord)
    requires |r.path| == PATH_SIZE
    ensures Tombstone(r) <==> r.path[0] == 0
  {
  }

  lemma EndIs(r: FileRecord)
    ensures End(r) == r.startOffset + UnpackLengthAndFlags(r.lengthAndFlags).0
  {
  }

  lemma RecordOfFile(f: File, start: nat)
    requires |f.content| < LENGTH_LIMIT
    ensures var r := RecordFor(f, start);
      r.startOffset == start && Length(r) == |f.content| && End(r) == start + |f.content|
    ensures Tombstone(RecordFor(f, start)) <==> Name(f.path) == []
  {
    PackUnpack(|f.content|, 0, 0);
  }

  /** No record reaches beyond the last user MDU. */
  lemma {:induction false} EndsInside(files: seq<File>)
    requires UserCount(files) <= MAX_ROOTS
    ensures MaxEnd(Records(files)) <= UserCount(files) * MDU_PAYLOAD_BYTES
  {
    hide RecordFor, End, UserMdus, FileMdus, Tombstone;
    if files != [] {
      var rest, f := files[..|files| - 1], files[|files| - 1];
      assert files == rest + [f];
      RecordsAppend(rest, f);
      EndsInside(rest);
      RecordOfFile(f, UserCount(rest) * MDU_PAYLOAD_BYTES);
      assert Records(files)[..|rest|] == Records(rest);
    }
  }

  /** The record of the last file ends highest. */
  lemma LastEnd(files: seq<File>, f: File)
    requires Name(f.path) != [] && UserCount(files + [f]) <= MAX_ROOTS
    ensures MaxEnd(Records(files + [f])) == UserCount(files) * MDU_PAYLOAD_BYTES + |f.content|
  {
    hide RecordFor, End, UserMdus, FileMdus, Tombstone;
    var start := UserCount(files) * MDU_PAYLOAD_BYTES;
    RecordsAppend(files, f);
    EndsInside(files);
    RecordOfFile(f, start);
    assert Records(files + [f])[..|files|] == Records(files);
  }

  /** The records account for every user MDU, but not for the one an empty last file takes. */
  lemma RecordedIsCounted(files: seq<File>, f: File)
    requires Name(f.path) != [] && UserCount(files + [f]) <= MAX_ROOTS
    ensures RecordedMdus(MaxEnd(Records(files + [f])))
      == if f.content == [] then UserCount(files + [f]) - 1 else UserCount(files + [f])
  {
    hide UserMdus, SlabLayout.Records, MaxEnd;
    LastEnd(files, f);
    UserMdusSnoc(files, f);
  }

  // ----- the number of witness MDUs -----

  function NonZeroRoots(roots: seq<seq<byte>>): (n: nat)
    ensures n <= |roots|
  {
    if roots == [] then 0
    else NonZeroRoots(roots[..|roots| - 1]) + (if roots[|roots| - 1] != ZeroRoot() then 1 else 0)
  }

  datatype Inferred = Known(witnessCount: nat) | InvalidSlab

  /** The number of roots beyond the recorded user MDUs; with no root at all, of files in the directory
      beyond them and MDU 0. */
  function WitnessesLeft(roots: nat, user: nat, dirMdus: nat): (r: Inferred)
    ensures roots > 0 ==> (r.Known? <==> user <= roots) && (r.Known? ==> r.witnessCount + user == roots)
    ensures roots == 0 ==> (r.Known? <==> 1 + user <= dirMdus) && (r.Known? ==> 1 + r.witnessCount + user == dirMdus)
  {
    if roots > 0 then if roots < user then InvalidSlab else Known(roots - user)
    else if dirMdus == 0 || dirMdus - 1 < user then InvalidSlab
    else Known(dirMdus - 1 - user)
  }

  method IsZero(root: seq<byte>) returns (zero: bool)
    requires |root| == ROOT_SIZE
    ensures zero <==> root == ZeroRoot()
  {
    for i := 0 to ROOT_SIZE
      invariant forall j :: 0 <= j < i ==> root[j] == 0
    {
      if root[i] != 0 {
        return false;
      }
    }
    return true;
  }

  /** inferWitnessCount, with the number of mdu files in the directory */
  method InferWitnessCount(b: Mdu0Builder, dirMdus: nat) returns (r: Inferred)
    requires b.Valid()
    ensures AllFit(b.Records())
    ensures r == WitnessesLeft(NonZeroRoots(b.Roots()), RecordedMdus(MaxEnd(b.Records())), dirMdus)
  {
    hide RootTable, RecordTable, HeaderAt, MaxEnd;
    var maxEnd := HighWater(b);
    var userCount := 0;
    if maxEnd > 0 {
      userCount := (maxEnd + MDU_PAYLOAD_BYTES - 1) / MDU_PAYLOAD_BYTES;
    }
    ghost var roots := b.Roots();
    assert roots[..0] == [];
    var totalRoots := 0;
    for i := 0 to MAX_ROOTS
      invariant totalRoots == NonZeroRoots(roots[..i])
    {
      assert roots[..i + 1][..i] == roots[..i];
      var root := b.GetRoot(i);
      var zero := IsZero(root);
      if !zero {
        totalRoots := totalRoots + 1;
      }
    }
    assert roots[..MAX_ROOTS] == roots;
    return WitnessesLeft(totalRoots, userCount, dirMdus);
  }

  lemma {:induction false} NonZeroPrefix(table: seq<seq<byte>>, roots: seq<seq<byte>>)
    requires TableHolds(table, roots)
    ensures NonZeroRoots(table) == NonZeroRoots(roots)
    decreases |table|
  {
    hide ZeroRoot;
    if |table| == |roots| {
      assert table == roots;
    } else {
      NonZeroPrefix(table[..|table| - 1], roots);
    }
  }

  lemma {:induction false} AllNonZero(roots: seq<seq<byte>>)
    requires forall i :: 0 <= i < |roots| ==> roots[i] != ZeroRoot()
    ensures NonZeroRoots(roots) == |roots|
  {
    hide ZeroRoot;
    if roots != [] { AllNonZero(roots[..|roots| - 1]); }
  }

  /** On any slab without a zero root, the inferred number of witness MDUs is the real one plus the number of
      user MDUs that the records do not account for. */
  lemma InferredCount(d: Dir, c: Content, s: Scheme, dirMdus: nat)
    requires ValidScheme(s) && IsSlabOf(d, c, s) && NoZeroRoot(c, s) && c.user != [] && Counted(c) <= |c.user|
    ensures WitnessesLeft(NonZeroRoots(RootTable(d.mdus[0])), Counted(c), dirMdus)
      == Known(WitnessCount(|c.user|, s.code) + (|c.user| - Counted(c)))
  {
    hide ValidScheme, RootTable, RecordTable, HeaderAt, TableRoots, WitnessCount, NonZeroRoots, Counted, ShardsStored,
         WitnessStored, ShardsFrom, Restored;
    AllNonZero(TableRoots(c, s));
    NonZeroPrefix(RootTable(d.mdus[0]), TableRoots(c, s));
  }

  /** On the slab of any files the inferred number of witness MDUs is the real one exactly when the last
      file is not empty. */
  lemma InferredIsReal(d: Dir, files: seq<File>, f: File, s: Scheme, dirMdus: nat)
    requires ValidScheme(s) && IsSlab(d, files + [f], s) && NoZeroRoot(ContentOf(files + [f], s), s)
    requires Name(f.path) != []
    ensures var w := WitnessCount(UserCount(files + [f]), s.code);
      WitnessesLeft(NonZeroRoots(RootTable(d.mdus[0])), RecordedMdus(MaxEnd(Records(files + [f]))), dirMdus)
        == Known(if f.content == [] then w + 1 else w)
  {
    hide ValidScheme, RootTable, RecordTable, HeaderAt, UserMdus, SlabLayout.Records, MaxEnd, TableRoots, WitnessCount,
         NonZeroRoots, RecordedMdus, ShardsStored, WitnessStored, NoZeroRoot, WitnessBytes;
    var all := files + [f];
    assert UserCount(all) >= 1;
    UserFit(d, all, s);
    RecordedIsCounted(files, f);
    InferredCount(d, ContentOf(all, s), s, dirMdus);
  }

  lemma UserFit(d: Dir, files: seq<File>, s: Scheme)
    requires ValidScheme(s) && IsSlab(d, files, s)
    ensures UserCount(files) + WitnessCount(UserCount(files), s.code) <= MAX_ROOTS
  {
    hide ValidScheme, RecordTable, HeaderAt, UserMdus, SlabLayout.Records, WitnessCount, ShardsStored, WitnessStored,
         WitnessBytes;
  }

  // ----- files by name -----

  /** Trailing zero bytes removed. */
  function Trimmed(path: seq<byte>): (n: seq<byte>)
    ensures |n| <= |path| && n == path[..|n|]
  {
    if path != [] && path[|path| - 1] == 0 then Trimmed(path[..|path| - 1]) else path
  }

  /** Padding with zeros and trimming them gives a name back. */
  lemma {:induction false} TrimPadded(name: seq<byte>, n: nat)
    requires forall i :: 0 <= i < |name| ==> name[i] != 0
    ensures Trimmed(name + seq(n, _ => 0)) == name
  {
    var p := name + seq(n, _ => 0);
    if n == 0 {
      assert p == name;
    } else {
      TrimPadded(name, n - 1);
      assert p[..|p| - 1] == name + seq(n - 1, _ => 0);
    }
  }

  datatype FileInfo = FileInfo(start: nat, len: nat)

  /** The place of the last record with a name; tombstones have none. */
  function Lookup(records: seq<FileRecord>, name: seq<byte>): Option<FileInfo>
    requires forall i :: 0 <= i < |records| ==> |records[i].path| == PATH_SIZE
  {
    if records == [] then None
    else
      var last := records[|records| - 1];
      if !Tombstone(last) && Trimmed(last.path) == name then Some(FileInfo(last.startOffset, Length(last)))
      else Lookup(records[..|records| - 1], name)
  }

  /** The table of files that loadSlabIndex builds */
  method IndexFiles(b: Mdu0Builder) returns (files: map<seq<byte>, FileInfo>)
    requires b.Valid()
    ensures AllFit(b.Records())
    ensures forall name :: Lookup(b.Records(), name) == if name in files then Some(files[name]) else None
  {
    hide RootTable, RecordTable, HeaderAt, Tombstone, Trimmed;
    b.RecordsFit();
    b.CountIs();
    ghost var records := b.Records();
    files := map[];
    assert records[..0] == [];
    for i := 0 to b.header.recordCount
      invariant forall name :: Lookup(records[..i], name) == if name in files then Some(files[name]) else None
    {
      assert records[..i + 1][..i] == records[..i];
      var rec := b.GetFileRecord(i);
      TombstoneIs(rec);
      if rec.path[0] != 0 {
        files := files[Trimmed(rec.path) := FileInfo(rec.startOffset, UnpackLengthAndFlags(rec.lengthAndFlags).0)];
        LengthIs(rec);
      }
    }
    assert records[..|records|] == records;
  }

  /** The file a name stands for: the last one stored under it. */
  ghost function LastNamed(files: seq<File>, name: seq<byte>): (j: nat)
    requires exists i :: 0 <= i < |files| && Name(files[i].path) == name
    ensures j < |files| && Name(files[j].path) == name
    ensures forall i :: j < i < |files| ==> Name(files[i].path) != name
  {
    var n := |files| - 1;
    if Name(files[n].path) == name then n else LastNamed(files[..n], name)
  }

  /** Records of files, wherever they start. */
  ghost predicate RecordsOf(records: seq<FileRecord>, files: seq<File>) {
    |records| == |files| && forall j :: 0 <= j < |files| ==>
      records[j] == RecordFor(files[j], records[j].startOffset) && |files[j].content| < LENGTH_LIMIT
  }

  lemma RecordPaths(records: seq<FileRecord>, files: seq<File>)
    requires RecordsOf(records, files)
    ensures forall j :: 0 <= j < |records| ==> |records[j].path| == PATH_SIZE
  {
    hide Name;
  }

  /** Looking up the name of a file finds the record of the last file of that name. */
  lemma {:induction false} LookupFindsLast(records: seq<FileRecord>, files: seq<File>, name: seq<byte>)
    requires name != [] && RecordsOf(records, files)
    ensures forall j :: 0 <= j < |records| ==> |records[j].path| == PATH_SIZE
    ensures Lookup(records, name) ==
      if exists i :: 0 <= i < |files| && Name(files[i].path) == name
      then var j := LastNamed(files, name); Some(FileInfo(records[j].startOffset, |files[j].content|))
      else None
    decreases |files|
  {
    hide RecordFor, Tombstone, Trimmed, Name, End, UnpackLengthAndFlags, Length, LastNamed;
    RecordPaths(records, files);
    if files != [] {
      var n := |files| - 1;
      var f := files[n];
      assert records[n] == RecordFor(f, records[n].startOffset);
      RecordOfFile(f, records[n].startOffset);
      RecordName(f, records[n].startOffset);
      LastNamedStep(files, name);
      if Name(f.path) != name {
        LookupFindsLast(records[..n], files[..n], name);
      }
    }
  }

  lemma LastNamedStep(files: seq<File>, name: seq<byte>)
    requires files != []
    ensures var n := |files| - 1;
      if Name(files[n].path) == name then
        (exists i :: 0 <= i < |files| && Name(files[i].path) == name) && LastNamed(files, name) == n
      else
        ((exists i :: 0 <= i < |files| && Name(files[i].path) == name) <==>
          exists i :: 0 <= i < n && Name(files[..n][i].path) == name) &&
        ((exists i :: 0 <= i < n && Name(files[..n][i].path) == name) ==>
          LastNamed(files, name) == LastNamed(files[..n], name))
  {
    hide Name;
    var n := |files| - 1;
    if i :| 0 <= i < n && Name(files[..n][i].path) == name {
      assert Name(files[i].path) == name;
    }
    if i :| 0 <= i < |files| && Name(files[i].path) == name {
      assert i < n ==> Name(files[..n][i].path) == name;
    }
  }

  lemma RecordName(f: File, start: nat)
    ensures Trimmed(RecordFor(f, start).path) == Name(f.path)
  {
    TrimPadded(Name(f.path), PATH_SIZE - |Name(f.path)|);
  }
}
