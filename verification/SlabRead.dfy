/** Reading files of a Mode 2 slab back by name. */
module SlabRead {
  import opened Bytes
  import opened Codec
  import opened ErasureCode
  import opened Stripe
  import opened Reconstruct
  import opened Layout
  import opened Mdu0
  import opened Reader
  import opened SlabLayout
  import opened SlabIngest
  import opened SlabAppend
  import opened SlabIndex
  import opened SlabHistory

  // ----- the index of a slab -----

  datatype SlabEntry = SlabEntry(witnessCount: nat, files: map<seq<byte>, FileInfo>)

  /** An index with this number of witness MDUs and the files of these records. */
  ghost predicate Indexes(r: Option<SlabEntry>, left: Inferred, records: seq<FileRecord>)
    requires AllFit(records)
  {
    match left
    case InvalidSlab => r.None?
    case Known(w) => r.Some? && r.value.witnessCount == w && Lists(r.value.files, records)
  }

  ghost predicate Lists(files: map<seq<byte>, FileInfo>, records: seq<FileRecord>)
    requires AllFit(records)
  {
    forall name :: Lookup(records, name) == if name in files then Some(files[name]) else None
  }

  lemma IndexesKnown(r: Option<SlabEntry>, w: nat, records: seq<FileRecord>, name: seq<byte>)
    requires AllFit(records) && Indexes(r, Known(w), records)
    ensures r.Some? && r.value.witnessCount == w
    ensures Lookup(records, name) == if name in r.value.files then Some(r.value.files[name]) else None
  {
    hide Lookup;
  }

  /** loadSlabIndex */
  method LoadSlabIndex(d: Dir) returns (r: Option<SlabEntry>)
    requires 0 in d.mdus && (Loadable(d.mdus[0]) ==> HeaderAt(d.mdus[0]).recordCount <= MAX_RECORDS)
    ensures !Loadable(d.mdus[0]) ==> r.None?
    ensures Loadable(d.mdus[0]) ==> AllFit(RecordTable(d.mdus[0], HeaderAt(d.mdus[0]).recordCount))
    ensures Loadable(d.mdus[0]) ==>
      var records := RecordTable(d.mdus[0], HeaderAt(d.mdus[0]).recordCount);
      var left := WitnessesLeft(NonZeroRoots(RootTable(d.mdus[0])), RecordedMdus(MaxEnd(records)), |d.mdus|);
      Indexes(r, left, records)
  {
    hide RootTable, HeaderAt, MaxEnd, Lookup, NonZeroRoots, RecordedMdus, WitnessesLeft;
    var b := Mdu0Builder.Load(d.mdus[0], 1, 64);
    if b == null {
      return None;
    }
    var files := IndexFiles(b);
    var inferred := InferWitnessCount(b, |d.mdus|);
    match inferred {
      case InvalidSlab => return None;
      case Known(w) => return Some(SlabEntry(w, files));
    }
  }

  /** The index of a slab that holds some files: the number of witness MDUs, plus the user MDUs that the records do
      not account for, and under every name the last file stored under it. */
  ghost predicate RightIndex(e: SlabEntry, c: Content, files: seq<File>, s: Scheme)
    requires ValidScheme(s) && Serves(c, files, s)
  {
    e.witnessCount == WitnessCount(|c.user|, s.code) + (|c.user| - Counted(c)) &&
    forall name: seq<byte> :: name != [] ==> RightEntry(e, c.records, files, name)
  }

  ghost predicate RightEntry(e: SlabEntry, records: seq<FileRecord>, files: seq<File>, name: seq<byte>)
    requires |records| == |files|
  {
    if exists i :: 0 <= i < |files| && Name(files[i].path) == name then
      var j := LastNamed(files, name);
      name in e.files && e.files[name] == FileInfo(records[j].startOffset, |files[j].content|)
    else name !in e.files
  }

  method IndexSlab(d: Dir, s: Scheme, ghost c: Content, ghost files: seq<File>) returns (r: Option<SlabEntry>)
    requires ValidScheme(s) && IsSlabOf(d, c, s) && NoZeroRoot(c, s) && Serves(c, files, s)
    ensures r.Some? && RightIndex(r.value, c, files, s)
  {
    hide *;
    IndexFacts(d, c, files, s);
    r := LoadSlabIndex(d);
    ghost var w := WitnessCount(|c.user|, s.code) + (|c.user| - Counted(c));
    IndexesKnown(r, w, c.records, []);
    forall name: seq<byte> | name != [] ensures RightEntry(r.value, c.records, files, name) {
      LookupFindsLast(c.records, files, name);
      IndexesKnown(r, w, c.records, name);
      RightEntryIs(r.value, c.records, files, name);
    }
    RightIndexIs(r.value, c, files, s);
  }

  lemma RightEntryIs(e: SlabEntry, records: seq<FileRecord>, files: seq<File>, name: seq<byte>)
    requires |records| == |files|
    ensures RightEntry(e, records, files, name) <==>
      (if name in e.files then Some(e.files[name]) else None) ==
        if exists i :: 0 <= i < |files| && Name(files[i].path) == name
        then var j := LastNamed(files, name); Some(FileInfo(records[j].startOffset, |files[j].content|))
        else None
  {
    hide Name, LastNamed;
  }

  lemma RightIndexIs(e: SlabEntry, c: Content, files: seq<File>, s: Scheme)
    requires ValidScheme(s) && Serves(c, files, s)
    ensures s.code.k > 0 && |c.records| == |files|
    ensures forall i :: 0 <= i < |c.records| ==> |c.records[i].path| == PATH_SIZE
    ensures RightIndex(e, c, files, s) <==>
      e.witnessCount == WitnessCount(|c.user|, s.code) + (|c.user| - Counted(c)) &&
      forall name: seq<byte> :: name != [] ==> RightEntry(e, c.records, files, name)
  {
    hide RightEntry, WitnessCount, Counted, Lawful;
    PathsFit(c, s);
  }

  lemma IndexFacts(d: Dir, c: Content, files: seq<File>, s: Scheme)
    requires ValidScheme(s) && IsSlabOf(d, c, s) && NoZeroRoot(c, s) && Serves(c, files, s)
    ensures 0 in d.mdus && Loadable(d.mdus[0]) && HeaderAt(d.mdus[0]).recordCount == |c.records| <= MAX_RECORDS
    ensures RecordTable(d.mdus[0], |c.records|) == c.records && RecordsOf(c.records, files) && s.code.k > 0
    ensures |c.records| == |files|
    ensures forall i :: 0 <= i < |c.records| ==> |c.records[i].path| == PATH_SIZE
    ensures WitnessesLeft(NonZeroRoots(RootTable(d.mdus[0])), RecordedMdus(MaxEnd(c.records)), |d.mdus|)
      == Known(WitnessCount(|c.user|, s.code) + (|c.user| - Counted(c)))
  {
    hide *;
    ServesMeans(c, files, s);
    SchemeParams(s);
    OldSlab(d, c, s);
    PathsFit(c, s);
    FollowsMeans(c);
    CountedIs(c);
    InferredCount(d, c, s, |d.mdus|);
    HeldRecords(c, files);
  }

  lemma HeldRecords(c: Content, files: seq<File>)
    requires forall i :: 0 <= i < |c.records| ==> |c.records[i].path| == PATH_SIZE
    requires HoldsFiles(c, files)
    ensures RecordsOf(c.records, files) && |c.records| == |files|
  {
    hide HoldsMdus, RecordFor;
    forall j | 0 <= j < |files|
      ensures c.records[j] == RecordFor(files[j], c.records[j].startOffset) && |files[j].content| < LENGTH_LIMIT
    {
      assert HoldsFile(c, j, files[j]);
    }
  }

  // ----- bringing user MDUs back from shards -----

  /** What the slots answer for an MDU, on the first and on the second asking: an answer of the right size
      is the shard that was stored. */
  ghost predicate HonestAnswers(first: Source, second: Source, mdu: seq<byte>, c: Code)
    requires |mdu| == MDU_SIZE && ValidParams(c.k, c.m) && Lawful(c)
  {
    |first| == |second| == c.k + c.m && forall i :: 0 <= i < c.k + c.m ==>
      (Usable(first[i], Rows(c.k) * BLOB_SIZE) ==> first[i].value == Shards(mdu, c)[i]) &&
      (Usable(second[i], Rows(c.k) * BLOB_SIZE) ==> second[i].value == Shards(mdu, c)[i])
  }

  /** Enough slots answered. */
  ghost predicate EnoughAnswers(first: Source, second: Source, c: Code)
    requires c.k > 0
  {
    |first| == |second| == c.k + c.m && UsableCount(first, second, Rows(c.k) * BLOB_SIZE, c.k + c.m) >= c.k
  }

  /** Adding a right user MDU to the directory leaves it the slab it was. */
  lemma RestoringKeepsSlab(d: Dir, c: Content, s: Scheme, u: nat)
    requires ValidScheme(s) && IsSlabOf(d, c, s) && u < |c.user|
    ensures IsSlabOf(d.(mdus := d.mdus[1 + WitnessCount(|c.user|, s.code) + u := c.user[u]]), c, s)
  {
    hide Lawful, Mdu0Holds, Encoded, WitnessCount, ShardsStored, ShardsFrom, TableRoots, ValidContent;
    var w, user := WitnessCount(|c.user|, s.code), c.user;
    var mdus := d.mdus[1 + w + u := user[u]];
    forall i: nat | i < w ensures WitnessAt(mdus, c.commitments, i) {
      assert WitnessAt(d.mdus, c.commitments, i);
    }
    var base := 1 + w;
    forall v: nat | v < |user| ensures RestoredAt(mdus, base, user, v) {
      assert RestoredAt(d.mdus, base, user, v);
    }
  }

  lemma UserOnDisk(d: Dir, c: Content, s: Scheme, u: nat)
    requires ValidScheme(s) && IsSlabOf(d, c, s) && u < |c.user|
    ensures |c.user[u]| == MDU_SIZE
    ensures var index := 1 + WitnessCount(|c.user|, s.code) + u; index in d.mdus ==> d.mdus[index] == c.user[u]
  {
    hide Lawful, Mdu0Holds, WitnessStored, WitnessCount, ShardsStored, ShardsFrom, TableRoots;
    assert RestoredAt(d.mdus, 1 + WitnessCount(|c.user|, s.code), c.user, u);
  }

  /** ensureMode2MduOnDisk: an MDU that is there is taken as it is, another is reconstructed. */
  method EnsureOnDisk(d: Dir, index: nat, first: Source, second: Source, s: Scheme, ghost u: nat, ghost c: Content)
      returns (r: Option<Dir>)
    requires ValidScheme(s) && IsSlabOf(d, c, s) && u < |c.user| && |c.user[u]| == MDU_SIZE
    requires index == 1 + WitnessCount(|c.user|, s.code) + u && HonestAnswers(first, second, c.user[u], s.code)
    ensures r.Some? <==> index in d.mdus || EnoughAnswers(first, second, s.code)
    ensures r.Some? ==> IsSlabOf(r.value, c, s) && index in r.value.mdus && r.value.mdus[index] == c.user[u]
    ensures r.Some? ==> r.value.shards == d.shards
    ensures r.Some? ==> forall key :: key in r.value.mdus <==> key in d.mdus || key == index
  {
    hide IsSlabOf, Lawful, WitnessCount, Shards, Rows, ValidContent;
    UserOnDisk(d, c, s, u);
    if index in d.mdus {
      return Some(d);
    }
    var outcome := EnsureMode2Mdu(first, second, s.code.k, s.code.m, s.code, c.user[u]);
    if outcome.Failed? {
      return None;
    }
    RestoringKeepsSlab(d, c, s, u);
    return Some(d.(mdus := d.mdus[index := outcome.value]));
  }

  // ----- reading a file -----

  datatype Fetched = NotFound | BeyondEof | Unavailable | Fetched(data: seq<byte>, dir: Dir)

  /** The length of what is read: up to the end of the range or of the file, whichever comes first, and with length
      zero the rest of the file. */
  function SegmentLen(fileLen: nat, rangeStart: nat, rangeLen: nat): (n: nat)
    requires rangeStart < fileLen
    ensures rangeLen == 0 ==> rangeStart + n == fileLen
    ensures n > 0 && rangeStart + n <= fileLen
    ensures rangeLen > 0 ==> n <= rangeLen && (n == rangeLen || rangeStart + n == fileLen)
  {
    var remaining := fileLen - rangeStart;
    if rangeLen != 0 && rangeLen < remaining then rangeLen else remaining
  }

  /** The MDU can be had. */
  ghost predicate Obtainable(d: Dir, index: nat, first: nat -> Source, second: nat -> Source, c: Code)
    requires c.k > 0
  {
    index in d.mdus || EnoughAnswers(first(index), second(index), c)
  }

  /** Slots answer, for the index of each user MDU, what was stored. */
  ghost predicate AllHonest(first: nat -> Source, second: nat -> Source, c: Content, s: Scheme)
    requires ValidScheme(s) && AllMdus(c.user)
  {
    forall u: nat :: u < |c.user| ==> HonestFor(first, second, c, s, u)
  }

  ghost predicate HonestFor(first: nat -> Source, second: nat -> Source, c: Content, s: Scheme, u: nat)
    requires ValidScheme(s) && AllMdus(c.user) && u < |c.user|
  {
    var index := 1 + WitnessCount(|c.user|, s.code) + u;
    HonestAnswers(first(index), second(index), c.user[u], s.code)
  }

  lemma HonestAt(first: nat -> Source, second: nat -> Source, c: Content, s: Scheme, u: nat)
    requires ValidScheme(s) && AllMdus(c.user) && AllHonest(first, second, c, s) && u < |c.user|
    ensures |c.user[u]| == MDU_SIZE && s.code.k > 0
    ensures var index := 1 + WitnessCount(|c.user|, s.code) + u;
      HonestAnswers(first(index), second(index), c.user[u], s.code)
  {
    hide HonestAnswers, Lawful, WitnessCount;
    assert HonestFor(first, second, c, s, u);
  }

  /** Bringing back the MDUs lo..hi of the slab, all of them user MDUs. */
  method EnsureRange(d: Dir, lo: nat, hi: nat, first: nat -> Source, second: nat -> Source, s: Scheme,
                     ghost c: Content) returns (r: Option<Dir>)
    requires ValidScheme(s) && IsSlabOf(d, c, s) && AllMdus(c.user) && AllHonest(first, second, c, s)
    requires var base := 1 + WitnessCount(|c.user|, s.code); base <= lo <= hi <= base + |c.user|
    ensures s.code.k > 0 && (r.Some? <==> forall i: nat | lo <= i < hi :: Obtainable(d, i, first, second, s.code))
    ensures r.Some? ==> IsSlabOf(r.value, c, s) && r.value.shards == d.shards
    ensures r.Some? ==> forall i: nat | lo <= i < hi :: i in r.value.mdus
  {
    hide IsSlabOf, ValidScheme, WitnessCount, EnoughAnswers, HonestAnswers, AllHonest, AllMdus;
    SchemeParams(s);
    var dir, i := d, lo;
    while i < hi
      invariant lo <= i <= hi && IsSlabOf(dir, c, s) && dir.shards == d.shards
      invariant forall v: nat | lo <= v < i :: Obtainable(d, v, first, second, s.code)
      invariant forall v: nat | lo <= v < i :: v in dir.mdus
      invariant forall v: nat | i <= v :: v in dir.mdus <==> v in d.mdus
    {
      ghost var u := i - 1 - WitnessCount(|c.user|, s.code);
      HonestAt(first, second, c, s, u);
      var e := EnsureOnDisk(dir, i, first(i), second(i), s, u, c);
      if e.None? {
        assert !Obtainable(d, i, first, second, s.code);
        return None;
      }
      dir := e.value;
      i := i + 1;
    }
    return Some(dir);
  }

  /** The MDUs of a range of a file. */
  lemma MdusOfRange(c: Content, start: nat, content: seq<byte>, from: nat, to: nat)
    requires forall i :: 0 <= i < |c.records| ==> |c.records[i].path| == PATH_SIZE
    requires start % MDU_PAYLOAD_BYTES == 0 && HoldsMdus(c, start / MDU_PAYLOAD_BYTES, content)
    requires from < to <= |content|
    ensures MduOf(start + from) <= MduOf(start + to - 1) < Counted(c)
    ensures forall i: nat :: i * MDU_PAYLOAD_BYTES < to && from < (i + 1) * MDU_PAYLOAD_BYTES ==>
      MduOf(start + from) <= MduOf(start) + i <= MduOf(start + to - 1) && MduOf(start) + i < |c.user| &&
      i * MDU_PAYLOAD_BYTES <= |content| && c.user[MduOf(start) + i] == Encoded(Cut(content, i))
  {
    hide Counted, Encoded, Cut;
    FileMdusCount(content);
    var m := start / MDU_PAYLOAD_BYTES;
    forall i: nat | i * MDU_PAYLOAD_BYTES < to && from < (i + 1) * MDU_PAYLOAD_BYTES
      ensures MduOf(start + from) <= m + i <= MduOf(start + to - 1) && m + i < |c.user|
      ensures i * MDU_PAYLOAD_BYTES <= |content| && c.user[m + i] == Encoded(Cut(content, i))
    {
      MduInRange(|content|, m, from, to, i);
      assert FileMdus(content)[i] == Encoded(Cut(content, i));
    }
    MduInRange(|content|, m, from, to, (to - 1) / MDU_PAYLOAD_BYTES);
  }

  lemma MduInRange(len: nat, m: nat, from: nat, to: nat, i: nat)
    requires from < to <= len && i * MDU_PAYLOAD_BYTES < to && from < (i + 1) * MDU_PAYLOAD_BYTES
    ensures var start := m * MDU_PAYLOAD_BYTES;
      MduOf(start + from) <= m + i <= MduOf(start + to - 1) && i < MduCount(len) &&
      MduOf(start + to - 1) == m + (to - 1) / MDU_PAYLOAD_BYTES
  {
  }

  /** A file of the slab is held as far as its MDUs are there. */
  lemma RangeHeld(d: Dir, c: Content, s: Scheme, start: nat, content: seq<byte>, from: nat, to: nat)
    requires ValidScheme(s) && IsSlabOf(d, c, s)
    requires forall i :: 0 <= i < |c.records| ==> |c.records[i].path| == PATH_SIZE
    requires start % MDU_PAYLOAD_BYTES == 0 && HoldsMdus(c, start / MDU_PAYLOAD_BYTES, content)
    requires from < to <= |content|
    requires var base := 1 + WitnessCount(|c.user|, s.code);
      forall i: nat | base + MduOf(start + from) <= i <= base + MduOf(start + to - 1) :: i in d.mdus
    ensures Holds(Record(d.mdus, 1 + WitnessCount(|c.user|, s.code), start, |content|), start, content, from, to)
  {
    hide Lawful, IsSlabOf, WitnessCount, Encoded, Cut, Holds, HoldsMdus, Counted;
    var base := 1 + WitnessCount(|c.user|, s.code);
    var r := Record(d.mdus, base, start, |content|);
    MdusOfRange(c, start, content, from, to);
    forall i: nat | i * MDU_PAYLOAD_BYTES < to && from < (i + 1) * MDU_PAYLOAD_BYTES
      ensures HoldsMdu(r, start, content, i)
    {
      UserOnDisk(d, c, s, MduOf(start) + i);
    }
    CutFileHolds(r, start, content, from, to);
  }

  /** The right outcome of fetching a range of file j: the bytes, unless the range starts beyond the end
      or some MDU of it cannot be had. Where the records do not account for the last user MDU, as when the
      last file is empty, every MDU is looked for one place further on. */
  ghost predicate FetchedRight(r: Fetched, c: Content, files: seq<File>, j: nat, rangeStart: nat, rangeLen: nat,
                               sizes: seq<nat>, d: Dir, first: nat -> Source, second: nat -> Source, s: Scheme)
    requires ValidScheme(s) && Serves(c, files, s) && j < |files|
  {
    var content, start := files[j].content, c.records[j].startOffset;
    if rangeStart >= |content| then r == BeyondEof
    else
      var end := if rangeLen == 0 || |content| <= rangeStart + rangeLen then |content| else rangeStart + rangeLen;
      var n := end - rangeStart;
      var base := 1 + WitnessCount(|c.user|, s.code) + (|c.user| - Counted(c));
      var lo, hi := base + MduOf(start + rangeStart), base + MduOf(start + rangeStart + n - 1);
      if forall i: nat | lo <= i <= hi :: Obtainable(d, i, first, second, s.code) then
        r.Fetched? && IsSlabOf(r.dir, c, s) &&
        (Counted(c) == |c.user| ==>
          r.data == content[rangeStart..rangeStart + if Sum(sizes) < n then Sum(sizes) else n]) &&
        var data := Readable(Record(r.dir.mdus, base, start, |content|), rangeStart, n);
        r.data == data[..if Sum(sizes) < |data| then Sum(sizes) else |data|]
      else r == Unavailable
  }

  lemma FetchedBeyond(c: Content, files: seq<File>, j: nat, rangeStart: nat, rangeLen: nat, sizes: seq<nat>, d: Dir,
                      first: nat -> Source, second: nat -> Source, s: Scheme)
    requires ValidScheme(s) && Serves(c, files, s) && j < |files| && rangeStart >= |files[j].content|
    ensures FetchedRight(BeyondEof, c, files, j, rangeStart, rangeLen, sizes, d, first, second, s)
  {
    hide Lawful;
  }

  lemma FetchedMissing(c: Content, files: seq<File>, j: nat, rangeStart: nat, rangeLen: nat, sizes: seq<nat>, d: Dir,
                       first: nat -> Source, second: nat -> Source, s: Scheme, lo: nat, hi: nat)
    requires ValidScheme(s) && Serves(c, files, s) && j < |files| && rangeStart < |files[j].content|
    requires forall i :: 0 <= i < |c.records| ==> |c.records[i].path| == PATH_SIZE
    requires |c.records| == |files| && Counted(c) <= |c.user| && s.code.k > 0
    requires var n := SegmentLen(|files[j].content|, rangeStart, rangeLen);
      var base := 1 + WitnessCount(|c.user|, s.code) + (|c.user| - Counted(c));
      var start := c.records[j].startOffset;
      lo == base + MduOf(start + rangeStart) && hi == base + MduOf(start + rangeStart + n - 1)
    requires !forall i: nat | lo <= i < hi + 1 :: Obtainable(d, i, first, second, s.code)
    ensures FetchedRight(Unavailable, c, files, j, rangeStart, rangeLen, sizes, d, first, second, s)
  {
    hide ValidScheme, Serves, Counted, WitnessCount, MduOf, SegmentLen, Obtainable, Readable, IsSlabOf;
  }

  lemma FetchedData(data: seq<byte>, dir: Dir, c: Content, files: seq<File>, j: nat, rangeStart: nat, rangeLen: nat,
                    sizes: seq<nat>, d: Dir, first: nat -> Source, second: nat -> Source, s: Scheme, lo: nat, hi: nat)
    requires ValidScheme(s) && Serves(c, files, s) && j < |files| && rangeStart < |files[j].content|
    requires forall i :: 0 <= i < |c.records| ==> |c.records[i].path| == PATH_SIZE
    requires |c.records| == |files| && Counted(c) <= |c.user| && s.code.k > 0 && IsSlabOf(dir, c, s)
    requires var n := SegmentLen(|files[j].content|, rangeStart, rangeLen);
      var base := 1 + WitnessCount(|c.user|, s.code) + (|c.user| - Counted(c));
      var content, start := files[j].content, c.records[j].startOffset;
      lo == base + MduOf(start + rangeStart) && hi == base + MduOf(start + rangeStart + n - 1) &&
      (Counted(c) == |c.user| ==> data == content[rangeStart..rangeStart + if Sum(sizes) < n then Sum(sizes) else n]) &&
      var all := Readable(Record(dir.mdus, base, start, |content|), rangeStart, n);
      data == all[..if Sum(sizes) < |all| then Sum(sizes) else |all|]
    requires forall i: nat | lo <= i < hi + 1 :: Obtainable(d, i, first, second, s.code)
    ensures FetchedRight(Fetched(data, dir), c, files, j, rangeStart, rangeLen, sizes, d, first, second, s)
  {
    hide ValidScheme, Serves, Counted, WitnessCount, MduOf, SegmentLen, Obtainable, Readable, IsSlabOf, Sum;
  }

  /** Fetching a range of a file by name: look it up, bring back the user MDUs of the range, and read it
      with buffers of any sizes. */
  method Fetch(d: Dir, name: seq<byte>, rangeStart: nat, rangeLen: nat, sizes: seq<nat>,
               first: nat -> Source, second: nat -> Source, s: Scheme, ghost c: Content, ghost files: seq<File>)
      returns (r: Fetched)
    requires ValidScheme(s) && IsSlabOf(d, c, s) && NoZeroRoot(c, s) && Serves(c, files, s)
    requires name != [] && AllMdus(c.user) && AllHonest(first, second, c, s)
    ensures r == NotFound <==> !exists i :: 0 <= i < |files| && Name(files[i].path) == name
    ensures (exists i :: 0 <= i < |files| && Name(files[i].path) == name) ==>
      FetchedRight(r, c, files, LastNamed(files, name), rangeStart, rangeLen, sizes, d, first, second, s)
  {
    hide *;
    SchemeParams(s);
    ServesMeans(c, files, s);
    FollowsMeans(c);
    HoldsFilesMeans(c, files);
    var index := IndexSlab(d, s, c, files);
    var entry := index.value;
    RightIndexIs(entry, c, files, s);
    RightEntryIs(entry, c.records, files, name);
    if name !in entry.files {
      return NotFound;
    }
    var info := entry.files[name];
    ghost var j := LastNamed(files, name);
    HoldsFileMeans(c, j, files[j]);
    if rangeStart >= info.len {
      FetchedBeyond(c, files, j, rangeStart, rangeLen, sizes, d, first, second, s);
      return BeyondEof;
    }
    var n := SegmentLen(info.len, rangeStart, rangeLen);
    var base := 1 + entry.witnessCount;
    var lo, hi := base + MduOf(info.start + rangeStart), base + MduOf(info.start + rangeStart + n - 1);
    MdusOfRange(c, info.start, files[j].content, rangeStart, rangeStart + n);
    var restored := EnsureRange(d, lo, hi + 1, first, second, s, c);
    if restored.None? {
      FetchedMissing(c, files, j, rangeStart, rangeLen, sizes, d, first, second, s, lo, hi);
      return Unavailable;
    }
    var dir := restored.value;
    var rec := Record(dir.mdus, base, info.start, info.len);
    FirstOfRange(base, info.start, rangeStart);
    if Counted(c) == |c.user| {
      RangeHeld(dir, c, s, info.start, files[j].content, rangeStart, rangeStart + n);
    }
    var data, status := ReadRange(rec, files[j].content, rangeStart, n, sizes);
    FetchedData(data, dir, c, files, j, rangeStart, rangeLen, sizes, d, first, second, s, lo, hi);
    return Fetched(data, dir);
  }

  /** File j is the last one stored as a path. */
  ghost predicate LastAs(files: seq<File>, path: seq<byte>, j: nat) {
    j < |files| && StoredAs(files[j].path, path) && forall i :: j < i < |files| ==> !StoredAs(files[i].path, path)
  }

  lemma LastStoredAs(files: seq<File>, path: seq<byte>)
    ensures (exists i :: 0 <= i < |files| && Name(files[i].path) == path) <==>
      exists i :: 0 <= i < |files| && StoredAs(files[i].path, path)
    ensures forall j: nat :: LastAs(files, path, j) ==>
      (exists i :: 0 <= i < |files| && Name(files[i].path) == path) && j == LastNamed(files, path)
  {
    hide Name, StoredAs;
    forall i | 0 <= i < |files| ensures StoredAs(files[i].path, path) <==> path == Name(files[i].path) {
      NameIs(files[i].path, path);
    }
    if i :| 0 <= i < |files| && Name(files[i].path) == path {
      assert StoredAs(files[i].path, path);
    }
    forall j: nat | LastAs(files, path, j)
      ensures exists i :: 0 <= i < |files| && Name(files[i].path) == path
      ensures j == LastNamed(files, path)
    {
      var last := LastNamed(files, path);
      assert StoredAs(files[last].path, path);
      assert Name(files[j].path) == path;
    }
  }

  /** What the history leaves can be read: no zero root, and slots that answer with what was stored. */
  ghost predicate Answering(files: seq<File>, first: nat -> Source, second: nat -> Source, s: Scheme)
    requires ValidScheme(s) && files != []
  {
    match History(files, s)
    case None => true
    case Some(c) => NoZeroRoot(c, s) && AllMdus(c.user) && AllHonest(first, second, c, s)
  }

  /** Storing files under their paths and fetching a range under a path: it is that of the last file stored as the
      path, and there is none only if no file was. */
  method StoreAndFetch(files: seq<File>, path: seq<byte>, rangeStart: nat, rangeLen: nat, sizes: seq<nat>,
                       first: nat -> Source, second: nat -> Source, s: Scheme) returns (built: Ingest, r: Fetched)
    requires ValidScheme(s) && files != [] && Named(files) && path != [] && Answering(files, first, second, s)
    ensures built.Stored? <==> History(files, s).Some?
    ensures built.Stored? ==>
      (r == NotFound <==> forall i :: 0 <= i < |files| ==> !StoredAs(files[i].path, path))
    ensures built.Stored? ==> Serves(History(files, s).value, files, s)
    ensures built.Stored? ==> forall j: nat :: LastAs(files, path, j) ==>
      FetchedRight(r, History(files, s).value, files, j, rangeStart, rangeLen, sizes, built.dir, first, second, s)
  {
    hide ValidScheme, History, StoredAs, Name, FetchedRight, Serves, NoZeroRoot, AllHonest, AllMdus, IsSlabOf,
         ManifestRoots, Buildable, NonEmpty, Named;
    built := BuildSlab(files, s);
    r := NotFound;
    if built.Stored? {
      HistoryHolds(files, s);
      LastStoredAs(files, path);
      r := Fetch(built.dir, path, rangeStart, rangeLen, sizes, first, second, s, History(files, s).value, files);
    }
  }

  /** So in the slab of a file of one byte and an empty file, the byte reads as zero. */
  lemma ReadsNextMdu(d: Dir, a: seq<byte>, b: seq<byte>, x: byte, s: Scheme)
    requires ValidScheme(s) && Name(a) != [] && Name(b) != []
    requires IsSlab(d, [File(a, [x]), File(b, [])], s)
    ensures var c := ContentOf([File(a, [x]), File(b, [])], s);
      ValidContent(c, s) && Counted(c) == 1 && |c.user| == 2 && c.records[0].startOffset == 0 &&
      var base := 1 + WitnessCount(|c.user|, s.code) + (|c.user| - Counted(c));
      base in d.mdus ==> Readable(Record(d.mdus, base, 0, 1), 0, 1) == [0]
  {
    hide Lawful, WitnessCount, Encoded, EncodedByte, WitnessBytes, TableRoots, Mdu0Holds, ShardsStored, WitnessStored,
         MaxEnd, RecordedMdus, Name;
    var first, last := File(a, [x]), File(b, []);
    var files := [first, last];
    var c := ContentOf(files, s);
    assert files[..1] == [first] && files == [first] + [last];
    OneFile(first);
    OneFile(last);
    RecordsAppend([first], last);
    UserFit(d, files, s);
    FilesCounted(files, s);
    EmptyMdu(last.content);
    var base := 1 + WitnessCount(2, s.code) + 1;
    if base in d.mdus {
      UserOnDisk(d, c, s, 1);
      ZeroScalar(Record(d.mdus, base, 0, 1));
    }
  }

  lemma EmptyMdu(content: seq<byte>)
    requires content == []
    ensures FileMdus(content) == [Encoded([])]
  {
    assert Cut(content, 0) == [];
  }

  lemma ZeroScalar(r: Record)
    requires r.slabStart in r.disk && r.disk[r.slabStart] == Encoded([]) && r.start == 0 && r.len == 1
    ensures Readable(r, 0, 1) == [0]
  {
    assert ScalarAt(r, 0) == Some(Encoded([])[0..32]);
    assert Encoded([])[31] == EncodedByte([], 31) == 0;
    assert Piece(r, 0, 0) == Encoded([])[0..32][31..];
  }
}
