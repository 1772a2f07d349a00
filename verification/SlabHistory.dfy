/** The life of a Mode 2 slab: one create and any number of appends, of empty files too. */
module SlabHistory {
  import opened Bytes
  import opened Codec
  import opened ErasureCode
  import opened Layout
  import opened Mdu0
  import opened Reader
  import opened Stripe
  import opened SlabLayout
  import opened SlabIngest
  import opened SlabIndex
  import opened SlabAppend

  // ----- what decoding the old witness bytes yields -----

  lemma CutIs(file: seq<byte>, i: nat)
    requires i * MDU_PAYLOAD_BYTES <= |file|
    ensures var at := i * MDU_PAYLOAD_BYTES;
      var end := if at + MDU_PAYLOAD_BYTES <= |file| then at + MDU_PAYLOAD_BYTES else |file|;
      Cut(file, i) == file[at..end]
  {
  }

  /** A segment ends at a chunk boundary or with its MDU. */
  lemma SegmentEnds(total: nat, n: nat, i: nat)
    requires n <= total && (n % 31 == 0 || n == total) && i * MDU_PAYLOAD_BYTES < n
    ensures var at, k := i * MDU_PAYLOAD_BYTES, SegmentOf(n, i);
      var payload := if at + MDU_PAYLOAD_BYTES <= total then MDU_PAYLOAD_BYTES else total - at;
      0 < k <= payload && at + k <= n && (k == payload || k % 31 == 0)
  {
  }

  /** A witness MDU gives its part of the first n bytes then. */
  lemma SegmentRight(all: seq<byte>, n: nat, i: nat)
    requires n <= |all| && (n % 31 == 0 || n == |all|) && i * MDU_PAYLOAD_BYTES < n
    ensures var at, k := i * MDU_PAYLOAD_BYTES, SegmentOf(n, i);
      at + k <= n && Decoded(Encoded(WitnessPayload(all, i)), k) == all[at..at + k]
  {
    hide Encoded, Decoded, Cut, SegmentOf;
    SegmentEnds(|all|, n, i);
    CutIs(all, i);
    var p, k, at := Cut(all, i), SegmentOf(n, i), i * MDU_PAYLOAD_BYTES;
    DecodeShort(p, k);
    assert p[..k] == all[at..at + k];
  }

  lemma DecodeShort(p: seq<byte>, k: nat)
    requires k <= |p| <= MDU_PAYLOAD_BYTES && (k == |p| || k % 31 == 0)
    ensures Decoded(Encoded(p), k) == p[..k]
  {
    hide Encoded, Decoded;
    DecodePrefix(|p|, k);
  }

  lemma {:induction false} KeptPrefix(all: seq<byte>, n: nat, w: nat)
    requires n <= |all| && (n % 31 == 0 || n == |all|)
    ensures KeptBytes(all, n, w) == all[..if w * MDU_PAYLOAD_BYTES < n then w * MDU_PAYLOAD_BYTES else n]
  {
    hide Encoded, Decoded, WitnessPayload;
    if w > 0 {
      KeptPrefix(all, n, w - 1);
      if (w - 1) * MDU_PAYLOAD_BYTES < n {
        SegmentRight(all, n, w - 1);
      }
    }
  }

  /** Witness MDUs beyond the n-th byte add nothing. */
  lemma {:induction false} NothingMore(all: seq<byte>, n: nat, v: nat, w: nat)
    requires v <= w && n <= v * MDU_PAYLOAD_BYTES
    ensures KeptBytes(all, n, w) == KeptBytes(all, n, v)
    decreases w
  {
    hide Encoded, WitnessPayload;
    if v < w {
      NothingMore(all, n, v, w - 1);
    }
  }

  /** Bytes with a given payload as their i-th part. */
  lemma PartAmongZeros(p: seq<byte>, i: nat, total: nat) returns (all: seq<byte>)
    requires i * MDU_PAYLOAD_BYTES < total
    requires |p| == if total - i * MDU_PAYLOAD_BYTES > MDU_PAYLOAD_BYTES then MDU_PAYLOAD_BYTES
                    else total - i * MDU_PAYLOAD_BYTES
    ensures |all| == total && WitnessPayload(all, i) == p
    ensures all[i * MDU_PAYLOAD_BYTES..i * MDU_PAYLOAD_BYTES + |p|] == p
  {
    var at := i * MDU_PAYLOAD_BYTES;
    all := Zeros(at) + p + Zeros(total - at - |p|);
    CutIs(all, i);
  }

  lemma PartialSegment(total: nat, n: nat, w: nat)
    requires n < total && n <= w * MDU_PAYLOAD_BYTES && n % 31 != 0
    ensures var i := n / MDU_PAYLOAD_BYTES;
      var at := i * MDU_PAYLOAD_BYTES;
      var len := if total - at > MDU_PAYLOAD_BYTES then MDU_PAYLOAD_BYTES else total - at;
      at < n && n - at < len && (n - at) % 31 != 0 && i + 1 <= w && SegmentOf(n, i) == n - at &&
      n <= (i + 1) * MDU_PAYLOAD_BYTES
  {
  }

  lemma LastSegment(all: seq<byte>, n: nat, i: nat)
    requires i * MDU_PAYLOAD_BYTES < n <= (i + 1) * MDU_PAYLOAD_BYTES
    ensures KeptBytes(all, n, i + 1)[i * MDU_PAYLOAD_BYTES..]
      == Decoded(Encoded(WitnessPayload(all, i)), SegmentOf(n, i))
  {
    hide Encoded, Decoded, WitnessPayload;
  }

  lemma WrongPayload(len: nat, k: nat) returns (p: seq<byte>)
    requires k < len <= MDU_PAYLOAD_BYTES && k % 31 != 0
    ensures |p| == len && Decoded(Encoded(p), k) != p[..k]
  {
    hide Encoded, Decoded;
    DecodePrefix(len, k);
    p :| |p| == len && Decoded(Encoded(p), k) != p[..k];
  }

  lemma KeptWrong(total: nat, n: nat, w: nat) returns (all: seq<byte>)
    requires n < total && n <= w * MDU_PAYLOAD_BYTES && n % 31 != 0
    ensures |all| == total && KeptBytes(all, n, w) != all[..n]
  {
    hide Encoded, Decoded, WitnessPayload, KeptBytes, SegmentOf;
    var i := n / MDU_PAYLOAD_BYTES;
    var at := i * MDU_PAYLOAD_BYTES;
    var len := if total - at > MDU_PAYLOAD_BYTES then MDU_PAYLOAD_BYTES else total - at;
    PartialSegment(total, n, w);
    var p := WrongPayload(len, n - at);
    all := PartAmongZeros(p, i, total);
    NothingMore(all, n, i + 1, w);
    LastSegment(all, n, i);
    assert all[..n][at..] == p[..n - at] by { SliceOfPart(all, at, p, n); }
  }

  lemma SliceOfPart(all: seq<byte>, at: nat, p: seq<byte>, n: nat)
    requires at <= n <= at + |p| <= |all| && all[at..at + |p|] == p
    ensures all[..n][at..] == p[..n - at]
  {
    assert all[at..at + |p|][..n - at] == all[at..n];
  }

  /** When n of `total` witness bytes are decoded again, they are the first n, whatever the bytes are, exactly if
      n ends at a chunk boundary or there are no others. */
  lemma KeptExact(total: nat, n: nat, w: nat)
    requires n <= total && n <= w * MDU_PAYLOAD_BYTES
    ensures (forall all: seq<byte> :: |all| == total ==> KeptBytes(all, n, w) == all[..n])
      <==> n % 31 == 0 || n == total
  {
    hide KeptBytes;
    if n % 31 == 0 || n == total {
      forall all: seq<byte> | |all| == total ensures KeptBytes(all, n, w) == all[..n] {
        KeptPrefix(all, n, w);
      }
    } else {
      var all := KeptWrong(total, n, w);
    }
  }

  // ----- appending to the slab of some files -----

  /** Keeping all witness bytes keeps them as they are. */
  lemma KeptAll(all: seq<byte>, w: nat)
    requires |all| <= w * MDU_PAYLOAD_BYTES
    ensures KeptBytes(all, |all|, w) == all
  {
    hide KeptBytes;
    KeptPrefix(all, |all|, w);
    assert all[..|all|] == all;
  }

  lemma FilesContent(files: seq<File>, s: Scheme)
    requires ValidScheme(s)
    ensures var c := ContentOf(files, s);
      c.user == UserMdus(files) && c.commitments == WitnessBytes(UserMdus(files), s) && c.records == Records(files) &&
      |c.user| == UserCount(files) && AllMdus(c.user) && ValidContent(c, s)
    ensures forall i :: 0 <= i < |Records(files)| ==> |Records(files)[i].path| == PATH_SIZE
  {
    hide Lawful, UserMdus, SlabLayout.Records, WitnessBytes;
  }

  /** The records of files account for all user MDUs but that of an empty last file. */
  lemma FilesCounted(files: seq<File>, s: Scheme)
    requires ValidScheme(s) && files != [] && Named(files) && UserCount(files) <= MAX_ROOTS
    ensures ValidContent(ContentOf(files, s), s)
    ensures Counted(ContentOf(files, s)) == UserCount(files) - if LastNonEmpty(files) then 0 else 1
    ensures Follows(ContentOf(files, s))
  {
    hide Lawful, UserMdus, SlabLayout.Records, WitnessBytes, MaxEnd, RecordedMdus;
    FilesContent(files, s);
    var n := |files| - 1;
    assert files == files[..n] + [files[n]];
    RecordedIsCounted(files[..n], files[n]);
    UserMdusSnoc(files[..n], files[n]);
  }

  /** When appending to the slab of files whose last one is not empty works. */
  ghost predicate Appendable(files: seq<File>, f: File, s: Scheme)
    requires s.code.k > 0
  {
    WitnessFits(UserCount(files), s.code) && s.isText(Name(f.path)) && |files| < MAX_RECORDS &&
    TableFits(files + [f], s)
  }

  lemma AppendableIs(files: seq<File>, f: File, s: Scheme)
    requires s.code.k > 0
    ensures Appendable(files, f, s) <==>
      UserCount(files) * Span(s.code) <= WitnessCount(UserCount(files), s.code) * MDU_PAYLOAD_BYTES &&
      s.isText(Name(f.path)) && |files| < MAX_RECORDS && TableFits(files + [f], s)
  {
    hide TableFits, Span, WitnessCount;
  }

  lemma FilesAppend(files: seq<File>, f: File, s: Scheme)
    requires s.code.k > 0
    ensures UserMdus(files + [f]) == UserMdus(files) + FileMdus(f.content)
    ensures UserCount(files + [f]) == UserCount(files) + MduCount(|f.content|)
    ensures Records(files + [f]) == Records(files) + [RecordFor(f, UserCount(files) * MDU_PAYLOAD_BYTES)]
    ensures var t := UserCount(files) + MduCount(|f.content|);
      TableFits(files + [f], s) <==> t + WitnessCount(t, s.code) <= MAX_ROOTS
  {
    hide UserMdus, FileMdus, WitnessCount, SlabLayout.Records, RecordFor;
    RecordsAppend(files, f);
    UserMdusSnoc(files, f);
    FileMdusCount(f.content);
  }

  /** An append to the slab of files whose last one is not empty makes it the slab of one more file. */
  lemma AppendedFiles(files: seq<File>, f: File, s: Scheme)
    requires ValidScheme(s) && s.code.k > 0 && Named(files) && LastNonEmpty(files) && UserCount(files) <= MAX_ROOTS
    ensures ValidContent(ContentOf(files, s), s) && Follows(ContentOf(files, s))
    ensures AppendableTo(ContentOf(files, s), f, s) <==> Appendable(files, f, s)
    ensures Appendable(files, f, s) ==> Appended(ContentOf(files, s), f, s) == ContentOf(files + [f], s)
  {
    hide *;
    SomeFiles(files);
    var c, all := ContentOf(files, s), ContentOf(files + [f], s);
    FilesCounted(files, s);
    FilesContent(files, s);
    FilesContent(files + [f], s);
    FilesAppend(files, f, s);
    AppendableMeans(c, f, s);
    AppendableIs(files, f, s);
    PathsFit(c, s);
    FileMdusCount(f.content);
    if Appendable(files, f, s) {
      AppendedParts(c, f, s);
      KeptAll(c.commitments, WitnessCount(UserCount(files), s.code));
      WitnessBytesAppend(c.user, FileMdus(f.content), s);
      assert c.user[..|c.user|] == c.user;
      ContentEqual(Appended(c, f, s), all);
    }
  }

  lemma ContentEqual(a: Content, b: Content)
    requires a.user == b.user && a.commitments == b.commitments && a.records == b.records
    ensures a == b
  {
  }

  lemma SomeFiles(files: seq<File>)
    requires LastNonEmpty(files)
    ensures files != []
  {
  }

  // ----- any history of one create and appends -----

  /** What the slab holds after a create and appends that were all accepted. */
  ghost function History(files: seq<File>, s: Scheme): Option<Content>
    requires ValidScheme(s) && files != []
  {
    var n := |files| - 1;
    if n == 0 then
      if TableFits(files, s) && s.isText(Name(files[0].path)) then Some(ContentOf(files, s)) else None
    else
      match History(files[..n], s)
      case None => None
      case Some(c) =>
        if ValidContent(c, s) && Follows(c) && AppendableTo(c, files[n], s) then Some(Appended(c, files[n], s))
        else None
  }

  /** A file is in the slab: under its record, and unless it is empty, its MDUs where the record says, among those
      that are accounted for. */
  ghost predicate HoldsFile(c: Content, j: nat, f: File)
    requires j < |c.records| && forall i :: 0 <= i < |c.records| ==> |c.records[i].path| == PATH_SIZE
  {
    var start := c.records[j].startOffset;
    c.records[j] == RecordFor(f, start) && |f.content| < LENGTH_LIMIT &&
    (f.content != [] ==> start % MDU_PAYLOAD_BYTES == 0 && HoldsMdus(c, start / MDU_PAYLOAD_BYTES, f.content))
  }

  ghost predicate HoldsMdus(c: Content, from: nat, content: seq<byte>)
    requires forall i :: 0 <= i < |c.records| ==> |c.records[i].path| == PATH_SIZE
  {
    var mdus := FileMdus(content);
    from + |mdus| <= Counted(c) && from + |mdus| <= |c.user| &&
    forall i :: 0 <= i < |mdus| ==> c.user[from + i] == mdus[i]
  }

  ghost predicate HoldsFiles(c: Content, files: seq<File>)
    requires forall i :: 0 <= i < |c.records| ==> |c.records[i].path| == PATH_SIZE
  {
    |files| == |c.records| && forall j :: 0 <= j < |files| ==> HoldsFile(c, j, files[j])
  }

  lemma LengthFits(content: seq<byte>)
    requires MduCount(|content|) <= MAX_ROOTS
    ensures |content| < LENGTH_LIMIT
  {
  }

  /** After an append of a named file the records account for its MDUs too, unless it is empty. */
  lemma CountedAppended(c: Content, f: File, s: Scheme)
    requires ValidScheme(s) && ValidContent(c, s) && Follows(c) && AppendableTo(c, f, s) && Name(f.path) != []
    ensures ValidContent(Appended(c, f, s), s) && Follows(Appended(c, f, s)) && |f.content| < LENGTH_LIMIT
    ensures Counted(Appended(c, f, s)) == Counted(c) + if f.content == [] then 0 else MduCount(|f.content|)
  {
    hide *;
    SchemeParams(s);
    PathsFit(c, s);
    AppendableMeans(c, f, s);
    AppendedParts(c, f, s);
    var a, n := Appended(c, f, s), Counted(c);
    LengthFits(f.content);
    PathsFit(a, s);
    RecordOfFile(f, n * MDU_PAYLOAD_BYTES);
    MaxEndSnoc(c.records, RecordFor(f, n * MDU_PAYLOAD_BYTES));
    CountedIs(c);
    CountedIs(a);
    NextCount(MaxEnd(c.records), |f.content|);
    FollowsMeans(c);
    FollowsMeans(a);
    if f.content == [] { EmptyCount(); }
  }

  lemma EmptyCount()
    ensures MduCount(0) == 1
  {
  }

  lemma MaxEndSnoc(records: seq<FileRecord>, r: FileRecord)
    requires |r.path| == PATH_SIZE && forall i :: 0 <= i < |records| ==> |records[i].path| == PATH_SIZE
    ensures MaxEnd(records + [r]) == Max(MaxEnd(records), if Tombstone(r) then 0 else End(r))
  {
    assert (records + [r])[..|records|] == records;
  }

  lemma NextCount(maxEnd: nat, len: nat)
    ensures var n := RecordedMdus(maxEnd);
      RecordedMdus(Max(maxEnd, n * MDU_PAYLOAD_BYTES + len)) == n + if len == 0 then 0 else MduCount(len)
  {
    var n := RecordedMdus(maxEnd);
    assert maxEnd <= n * MDU_PAYLOAD_BYTES;
  }

  lemma HoldsMdusMore(c: Content, a: Content, start: nat, content: seq<byte>)
    requires forall i :: 0 <= i < |c.records| ==> |c.records[i].path| == PATH_SIZE
    requires forall i :: 0 <= i < |a.records| ==> |a.records[i].path| == PATH_SIZE
    requires Counted(c) <= Counted(a) && Counted(c) <= |c.user| && Counted(c) <= |a.user|
    requires HoldsMdus(c, start / MDU_PAYLOAD_BYTES, content) && a.user[..Counted(c)] == c.user[..Counted(c)]
    ensures HoldsMdus(a, start / MDU_PAYLOAD_BYTES, content)
  {
    hide Counted, FileMdus;
    var n, from := Counted(c), start / MDU_PAYLOAD_BYTES;
    forall i | 0 <= i < |FileMdus(content)| ensures a.user[from + i] == FileMdus(content)[i] {
      assert a.user[..n][from + i] == c.user[..n][from + i];
    }
  }

  /** The MDUs of the appended file are right behind those that were accounted for. */
  lemma HoldsNewMdus(c: Content, a: Content, content: seq<byte>)
    requires forall i :: 0 <= i < |c.records| ==> |c.records[i].path| == PATH_SIZE
    requires forall i :: 0 <= i < |a.records| ==> |a.records[i].path| == PATH_SIZE
    requires Counted(c) <= |c.user| && a.user == c.user[..Counted(c)] + FileMdus(content)
    requires Counted(a) == Counted(c) + |FileMdus(content)|
    ensures HoldsMdus(a, Counted(c), content)
  {
    hide Counted, FileMdus;
  }

  /** An append keeps every file, and the new one is there. */
  lemma HoldsAppended(c: Content, files: seq<File>, f: File, s: Scheme)
    requires ValidScheme(s) && ValidContent(c, s) && Follows(c) && AppendableTo(c, f, s) && Name(f.path) != []
    requires HoldsFiles(c, files)
    ensures ValidContent(Appended(c, f, s), s) && HoldsFiles(Appended(c, f, s), files + [f])
  {
    hide *;
    SchemeParams(s);
    PathsFit(c, s);
    FollowsMeans(c);
    AppendableMeans(c, f, s);
    AppendedParts(c, f, s);
    CountedAppended(c, f, s);
    FileMdusCount(f.content);
    var a, all, n := Appended(c, f, s), files + [f], Counted(c);
    PathsFit(a, s);
    FollowsMeans(a);
    HoldsFilesMeans(c, files);
    forall j | 0 <= j < |all| ensures HoldsFile(a, j, all[j]) {
      if j < |files| {
        HoldsFileMeans(c, j, files[j]);
        HoldsFileMeans(a, j, all[j]);
        if files[j].content != [] {
          HoldsMdusMore(c, a, c.records[j].startOffset, files[j].content);
        }
      } else {
        HoldsFileMeans(a, j, f);
        StartIs(f, n);
        if f.content != [] {
          HoldsNewMdus(c, a, f.content);
        }
      }
    }
    HoldsFilesMeans(a, all);
  }

  lemma StartIs(f: File, n: nat)
    ensures var start := n * MDU_PAYLOAD_BYTES;
      RecordFor(f, start).startOffset == start && start % MDU_PAYLOAD_BYTES == 0 && start / MDU_PAYLOAD_BYTES == n
  {
  }

  lemma HoldsFileMeans(c: Content, j: nat, f: File)
    requires j < |c.records| && forall i :: 0 <= i < |c.records| ==> |c.records[i].path| == PATH_SIZE
    ensures var start := c.records[j].startOffset;
      HoldsFile(c, j, f) <==>
        c.records[j] == RecordFor(f, start) && |f.content| < LENGTH_LIMIT &&
        (f.content != [] ==> start % MDU_PAYLOAD_BYTES == 0 && HoldsMdus(c, start / MDU_PAYLOAD_BYTES, f.content))
  {
    hide HoldsMdus, RecordFor;
  }

  lemma HoldsFilesMeans(c: Content, files: seq<File>)
    requires forall i :: 0 <= i < |c.records| ==> |c.records[i].path| == PATH_SIZE
    ensures HoldsFiles(c, files) <==>
      |files| == |c.records| && forall j :: 0 <= j < |files| ==> HoldsFile(c, j, files[j])
  {
    hide HoldsFile;
  }

  /** The slab of one named file. */
  lemma FirstContent(f: File, s: Scheme)
    requires ValidScheme(s) && Name(f.path) != [] && TableFits([f], s)
    ensures var c := ContentOf([f], s);
      Follows(c) && HoldsFiles(c, [f]) && c.user != [] && |c.user| == MduCount(|f.content|)
  {
    hide *;
    SchemeParams(s);
    var c := ContentOf([f], s);
    OneContent(f, s);
    OneFits(f, s);
    PathsFit(c, s);
    LengthFits(f.content);
    FileMdusCount(f.content);
    RecordOfFile(f, 0);
    NoRecords();
    MaxEndSnoc([], RecordFor(f, 0));
    assert c.records == [] + [RecordFor(f, 0)];
    CountedIs(c);
    NextCount(0, |f.content|);
    FollowsMeans(c);
    if f.content == [] { EmptyCount(); }
    HoldsFileMeans(c, 0, f);
    HoldsFilesMeans(c, [f]);
    if f.content != [] {
      FirstMdus(c, f.content);
    }
  }

  lemma NoRecords()
    ensures MaxEnd([]) == 0 && RecordedMdus(0) == 0
  {
  }

  lemma FirstMdus(c: Content, content: seq<byte>)
    requires forall i :: 0 <= i < |c.records| ==> |c.records[i].path| == PATH_SIZE
    requires c.user == FileMdus(content) && Counted(c) == |FileMdus(content)|
    ensures HoldsMdus(c, 0, content)
  {
    hide Counted, FileMdus;
  }

  lemma OneFits(f: File, s: Scheme)
    requires s.code.k > 0
    ensures TableFits([f], s) ==> UserCount([f]) <= MAX_ROOTS
  {
    hide UserCount, WitnessCount;
  }

  /** A slab that can be appended to and holds these files, in the order of its records. */
  ghost predicate Serves(c: Content, files: seq<File>, s: Scheme)
    requires ValidScheme(s)
  {
    ValidContent(c, s) && Follows(c) && HoldsFiles(c, files) && c.user != []
  }

  lemma ServesMeans(c: Content, files: seq<File>, s: Scheme)
    requires ValidScheme(s) && Serves(c, files, s)
    ensures ValidContent(c, s) && c.user != []
    ensures forall i :: 0 <= i < |c.records| ==> |c.records[i].path| == PATH_SIZE
    ensures Follows(c) && HoldsFiles(c, files)
  {
    hide Lawful, Follows, HoldsFiles;
  }

  /** After any accepted history of named files the slab can be appended to, and holds every file. */
  lemma {:induction false} HistoryHolds(files: seq<File>, s: Scheme)
    requires ValidScheme(s) && files != [] && Named(files) && History(files, s).Some?
    ensures Serves(History(files, s).value, files, s)
    decreases |files|
  {
    hide ValidScheme, ContentOf, Follows, AppendableTo, Appended, HoldsFiles, ValidContent, Name, TableFits, UserMdus;
    var n := |files| - 1;
    var f := files[n];
    assert Name(f.path) != [];
    assert files == files[..n] + [f];
    if n == 0 {
      assert files == [f];
      FirstContent(f, s);
    } else {
      HistoryHolds(files[..n], s);
      var c := History(files[..n], s).value;
      HoldsAppended(c, files[..n], f, s);
      CountedAppended(c, f, s);
      SomeMdu(c, f, s);
    }
  }

  lemma SomeMdu(c: Content, f: File, s: Scheme)
    requires ValidScheme(s) && ValidContent(c, s) && Follows(c) && AppendableTo(c, f, s)
    ensures Appended(c, f, s).user != []
  {
    hide Lawful, Counted, KeptBytes, WitnessBytes, RecordFor;
    FileMdusCount(f.content);
  }

  /** The history is accepted step by step, as long as only the last file is empty. */
  ghost predicate Buildable(files: seq<File>, s: Scheme)
    requires s.code.k > 0 && files != []
  {
    var n := |files| - 1;
    if n == 0 then TableFits(files, s) && s.isText(Name(files[0].path))
    else Buildable(files[..n], s) && Appendable(files[..n], files[n], s)
  }

  /** A history in which only the last file may be empty leaves the slab of all its files. */
  lemma {:induction false} HistoryOfFiles(files: seq<File>, s: Scheme)
    requires ValidScheme(s) && files != [] && Named(files) && NonEmpty(files[..|files| - 1]) && s.code.k > 0
    ensures History(files, s) == if Buildable(files, s) then Some(ContentOf(files, s)) else None
    ensures Buildable(files, s) ==> UserCount(files) <= MAX_ROOTS
    decreases |files|
  {
    hide ValidScheme, ContentOf, Follows, AppendableTo, Appended, ValidContent, Name, TableFits, UserCount, Appendable;
    var n := |files| - 1;
    assert files == files[..n] + [files[n]];
    if n == 0 {
      assert files == [files[0]];
      OneFits(files[0], s);
    } else {
      var rest := files[..n];
      assert rest[..n - 1] == files[..n - 1];
      assert rest[n - 1].content != [];
      HistoryOfFiles(rest, s);
      if Buildable(rest, s) {
        AppendedFiles(rest, files[n], s);
        if Appendable(rest, files[n], s) { AppendableFits(rest, files[n], s); }
      }
    }
  }

  lemma AppendableFits(files: seq<File>, f: File, s: Scheme)
    requires s.code.k > 0 && Appendable(files, f, s)
    ensures UserCount(files + [f]) <= MAX_ROOTS
  {
    hide UserCount, WitnessCount, WitnessFits;
  }

  lemma HistoryStep(files: seq<File>, i: nat, s: Scheme)
    requires ValidScheme(s) && 0 < i < |files|
    ensures files[..i + 1][..i] == files[..i] && files[..i + 1][i] == files[i]
    ensures History(files[..i + 1], s) ==
      match History(files[..i], s)
      case None => None
      case Some(c) =>
        if ValidContent(c, s) && Follows(c) && AppendableTo(c, files[i], s) then Some(Appended(c, files[i], s))
        else None
  {
    hide ValidScheme, ContentOf, Follows, AppendableTo, Appended, ValidContent, Name, TableFits;
    assert files[..i + 1][..i] == files[..i];
  }

  lemma {:induction false} NoHistory(files: seq<File>, i: nat, s: Scheme)
    requires ValidScheme(s) && 0 < i <= |files| && History(files[..i], s).None?
    ensures History(files, s).None?
    decreases |files| - i
  {
    hide ValidScheme, History;
    if i == |files| {
      assert files[..i] == files;
    } else {
      HistoryStep(files, i, s);
      NoHistory(files, i + 1, s);
    }
  }

  lemma NamedPrefix(files: seq<File>, i: nat)
    requires 0 < i <= |files| && Named(files)
    ensures Named(files[..i]) && files[..i] != []
  {
    hide Name;
  }

  lemma FirstStep(files: seq<File>, s: Scheme)
    requires ValidScheme(s) && files != []
    ensures files[..1] == [files[0]] && files[..|files|] == files
    ensures History(files[..1], s)
      == if TableFits([files[0]], s) && s.isText(Name(files[0].path)) then Some(ContentOf([files[0]], s)) else None
  {
    hide ValidScheme, ContentOf, Name, TableFits;
    assert files[..1] == [files[0]];
  }

  /** After one create and any number of appends, which are accepted exactly as the history says, the directory is
      a slab of what the history says; the slab of all the files, when only the last one may be empty. */
  method BuildSlab(files: seq<File>, s: Scheme) returns (r: Ingest)
    requires ValidScheme(s) && files != [] && Named(files)
    ensures r.Stored? <==> History(files, s).Some?
    ensures r.Stored? ==>
      IsSlabOf(r.dir, History(files, s).value, s) && r.roots == ManifestRoots(r.dir, History(files, s).value, s)
    ensures NonEmpty(files[..|files| - 1]) ==>
      (s.code.k > 0 && (r.Stored? <==> Buildable(files, s)) && (r.Stored? ==> IsSlab(r.dir, files, s)))
  {
    hide *;
    SchemeParams(s);
    FirstStep(files, s);
    if NonEmpty(files[..|files| - 1]) { HistoryOfFiles(files, s); }
    r := BuildArtifacts(files[0], s);
    if r.Rejected? {
      NoHistory(files, 1, s);
      return;
    }
    SlabIs(r.dir, [files[0]], s);
    for i := 1 to |files|
      invariant r.Stored? && History(files[..i], s).Some?
      invariant IsSlabOf(r.dir, History(files[..i], s).value, s)
      invariant r.roots == ManifestRoots(r.dir, History(files[..i], s).value, s)
    {
      NamedPrefix(files, i);
      HistoryHolds(files[..i], s);
      ServesMeans(History(files[..i], s).value, files[..i], s);
      HistoryStep(files, i, s);
      r := Append(r.dir, files[i], s, History(files[..i], s).value);
      if r.Rejected? {
        NoHistory(files, i + 1, s);
        return;
      }
    }
    SlabIs(r.dir, files, s);
  }

  lemma SlabIs(d: Dir, files: seq<File>, s: Scheme)
    requires ValidScheme(s)
    ensures IsSlab(d, files, s) <==> IsSlabOf(d, ContentOf(files, s), s)
  {
    hide IsSlabOf, ContentOf, ValidScheme;
  }

  /** MDU i of file j is the user MDU that its place in the slab says. */
  lemma {:induction false} FileMduInSlab(files: seq<File>, j: nat, i: nat)
    requires j < |files| && i < |FileMdus(files[j].content)|
    ensures UserCount(files[..j]) + |FileMdus(files[j].content)| <= UserCount(files)
    ensures UserMdus(files)[UserCount(files[..j]) + i] == FileMdus(files[j].content)[i]
    ensures j < |files| - 1 ==> UserCount(files[..j]) + |FileMdus(files[j].content)| <= UserCount(files[..|files| - 1])
  {
    hide FileMdus;
    var n := |files| - 1;
    assert files[..n] + [files[n]] == files;
    UserMdusSnoc(files[..n], files[n]);
    if j < n {
      FileMduInSlab(files[..n], j, i);
      assert files[..n][..j] == files[..j];
    }
  }

  lemma SomeFileMdu(content: seq<byte>)
    ensures |FileMdus(content)| >= 1 && (content == [] ==> |FileMdus(content)| == 1)
  {
  }

  /** The slab of any named files holds them all. */
  lemma FilesServe(files: seq<File>, s: Scheme)
    requires ValidScheme(s) && files != [] && Named(files) && UserCount(files) <= MAX_ROOTS
    ensures Serves(ContentOf(files, s), files, s)
  {
    hide *;
    SchemeParams(s);
    var c := ContentOf(files, s);
    FilesContent(files, s);
    FilesCounted(files, s);
    PathsFit(c, s);
    forall j | 0 <= j < |files| ensures HoldsFile(c, j, files[j]) {
      FileServed(c, files, j, s);
    }
    RecordCount(files);
    HoldsFilesMeans(c, files);
    ServesIs(c, files, s);
  }

  lemma RecordCount(files: seq<File>)
    ensures |Records(files)| == |files| && (files != [] ==> UserMdus(files) != [])
  {
  }

  lemma ServesIs(c: Content, files: seq<File>, s: Scheme)
    requires ValidScheme(s) && ValidContent(c, s) && c.user != []
    requires forall i :: 0 <= i < |c.records| ==> |c.records[i].path| == PATH_SIZE
    requires Follows(c) && HoldsFiles(c, files)
    ensures Serves(c, files, s)
  {
    hide Lawful, Follows, HoldsFiles;
  }

  lemma FileServed(c: Content, files: seq<File>, j: nat, s: Scheme)
    requires ValidScheme(s) && Named(files) && UserCount(files) <= MAX_ROOTS && j < |files|
    requires c == ContentOf(files, s) && ValidContent(c, s)
    requires Counted(c) == UserCount(files) - if LastNonEmpty(files) then 0 else 1
    ensures j < |c.records| && HoldsFile(c, j, files[j])
  {
    hide *;
    SchemeParams(s);
    FilesContent(files, s);
    PathsFit(c, s);
    RecordCount(files);
    RecordAt(files, j);
    var f, from := files[j], UserCount(files[..j]);
    FileMdusCount(f.content);
    SomeFileMdu(f.content);
    FileMduInSlab(files, j, 0);
    LengthFits(f.content);
    StartIs(f, from);
    HoldsFileMeans(c, j, f);
    if f.content != [] {
      forall i | 0 <= i < |FileMdus(f.content)| ensures c.user[from + i] == FileMdus(f.content)[i] {
        FileMduInSlab(files, j, i);
      }
      AccountedFor(files, j);
      HoldsMdusIs(c, from, f.content);
    }
  }

  lemma RecordAt(files: seq<File>, j: nat)
    requires j < |files|
    ensures j < |Records(files)| && Records(files)[j] == RecordFor(files[j], UserCount(files[..j]) * MDU_PAYLOAD_BYTES)
  {
    hide RecordFor, UserMdus;
  }

  /** A file that is not empty is accounted for, as an empty last file takes one user MDU. */
  lemma AccountedFor(files: seq<File>, j: nat)
    requires j < |files| && files[j].content != []
    ensures UserCount(files[..j]) + |FileMdus(files[j].content)|
      <= UserCount(files) - if LastNonEmpty(files) then 0 else 1
  {
    hide FileMdus, UserMdus;
    var n := |files| - 1;
    assert files[..n] + [files[n]] == files;
    UserMdusSnoc(files[..n], files[n]);
    SomeFileMdu(files[j].content);
    SomeFileMdu(files[n].content);
    FileMduInSlab(files, j, 0);
  }

  lemma HoldsMdusIs(c: Content, from: nat, content: seq<byte>)
    requires forall i :: 0 <= i < |c.records| ==> |c.records[i].path| == PATH_SIZE
    requires from + |FileMdus(content)| <= Counted(c) && from + |FileMdus(content)| <= |c.user|
    requires forall i :: 0 <= i < |FileMdus(content)| ==> c.user[from + i] == FileMdus(content)[i]
    ensures HoldsMdus(c, from, content)
  {
    hide FileMdus, Counted;
  }

  // ----- the witness bytes after an empty file -----

  /** The witness bytes of a slab are those of its user MDUs. */
  ghost predicate Right(c: Content, s: Scheme)
    requires ValidScheme(s) && AllMdus(c.user)
  {
    c.commitments == WitnessBytes(c.user, s)
  }

  /** An append keeps the witness bytes right when the records account for all user MDUs, as they do unless the last
      file is empty, or when those that they account for end at a chunk boundary. */
  lemma AppendedRight(c: Content, f: File, s: Scheme)
    requires ValidScheme(s) && ValidContent(c, s) && Follows(c) && AppendableTo(c, f, s) && Right(c, s)
    requires s.code.k > 0 && (Counted(c) == |c.user| || Counted(c) * Span(s.code) % 31 == 0)
    ensures AllMdus(Appended(c, f, s).user) && Right(Appended(c, f, s), s)
  {
    hide *;
    PathsFit(c, s);
    FollowsMeans(c);
    AppendableMeans(c, f, s);
    AppendedParts(c, f, s);
    var a, n, mdus := Appended(c, f, s), Counted(c), FileMdus(f.content);
    PathsFit(a, s);
    var part, rest := c.user[..n], c.user[n..];
    assert c.user == part + rest;
    PartMdus(c.user, n);
    RestMdus(c.user, n);
    WitnessBytesAppend(part, rest, s);
    WitnessBytesAppend(part, mdus, s);
    RightMeans(c, s);
    RightMeans(a, s);
    Inside(n, |c.user|, Span(s.code));
    KeptPrefix(c.commitments, n * Span(s.code), WitnessCount(n, s.code));
  }

  lemma RestMdus(mdus: seq<seq<byte>>, n: nat)
    requires AllMdus(mdus)
    ensures n <= |mdus| ==> AllMdus(mdus[n..])
  {
  }

  lemma RightMeans(c: Content, s: Scheme)
    requires ValidScheme(s) && AllMdus(c.user)
    ensures Right(c, s) <==> c.commitments == WitnessBytes(c.user, s)
  {
    hide WitnessBytes;
  }

  lemma Inside(n: nat, m: nat, span: nat)
    requires n <= m
    ensures 0 <= n * span <= m * span && (n == m ==> n * span == m * span)
  {
    assert (m - n) * span >= 0;
  }

  /** With 8 + 4 slots, an append to the slab of a file of one MDU and an empty file is accepted, but the commitments of
      the first may be decoded wrong, and then its root is that of other bytes. */
  lemma AfterEmptyFile(c: Code)
    requires c.k == 8 && c.m == 4
    ensures WitnessCount(1, c) == WitnessCount(2, c) == 1 && WitnessFits(1, c) && Span(c) == 4608
    ensures exists all: seq<byte> :: |all| == 2 * Span(c) && KeptBytes(all, Span(c), 1) != all[..Span(c)]
  {
    hide KeptBytes;
    assert Rows(8) == 8;
    assert LeafCount(c) == 96;
    KeptExact(9216, 4608, 1);
  }
}
