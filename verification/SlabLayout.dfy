/** What a Mode 2 slab holds for a list of files: user MDUs, their striped shards and witness bytes, the
    witness MDUs, the root table and the records. */
module SlabLayout {
  import opened Bytes
  import opened Codec
  import opened ErasureCode
  import opened Stripe
  import opened Expand
  import opened ExpandFlat
  import opened Layout
  import opened Mdu0
  import opened Reader

  // ----- what is abstract -----

  /** The code, the commitment of a blob, the root of a user MDU from its witness bytes, the root of an
      MDU from its bytes, and which byte strings are text. */
  datatype Scheme = Scheme(
    code: Code,
    commit: seq<byte> -> seq<byte>,
    userRoot: seq<byte> -> seq<byte>,
    mduRoot: seq<byte> -> seq<byte>,
    isText: seq<byte> -> bool)

  ghost predicate ValidScheme(s: Scheme) {
    Lawful(s.code) && ValidParams(s.code.k, s.code.m) && CommitmentSize(s.commit) &&
    forall b :: |s.userRoot(b)| == ROOT_SIZE && |s.mduRoot(b)| == ROOT_SIZE
  }

  function ZeroRoot(): (z: seq<byte>)
    ensures |z| == ROOT_SIZE
  {
    seq(ROOT_SIZE, _ => 0)
  }

  function LeafCount(c: Code): nat
    requires c.k > 0
  {
    MoreSlots(0, c.k + c.m, Rows(c.k));
    (c.k + c.m) * Rows(c.k)
  }

  /** Witness bytes of one user MDU. */
  function Span(c: Code): nat
    requires c.k > 0
  {
    LeafCount(c) * COMMITMENT_BYTES
  }

  function WitnessCount(userMdus: nat, c: Code): nat
    requires c.k > 0
  {
    WitnessMdus(userMdus, Commitments(LeafCount(c)))
  }

  // ----- files -----

  datatype File = File(path: seq<byte>, content: seq<byte>)

  function MduCount(len: nat): (n: nat)
    ensures n >= 1 && (n - 1) * MDU_PAYLOAD_BYTES <= len <= n * MDU_PAYLOAD_BYTES
    ensures len > 0 ==> (n - 1) * MDU_PAYLOAD_BYTES < len
  {
    if len == 0 then 1 else (len + MDU_PAYLOAD_BYTES - 1) / MDU_PAYLOAD_BYTES
  }

  ghost predicate AllMdus(mdus: seq<seq<byte>>) {
    forall i :: 0 <= i < |mdus| ==> |mdus[i]| == MDU_SIZE
  }

  function FileMdus(content: seq<byte>): (mdus: seq<seq<byte>>)
    ensures |mdus| == MduCount(|content|) && AllMdus(mdus)
  {
    seq(MduCount(|content|), i requires 0 <= i < MduCount(|content|) => Encoded(Cut(content, i)))
  }

  /** The user MDUs of a list of files, in order. */
  function UserMdus(files: seq<File>): (mdus: seq<seq<byte>>)
    ensures AllMdus(mdus) && |mdus| >= |files|
  {
    if files == [] then []
    else UserMdus(files[..|files| - 1]) + FileMdus(files[|files| - 1].content)
  }

  function UserCount(files: seq<File>): nat {
    |UserMdus(files)|
  }

  // ----- shards and witness bytes -----

  function Flat(mdu: seq<byte>, s: Scheme): (f: seq<byte>)
    requires |mdu| == MDU_SIZE && ValidScheme(s)
    ensures |f| == Span(s.code)
  {
    ConcatLength(Witness(mdu, s.code, s.commit), COMMITMENT_BYTES);
    Concat(Witness(mdu, s.code, s.commit))
  }

  function Flats(mdus: seq<seq<byte>>, s: Scheme): (f: seq<seq<byte>>)
    requires AllMdus(mdus) && ValidScheme(s)
    ensures |f| == |mdus| && forall i :: 0 <= i < |f| ==> |f[i]| == Span(s.code)
  {
    seq(|mdus|, i requires 0 <= i < |mdus| => Flat(mdus[i], s))
  }

  /** All witness bytes, user MDU by user MDU. */
  function WitnessBytes(mdus: seq<seq<byte>>, s: Scheme): (b: seq<byte>)
    requires AllMdus(mdus) && ValidScheme(s)
    ensures |b| == |mdus| * Span(s.code)
  {
    ConcatLength(Flats(mdus, s), Span(s.code));
    Concat(Flats(mdus, s))
  }

  /** The part of the witness bytes that goes into witness MDU i. */
  function WitnessPayload(bytes: seq<byte>, i: nat): (p: seq<byte>)
    ensures |p| <= MDU_PAYLOAD_BYTES
  {
    if i * MDU_PAYLOAD_BYTES >= |bytes| then [] else Cut(bytes, i)
  }

  lemma {:induction false} ConcatAppend(a: seq<seq<byte>>, b: seq<seq<byte>>)
    ensures Concat(a + b) == Concat(a) + Concat(b)
  {
    if b == [] {
      assert a + b == a;
    } else {
      ConcatAppend(a, b[..|b| - 1]);
      assert (a + b)[..|a + b| - 1] == a + b[..|b| - 1];
    }
  }

  lemma ConcatOne(part: seq<byte>)
    ensures Concat([part]) == part
  {
    var none: seq<seq<byte>> := [part][..0];
    assert none == [];
  }

  /** Part i of a concatenation of parts of one length. */
  lemma ConcatPart(parts: seq<seq<byte>>, len: nat, i: nat)
    requires i < |parts| && forall j :: 0 <= j < |parts| ==> |parts[j]| == len
    ensures 0 <= i * len && i * len + len <= |Concat(parts)| && Concat(parts)[i * len..i * len + len] == parts[i]
  {
    ConcatAppend(parts[..i], parts[i..]);
    assert parts == parts[..i] + parts[i..];
    ConcatAppend([parts[i]], parts[i + 1..]);
    assert parts[i..] == [parts[i]] + parts[i + 1..];
    ConcatOne(parts[i]);
    ConcatLength(parts[..i], len);
    assert i * len >= 0;
  }

  lemma WitnessBytesAppend(a: seq<seq<byte>>, b: seq<seq<byte>>, s: Scheme)
    requires AllMdus(a) && AllMdus(b) && ValidScheme(s)
    ensures AllMdus(a + b) && WitnessBytes(a + b, s) == WitnessBytes(a, s) + WitnessBytes(b, s)
  {
    hide Flat, Concat, ValidScheme;
    assert Flats(a + b, s) == Flats(a, s) + Flats(b, s);
    ConcatAppend(Flats(a, s), Flats(b, s));
  }

  // ----- roots and records -----

  function WitnessRoots(bytes: seq<byte>, w: nat, s: Scheme): (r: seq<seq<byte>>)
    ensures |r| == w
  {
    seq(w, i requires 0 <= i < w => s.mduRoot(Encoded(WitnessPayload(bytes, i))))
  }

  function UserRoots(mdus: seq<seq<byte>>, s: Scheme): (r: seq<seq<byte>>)
    requires AllMdus(mdus) && ValidScheme(s)
    ensures |r| == |mdus|
  {
    seq(|mdus|, i requires 0 <= i < |mdus| => s.userRoot(Flat(mdus[i], s)))
  }

  /** The i-th stretch of some length, if there are that many bytes. */
  function StretchOf(bytes: seq<byte>, i: nat, span: nat): seq<byte> {
    if 0 <= i * span <= i * span + span <= |bytes| then bytes[i * span..i * span + span] else []
  }

  /** The roots that witness bytes give for `count` user MDUs. */
  function RootsOf(bytes: seq<byte>, count: nat, s: Scheme): (r: seq<seq<byte>>)
    requires ValidScheme(s)
    ensures |r| == count
  {
    seq(count, i requires 0 <= i < count => s.userRoot(StretchOf(bytes, i, Span(s.code))))
  }

  /** The witness bytes of user MDUs give their roots. */
  lemma RootsOfMdus(mdus: seq<seq<byte>>, s: Scheme)
    requires AllMdus(mdus) && ValidScheme(s)
    ensures RootsOf(WitnessBytes(mdus, s), |mdus|, s) == UserRoots(mdus, s)
  {
    hide Lawful, Flat, Concat, Span;
    var span, bytes := Span(s.code), WitnessBytes(mdus, s);
    forall i | 0 <= i < |mdus| ensures StretchOf(bytes, i, span) == Flat(mdus[i], s) {
      ConcatPart(Flats(mdus, s), span, i);
    }
  }

  /** The bytes up to the first zero byte. */
  function CString(b: seq<byte>): (c: seq<byte>)
    ensures |c| <= |b| && forall i :: 0 <= i < |c| ==> c[i] != 0
  {
    if b == [] || b[0] == 0 then [] else [b[0]] + CString(b[1..])
  }

  /** The name a record gets: at most 40 bytes of the path, up to a zero byte. */
  function Name(path: seq<byte>): (n: seq<byte>)
    ensures |n| <= PATH_SIZE && forall i :: 0 <= i < |n| ==> n[i] != 0
  {
    CString(if |path| > PATH_SIZE then path[..PATH_SIZE] else path)
  }

  /** A path is stored under a name: the name is how the path begins, it has no zero byte, and it ends with the path,
      before a zero byte of the path, or at 40 bytes. */
  ghost predicate StoredAs(path: seq<byte>, name: seq<byte>) {
    |name| <= |path| && |name| <= PATH_SIZE && path[..|name|] == name && 0 !in name &&
    (|name| == |path| || |name| == PATH_SIZE || path[|name|] == 0)
  }

  lemma {:induction false} CStringEnds(b: seq<byte>)
    ensures var c := CString(b); b[..|c|] == c && (|c| == |b| || b[|c|] == 0)
  {
    if b != [] && b[0] != 0 {
      CStringEnds(b[1..]);
      var c := CString(b);
      assert b[..|c|] == [b[0]] + b[1..][..|c| - 1];
    }
  }

  /** So a path has exactly one name. */
  lemma NameIs(path: seq<byte>, name: seq<byte>)
    ensures StoredAs(path, name) <==> name == Name(path)
  {
    hide CString;
    var kept := if |path| > PATH_SIZE then path[..PATH_SIZE] else path;
    var n := Name(path);
    CStringEnds(kept);
    assert n == kept[..|n|] == path[..|n|];
    assert forall i :: 0 <= i < |n| ==> path[i] == n[i];
    if StoredAs(path, name) {
      assert forall i :: 0 <= i < |name| ==> path[i] == name[i];
      assert |name| == |n|;
    }
  }

  /** In particular a path of at most 40 bytes without a zero byte is its own name. */
  lemma PlainName(path: seq<byte>)
    requires |path| <= PATH_SIZE && 0 !in path
    ensures Name(path) == path
  {
    hide Name;
    NameIs(path, path);
  }

  function Padded(name: seq<byte>): (p: seq<byte>)
    requires |name| <= PATH_SIZE
    ensures |p| == PATH_SIZE
  {
    name + seq(PATH_SIZE - |name|, _ => 0)
  }

  function RecordFor(f: File, start: nat): (r: FileRecord)
    ensures |r.path| == PATH_SIZE && r.timestamp == 0 && UnpackLengthAndFlags(r.lengthAndFlags).1 == 0
  {
    FileRecord(start, PackLengthAndFlags(|f.content|, 0), 0, Padded(Name(f.path)))
  }

  /** Where file j starts: after the MDUs of the files before it. */
  function StartOf(files: seq<File>, j: nat): nat
    requires j <= |files|
  {
    UserCount(files[..j]) * MDU_PAYLOAD_BYTES
  }

  function Records(files: seq<File>): (r: seq<FileRecord>)
    ensures |r| == |files| && forall j :: 0 <= j < |r| ==> |r[j].path| == PATH_SIZE
  {
    seq(|files|, j requires 0 <= j < |files| => RecordFor(files[j], StartOf(files, j)))
  }

  lemma RecordsAppend(files: seq<File>, f: File)
    ensures Records(files + [f]) == Records(files) + [RecordFor(f, UserCount(files) * MDU_PAYLOAD_BYTES)]
    ensures UserMdus(files + [f]) == UserMdus(files) + FileMdus(f.content)
  {
    hide UserMdus, RecordFor, FileMdus;
    var all := files + [f];
    forall j | 0 <= j <= |files| ensures all[..j] == files[..j] {
    }
    assert files[..|files|] == files;
    UserMdusSnoc(files, f);
  }

  lemma UserMdusSnoc(files: seq<File>, f: File)
    ensures UserMdus(files + [f]) == UserMdus(files) + FileMdus(f.content)
  {
    assert (files + [f])[..|files|] == files;
  }

  // ----- a slab -----

  /** A slab directory: mdu_i.bin by i, and mdu_i_slot_j.bin by (i, j). */
  datatype Dir = Dir(mdus: map<nat, seq<byte>>, shards: map<(nat, nat), seq<byte>>)

  ghost predicate ShardAt(shards: map<(nat, nat), seq<byte>>, base: nat, mdus: seq<seq<byte>>, s: Scheme, u: nat,
                          slot: nat)
    requires AllMdus(mdus) && ValidScheme(s) && u < |mdus| && slot < s.code.k + s.code.m
  {
    (base + u, slot) in shards && shards[(base + u, slot)] == Shards(mdus[u], s.code)[slot]
  }

  /** Every slot has its shard of every user MDU. */
  ghost predicate ShardsStored(shards: map<(nat, nat), seq<byte>>, base: nat, mdus: seq<seq<byte>>, s: Scheme)
    requires AllMdus(mdus) && ValidScheme(s)
  {
    forall u: nat, slot: nat :: u < |mdus| && slot < s.code.k + s.code.m ==> ShardAt(shards, base, mdus, s, u, slot)
  }

  ghost predicate WitnessAt(mdus: map<nat, seq<byte>>, bytes: seq<byte>, i: nat) {
    1 + i in mdus && mdus[1 + i] == Encoded(WitnessPayload(bytes, i))
  }

  ghost predicate WitnessStored(mdus: map<nat, seq<byte>>, bytes: seq<byte>, w: nat) {
    forall i: nat :: i < w ==> WitnessAt(mdus, bytes, i)
  }

  /** The root table starts with these roots and is zero after them. */
  ghost predicate TableHolds(table: seq<seq<byte>>, roots: seq<seq<byte>>) {
    |roots| <= |table| && forall i :: 0 <= i < |table| ==> table[i] == if i < |roots| then roots[i] else ZeroRoot()
  }

  ghost predicate Mdu0Holds(mdu0: seq<byte>, records: seq<FileRecord>, roots: seq<seq<byte>>) {
    Loadable(mdu0) && |records| <= MAX_RECORDS && HeaderAt(mdu0).recordCount == |records| &&
    RecordTable(mdu0, |records|) == records && TableHolds(RootTable(mdu0), roots)
  }

  /** A user MDU that is there in one piece is the right one. */
  ghost predicate RestoredAt(mdus: map<nat, seq<byte>>, base: nat, user: seq<seq<byte>>, u: nat)
    requires u < |user|
  {
    base + u in mdus ==> mdus[base + u] == user[u]
  }

  ghost predicate Restored(mdus: map<nat, seq<byte>>, base: nat, user: seq<seq<byte>>) {
    forall u: nat :: u < |user| ==> RestoredAt(mdus, base, user, u)
  }

  /** What a slab holds: its user MDUs, the commitments kept of them (its witness bytes), and the file records. */
  datatype Content = Content(user: seq<seq<byte>>, commitments: seq<byte>, records: seq<FileRecord>)

  ghost predicate ValidContent(c: Content, s: Scheme)
    requires ValidScheme(s)
  {
    AllMdus(c.user) && |c.commitments| == |c.user| * Span(s.code) &&
    forall j :: 0 <= j < |c.records| ==> |c.records[j].path| == PATH_SIZE
  }

  /** The roots in the order of the slab: witness MDUs, then user MDUs. */
  function TableRoots(c: Content, s: Scheme): (r: seq<seq<byte>>)
    requires ValidScheme(s)
    ensures |r| == WitnessCount(|c.user|, s.code) + |c.user|
  {
    WitnessRoots(c.commitments, WitnessCount(|c.user|, s.code), s) + RootsOf(c.commitments, |c.user|, s)
  }

  /** There are shards of user MDUs only. */
  ghost predicate ShardsFrom(shards: map<(nat, nat), seq<byte>>, base: nat) {
    forall key :: key in shards ==> key.0 >= base
  }

  /** The directory is a slab with this content. */
  ghost predicate IsSlabOf(d: Dir, c: Content, s: Scheme)
    requires ValidScheme(s)
  {
    var w := WitnessCount(|c.user|, s.code);
    ValidContent(c, s) && 0 in d.mdus && Mdu0Holds(d.mdus[0], c.records, TableRoots(c, s)) &&
    WitnessStored(d.mdus, c.commitments, w) && ShardsStored(d.shards, 1 + w, c.user, s) &&
    ShardsFrom(d.shards, 1 + w) && Restored(d.mdus, 1 + w, c.user)
  }

  /** The content of the slab of some files: all their user MDUs with their own witness bytes. */
  function ContentOf(files: seq<File>, s: Scheme): (c: Content)
    requires ValidScheme(s)
    ensures ValidContent(c, s)
  {
    Content(UserMdus(files), WitnessBytes(UserMdus(files), s), Records(files))
  }

  /** The directory is the slab of the files. */
  ghost predicate IsSlab(d: Dir, files: seq<File>, s: Scheme)
    requires ValidScheme(s)
  {
    IsSlabOf(d, ContentOf(files, s), s)
  }

  /** No root in the table is all zeros, so that a reader can tell how many there are. */
  ghost predicate NoZeroRoot(c: Content, s: Scheme)
    requires ValidScheme(s)
  {
    forall i :: 0 <= i < |TableRoots(c, s)| ==> TableRoots(c, s)[i] != ZeroRoot()
  }

  ghost predicate NonEmpty(files: seq<File>) {
    forall j :: 0 <= j < |files| ==> files[j].content != []
  }

  /** Every record has a name. */
  ghost predicate Named(files: seq<File>) {
    forall j :: 0 <= j < |files| ==> Name(files[j].path) != []
  }
}
