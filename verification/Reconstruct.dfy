/** Getting an MDU back from any k of its shards. */
module Reconstruct {
  import opened Bytes
  import opened Codec
  import opened Division
  import opened StripeIndex
  import opened ErasureCode
  import opened Stripe

  /** Column j of what is left of the shards. */
  function SurvivingColumn(shards: seq<Option<seq<byte>>>, j: nat): (col: seq<Option<byte>>)
    requires forall i :: 0 <= i < |shards| && shards[i].Some? ==> j < |shards[i].value|
    ensures |col| == |shards|
  {
    seq(|shards|, i requires 0 <= i < |shards| => if shards[i].Some? then Some(shards[i].value[j]) else None)
  }

  ghost predicate RecoveredShards(all: seq<seq<byte>>, c: Code, shards: seq<Option<seq<byte>>>, len: nat) {
    |all| == c.k && (forall i :: 0 <= i < c.k ==> |all[i]| == len) &&
    (forall i :: 0 <= i < |shards| && shards[i].Some? ==> |shards[i].value| == len) &&
    forall i, j :: 0 <= i < c.k && 0 <= j < len ==> RecoveredAt(all, c, shards, i, j)
  }

  ghost predicate RecoveredAt(all: seq<seq<byte>>, c: Code, shards: seq<Option<seq<byte>>>, i: nat, j: nat)
    requires i < |all| && j < |all[i]|
    requires forall s :: 0 <= s < |shards| && shards[s].Some? ==> j < |shards[s].value|
  {
    var column := c.recover(SurvivingColumn(shards, j));
    i < |column| && all[i][j] == column[i]
  }

  /** The coder works on whole shards, column by column. */
  method RecoverShards(c: Code, shards: seq<Option<seq<byte>>>, len: nat) returns (all: seq<seq<byte>>)
    requires forall i :: 0 <= i < |shards| && shards[i].Some? ==> |shards[i].value| == len
    requires forall j :: 0 <= j < len ==> |c.recover(SurvivingColumn(shards, j))| >= c.k
    ensures RecoveredShards(all, c, shards, len)
  {
    var out := new byte[c.k, len]((_, _) => 0);
    for j := 0 to len
      invariant forall i, x :: 0 <= i < c.k && 0 <= x < j ==> out[i, x] == c.recover(SurvivingColumn(shards, x))[i]
    {
      var column := c.recover(SurvivingColumn(shards, j));
      forall i | 0 <= i < c.k {
        out[i, j] := column[i];
      }
    }
    all := [];
    for i := 0 to c.k
      invariant |all| == i
      invariant forall s :: 0 <= s < i ==> |all[s]| == len && forall x :: 0 <= x < len ==> all[s][x] == out[s, x]
    {
      all := all + [seq(len, x requires 0 <= x < len reads out => out[i, x])];
    }
  }

  ghost predicate OfSize(shards: seq<Option<seq<byte>>>, len: nat) {
    forall i :: 0 <= i < |shards| && shards[i].Some? ==> |shards[i].value| == len
  }

  /** What is left of a column of the shards is what is left of its codeword. */
  lemma ColumnSurvives(mdu: seq<byte>, c: Code, shards: seq<Option<seq<byte>>>, j: nat)
    requires |mdu| == MDU_SIZE && ValidParams(c.k, c.m) && Lawful(c)
    requires Partial(shards, Shards(mdu, c)) && Present(shards) >= c.k && j < Rows(c.k) * BLOB_SIZE
    ensures forall i :: 0 <= i < |shards| && shards[i].Some? ==> j < |shards[i].value|
    ensures j / BLOB_SIZE < Rows(c.k)
    ensures var d := DataColumn(mdu, c.k, j / BLOB_SIZE, j % BLOB_SIZE);
      c.recover(SurvivingColumn(shards, j)) == Codeword(c, d)
  {
    hide Lawful, Rows, Codeword, DataColumn;
    assert j / BLOB_SIZE < Rows(c.k);
    var d := DataColumn(mdu, c.k, j / BLOB_SIZE, j % BLOB_SIZE);
    CodewordLength(c, d);
    forall i | 0 <= i < |shards| && shards[i].Some?
      ensures j < |shards[i].value| && shards[i].value[j] == Codeword(c, d)[i]
    {
      assert shards[i].value == Shards(mdu, c)[i] == Shard(mdu, c, i);
    }
    var col := SurvivingColumn(shards, j);
    PresentSame(shards, col);
    LawAt(c, d, col);
  }

  lemma LawAt(c: Code, d: seq<byte>, survived: seq<Option<byte>>)
    requires Lawful(c) && |d| == c.k && Partial(survived, Codeword(c, d)) && Present(survived) >= c.k
    ensures c.recover(survived) == Codeword(c, d)
  {
    assert Recovers(c, d, survived);
  }

  lemma {:induction false} PresentSame<T, U>(a: seq<Option<T>>, b: seq<Option<U>>)
    requires |a| == |b| && forall i :: 0 <= i < |a| ==> (a[i].Some? <==> b[i].Some?)
    ensures Present(a) == Present(b)
  {
    if a != [] { PresentSame(a[..|a| - 1], b[..|b| - 1]); }
  }

  method CountPresent(shards: seq<Option<seq<byte>>>, len: nat) returns (r: Outcome<nat>)
    ensures r.Done? <==> OfSize(shards, len)
    ensures r.Done? ==> r.value == Present(shards)
    ensures r.Failed? ==> r.error == InvalidSize
  {
    var present := 0;
    assert shards[..0] == [];
    for i := 0 to |shards|
      invariant OfSize(shards[..i], len) && present == Present(shards[..i])
    {
      assert shards[..i + 1][..i] == shards[..i];
      if shards[i].Some? {
        if |shards[i].value| != len {
          return Failed(InvalidSize);
        }
        present := present + 1;
      }
    }
    assert shards[..|shards|] == shards;
    return Done(present);
  }

  lemma RecoverLength(c: Code, survived: seq<Option<byte>>)
    requires Lawful(c) && |survived| == c.k + c.m && Present(survived) >= c.k
    ensures |c.recover(survived)| == c.k + c.m
  {
    var d: seq<byte> := seq(c.k, _ => 0);
    assert Recovers(c, d, survived);
  }

  /** reconstruct_mdu_from_shards: the error cases, and the MDU whenever the k or more shards that are
      there are shards of it. */
  method ReconstructMduFromShards(shards: seq<Option<seq<byte>>>, k: nat, m: nat, c: Code, ghost mdu: seq<byte>)
      returns (r: Outcome<seq<byte>>)
    requires |mdu| == MDU_SIZE && (ValidParams(k, m) ==> Lawful(c) && c.k == k && c.m == m)
    ensures !ValidParams(k, m) || |shards| != k + m <==> r == Failed(InvalidRsParams)
    ensures ValidParams(k, m) && |shards| == k + m && !OfSize(shards, Rows(k) * BLOB_SIZE) <==> r == Failed(InvalidSize)
    ensures ValidParams(k, m) && |shards| == k + m && OfSize(shards, Rows(k) * BLOB_SIZE) && Present(shards) < k
      <==> r == Failed(Rs)
    ensures r.Done? <==>
      ValidParams(k, m) && |shards| == k + m && OfSize(shards, Rows(k) * BLOB_SIZE) && Present(shards) >= k
    ensures r.Done? && Partial(shards, Shards(mdu, c)) ==> r == Done(mdu)
  {
    hide Lawful, Rows, Codeword, Shard, ShardByte, DataColumn, MduByte, Recovers;
    if k == 0 || m == 0 {
      return Failed(InvalidRsParams);
    }
    if BLOBS_PER_MDU % k != 0 {
      return Failed(InvalidRsParams);
    }
    if |shards| != k + m {
      return Failed(InvalidRsParams);
    }
    var rows := Rows(k);
    var len := rows * BLOB_SIZE;
    var present := CountPresent(shards, len);
    if present.Failed? {
      return Failed(InvalidSize);
    }
    if present.value < k {
      return Failed(Rs);
    }
    forall j | 0 <= j < len
      ensures |c.recover(SurvivingColumn(shards, j))| >= c.k
    {
      PresentSame(shards, SurvivingColumn(shards, j));
      RecoverLength(c, SurvivingColumn(shards, j));
    }
    var all := RecoverShards(c, shards, len);
    var out := new byte[MDU_SIZE](_ => 0);
    CopyRows(all, k, rows, out);
    if Partial(shards, Shards(mdu, c)) {
      RecoveredMdu(mdu, c, shards, all);
      assert out[..] == mdu;
    }
    return Done(out[..]);
  }

  /** Position x of the MDU is read from the slot and row of its blob. */
  lemma SourceOf(x: nat, k: nat)
    requires x < MDU_SIZE && k > 0 && BLOBS_PER_MDU % k == 0
    ensures var b := x / BLOB_SIZE;
      0 <= b / k < Rows(k) && 0 <= b % k < k && b == b / k * k + b % k &&
      0 <= b / k * BLOB_SIZE + x % BLOB_SIZE < Rows(k) * BLOB_SIZE
  {
    var b := x / BLOB_SIZE;
    RowsTimes(k);
    RowInRange(b, k, Rows(k));
    NonNegative(b, k, 0);
  }

  ghost predicate RowShards(all: seq<seq<byte>>, k: nat) {
    k > 0 && BLOBS_PER_MDU % k == 0 && |all| == k && forall i :: 0 <= i < k ==> |all[i]| == Rows(k) * BLOB_SIZE
  }

  /** The byte of the data shards that belongs at position x of the MDU. */
  ghost function DataByte(all: seq<seq<byte>>, k: nat, x: nat): byte
    requires RowShards(all, k) && x < MDU_SIZE
  {
    SourceOf(x, k);
    all[x / BLOB_SIZE % k][x / BLOB_SIZE / k * BLOB_SIZE + x % BLOB_SIZE]
  }

  /** Shards of the MDU, recovered and put in order, are the MDU. */
  lemma RecoveredMdu(mdu: seq<byte>, c: Code, shards: seq<Option<seq<byte>>>, all: seq<seq<byte>>)
    requires |mdu| == MDU_SIZE && ValidParams(c.k, c.m) && Lawful(c)
    requires Partial(shards, Shards(mdu, c)) && Present(shards) >= c.k
    requires RecoveredShards(all, c, shards, Rows(c.k) * BLOB_SIZE)
    ensures RowShards(all, c.k) && forall x | 0 <= x < MDU_SIZE :: DataByte(all, c.k, x) == mdu[x]
  {
    hide Lawful, Rows, SurvivingColumn, Codeword, Shards;
    forall x | 0 <= x < MDU_SIZE ensures DataByte(all, c.k, x) == mdu[x] {
      SourceOf(x, c.k);
      Reassembles(mdu, c, shards, x);
      assert RecoveredAt(all, c, shards, x / BLOB_SIZE % c.k, x / BLOB_SIZE / c.k * BLOB_SIZE + x % BLOB_SIZE);
    }
  }

  lemma Reassembles(mdu: seq<byte>, c: Code, shards: seq<Option<seq<byte>>>, x: nat)
    requires |mdu| == MDU_SIZE && ValidParams(c.k, c.m) && Lawful(c) && x < MDU_SIZE
    requires Partial(shards, Shards(mdu, c)) && Present(shards) >= c.k
    ensures var b := x / BLOB_SIZE;
      var j := b / c.k * BLOB_SIZE + x % BLOB_SIZE;
      0 <= j && 0 <= b % c.k && (forall s :: 0 <= s < |shards| && shards[s].Some? ==> j < |shards[s].value|) &&
      b % c.k < |c.recover(SurvivingColumn(shards, j))| &&
      c.recover(SurvivingColumn(shards, j))[b % c.k] == mdu[x]
  {
    hide Lawful, Rows, SurvivingColumn, Codeword, Shards;
    SourceOf(x, c.k);
    var b := x / BLOB_SIZE;
    var row, slot := b / c.k, b % c.k;
    var j := row * BLOB_SIZE + x % BLOB_SIZE;
    assert j / BLOB_SIZE == row && j % BLOB_SIZE == x % BLOB_SIZE;
    ColumnSurvives(mdu, c, shards, j);
    var d := DataColumn(mdu, c.k, row, x % BLOB_SIZE);
    CodewordLength(c, d);
    CodewordData(c, d, slot);
  }

  lemma CodewordData(c: Code, d: seq<byte>, slot: nat)
    requires slot < |d|
    ensures slot < |Codeword(c, d)| && Codeword(c, d)[slot] == d[slot]
  {
  }

  lemma DataByteIn(all: seq<seq<byte>>, k: nat, row: nat, slot: nat, x: nat)
    requires RowShards(all, k) && row < Rows(k) && slot < k
    requires (row * k + slot) * BLOB_SIZE <= x < (row * k + slot + 1) * BLOB_SIZE
    ensures x < MDU_SIZE && row * BLOB_SIZE + (x - (row * k + slot) * BLOB_SIZE) < |all[slot]|
    ensures DataByte(all, k, x) == all[slot][row * BLOB_SIZE + (x - (row * k + slot) * BLOB_SIZE)]
  {
    hide Rows;
    BlobInMdu(k, row, slot);
    assert x / BLOB_SIZE == row * k + slot && x % BLOB_SIZE == x - (row * k + slot) * BLOB_SIZE;
  }

  /** The double loop that puts the rows of the data shards back in blob order; the same loop rebuilds
      an MDU from data shards in the gateway. */
  method CopyRows(all: seq<seq<byte>>, k: nat, rows: nat, out: array<byte>)
    requires out.Length == MDU_SIZE && RowShards(all, k) && rows == Rows(k)
    modifies out
    ensures forall x | 0 <= x < MDU_SIZE :: out[x] == DataByte(all, k, x)
  {
    hide Rows, DataByte, RowShards;
    RowSizes(all, k);
    for row := 0 to rows
      invariant forall x | 0 <= x < MDU_SIZE && x < row * k * BLOB_SIZE :: out[x] == DataByte(all, k, x)
    {
      for slot := 0 to k
        invariant forall x | 0 <= x < MDU_SIZE && x < (row * k + slot) * BLOB_SIZE :: out[x] == DataByte(all, k, x)
      {
        var at := (row * k + slot) * BLOB_SIZE;
        DataByteIn(all, k, row, slot, at);
        DataByteIn(all, k, row, slot, at + BLOB_SIZE - 1);
        CopyBlob(all[slot], row * BLOB_SIZE, at, out);
        forall x | at <= x < at + BLOB_SIZE ensures out[x] == DataByte(all, k, x) {
          DataByteIn(all, k, row, slot, x);
        }
      }
      assert (row + 1) * k == row * k + k;
    }
    assert rows * k == k * rows;
  }

  lemma RowSizes(all: seq<seq<byte>>, k: nat)
    requires RowShards(all, k)
    ensures k > 0 && BLOBS_PER_MDU % k == 0 && k * Rows(k) == BLOBS_PER_MDU && |all| == k
  {
    RowsTimes(k);
  }

  method CopyBlob(src: seq<byte>, from: nat, to: nat, out: array<byte>)
    requires from + BLOB_SIZE <= |src| && to + BLOB_SIZE <= out.Length
    modifies out
    ensures forall x | 0 <= x < out.Length ::
      out[x] == if to <= x < to + BLOB_SIZE then src[from + (x - to)] else old(out[x])
  {
    forall x | to <= x < to + BLOB_SIZE {
      out[x] := src[from + (x - to)];
    }
  }

  // ----- collecting shards -----

  /** What asking for a slot's shard yields, on disk or from its provider; a missing or wrongly sized
      shard counts as nothing. */
  type Source = seq<Option<seq<byte>>>

  function Usable(s: Option<seq<byte>>, len: nat): bool {
    s.Some? && |s.value| == len
  }

  /** Slots that gave a usable shard when they were asked. */
  ghost function UsableCount(first: Source, second: Source, len: nat, upTo: nat): nat
    requires |first| == |second| && upTo <= |first|
  {
    if upTo == 0 then 0
    else
      (if Usable(first[upTo - 1], len) || Usable(second[upTo - 1], len) then 1 else 0)
      + UsableCount(first, second, len, upTo - 1)
  }

  /** The two collection passes of ensureMode2MduOnDisk, with what each slot answers in the first and in
      the second pass, and the reconstruction. */
  method EnsureMode2Mdu(first: Source, second: Source, k: nat, m: nat, c: Code, ghost mdu: seq<byte>)
      returns (r: Outcome<seq<byte>>)
    requires |mdu| == MDU_SIZE && ValidParams(k, m) && Lawful(c) && c.k == k && c.m == m
    requires |first| == |second| == k + m
    requires forall i :: 0 <= i < k + m ==>
      (Usable(first[i], Rows(k) * BLOB_SIZE) ==> first[i].value == Shards(mdu, c)[i]) &&
      (Usable(second[i], Rows(k) * BLOB_SIZE) ==> second[i].value == Shards(mdu, c)[i])
    ensures r == if UsableCount(first, second, Rows(k) * BLOB_SIZE, k + m) >= k then Done(mdu) else Failed(Rs)
  {
    hide Lawful, Rows, Shards;
    var len := Rows(k) * BLOB_SIZE;
    var shards: Source := seq(k + m, _ => None);
    NonePresent(shards);
    var present := 0;
    var slot := 0;
    while slot < k + m && present < k
      invariant 0 <= slot <= k + m && |shards| == k + m && present == Present(shards) <= k
      invariant forall i :: 0 <= i < k + m ==>
        shards[i] == if i < slot && Usable(first[i], len) then first[i] else None
    {
      if Usable(first[slot], len) {
        PresentUpdate(shards, slot, first[slot].value);
        shards := shards[slot := first[slot]];
        present := present + 1;
      }
      slot := slot + 1;
    }
    if present < k {
      ghost var after := shards;
      slot := 0;
      while slot < k + m && present < k
        invariant 0 <= slot <= k + m && |shards| == k + m && present == Present(shards) <= k
        invariant forall i :: 0 <= i < k + m ==>
          shards[i] == if after[i].None? && i < slot && Usable(second[i], len) then second[i] else after[i]
      {
        if shards[slot].None? && Usable(second[slot], len) {
          PresentUpdate(shards, slot, second[slot].value);
          shards := shards[slot := second[slot]];
          present := present + 1;
        }
        slot := slot + 1;
      }
    }
    CollectedCount(shards, first, second, len, k + m);
    assert shards[..k + m] == shards;
    if present < k {
      return Failed(Rs);
    }
    CollectedShards(shards, first, second, mdu, c);
    r := ReconstructMduFromShards(shards, k, m, c, mdu);
  }

  lemma {:induction false} NonePresent<T>(s: seq<Option<T>>)
    requires forall i :: 0 <= i < |s| ==> s[i].None?
    ensures Present(s) == 0
  {
    if s != [] { NonePresent(s[..|s| - 1]); }
  }

  lemma {:induction false} PresentUpdate<T>(s: seq<Option<T>>, i: nat, x: T)
    requires i < |s| && s[i].None?
    ensures Present(s[i := Some(x)]) == Present(s) + 1
  {
    var n := |s| - 1;
    if i < n {
      assert s[i := Some(x)][..n] == s[..n][i := Some(x)];
      PresentUpdate(s[..n], i, x);
    } else {
      assert s[i := Some(x)][..n] == s[..n];
    }
  }

  /** At most as many shards are collected as slots answered, and all of them if none was skipped. */
  lemma {:induction false} CollectedCount(shards: Source, first: Source, second: Source, len: nat, n: nat)
    requires |shards| == |first| == |second| && n <= |shards|
    requires forall i :: 0 <= i < n && shards[i].Some? ==> Usable(first[i], len) || Usable(second[i], len)
    ensures Present(shards[..n]) <= UsableCount(first, second, len, n)
    ensures (forall i :: 0 <= i < n && (Usable(first[i], len) || Usable(second[i], len)) ==> shards[i].Some?)
      ==> Present(shards[..n]) == UsableCount(first, second, len, n)
  {
    if n != 0 {
      CollectedCount(shards, first, second, len, n - 1);
      assert shards[..n][..n - 1] == shards[..n - 1];
    }
  }

  lemma CollectedShards(shards: Source, first: Source, second: Source, mdu: seq<byte>, c: Code)
    requires |mdu| == MDU_SIZE && ValidParams(c.k, c.m) && Lawful(c)
    requires |shards| == |first| == |second| == c.k + c.m
    requires forall i :: 0 <= i < |shards| ==>
      (Usable(first[i], Rows(c.k) * BLOB_SIZE) ==> first[i].value == Shards(mdu, c)[i]) &&
      (Usable(second[i], Rows(c.k) * BLOB_SIZE) ==> second[i].value == Shards(mdu, c)[i])
    requires forall i :: 0 <= i < |shards| && shards[i].Some? ==>
      (Usable(first[i], Rows(c.k) * BLOB_SIZE) && shards[i] == first[i]) ||
      (Usable(second[i], Rows(c.k) * BLOB_SIZE) && shards[i] == second[i])
    ensures Partial(shards, Shards(mdu, c)) && OfSize(shards, Rows(c.k) * BLOB_SIZE)
  {
    hide Lawful, Rows, Shards;
  }
}
