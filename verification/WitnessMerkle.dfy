/** The Merkle tree over the commitments of an MDU: root and one path are built level by level, and the
    last node of an odd level moves up as it is. */
module WitnessMerkle {
  import opened Bytes
  import opened SessionMerkle

  // ----- the tree, from the top -----

  /** The number of leaves in the left subtree: the largest power of two below n. */
  function LeftSize(n: nat): (k: nat)
    requires n >= 2
    ensures 0 < k < n <= 2 * k && (n > 2 ==> k % 2 == 0)
  {
    if n == 2 then 1 else 2 * LeftSize((n + 1) / 2)
  }

  /** The root of the tree: left and right subtree hashed together. */
  function TreeRoot(hash: HashFunction, leaves: seq<seq<byte>>): seq<byte>
    requires leaves != []
    decreases |leaves|
  {
    if |leaves| == 1 then leaves[0]
    else
      var k := LeftSize(|leaves|);
      hash(TreeRoot(hash, leaves[..k]) + TreeRoot(hash, leaves[k..]))
  }

  // ----- the tree, level by level -----

  function Up(hash: HashFunction, level: seq<seq<byte>>): (n: seq<seq<byte>>)
    ensures |n| == (|level| + 1) / 2
  {
    seq((|level| + 1) / 2, i requires 0 <= i < (|level| + 1) / 2 => UpAt(hash, level, i))
  }

  function UpAt(hash: HashFunction, level: seq<seq<byte>>, i: nat): seq<byte>
    requires 2 * i < |level|
  {
    if 2 * i + 1 < |level| then hash(level[2 * i] + level[2 * i + 1]) else level[2 * i]
  }

  lemma Split(hash: HashFunction, leaves: seq<seq<byte>>, k: nat)
    requires |leaves| >= 2 && k == LeftSize(|leaves|)
    ensures TreeRoot(hash, leaves) == hash(TreeRoot(hash, leaves[..k]) + TreeRoot(hash, leaves[k..]))
  {
  }

  lemma UpOfTwo(hash: HashFunction, level: seq<seq<byte>>)
    requires 1 <= |level| <= 2
    ensures TreeRoot(hash, Up(hash, level)) == TreeRoot(hash, level)
  {
    assert Up(hash, level)[0] == UpAt(hash, level, 0);
    if |level| == 2 {
      assert level[..1] == [level[0]] && level[1..] == [level[1]];
    }
  }

  /** Going up a level keeps the root. */
  lemma {:induction false} UpKeepsRoot(hash: HashFunction, level: seq<seq<byte>>)
    requires level != []
    ensures TreeRoot(hash, Up(hash, level)) == TreeRoot(hash, level)
    decreases |level|
  {
    hide TreeRoot, Up, UpAt;
    var n := |level|;
    if n <= 2 {
      UpOfTwo(hash, level);
    } else {
      var k := LeftSize(n);
      UpKeepsRoot(hash, level[..k]);
      UpKeepsRoot(hash, level[k..]);
      UpHalves(hash, level, k);
      Split(hash, level, k);
      Split(hash, Up(hash, level), k / 2);
    }
  }

  lemma UpHalves(hash: HashFunction, level: seq<seq<byte>>, k: nat)
    requires k < |level| && k % 2 == 0
    ensures Up(hash, level)[..k / 2] == Up(hash, level[..k]) && Up(hash, level)[k / 2..] == Up(hash, level[k..])
  {
    var up := Up(hash, level);
    forall i | 0 <= i < k / 2 ensures up[i] == Up(hash, level[..k])[i] {
      assert up[i] == UpAt(hash, level, i);
      assert Up(hash, level[..k])[i] == UpAt(hash, level[..k], i);
    }
    forall i | 0 <= i < |up| - k / 2 ensures up[k / 2 + i] == Up(hash, level[k..])[i] {
      assert up[k / 2 + i] == UpAt(hash, level, k / 2 + i);
      assert Up(hash, level[k..])[i] == UpAt(hash, level[k..], i);
    }
    assert up[..k / 2] == Up(hash, level[..k]);
    assert up[k / 2..] == Up(hash, level[k..]);
  }

  // ----- the verifier -----

  datatype FoldResult = Reached(node: seq<byte>) | BadPath

  /** The node a path leads to in a tree of `width` leaves: no sibling is taken where there is none, and
      the path has to be used up. */
  function FoldWidth(hash: HashFunction, h: seq<byte>, idx: nat, width: nat, path: seq<seq<byte>>): FoldResult
    requires idx < width
    decreases width
  {
    if width == 1 then if path == [] then Reached(h) else BadPath
    else if idx % 2 == 0 && idx + 1 == width then FoldWidth(hash, h, idx / 2, (width + 1) / 2, path)
    else if path == [] then BadPath
    else FoldWidth(hash, Parent(hash, h, path[0], idx), idx / 2, (width + 1) / 2, path[1..])
  }

  /** The path of a leaf: the siblings that exist, level by level. */
  function PathOf(hash: HashFunction, level: seq<seq<byte>>, idx: nat): seq<seq<byte>>
    requires idx < |level|
    decreases |level|
  {
    if |level| == 1 then []
    else
      var sibling := if idx % 2 == 0 then idx + 1 else idx - 1;
      var rest := PathOf(hash, Up(hash, level), idx / 2);
      if sibling < |level| then [level[sibling]] + rest else rest
  }

  /** Every leaf's path leads to the root of the tree, and so all leaves have the same root. */
  lemma {:induction false} PathLeadsToRoot(hash: HashFunction, level: seq<seq<byte>>, idx: nat)
    requires idx < |level|
    ensures FoldWidth(hash, level[idx], idx, |level|, PathOf(hash, level, idx)) == Reached(TreeRoot(hash, level))
    decreases |level|
  {
    hide TreeRoot, Up, FoldWidth, PathOf;
    if |level| == 1 {
      OneLeft(hash, level, idx);
      FoldDone(hash, level[0]);
    } else {
      PathLeadsToRoot(hash, Up(hash, level), idx / 2);
      UpKeepsRoot(hash, level);
      PathStep(hash, level, idx);
      FoldStep(hash, level, idx, PathOf(hash, Up(hash, level), idx / 2));
    }
  }

  lemma FoldDone(hash: HashFunction, h: seq<byte>)
    ensures FoldWidth(hash, h, 0, 1, []) == Reached(h)
  {
  }

  /** One step of the fold: the sibling, if there is one, leads to the node above. */
  lemma FoldStep(hash: HashFunction, level: seq<seq<byte>>, idx: nat, rest: seq<seq<byte>>)
    requires idx < |level| && |level| > 1
    ensures var sibling := if idx % 2 == 0 then idx + 1 else idx - 1;
      FoldWidth(hash, level[idx], idx, |level|, (if sibling < |level| then [level[sibling]] else []) + rest)
        == FoldWidth(hash, Up(hash, level)[idx / 2], idx / 2, |Up(hash, level)|, rest)
  {
    var sibling := if idx % 2 == 0 then idx + 1 else idx - 1;
    assert Up(hash, level)[idx / 2] == UpAt(hash, level, idx / 2);
    if sibling < |level| {
      assert ([level[sibling]] + rest)[1..] == rest;
    } else {
      var none: seq<seq<byte>> := [];
      assert none + rest == rest;
    }
  }

  /** Different leaves that reach the same node from one index of a tree of one width show a collision, and so do
      different paths of one leaf. */
  lemma {:induction false} WidthBinding(hash: HashFunction, a: seq<byte>, b: seq<byte>, idx: nat, width: nat,
                                        p: seq<seq<byte>>, q: seq<seq<byte>>)
    requires HashSize(hash) && (a != b || p != q) && |a| == |b| == NODE_SIZE && Nodes(p) && Nodes(q) && idx < width
    requires FoldWidth(hash, a, idx, width, p).Reached?
    requires FoldWidth(hash, a, idx, width, p) == FoldWidth(hash, b, idx, width, q)
    ensures Collision(hash)
    decreases width
  {
    if width != 1 {
      if idx % 2 == 0 && idx + 1 == width {
        WidthBinding(hash, a, b, idx / 2, (width + 1) / 2, p, q);
      } else {
        var pa, pb := Parent(hash, a, p[0], idx), Parent(hash, b, q[0], idx);
        if pa == pb && (a != b || p[0] != q[0]) {
          ParentBinds(hash, a, b, p[0], q[0], idx);
        } else {
          assert p == [p[0]] + p[1..] && q == [q[0]] + q[1..];
          WidthBinding(hash, pa, pb, idx / 2, (width + 1) / 2, p[1..], q[1..]);
        }
      }
    }
  }

  // ----- the builder -----

  method UpLevel(hash: HashFunction, level: seq<seq<byte>>) returns (next: seq<seq<byte>>)
    ensures next == Up(hash, level)
  {
    next := [];
    var i := 0;
    while i < |level|
      invariant i % 2 == 0 && 0 <= i <= |level| + 1 && next == Up(hash, level)[..i / 2]
      decreases |level| - i
    {
      var left := level[i];
      if i + 1 < |level| {
        next := next + [hash(left + level[i + 1])];
      } else {
        next := next + [left];
      }
      i := i + 2;
    }
  }

  /** merkleRootAndPath: the root of the tree and the path of a leaf; without such a leaf a zero root. */
  method MerkleRootAndPath(hash: HashFunction, leaves: seq<seq<byte>>, leafIndex: int)
      returns (root: seq<byte>, path: seq<seq<byte>>)
    ensures !(0 <= leafIndex < |leaves|) ==> root == seq(NODE_SIZE, _ => 0) && path == []
    ensures 0 <= leafIndex < |leaves| ==> root == TreeRoot(hash, leaves)
    ensures 0 <= leafIndex < |leaves| ==>
      FoldWidth(hash, leaves[leafIndex], leafIndex, |leaves|, path) == Reached(root)
  {
    hide TreeRoot, FoldWidth, Up, PathOf;
    if |leaves| == 0 || leafIndex < 0 || leafIndex >= |leaves| {
      return seq(NODE_SIZE, _ => 0), [];
    }
    var level, idx := leaves, leafIndex;
    path := [];
    while |level| > 1
      invariant 0 <= idx < |level| && TreeRoot(hash, level) == TreeRoot(hash, leaves)
      invariant path + PathOf(hash, level, idx) == PathOf(hash, leaves, leafIndex)
      decreases |level|
    {
      PathStep(hash, level, idx);
      UpKeepsRoot(hash, level);
      if idx % 2 == 0 {
        if idx + 1 < |level| {
          path := path + [level[idx + 1]];
        }
      } else {
        path := path + [level[idx - 1]];
      }
      level := UpLevel(hash, level);
      idx := idx / 2;
    }
    PathLeadsToRoot(hash, leaves, leafIndex);
    OneLeft(hash, level, idx);
    assert path + PathOf(hash, level, idx) == path;
    return level[0], path;
  }

  lemma PathStep(hash: HashFunction, level: seq<seq<byte>>, idx: nat)
    requires idx < |level| && |level| > 1
    ensures var sibling := if idx % 2 == 0 then idx + 1 else idx - 1;
      PathOf(hash, level, idx) ==
        (if sibling < |level| then [level[sibling]] else []) + PathOf(hash, Up(hash, level), idx / 2)
  {
    hide Up;
  }

  lemma OneLeft(hash: HashFunction, level: seq<seq<byte>>, idx: nat)
    requires |level| == 1 && idx == 0
    ensures TreeRoot(hash, level) == level[0] && PathOf(hash, level, idx) == []
  {
  }
}
