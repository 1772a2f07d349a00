/** The Merkle tree over the proofs of a retrieval session: root and all paths are built level by level, an
    odd level repeats its last node; and its verifier. */
module SessionMerkle {
  import opened BitReverse
  import opened Bytes
  import opened Division

  const NODE_SIZE: nat := 32

  type HashFunction = seq<byte> -> seq<byte>

  ghost predicate HashSize(hash: HashFunction) {
    forall b :: |hash(b)| == NODE_SIZE
  }

  ghost predicate Nodes(s: seq<seq<byte>>) {
    forall i :: 0 <= i < |s| ==> |s[i]| == NODE_SIZE
  }

  // ----- the verifier -----

  /** The parent of a node and its sibling, by the side the node is on. */
  function Parent(hash: HashFunction, h: seq<byte>, sibling: seq<byte>, idx: nat): seq<byte> {
    if idx % 2 == 0 then hash(h + sibling) else hash(sibling + h)
  }

  /** The node that a path leads to. */
  function Fold(hash: HashFunction, h: seq<byte>, idx: nat, path: seq<seq<byte>>): seq<byte>
    decreases |path|
  {
    if path == [] then h else Fold(hash, Parent(hash, h, path[0], idx), idx / 2, path[1..])
  }

  /** VerifyKeccakMerklePath */
  method VerifyPath(hash: HashFunction, root: seq<byte>, leaf: seq<byte>, leafIndex: nat, path: seq<seq<byte>>)
      returns (accepted: bool)
    requires |leaf| == NODE_SIZE
    ensures accepted <==> Nodes(path) && Fold(hash, leaf, leafIndex, path) == root
  {
    var h, idx, k := leaf, leafIndex, 0;
    assert path[0..] == path;
    while k < |path|
      invariant 0 <= k <= |path| && Nodes(path[..k])
      invariant Fold(hash, leaf, leafIndex, path) == Fold(hash, h, idx, path[k..])
    {
      if |path[k]| != NODE_SIZE {
        return false;
      }
      h := if idx % 2 == 0 then hash(h + path[k]) else hash(path[k] + h);
      idx := idx / 2;
      assert path[k..][1..] == path[k + 1..];
      k := k + 1;
    }
    assert path[..|path|] == path;
    return h == root;
  }

  /** Half of half of ... idx. */
  function Ancestor(idx: nat, up: nat): nat {
    if up == 0 then idx else Ancestor(idx / 2, up - 1)
  }

  lemma {:induction false} AncestorUp(idx: nat, up: nat)
    ensures Ancestor(idx, up + 1) == Ancestor(idx, up) / 2
  {
    if up > 0 { AncestorUp(idx / 2, up - 1); }
  }

  lemma {:induction false} FoldMore(hash: HashFunction, h: seq<byte>, idx: nat, path: seq<seq<byte>>,
                                    sibling: seq<byte>)
    ensures Fold(hash, h, idx, path + [sibling])
      == Parent(hash, Fold(hash, h, idx, path), sibling, Ancestor(idx, |path|))
    decreases |path|
  {
    if path == [] {
      assert (path + [sibling])[1..] == [];
    } else {
      FoldMore(hash, Parent(hash, h, path[0], idx), idx / 2, path[1..], sibling);
      assert (path + [sibling])[1..] == path[1..] + [sibling];
    }
  }

  ghost predicate Collision(hash: HashFunction) {
    exists a, b :: a != b && |a| == |b| == 2 * NODE_SIZE && hash(a) == hash(b)
  }

  lemma CollisionFrom(hash: HashFunction, a: seq<byte>, b: seq<byte>)
    requires a != b && |a| == |b| == 2 * NODE_SIZE && hash(a) == hash(b)
    ensures Collision(hash)
  {
  }

  /** Different nodes, or different siblings, have different parents, or the hash collides. */
  lemma ParentBinds(hash: HashFunction, a: seq<byte>, b: seq<byte>, p: seq<byte>, q: seq<byte>, idx: nat)
    requires (a != b || p != q) && |a| == |b| == |p| == |q| == NODE_SIZE
    requires Parent(hash, a, p, idx) == Parent(hash, b, q, idx)
    ensures Collision(hash)
  {
    if idx % 2 == 0 {
      assert (a + p)[..NODE_SIZE] == a && (b + q)[..NODE_SIZE] == b;
      assert (a + p)[NODE_SIZE..] == p && (b + q)[NODE_SIZE..] == q;
      CollisionFrom(hash, a + p, b + q);
    } else {
      assert (p + a)[NODE_SIZE..] == a && (q + b)[NODE_SIZE..] == b;
      assert (p + a)[..NODE_SIZE] == p && (q + b)[..NODE_SIZE] == q;
      CollisionFrom(hash, p + a, q + b);
    }
  }

  /** Two different leaves accepted at the same index by paths of the same length show a hash collision, and so do two
      different paths of one leaf. */
  lemma {:induction false} Binding(hash: HashFunction, a: seq<byte>, b: seq<byte>, idx: nat, p: seq<seq<byte>>,
                                   q: seq<seq<byte>>)
    requires HashSize(hash) && (a != b || p != q) && |a| == |b| == NODE_SIZE && Nodes(p) && Nodes(q) && |p| == |q|
    requires Fold(hash, a, idx, p) == Fold(hash, b, idx, q)
    ensures Collision(hash)
    decreases |p|
  {
    if p != [] {
      var pa, pb := Parent(hash, a, p[0], idx), Parent(hash, b, q[0], idx);
      if pa == pb && (a != b || p[0] != q[0]) {
        ParentBinds(hash, a, b, p[0], q[0], idx);
      } else {
        assert p == [p[0]] + p[1..] && q == [q[0]] + q[1..];
        Binding(hash, pa, pb, idx / 2, p[1..], q[1..]);
      }
    }
  }

  /** Of the index only as many bits count as the path is long. */
  lemma {:induction false} HighBitsIgnored(hash: HashFunction, h: seq<byte>, idx: nat, path: seq<seq<byte>>)
    ensures Fold(hash, h, idx, path) == Fold(hash, h, idx % TwoPow(|path|), path)
    decreases |path|
  {
    if path != [] {
      var m := TwoPow(|path| - 1);
      HighBitsIgnored(hash, Parent(hash, h, path[0], idx), idx / 2, path[1..]);
      LowBits(idx, m);
      HighBitsIgnored(hash, Parent(hash, h, path[0], idx % (2 * m)), idx % (2 * m) / 2, path[1..]);
    }
  }

  lemma LowBits(idx: nat, m: nat)
    requires m > 0
    ensures idx % (2 * m) % 2 == idx % 2
    ensures idx % (2 * m) / 2 % m == idx / 2 % m && idx % (2 * m) / 2 == idx / 2 % m
  {
    var q, r := idx / (2 * m), idx % (2 * m);
    assert idx == 2 * m * q + r;
    assert idx == 2 * (m * q) + r;
    assert idx / 2 == m * q + r / 2;
    DivUnique(idx / 2, m, q, r / 2);
    DivUnique(r / 2, m, 0, r / 2);
  }

  // ----- the tree -----

  /** A level of even length: the last node of an odd level is repeated. */
  function Evened(level: seq<seq<byte>>): (e: seq<seq<byte>>)
    requires level != []
    ensures |e| == (|level| + 1) / 2 * 2 && level <= e
  {
    if |level| % 2 == 1 then level + [level[|level| - 1]] else level
  }

  function NextLevel(hash: HashFunction, level: seq<seq<byte>>): (n: seq<seq<byte>>)
    requires level != []
    ensures |n| == (|level| + 1) / 2
  {
    var e := Evened(level);
    seq(|e| / 2, i requires 0 <= i < |e| / 2 => hash(e[2 * i] + e[2 * i + 1]))
  }

  function Root(hash: HashFunction, level: seq<seq<byte>>): seq<byte>
    requires level != []
    decreases |level|
  {
    if |level| == 1 then level[0] else Root(hash, NextLevel(hash, level))
  }

  /** The root of a session: a single leaf is paired with itself. */
  function SessionRoot(hash: HashFunction, leaves: seq<seq<byte>>): seq<byte>
    requires leaves != []
  {
    if |leaves| == 1 then hash(leaves[0] + leaves[0]) else Root(hash, leaves)
  }

  /** How often n is halved, rounding up, until one is left. */
  function Depth(n: nat): (d: nat)
    requires n > 0
    ensures n == 1 <==> d == 0
  {
    if n == 1 then 0 else 1 + Depth((n + 1) / 2)
  }

  /** The depth is the base-2 logarithm, rounded up. */
  lemma {:induction false} DepthIsLog(n: nat)
    requires n > 0
    ensures n <= TwoPow(Depth(n)) && (n > 1 ==> TwoPow(Depth(n) - 1) < n)
  {
    if n > 1 {
      DepthIsLog((n + 1) / 2);
    }
  }

  function PathLength(n: nat): nat
    requires n > 0
  {
    if n == 1 then 1 else Depth(n)
  }

  /** What paths built so far lead to: every leaf's path to its ancestor in the level. */
  ghost predicate Lead(hash: HashFunction, leaves: seq<seq<byte>>, paths: seq<seq<seq<byte>>>, level: seq<seq<byte>>,
                       indices: seq<nat>, up: nat)
    requires |indices| == |leaves| == |paths|
  {
    forall i :: 0 <= i < |leaves| ==> LeadsTo(hash, leaves[i], i, paths[i], level, indices[i], up)
  }

  ghost predicate LeadsTo(hash: HashFunction, leaf: seq<byte>, i: nat, path: seq<seq<byte>>, level: seq<seq<byte>>,
                          index: nat, up: nat)
  {
    |path| == up && Nodes(path) && index < |level| && index == Ancestor(i, up) &&
    Fold(hash, leaf, i, path) == level[index]
  }

  /** One level up: the sibling of the ancestor extends the path to the next ancestor. */
  lemma LeadsUp(hash: HashFunction, leaf: seq<byte>, i: nat, path: seq<seq<byte>>, level: seq<seq<byte>>,
                index: nat, up: nat)
    requires level != [] && Nodes(level) && LeadsTo(hash, leaf, i, path, level, index, up)
    ensures var sibling := if index % 2 == 0 then index + 1 else index - 1;
      sibling < |Evened(level)| &&
      LeadsTo(hash, leaf, i, path + [Evened(level)[sibling]], NextLevel(hash, level), index / 2, up + 1)
  {
    hide Fold, Ancestor;
    var sibling := if index % 2 == 0 then index + 1 else index - 1;
    var e := Evened(level);
    FoldMore(hash, leaf, i, path, e[sibling]);
    AncestorUp(i, up);
    assert e[index] == level[index];
  }

  lemma NextNodes(hash: HashFunction, level: seq<seq<byte>>)
    requires HashSize(hash) && level != []
    ensures Nodes(NextLevel(hash, level))
  {
    var n, e := NextLevel(hash, level), Evened(level);
    forall i | 0 <= i < |n| ensures |n[i]| == NODE_SIZE {
      assert n[i] == hash(e[2 * i] + e[2 * i + 1]);
    }
  }

  /** keccakMerkleRootAndPaths: every leaf's path leads to the root, and all paths have one length. */
  method RootAndPaths(hash: HashFunction, leaves: seq<seq<byte>>) returns (root: seq<byte>, paths: seq<seq<seq<byte>>>)
    requires HashSize(hash) && Nodes(leaves)
    ensures leaves == [] ==> root == seq(NODE_SIZE, _ => 0)
    ensures leaves != [] ==> root == SessionRoot(hash, leaves)
    ensures |paths| == |leaves|
    ensures forall i :: 0 <= i < |leaves| ==>
      |paths[i]| == PathLength(|leaves|) && Nodes(paths[i]) && Fold(hash, leaves[i], i, paths[i]) == root
  {
    hide Fold, Nodes, HashSize, NextLevel;
    if leaves == [] {
      return seq(NODE_SIZE, _ => 0), [];
    }
    if |leaves| == 1 {
      OneLeaf(hash, leaves, 0);
      return hash(leaves[0] + leaves[0]), [[leaves[0]]];
    }
    var level := leaves;
    paths := seq(|leaves|, _ => []);
    var indices: seq<nat> := seq(|leaves|, i => i);
    ghost var up := 0;
    forall i | 0 <= i < |leaves| ensures LeadsTo(hash, leaves[i], i, paths[i], level, indices[i], up) {
      EmptyPath(hash, leaves[i], i);
    }
    while |level| > 1
      invariant |paths| == |indices| == |leaves| && |level| >= 1 && Nodes(level)
      invariant Root(hash, level) == Root(hash, leaves) && up + Depth(|level|) == Depth(|leaves|)
      invariant Lead(hash, leaves, paths, level, indices, up)
      decreases |level|
    {
      var even := if |level| % 2 == 1 then level + [level[|level| - 1]] else level;
      paths, indices := ExtendPaths(hash, leaves, paths, indices, level, even, up);
      NextNodes(hash, level);
      level := PairUp(hash, level, even);
      up := up + 1;
    }
    return level[0], paths;
  }

  /** Every path gets the sibling of its leaf's ancestor. */
  method ExtendPaths(ghost hash: HashFunction, ghost leaves: seq<seq<byte>>, before: seq<seq<seq<byte>>>,
                     above: seq<nat>, ghost level: seq<seq<byte>>, even: seq<seq<byte>>, ghost up: nat)
      returns (paths: seq<seq<seq<byte>>>, indices: seq<nat>)
    requires |before| == |above| == |leaves| && level != [] && Nodes(level) && even == Evened(level)
    requires Lead(hash, leaves, before, level, above, up)
    ensures |paths| == |indices| == |leaves| && Lead(hash, leaves, paths, NextLevel(hash, level), indices, up + 1)
  {
    hide Nodes, NextLevel, LeadsTo, Evened;
    paths, indices := before, above;
    ghost var next := NextLevel(hash, level);
    var i := 0;
    while i < |paths|
      invariant 0 <= i <= |paths| && |paths| == |indices| == |leaves|
      invariant forall j :: 0 <= j < i ==> LeadsTo(hash, leaves[j], j, paths[j], next, indices[j], up + 1)
      invariant forall j :: i <= j < |leaves| ==> LeadsTo(hash, leaves[j], j, paths[j], level, indices[j], up)
    {
      LeadsUp(hash, leaves[i], i, paths[i], level, indices[i], up);
      var idx := indices[i];
      var sibling := if idx % 2 == 0 then idx + 1 else idx - 1;
      paths := paths[i := paths[i] + [even[sibling]]];
      indices := indices[i := idx / 2];
      i := i + 1;
    }
  }

  method PairUp(hash: HashFunction, ghost level: seq<seq<byte>>, even: seq<seq<byte>>) returns (next: seq<seq<byte>>)
    requires level != [] && even == Evened(level)
    ensures next == NextLevel(hash, level)
  {
    next := [];
    var i := 0;
    while i < |even|
      invariant 0 <= i <= |even| && i % 2 == 0 && next == NextLevel(hash, level)[..i / 2]
    {
      next := next + [hash(even[i] + even[i + 1])];
      i := i + 2;
    }
  }

  lemma OneLeaf(hash: HashFunction, leaves: seq<seq<byte>>, i: nat)
    requires |leaves| == 1 && Nodes(leaves)
    ensures Nodes([leaves[0]]) && Fold(hash, leaves[0], i, [leaves[0]]) == hash(leaves[0] + leaves[0])
  {
    var rest: seq<seq<byte>> := [leaves[0]][1..];
    assert rest == [];
  }

  lemma EmptyPath(hash: HashFunction, leaf: seq<byte>, i: nat)
    ensures Fold(hash, leaf, i, []) == leaf && Nodes([])
  {
  }

  /** Repeating the last leaf of an odd number of leaves does not change the root. */
  lemma RepeatedLeaf(hash: HashFunction, leaves: seq<seq<byte>>)
    requires |leaves| > 1 && |leaves| % 2 == 1
    ensures Root(hash, leaves + [leaves[|leaves| - 1]]) == Root(hash, leaves)
  {
    var more := leaves + [leaves[|leaves| - 1]];
    assert Evened(more) == Evened(leaves);
    assert NextLevel(hash, more) == NextLevel(hash, leaves);
  }

  // ----- indices beyond the last leaf -----

  /** The leaf that an index stands for when every repeated node is read as the one it repeats. */
  function StandsFor(n: nat, i: nat): (k: nat)
    requires n > 0
    ensures k < n
    decreases n
  {
    if n == 1 then 0
    else
      var k := 2 * StandsFor((n + 1) / 2, i / 2) + i % 2;
      if k < n then k else n - 1
  }

  /** Every leaf stands for itself, and one past an odd number stands for the last one. */
  lemma {:induction false} StandsForItself(n: nat, i: nat)
    requires n > 0
    ensures i < n ==> StandsFor(n, i) == i
    ensures n > 1 && n % 2 == 1 && i == n ==> StandsFor(n, i) == n - 1
  {
    if n > 1 {
      StandsForItself((n + 1) / 2, i / 2);
    }
  }

  /** The siblings on the way up from an index. */
  function PathAt(hash: HashFunction, level: seq<seq<byte>>, i: nat): (path: seq<seq<byte>>)
    requires level != []
    ensures |path| == Depth(|level|)
    decreases |level|
  {
    if |level| == 1 then []
    else
      var next := NextLevel(hash, level);
      var k := StandsFor(|next|, i / 2);
      [Evened(level)[2 * k + 1 - i % 2]] + PathAt(hash, next, i / 2)
  }

  lemma NextAt(hash: HashFunction, level: seq<seq<byte>>, k: nat)
    requires level != [] && k < (|level| + 1) / 2
    ensures NextLevel(hash, level)[k] == hash(Evened(level)[2 * k] + Evened(level)[2 * k + 1])
  {
  }

  lemma StandInAt(level: seq<seq<byte>>, i: nat)
    requires |level| > 1
    ensures level[StandsFor(|level|, i)] == Evened(level)[2 * StandsFor((|level| + 1) / 2, i / 2) + i % 2]
  {
    var n := |level|;
    var c := 2 * StandsFor((n + 1) / 2, i / 2) + i % 2;
    assert c <= n && (c == n ==> n % 2 == 1);
  }

  /** The node above the one that an index stands for is the one that half the index stands for. */
  lemma StandsForUp(hash: HashFunction, level: seq<seq<byte>>, i: nat)
    requires |level| > 1
    ensures var k := StandsFor((|level| + 1) / 2, i / 2);
      Parent(hash, level[StandsFor(|level|, i)], Evened(level)[2 * k + 1 - i % 2], i) == NextLevel(hash, level)[k]
  {
    hide StandsFor, Evened, NextLevel;
    NextAt(hash, level, StandsFor((|level| + 1) / 2, i / 2));
    StandInAt(level, i);
  }

  lemma EvenedNodes(level: seq<seq<byte>>)
    requires level != [] && Nodes(level)
    ensures Nodes(Evened(level))
  {
  }

  lemma {:induction false} PathAtLeads(hash: HashFunction, level: seq<seq<byte>>, i: nat)
    requires HashSize(hash) && level != [] && Nodes(level)
    ensures Nodes(PathAt(hash, level, i))
    ensures Fold(hash, level[StandsFor(|level|, i)], i, PathAt(hash, level, i)) == Root(hash, level)
    decreases |level|
  {
    hide HashSize, StandsFor, NextLevel, Evened;
    if |level| > 1 {
      var next, path := NextLevel(hash, level), PathAt(hash, level, i);
      NextNodes(hash, level);
      EvenedNodes(level);
      PathAtLeads(hash, next, i / 2);
      StandsForUp(hash, level, i);
      assert path[1..] == PathAt(hash, next, i / 2);
    }
  }

  /** A leaf is accepted at an index, by a path as long as those of the leaves. */
  ghost predicate Accepted(hash: HashFunction, leaves: seq<seq<byte>>, i: nat, leaf: seq<byte>)
    requires leaves != []
  {
    |leaf| == NODE_SIZE && exists path :: AcceptedBy(hash, leaves, i, leaf, path)
  }

  ghost predicate AcceptedBy(hash: HashFunction, leaves: seq<seq<byte>>, i: nat, leaf: seq<byte>, path: seq<seq<byte>>)
    requires leaves != []
  {
    |path| == PathLength(|leaves|) && Nodes(path) && Fold(hash, leaf, i, path) == SessionRoot(hash, leaves)
  }

  /** The leaf that an index stands for is accepted there, for every index. */
  lemma StandInAccepted(hash: HashFunction, leaves: seq<seq<byte>>, i: nat)
    requires HashSize(hash) && Nodes(leaves) && leaves != []
    ensures Accepted(hash, leaves, i, leaves[StandsFor(|leaves|, i)])
  {
    hide HashSize, Root, StandsFor;
    var leaf := leaves[StandsFor(|leaves|, i)];
    if |leaves| == 1 {
      OneLeaf(hash, leaves, i);
      assert AcceptedBy(hash, leaves, i, leaf, [leaves[0]]);
    } else {
      PathAtLeads(hash, leaves, i);
      assert AcceptedBy(hash, leaves, i, leaf, PathAt(hash, leaves, i));
    }
  }

  /** And no other leaf is, unless the hash collides. Where the index is checked against the number of leaves,
      that is the leaf at the index itself. */
  lemma OnlyStandInAccepted(hash: HashFunction, leaves: seq<seq<byte>>, i: nat, leaf: seq<byte>)
    requires HashSize(hash) && Nodes(leaves) && leaves != [] && Accepted(hash, leaves, i, leaf)
    ensures leaf == leaves[StandsFor(|leaves|, i)] || Collision(hash)
    ensures i < |leaves| ==> leaf == leaves[i] || Collision(hash)
  {
    hide HashSize, Fold, StandsFor, Collision;
    StandsForItself(|leaves|, i);
    StandInAccepted(hash, leaves, i);
    var own := leaves[StandsFor(|leaves|, i)];
    var p :| AcceptedBy(hash, leaves, i, leaf, p);
    var q :| AcceptedBy(hash, leaves, i, own, q);
    if leaf != own {
      Binding(hash, leaf, own, i, p, q);
    }
  }

  lemma {:induction false} PowerDepth(n: nat)
    requires n > 0
    ensures TwoPow(Depth(n)) == n <==> IsPowerOfTwo(n)
  {
    if n > 1 {
      PowerDepth((n + 1) / 2);
      if n % 2 == 0 {
        assert (n + 1) / 2 == n / 2;
      }
    }
  }

  /** The verifier does not know the number of leaves: an index beyond the last leaf that is not cut off by the
      length of the paths is accepted exactly when their number is one or no power of two. */
  lemma BeyondTheEnd(hash: HashFunction, leaves: seq<seq<byte>>)
    requires HashSize(hash) && Nodes(leaves) && leaves != []
    ensures (exists i: nat, leaf ::
               |leaves| <= i < TwoPow(PathLength(|leaves|)) && Accepted(hash, leaves, i, leaf))
      <==> |leaves| == 1 || !IsPowerOfTwo(|leaves|)
  {
    hide HashSize, StandsFor, Accepted;
    var n := |leaves|;
    PowerDepth(n);
    DepthIsLog(n);
    StandInAccepted(hash, leaves, n);
    if n == 1 {
      assert TwoPow(1) == 2;
    }
    if n == 1 || !IsPowerOfTwo(n) {
      assert n < TwoPow(PathLength(n)) && Accepted(hash, leaves, n, leaves[StandsFor(n, n)]);
    }
  }
}
