/** Tree folding: the leaf level is folded bottom-up into one flat buffer holding
    every level, leaves first and root last. `TreeNodes` is the list of digests
    that buffer holds; `FoldLevels` is the level walk that builds the buffer. Line
    numbers refer to `pallets/template/src/file_merkle_tree.rs`. */
module TreeBuilder {
  import opened Bytes
  import opened Digests

  /** The level above `level`: the hash of each adjacent pair, left digest first.
      Levels always have even length here; an odd trailing item would be left out. */
  function PairHashes(hash: Hasher, level: seq<seq<u8>>): (parents: seq<seq<u8>>)
    ensures |parents| == |level| / 2
    ensures YieldsDigests(hash) ==> AllDigests(parents)
    decreases |level|
  {
    if |level| < 2 then []
    else
      var n := |level|;
      PairHashes(hash, level[..n - 2]) + [Digest(hash, level[n - 2] + level[n - 1])]
  }

  /** Parent `k` is the hash of the concatenation of items `2k` and `2k + 1`. */
  lemma {:induction false} PairHashesAt(hash: Hasher, level: seq<seq<u8>>, k: nat)
    requires |level| % 2 == 0 && k < |level| / 2
    ensures PairHashes(hash, level)[k] == Digest(hash, level[2 * k] + level[2 * k + 1])
    decreases |level|
  {
    var n := |level|;
    if k < n / 2 - 1 {
      PairHashesAt(hash, level[..n - 2], k);
    }
  }

  /** Every level from `level` up to the root, concatenated in that order. */
  function TreeNodes(hash: Hasher, level: seq<seq<u8>>): seq<seq<u8>>
    requires IsPowerOfTwo(|level|)
    decreases |level|
  {
    if |level| == 1 then level else level + TreeNodes(hash, PairHashes(hash, level))
  }

  lemma TreeNodesStep(hash: Hasher, level: seq<seq<u8>>)
    requires IsPowerOfTwo(|level|) && |level| > 1
    ensures IsPowerOfTwo(|level| / 2)
    ensures TreeNodes(hash, level) == level + TreeNodes(hash, PairHashes(hash, level))
  {
  }

  /** The walk's next level starts at item `w`, right after the `w` leaves, and is
      `w / 2` items wide: the nodes from item `w` on are the tree over the level
      above the leaves. */
  lemma TreeNodesUpper(hash: Hasher, leaves: seq<seq<u8>>)
    requires IsPowerOfTwo(|leaves|) && |leaves| > 1
    ensures IsPowerOfTwo(|leaves| / 2) && |PairHashes(hash, leaves)| == |leaves| / 2
    ensures TreeNodes(hash, leaves)[|leaves|..] == TreeNodes(hash, PairHashes(hash, leaves))
    ensures TreeNodes(hash, leaves)[..|leaves|] == leaves
  {
    var nodes := TreeNodes(hash, leaves);
    TreeNodesStep(hash, leaves);
    assert nodes[|leaves|..] == TreeNodes(hash, PairHashes(hash, leaves));
    assert nodes[..|leaves|] == leaves;
  }

  /** A tree over `w` leaves has `2w - 1` nodes, all digests when the leaves are,
      and begins with the leaves. */
  lemma {:induction false} TreeNodesShape(hash: Hasher, leaves: seq<seq<u8>>)
    requires IsPowerOfTwo(|leaves|)
    ensures |TreeNodes(hash, leaves)| == 2 * |leaves| - 1
    ensures TreeNodes(hash, leaves)[..|leaves|] == leaves
    ensures YieldsDigests(hash) && AllDigests(leaves) ==> AllDigests(TreeNodes(hash, leaves))
    decreases |leaves|
  {
    if |leaves| > 1 {
      TreeNodesShape(hash, PairHashes(hash, leaves));
    }
  }

  /** The parent law for pair `k` of a flat layout over `w` leaves: node `w + k`
      is the hash of nodes `2k` and `2k + 1`. */
  predicate ParentAt(hash: Hasher, nodes: seq<seq<u8>>, w: nat, k: nat)
  {
    w + k < |nodes| && 2 * k + 1 < |nodes| &&
    nodes[w + k] == Digest(hash, nodes[2 * k] + nodes[2 * k + 1])
  }

  /** Every node above the leaves obeys the parent law. */
  lemma {:induction false} TreeNodesParent(hash: Hasher, leaves: seq<seq<u8>>, k: nat)
    requires IsPowerOfTwo(|leaves|)
    requires k < |leaves| - 1
    ensures |TreeNodes(hash, leaves)| == 2 * |leaves| - 1
    ensures ParentAt(hash, TreeNodes(hash, leaves), |leaves|, k)
    decreases |leaves|
  {
    var parents := PairHashes(hash, leaves);
    var upper := TreeNodes(hash, parents);
    TreeNodesStep(hash, leaves);
    TreeNodesShape(hash, parents);
    if k < |parents| {
      PairHashesAt(hash, leaves, k);
      ParentFromLevelAbove(hash, leaves, parents, upper, k);
    } else {
      TreeNodesParent(hash, parents, k - |parents|);
      ParentFromUpperTree(hash, leaves, upper, |parents|, k);
    }
  }

  /** A parent of the leaves themselves: the upper part begins with the level
      above the leaves, whose item `k` is the hash of pair `k` of the leaves. */
  lemma ParentFromLevelAbove(hash: Hasher, leaves: seq<seq<u8>>, parents: seq<seq<u8>>,
                             upper: seq<seq<u8>>, k: nat)
    requires k < |parents| && |parents| <= |upper| && upper[..|parents|] == parents
    requires 2 * k + 1 < |leaves|
    requires parents[k] == Digest(hash, leaves[2 * k] + leaves[2 * k + 1])
    ensures ParentAt(hash, leaves + upper, |leaves|, k)
  {
    var nodes := leaves + upper;
    assert upper[k] == upper[..|parents|][k];
    assert nodes[|leaves| + k] == upper[k];
    assert nodes[2 * k] == leaves[2 * k] && nodes[2 * k + 1] == leaves[2 * k + 1];
  }

  /** A parent higher up: the parent law of the upper part, which sits after
      `2h` leaves, carries over to the whole layout. */
  lemma ParentFromUpperTree(hash: Hasher, leaves: seq<seq<u8>>, upper: seq<seq<u8>>, h: nat, k: nat)
    requires |leaves| == 2 * h && h <= k
    requires ParentAt(hash, upper, h, k - h)
    ensures ParentAt(hash, leaves + upper, |leaves|, k)
  {
    var nodes := leaves + upper;
    var k' := k - h;
    assert nodes[2 * h + k] == upper[h + k'];
    assert nodes[2 * k] == upper[2 * k'] && nodes[2 * k + 1] == upper[2 * k' + 1];
  }

  /** The last node is the root: the lone leaf when there is one leaf, otherwise
      the hash of the two nodes just below it. */
  lemma TreeNodesRoot(hash: Hasher, leaves: seq<seq<u8>>)
    requires IsPowerOfTwo(|leaves|)
    ensures |TreeNodes(hash, leaves)| == 2 * |leaves| - 1
    ensures |leaves| == 1 ==> TreeNodes(hash, leaves) == leaves
    ensures |leaves| > 1 ==>
      var nodes := TreeNodes(hash, leaves);
      nodes[|nodes| - 1] == Digest(hash, nodes[|nodes| - 3] + nodes[|nodes| - 2])
  {
    TreeNodesShape(hash, leaves);
    if |leaves| > 1 {
      TreeNodesParent(hash, leaves, |leaves| - 2);
      LastParent(hash, TreeNodes(hash, leaves), |leaves|);
    }
  }

  /** In a layout of `2w - 1` nodes, the parent law for the last pair speaks of the
      last three nodes. */
  lemma LastParent(hash: Hasher, nodes: seq<seq<u8>>, w: nat)
    requires w > 1 && |nodes| == 2 * w - 1 && ParentAt(hash, nodes, w, w - 2)
    ensures nodes[|nodes| - 1] == Digest(hash, nodes[|nodes| - 3] + nodes[|nodes| - 2])
  {
  }

  /** The layout is determined by its laws: a list of `2w - 1` nodes that begins
      with the leaves and obeys the parent law is exactly `TreeNodes`. */
  lemma TreeNodesUnique(hash: Hasher, leaves: seq<seq<u8>>, nodes: seq<seq<u8>>)
    requires IsPowerOfTwo(|leaves|)
    requires |nodes| == 2 * |leaves| - 1 && nodes[..|leaves|] == leaves
    requires forall k :: 0 <= k < |leaves| - 1 ==> ParentAt(hash, nodes, |leaves|, k)
    ensures nodes == TreeNodes(hash, leaves)
  {
    var w := |leaves|;
    var tree := TreeNodes(hash, leaves);
    TreeNodesShape(hash, leaves);
    forall k | 0 <= k < w - 1
      ensures ParentAt(hash, tree, w, k)
    {
      TreeNodesParent(hash, leaves, k);
    }
    forall j | 0 <= j < |nodes|
      ensures nodes[j] == tree[j]
    {
      LawsAgree(hash, nodes, tree, w, j);
    }
  }

  /** Two layouts over the same `w` leaves that both obey the parent law agree
      on every node. */
  lemma {:induction false} LawsAgree(hash: Hasher, a: seq<seq<u8>>, b: seq<seq<u8>>, w: nat, j: nat)
    requires w >= 1 && |a| == 2 * w - 1 && |b| == 2 * w - 1 && a[..w] == b[..w]
    requires forall k :: 0 <= k < w - 1 ==> ParentAt(hash, a, w, k)
    requires forall k :: 0 <= k < w - 1 ==> ParentAt(hash, b, w, k)
    requires j < |a|
    ensures a[j] == b[j]
    decreases j
  {
    if j < w {
      assert a[j] == a[..w][j] && b[j] == b[..w][j];
    } else {
      var k := j - w;
      LawsAgree(hash, a, b, w, 2 * k);
      LawsAgree(hash, a, b, w, 2 * k + 1);
      assert ParentAt(hash, a, w, k) && ParentAt(hash, b, w, k);
    }
  }

  /** `flat` holds the digests of `level` back to back: digest `j` at byte offset
      `32 * j`. */
  ghost predicate LaidOut(flat: seq<u8>, level: seq<seq<u8>>)
  {
    |flat| == 32 * |level| &&
    forall j :: 0 <= j < |level| ==> flat[32 * j .. 32 * j + 32] == level[j]
  }

  /** The concatenation of a level of digests lays them out. */
  lemma FlattenLaidOut(level: seq<seq<u8>>)
    requires AllDigests(level)
    ensures LaidOut(Flatten(level), level)
  {
    FlattenDigestsLength(level);
    forall j | 0 <= j < |level|
      ensures Flatten(level)[32 * j .. 32 * j + 32] == level[j]
    {
      FlattenDigestAt(level, j);
    }
  }

  /** In a buffer holding `below`, then the digests of `level`, then anything,
      the pair `(level[2k], level[2k + 1])` sits right after `below` at byte
      offsets `64k` and `64k + 32`. */
  lemma ReadPair(tree: seq<u8>, below: seq<u8>, flat: seq<u8>, level: seq<seq<u8>>, k: nat,
                 above: seq<u8>, at: nat)
    requires LaidOut(flat, level) && 2 * k + 1 < |level|
    requires tree == below + flat + above && at == |below| + 64 * k
    ensures at + 64 <= |tree|
    ensures tree[at .. at + 32] == level[2 * k]
    ensures tree[at + 32 .. at + 64] == level[2 * k + 1]
  {
    assert flat[32 * (2 * k) .. 32 * (2 * k) + 32] == level[2 * k];
    assert flat[32 * (2 * k + 1) .. 32 * (2 * k + 1) + 32] == level[2 * k + 1];
    SliceMiddle(below, flat, above, 64 * k, 64 * k + 32);
    SliceMiddle(below, flat, above, 64 * k + 32, 64 * k + 64);
  }

  lemma SliceMiddle(a: seq<u8>, b: seq<u8>, c: seq<u8>, x: nat, y: nat)
    requires x <= y <= |b|
    ensures (a + b + c)[|a| + x .. |a| + y] == b[x..y]
  {
    var t := a + b + c;
    assert forall i :: 0 <= i < y - x ==> t[|a| + x .. |a| + y][i] == b[x..y][i];
  }

  /** Hashing one more pair extends the parents of a prefix of the level by one. */
  lemma AppendParent(hash: Hasher, level: seq<seq<u8>>, k: nat)
    requires 2 * k + 2 <= |level|
    ensures Flatten(PairHashes(hash, level[..2 * k + 2]))
         == Flatten(PairHashes(hash, level[..2 * k])) + Digest(hash, level[2 * k] + level[2 * k + 1])
  {
    PairHashesSnoc(hash, level, k);
    FlattenSnoc(PairHashes(hash, level[..2 * k]), Digest(hash, level[2 * k] + level[2 * k + 1]));
  }

  lemma PairHashesSnoc(hash: Hasher, level: seq<seq<u8>>, k: nat)
    requires 2 * k + 2 <= |level|
    ensures PairHashes(hash, level[..2 * k + 2])
         == PairHashes(hash, level[..2 * k]) + [Digest(hash, level[2 * k] + level[2 * k + 1])]
  {
    var prefix := level[..2 * k + 2];
    assert prefix[..2 * k] == level[..2 * k];
    assert prefix[2 * k] == level[2 * k] && prefix[2 * k + 1] == level[2 * k + 1];
  }

  /** Lines 100-108, as intended: for every adjacent pair of the current level,
      which starts at item `levelStart` and is `width` digests wide, append the
      hash of the pair's concatenation to `tree`. */
  method HashLevel(hash: Hasher, tree: seq<u8>, levelStart: nat, width: nat,
                   ghost below: seq<u8>, ghost level: seq<seq<u8>>)
    returns (grown: seq<u8>)
    requires width % 2 == 0 && |level| == width && AllDigests(level)
    requires tree == below + Flatten(level) && |below| == 32 * levelStart
    ensures grown == tree + Flatten(PairHashes(hash, level))
  {
    FlattenLaidOut(level);
    grown := HashPairs(hash, tree, levelStart, width, below, Flatten(level), level);
  }

  /** The loop of `HashLevel`, over a buffer that lays out the level after `below`. */
  method HashPairs(hash: Hasher, tree: seq<u8>, levelStart: nat, width: nat,
                   ghost below: seq<u8>, ghost flat: seq<u8>, ghost level: seq<seq<u8>>)
    returns (grown: seq<u8>)
    requires width % 2 == 0 && |level| == width && LaidOut(flat, level)
    requires tree == below + flat && |below| == 32 * levelStart
    ensures grown == tree + Flatten(PairHashes(hash, level))
  {
    grown := tree;
    var i := levelStart;
    ghost var k := 0;
    ghost var half := width / 2;
    assert width == 2 * half;
    assert grown == below + flat + Flatten(PairHashes(hash, level[..0]));
    while i < levelStart + width
      invariant k <= half && i == levelStart + 2 * k
      invariant grown == below + flat + Flatten(PairHashes(hash, level[..2 * k]))
      decreases levelStart + width - i
    {
      grown := HashPair(hash, grown, 32 * i, below, flat, level, k);
      i, k := i + 2, k + 1;
    }
    assert level[..2 * k] == level;
  }

  /** One step of the inner loop: read the pair at byte offset `at` (items `2k`
      and `2k + 1` of the level) and append the hash of its concatenation. */
  method HashPair(hash: Hasher, tree: seq<u8>, at: nat, ghost below: seq<u8>, ghost flat: seq<u8>,
                  ghost level: seq<seq<u8>>, ghost k: nat)
    returns (grown: seq<u8>)
    requires LaidOut(flat, level) && 2 * k + 2 <= |level|
    requires tree == below + flat + Flatten(PairHashes(hash, level[..2 * k]))
    requires at == |below| + 64 * k
    ensures grown == below + flat + Flatten(PairHashes(hash, level[..2 * k + 2]))
  {
    PairInBuffer(hash, tree, below, flat, level, k, at);
    var left := tree[at .. at + 32];
    var right := tree[at + 32 .. at + 64];
    grown := tree + Digest(hash, left + right);
  }

  /** Where the pair sits in the buffer, and what appending its hash makes of it. */
  lemma PairInBuffer(hash: Hasher, tree: seq<u8>, below: seq<u8>, flat: seq<u8>,
                     level: seq<seq<u8>>, k: nat, at: nat)
    requires LaidOut(flat, level) && 2 * k + 2 <= |level|
    requires tree == below + flat + Flatten(PairHashes(hash, level[..2 * k]))
    requires at == |below| + 64 * k
    ensures at + 64 <= |tree|
    ensures tree[at .. at + 32] == level[2 * k]
    ensures tree[at + 32 .. at + 64] == level[2 * k + 1]
    ensures tree + Digest(hash, level[2 * k] + level[2 * k + 1])
         == below + flat + Flatten(PairHashes(hash, level[..2 * k + 2]))
  {
    var sofar := Flatten(PairHashes(hash, level[..2 * k]));
    var digest := Digest(hash, level[2 * k] + level[2 * k + 1]);
    ReadPair(tree, below, flat, level, k, sofar, at);
    AppendParent(hash, level, k);
    BytesAssoc(below + flat, sofar, digest);
  }

  /** Regrouping a concatenation of byte strings, stated on plain variables so
      that the callers' proofs stay small. */
  lemma BytesAssoc(a: seq<u8>, b: seq<u8>, c: seq<u8>)
    ensures (a + b) + c == a + (b + c)
  {
  }

  /** Stepping past a level of digests moves the byte offset by its size. */
  lemma FlattenPast(done: seq<seq<u8>>, level: seq<seq<u8>>, levelStart: nat)
    requires AllDigests(level) && |Flatten(done)| == 32 * levelStart
    ensures Flatten(done + level) == Flatten(done) + Flatten(level)
    ensures |Flatten(done + level)| == 32 * (levelStart + |level|)
  {
    FlattenConcat(done, level);
    FlattenDigestsLength(level);
  }

  /** Stepping past a level keeps the nodes still to be built in step with the tree. */
  lemma NodesPast(hash: Hasher, target: seq<seq<u8>>, done: seq<seq<u8>>, level: seq<seq<u8>>)
    requires IsPowerOfTwo(|level|) && |level| > 1
    requires done + TreeNodes(hash, level) == target
    ensures IsPowerOfTwo(|level| / 2)
    ensures (done + level) + TreeNodes(hash, PairHashes(hash, level)) == target
  {
    TreeNodesStep(hash, level);
    ConcatAssoc(done, level, TreeNodes(hash, PairHashes(hash, level)));
  }

  /** Regrouping a concatenation of levels, stated on plain variables so that the
      callers' proofs stay small. */
  lemma ConcatAssoc(a: seq<seq<u8>>, b: seq<seq<u8>>, c: seq<seq<u8>>)
    ensures (a + b) + c == a + (b + c)
  {
  }

  /** The state of the level walk: `done` holds the levels already stepped past,
      which fill the first `levelStart` digests of `tree`; `level` is the current
      level, which fills the rest; together with the levels still to be built
      they are the nodes of the whole tree, `target`. */
  ghost predicate Walk(hash: Hasher, target: seq<seq<u8>>, tree: seq<u8>, levelStart: nat,
                       done: seq<seq<u8>>, level: seq<seq<u8>>)
  {
    IsPowerOfTwo(|level|) && AllDigests(level) &&
    |Flatten(done)| == 32 * levelStart &&
    done + TreeNodes(hash, level) == target &&
    tree == Flatten(done) + Flatten(level)
  }

  /** One pass of the level walk: hash the current level into the next and step
      past it. */
  method Climb(hash: Hasher, tree: seq<u8>, levelStart: nat, width: nat, ghost target: seq<seq<u8>>,
               ghost done: seq<seq<u8>>, ghost level: seq<seq<u8>>)
    returns (grown: seq<u8>, ghost done': seq<seq<u8>>, ghost level': seq<seq<u8>>)
    requires YieldsDigests(hash) && width > 1 && |level| == width
    requires Walk(hash, target, tree, levelStart, done, level)
    ensures |level'| == width / 2
    ensures Walk(hash, target, grown, levelStart + width, done', level')
  {
    assert width % 2 == 0;
    grown := HashLevel(hash, tree, levelStart, width, Flatten(done), level);
    FlattenPast(done, level, levelStart);
    NodesPast(hash, target, done, level);
    done', level' := done + level, PairHashes(hash, level);
  }

  /** Lines 98-111, as intended: walk the levels with `(levelStart, width)` item
      indices, hashing each level into the next, then step past the level and
      halve the width, until the width is 1. */
  method FoldLevels(hash: Hasher, leafBytes: seq<u8>, numItems: nat, ghost leaves: seq<seq<u8>>)
    returns (tree: seq<u8>)
    requires YieldsDigests(hash)
    requires IsPowerOfTwo(numItems) && |leaves| == numItems && AllDigests(leaves)
    requires leafBytes == Flatten(leaves)
    ensures tree == Flatten(TreeNodes(hash, leaves))
  {
    tree := leafBytes;
    var levelStart, width := 0, numItems;
    ghost var done: seq<seq<u8>> := [];
    ghost var level := leaves;
    ghost var target := TreeNodes(hash, leaves);
    WalkStarts(hash, leaves, tree);
    while width > 1
      invariant |level| == width && Walk(hash, target, tree, levelStart, done, level)
      decreases width
    {
      tree, done, level := Climb(hash, tree, levelStart, width, target, done, level);
      levelStart := levelStart + width;
      width := width / 2;
    }
    FoldDone(hash, target, tree, levelStart, done, level);
  }

  /** The walk starts with nothing stepped past and the leaves as the current level. */
  lemma WalkStarts(hash: Hasher, leaves: seq<seq<u8>>, tree: seq<u8>)
    requires IsPowerOfTwo(|leaves|) && AllDigests(leaves) && tree == Flatten(leaves)
    ensures Walk(hash, TreeNodes(hash, leaves), tree, 0, [], leaves)
  {
    assert [] + TreeNodes(hash, leaves) == TreeNodes(hash, leaves);
    assert Flatten([]) == [];
  }

  /** When the walk reaches the root level, the buffer holds every node. */
  lemma FoldDone(hash: Hasher, target: seq<seq<u8>>, tree: seq<u8>, levelStart: nat,
                 done: seq<seq<u8>>, level: seq<seq<u8>>)
    requires |level| == 1 && Walk(hash, target, tree, levelStart, done, level)
    ensures tree == Flatten(target)
  {
    assert TreeNodes(hash, level) == level;
    FlattenConcat(done, level);
  }
}
