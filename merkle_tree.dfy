/** `FileMerkleTree`: a file, the flat buffer of its Merkle tree and its number of
    pieces. The value is never changed once `New` has built it, so it is a datatype
    whose queries are functions. */
module MerkleTree {
  import opened Bytes
  import opened Digests
  import opened Chunker
  import opened LeafHasher
  import opened TreeBuilder

  datatype FileMerkleTree = FileMerkleTree(fileBytes: seq<u8>, merkleTree: seq<u8>, pieces: u32)
  {
    /** `piece_count`: the file length divided by `ChunkSize`, rounded up. */
    function PieceCount(): (count: nat)
      ensures count * ChunkSize >= |fileBytes|
      ensures count > 0 ==> (count - 1) * ChunkSize < |fileBytes|
      ensures count == 0 <==> fileBytes == []
    {
      var len := |fileBytes|;
      if len % ChunkSize == 0 then len / ChunkSize else len / ChunkSize + 1
    }

    /** `file_chunk_at`: piece `position` of the file, which starts at byte
        `position * ChunkSize`; every piece but the last is full, and the last one
        runs to the end of the file. */
    function FileChunkAt(position: nat): (chunk: seq<u8>)
      requires position < PieceCount()
      ensures 0 < |chunk| <= ChunkSize
      ensures position * ChunkSize + |chunk| <= |fileBytes|
      ensures chunk == fileBytes[position * ChunkSize .. position * ChunkSize + |chunk|]
      ensures position < PieceCount() - 1 ==> |chunk| == ChunkSize
      ensures position == PieceCount() - 1 ==> position * ChunkSize + |chunk| == |fileBytes|
    {
      var count := PieceCount();
      var pos := position * ChunkSize;
      var limit := if position == count - 1 then |fileBytes| else pos + ChunkSize;
      fileBytes[pos..limit]
    }

    /** `merkle_root`, as intended: the trailing digest of the tree buffer. */
    function MerkleRoot(): (root: seq<u8>)
      requires |merkleTree| >= DigestSize
      ensures |root| == DigestSize
      ensures merkleTree == merkleTree[..|merkleTree| - DigestSize] + root
    {
      merkleTree[|merkleTree| - DigestSize ..]
    }
  }

  /** Digest `j` of a flat tree buffer. */
  function NodeAt(tree: seq<u8>, j: nat): seq<u8>
    requires 32 * j + 32 <= |tree|
  {
    tree[32 * j .. 32 * j + 32]
  }

  /** `piece_count` and `file_chunk_at` agree with `chunks(ChunkSize)`, which `new`
      uses to cut the file. */
  lemma {:induction false} FileChunksAreChunks(t: FileMerkleTree)
    ensures t.PieceCount() == |Chunks(t.fileBytes)|
    ensures forall p :: 0 <= p < t.PieceCount() ==> t.FileChunkAt(p) == Chunks(t.fileBytes)[p]
  {
    var chunks := Chunks(t.fileBytes);
    ChunksCount(t.fileBytes);
    var count := t.PieceCount();
    forall p | 0 <= p < count
      ensures t.FileChunkAt(p) == chunks[p]
    {
      ChunkAtOffset(t.fileBytes, p);
    }
  }

  /** Concatenating pieces `0 .. PieceCount() - 1` gives back the file. */
  lemma FileChunksConcatenate(t: FileMerkleTree)
    ensures Flatten(seq(t.PieceCount(), p requires 0 <= p < t.PieceCount() => t.FileChunkAt(p)))
         == t.fileBytes
  {
    FileChunksAreChunks(t);
    var pieces := seq(t.PieceCount(), p requires 0 <= p < t.PieceCount() => t.FileChunkAt(p));
    assert pieces == Chunks(t.fileBytes);
    FlattenChunks(t.fileBytes);
  }

  /** Every node of the tree over the file's leaves: the leaf level padded to a
      power of two, then each level above it up to the root. */
  function Nodes(hash: Hasher, fileBytes: seq<u8>): seq<seq<u8>>
  {
    TreeNodes(hash, PaddedLeaves(hash, fileBytes))
  }

  /** What `new` builds for `fileBytes`: the file itself, the nodes of its tree
      back to back, and the number of pieces cast with `as u32`. */
  function Built(hash: Hasher, fileBytes: seq<u8>): FileMerkleTree
  {
    FileMerkleTree(fileBytes, Flatten(Nodes(hash, fileBytes)), AsU32(|Chunks(fileBytes)|))
  }

  /** `new`: hash the chunks into leaves, pad the leaf level to a power of two,
      then fold the levels up to the root. */
  method New(hash: Hasher, fileBytes: seq<u8>) returns (t: FileMerkleTree)
    requires YieldsDigests(hash)
    ensures t == Built(hash, fileBytes)
  {
    var tree, pieces := HashLeaves(hash, fileBytes);
    ghost var own := LeafDigests(hash, fileBytes);
    var numItems;
    tree, numItems := PadToPowerOfTwo(tree, pieces, own);
    ghost var leaves := own + Fillers(numItems - pieces);
    assert leaves == PaddedLeaves(hash, fileBytes);
    tree := FoldLevels(hash, tree, numItems, leaves);
    t := FileMerkleTree(fileBytes, tree, AsU32(pieces));
  }

  /** The file is kept as given, and `pieces` is the piece count cast to `u32`:
      the piece count itself for every file shorter than 2^32 bytes. */
  lemma BuiltKeepsFile(hash: Hasher, fileBytes: seq<u8>)
    ensures Built(hash, fileBytes).fileBytes == fileBytes
    ensures Built(hash, fileBytes).pieces == AsU32(Built(hash, fileBytes).PieceCount())
    ensures |fileBytes| < U32Modulus ==>
      Built(hash, fileBytes).pieces == Built(hash, fileBytes).PieceCount()
  {
    var t := Built(hash, fileBytes);
    FileChunksAreChunks(t);
    ChunksCount(fileBytes);
  }

  /** The tree buffer holds `2w - 1` digests back to back, where the leaf width `w`
      is `next_power_of_two(pieces)`. */
  lemma BuiltLayout(hash: Hasher, fileBytes: seq<u8>)
    requires YieldsDigests(hash)
    ensures |PaddedLeaves(hash, fileBytes)| == NextPowerOfTwo(Built(hash, fileBytes).PieceCount())
    ensures |Nodes(hash, fileBytes)| == 2 * |PaddedLeaves(hash, fileBytes)| - 1
    ensures Nodes(hash, fileBytes)[..|PaddedLeaves(hash, fileBytes)|] == PaddedLeaves(hash, fileBytes)
    ensures LaidOut(Built(hash, fileBytes).merkleTree, Nodes(hash, fileBytes))
  {
    var leaves := PaddedLeaves(hash, fileBytes);
    FileChunksAreChunks(Built(hash, fileBytes));
    PaddedLeavesLayout(hash, fileBytes);
    TreeNodesShape(hash, leaves);
    FlattenLaidOut(Nodes(hash, fileBytes));
  }

  /** The buffer is `(2w - 1) * 32` bytes long for leaf width
      `w = next_power_of_two(pieces)`. */
  lemma BuiltSize(hash: Hasher, fileBytes: seq<u8>)
    requires YieldsDigests(hash)
    ensures var w := NextPowerOfTwo(Built(hash, fileBytes).PieceCount());
      |Built(hash, fileBytes).merkleTree| == 32 * (2 * w - 1)
  {
    BuiltLayout(hash, fileBytes);
  }

  /** Leaf `p` of a real piece is the digest of that piece, zero-padded to
      `ChunkSize` bytes first when it is short. */
  lemma BuiltLeaf(hash: Hasher, fileBytes: seq<u8>, p: nat)
    requires YieldsDigests(hash)
    requires p < Built(hash, fileBytes).PieceCount()
    ensures 32 * p + 32 <= |Built(hash, fileBytes).merkleTree|
    ensures NodeAt(Built(hash, fileBytes).merkleTree, p)
         == LeafDigest(hash, Built(hash, fileBytes).FileChunkAt(p))
  {
    var t := Built(hash, fileBytes);
    var leaves := PaddedLeaves(hash, fileBytes);
    var nodes := Nodes(hash, fileBytes);
    BuiltLayout(hash, fileBytes);
    FileChunksAreChunks(t);
    PaddedLeavesLayout(hash, fileBytes);
    assert nodes[p] == nodes[..|leaves|][p];
  }

  /** Past the real pieces, up to the leaf width, every leaf is `CHUNK_FILLER`. */
  lemma BuiltFiller(hash: Hasher, fileBytes: seq<u8>, p: nat)
    requires YieldsDigests(hash)
    requires Built(hash, fileBytes).PieceCount() <= p < NextPowerOfTwo(Built(hash, fileBytes).PieceCount())
    ensures 32 * p + 32 <= |Built(hash, fileBytes).merkleTree|
    ensures NodeAt(Built(hash, fileBytes).merkleTree, p) == ChunkFiller
  {
    var leaves := PaddedLeaves(hash, fileBytes);
    var nodes := Nodes(hash, fileBytes);
    BuiltLayout(hash, fileBytes);
    FileChunksAreChunks(Built(hash, fileBytes));
    PaddedLeavesLayout(hash, fileBytes);
    assert nodes[p] == nodes[..|leaves|][p];
  }

  /** Above the leaves, digest `w + k` is the hash of digests `2k` and `2k + 1`
      concatenated: each level hashes adjacent pairs of the level below. */
  lemma BuiltParent(hash: Hasher, fileBytes: seq<u8>, k: nat)
    requires YieldsDigests(hash)
    requires k + 1 < NextPowerOfTwo(Built(hash, fileBytes).PieceCount())
    ensures var w := NextPowerOfTwo(Built(hash, fileBytes).PieceCount());
      var tree := Built(hash, fileBytes).merkleTree;
      32 * (w + k) + 32 <= |tree| && 64 * k + 64 <= |tree| &&
      NodeAt(tree, w + k) == Digest(hash, NodeAt(tree, 2 * k) + NodeAt(tree, 2 * k + 1))
  {
    var leaves := PaddedLeaves(hash, fileBytes);
    BuiltLayout(hash, fileBytes);
    TreeNodesParent(hash, leaves, k);
  }

  /** The root law of a tree buffer over `w` leaves: it holds `2w - 1` digests, and
      `merkle_root` is the last of them, which for `w > 1` is the hash of the two
      digests just below it. */
  predicate RootLaw(hash: Hasher, t: FileMerkleTree, w: nat)
  {
    w >= 1 && |t.merkleTree| == 32 * (2 * w - 1) &&
    t.MerkleRoot() == NodeAt(t.merkleTree, 2 * w - 2) &&
    (w > 1 ==> t.MerkleRoot()
               == Digest(hash, NodeAt(t.merkleTree, 2 * w - 4) + NodeAt(t.merkleTree, 2 * w - 3)))
  }

  /** `merkle_root` is the last digest of the buffer: the lone leaf for a file of
      at most one piece, otherwise the hash of the two digests just below it. */
  lemma BuiltRoot(hash: Hasher, fileBytes: seq<u8>)
    requires YieldsDigests(hash)
    ensures RootLaw(hash, Built(hash, fileBytes), NextPowerOfTwo(Built(hash, fileBytes).PieceCount()))
  {
    var w := NextPowerOfTwo(Built(hash, fileBytes).PieceCount());
    BuiltLayout(hash, fileBytes);
    LastNodeLaw(hash, fileBytes, w);
    RootOfLayout(hash, Built(hash, fileBytes), Nodes(hash, fileBytes), w);
  }

  /** Above a single leaf, the last node is the hash of the two before it. */
  lemma LastNodeLaw(hash: Hasher, fileBytes: seq<u8>, w: nat)
    requires w == |PaddedLeaves(hash, fileBytes)|
    ensures |Nodes(hash, fileBytes)| == 2 * w - 1
    ensures w > 1 ==> Nodes(hash, fileBytes)[2 * w - 2]
                      == Digest(hash, Nodes(hash, fileBytes)[2 * w - 4] + Nodes(hash, fileBytes)[2 * w - 3])
  {
    TreeNodesRoot(hash, PaddedLeaves(hash, fileBytes));
  }

  /** In a buffer laying out `2w - 1` nodes, the trailing digest is the last node;
      when that node is the hash of the two before it, so is the trailing digest. */
  lemma RootOfLayout(hash: Hasher, t: FileMerkleTree, nodes: seq<seq<u8>>, w: nat)
    requires w >= 1 && |nodes| == 2 * w - 1 && LaidOut(t.merkleTree, nodes)
    requires w > 1 ==> nodes[2 * w - 2] == Digest(hash, nodes[2 * w - 4] + nodes[2 * w - 3])
    ensures RootLaw(hash, t, w)
  {
    var tree := t.merkleTree;
    assert NodeAt(tree, 2 * w - 2) == nodes[2 * w - 2];
    if w > 1 {
      assert NodeAt(tree, 2 * w - 4) == nodes[2 * w - 4];
      assert NodeAt(tree, 2 * w - 3) == nodes[2 * w - 3];
    }
  }

  /** The buffer is determined by its laws: a tree buffer of `2w - 1` digests whose
      leaves are the file's leaves and whose nodes above obey the pair law is the
      one `new` builds. */
  lemma BuiltUnique(hash: Hasher, fileBytes: seq<u8>, nodes: seq<seq<u8>>)
    requires YieldsDigests(hash)
    requires |nodes| == 2 * |PaddedLeaves(hash, fileBytes)| - 1
    requires nodes[..|PaddedLeaves(hash, fileBytes)|] == PaddedLeaves(hash, fileBytes)
    requires forall k :: 0 <= k < |PaddedLeaves(hash, fileBytes)| - 1 ==>
      ParentAt(hash, nodes, |PaddedLeaves(hash, fileBytes)|, k)
    ensures Flatten(nodes) == Built(hash, fileBytes).merkleTree
  {
    TreeNodesUnique(hash, PaddedLeaves(hash, fileBytes), nodes);
  }

  /** An empty file has no pieces and one filler leaf, which is also the root. */
  lemma EmptyFile(hash: Hasher)
    ensures Built(hash, []).PieceCount() == 0 && Built(hash, []).pieces == 0
    ensures Built(hash, []).merkleTree == ChunkFiller
    ensures Built(hash, []).MerkleRoot() == Zeros(DigestSize)
  {
    assert Chunks([]) == [];
    var leaves := PaddedLeaves(hash, []);
    assert leaves == [ChunkFiller];
    assert Nodes(hash, []) == [ChunkFiller];
    FlattenCons(ChunkFiller, []);
  }

  /** A 1500-byte file: two pieces, leaf width 2, three digests (96 bytes), and the
      root is the hash of the two leaves. */
  lemma File1500(hash: Hasher, fileBytes: seq<u8>)
    requires YieldsDigests(hash) && |fileBytes| == 1500
    ensures Built(hash, fileBytes).PieceCount() == 2 && Built(hash, fileBytes).pieces == 2
    ensures |Built(hash, fileBytes).merkleTree| == 96
    ensures Built(hash, fileBytes).MerkleRoot()
         == Digest(hash, Digest(hash, fileBytes[..1024]) + Digest(hash, fileBytes[1024..] + Zeros(548)))
  {
    var t := Built(hash, fileBytes);
    assert t.PieceCount() == 2;
    assert NextPowerOfTwo(2) == 2 by {
      assert PowerAtLeast(2, 2) == 2;
    }
    BuiltKeepsFile(hash, fileBytes);
    BuiltRoot(hash, fileBytes);
    BuiltLeaf(hash, fileBytes, 0);
    BuiltLeaf(hash, fileBytes, 1);
    assert t.FileChunkAt(0) == fileBytes[..1024];
    assert t.FileChunkAt(1) == fileBytes[1024..];
  }

  /** A 3000-byte file: three pieces padded to leaf width 4 with one filler, and
      seven digests (224 bytes). */
  lemma File3000(hash: Hasher, fileBytes: seq<u8>)
    requires YieldsDigests(hash) && |fileBytes| == 3000
    ensures Built(hash, fileBytes).PieceCount() == 3 && Built(hash, fileBytes).pieces == 3
    ensures NextPowerOfTwo(3) == 4
    ensures |Built(hash, fileBytes).merkleTree| == 224
    ensures NodeAt(Built(hash, fileBytes).merkleTree, 3) == ChunkFiller
  {
    var t := Built(hash, fileBytes);
    assert t.PieceCount() == 3;
    assert NextPowerOfTwo(3) == 4 by {
      assert PowerAtLeast(3, 4) == 4;
    }
    BuiltKeepsFile(hash, fileBytes);
    BuiltSize(hash, fileBytes);
    BuiltFiller(hash, fileBytes, 3);
  }

  /** A 500-byte file: one piece, so the root is the lone leaf, the hash of the file
      followed by 524 zero bytes. */
  lemma File500(hash: Hasher, fileBytes: seq<u8>)
    requires YieldsDigests(hash) && |fileBytes| == 500
    ensures Built(hash, fileBytes).PieceCount() == 1
    ensures |Built(hash, fileBytes).merkleTree| == 32
    ensures Built(hash, fileBytes).MerkleRoot() == Digest(hash, fileBytes + Zeros(524))
  {
    var t := Built(hash, fileBytes);
    assert t.PieceCount() == 1;
    assert NextPowerOfTwo(1) == 1;
    BuiltRoot(hash, fileBytes);
    BuiltLeaf(hash, fileBytes, 0);
  }
}
