/** The source as written, where it departs from its evident intent: the level walk
    and `merkle_root` slice with the 1024-byte chunk width instead of the 32-byte
    digest width, the level walk's `pos = num_items` leaves every range after the
    first pass empty, and the codec writes length-prefixed byte regions that its decoder
    reads back raw, sizing the tree buffer by the file size. A Rust panic is `None`.
    The rest of the model uses the corrected members instead. Line numbers refer to
    `pallets/template/src/file_merkle_tree.rs`. */
module AsWritten {
  import opened Bytes
  import opened Digests
  import opened Chunker
  import opened MerkleTree
  import opened Codec

  datatype Option<T> = None | Some(value: T)

  /** Lines 98-111 as written: the inner range is `pos..num_items` in item indices,
      but the slices are taken at byte offset `i` with `CHUNK_SIZE` width, and after
      the first pass `pos = num_items` leaves every later range empty. Over a leaf
      level of `w` digests the first slice is out of range unless `w >= 64`; for
      `w >= 64` only `w / 2` hashes are appended, of byte windows that straddle
      digests, so the buffer never holds the `2w - 1` digests of a tree. */
  method FoldAsWritten(hash: Hasher, leafBytes: seq<u8>, numItems: nat) returns (r: Option<seq<u8>>)
    requires YieldsDigests(hash)
    requires IsPowerOfTwo(numItems) && |leafBytes| == 32 * numItems
    ensures r.None? <==> numItems < 64
    ensures r.Some? ==> |r.value| == 48 * numItems && |r.value| != 32 * (2 * numItems - 1)
  {
    var tree := leafBytes;
    var num := numItems;
    var pos := 0;
    while num > 0
      invariant pos == 0 ==> num == numItems && tree == leafBytes
      invariant pos != 0 ==> numItems >= 64 && pos >= num && |tree| == 48 * numItems
      decreases num
    {
      var pass := HashRangeAsWritten(hash, tree, pos, num);
      if pass.None? {
        return None;
      }
      tree := pass.value;
      pos := num;
      num := num / 2;
    }
    r := Some(tree);
  }

  /** Lines 100-108 as written, one pass of the inner loop over `pos..num_items`
      step 2. The first pass, over a leaf level of `num` digests, panics on its first
      slice unless `num >= 64` and otherwise appends `num / 2` digests; a pass with
      an empty range leaves the buffer as it is. */
  method HashRangeAsWritten(hash: Hasher, tree: seq<u8>, pos: nat, num: nat) returns (r: Option<seq<u8>>)
    requires YieldsDigests(hash)
    requires pos == 0 ==> IsPowerOfTwo(num) && |tree| == 32 * num
    ensures pos >= num ==> r == Some(tree)
    ensures pos == 0 ==> (r.None? <==> num < 64) && (r.Some? ==> |r.value| == 48 * num)
  {
    var acc := tree;
    var i := pos;
    ghost var k := 0;
    ghost var half := num / 2;
    assert pos == 0 && num != 1 ==> num == 2 * half;
    while i < num
      invariant pos >= num ==> acc == tree
      invariant pos == 0 && i > 0 ==> num >= 64 && num == 2 * half
      invariant pos == 0 ==> i == 2 * k && i <= num && |acc| == 32 * num + 32 * k
      decreases num - i
    {
      if i + 2 * ChunkSize > |acc| {
        return None;
      }
      var slice1 := acc[i .. i + ChunkSize];
      var slice2 := acc[i + ChunkSize .. i + 2 * ChunkSize];
      acc := acc + Digest(hash, slice1 + slice2);
      i, k := i + 2, k + 1;
    }
    r := Some(acc);
  }

  /** Line 134 as written: the last `CHUNK_SIZE` bytes of the buffer, and a panic
      (`len - CHUNK_SIZE` underflows) when the buffer is shorter. */
  function MerkleRootAsWritten(t: FileMerkleTree): (r: Option<seq<u8>>)
    ensures r.None? <==> |t.merkleTree| < ChunkSize
    ensures r.Some? ==> |r.value| == ChunkSize && |r.value| != DigestSize
    ensures r.Some? ==> t.merkleTree == t.merkleTree[..|t.merkleTree| - ChunkSize] + r.value
  {
    if |t.merkleTree| < ChunkSize then None
    else Some(t.merkleTree[|t.merkleTree| - ChunkSize ..])
  }

  /** For every file of at most 16 pieces (16 KiB) the tree buffer is shorter than
      `CHUNK_SIZE`, so `merkle_root` as written panics. */
  lemma SmallFileRootPanics(hash: Hasher, fileBytes: seq<u8>)
    requires YieldsDigests(hash)
    requires Built(hash, fileBytes).PieceCount() <= 16
    ensures MerkleRootAsWritten(Built(hash, fileBytes)).None?
  {
    var t := Built(hash, fileBytes);
    NextPowerOfTwoIsLeast(t.PieceCount(), 16);
    BuiltSize(hash, fileBytes);
  }

  /** Lines 21-27 as written: `Vec<u8>::encode` puts a SCALE compact length prefix
      before each byte region; the prefixes are parameters of the model. */
  function EncodeAsWritten(t: FileMerkleTree, fileLength: seq<u8>, treeLength: seq<u8>): (e: seq<u8>)
    ensures |e| == 8 + |fileLength| + |t.fileBytes| + |treeLength| + |t.merkleTree|
    ensures e[..4] == ToLeBytes(AsU32(|t.fileBytes|)) && e[4..8] == ToLeBytes(t.pieces)
  {
    ToLeBytes(AsU32(|t.fileBytes|)) + ToLeBytes(t.pieces)
      + fileLength + t.fileBytes + treeLength + t.merkleTree
  }

  /** Lines 32-43 as written: after the header, `file_size` raw bytes of file and
      then `file_size` raw bytes of tree buffer (line 40), whatever the tree's own
      length; it fails when the input holds fewer than `8 + 2 * file_size` bytes. */
  function DecodeAsWritten(input: seq<u8>): (r: Result<FileMerkleTree>)
    ensures r.Failure? <==> |input| < 8 || |input| - 8 < 2 * FromLeBytes(input[..4])
    ensures r.Success? ==>
      r.value.pieces == FromLeBytes(input[4..8]) &&
      |r.value.fileBytes| == |r.value.merkleTree| == FromLeBytes(input[..4]) &&
      input[8..] == r.value.fileBytes + r.value.merkleTree + input[8 + 2 * |r.value.fileBytes| ..]
  {
    if |input| < 8 then Failure(NotEnoughData)
    else
      var fileSize := FromLeBytes(input[..4]);
      var pieces := FromLeBytes(input[4..8]);
      if |input| - 8 < fileSize then Failure(NotEnoughData)
      else if |input| - 8 - fileSize < fileSize then Failure(NotEnoughData)
      else
        var fileBytes := input[8 .. 8 + fileSize];
        var merkleTree := input[8 + fileSize .. 8 + 2 * fileSize];
        assert input[8..] == fileBytes + merkleTree + input[8 + 2 * fileSize ..];
        Success(FileMerkleTree(fileBytes, merkleTree, pieces))
  }

  /** The header survives as written: whenever decoding the as-written encoding
      succeeds, it recovers the piece count and the file length. It succeeds exactly
      when the prefixes and the tree together are at least as long as the file. */
  lemma HeaderRoundTripAsWritten(t: FileMerkleTree, fileLength: seq<u8>, treeLength: seq<u8>)
    requires |t.fileBytes| < U32Modulus
    ensures var d := DecodeAsWritten(EncodeAsWritten(t, fileLength, treeLength));
      (d.Success? <==> |t.fileBytes| <= |fileLength| + |treeLength| + |t.merkleTree|) &&
      (d.Success? ==> d.value.pieces == t.pieces && |d.value.fileBytes| == |t.fileBytes|)
  {
    FromToLeBytes(AsU32(|t.fileBytes|));
    FromToLeBytes(t.pieces);
  }

  /** As written, decoding fails outright on the encoding of every tree `new` builds
      from a file of more than 40 bytes, once each SCALE compact length prefix takes
      at most 4 bytes (as it does for every length below 2^30): the tree buffer plus
      the prefixes is shorter than the file, while the decoder reads `file_size`
      bytes for each. */
  lemma BuiltDecodeFailsAsWritten(hash: Hasher, fileBytes: seq<u8>, fileLength: seq<u8>, treeLength: seq<u8>)
    requires YieldsDigests(hash) && 40 < |fileBytes| < U32Modulus
    requires |fileLength| <= 4 && |treeLength| <= 4
    ensures DecodeAsWritten(EncodeAsWritten(Built(hash, fileBytes), fileLength, treeLength)).Failure?
  {
    var t := Built(hash, fileBytes);
    var p := t.PieceCount();
    var w := NextPowerOfTwo(p);
    BuiltSize(hash, fileBytes);
    if p == 1 {
      assert w == 1;
    } else {
      assert (p - 1) * ChunkSize < |fileBytes|;
      assert w <= 2 * p - 1;
    }
    assert |t.fileBytes| > |fileLength| + |treeLength| + |t.merkleTree|;
    HeaderRoundTripAsWritten(t, fileLength, treeLength);
  }

  /** The full round trip fails as written: a 1500-byte file has a 96-byte tree,
      which the decoder cannot give back, whatever the length prefixes are. */
  lemma RoundTripFailsAsWritten(hash: Hasher, fileBytes: seq<u8>, fileLength: seq<u8>, treeLength: seq<u8>)
    requires YieldsDigests(hash) && |fileBytes| == 1500
    ensures DecodeAsWritten(EncodeAsWritten(Built(hash, fileBytes), fileLength, treeLength))
         != Success(Built(hash, fileBytes))
  {
    File1500(hash, fileBytes);
  }
}
