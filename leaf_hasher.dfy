/** Leaf hashing: one digest per chunk (a short last chunk is hashed after being
    copied into a zeroed 1 KiB buffer), then `CHUNK_FILLER` digests up to the next
    power of two. Line numbers refer to `pallets/template/src/file_merkle_tree.rs`. */
module LeafHasher {
  import opened Bytes
  import opened Digests
  import opened Chunker

  /** `CHUNK_FILLER`: the all-zero digest standing in for a missing leaf. */
  const ChunkFiller: seq<u8> := Zeros(DigestSize)

  /** The digest of one chunk: a chunk shorter than `ChunkSize` is hashed as a
      `ChunkSize`-byte buffer holding the chunk followed by zeros. */
  function LeafDigest(hash: Hasher, chunk: seq<u8>): (d: seq<u8>)
    requires |chunk| <= ChunkSize
    ensures YieldsDigests(hash) ==> |d| == DigestSize
  {
    if |chunk| != ChunkSize then Digest(hash, chunk + Zeros(ChunkSize - |chunk|)) else Digest(hash, chunk)
  }

  /** Copy a short chunk into a zero-initialised `ChunkSize`-byte buffer. */
  method ZeroPad(chunk: seq<u8>) returns (buffer: seq<u8>)
    requires |chunk| <= ChunkSize
    ensures |buffer| == ChunkSize
    ensures buffer[..|chunk|] == chunk
    ensures forall i :: |chunk| <= i < ChunkSize ==> buffer[i] == 0
  {
    var result := new u8[ChunkSize](_ => 0);
    for index := 0 to |chunk|
      invariant forall i :: 0 <= i < index ==> result[i] == chunk[i]
      invariant forall i :: index <= i < ChunkSize ==> result[i] == 0
    {
      result[index] := chunk[index];
    }
    buffer := result[..];
  }

  /** The digest of a chunk is the hash of the one zero-padded buffer that has the
      chunk as prefix; a full chunk is its own buffer. */
  lemma LeafIsHashOfPaddedBuffer(hash: Hasher, chunk: seq<u8>, buffer: seq<u8>)
    requires |chunk| <= ChunkSize && |buffer| == ChunkSize
    requires buffer[..|chunk|] == chunk
    requires forall i :: |chunk| <= i < ChunkSize ==> buffer[i] == 0
    ensures LeafDigest(hash, chunk) == Digest(hash, buffer)
  {
    if |chunk| != ChunkSize {
      assert buffer == chunk + Zeros(ChunkSize - |chunk|);
    } else {
      assert buffer == buffer[..|chunk|];
    }
  }

  /** The real leaves: one digest per chunk, in chunk order. */
  function LeafDigests(hash: Hasher, bytes: seq<u8>): (leaves: seq<seq<u8>>)
    ensures |leaves| == |Chunks(bytes)|
    ensures YieldsDigests(hash) ==> AllDigests(leaves)
  {
    var chunks := Chunks(bytes);
    seq(|chunks|, p requires 0 <= p < |chunks| => LeafDigest(hash, chunks[p]))
  }

  /** `n` filler digests. */
  function Fillers(n: nat): (fs: seq<seq<u8>>)
    ensures |fs| == n && AllDigests(fs)
  {
    seq(n, _ => ChunkFiller)
  }

  /** The leaf level: the real leaves, then fillers up to the next power of two. */
  function PaddedLeaves(hash: Hasher, bytes: seq<u8>): (leaves: seq<seq<u8>>)
    ensures IsPowerOfTwo(|leaves|)
    ensures YieldsDigests(hash) ==> AllDigests(leaves)
  {
    var own := LeafDigests(hash, bytes);
    own + Fillers(NextPowerOfTwo(|own|) - |own|)
  }

  /** The leaf level has `next_power_of_two(pieces)` digests: the leaves of the
      chunks in order, then all-zero fillers. */
  lemma PaddedLeavesLayout(hash: Hasher, bytes: seq<u8>)
    ensures |PaddedLeaves(hash, bytes)| == NextPowerOfTwo(|Chunks(bytes)|)
    ensures forall p :: 0 <= p < |Chunks(bytes)| ==>
      PaddedLeaves(hash, bytes)[p] == LeafDigest(hash, Chunks(bytes)[p])
    ensures forall p :: |Chunks(bytes)| <= p < |PaddedLeaves(hash, bytes)| ==>
      PaddedLeaves(hash, bytes)[p] == ChunkFiller
    ensures |ChunkFiller| == DigestSize && forall i :: 0 <= i < DigestSize ==> ChunkFiller[i] == 0
  {
  }

  /** Lines 75-92: hash every chunk and append the digests to the growing `tree`. */
  method HashLeaves(hash: Hasher, bytes: seq<u8>) returns (tree: seq<u8>, pieces: nat)
    ensures pieces == |Chunks(bytes)|
    ensures tree == Flatten(LeafDigests(hash, bytes))
  {
    var chunks := Chunks(bytes);
    ghost var leaves := LeafDigests(hash, bytes);
    pieces := |chunks|;
    tree := [];
    for p := 0 to pieces
      invariant tree == Flatten(leaves[..p])
    {
      var chunk := chunks[p];
      var digest;
      if |chunk| != ChunkSize {
        var buffer := ZeroPad(chunk);
        LeafIsHashOfPaddedBuffer(hash, chunk, buffer);
        digest := Digest(hash, buffer);
      } else {
        digest := Digest(hash, chunk);
      }
      assert digest == leaves[p];
      FlattenPrefixStep(leaves, p);
      tree := tree + digest;
    }
    assert leaves[..pieces] == leaves;
  }

  /** Lines 93-97: append fillers until the leaf count is `next_power_of_two(pieces)`. */
  method PadToPowerOfTwo(leafBytes: seq<u8>, pieces: nat, ghost leaves: seq<seq<u8>>)
    returns (tree: seq<u8>, numItems: nat)
    requires leafBytes == Flatten(leaves) && |leaves| == pieces
    ensures numItems == NextPowerOfTwo(pieces)
    ensures tree == Flatten(leaves + Fillers(numItems - pieces))
  {
    numItems := NextPowerOfTwo(pieces);
    tree := leafBytes;
    assert leaves + Fillers(0) == leaves;
    for k := 0 to numItems - pieces
      invariant tree == Flatten(leaves + Fillers(k))
    {
      assert leaves + Fillers(k + 1) == (leaves + Fillers(k)) + [ChunkFiller];
      FlattenSnoc(leaves + Fillers(k), ChunkFiller);
      tree := tree + ChunkFiller;
    }
  }
}
