/** The chunking step: Rust's `slice::chunks(CHUNK_SIZE)` over the file bytes. */
module Chunker {
  import opened Bytes

  /** `CHUNK_SIZE`: 1 KiB pieces. */
  const ChunkSize: nat := 1024

  /** `bytes.chunks(ChunkSize)`: consecutive pieces of `ChunkSize` bytes, the last
      one possibly shorter but never empty; no piece at all for an empty slice. */
  function Chunks(bytes: seq<u8>): (chunks: seq<seq<u8>>)
    ensures forall i :: 0 <= i < |chunks| ==> 0 < |chunks[i]| <= ChunkSize
    ensures forall i :: 0 <= i < |chunks| - 1 ==> |chunks[i]| == ChunkSize
    ensures chunks == [] <==> bytes == []
    decreases |bytes|
  {
    if |bytes| == 0 then []
    else if |bytes| <= ChunkSize then [bytes]
    else [bytes[..ChunkSize]] + Chunks(bytes[ChunkSize..])
  }

  /** The number of pieces is the length divided by `ChunkSize`, rounded up. */
  lemma {:induction false} ChunksCount(bytes: seq<u8>)
    ensures |Chunks(bytes)| * ChunkSize >= |bytes|
    ensures |Chunks(bytes)| > 0 ==> (|Chunks(bytes)| - 1) * ChunkSize < |bytes|
    decreases |bytes|
  {
    if |bytes| > ChunkSize {
      ChunksCount(bytes[ChunkSize..]);
    }
  }

  /** Piece `p` starts at byte `p * ChunkSize`; the last piece runs to the end. */
  lemma {:induction false} ChunkAtOffset(bytes: seq<u8>, p: nat)
    requires p < |Chunks(bytes)|
    ensures p < |Chunks(bytes)| - 1 ==> p * ChunkSize + ChunkSize <= |bytes|
    ensures p < |Chunks(bytes)| - 1 ==>
      Chunks(bytes)[p] == bytes[p * ChunkSize .. p * ChunkSize + ChunkSize]
    ensures p == |Chunks(bytes)| - 1 ==> p * ChunkSize < |bytes|
    ensures p == |Chunks(bytes)| - 1 ==> Chunks(bytes)[p] == bytes[p * ChunkSize ..]
    decreases |bytes|
  {
    if |bytes| > ChunkSize && p > 0 {
      var rest := bytes[ChunkSize..];
      ChunkAtOffset(rest, p - 1);
      assert (p - 1) * ChunkSize + ChunkSize == p * ChunkSize;
      assert rest[(p - 1) * ChunkSize ..] == bytes[p * ChunkSize ..];
      if p < |Chunks(bytes)| - 1 {
        assert rest[(p - 1) * ChunkSize .. (p - 1) * ChunkSize + ChunkSize]
            == bytes[p * ChunkSize .. p * ChunkSize + ChunkSize];
      }
    }
  }

  /** Concatenating the pieces in order gives back the file. */
  lemma {:induction false} FlattenChunks(bytes: seq<u8>)
    ensures Flatten(Chunks(bytes)) == bytes
    decreases |bytes|
  {
    if |bytes| == 0 {
    } else if |bytes| <= ChunkSize {
      FlattenCons(bytes, []);
    } else {
      FlattenChunks(bytes[ChunkSize..]);
      FlattenCons(bytes[..ChunkSize], Chunks(bytes[ChunkSize..]));
    }
  }
}
