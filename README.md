# FileMerkleTree in Dafny

A model of the Merkle-tree engine of the template pallet
(`pallets/template/src/file_merkle_tree.rs`). It covers three parts:

- construction of a `FileMerkleTree` from the bytes of a file:
  - the file is cut into 1 KiB pieces;
  - each piece is hashed, a short last piece after zero-padding to 1 KiB;
  - the leaves are padded with the all-zero `CHUNK_FILLER` to a power of two;
  - the levels are folded bottom-up into one flat buffer, leaves first and root last;
- the queries `piece_count`, `file_chunk_at` and `merkle_root`;
- the hand-written binary codec (two little-endian `u32` header words, then the
  file, then the tree buffer).

The model is split into modules:

- `Bytes`: the `u8`/`u32` types, `as u32`, `to_le_bytes`/`from_le_bytes`,
  `next_power_of_two`, and the concatenation `Flatten`.
- `Digests`: the hash function, which is a parameter.
- `Chunker`: `chunks(1024)`.
- `LeafHasher`: the leaf loop and the filler loop of `new`, over a zeroed
  `array` buffer for the short piece.
- `TreeBuilder`: the level walk of `new`, proved against the list of nodes
  `TreeNodes`.
- `MerkleTree`: the `FileMerkleTree` value, its queries, `New` and the properties
  of what it builds.
- `Codec`: the corrected encoder and decoder, the decoder reading from a
  `ByteInput` class that stands for `codec::Input`.
- `AsWritten`: the source as written where it departs from its evident intent
  (see "## Findings").

`New` is proved to build exactly `Built(hash, file)`. Its buffer is
`Flatten(TreeNodes(hash, leaves))`: the leaf level, then each level of pair
hashes up to the root. The lemmas in `MerkleTree` state what that buffer holds,
digest by digest:

- the leaves are in chunk order;
- the fillers come after them;
- digest `w + k` is the hash of digests `2k` and `2k + 1`;
- the root comes last;
- the buffer length is `32 * (2w - 1)`.

`BuiltUnique` shows those laws determine the buffer.

Three parts of the source do not do what they evidently intend:

- the level walk slices with `CHUNK_SIZE` where the 32-byte digest width is meant;
  its `pos = num_items; num_items /= 2` (lines 109-110) also leaves every range
  after the first pass empty, where the next level of `num_items / 2` items is meant;
- the root slice takes the last `CHUNK_SIZE` bytes where the last 32-byte digest is
  meant;
- the codec does not round-trip.

For each, the model proves the corrected behaviour and
keeps the code as written in `AsWritten`, with a lemma showing where it goes
wrong. An empty file gets one filler leaf and 0 pieces (lines 94-97), and nothing
rejects it. Under the corrected walk that filler is the root (`MerkleTree.EmptyFile`).
As written, `new` panics on it at line 101, as on every file of at most 32 pieces
(`AsWritten.FoldAsWritten`).

## Model

| member | source | states |
|---|---|---|
| Bytes.AsU32 | pallets/template/src/file_merkle_tree.rs:114 | `as u32` keeps every value below 2^32 and never grows a value |
| Bytes.ToLeBytes | pallets/template/src/file_merkle_tree.rs:22-24 | `to_le_bytes` gives four bytes |
| Bytes.FromToLeBytes | pallets/template/src/file_merkle_tree.rs:22-37 | `from_le_bytes` inverts `to_le_bytes` on every `u32` |
| Bytes.FromLeBytes | pallets/template/src/file_merkle_tree.rs:35-37 | `from_le_bytes` reads the first byte as the least significant and the last as the most significant |
| Bytes.ToFromLeBytes | pallets/template/src/file_merkle_tree.rs:33-37 | `to_le_bytes` inverts `from_le_bytes` on every four bytes |
| Bytes.NextPowerOfTwo | pallets/template/src/file_merkle_tree.rs:94 | `next_power_of_two(n)` is a power of two, at least `n`, and 1 or less than `2n` |
| Bytes.NextPowerOfTwoIsLeast | pallets/template/src/file_merkle_tree.rs:94 | no power of two at least `n` is below `next_power_of_two(n)` |
| Bytes.FlattenConcat | pallets/template/src/file_merkle_tree.rs:89-92 | concatenating two lists of byte strings concatenates their bytes |
| Digests.FlattenDigestAt | pallets/template/src/file_merkle_tree.rs:89-92 | in the concatenation of 32-byte digests, digest `j` sits at byte offset `32 * j` |
| Chunker.Chunks | pallets/template/src/file_merkle_tree.rs:75 | `chunks(1024)` gives non-empty pieces of at most 1024 bytes, all full but the last, and none exactly for an empty file |
| Chunker.ChunksCount | pallets/template/src/file_merkle_tree.rs:75-76 | the number of pieces is the file length over 1024, rounded up |
| Chunker.ChunkAtOffset | pallets/template/src/file_merkle_tree.rs:75 | piece `p` is the 1024 bytes at offset `1024 p`, the last piece the tail from there |
| Chunker.FlattenChunks | pallets/template/src/file_merkle_tree.rs:75 | the pieces concatenated give back the file |
| LeafHasher.ZeroPad | pallets/template/src/file_merkle_tree.rs:80-83 | the copy into a zeroed 1024-byte buffer has the chunk as prefix and zeros after it |
| LeafHasher.LeafIsHashOfPaddedBuffer | pallets/template/src/file_merkle_tree.rs:78-87 | a leaf is the hash of the one zero-padded 1024-byte buffer with the chunk as prefix; a full chunk is hashed as it is |
| LeafHasher.LeafDigest | pallets/template/src/file_merkle_tree.rs:78-87 | each leaf is a 32-byte digest; how it hashes the padded buffer is `LeafIsHashOfPaddedBuffer` |
| LeafHasher.LeafDigests | pallets/template/src/file_merkle_tree.rs:77-88 | one leaf per piece, each a 32-byte digest |
| LeafHasher.Fillers | pallets/template/src/file_merkle_tree.rs:10 | `n` copies of the 32-byte zero filler |
| LeafHasher.PaddedLeaves | pallets/template/src/file_merkle_tree.rs:93-97 | the padded leaf level has a power-of-two length and holds digests only |
| LeafHasher.PaddedLeavesLayout | pallets/template/src/file_merkle_tree.rs:89-97 | the leaf level has `next_power_of_two(pieces)` digests: the leaves of the pieces in order, then all-zero fillers |
| LeafHasher.HashLeaves | pallets/template/src/file_merkle_tree.rs:75-92 | the leaf loop counts the pieces and leaves the concatenated leaves in `tree` |
| LeafHasher.PadToPowerOfTwo | pallets/template/src/file_merkle_tree.rs:94-97 | the filler loop appends fillers until the level has `next_power_of_two(pieces)` digests |
| TreeBuilder.PairHashes | pallets/template/src/file_merkle_tree.rs:100-108 | the level above has half the width, and holds digests when the hash yields them |
| TreeBuilder.PairHashesAt | pallets/template/src/file_merkle_tree.rs:101-107 | parent `k` is the hash of items `2k` and `2k + 1` concatenated, left first |
| TreeBuilder.TreeNodesUpper | pallets/template/src/file_merkle_tree.rs:109-110 | with `w > 1` leaves the next level starts at item `w` and is `w / 2` items wide, again a power of two; from item `w` on the nodes are the tree over that level |
| TreeBuilder.TreeNodesShape | pallets/template/src/file_merkle_tree.rs:98-111 | a tree over `w` leaves has `2w - 1` nodes, starts with the leaves and holds digests only |
| TreeBuilder.TreeNodesParent | pallets/template/src/file_merkle_tree.rs:100-108 | every node above the leaves, node `w + k`, is the hash of nodes `2k` and `2k + 1` |
| TreeBuilder.TreeNodesRoot | pallets/template/src/file_merkle_tree.rs:98-111 | the last node is the lone leaf for one leaf, else the hash of the two nodes before it |
| TreeBuilder.TreeNodesUnique | pallets/template/src/file_merkle_tree.rs:98-111 | any `2w - 1` nodes that start with the leaves and obey the parent law are the tree |
| TreeBuilder.LawsAgree | pallets/template/src/file_merkle_tree.rs:100-108 | two layouts over the same leaves that obey the parent law agree node by node |
| TreeBuilder.AppendParent | pallets/template/src/file_merkle_tree.rs:106-107 | hashing the next pair extends the bytes of the level above by that pair's digest |
| TreeBuilder.HashLevel | pallets/template/src/file_merkle_tree.rs:100-108 | the inner loop appends the bytes of the level above the current one |
| TreeBuilder.HashPairs | pallets/template/src/file_merkle_tree.rs:100-108 | the inner loop over a buffer that lays out the current level appends the level above |
| TreeBuilder.HashPair | pallets/template/src/file_merkle_tree.rs:101-107 | one pass of the inner loop reads the pair at its byte offset and appends its hash |
| TreeBuilder.Climb | pallets/template/src/file_merkle_tree.rs:99-111 | one pass of the outer loop keeps the walk invariant and halves the width |
| TreeBuilder.FoldLevels | pallets/template/src/file_merkle_tree.rs:98-111 | the level walk leaves the bytes of every node of the tree in the buffer, leaves first, root last |
| MerkleTree.FileMerkleTree.PieceCount | pallets/template/src/file_merkle_tree.rs:128-131 | `piece_count` is the file length over 1024 rounded up, and 0 exactly for an empty file |
| MerkleTree.FileMerkleTree.FileChunkAt | pallets/template/src/file_merkle_tree.rs:119-126 | piece `p` is non-empty, starts at byte `1024 p`, is full unless last, and the last reaches the end of the file |
| MerkleTree.FileMerkleTree.MerkleRoot | pallets/template/src/file_merkle_tree.rs:133-135 | the root is the trailing 32-byte digest of the buffer |
| MerkleTree.FileChunksAreChunks | pallets/template/src/file_merkle_tree.rs:119-131 | `piece_count` and `file_chunk_at` agree with the `chunks(1024)` that `new` hashes |
| MerkleTree.FileChunksConcatenate | pallets/template/src/file_merkle_tree.rs:119-126 | pieces `0 .. count - 1` concatenated give back the file |
| MerkleTree.New | pallets/template/src/file_merkle_tree.rs:74-117 | `new` builds exactly `Built(hash, file)`: the file, the flattened tree over its padded leaves, and the piece count cast to `u32` |
| MerkleTree.BuiltKeepsFile | pallets/template/src/file_merkle_tree.rs:112-115 | `new` keeps the file, and `pieces` equals `piece_count()` for files below 2^32 bytes |
| MerkleTree.BuiltLayout | pallets/template/src/file_merkle_tree.rs:93-111 | the buffer lays out `2w - 1` digests back to back, for leaf width `w = next_power_of_two(pieces)` |
| MerkleTree.BuiltSize | pallets/template/src/file_merkle_tree.rs:93-111 | the buffer is `32 * (2w - 1)` bytes long |
| MerkleTree.BuiltLeaf | pallets/template/src/file_merkle_tree.rs:77-92 | buffer digest `p` is the leaf of `file_chunk_at(p)` for every real piece |
| MerkleTree.BuiltFiller | pallets/template/src/file_merkle_tree.rs:94-97 | buffer digests from `pieces` up to the leaf width are `CHUNK_FILLER` |
| MerkleTree.BuiltParent | pallets/template/src/file_merkle_tree.rs:100-108 | buffer digest `w + k` is the hash of buffer digests `2k` and `2k + 1` |
| MerkleTree.BuiltRoot | pallets/template/src/file_merkle_tree.rs:133-135 | the root is the last digest: the lone leaf for one piece, else the hash of the two digests before it |
| MerkleTree.BuiltUnique | pallets/template/src/file_merkle_tree.rs:98-111 | any node list of the right size with the file's leaves that obeys the parent law flattens to the buffer `new` builds |
| MerkleTree.EmptyFile | pallets/template/src/file_merkle_tree.rs:94-97 | an empty file has 0 pieces and a buffer of one filler leaf, which under the corrected walk is the root |
| MerkleTree.File1500 | pallets/template/src/file_merkle_tree.rs:74-117 | a 1500-byte file: 2 pieces, 96 bytes of buffer, root the hash of the two leaves |
| MerkleTree.File3000 | pallets/template/src/file_merkle_tree.rs:74-117 | a 3000-byte file: 3 pieces, leaf width 4 with one filler, 224 bytes of buffer |
| MerkleTree.File500 | pallets/template/src/file_merkle_tree.rs:77-88 | a 500-byte file: the root is the hash of the file followed by 524 zeros |
| Codec.ByteInput.Read | pallets/template/src/file_merkle_tree.rs:34-39 | `Input::read` takes exactly the next `n` bytes, or fails with nothing consumed |
| Codec.ByteInput.ReadRest | pallets/template/src/file_merkle_tree.rs:40-41 | the corrected read of the tree buffer takes everything left and leaves the input empty |
| Codec.Decoding | pallets/template/src/file_merkle_tree.rs:32-43 | decoding fails exactly on input shorter than the header or the declared file size; otherwise it splits the input into header, file and tree |
| Codec.Encode | pallets/template/src/file_merkle_tree.rs:21-28 | the encoding is the file size and piece count in little-endian, then the file bytes, then the tree buffer |
| Codec.Decode | pallets/template/src/file_merkle_tree.rs:32-43 | the successive reads decode as `Decoding` does; they consume the whole input on success, and on failure leave the input just past the header words read before the failing read |
| Codec.DecodeEncode | pallets/template/src/file_merkle_tree.rs:21-43 | decoding an encoding gives the tree back, for files below 2^32 bytes |
| Codec.EncodeDecode | pallets/template/src/file_merkle_tree.rs:21-43 | encoding a decoded tree reproduces the input byte for byte |
| Codec.BuiltRoundTrip | pallets/template/src/file_merkle_tree.rs:21-43 | a tree built by `new` survives encoding and decoding |
| AsWritten.FoldAsWritten | pallets/template/src/file_merkle_tree.rs:98-111 | the walk as written panics for leaf width below 64 and otherwise leaves `48 w` bytes, never `32 (2w - 1)` |
| AsWritten.HashRangeAsWritten | pallets/template/src/file_merkle_tree.rs:100-108 | one pass of the inner loop as written: over a leaf level of `w` digests it panics exactly when `w < 64` and otherwise grows the buffer to `48 w` bytes; a pass whose range `pos..num_items` is empty leaves the buffer as it is |
| AsWritten.MerkleRootAsWritten | pallets/template/src/file_merkle_tree.rs:133-135 | `merkle_root` as written panics below 1024 bytes and otherwise returns 1024 bytes, never a 32-byte digest |
| AsWritten.SmallFileRootPanics | pallets/template/src/file_merkle_tree.rs:133-135 | for every file of at most 16 pieces, `merkle_root` as written panics |
| AsWritten.EncodeAsWritten | pallets/template/src/file_merkle_tree.rs:21-28 | the encoding as written starts with the same two header words, then two length-prefixed regions |
| AsWritten.DecodeAsWritten | pallets/template/src/file_merkle_tree.rs:32-43 | decoding as written fails exactly below `8 + 2 * file_size` bytes and yields a tree as long as the file |
| AsWritten.HeaderRoundTripAsWritten | pallets/template/src/file_merkle_tree.rs:21-43 | decoding the as-written encoding succeeds exactly when the two length prefixes and the tree buffer together are at least as long as the file, and then the piece count and the file length come back |
| AsWritten.BuiltDecodeFailsAsWritten | pallets/template/src/file_merkle_tree.rs:21-43 | as written, decoding fails outright on the encoding of every tree `new` builds from a file of more than 40 bytes, when each length prefix takes at most 4 bytes |
| AsWritten.RoundTripFailsAsWritten | pallets/template/src/file_merkle_tree.rs:25-40 | as written, a 1500-byte file's tree does not survive encoding and decoding |

## Left out

- SHA-256 (`sp_io::hashing::sha2_256`) is a host function. It is the parameter `hash`. Properties that need 32-byte digests assume `YieldsDigests(hash)`. Nothing is claimed about collisions.
- The SCALE compact length prefix that `Vec<u8>::encode` writes is library code. The as-written encoder takes the two prefixes as parameters.
- Only `read` of `codec::Input` is modelled, on a byte slice; the rest of the trait is left out.
- The `TypeInfo`, `EncodeLike` and derived `Default`/`Clone`/`PartialEq` impls have no behaviour to model. Datatype equality stands for `PartialEq`.
- `pallets/template/src/lib.rs` (the claim extrinsic over FRAME storage) is not part of this model.
- `pallets/template/rpc/src/lib.rs` (the JSON-RPC server and its hex formatting) is not part of this model.
- `pallets/template/rpc/runtime-api/src/lib.rs` only declares interfaces, and `get_proof` has no implementation in the files shown, so no proof generator or verifier is modelled.
- `usize` arithmetic is unbounded in the model. The position passed to `file_chunk_at` (line 119) is the caller's, and on a 32-bit target `position * CHUNK_SIZE` wraps from 2^22 on; in the model what keeps that product in range is `FileChunkAt`'s `requires position < piece_count()`. The growth of the tree buffer stays below `usize` for any file that fits in memory.
- MerkleTree.FileMerkleTree.FileChunkAt: requires `position < piece_count()`. For other positions the source panics on the slice, or on `count - 1` for an empty file, and the model does not represent that panic.
- MerkleTree.FileMerkleTree.MerkleRoot: requires a buffer of at least 32 bytes. Every buffer `New` builds has one (`BuiltSize`). A decoded value is not covered: `Decoding` accepts a tree buffer of any length, even an empty one, and on a buffer under 32 bytes the corrected slice `len - 32` would underflow.
- MerkleTree.New: requires `YieldsDigests(hash)`, the only thing the model knows of SHA-256.
- Codec.Decode: the corrected decoder consumes the rest of the input as the tree buffer. The source as written reads `file_size` bytes instead; that version is `AsWritten.DecodeAsWritten`.
- Codec.DecodeEncode: holds only for files below 2^32 bytes, because the header stores the length with `as u32`.
- The reuse of one 4-byte `buff` array for both header reads is not modelled; each read returns its bytes.

## Findings

| source | as written | input that shows it | evidently intended | confidence | as-written member | corrected member |
|---|---|---|---|---|---|---|
| pallets/template/src/file_merkle_tree.rs:98-111 | The level loop slices `tree[i..i + CHUNK_SIZE]` and `tree[i + CHUNK_SIZE..i + 2 * CHUNK_SIZE]` at item index `i` used as a byte offset. After one pass, `pos = num_items; num_items /= 2` makes every later range `pos..num_items` empty. | A 1500-byte file: leaf width 2, a 64-byte buffer, and `tree[0..1024]` is out of range. Every leaf width below 64 (at most 32 pieces) panics; from width 64 on, the buffer ends with `48 w` bytes instead of `2w - 1` digests. | A level walk over 32-byte digests with `(levelStart, width)` item indices, hashing adjacent pairs and halving the width down to 1. | not executed | AsWritten.FoldAsWritten | TreeBuilder.FoldLevels |
| pallets/template/src/file_merkle_tree.rs:134 | `merkle_root` returns the last `CHUNK_SIZE` (1024) bytes of the buffer. | Any file of at most 16 pieces: the buffer is under 1024 bytes and `len - CHUNK_SIZE` underflows. Larger files get 1024 bytes, not a digest. | The trailing 32-byte digest, the last node the level walk appends. | not executed | AsWritten.SmallFileRootPanics | MerkleTree.FileMerkleTree.MerkleRoot |
| pallets/template/src/file_merkle_tree.rs:25-26, 40 | `encode` writes `file_bytes.encode()` and `merkle_tree.encode()` (each length-prefixed), while `decode` reads raw bytes and sizes `merkle_tree` by `file_size`. | A 1500-byte file has a 96-byte buffer; decoding its encoding never gives that buffer back, whatever the prefixes are. | Raw byte regions, with the tree buffer taken as the rest of the input, so that decoding an encoding gives the tree back. | not executed | AsWritten.RoundTripFailsAsWritten | Codec.DecodeEncode |
