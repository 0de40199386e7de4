/** The binary layout of a `FileMerkleTree`: the file size and the piece count as
    little-endian `u32`s, then the file bytes, then the tree buffer. This is the
    corrected codec: both byte regions are written raw, and the decoder takes the
    tree buffer to be the rest of the input. Line numbers refer to
    `pallets/template/src/file_merkle_tree.rs`. */
module Codec {
  import opened Bytes
  import opened Digests
  import opened MerkleTree

  /** `codec::Error` as `Input::read` raises it: the input ran out. */
  datatype DecodeError = NotEnoughData

  datatype Result<T> = Success(value: T) | Failure(error: DecodeError)

  /** A byte slice used as a `codec::Input`: reading consumes bytes from the front. */
  class ByteInput {
    var remaining: seq<u8>

    constructor (data: seq<u8>)
      ensures remaining == data
    {
      remaining := data;
    }

    /** `Input::read` into an `n`-byte buffer: the next `n` bytes, or an error with
        nothing consumed when fewer are left. */
    method Read(n: nat) returns (r: Result<seq<u8>>)
      modifies this
      ensures n <= |old(remaining)| ==> r == Success(old(remaining)[..n]) && remaining == old(remaining)[n..]
      ensures n > |old(remaining)| ==> r == Failure(NotEnoughData) && remaining == old(remaining)
    {
      if n <= |remaining| {
        r := Success(remaining[..n]);
        remaining := remaining[n..];
      } else {
        r := Failure(NotEnoughData);
      }
    }

    /** Everything left in the input. */
    method ReadRest() returns (rest: seq<u8>)
      modifies this
      ensures rest == old(remaining) && remaining == []
    {
      rest := remaining;
      remaining := [];
    }
  }

  /** The encoding of `t`. */
  function Encoding(t: FileMerkleTree): seq<u8>
  {
    ToLeBytes(AsU32(|t.fileBytes|)) + ToLeBytes(t.pieces) + t.fileBytes + t.merkleTree
  }

  /** The result of decoding `input`: the header, then `fileSize` bytes of file, then
      the rest as the tree buffer; it fails exactly when the input is shorter than
      the header or than the file size the header declares. */
  function Decoding(input: seq<u8>): (r: Result<FileMerkleTree>)
    ensures r.Failure? <==> |input| < 8 || |input| - 8 < FromLeBytes(input[..4])
    ensures r.Success? ==>
      |r.value.fileBytes| == FromLeBytes(input[..4]) && r.value.pieces == FromLeBytes(input[4..8]) &&
      input == input[..8] + r.value.fileBytes + r.value.merkleTree
  {
    if |input| < 8 then Failure(NotEnoughData)
    else
      var fileSize := FromLeBytes(input[..4]);
      var pieces := FromLeBytes(input[4..8]);
      if |input| - 8 < fileSize then Failure(NotEnoughData)
      else Success(FileMerkleTree(input[8 .. 8 + fileSize], input[8 + fileSize ..], pieces))
  }

  /** Lines 21-27 with raw byte regions: append the two header words, the file and
      the tree buffer to the result in turn. */
  method Encode(t: FileMerkleTree) returns (result: seq<u8>)
    ensures result == Encoding(t)
    ensures |result| == 8 + |t.fileBytes| + |t.merkleTree|
    ensures result[..4] == ToLeBytes(AsU32(|t.fileBytes|)) && result[4..8] == ToLeBytes(t.pieces)
    ensures result[8 .. 8 + |t.fileBytes|] == t.fileBytes
    ensures result[8 + |t.fileBytes| ..] == t.merkleTree
  {
    var fileSize := ToLeBytes(AsU32(|t.fileBytes|));
    result := fileSize;
    result := result + ToLeBytes(t.pieces);
    result := result + t.fileBytes;
    result := result + t.merkleTree;
  }

  /** Lines 32-43 with the tree buffer read as the rest of the input: read the file
      size, the piece count and the file bytes, failing as soon as a read runs out
      of input. A failed read consumes nothing, so a failure leaves the input just
      past the header words read before it. */
  method Decode(input: ByteInput) returns (r: Result<FileMerkleTree>)
    modifies input
    ensures r == Decoding(old(input.remaining))
    ensures r.Success? ==> input.remaining == []
    ensures r.Failure? ==>
              input.remaining == (if |old(input.remaining)| < 4 then old(input.remaining)
                                  else if |old(input.remaining)| < 8 then old(input.remaining)[4..]
                                  else old(input.remaining)[8..])
  {
    ghost var data := input.remaining;
    var buff := input.Read(4);
    if buff.Failure? {
      return Failure(buff.error);
    }
    var fileSize := FromLeBytes(buff.value);
    assert input.remaining == data[4..];
    buff := input.Read(4);
    if buff.Failure? {
      return Failure(buff.error);
    }
    var pieces := FromLeBytes(buff.value);
    assert buff.value == data[4..8] && input.remaining == data[8..];
    var fileBytes := input.Read(fileSize);
    if fileBytes.Failure? {
      return Failure(fileBytes.error);
    }
    assert fileBytes.value == data[8 .. 8 + fileSize];
    assert input.remaining == data[8 + fileSize ..];
    var merkleTree := input.ReadRest();
    r := Success(FileMerkleTree(fileBytes.value, merkleTree, pieces));
  }

  /** Decoding an encoding gives the tree back, for every file shorter than 2^32
      bytes (a longer one has its size truncated in the header). */
  lemma DecodeEncode(t: FileMerkleTree)
    requires |t.fileBytes| < U32Modulus
    ensures Decoding(Encoding(t)) == Success(t)
  {
    var e := Encoding(t);
    var size := ToLeBytes(AsU32(|t.fileBytes|));
    var pieces := ToLeBytes(t.pieces);
    assert e[..4] == size;
    assert e[4..8] == pieces;
    FromToLeBytes(AsU32(|t.fileBytes|));
    FromToLeBytes(t.pieces);
    assert e[8 .. 8 + |t.fileBytes|] == t.fileBytes;
    assert e[8 + |t.fileBytes| ..] == t.merkleTree;
  }

  /** Encoding what was decoded reproduces the input byte for byte. */
  lemma EncodeDecode(input: seq<u8>)
    requires Decoding(input).Success?
    ensures Encoding(Decoding(input).value) == input
  {
    var t := Decoding(input).value;
    assert |t.fileBytes| < U32Modulus;
    ToFromLeBytes(input[..4]);
    ToFromLeBytes(input[4..8]);
    assert input[..8] == input[..4] + input[4..8];
  }

  /** A tree built by `New` from a file shorter than 2^32 bytes survives encoding
      and decoding: the same file, tree buffer and piece count. */
  lemma BuiltRoundTrip(hash: Hasher, fileBytes: seq<u8>)
    requires |fileBytes| < U32Modulus
    ensures Decoding(Encoding(Built(hash, fileBytes))) == Success(Built(hash, fileBytes))
  {
    DecodeEncode(Built(hash, fileBytes));
  }
}
