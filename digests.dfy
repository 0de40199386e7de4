/** 32-byte digests and the hash function that produces them. SHA-256 is a call
    into the host (`sp_io::hashing::sha2_256`), so the model takes it as a
    parameter of type `Hasher`; where a property depends on the digest width it
    assumes `YieldsDigests(hash)`, which is all the model knows of SHA-256. */
module Digests {
  import opened Bytes

  const DigestSize: nat := 32

  type Hasher = seq<u8> -> seq<u8>

  /** The digest `hash` gives for `data`. */
  function Digest(hash: Hasher, data: seq<u8>): seq<u8>
  {
    hash(data)
  }

  /** Every result of `hash` is one 32-byte digest. */
  ghost predicate YieldsDigests(hash: Hasher)
  {
    forall s :: |Digest(hash, s)| == DigestSize
  }

  predicate AllDigests(ds: seq<seq<u8>>)
  {
    forall i :: 0 <= i < |ds| ==> |ds[i]| == DigestSize
  }

  lemma {:induction false} FlattenDigestsLength(ds: seq<seq<u8>>)
    requires AllDigests(ds)
    ensures |Flatten(ds)| == 32 * |ds|
    decreases |ds|
  {
    if ds != [] {
      FlattenDigestsLength(ds[..|ds| - 1]);
    }
  }

  /** Digest `j` of a list of digests sits at byte offset `32 * j` of its concatenation. */
  lemma {:induction false} FlattenDigestAt(ds: seq<seq<u8>>, j: nat)
    requires AllDigests(ds) && j < |ds|
    ensures |Flatten(ds)| == 32 * |ds|
    ensures 32 * j + 32 <= |Flatten(ds)|
    ensures Flatten(ds)[32 * j .. 32 * j + 32] == ds[j]
    decreases |ds|
  {
    var init := ds[..|ds| - 1];
    FlattenDigestsLength(ds);
    FlattenDigestsLength(init);
    if j < |ds| - 1 {
      FlattenDigestAt(init, j);
      assert Flatten(ds) == Flatten(init) + ds[|ds| - 1];
    }
  }
}
