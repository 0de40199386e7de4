/** Byte and integer primitives the Merkle-tree engine relies on: Rust's `u8` and
    `u32`, the truncating `as u32` cast, little-endian conversion of a `u32`,
    `usize::next_power_of_two`, and the concatenation of a list of byte strings. */
module Bytes {

  type u8 = x: int | 0 <= x < 0x100
  type u32 = x: int | 0 <= x < 0x1_0000_0000

  const U32Modulus: nat := 0x1_0000_0000

  /** Rust's `n as u32` on a `usize`: keeps the low 32 bits. */
  function AsU32(n: nat): (r: u32)
    ensures n < U32Modulus ==> r == n
    ensures r <= n
  {
    n % U32Modulus
  }

  /** `n` zero bytes, as `vec![0u8; n]` or `[0u8; n]` produce. */
  function Zeros(n: nat): (z: seq<u8>)
    ensures |z| == n
    ensures forall i :: 0 <= i < n ==> z[i] == 0
  {
    seq(n, _ => 0)
  }

  /** The bytes of every element of `parts`, in order (repeated `extend_from_slice`). */
  function Flatten(parts: seq<seq<u8>>): seq<u8>
    decreases |parts|
  {
    if parts == [] then [] else Flatten(parts[..|parts| - 1]) + parts[|parts| - 1]
  }

  lemma {:induction false} FlattenConcat(a: seq<seq<u8>>, b: seq<seq<u8>>)
    ensures Flatten(a + b) == Flatten(a) + Flatten(b)
    decreases |b|
  {
    if b == [] {
      assert a + b == a;
    } else {
      var b' := b[..|b| - 1];
      assert (a + b)[..|a + b| - 1] == a + b';
      FlattenConcat(a, b');
    }
  }

  lemma FlattenSnoc(init: seq<seq<u8>>, last: seq<u8>)
    ensures Flatten(init + [last]) == Flatten(init) + last
  {
    assert (init + [last])[..|init|] == init;
  }

  /** One more element of a prefix appends that element to the concatenation. */
  lemma FlattenPrefixStep(ds: seq<seq<u8>>, p: nat)
    requires p < |ds|
    ensures Flatten(ds[..p + 1]) == Flatten(ds[..p]) + ds[p]
  {
    assert ds[..p + 1] == ds[..p] + [ds[p]];
    FlattenSnoc(ds[..p], ds[p]);
  }

  lemma FlattenCons(head: seq<u8>, tail: seq<seq<u8>>)
    ensures Flatten([head] + tail) == head + Flatten(tail)
  {
    FlattenConcat([head], tail);
    assert [head][..0] == [];
  }

  /** `u32::to_le_bytes`: least significant byte first. */
  function ToLeBytes(x: u32): (b: seq<u8>)
    ensures |b| == 4
  {
    var x1 := x / 0x100;
    var x2 := x1 / 0x100;
    var x3 := x2 / 0x100;
    [x % 0x100, x1 % 0x100, x2 % 0x100, x3]
  }

  /** `u32::from_le_bytes`: the first byte is the least significant one, the last
      the most significant. */
  function FromLeBytes(b: seq<u8>): (x: u32)
    requires |b| == 4
    ensures x % 0x100 == b[0]
    ensures x / 0x100_0000 == b[3]
  {
    b[0] as int + 0x100 * (b[1] as int + 0x100 * (b[2] as int + 0x100 * b[3] as int))
  }

  lemma FromToLeBytes(x: u32)
    ensures FromLeBytes(ToLeBytes(x)) == x
  {
    var x1 := x / 0x100;
    var x2 := x1 / 0x100;
    var x3 := x2 / 0x100;
    DivMod256(x2, x3, x2 % 0x100);
    DivMod256(x1, x2, x1 % 0x100);
    DivMod256(x, x1, x % 0x100);
  }

  lemma ToFromLeBytes(b: seq<u8>)
    requires |b| == 4
    ensures ToLeBytes(FromLeBytes(b)) == b
  {
    var x := FromLeBytes(b);
    var k3 := b[3] as int;
    var k2 := b[2] as int + 0x100 * k3;
    var k1 := b[1] as int + 0x100 * k2;
    DivMod256(x, k1, b[0]);
    DivMod256(k1, k2, b[1]);
    DivMod256(k2, k3, b[2]);
  }

  /** Division by 256 splits off the low byte. */
  lemma DivMod256(x: int, q: int, r: int)
    requires 0 <= r < 0x100
    ensures x == 0x100 * q + r <==> (x / 0x100 == q && x % 0x100 == r)
  {
  }

  predicate IsPowerOfTwo(n: nat)
    decreases n
  {
    n == 1 || (n >= 2 && n % 2 == 0 && IsPowerOfTwo(n / 2))
  }

  /** The least power of two that is at least `n` and at least `p`. */
  function PowerAtLeast(n: nat, p: nat): (r: nat)
    requires IsPowerOfTwo(p)
    ensures IsPowerOfTwo(r) && n <= r && p <= r
    ensures r == p || r / 2 < n
    decreases n - p
  {
    if n <= p then p else PowerAtLeast(n, 2 * p)
  }

  /** `usize::next_power_of_two`: the least power of two `>= n`; 1 for `n == 0`. */
  function NextPowerOfTwo(n: nat): (r: nat)
    ensures IsPowerOfTwo(r) && n <= r
    ensures r == 1 || r / 2 < n
  {
    PowerAtLeast(n, 1)
  }

  lemma {:induction false} PowerOfTwoBelow(p: nat, q: nat)
    requires IsPowerOfTwo(p) && IsPowerOfTwo(q) && p < q
    ensures p <= q / 2
    decreases q
  {
    if p > 1 {
      PowerOfTwoBelow(p / 2, q / 2);
    }
  }

  /** No power of two smaller than `NextPowerOfTwo(n)` reaches `n`. */
  lemma NextPowerOfTwoIsLeast(n: nat, q: nat)
    requires IsPowerOfTwo(q) && n <= q
    ensures NextPowerOfTwo(n) <= q
  {
    var r := NextPowerOfTwo(n);
    if q < r {
      PowerOfTwoBelow(q, r);
    }
  }
}
