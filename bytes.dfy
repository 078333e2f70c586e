/**
 * Bytes and unsigned 64-bit integers, and the little-endian byte order in which
 * the segment file stores every integer field (the `#[repr(C)]` structs of
 * src/segments.rs are copied to and from the file as raw memory on a
 * little-endian host).
 */
module Bytes {

  type u8 = x: int | 0 <= x < 256

  const U64_LIMIT: nat := 0x1_0000_0000_0000_0000

  type u64 = x: int | 0 <= x < 0x1_0000_0000_0000_0000

  function Pow256(n: nat): (r: nat)
    ensures r > 0
  {
    if n == 0 then 1 else 256 * Pow256(n - 1)
  }

  /** The `n` low-order bytes of `x`, least significant byte first. */
  function LittleEndian(x: nat, n: nat): (r: seq<u8>)
    ensures |r| == n
  {
    if n == 0 then [] else [x % 256] + LittleEndian(x / 256, n - 1)
  }

  /** The number whose little-endian representation is `s`. */
  function FromLittleEndian(s: seq<u8>): (r: nat)
    ensures r < Pow256(|s|)
  {
    if s == [] then 0 else s[0] + 256 * FromLittleEndian(s[1..])
  }

  /** Decoding undoes encoding for every number that fits in `n` bytes. */
  lemma {:induction false} FromToLittleEndian(x: nat, n: nat)
    requires x < Pow256(n)
    ensures FromLittleEndian(LittleEndian(x, n)) == x
  {
    if n > 0 {
      var s := LittleEndian(x, n);
      assert s[0] == x % 256 && s[1..] == LittleEndian(x / 256, n - 1);
      assert x / 256 < Pow256(n - 1);
      FromToLittleEndian(x / 256, n - 1);
    }
  }

  /** Encoding undoes decoding: every byte string is the representation of its value. */
  lemma {:induction false} ToFromLittleEndian(s: seq<u8>)
    ensures LittleEndian(FromLittleEndian(s), |s|) == s
  {
    if s != [] {
      var x := FromLittleEndian(s);
      var y := FromLittleEndian(s[1..]);
      assert x == s[0] + 256 * y;
      assert x % 256 == s[0] && x / 256 == y;
      ToFromLittleEndian(s[1..]);
      assert LittleEndian(x, |s|) == [s[0]] + s[1..];
    }
  }

  lemma {:induction false} Pow256Eight()
    ensures Pow256(8) == U64_LIMIT
  {
    assert Pow256(4) == 0x1_0000_0000;
    assert Pow256(8) == Pow256(4) * Pow256(4) by {
      assert Pow256(8) == 256 * 256 * 256 * 256 * Pow256(4);
    }
  }

  /** The width of a u64 in bytes. */
  const U64_BYTES: nat := 8

  /** A u64 as the eight bytes the host stores it in. */
  function EncodeU64(x: u64): (r: seq<u8>)
    ensures |r| == 8
  {
    LittleEndian(x, U64_BYTES)
  }

  /** The u64 stored at byte position `at`: the eight bytes there are its encoding. */
  function DecodeU64(s: seq<u8>, at: nat): (r: u64)
    requires at + 8 <= |s|
    ensures EncodeU64(r) == s[at..at + 8]
  {
    Pow256Eight();
    ToFromLittleEndian(s[at..at + 8]);
    assert EncodeU64(FromLittleEndian(s[at..at + 8])) == s[at..at + 8];
    EncodeU64IsInjective();
    var x: u64 :| EncodeU64(x) == s[at..at + 8];
    x
  }

  /** No two u64 share an encoding. */
  lemma {:induction false} EncodeU64IsInjective()
    ensures forall x: u64, y: u64 :: EncodeU64(x) == EncodeU64(y) ==> x == y
  {
    forall x: u64, y: u64 | EncodeU64(x) == EncodeU64(y) ensures x == y {
      EncodeU64Injective(x, y);
    }
  }

  /** Distinct numbers have distinct encodings, so the encoding determines the number. */
  lemma {:induction false} EncodeU64Injective(x: u64, y: u64)
    requires EncodeU64(x) == EncodeU64(y)
    ensures x == y
  {
    Pow256Eight();
    FromToLittleEndian(x, U64_BYTES);
    FromToLittleEndian(y, U64_BYTES);
  }

  /** Reading back a u64 from the bytes it was written to gives that u64. */
  lemma {:induction false} DecodeU64Of(s: seq<u8>, at: nat, x: u64)
    requires at + 8 <= |s| && s[at..at + 8] == EncodeU64(x)
    ensures DecodeU64(s, at) == x
  {
    EncodeU64Injective(DecodeU64(s, at), x);
  }
}
