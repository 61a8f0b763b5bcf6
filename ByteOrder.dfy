/** Fixed-width unsigned integers and their little-endian byte encoding, as the
    `byteorder` crate's `read_u64::<LE>` / `write_u64::<LE>` and Rust's
    `to_le_bytes` produce and consume them. Integers are mathematical; the
    widths are subset types, so no wrap-around can occur silently. */
module ByteOrder {

  type uint8 = x: int | 0 <= x < 0x100
  type uint32 = x: int | 0 <= x < 0x1_0000_0000
  type uint64 = x: int | 0 <= x < 0x1_0000_0000_0000_0000

  /** 256 to the power n: the number of values an n-byte field can hold. */
  function Pow256(n: nat): (p: nat)
    ensures p >= 1
  {
    if n == 0 then 1 else 256 * Pow256(n - 1)
  }

  lemma Pow256Widths()
    ensures Pow256(4) == 0x1_0000_0000
    ensures Pow256(8) == 0x1_0000_0000_0000_0000
  {
    assert Pow256(0) == 1;
    assert Pow256(1) == 0x100;
    assert Pow256(2) == 0x1_0000;
    assert Pow256(3) == 0x100_0000;
    assert Pow256(4) == 0x1_0000_0000;
    assert Pow256(5) == 0x100_0000_0000;
    assert Pow256(6) == 0x1_0000_0000_0000;
    assert Pow256(7) == 0x100_0000_0000_0000;
  }

  /** The n low-order bytes of x, least significant first. */
  function LeBytes(x: nat, n: nat): (bs: seq<uint8>)
    ensures |bs| == n
  {
    if n == 0 then [] else [x % 256] + LeBytes(x / 256, n - 1)
  }

  /** The number whose little-endian encoding is bs. */
  function FromLeBytes(bs: seq<uint8>): (x: nat)
    ensures x < Pow256(|bs|)
  {
    if |bs| == 0 then 0
    else
      var rest := FromLeBytes(bs[1..]);
      assert rest <= Pow256(|bs| - 1) - 1;
      bs[0] + 256 * rest
  }

  /** Decoding the n-byte encoding of a value that fits in n bytes gives it back. */
  lemma {:induction false} FromLeBytesOfLeBytes(x: nat, n: nat)
    requires x < Pow256(n)
    ensures FromLeBytes(LeBytes(x, n)) == x
  {
    if n > 0 {
      FromLeBytesOfLeBytes(x / 256, n - 1);
      assert LeBytes(x, n)[1..] == LeBytes(x / 256, n - 1);
    }
  }

  /** Encoding the value of a byte string at its own width gives it back. */
  lemma {:induction false} LeBytesOfFromLeBytes(bs: seq<uint8>)
    ensures LeBytes(FromLeBytes(bs), |bs|) == bs
  {
    if |bs| > 0 {
      var x := FromLeBytes(bs);
      var rest := FromLeBytes(bs[1..]);
      assert x % 256 == bs[0] && x / 256 == rest;
      LeBytesOfFromLeBytes(bs[1..]);
    }
  }

  /** Equal-width encodings are equal exactly when the encoded values are. */
  lemma LeBytesInjective(x: nat, y: nat, n: nat)
    requires x < Pow256(n) && y < Pow256(n)
    ensures LeBytes(x, n) == LeBytes(y, n) <==> x == y
  {
    if LeBytes(x, n) == LeBytes(y, n) {
      FromLeBytesOfLeBytes(x, n);
      FromLeBytesOfLeBytes(y, n);
    }
  }

  /** `read_u64::<LE>` over exactly eight bytes. */
  function ReadU64(bs: seq<uint8>): (x: uint64)
    requires |bs| == 8
    ensures U64Bytes(x) == bs
  {
    Pow256Widths();
    LeBytesOfFromLeBytes(bs);
    FromLeBytes(bs)
  }

  /** `read_u32::<LE>` over exactly four bytes (the bit pattern of `read_f32::<LE>`). */
  function ReadU32(bs: seq<uint8>): (x: uint32)
    requires |bs| == 4
    ensures U32Bytes(x) == bs
  {
    Pow256Widths();
    LeBytesOfFromLeBytes(bs);
    FromLeBytes(bs)
  }

  /** `u64::to_le_bytes`. */
  function U64Bytes(x: uint64): (bs: seq<uint8>)
    ensures |bs| == 8
  {
    LeBytes(x, 8)
  }

  /** `u32::to_le_bytes`, and so `f32::to_le_bytes` of the float with these bits. */
  function U32Bytes(x: uint32): (bs: seq<uint8>)
    ensures |bs| == 4
  {
    LeBytes(x, 4)
  }

  lemma ReadU64OfU64Bytes(x: uint64)
    ensures ReadU64(U64Bytes(x)) == x
  {
    Pow256Widths();
    FromLeBytesOfLeBytes(x, 8);
  }

  lemma ReadU32OfU32Bytes(x: uint32)
    ensures ReadU32(U32Bytes(x)) == x
  {
    Pow256Widths();
    FromLeBytesOfLeBytes(x, 4);
  }
}
