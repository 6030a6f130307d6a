/**
 * Unsigned integers as fixed-width big-endian byte strings, the layout used
 * for scalars and field elements (section 2.3.7 of SEC 1 version 2).
 */
module Bytes {

  type byte = b: int | 0 <= b < 256

  /** A `[u8; 32]` array. */
  type Bytes32 = s: seq<byte> | |s| == 32 witness seq(32, _ => 0)

  /** 256 to the power k: the number of values k bytes can hold. */
  function Pow256(k: nat): (r: nat)
    ensures r >= 1
  {
    if k == 0 then 1 else 256 * Pow256(k - 1)
  }

  /** The number a big-endian byte string denotes. */
  function BeValue(s: seq<byte>): (v: nat)
    ensures v < Pow256(|s|)
  {
    if s == [] then 0
    else
      var hi := BeValue(s[..|s| - 1]);
      assert hi <= Pow256(|s| - 1) - 1;
      assert hi * 256 <= Pow256(|s|) - 256;
      hi * 256 + s[|s| - 1]
  }

  /** The `len`-byte big-endian encoding of `v`; decoding it gives `v` back. */
  function BeBytes(v: nat, len: nat): (s: seq<byte>)
    requires v < Pow256(len)
    ensures |s| == len
    ensures BeValue(s) == v
  {
    if len == 0 then []
    else
      var rest := BeBytes(v / 256, len - 1);
      assert rest + [v % 256] == (rest + [v % 256])[..len - 1] + [v % 256];
      rest + [v % 256]
  }

  /** Encoding the value of a byte string gives back that byte string. */
  lemma {:induction false} BeBytesOfValue(s: seq<byte>)
    ensures BeBytes(BeValue(s), |s|) == s
  {
    if s != [] {
      var init := s[..|s| - 1];
      BeBytesOfValue(init);
      assert s == init + [s[|s| - 1]];
    }
  }

  /** Two byte strings of the same length with the same value are equal. */
  lemma BeValueInjective(a: seq<byte>, b: seq<byte>)
    requires |a| == |b|
    requires BeValue(a) == BeValue(b)
    ensures a == b
  {
    BeBytesOfValue(a);
    BeBytesOfValue(b);
  }

  /** 2^256, the number of values a 32-byte string can hold. */
  const Two256: nat := 0x1_0000000000000000000000000000000000000000000000000000000000000000

  lemma Pow256Of32()
    ensures Pow256(32) == Two256
  {
    assert Pow256(8) == 0x1_0000000000000000;
    assert Pow256(16) == 0x1_00000000000000000000000000000000 by {
      Pow256Add(8, 8);
    }
    Pow256Add(16, 16);
  }

  lemma {:induction false} Pow256Add(a: nat, b: nat)
    ensures Pow256(a + b) == Pow256(a) * Pow256(b)
  {
    if a > 0 {
      Pow256Add(a - 1, b);
    }
  }
}
