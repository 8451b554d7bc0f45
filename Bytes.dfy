/** Octets and their big-endian value. */
module Bytes {
  type Byte = x: int | 0 <= x < 256

  /** PHP's `chr($n)` for a non-negative `$n`: the low eight bits. */
  function Chr(n: nat): (r: Byte)
    ensures n < 256 ==> r == n
  {
    n % 256
  }

  /** The unsigned big-endian integer an octet string denotes. */
  function BigEndian(s: seq<Byte>): nat
  {
    if s == [] then 0 else BigEndian(s[..|s| - 1]) * 256 + s[|s| - 1]
  }

  /** A leading zero octet does not change the unsigned value. */
  lemma {:induction false} BigEndianLeadingZero(s: seq<Byte>)
    ensures BigEndian([0] + s) == BigEndian(s)
  {
    if s != [] {
      assert ([0] + s)[..|s|] == [0] + s[..|s| - 1];
      BigEndianLeadingZero(s[..|s| - 1]);
    } else {
      assert [0] + s == [0];
      assert [0][..0] == [];
    }
  }
}
