/** Raw bytes of the disc image and the little-endian unsigned integers
    that `struct.unpack("<H")` and `struct.unpack("<L")` read from them. */
module Bytes {

  type Byte = b: int | 0 <= b < 0x100

  /** `<H`: a two-byte little-endian unsigned integer. */
  function U16Le(s: seq<Byte>): (n: nat)
    requires |s| == 2
    ensures n < 0x1_0000
  {
    s[0] as int + 0x100 * s[1] as int
  }

  /** `<L`: a four-byte little-endian unsigned integer. */
  function U32Le(s: seq<Byte>): (n: nat)
    requires |s| == 4
    ensures n < 0x1_0000_0000
  {
    s[0] as int + 0x100 * s[1] as int + 0x1_0000 * s[2] as int + 0x100_0000 * s[3] as int
  }

  /** The bytes that `struct.pack("<H", n)` would produce. */
  function EncodeU16Le(n: nat): (s: seq<Byte>)
    requires n < 0x1_0000
    ensures |s| == 2
  {
    [n % 0x100, n / 0x100]
  }

  /** The bytes that `struct.pack("<L", n)` would produce. */
  function EncodeU32Le(n: nat): (s: seq<Byte>)
    requires n < 0x1_0000_0000
    ensures |s| == 4
  {
    [n % 0x100, (n / 0x100) % 0x100, (n / 0x1_0000) % 0x100, n / 0x100_0000]
  }

  lemma U16RoundTrip(n: nat)
    requires n < 0x1_0000
    ensures U16Le(EncodeU16Le(n)) == n
  {
  }

  lemma U16Inverse(s: seq<Byte>)
    requires |s| == 2
    ensures EncodeU16Le(U16Le(s)) == s
  {
    var n := U16Le(s);
    assert n / 0x100 == s[1];
    assert n % 0x100 == s[0];
  }

  lemma U32RoundTrip(n: nat)
    requires n < 0x1_0000_0000
    ensures U32Le(EncodeU32Le(n)) == n
  {
    var q1, q2, q3 := n / 0x100, n / 0x1_0000, n / 0x100_0000;
    assert q2 == q1 / 0x100;
    assert q3 == q2 / 0x100;
    assert n == n % 0x100 + 0x100 * q1;
    assert q1 == q1 % 0x100 + 0x100 * q2;
    assert q2 == q2 % 0x100 + 0x100 * q3;
  }

  lemma U32Inverse(s: seq<Byte>)
    requires |s| == 4
    ensures EncodeU32Le(U32Le(s)) == s
  {
    var n := U32Le(s);
    assert n / 0x100_0000 == s[3];
    assert n / 0x1_0000 == s[2] as int + 0x100 * s[3] as int;
    assert n / 0x100 == s[1] as int + 0x100 * s[2] as int + 0x1_0000 * s[3] as int;
  }
}
