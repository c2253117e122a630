/** Bytes and the four-byte length words of the wire formats. */
module Bytes {

  type byte = b: int | 0 <= b < 256

  const UNS32_LIMIT := 0x1_0000_0000

  /** `*(uns32*)dest = n` on the little-endian machines the program runs on. */
  function EncodeU32(n: nat): (s: seq<byte>)
    ensures |s| == 4
  {
    [n % 256, n / 256 % 256, n / 65536 % 256, n / 16777216 % 256]
  }

  /** `*(uns32*)src`. */
  function DecodeU32(s: seq<byte>): (n: nat)
    requires |s| == 4
    ensures n < UNS32_LIMIT
  {
    s[0] as int + 256 * (s[1] as int) + 65536 * (s[2] as int) + 16777216 * (s[3] as int)
  }

  /** The lowest byte comes first. */
  lemma LowestByteFirst(n: nat)
    requires n < UNS32_LIMIT
    ensures var s := EncodeU32(n);
      n == s[0] as int + 0x100 * s[1] as int + 0x1_0000 * s[2] as int + 0x100_0000 * s[3] as int
    ensures DecodeU32([4, 3, 2, 1]) == 0x0102_0304
  {
    LengthWordRoundTrip(n);
  }

  /** Any four bytes are the length word of what is read from them. */
  lemma WordOfBytes(s: seq<byte>)
    requires |s| == 4
    ensures EncodeU32(DecodeU32(s)) == s
  {
    var n := DecodeU32(s);
    assert n / 256 == s[1] as int + 256 * (s[2] as int) + 65536 * (s[3] as int);
    assert n / 65536 == s[2] as int + 256 * (s[3] as int);
    assert n / 16777216 == s[3] as int;
  }

  /** A length word read back is the number stored, exactly when it fits 32 bits. */
  lemma LengthWordRoundTrip(n: nat)
    ensures DecodeU32(EncodeU32(n)) == n <==> n < UNS32_LIMIT
  {
    var q1, q2, q3 := n / 256, n / 65536, n / 16777216;
    assert q2 == q1 / 256 && q3 == q2 / 256;
    assert DecodeU32(EncodeU32(n)) == n - 16777216 * (q3 - q3 % 256);
    assert q3 < 256 <==> n < UNS32_LIMIT;
  }
}
