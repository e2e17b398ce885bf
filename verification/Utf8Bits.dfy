/**
  * The octets of the encoder bit by bit, as the table in section 3 of RFC 3629 has them, and the values it replaces.
  */
module Utf8Bits {
  import opened Bytes
  import opened Utf8

  /** The base-64 digits of a number. */
  lemma Digits(c: nat)
    ensures c == c / 64 * 64 + c % 64
    ensures c / 64 == c / 4096 * 64 + c / 64 % 64
    ensures c / 4096 == c / 262144 * 64 + c / 4096 % 64
  {
    assert c / 4096 == c / 64 / 64;
    assert c / 262144 == c / 4096 / 64;
  }

  // The octets of a scalar value: how many there are, their marker bits, and that their payloads make the value.

  lemma OneOctet(c: Scalar)
    requires c < 0x80
    ensures Octets(c) == [c]
  {
  }

  lemma TwoOctets(c: Scalar)
    requires 0x80 <= c < 0x800
    ensures var s: seq<int> := Octets(c);
            && |s| == 2 && 0xc0 <= s[0] < 0xe0 && 0x80 <= s[1] < 0xc0
            && c == (s[0] - 0xc0) * 64 + (s[1] - 0x80)
  {
    Digits(c);
  }

  lemma ThreeOctets(c: Scalar)
    requires 0x800 <= c < 0x10000
    ensures var s: seq<int> := Octets(c);
            && |s| == 3 && 0xe0 <= s[0] < 0xf0 && 0x80 <= s[1] < 0xc0 && 0x80 <= s[2] < 0xc0
            && c == (s[0] - 0xe0) * 4096 + (s[1] - 0x80) * 64 + (s[2] - 0x80)
  {
    Digits(c);
  }

  lemma FourOctets(c: Scalar)
    requires 0x10000 <= c
    ensures var s: seq<int> := Octets(c);
            && |s| == 4 && 0xf0 <= s[0] < 0xf8 && 0x80 <= s[1] < 0xc0 && 0x80 <= s[2] < 0xc0 && 0x80 <= s[3] < 0xc0
            && c == (s[0] - 0xf0) * 262144 + (s[1] - 0x80) * 4096 + (s[2] - 0x80) * 64 + (s[3] - 0x80)
  {
    Digits(c);
  }

  /**
    * The encoder writes the octets of the code point itself, unless it is a surrogate, U+D800 to U+DFFF, or
    * above U+10FFFF: for a surrogate it writes those of U+FFFD, EF BF BD, and above it is not UTF-8.
    */
  lemma EncodedByRange(cp: CodePoint)
    ensures cp < 0xd800 || 0xdfff < cp <= 0x10ffff ==> !IsSurrogate(cp) && cp <= 0x10ffff && Encoded(cp) == Octets(cp)
    ensures 0xd800 <= cp <= 0xdfff ==> Encoded(cp) == [0xef, 0xbf, 0xbd]
    ensures cp > 0x10ffff ==> Encoded(cp) == [0xf0, 0x8f, 0xbf, 0xbd] && !IsUtf8(Encoded(cp))
  {
    EncoderIsCorrectExactlyInRange(cp);
  }
}
