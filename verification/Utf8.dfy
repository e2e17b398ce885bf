/**
  * The UTF-8 encoder, the validator and the bounded loop that renders a grapheme.
  *
  * Two references come from RFC 3629: section 3 gives the octets of a scalar value, section 4
  * gives the syntax of the octets by ranges. The source checks neither: it recomputes the code
  * point and rejects overlong forms, surrogates and values above 0x10FFFF afterwards.
  */
module Utf8 {
  import opened Bytes

  /** `uint32_t`, as the terminal hands code points to the encoder. */
  type CodePoint = c: int | 0 <= c < 0x1_0000_0000

  const REPLACEMENT: CodePoint := 0xfffd
  const TEXT_BUFFER: nat := 256

  // ---------------------------------------------------------------- RFC 3629, section 3

  predicate IsSurrogate(c: CodePoint) { 0xd800 <= c <= 0xdfff }

  /** A Unicode scalar value. */
  type Scalar = c: CodePoint | c <= 0x10ffff && !IsSurrogate(c)

  // The octet forms of section 3, with the payload bits spread six by six.

  function Two(c: CodePoint): (r: seq<Byte>)
    requires c < 0x800
    ensures |r| == 2
  {
    [0xc0 + c / 64, 0x80 + c % 64]
  }

  function Three(c: CodePoint): (r: seq<Byte>)
    requires c < 0x10000
    ensures |r| == 3
  {
    [0xe0 + c / 4096, 0x80 + c / 64 % 64, 0x80 + c % 64]
  }

  function Four(c: CodePoint): (r: seq<Byte>)
    requires c <= 0x10ffff
    ensures |r| == 4
  {
    var lead: Byte := 0xf0 + c / 262144;
    [lead, 0x80 + c / 4096 % 64, 0x80 + c / 64 % 64, 0x80 + c % 64]
  }

  function Octets(c: Scalar): (r: seq<Byte>)
    ensures 1 <= |r| <= 4
  {
    if c < 0x80 then [c]
    else if c < 0x800 then Two(c)
    else if c < 0x10000 then Three(c)
    else Four(c)
  }

  function Text(cs: seq<Scalar>): seq<Byte> {
    if cs == [] then [] else Octets(cs[0]) + Text(cs[1..])
  }

  // ---------------------------------------------------------------- RFC 3629, section 4

  predicate Tail(b: Byte) { 0x80 <= b <= 0xbf }

  predicate SecondOfThree(a: Byte, b: Byte) {
    || (a == 0xe0 && 0xa0 <= b <= 0xbf)
    || (0xe1 <= a <= 0xec && Tail(b))
    || (a == 0xed && 0x80 <= b <= 0x9f)
    || (0xee <= a <= 0xef && Tail(b))
  }

  predicate SecondOfFour(a: Byte, b: Byte) {
    || (a == 0xf0 && 0x90 <= b <= 0xbf)
    || (0xf1 <= a <= 0xf3 && Tail(b))
    || (a == 0xf4 && 0x80 <= b <= 0x8f)
  }

  /** The length of the UTF8-char at the front of `s`, or 0 if none stands there. */
  function CharLength(s: seq<Byte>): (n: nat)
    ensures n <= 4 && n <= |s|
  {
    if |s| >= 1 && s[0] <= 0x7f then 1
    else if |s| >= 2 && 0xc2 <= s[0] <= 0xdf && Tail(s[1]) then 2
    else if |s| >= 3 && SecondOfThree(s[0], s[1]) && Tail(s[2]) then 3
    else if |s| >= 4 && SecondOfFour(s[0], s[1]) && Tail(s[2]) && Tail(s[3]) then 4
    else 0
  }

  /** UTF8-octets: a sequence of UTF8-chars. */
  predicate IsUtf8(s: seq<Byte>) {
    s == [] || (CharLength(s) > 0 && IsUtf8(s[CharLength(s)..]))
  }

  /** Six more payload bits, from an octet after the lead. */
  function Join(high: int, b: Byte): int { high * 64 + (b - 0x80) }

  function Value2(a: Byte, b: Byte): (c: Scalar)
    requires 0xc2 <= a <= 0xdf && Tail(b)
    ensures Octets(c) == [a, b]
  {
    Join(a - 0xc0, b)
  }

  function Value3(a: Byte, b: Byte, d: Byte): (c: Scalar)
    requires SecondOfThree(a, b) && Tail(d)
    ensures Octets(c) == [a, b, d]
  {
    var x := Join(a - 0xe0, b);
    assert Join(x, d) / 64 == x && Join(x, d) % 64 == d - 0x80;
    assert x / 64 == a - 0xe0 && x % 64 == b - 0x80;
    assert Join(x, d) / 4096 == a - 0xe0;
    Join(x, d)
  }

  function Value4(a: Byte, b: Byte, d: Byte, e: Byte): (c: Scalar)
    requires SecondOfFour(a, b) && Tail(d) && Tail(e)
    ensures Octets(c) == [a, b, d, e]
  {
    var x := Join(a - 0xf0, b);
    var y := Join(x, d);
    assert Join(y, e) / 64 == y && Join(y, e) % 64 == e - 0x80;
    assert y / 64 == x && y % 64 == d - 0x80;
    assert x / 64 == a - 0xf0 && x % 64 == b - 0x80;
    assert Join(y, e) / 4096 == x && Join(y, e) / 262144 == a - 0xf0;
    Join(y, e)
  }

  /** The value of the character at the front, six bits from every octet after the lead. */
  function CharValue(s: seq<Byte>): (c: Scalar)
    requires CharLength(s) > 0
    ensures Octets(c) == s[..CharLength(s)]
  {
    var n := CharLength(s);
    if n == 1 then s[0] else if n == 2 then Value2(s[0], s[1])
    else if n == 3 then Value3(s[0], s[1], s[2]) else Value4(s[0], s[1], s[2], s[3])
  }

  function Decode(s: seq<Byte>): (cs: seq<Scalar>)
    requires IsUtf8(s)
    ensures Text(cs) == s
  {
    if s == [] then []
    else
      var n := CharLength(s);
      assert s == s[..n] + s[n..];
      [CharValue(s)] + Decode(s[n..])
  }

  // ---------------------------------------------------------------- the two sections agree

  lemma ThreeAreAChar(c: Scalar)
    requires 0x800 <= c < 0x10000
    ensures CharLength(Three(c)) == 3 && CharValue(Three(c)) == c
  {
    var high := c / 64;
    var top := high / 64;
    assert top == c / 4096 && high == top * 64 + high % 64 && top < 16;
    assert !IsSurrogate(c);
    assert top == 0 ==> high % 64 >= 0x20;
    assert top == 13 ==> high % 64 < 0x20;
    assert SecondOfThree(0xe0 + top, 0x80 + high % 64);
    assert Join(top, 0x80 + high % 64) == high;
    assert Join(high, 0x80 + c % 64) == c;
  }

  lemma FourAreAChar(c: Scalar)
    requires c >= 0x10000
    ensures CharLength(Four(c)) == 4 && CharValue(Four(c)) == c
  {
    var high := c / 64;
    var top := high / 64;
    assert top == c / 4096 && top / 64 == c / 262144 && top == top / 64 * 64 + top % 64;
    assert Join(top / 64, 0x80 + top % 64) == top;
    assert Join(top, 0x80 + high % 64) == high;
    assert Join(high, 0x80 + c % 64) == c;
  }

  lemma OctetsAreAChar(c: Scalar)
    ensures CharLength(Octets(c)) == |Octets(c)|
    ensures CharValue(Octets(c)) == c
  {
    if c >= 0x10000 {
      FourAreAChar(c);
    } else if c >= 0x800 {
      ThreeAreAChar(c);
    }
  }

  lemma FrontIsRecognised(c: Scalar, rest: seq<Byte>)
    ensures CharLength(Octets(c) + rest) == |Octets(c)|
    ensures CharValue(Octets(c) + rest) == c
  {
    OctetsAreAChar(c);
    var o := Octets(c);
    assert forall k :: 0 <= k < |o| ==> (o + rest)[k] == o[k];
  }

  /** Text has exactly one reading: encoding is injective and its image is the syntax of section 4. */
  lemma {:induction false} DecodeInvertsText(cs: seq<Scalar>)
    ensures IsUtf8(Text(cs)) && Decode(Text(cs)) == cs
  {
    if cs == [] {
    } else {
      var s := Text(cs);
      FrontIsRecognised(cs[0], Text(cs[1..]));
      assert s[|Octets(cs[0])|..] == Text(cs[1..]);
      DecodeInvertsText(cs[1..]);
    }
  }

  /** The syntax accepts exactly the encodings of scalar values, each from one sequence only. */
  lemma {:induction false} UniquelyDecodable(s: seq<Byte>)
    ensures IsUtf8(s) <==> exists cs :: Text(cs) == s
    ensures forall a: seq<Scalar>, b: seq<Scalar> :: Text(a) == s && Text(b) == s ==> a == b
  {
    if IsUtf8(s) {
      assert Text(Decode(s)) == s;
    }
    forall a: seq<Scalar> | Text(a) == s ensures IsUtf8(s) && a == Decode(s) {
      DecodeInvertsText(a);
    }
  }

  // ---------------------------------------------------------------- lxl_ghostty_utf8_validate

  /** The code point that the validator has assembled from the first `j` octets. */
  function Assembled(s: seq<Byte>, lead: nat, j: nat): nat
    requires 1 <= j <= |s|
  {
    if j == 1 then lead else Assembled(s, lead, j - 1) * 64 + s[j - 1] % 64
  }

  /** The lead octet's payload under the masks 0x1f, 0x0f and 0x07. */
  function LeadBits(c: Byte, n: nat): nat {
    if n == 2 then c % 32 else if n == 3 then c % 16 else c % 8
  }

  /** The length that the lead octet announces, by the masks 0xe0, 0xf0 and 0xf8; 0 if none. */
  function Announced(c: Byte): nat {
    if 0xc0 <= c < 0xe0 then 2 else if 0xe0 <= c < 0xf0 then 3 else if 0xf0 <= c < 0xf8 then 4 else 0
  }

  predicate Rejected(n: nat, cp: nat) {
    || (n == 2 && cp < 0x80) || (n == 3 && cp < 0x800) || (n == 4 && cp < 0x10000)
    || 0xd800 <= cp <= 0xdfff || cp > 0x10ffff
  }

  lemma {:induction false} TestsMatchSyntax3(s: seq<Byte>)
    requires |s| >= 3 && 0xe0 <= s[0] < 0xf0
    ensures CharLength(s)
              == if Tail(s[1]) && Tail(s[2]) && !Rejected(3, Assembled(s, LeadBits(s[0], 3), 3)) then 3 else 0
  {
    var lead := LeadBits(s[0], 3);
    assert Assembled(s, lead, 2) == lead * 64 + s[1] % 64;
    assert Assembled(s, lead, 3) == (lead * 64 + s[1] % 64) * 64 + s[2] % 64;
    assert lead == s[0] - 0xe0;
  }

  lemma {:induction false} TestsMatchSyntax4(s: seq<Byte>)
    requires |s| >= 4 && 0xf0 <= s[0] < 0xf8
    ensures CharLength(s) ==
              if Tail(s[1]) && Tail(s[2]) && Tail(s[3]) && !Rejected(4, Assembled(s, LeadBits(s[0], 4), 4))
              then 4 else 0
  {
    var lead := LeadBits(s[0], 4);
    assert Assembled(s, lead, 2) == lead * 64 + s[1] % 64;
    assert Assembled(s, lead, 3) == (lead * 64 + s[1] % 64) * 64 + s[2] % 64;
    assert Assembled(s, lead, 4) == ((lead * 64 + s[1] % 64) * 64 + s[2] % 64) * 64 + s[3] % 64;
    assert lead == s[0] - 0xf0;
  }

  /** The validator's arithmetic tests pass exactly on the octet ranges of section 4. */
  lemma {:induction false} TestsMatchSyntax(s: seq<Byte>, n: nat)
    requires s != [] && s[0] > 0x7f && n == Announced(s[0])
    ensures n == 0 || n > |s| ==> CharLength(s) == 0
    ensures n != 0 && n <= |s| ==>
              CharLength(s)
                == if (forall j :: 1 <= j < n ==> Tail(s[j])) && !Rejected(n, Assembled(s, LeadBits(s[0], n), n))
                               then n else 0
  {
    if n == 2 && n <= |s| {
      assert Assembled(s, LeadBits(s[0], n), 2) == LeadBits(s[0], n) * 64 + s[1] % 64;
    } else if n == 3 && n <= |s| {
      TestsMatchSyntax3(s);
    } else if n == 4 && n <= |s| {
      TestsMatchSyntax4(s);
    }
  }

  /** The octets after the lead: each must be a tail, and adds six bits. */
  method AssembleTail(s: seq<Byte>, i: nat, n: nat, lead: nat) returns (ok: bool, cp: nat)
    requires 1 <= n && i + n <= |s|
    ensures ok <==> forall k :: 1 <= k < n ==> Tail(s[i..][k])
    ensures ok ==> cp == Assembled(s[i..], lead, n)
  {
    cp := lead;
    for j := 1 to n
      invariant forall k :: 1 <= k < j ==> Tail(s[i..][k])
      invariant cp == Assembled(s[i..], lead, j)
    {
      assert s[i..][j] == s[i + j];
      if !Tail(s[i + j]) { return false, cp; }
      cp := cp * 64 + s[i + j] % 64;
    }
    return true, cp;
  }

  method Validate(s: seq<Byte>) returns (r: int)
    ensures r == if IsUtf8(s) then 1 else 0
  {
    var i := 0;
    while i < |s|
      invariant 0 <= i <= |s|
      invariant IsUtf8(s) <==> IsUtf8(s[i..])
    {
      ghost var rest := s[i..];
      var c := s[i];
      if c <= 0x7f {
        assert rest[1..] == s[i + 1..];
        i := i + 1;
        continue;
      }
      var n := Announced(c);
      TestsMatchSyntax(rest, n);
      if n == 0 { return 0; }
      var cp := LeadBits(c, n);
      if n == 2 && cp == 0 { return 0; }
      if i + n > |s| { return 0; }
      var ok;
      ok, cp := AssembleTail(s, i, n, cp);
      if !ok { return 0; }
      if (n == 2 && cp < 0x80) || (n == 3 && cp < 0x800) || (n == 4 && cp < 0x10000) { return 0; }
      if 0xd800 <= cp <= 0xdfff || cp > 0x10ffff { return 0; }
      assert rest[n..] == s[i + n..];
      i := i + n;
    }
    return 1;
  }

  // ---------------------------------------------------------------- lxl_ghostty_utf8_encode

  /** The octets the encoder writes; above 0x10FFFF it substitutes too late to pick the 3-byte form. */
  function Encoded(cp: CodePoint): (r: seq<Byte>)
    ensures 1 <= |r| <= 4
  {
    if cp <= 0x7f then [cp]
    else if cp <= 0x7ff then Two(cp)
    else
      var c := if IsSurrogate(cp) then REPLACEMENT else cp;
      if c <= 0xffff then Three(c)
      else Four(if c > 0x10ffff then REPLACEMENT else c)
  }

  /** What a reader of the encoder's output should see. */
  function Shown(cp: CodePoint): Scalar
    requires cp <= 0x10ffff
  {
    if IsSurrogate(cp) then REPLACEMENT else cp
  }

  lemma OverlongIsRefused()
    ensures Four(REPLACEMENT) == [0xf0, 0x8f, 0xbf, 0xbd] && !IsUtf8(Four(REPLACEMENT))
  {
    assert Four(REPLACEMENT) == [0xf0, 0x8f, 0xbf, 0xbd];
    assert CharLength(Four(REPLACEMENT)) == 0;
  }

  lemma EncodedIsOctets(cp: CodePoint)
    requires cp <= 0x10ffff
    ensures Encoded(cp) == Octets(Shown(cp))
  {
  }

  lemma OctetsAreUtf8(c: Scalar)
    ensures IsUtf8(Octets(c))
  {
    assert Text([c]) == Octets(c) by {
      assert [c][1..] == [];
      assert Octets(c) + [] == Octets(c);
    }
    DecodeInvertsText([c]);
  }

  /** The encoder writes well-formed UTF-8 exactly up to 0x10FFFF, and then the right scalar. */
  lemma EncoderIsCorrectExactlyInRange(cp: CodePoint)
    ensures cp <= 0x10ffff ==> Encoded(cp) == Octets(Shown(cp))
    ensures cp > 0x10ffff ==> Encoded(cp) == [0xf0, 0x8f, 0xbf, 0xbd]
    ensures IsUtf8(Encoded(cp)) <==> cp <= 0x10ffff
  {
    if cp <= 0x10ffff {
      EncodedIsOctets(cp);
      OctetsAreUtf8(Shown(cp));
    } else {
      assert Encoded(cp) == Four(REPLACEMENT);
      OverlongIsRefused();
    }
  }

  method WriteThree(c: CodePoint, out: array<Byte>, at: nat)
    requires at + 4 <= out.Length && c < 0x10000
    modifies out
    ensures out[at..at + 3] == Three(c)
    ensures out[..at] == old(out[..at]) && out[at + 4..] == old(out[at + 4..])
  {
    out[at] := 0xe0 + c / 4096;
    out[at + 1] := 0x80 + c / 64 % 64;
    out[at + 2] := 0x80 + c % 64;
  }

  method WriteFour(c: CodePoint, out: array<Byte>, at: nat)
    requires at + 4 <= out.Length && c <= 0x10ffff
    modifies out
    ensures out[at..at + 4] == Four(c)
    ensures out[..at] == old(out[..at]) && out[at + 4..] == old(out[at + 4..])
  {
    out[at] := 0xf0 + c / 262144;
    out[at + 1] := 0x80 + c / 4096 % 64;
    out[at + 2] := 0x80 + c / 64 % 64;
    out[at + 3] := 0x80 + c % 64;
  }

  method Encode(cp: CodePoint, out: array<Byte>, at: nat) returns (n: nat)
    requires at + 4 <= out.Length
    modifies out
    ensures n == |Encoded(cp)|
    ensures out[..at + n] == old(out[..at]) + Encoded(cp)
    ensures out[at + 4..] == old(out[at + 4..])
  {
    if cp <= 0x7f {
      out[at] := cp;
      return 1;
    }
    if cp <= 0x7ff {
      out[at] := 0xc0 + cp / 64;
      out[at + 1] := 0x80 + cp % 64;
      return 2;
    }
    var c := cp;
    if 0xd800 <= c <= 0xdfff { c := REPLACEMENT; }
    if c <= 0xffff {
      WriteThree(c, out, at);
      return 3;
    }
    if c > 0x10ffff { c := REPLACEMENT; }
    WriteFour(c, out, at);
    return 4;
  }

  // ---------------------------------------------------------------- the render loop

  function EncodedAll(cps: seq<CodePoint>): seq<Byte> {
    if cps == [] then [] else EncodedAll(cps[..|cps| - 1]) + Encoded(cps[|cps| - 1])
  }

  lemma EncodedSnoc(cps: seq<CodePoint>, i: nat)
    requires i < |cps|
    ensures EncodedAll(cps[..i + 1]) == EncodedAll(cps[..i]) + Encoded(cps[i])
  {
    TakeSnoc(cps, i);
  }

  /** Before each of the first `k` code points, four more octets fit. */
  ghost predicate Fits(cps: seq<CodePoint>, k: nat)
    requires k <= |cps|
  {
    forall m :: 0 <= m < k ==> |EncodedAll(cps[..m])| + 4 <= TEXT_BUFFER
  }

  lemma FitsOneMore(cps: seq<CodePoint>, k: nat)
    requires k < |cps| && Fits(cps, k) && |EncodedAll(cps[..k])| + 4 <= TEXT_BUFFER
    ensures Fits(cps, k + 1)
  {
  }

  /** `k` code points are what the loop takes: it stops only when four more octets might not fit. */
  ghost predicate Takes(cps: seq<CodePoint>, k: nat) {
    k <= |cps| && Fits(cps, k) && (k == |cps| || |EncodedAll(cps[..k])| + 4 > TEXT_BUFFER)
  }

  method RenderGrapheme(cps: seq<CodePoint>) returns (buf: array<Byte>, len: nat)
    ensures fresh(buf) && buf.Length == 256 && len <= 256
    ensures exists k: nat :: Takes(cps, k) && buf[..len] == EncodedAll(cps[..k])
  {
    buf := new Byte[TEXT_BUFFER](_ => NUL);
    len := 0;
    var i := 0;
    while i < |cps| && len + 4 <= TEXT_BUFFER
      invariant 0 <= i <= |cps| && len <= TEXT_BUFFER
      invariant buf[..len] == EncodedAll(cps[..i])
      invariant Fits(cps, i)
    {
      EncodedSnoc(cps, i);
      FitsOneMore(cps, i);
      var n := Encode(cps[i], buf, len);
      len := len + n;
      i := i + 1;
    }
    assert Takes(cps, i) && buf[..len] == EncodedAll(cps[..i]);
  }

  function ShownAll(cps: seq<CodePoint>): (r: seq<Scalar>)
    requires forall i :: 0 <= i < |cps| ==> cps[i] <= 0x10ffff
  {
    if cps == [] then []
    else ShownAll(cps[..|cps| - 1]) + [Shown(cps[|cps| - 1])]
  }

  lemma {:induction false} TextSnoc(cs: seq<Scalar>, c: Scalar)
    ensures Text(cs + [c]) == Text(cs) + Octets(c)
  {
    if cs == [] {
      assert cs + [c] == [c];
      assert Text([c]) == Octets(c) + Text([]);
    } else {
      assert (cs + [c])[1..] == cs[1..] + [c];
      TextSnoc(cs[1..], c);
    }
  }

  /** Encoding any code points up to 0x10FFFF validates, and reads back with surrogates as U+FFFD. */
  lemma {:induction false} EncodedTextReadsBack(cps: seq<CodePoint>)
    requires forall i :: 0 <= i < |cps| ==> cps[i] <= 0x10ffff
    ensures EncodedAll(cps) == Text(ShownAll(cps))
    ensures IsUtf8(EncodedAll(cps)) && Decode(EncodedAll(cps)) == ShownAll(cps)
  {
    if cps == [] {
    } else {
      var init, c := cps[..|cps| - 1], cps[|cps| - 1];
      EncodedTextReadsBack(init);
      EncoderIsCorrectExactlyInRange(c);
      TextSnoc(ShownAll(init), Shown(c));
    }
    DecodeInvertsText(ShownAll(cps));
  }
}
