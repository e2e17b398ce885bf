/**
  * The decoder's alphabet and grouping, against Table 1 and the 24-bit groups of section 4 of RFC 4648.
  */
module Base64Alphabet {
  import opened Bytes
  import opened Base64

  // Table 1.
  const UPPER: string := "ABCDEFGHIJKLMNOPQRSTUVWXYZ"
  const LOWER: string := "abcdefghijklmnopqrstuvwxyz"
  const DIGITS: string := "0123456789"
  const TABLE: string := UPPER + LOWER + DIGITS + "+/"

  lemma UpperSymbols(v: Sextet)
    requires v < 26
    ensures |UPPER| == 26 && Symbol(v) == UPPER[v] as int
  {
  }

  lemma LowerSymbols(v: Sextet)
    requires 26 <= v < 52
    ensures |LOWER| == 26 && Symbol(v) == LOWER[v - 26] as int
  {
  }

  lemma DigitSymbols(v: Sextet)
    requires 52 <= v < 62
    ensures |DIGITS| == 10 && Symbol(v) == DIGITS[v - 52] as int
  {
  }

  /** The character of a sextet, as Table 1 has it. */
  lemma SymbolIsInTable(v: Sextet)
    ensures |TABLE| == 64 && Symbol(v) == TABLE[v] as int
  {
    UpperSymbols(0);
    LowerSymbols(26);
    DigitSymbols(52);
    if v < 26 {
      UpperSymbols(v);
    } else if v < 52 {
      LowerSymbols(v);
    } else if v < 62 {
      DigitSymbols(v);
    }
  }

  predicate InTable(c: Byte) {
    exists v :: 0 <= v < |TABLE| && TABLE[v] as int == c
  }

  lemma SymbolOfValue(c: Byte)
    requires Value(c) >= 0
    ensures Symbol(Value(c)) == c
  {
  }

  /** A byte has a sextet exactly when it stands in Table 1, and the sextet is its only place there. */
  lemma ValueIsItsPlace(c: Byte)
    ensures Value(c) >= 0 <==> InTable(c)
    ensures forall v :: 0 <= v < |TABLE| && TABLE[v] as int == c ==> Value(c) == v
    ensures Value(c) >= 0 ==> |TABLE| == 64 && TABLE[Value(c)] as int == c
  {
    SymbolIsInTable(0);
    if Value(c) >= 0 {
      SymbolIsInTable(Value(c));
      SymbolOfValue(c);
    }
    forall v | 0 <= v < |TABLE| && TABLE[v] as int == c ensures Value(c) == v {
      SymbolIsInTable(v);
    }
  }

  // ---------------------------------------------------------------- the language and its sextets

  /** The six whitespace bytes of the C locale: tab to carriage return, and space. */
  predicate IsWhite(c: Byte) {
    c == 9 || c == 10 || c == 11 || c == 12 || c == 13 || c == 32
  }

  /** First the alphabet, then only `=`; whitespace anywhere. */
  ghost predicate IsText(s: seq<Byte>, k: nat)
    requires k <= |s|
  {
    && (forall i :: 0 <= i < k ==> InTable(s[i]) || IsWhite(s[i]))
    && (forall i :: k <= i < |s| ==> s[i] == 0x3d || IsWhite(s[i]))
  }

  lemma LanguageByTable(s: seq<Byte>)
    ensures InLanguage(s) <==> exists k :: 0 <= k <= |s| && IsText(s, k)
  {
    forall i | 0 <= i < |s| ensures InTable(s[i]) <==> Value(s[i]) >= 0 {
      ValueIsItsPlace(s[i]);
    }
    forall k | 0 <= k <= |s| ensures SplitsAt(s, k) <==> IsText(s, k) {
      assert forall i :: 0 <= i < |s| ==> (InTable(s[i]) <==> Value(s[i]) >= 0);
    }
  }

  /** The bytes of Table 1 in a text, in order. */
  ghost function Letters(s: seq<Byte>): seq<Byte> {
    if s == [] then []
    else Letters(s[..|s| - 1]) + if InTable(s[|s| - 1]) then [s[|s| - 1]] else []
  }

  /** The sextets of a text are the places of its letters in the table, in order. */
  lemma {:induction false} SextetsByTable(s: seq<Byte>)
    ensures |Sextets(s)| == |Letters(s)| && |TABLE| == 64
    ensures forall i :: 0 <= i < |Sextets(s)| ==> TABLE[Sextets(s)[i]] as int == Letters(s)[i]
  {
    SymbolIsInTable(0);
    if s == [] {
    } else {
      SextetsByTable(s[..|s| - 1]);
      ValueIsItsPlace(s[|s| - 1]);
    }
  }

  /** A query, `?`, is outside the language: it is refused and not decoded to nothing. */
  lemma QueryIsRefused(maxBytes: nat)
    ensures Decoded([0x3f], maxBytes) == None
  {
    assert [0x3f][0] == 0x3f;
  }

  // ---------------------------------------------------------------- groups as numbers

  lemma IndexOf(g: nat)
    ensures (3 * g) / 3 == g && (3 * g) % 3 == 0
    ensures (3 * g + 1) / 3 == g && (3 * g + 1) % 3 == 1
    ensures (3 * g + 2) / 3 == g && (3 * g + 2) % 3 == 2
  {
  }

  lemma OctetIndex(v: seq<Sextet>, g: nat)
    ensures 4 * g + 1 < |v| ==> 3 * g < |Groups(v)| && Groups(v)[3 * g] == First(v[4 * g], v[4 * g + 1])
    ensures 4 * g + 2 < |v| ==> 3 * g + 1 < |Groups(v)| && Groups(v)[3 * g + 1] == Second(v[4 * g + 1], v[4 * g + 2])
    ensures 4 * g + 3 < |v| ==> 3 * g + 2 < |Groups(v)| && Groups(v)[3 * g + 2] == Third(v[4 * g + 2], v[4 * g + 3])
  {
    IndexOf(g);
  }

  lemma GroupOctets(a: int, b: int, c: int, d: int)
    requires 0 <= a < 64 && 0 <= b < 64 && 0 <= c < 64 && 0 <= d < 64
    ensures var x: int, y: int, z: int := First(a, b), Second(b, c), Third(c, d);
            && x * 65536 + y * 256 + z == a * 262144 + b * 4096 + c * 64 + d
            && x == (a * 64 + b) / 16
            && x * 256 + y == (a * 4096 + b * 64 + c) / 4
  {
  }

  /** Four sextets and their three octets are the same 24-bit number. */
  lemma GroupIsNumber(v: seq<Sextet>, g: nat)
    requires 4 * g + 3 < |v|
    ensures |Groups(v)| >= 3 * g + 3
    ensures var x: int, y: int, z: int := Groups(v)[3 * g], Groups(v)[3 * g + 1], Groups(v)[3 * g + 2];
            var a: int, b: int, c: int, d: int := v[4 * g], v[4 * g + 1], v[4 * g + 2], v[4 * g + 3];
            x * 65536 + y * 256 + z == a * 262144 + b * 4096 + c * 64 + d
  {
    OctetIndex(v, g);
    GroupOctets(v[4 * g], v[4 * g + 1], v[4 * g + 2], v[4 * g + 3]);
  }

  /** One sextet left over gives no octet. */
  lemma TailOfOne(v: seq<Sextet>, g: nat)
    requires |v| == 4 * g || |v| == 4 * g + 1
    ensures |Groups(v)| == 3 * g
  {
  }

  /** Two sextets left over give one octet; the four bits that do not fill another are dropped. */
  lemma TailOfTwo(v: seq<Sextet>, g: nat)
    requires |v| == 4 * g + 2
    ensures |Groups(v)| == 3 * g + 1
    ensures var a: int, b: int := v[4 * g], v[4 * g + 1]; Groups(v)[3 * g] == (a * 64 + b) / 16
  {
    OctetIndex(v, g);
    GroupOctets(v[4 * g], v[4 * g + 1], 0, 0);
  }

  /** Three sextets left over give two octets; two bits are dropped. */
  lemma TailOfThree(v: seq<Sextet>, g: nat)
    requires |v| == 4 * g + 3
    ensures |Groups(v)| == 3 * g + 2
    ensures var a: int, b: int, c: int := v[4 * g], v[4 * g + 1], v[4 * g + 2];
            var x: int, y: int := Groups(v)[3 * g], Groups(v)[3 * g + 1];
            x * 256 + y == (a * 4096 + b * 64 + c) / 4
  {
    OctetIndex(v, g);
    GroupOctets(v[4 * g], v[4 * g + 1], v[4 * g + 2], 0);
  }

  lemma SymbolsAreNotPadding(v: seq<Sextet>, i: nat)
    requires i < |v|
    ensures Symbols(v)[i] != 0x3d
  {
    assert Symbols(v)[i] == Symbol(v[i]) && Value(Symbol(v[i])) == v[i];
  }

  lemma PaddedLength(n: nat)
    ensures (n * 8 + 5) / 6 + |Padding(n)| == (n + 2) / 3 * 4
    ensures |Padding(n)| == 2 - (n + 2) % 3
  {
    var q, r := n / 3, n % 3;
    assert n == 3 * q + r;
    assert (n + 2) / 3 == if r == 0 then q else q + 1;
    assert (n * 8 + 5) / 6 == if r == 0 then 4 * q else if r == 1 then 4 * q + 2 else 4 * q + 3;
  }

  /** The encoding has four characters for every three octets begun, and `=` for each octet missing. */
  lemma EncodingIsPadded(b: seq<Byte>)
    ensures |Encode(b)| == (|b| + 2) / 3 * 4
    ensures forall i :: 0 <= i < |Encode(b)| ==> (Encode(b)[i] == 0x3d <==> i >= |Encode(b)| - (2 - (|b| + 2) % 3))
  {
    PaddedLength(|b|);
    var v, pad := ToSextets(b), Padding(|b|);
    assert forall i :: 0 <= i < |pad| ==> pad[i] == 0x3d;
    forall i | 0 <= i < |Encode(b)| ensures Encode(b)[i] == 0x3d <==> i >= |v| {
      if i < |v| { SymbolsAreNotPadding(v, i); }
    }
  }
}
