/**
  * The base64 decoder of the OSC observer, against section 4 of RFC 4648.
  *
  * The decoder keeps a 32-bit accumulator that is never masked, so it overflows on
  * every input longer than five characters. The reference below has no accumulator:
  * it cuts the sextets into groups of four, as the RFC does.
  */
module Base64 {
  import opened Bytes

  type Sextet = v: int | 0 <= v < 64

  const PAD: Byte := 0x3d
  const WORD: int := 0x1_0000_0000

  /** `uint32_t`. */
  type Word = w: int | 0 <= w < 0x1_0000_0000

  /** A character's sextet, or -2 for padding, -3 for whitespace, -1 for anything else. */
  function Value(c: Byte): (v: int)
    ensures -3 <= v < 64
    ensures v == -2 <==> c == PAD
    ensures v == -3 <==> IsSpace(c)
  {
    if 0x41 <= c <= 0x5a then c - 0x41
    else if 0x61 <= c <= 0x7a then c - 0x61 + 26
    else if 0x30 <= c <= 0x39 then c - 0x30 + 52
    else if c == 0x2b then 62
    else if c == 0x2f then 63
    else if c == PAD then -2
    else if IsSpace(c) then -3
    else -1
  }

  // ---------------------------------------------------------------- reference

  ghost predicate SplitsAt(s: seq<Byte>, k: nat)
    requires k <= |s|
  {
    && (forall i :: 0 <= i < k ==> Value(s[i]) >= 0 || Value(s[i]) == -3)
    && (forall i :: k <= i < |s| ==> Value(s[i]) == -2 || Value(s[i]) == -3)
  }

  /** The accepted language: alphabet and whitespace, then only padding and whitespace. */
  ghost predicate InLanguage(s: seq<Byte>) {
    exists k :: 0 <= k <= |s| && SplitsAt(s, k)
  }

  /** The sextets of the alphabet characters, in order. */
  function Sextets(s: seq<Byte>): (r: seq<Sextet>)
    ensures |r| <= |s|
  {
    if s == [] then []
    else
      var v := Value(s[|s| - 1]);
      Sextets(s[..|s| - 1]) + if v >= 0 then [v] else []
  }

  lemma {:induction false} SextetsSnoc(s: seq<Byte>, c: Byte)
    ensures Sextets(s + [c]) == Sextets(s) + if Value(c) >= 0 then [Value(c)] else []
  {
    assert (s + [c])[..|s|] == s;
  }

  // The three octets of a group of sextets a, b, c, d.

  function First(a: Sextet, b: Sextet): Byte { a * 4 + b / 16 }

  function Second(b: Sextet, c: Sextet): Byte { b % 16 * 16 + c / 4 }

  function Third(c: Sextet, d: Sextet): Byte { c % 4 * 64 + d }

  function OctetAt(v: seq<Sextet>, k: nat): Byte
    requires k < |v| * 6 / 8
  {
    var g := k / 3 * 4;
    match k % 3
    case 0 => First(v[g], v[g + 1])
    case 1 => Second(v[g + 1], v[g + 2])
    case _ => Third(v[g + 2], v[g + 3])
  }

  /** Section 4 of RFC 4648: four sextets make three octets, and the last group may be shorter. */
  function Groups(v: seq<Sextet>): (r: seq<Byte>)
    ensures |r| == |v| * 6 / 8
  {
    seq(|v| * 6 / 8, k requires 0 <= k < |v| * 6 / 8 => OctetAt(v, k))
  }

  /** The octets that an accepted text stands for. */
  ghost function Meaning(s: seq<Byte>): Option<seq<Byte>> {
    if InLanguage(s) then Some(Groups(Sextets(s))) else None
  }

  /** What decoding returns: the meaning, if there is one and it fits. */
  ghost function Decoded(s: seq<Byte>, maxBytes: nat): Option<seq<Byte>> {
    var m := Meaning(s);
    if m.Some? && |m.value| <= maxBytes then m else None
  }

  // ---------------------------------------------------------------- the streaming decoder

  /** The octet that one more sextet completes, given how many came before and the last of them. */
  function Completed(count: nat, last: Sextet, v: Sextet): (r: seq<Byte>) {
    match count % 4
    case 0 => []
    case 1 => [First(last, v)]
    case 2 => [Second(last, v)]
    case _ => [Third(last, v)]
  }

  lemma OctetCount(n: nat)
    ensures n * 6 / 8 == n / 4 * 3 + if n % 4 == 0 then 0 else n % 4 - 1
  {
    var q := n / 4;
    assert n == 4 * q + n % 4;
  }

  lemma OctetOfGroup(v: seq<Sextet>, k: nat)
    requires k < |v| * 6 / 8
    ensures var q := k / 3;
            OctetAt(v, k) == if k == 3 * q then First(v[4 * q], v[4 * q + 1])
                             else if k == 3 * q + 1 then Second(v[4 * q + 1], v[4 * q + 2])
                             else Third(v[4 * q + 2], v[4 * q + 3])
  {
  }

  /** The octet that the sextet `v` completes stands behind those that `s` gives. */
  lemma LastOctet(s: seq<Sextet>, v: Sextet)
    ensures var done := Completed(|s|, if s == [] then 0 else s[|s| - 1], v);
            && |s + [v]| * 6 / 8 == |s| * 6 / 8 + |done|
            && (done != [] ==> OctetAt(s + [v], |s| * 6 / 8) == done[0])
  {
    OctetCount(|s|);
    OctetCount(|s| + 1);
    var t := s + [v];
    if |s| % 4 != 0 {
      assert t[|s| - 1] == s[|s| - 1] && t[|s|] == v;
      OctetOfGroup(t, |s| * 6 / 8);
    }
  }

  lemma OctetIsStable(s: seq<Sextet>, v: Sextet, k: nat)
    requires k < |s| * 6 / 8
    ensures OctetAt(s + [v], k) == OctetAt(s, k)
  {
  }

  lemma GroupsSnoc(s: seq<Sextet>, v: Sextet)
    ensures Groups(s + [v]) == Groups(s) + Completed(|s|, if s == [] then 0 else s[|s| - 1], v)
  {
    var n := |s| * 6 / 8;
    LastOctet(s, v);
    forall k | 0 <= k < n ensures Groups(s + [v])[k] == Groups(s)[k] {
      OctetIsStable(s, v, k);
    }
  }

  /** The bits of the accumulator that have not been written out yet. */
  function Width(count: nat): nat {
    match count % 4
    case 0 => 0
    case 1 => 6
    case 2 => 4
    case _ => 2
  }

  /** `x >> n`. */
  function ShiftRight(x: nat, n: nat): nat
    decreases n
  {
    if n == 0 then x else ShiftRight(x / 2, n - 1)
  }

  lemma {:induction false} ShiftRightValues(x: nat)
    ensures ShiftRight(x, 0) == x && ShiftRight(x, 2) == x / 4 && ShiftRight(x, 4) == x / 16
  {
    assert ShiftRight(x, 2) == ShiftRight(x / 2, 1) == ShiftRight(x / 2 / 2, 0);
    assert ShiftRight(x, 4) == ShiftRight(x / 2, 3) == ShiftRight(x / 2 / 2, 2) == ShiftRight(x / 2 / 2 / 2, 1);
  }

  /** `(acc << 6) | v` on an unsigned 32-bit word. */
  function Shifted(acc: Word, v: Sextet): Word {
    acc * 64 % WORD + v
  }

  /** The accumulator still ends in the last sextet, after which its upper bits are rubbish. */
  predicate EndsIn(acc: Word, v: Sextet) {
    acc % 64 == v
  }

  lemma LowSextet(r: int, q: int, v: Sextet)
    requires r == 64 * q + v
    ensures r % 64 == v
  {
  }

  lemma LowOctet(x: int, q: int, o: Byte)
    requires x == 256 * q + o
    ensures x % 256 == o
  {
  }

  lemma ThirdOctet(r: int, top: int, last: Sextet, v: Sextet)
    requires r == 4096 * top + 64 * last + v
    ensures r % 256 == Third(last, v)
  {
    assert last == 4 * (last / 4) + last % 4;
    LowOctet(r, 16 * top + last / 4, Third(last, v));
  }

  lemma Quotient(r: int, d: int, q: int, m: int)
    requires (d == 4 || d == 16) && 0 <= m < d
    requires d == 4 ==> r == 4 * q + m
    requires d == 16 ==> r == 16 * q + m
    ensures r / d == q
  {
  }

  lemma FirstOctet(r: int, top: int, last: Sextet, v: Sextet)
    requires r == 4096 * top + 64 * last + v
    ensures r / 16 % 256 == First(last, v)
  {
    Quotient(r, 16, 256 * top + 4 * last + v / 16, v % 16);
    LowOctet(r / 16, top, First(last, v));
  }

  lemma SecondOctet(r: int, top: int, last: Sextet, v: Sextet)
    requires r == 4096 * top + 64 * last + v
    ensures r / 4 % 256 == Second(last, v)
  {
    Quotient(r, 4, 1024 * top + 16 * last + v / 4, v % 4);
    LowOctet(r / 4, 4 * top + last / 16, Second(last, v));
  }

  lemma TailOctets(r: int, top: int, last: Sextet, v: Sextet)
    requires r == 4096 * top + 64 * last + v
    ensures r % 64 == v
    ensures r / 16 % 256 == First(last, v)
    ensures r / 4 % 256 == Second(last, v)
    ensures r % 256 == Third(last, v)
  {
    LowSextet(r, 64 * top + last, v);
    FirstOctet(r, top, last, v);
    SecondOctet(r, top, last, v);
    ThirdOctet(r, top, last, v);
  }

  /** acc * 64 and its wrapped value differ by a multiple of 2^32, which is 4096 * 2^20. */
  lemma ShiftTail(acc: Word, last: Sextet, v: Sextet)
    requires EndsIn(acc, last)
    ensures EndsIn(Shifted(acc, v), v)
    ensures Shifted(acc, v) / 16 % 256 == First(last, v)
    ensures Shifted(acc, v) / 4 % 256 == Second(last, v)
    ensures Shifted(acc, v) % 256 == Third(last, v)
  {
    var top := acc / 64 - 0x10_0000 * (acc * 64 / WORD);
    assert Shifted(acc, v) == 4096 * top + 64 * last + v;
    TailOctets(Shifted(acc, v), top, last, v);
  }

  /** The decoder's variables, or the fact that it has given up. */
  datatype Scan = Reading(acc: Word, bits: nat, out: seq<Byte>, padded: bool) | Rejected

  function Step(st: Scan, c: Byte, maxBytes: nat): Scan {
    if st.Rejected? then st
    else
      var v := Value(c);
      if v == -3 then st
      else if v == -1 || (v >= 0 && st.padded) then Rejected
      else if v == -2 then st.(padded := true)
      else
        var acc := Shifted(st.acc, v);
        if st.bits + 6 < 8 then st.(acc := acc, bits := st.bits + 6)
        else if |st.out| >= maxBytes then Rejected
        else st.(acc := acc, bits := st.bits - 2, out := st.out + [ShiftRight(acc, st.bits - 2) % 256])
  }

  function Run(s: seq<Byte>, maxBytes: nat): Scan {
    if s == [] then Reading(0, 0, [], false) else Step(Run(s[..|s| - 1], maxBytes), s[|s| - 1], maxBytes)
  }

  // ---------------------------------------------------------------- the decoder computes the reference

  ghost predicate HasPadding(s: seq<Byte>) {
    exists j :: 0 <= j < |s| && Value(s[j]) == -2
  }

  /** `padded` records whether the prefix held a padding character. */
  ghost predicate Scanned(p: seq<Byte>, padded: bool) {
    if padded then InLanguage(p) && HasPadding(p) else SplitsAt(p, |p|)
  }

  lemma Extend(s: seq<Byte>, c: Byte)
    requires InLanguage(s) && (Value(c) == -2 || Value(c) == -3)
    ensures InLanguage(s + [c])
  {
    var k :| 0 <= k <= |s| && SplitsAt(s, k);
    assert forall j :: 0 <= j < |s| ==> (s + [c])[j] == s[j];
    assert SplitsAt(s + [c], k);
  }

  lemma ScanStep(p: seq<Byte>, c: Byte, padded: bool)
    requires Scanned(p, padded)
    ensures Value(c) == -3 ==> Scanned(p + [c], padded)
    ensures Value(c) == -2 ==> Scanned(p + [c], true)
    ensures Value(c) >= 0 && !padded ==> Scanned(p + [c], false)
    ensures Value(c) == -1 || (padded && Value(c) >= 0) ==> !InLanguage(p + [c])
  {
    var q := p + [c];
    assert forall j :: 0 <= j < |p| ==> q[j] == p[j];
    assert q[|p|] == c;
    if !padded { assert SplitsAt(p, |p|); }
    if Value(c) == -2 || Value(c) == -3 {
      Extend(p, c);
    }
  }

  /** The accumulator after the sextets `sx`: only its pending low bits are determined. */
  ghost predicate Accumulated(sx: seq<Sextet>, acc: Word, bits: int) {
    && bits == Width(|sx|)
    && (sx != [] ==> EndsIn(acc, sx[|sx| - 1]))
  }

  lemma WidthStep(count: nat)
    ensures count % 4 == 0 ==> Width(count) == 0 && Width(count + 1) == 6
    ensures count % 4 == 1 ==> Width(count) == 6 && Width(count + 1) == 4
    ensures count % 4 == 2 ==> Width(count) == 4 && Width(count + 1) == 2
    ensures count % 4 == 3 ==> Width(count) == 2 && Width(count + 1) == 0
  {
  }

  lemma CompletedByWidth(count: nat, acc: Word, last: Sextet, v: Sextet)
    requires acc / 16 % 256 == First(last, v) && acc / 4 % 256 == Second(last, v) && acc % 256 == Third(last, v)
    ensures var bits := Width(count);
            && Width(count + 1) == (if bits + 6 >= 8 then bits - 2 else bits + 6)
            && Completed(count, last, v) == if bits + 6 >= 8 then [ShiftRight(acc, bits - 2) % 256] else []
  {
    WidthStep(count);
    ShiftRightValues(acc);
  }

  /** One more sextet completes an octet exactly when it brings eight pending bits together. */
  lemma CompletedIsShifted(count: nat, acc: Word, last: Sextet, v: Sextet)
    requires EndsIn(acc, last)
    ensures EndsIn(Shifted(acc, v), v)
    ensures var bits := Width(count);
            && Width(count + 1) == (if bits + 6 >= 8 then bits - 2 else bits + 6)
            && Completed(count, last, v) == if bits + 6 >= 8 then [ShiftRight(Shifted(acc, v), bits - 2) % 256] else []
  {
    ShiftTail(acc, last, v);
    CompletedByWidth(count, Shifted(acc, v), last, v);
  }

  lemma Accumulate(sx: seq<Sextet>, acc: Word, bits: int, v: Sextet)
    requires Accumulated(sx, acc, bits)
    ensures var acc' := Shifted(acc, v);
            var bits' := if bits + 6 >= 8 then bits - 2 else bits + 6;
            && Accumulated(sx + [v], acc', bits')
            && Groups(sx + [v]) == Groups(sx) + if bits + 6 >= 8 then [ShiftRight(acc', bits') % 256] else []
  {
    var last := if sx == [] then acc % 64 else sx[|sx| - 1];
    GroupsSnoc(sx, v);
    CompletedIsShifted(|sx|, acc, last, v);
  }

  /** What the scan `st` says about the prefix `s` is true. */
  ghost predicate Faithful(s: seq<Byte>, st: Scan, maxBytes: nat) {
    if st.Reading? then
      && Scanned(s, st.padded)
      && Accumulated(Sextets(s), st.acc, st.bits)
      && st.out == Groups(Sextets(s)) && |st.out| <= maxBytes
    else Decoded(s, maxBytes) == None
  }

  lemma FillerIsFaithful(p: seq<Byte>, c: Byte, st: Scan, maxBytes: nat)
    requires Faithful(p, st, maxBytes) && st.Reading? && (Value(c) < 0 || st.padded)
    ensures Faithful(p + [c], Step(st, c, maxBytes), maxBytes)
  {
    ScanStep(p, c, st.padded);
    SextetsSnoc(p, c);
  }

  lemma SextetIsFaithful(p: seq<Byte>, c: Byte, st: Scan, maxBytes: nat)
    requires Faithful(p, st, maxBytes) && st.Reading? && Value(c) >= 0 && !st.padded
    ensures Faithful(p + [c], Step(st, c, maxBytes), maxBytes)
  {
    ScanStep(p, c, false);
    SextetsSnoc(p, c);
    Accumulate(Sextets(p), st.acc, st.bits, Value(c));
  }

  lemma PrefixInLanguage(t: seq<Byte>, c: Byte)
    requires InLanguage(t + [c])
    ensures InLanguage(t)
  {
    var k :| 0 <= k <= |t + [c]| && SplitsAt(t + [c], k);
    var m := if k <= |t| then k else |t|;
    assert forall i :: 0 <= i < |t| ==> (t + [c])[i] == t[i];
    assert SplitsAt(t, m);
  }

  lemma RefusalIsFinal(p: seq<Byte>, c: Byte, maxBytes: nat)
    requires Decoded(p, maxBytes) == None
    ensures Decoded(p + [c], maxBytes) == None
  {
    if InLanguage(p + [c]) {
      PrefixInLanguage(p, c);
      SextetsSnoc(p, c);
    }
  }

  lemma {:induction false} RunIsFaithful(s: seq<Byte>, maxBytes: nat)
    ensures Faithful(s, Run(s, maxBytes), maxBytes)
  {
    if s == [] {
    } else {
      var p, c := s[..|s| - 1], s[|s| - 1];
      assert s == p + [c];
      RunIsFaithful(p, maxBytes);
      var st := Run(p, maxBytes);
      if st.Rejected? {
        RefusalIsFinal(p, c, maxBytes);
      } else if Value(c) < 0 || st.padded {
        FillerIsFaithful(p, c, st, maxBytes);
      } else {
        SextetIsFaithful(p, c, st, maxBytes);
      }
    }
  }

  lemma {:induction false} RunIsDecoded(s: seq<Byte>, maxBytes: nat)
    ensures var st := Run(s, maxBytes);
            Decoded(s, maxBytes) == if st.Reading? then Some(st.out) else None
  {
    RunIsFaithful(s, maxBytes);
    var st := Run(s, maxBytes);
    if st.Reading? && !st.padded {
      assert SplitsAt(s, |s|);
    }
  }

  // ---------------------------------------------------------------- b64_decode

  /** Once the scan has given up on a prefix, the whole input has no decoding. */
  lemma {:induction false} RejectionIsFinal(s: seq<Byte>, i: nat, maxBytes: nat)
    requires i <= |s| && Run(s[..i], maxBytes).Rejected?
    ensures Run(s, maxBytes).Rejected? && Decoded(s, maxBytes) == None
    decreases |s| - i
  {
    if i < |s| {
      TakeSnoc(s, i);
      RejectionIsFinal(s, i + 1, maxBytes);
    } else {
      assert s[..i] == s;
      RunIsDecoded(s, maxBytes);
    }
  }

  /** What the next character does; a refusal is final. */
  lemma {:induction false} RunSnoc(input: seq<Byte>, i: nat, maxBytes: nat)
    requires i < |input|
    ensures var st := Run(input[..i + 1], maxBytes);
            st == Step(Run(input[..i], maxBytes), input[i], maxBytes)
            && (st.Rejected? ==> Decoded(input, maxBytes) == None)
  {
    TakeSnoc(input, i);
    if Run(input[..i + 1], maxBytes).Rejected? {
      RejectionIsFinal(input, i + 1, maxBytes);
    }
  }

  /** The bytes allocated for the decoding of `n` characters, beside the NUL. */
  function Allocation(n: nat, maxBytes: nat): nat {
    var cap := (n / 4 + 1) * 3;
    if cap > maxBytes + 3 then maxBytes + 3 else cap
  }

  /** The allocation suffices for every octet, and leaves room for the terminating NUL. */
  lemma {:induction false} OctetsFit(input: seq<Byte>, i: nat, maxBytes: nat)
    requires i <= |input|
    ensures var st := Run(input[..i], maxBytes);
            st.Reading? ==> |st.out| <= maxBytes && |st.out| <= Allocation(|input|, maxBytes)
  {
    RunIsFaithful(input[..i], maxBytes);
  }

  /** `b64_decode`: `buf` is allocated once, from the input length alone. */
  method Decode(input: seq<Byte>, maxBytes: nat) returns (r: Option<seq<Byte>>)
    ensures r == Decoded(input, maxBytes)
  {
    var cap := (|input| / 4 + 1) * 3;
    if cap > maxBytes + 3 { cap := maxBytes + 3; }
    var buf := new Byte[cap + 1](_ => NUL);
    var acc: Word, bits: nat, n, padded := 0, 0, 0, false;
    ghost var out: seq<Byte> := [];
    for i := 0 to |input|
      invariant n <= cap == Allocation(|input|, maxBytes) && buf[..n] == out
      invariant Run(input[..i], maxBytes) == Reading(acc, bits, out, padded)
    {
      RunSnoc(input, i, maxBytes);
      OctetsFit(input, i + 1, maxBytes);
      var v := Value(input[i]);
      if v == -3 { continue; }
      if v == -1 { return None; }
      if v == -2 { padded := true; continue; }
      if padded { return None; }
      acc := Shifted(acc, v);
      bits := bits + 6;
      if bits >= 8 {
        bits := bits - 8;
        if n >= maxBytes { return None; }
        buf[n] := ShiftRight(acc, bits) % 256;
        out := out + [buf[n]];
        n := n + 1;
      }
    }
    assert input[..|input|] == input;
    RunIsDecoded(input, maxBytes);
    buf[n] := NUL;
    return Some(buf[..n]);
  }

  // ---------------------------------------------------------------- round trip

  function OctetOrZero(b: seq<Byte>, i: nat): Byte {
    if i < |b| then b[i] else 0
  }

  function SextetAt(b: seq<Byte>, j: nat): Sextet {
    var g := j / 4 * 3;
    match j % 4
    case 0 => OctetOrZero(b, g) / 4
    case 1 => OctetOrZero(b, g) % 4 * 16 + OctetOrZero(b, g + 1) / 16
    case 2 => OctetOrZero(b, g + 1) % 16 * 4 + OctetOrZero(b, g + 2) / 64
    case _ => OctetOrZero(b, g + 2) % 64
  }

  /** Section 4 of RFC 4648, encoding: three octets make four sextets, zero bits fill the last. */
  function ToSextets(b: seq<Byte>): (r: seq<Sextet>)
    ensures |r| == (|b| * 8 + 5) / 6
    ensures forall j :: 0 <= j < |r| ==> r[j] == SextetAt(b, j)
  {
    seq((|b| * 8 + 5) / 6, j requires 0 <= j => SextetAt(b, j))
  }

  lemma SextetsOfGroup(b: seq<Byte>, q: nat)
    ensures var x, y, z := OctetOrZero(b, 3 * q), OctetOrZero(b, 3 * q + 1), OctetOrZero(b, 3 * q + 2);
            && SextetAt(b, 4 * q) == x / 4
            && SextetAt(b, 4 * q + 1) == x % 4 * 16 + y / 16
            && SextetAt(b, 4 * q + 2) == y % 16 * 4 + z / 64
            && SextetAt(b, 4 * q + 3) == z % 64
  {
    assert (4 * q) / 4 == q && (4 * q) % 4 == 0;
    assert (4 * q + 1) / 4 == q && (4 * q + 1) % 4 == 1;
    assert (4 * q + 2) / 4 == q && (4 * q + 2) % 4 == 2;
    assert (4 * q + 3) / 4 == q && (4 * q + 3) % 4 == 3;
  }

  lemma Regroup(x: Byte, y: Byte, z: Byte)
    ensures First(x / 4, x % 4 * 16 + y / 16) == x
    ensures Second(x % 4 * 16 + y / 16, y % 16 * 4 + z / 64) == y
    ensures Third(y % 16 * 4 + z / 64, z % 64) == z
  {
  }

  /** The sextets of `v` for group `q`, as far as `v` goes, carry the octets x, y, z. */
  predicate Carries(v: seq<Sextet>, q: nat, x: Byte, y: Byte, z: Byte) {
    && (4 * q < |v| ==> v[4 * q] == x / 4)
    && (4 * q + 1 < |v| ==> v[4 * q + 1] == x % 4 * 16 + y / 16)
    && (4 * q + 2 < |v| ==> v[4 * q + 2] == y % 16 * 4 + z / 64)
    && (4 * q + 3 < |v| ==> v[4 * q + 3] == z % 64)
  }

  lemma EncodingCarries(b: seq<Byte>, q: nat)
    ensures Carries(ToSextets(b), q, OctetOrZero(b, 3 * q), OctetOrZero(b, 3 * q + 1), OctetOrZero(b, 3 * q + 2))
  {
    SextetsOfGroup(b, q);
  }

  lemma GroupIndex(q: nat, r: nat, n: nat)
    requires r < 3 && 3 * q + r < n * 6 / 8
    ensures (3 * q + r) / 3 == q && (3 * q + r) % 3 == r && 4 * q + r + 1 < n
  {
  }

  lemma OctetBySextets(v: seq<Sextet>, q: nat, r: nat, a: Sextet, b: Sextet, c: Sextet, d: Sextet)
    requires r < 3 && 3 * q + r < |v| * 6 / 8
    requires (4 * q < |v| ==> v[4 * q] == a) && (4 * q + 1 < |v| ==> v[4 * q + 1] == b)
    requires (4 * q + 2 < |v| ==> v[4 * q + 2] == c) && (4 * q + 3 < |v| ==> v[4 * q + 3] == d)
    ensures OctetAt(v, 3 * q + r) == if r == 0 then First(a, b) else if r == 1 then Second(b, c) else Third(c, d)
  {
    GroupIndex(q, r, |v|);
  }

  lemma CarriedOctet(v: seq<Sextet>, q: nat, r: nat, x: Byte, y: Byte, z: Byte)
    requires r < 3 && 3 * q + r < |v| * 6 / 8 && Carries(v, q, x, y, z)
    ensures OctetAt(v, 3 * q + r) == if r == 0 then x else if r == 1 then y else z
  {
    Regroup(x, y, z);
    OctetBySextets(v, q, r, x / 4, x % 4 * 16 + y / 16, y % 16 * 4 + z / 64, z % 64);
  }

  lemma EncodedLength(b: seq<Byte>)
    ensures |ToSextets(b)| * 6 / 8 == |b|
  {
  }

  lemma OctetReturns(b: seq<Byte>, q: nat, r: nat)
    requires r < 3 && 3 * q + r < |b|
    ensures |ToSextets(b)| * 6 / 8 == |b| && OctetAt(ToSextets(b), 3 * q + r) == b[3 * q + r]
  {
    EncodedLength(b);
    EncodingCarries(b, q);
    CarriedOctet(ToSextets(b), q, r, OctetOrZero(b, 3 * q), OctetOrZero(b, 3 * q + 1), OctetOrZero(b, 3 * q + 2));
  }

  lemma GroupsInvertToSextets(b: seq<Byte>)
    ensures Groups(ToSextets(b)) == b
  {
    forall k | 0 <= k < |b| ensures Groups(ToSextets(b))[k] == b[k] {
      assert k == 3 * (k / 3) + k % 3;
      OctetReturns(b, k / 3, k % 3);
    }
  }

  function Symbol(v: Sextet): (c: Byte)
    ensures Value(c) == v
  {
    if v < 26 then v + 0x41
    else if v < 52 then v - 26 + 0x61
    else if v < 62 then v - 52 + 0x30
    else if v == 62 then 0x2b
    else 0x2f
  }

  function Symbols(v: seq<Sextet>): (s: seq<Byte>)
    ensures |s| == |v|
    ensures forall i :: 0 <= i < |v| ==> s[i] == Symbol(v[i])
  {
    seq(|v|, i requires 0 <= i < |v| => Symbol(v[i]))
  }

  lemma {:induction false} SymbolsMean(v: seq<Sextet>)
    ensures Sextets(Symbols(v)) == v
  {
    if v == [] {
    } else {
      var init, last := v[..|v| - 1], v[|v| - 1];
      SymbolsMean(init);
      assert Symbols(v) == Symbols(init) + [Symbol(last)];
      SextetsSnoc(Symbols(init), Symbol(last));
    }
  }

  function Padding(n: nat): seq<Byte> {
    if n % 3 == 0 then [] else if n % 3 == 1 then [PAD, PAD] else [PAD]
  }

  /** The standard encoding, padded to a multiple of four characters. */
  function Encode(b: seq<Byte>): seq<Byte> {
    Symbols(ToSextets(b)) + Padding(|b|)
  }

  function StripSpace(s: seq<Byte>): (r: seq<Byte>) {
    if s == [] then []
    else StripSpace(s[..|s| - 1]) + if IsSpace(s[|s| - 1]) then [] else [s[|s| - 1]]
  }

  /** Which strings one more character keeps in the language. */
  lemma LanguageSnoc(s: seq<Byte>, c: Byte)
    ensures HasPadding(s + [c]) <==> HasPadding(s) || Value(c) == -2
    ensures InLanguage(s + [c]) <==>
      InLanguage(s) && (Value(c) == -2 || Value(c) == -3 || (Value(c) >= 0 && !HasPadding(s)))
  {
    var t := s + [c];
    assert forall j :: 0 <= j < |s| ==> t[j] == s[j];
    assert t[|s|] == c;
    if Value(c) == -2 || Value(c) == -3 {
      if InLanguage(s) { Extend(s, c); }
    } else if InLanguage(s) && Value(c) >= 0 && !HasPadding(s) {
      assert SplitsAt(s, |s|);
      assert SplitsAt(t, |t|);
    }
    if InLanguage(t) {
      PrefixInLanguage(s, c);
    }
  }

  /** Whitespace may stand anywhere: it changes neither acceptance nor the sextets. */
  lemma {:induction false} SpaceIsTransparent(s: seq<Byte>)
    ensures Sextets(StripSpace(s)) == Sextets(s)
    ensures HasPadding(StripSpace(s)) == HasPadding(s)
    ensures InLanguage(StripSpace(s)) == InLanguage(s)
  {
    if s == [] {
    } else {
      var init, c := s[..|s| - 1], s[|s| - 1];
      SpaceIsTransparent(init);
      assert s == init + [c];
      LanguageSnoc(init, c);
      SextetsSnoc(init, c);
      if IsSpace(c) {
        assert StripSpace(s) == StripSpace(init);
      } else {
        assert StripSpace(s) == StripSpace(init) + [c];
        LanguageSnoc(StripSpace(init), c);
        SextetsSnoc(StripSpace(init), c);
      }
    }
  }

  lemma {:induction false} SextetsIgnorePadding(s: seq<Byte>, p: seq<Byte>)
    requires forall c :: c in p ==> c == PAD
    ensures Sextets(s + p) == Sextets(s)
  {
    if p == [] {
      assert s + p == s;
    } else {
      var init := p[..|p| - 1];
      assert forall c :: c in init ==> c in p;
      SextetsIgnorePadding(s, init);
      assert p[|p| - 1] in p;
      assert s + p == (s + init) + [PAD];
      SextetsSnoc(s + init, PAD);
    }
  }

  lemma {:induction false} PaddedSymbols(v: seq<Sextet>, p: seq<Byte>)
    requires forall c :: c in p ==> c == PAD
    ensures InLanguage(Symbols(v) + p)
    ensures Sextets(Symbols(v) + p) == v
  {
    var s := Symbols(v);
    SymbolsMean(v);
    SextetsIgnorePadding(s, p);
    forall i | |v| <= i < |s + p| ensures Value((s + p)[i]) == -2 {
      assert (s + p)[i] == p[i - |v|] && p[i - |v|] in p;
    }
    assert SplitsAt(s + p, |v|);
  }

  lemma EncodingFacts(b: seq<Byte>)
    ensures InLanguage(Encode(b))
    ensures Sextets(Encode(b)) == ToSextets(b)
  {
    var v := ToSextets(b);
    PaddedSymbols(v, Padding(|b|));
  }

  /** Any standard encoding decodes to its source, however it is spaced, unless that exceeds the limit. */
  lemma {:induction false} RoundTrip(b: seq<Byte>, spaced: seq<Byte>, maxBytes: nat)
    requires StripSpace(spaced) == Encode(b)
    ensures Decoded(spaced, maxBytes) == if |b| <= maxBytes then Some(b) else None
  {
    SpaceIsTransparent(spaced);
    EncodingFacts(b);
    GroupsInvertToSextets(b);
  }

  /** Decoding never expands, so a limit that the text meets cannot refuse its octets. */
  lemma {:induction false} LimitCannotRefuse(s: seq<Byte>, maxBytes: nat)
    ensures 4 * |Groups(Sextets(s))| <= 3 * |s|
    ensures |s| <= maxBytes ==> Decoded(s, maxBytes) == Meaning(s)
  {
  }
}
