/**
  * The grammar of OSC sequences in a terminal's output (OSC is section 8.3.89 of ECMA-48).
  *
  * A stream is noise, then frames, then whatever is still unfinished. Inside a frame the body is a
  * list of tokens: ESC swallows the byte after it, so `ESC BEL` is a token and not a terminator.
  */
module OscGrammar {
  import opened Bytes

  datatype Token = Plain(b: Byte) | Escaped(b: Byte)

  predicate ValidToken(t: Token) {
    match t
    case Plain(b) => b != BEL && b != ESC
    case Escaped(b) => b != BACKSLASH
  }

  predicate ValidBody(ts: seq<Token>) {
    forall i :: 0 <= i < |ts| ==> ValidToken(ts[i])
  }

  function TokenBytes(t: Token): (r: seq<Byte>)
    ensures 1 <= |r| <= 2
  {
    match t case Plain(b) => [b] case Escaped(b) => [ESC, b]
  }

  /** The bytes of a body, without introducer and terminator. */
  function BodyBytes(ts: seq<Token>): seq<Byte> {
    if ts == [] then [] else BodyBytes(ts[..|ts| - 1]) + TokenBytes(ts[|ts| - 1])
  }

  datatype Terminator = Bel | St

  function TerminatorBytes(t: Terminator): seq<Byte> {
    match t case Bel => [BEL] case St => [ESC, BACKSLASH]
  }

  const INTRODUCER: seq<Byte> := [ESC, BRACKET]

  /** Nothing in `s` introduces an OSC. */
  predicate IsNoise(s: seq<Byte>) {
    forall i :: 0 <= i < |s| - 1 ==> !(s[i] == ESC && s[i + 1] == BRACKET)
  }

  datatype Frame = Frame(noise: seq<Byte>, body: seq<Token>, end: Terminator)

  predicate ValidFrame(f: Frame) { IsNoise(f.noise) && ValidBody(f.body) }

  function FrameBytes(f: Frame): seq<Byte> {
    f.noise + INTRODUCER + BodyBytes(f.body) + TerminatorBytes(f.end)
  }

  function FramesBytes(fs: seq<Frame>): seq<Byte> {
    if fs == [] then [] else FramesBytes(fs[..|fs| - 1]) + FrameBytes(fs[|fs| - 1])
  }

  /** What stands after the last complete frame; `escaped` means that an ESC is waiting for its byte. */
  datatype Rest = Idle(noise: seq<Byte>) | Open(noise: seq<Byte>, body: seq<Token>, escaped: bool)

  predicate ValidRest(r: Rest) {
    IsNoise(r.noise) && (r.Open? ==> ValidBody(r.body))
  }

  function RestBytes(r: Rest): seq<Byte> {
    match r
    case Idle(n) => n
    case Open(n, ts, escaped) => n + INTRODUCER + BodyBytes(ts) + if escaped then [ESC] else []
  }

  datatype Stream = Stream(frames: seq<Frame>, rest: Rest)

  predicate ValidStream(s: Stream) {
    (forall i :: 0 <= i < |s.frames| ==> ValidFrame(s.frames[i])) && ValidRest(s.rest)
  }

  function StreamBytes(s: Stream): seq<Byte> { FramesBytes(s.frames) + RestBytes(s.rest) }

  // ---------------------------------------------------------------- reading a stream

  const NOTHING_READ: Stream := Stream([], Idle([]))

  predicate EndsInEsc(s: seq<Byte>) { s != [] && s[|s| - 1] == ESC }

  function Absorb(s: Stream, c: Byte): Stream {
    match s.rest
    case Idle(n) =>
      if EndsInEsc(n) && c == BRACKET then s.(rest := Open(n[..|n| - 1], [], false))
      else s.(rest := Idle(n + [c]))
    case Open(n, ts, escaped) =>
      if escaped && c == BACKSLASH then Stream(s.frames + [Frame(n, ts, St)], Idle([]))
      else if escaped then s.(rest := Open(n, ts + [Escaped(c)], false))
      else if c == BEL then Stream(s.frames + [Frame(n, ts, Bel)], Idle([]))
      else if c == ESC then s.(rest := Open(n, ts, true))
      else s.(rest := Open(n, ts + [Plain(c)], false))
  }

  function AbsorbAll(s: Stream, data: seq<Byte>): Stream {
    if data == [] then s else Absorb(AbsorbAll(s, data[..|data| - 1]), data[|data| - 1])
  }

  function Parse(data: seq<Byte>): Stream { AbsorbAll(NOTHING_READ, data) }

  lemma {:induction false} AbsorbConcat(s: Stream, a: seq<Byte>, b: seq<Byte>)
    ensures AbsorbAll(s, a + b) == AbsorbAll(AbsorbAll(s, a), b)
  {
    if b == [] {
      assert a + b == a;
    } else {
      assert (a + b)[..|a + b| - 1] == a + b[..|b| - 1];
      AbsorbConcat(s, a, b[..|b| - 1]);
    }
  }

  // ---------------------------------------------------------------- parsing loses nothing

  lemma {:induction false} BodySnoc(ts: seq<Token>, t: Token)
    ensures BodyBytes(ts + [t]) == BodyBytes(ts) + TokenBytes(t)
  {
    assert (ts + [t])[..|ts|] == ts;
  }

  lemma {:induction false} FramesSnoc(fs: seq<Frame>, f: Frame)
    ensures FramesBytes(fs + [f]) == FramesBytes(fs) + FrameBytes(f)
  {
    assert (fs + [f])[..|fs|] == fs;
  }

  lemma NoiseGrows(n: seq<Byte>, c: Byte)
    requires IsNoise(n)
    ensures EndsInEsc(n) && c == BRACKET ==>
              IsNoise(n[..|n| - 1]) && RestBytes(Open(n[..|n| - 1], [], false)) == n + [c]
    ensures !(EndsInEsc(n) && c == BRACKET) ==> IsNoise(n + [c])
  {
    if EndsInEsc(n) && c == BRACKET {
      assert n + [c] == n[..|n| - 1] + INTRODUCER;
    }
  }

  lemma BodyGrows(n: seq<Byte>, ts: seq<Token>, escaped: bool, c: Byte)
    ensures escaped ==> RestBytes(Open(n, ts + [Escaped(c)], false)) == RestBytes(Open(n, ts, true)) + [c]
    ensures !escaped ==> RestBytes(Open(n, ts + [Plain(c)], false)) == RestBytes(Open(n, ts, false)) + [c]
    ensures !escaped && c == ESC ==> RestBytes(Open(n, ts, true)) == RestBytes(Open(n, ts, false)) + [c]
  {
    BodySnoc(ts, if escaped then Escaped(c) else Plain(c));
  }

  /** A byte that ends no frame extends the unfinished part by itself. */
  lemma RestGrows(s: Stream, c: Byte)
    requires ValidStream(s) && Absorb(s, c).frames == s.frames
    ensures ValidRest(Absorb(s, c).rest)
    ensures RestBytes(Absorb(s, c).rest) == RestBytes(s.rest) + [c]
  {
    match s.rest {
      case Idle(n) => NoiseGrows(n, c);
      case Open(n, ts, escaped) => BodyGrows(n, ts, escaped, c);
    }
  }

  /** A byte that ends a frame turns the unfinished part into that frame. */
  lemma FrameEnds(s: Stream, c: Byte)
    requires ValidStream(s) && Absorb(s, c).frames != s.frames
    ensures Absorb(s, c) == Stream(s.frames + [Absorb(s, c).frames[|s.frames|]], Idle([]))
    ensures var f := Absorb(s, c).frames[|s.frames|];
            ValidFrame(f) && FrameBytes(f) == RestBytes(s.rest) + [c]
  {
  }

  lemma AbsorbKeepsBytes(s: Stream, c: Byte)
    requires ValidStream(s)
    ensures ValidStream(Absorb(s, c))
    ensures StreamBytes(Absorb(s, c)) == StreamBytes(s) + [c]
  {
    if Absorb(s, c).frames == s.frames {
      RestGrows(s, c);
    } else {
      FrameEnds(s, c);
      FramesSnoc(s.frames, Absorb(s, c).frames[|s.frames|]);
    }
  }

  /** Every stream of bytes has a reading: its parse is well formed and renders back to it. */
  lemma {:induction false} ParseRenders(data: seq<Byte>)
    ensures ValidStream(Parse(data))
    ensures StreamBytes(Parse(data)) == data
  {
    if data == [] {
    } else {
      var n := |data| - 1;
      ParseRenders(data[..n]);
      AbsorbKeepsBytes(Parse(data[..n]), data[n]);
      assert data == data[..n] + [data[n]];
    }
  }

  // ---------------------------------------------------------------- parsing is unambiguous

  lemma {:induction false} AbsorbNoise(fs: seq<Frame>, noise: seq<Byte>)
    requires IsNoise(noise)
    ensures AbsorbAll(Stream(fs, Idle([])), noise) == Stream(fs, Idle(noise))
  {
    if noise == [] {
    } else {
      AbsorbNoise(fs, noise[..|noise| - 1]);
      assert noise == noise[..|noise| - 1] + [noise[|noise| - 1]];
    }
  }

  lemma {:induction false} AbsorbOne(s: Stream, a: Byte)
    ensures AbsorbAll(s, [a]) == Absorb(s, a)
  {
    assert [a][..0] == [];
  }

  lemma {:induction false} AbsorbTwo(s: Stream, a: Byte, b: Byte)
    ensures AbsorbAll(s, [a, b]) == Absorb(Absorb(s, a), b)
  {
    AbsorbOne(s, a);
    assert [a, b][..1] == [a];
  }

  lemma {:induction false} AbsorbIntroducer(fs: seq<Frame>, noise: seq<Byte>)
    requires IsNoise(noise)
    ensures AbsorbAll(Stream(fs, Idle([])), noise + INTRODUCER) == Stream(fs, Open(noise, [], false))
  {
    AbsorbNoise(fs, noise);
    AbsorbConcat(Stream(fs, Idle([])), noise, INTRODUCER);
    AbsorbTwo(Stream(fs, Idle(noise)), ESC, BRACKET);
    assert (noise + [ESC])[..|noise|] == noise;
  }

  lemma {:induction false} AbsorbToken(s: Stream, t: Token)
    requires ValidToken(t) && s.rest.Open? && !s.rest.escaped
    ensures AbsorbAll(s, TokenBytes(t)) == s.(rest := s.rest.(body := s.rest.body + [t]))
  {
    match t {
      case Plain(b) => AbsorbOne(s, b);
      case Escaped(b) => AbsorbTwo(s, ESC, b);
    }
  }

  lemma {:induction false} AbsorbBody(fs: seq<Frame>, noise: seq<Byte>, ts: seq<Token>)
    requires ValidBody(ts)
    ensures AbsorbAll(Stream(fs, Open(noise, [], false)), BodyBytes(ts)) == Stream(fs, Open(noise, ts, false))
  {
    if ts == [] {
    } else {
      var init, t := ts[..|ts| - 1], ts[|ts| - 1];
      AbsorbBody(fs, noise, init);
      AbsorbConcat(Stream(fs, Open(noise, [], false)), BodyBytes(init), TokenBytes(t));
      AbsorbToken(Stream(fs, Open(noise, init, false)), t);
      assert ts == init + [t];
    }
  }

  lemma {:induction false} AbsorbTerminator(s: Stream, end: Terminator)
    requires s.rest.Open? && !s.rest.escaped
    ensures AbsorbAll(s, TerminatorBytes(end)) == Stream(s.frames + [Frame(s.rest.noise, s.rest.body, end)], Idle([]))
  {
    match end {
      case Bel => AbsorbOne(s, BEL);
      case St => AbsorbTwo(s, ESC, BACKSLASH);
    }
  }

  lemma {:induction false} AbsorbOpening(fs: seq<Frame>, noise: seq<Byte>, ts: seq<Token>)
    requires IsNoise(noise) && ValidBody(ts)
    ensures AbsorbAll(Stream(fs, Idle([])), noise + INTRODUCER + BodyBytes(ts)) == Stream(fs, Open(noise, ts, false))
  {
    AbsorbIntroducer(fs, noise);
    AbsorbConcat(Stream(fs, Idle([])), noise + INTRODUCER, BodyBytes(ts));
    AbsorbBody(fs, noise, ts);
  }

  lemma AbsorbFrame(fs: seq<Frame>, f: Frame)
    requires ValidFrame(f)
    ensures AbsorbAll(Stream(fs, Idle([])), FrameBytes(f)) == Stream(fs + [f], Idle([]))
  {
    AbsorbOpening(fs, f.noise, f.body);
    AbsorbConcat(Stream(fs, Idle([])), f.noise + INTRODUCER + BodyBytes(f.body), TerminatorBytes(f.end));
    AbsorbTerminator(Stream(fs, Open(f.noise, f.body, false)), f.end);
  }

  lemma {:induction false} AbsorbFrames(fs: seq<Frame>)
    requires forall i :: 0 <= i < |fs| ==> ValidFrame(fs[i])
    ensures Parse(FramesBytes(fs)) == Stream(fs, Idle([]))
  {
    if fs == [] {
    } else {
      var init, f := fs[..|fs| - 1], fs[|fs| - 1];
      AbsorbFrames(init);
      AbsorbConcat(NOTHING_READ, FramesBytes(init), FrameBytes(f));
      AbsorbFrame(init, f);
      assert fs == init + [f];
    }
  }

  lemma AbsorbRest(fs: seq<Frame>, r: Rest)
    requires ValidRest(r)
    ensures AbsorbAll(Stream(fs, Idle([])), RestBytes(r)) == Stream(fs, r)
  {
    match r {
      case Idle(n) => AbsorbNoise(fs, n);
      case Open(n, ts, escaped) =>
        AbsorbOpening(fs, n, ts);
        var s := Stream(fs, Idle([]));
        var before := n + INTRODUCER + BodyBytes(ts);
        if escaped {
          AbsorbConcat(s, before, [ESC]);
          AbsorbOne(Stream(fs, Open(n, ts, false)), ESC);
        } else {
          assert before + [] == before;
        }
    }
  }

  /** Every well-formed reading of a stream is its parse, so frames are found where they were put. */
  lemma ParseInvertsRendering(s: Stream)
    requires ValidStream(s)
    ensures Parse(StreamBytes(s)) == s
  {
    AbsorbFrames(s.frames);
    AbsorbConcat(NOTHING_READ, FramesBytes(s.frames), RestBytes(s.rest));
    AbsorbRest(s.frames, s.rest);
  }
}
