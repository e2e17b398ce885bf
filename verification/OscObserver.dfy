/**
  * The streaming OSC observer: a byte-at-a-time machine with a bounded buffer, the OSC 9 and OSC 52
  * handlers, and the proof that it reports exactly the frames of the stream's grammar.
  */
module OscObserver {
  import opened Bytes
  import opened Events
  import opened OscGrammar
  import Base64
  import EventQueue

  const DEFAULT_MAX_BYTES: nat := 1024 * 1024
  const INITIAL_CAP: nat := 256

  // ---------------------------------------------------------------- what one body means

  function Ascii(s: string): seq<Byte> {
    seq(|s|, i requires 0 <= i < |s| => if s[i] < 128 as char then s[i] as int else 63)
  }

  function DebugEvent(msg: string): Event { BLANK.(kind := Debug, text := Some(Ascii(msg))) }

  function Oversized(): Event { DebugEvent("dropped oversized OSC sequence") }

  function BadPayload(): Event { DebugEvent("invalid or oversized OSC 52 payload") }

  /** The bytes between leading and trailing whitespace. */
  function Trim(s: seq<Byte>): (r: seq<Byte>)
    ensures |r| <= |s|
    ensures r != [] ==> !IsSpace(r[0]) && !IsSpace(r[|r| - 1])
  {
    if s == [] then []
    else if IsSpace(s[0]) then Trim(s[1..])
    else if IsSpace(s[|s| - 1]) then Trim(s[..|s| - 1])
    else s
  }

  ghost predicate Trims(s: seq<Byte>, lo: nat, hi: nat)
    requires lo <= hi <= |s|
  {
    && (forall i :: 0 <= i < lo || hi <= i < |s| ==> IsSpace(s[i]))
    && (lo < hi ==> !IsSpace(s[lo]) && !IsSpace(s[hi - 1]))
  }

  /** `r` is `s` without the whitespace at its ends, and has none left there. */
  ghost predicate IsTrimmed(s: seq<Byte>, r: seq<Byte>) {
    exists lo, hi :: 0 <= lo <= hi <= |s| && r == s[lo..hi] && Trims(s, lo, hi)
  }

  lemma OneWindow(s: seq<Byte>, lo: nat, hi: nat, lo': nat, hi': nat)
    requires lo <= hi <= |s| && lo' <= hi' <= |s| && Trims(s, lo, hi) && Trims(s, lo', hi')
    ensures s[lo..hi] == s[lo'..hi']
  {
    assert lo' < hi' ==> lo < hi by {
      if lo' < hi' { assert !IsSpace(s[lo']); }
    }
    if lo < hi {
      assert lo' <= lo < hi' && lo' <= hi - 1 < hi';
    }
  }

  lemma TrimsTail(s: seq<Byte>, lo: nat, hi: nat)
    requires s != [] && IsSpace(s[0]) && lo <= hi <= |s| - 1 && Trims(s[1..], lo, hi)
    ensures Trims(s, lo + 1, hi + 1) && s[1..][lo..hi] == s[lo + 1..hi + 1]
  {
    assert forall i :: 0 < i < |s| ==> s[i] == s[1..][i - 1];
  }

  lemma TrimsFront(s: seq<Byte>, lo: nat, hi: nat)
    requires s != [] && IsSpace(s[|s| - 1]) && lo <= hi <= |s| - 1 && Trims(s[..|s| - 1], lo, hi)
    ensures Trims(s, lo, hi) && s[..|s| - 1][lo..hi] == s[lo..hi]
  {
    assert forall i :: 0 <= i < |s| - 1 ==> s[i] == s[..|s| - 1][i];
  }

  lemma {:induction false} TrimBounds(s: seq<Byte>) returns (lo: nat, hi: nat)
    ensures lo <= hi <= |s| && Trim(s) == s[lo..hi] && Trims(s, lo, hi)
  {
    if s == [] {
      lo, hi := 0, 0;
    } else if IsSpace(s[0]) {
      lo, hi := TrimBounds(s[1..]);
      TrimsTail(s, lo, hi);
      lo, hi := lo + 1, hi + 1;
    } else if IsSpace(s[|s| - 1]) {
      lo, hi := TrimBounds(s[..|s| - 1]);
      TrimsFront(s, lo, hi);
    } else {
      lo, hi := 0, |s|;
      assert s[lo..hi] == s;
    }
  }

  /** Whitespace has been cut at both ends and nothing else: `Trim` is the only way to do that. */
  lemma {:induction false} TrimIsExact(s: seq<Byte>, r: seq<Byte>)
    ensures IsTrimmed(s, r) <==> r == Trim(s)
  {
    var lo, hi := TrimBounds(s);
    if IsTrimmed(s, r) {
      var lo', hi' :| 0 <= lo' <= hi' <= |s| && r == s[lo'..hi'] && Trims(s, lo', hi');
      OneWindow(s, lo, hi, lo', hi');
    }
  }

  function NotificationEvent(payload: seq<Byte>): Event {
    var e := BLANK.(kind := Notification, text := Some(payload));
    match FindByte(payload, SEMICOLON)
    case Some(i) => e.(title := Some(Trim(payload[..i])), body := Some(Trim(payload[i + 1..])))
    case None => e.(body := Some(Trim(payload)))
  }

  function ClipboardEvent(target: seq<Byte>, decoded: seq<Byte>): Event {
    BLANK.(kind := ClipboardRequest, clipboard := Some(target), text := Some(decoded), bytes := |decoded|)
  }

  /** What an OSC 52 with a target reports: the decoded data, or that they cannot be decoded. */
  ghost function ClipboardReport(target: seq<Byte>, code: seq<Byte>, maxBytes: nat): Event {
    match Base64.Decoded(code, maxBytes)
    case None => BadPayload()
    case Some(decoded) => ClipboardEvent(target, decoded)
  }

  ghost function ClipboardEvents(payload: seq<Byte>, maxBytes: nat): seq<Event> {
    match FindByte(payload, SEMICOLON)
    case None => []
    case Some(i) => [ClipboardReport(payload[..i], payload[i + 1..], maxBytes)]
  }

  predicate FromObserver(e: Event) {
    e.kind == Notification || e.kind == ClipboardRequest || e.kind == Debug
  }

  /** The events that a complete body gives rise to: at most one. */
  ghost function Interpret(body: seq<Byte>, maxBytes: nat): (es: seq<Event>)
    ensures |es| <= 1
    ensures forall i :: 0 <= i < |es| ==> FromObserver(es[i])
  {
    if |body| > maxBytes then [Oversized()]
    else
      match FindByte(body, SEMICOLON)
      case None => []
      case Some(i) =>
        if body[..i] == Ascii("9") then [NotificationEvent(body[i + 1..])]
        else if body[..i] == Ascii("52") then ClipboardEvents(body[i + 1..], maxBytes)
        else []
  }

  ghost function InterpretFrames(fs: seq<Frame>, maxBytes: nat): seq<Event> {
    if fs == [] then []
    else InterpretFrames(fs[..|fs| - 1], maxBytes) + Interpret(BodyBytes(fs[|fs| - 1].body), maxBytes)
  }

  // ---------------------------------------------------------------- the machine, on values

  datatype State = State(inOsc: bool, sawEsc: bool, overflowed: bool, buf: seq<Byte>)

  const START: State := State(false, false, false, [])

  function Appended(st: State, c: Byte, maxBytes: nat): State {
    if |st.buf| >= maxBytes then st.(overflowed := true) else st.(buf := st.buf + [c])
  }

  /** `finish_sequence`, before it resets the machine. */
  ghost function Finished(st: State, maxBytes: nat): seq<Event> {
    if st.overflowed then [Oversized()] else Interpret(st.buf, maxBytes)
  }

  ghost predicate EndsSequence(st: State, c: Byte) {
    st.inOsc && if st.sawEsc then c == BACKSLASH else c == BEL
  }

  /** What one byte makes the machine report. */
  ghost function Reported(st: State, c: Byte, maxBytes: nat): seq<Event> {
    if EndsSequence(st, c) then Finished(st, maxBytes) else []
  }

  function Next(st: State, c: Byte, maxBytes: nat): State {
    if !st.inOsc then
      if st.sawEsc && c == BRACKET then State(true, false, false, []) else st.(sawEsc := c == ESC)
    else if st.sawEsc then
      if c == BACKSLASH then START
      else Appended(Appended(st, ESC, maxBytes), c, maxBytes).(sawEsc := false)
    else if c == BEL then START
    else if c == ESC then st.(sawEsc := true)
    else Appended(st, c, maxBytes)
  }

  /** A machine state and every event reported on the way to it. */
  datatype Run = Run(st: State, events: seq<Event>)

  ghost function Step(r: Run, c: Byte, maxBytes: nat): Run {
    Run(Next(r.st, c, maxBytes), r.events + Reported(r.st, c, maxBytes))
  }

  ghost function Feed(r: Run, data: seq<Byte>, maxBytes: nat): Run {
    if data == [] then r else Step(Feed(r, data[..|data| - 1], maxBytes), data[|data| - 1], maxBytes)
  }

  lemma {:induction false} FeedSnoc(r: Run, data: seq<Byte>, c: Byte, maxBytes: nat)
    ensures Feed(r, data + [c], maxBytes) == Step(Feed(r, data, maxBytes), c, maxBytes)
  {
    assert (data + [c])[..|data|] == data;
  }

  /** Feeding in any chunks is feeding at once. */
  lemma {:induction false} FeedConcat(r: Run, a: seq<Byte>, b: seq<Byte>, maxBytes: nat)
    ensures Feed(r, a + b, maxBytes) == Feed(Feed(r, a, maxBytes), b, maxBytes)
  {
    if b == [] {
      assert a + b == a;
    } else {
      assert (a + b)[..|a + b| - 1] == a + b[..|b| - 1];
      FeedConcat(r, a, b[..|b| - 1], maxBytes);
    }
  }

  // ---------------------------------------------------------------- the machine reports the grammar's frames

  function Truncated(s: seq<Byte>, maxBytes: nat): seq<Byte> {
    if |s| <= maxBytes then s else s[..maxBytes]
  }

  /** The machine state that the unfinished part of a stream leaves behind. */
  function Observing(r: Rest, maxBytes: nat): State {
    match r
    case Idle(n) => State(false, EndsInEsc(n), false, [])
    case Open(_, ts, escaped) =>
      var body := BodyBytes(ts);
      State(true, escaped, |body| > maxBytes, Truncated(body, maxBytes))
  }

  lemma AppendTruncates(body: seq<Byte>, st: State, c: Byte, maxBytes: nat)
    requires st.buf == Truncated(body, maxBytes) && st.overflowed == (|body| > maxBytes)
    ensures var st' := Appended(st, c, maxBytes);
            st' == st.(buf := Truncated(body + [c], maxBytes), overflowed := |body + [c]| > maxBytes)
  {
  }

  lemma ObservedGrows(ts: seq<Token>, c: Byte, escaped: bool, st: State, maxBytes: nat)
    requires st == Observing(Open([], ts, escaped), maxBytes)
    ensures escaped ==>
              Appended(Appended(st, ESC, maxBytes), c, maxBytes).(sawEsc := false)
                == Observing(Open([], ts + [Escaped(c)], false), maxBytes)
    ensures !escaped ==> Appended(st, c, maxBytes) == Observing(Open([], ts + [Plain(c)], false), maxBytes)
  {
    var body := BodyBytes(ts);
    if escaped {
      BodySnoc(ts, Escaped(c));
      AppendTruncates(body, st, ESC, maxBytes);
      AppendTruncates(body + [ESC], Appended(st, ESC, maxBytes), c, maxBytes);
      assert body + [ESC] + [c] == body + [ESC, c];
    } else {
      BodySnoc(ts, Plain(c));
      AppendTruncates(body, st, c, maxBytes);
    }
  }

  lemma {:induction false} FrameReports(s: Stream, st: State, c: Byte, maxBytes: nat)
    requires st == Observing(s.rest, maxBytes)
    ensures EndsSequence(st, c) <==> Absorb(s, c).frames != s.frames
    ensures InterpretFrames(Absorb(s, c).frames, maxBytes)
              == InterpretFrames(s.frames, maxBytes) + Reported(st, c, maxBytes)
  {
    if EndsSequence(st, c) {
      var f := Absorb(s, c).frames[|s.frames|];
      assert (s.frames + [f])[..|s.frames|] == s.frames;
      assert f.body == s.rest.body;
    }
  }

  lemma StateFollowsGrammar(s: Stream, st: State, c: Byte, maxBytes: nat)
    requires st == Observing(s.rest, maxBytes)
    ensures Next(st, c, maxBytes) == Observing(Absorb(s, c).rest, maxBytes)
  {
    if s.rest.Open? {
      ObservedGrows(s.rest.body, c, s.rest.escaped, st, maxBytes);
    }
  }

  /** One byte: machine and grammar move together, and the machine speaks when a frame is complete. */
  lemma {:induction false} StepFollowsGrammar(s: Stream, r: Run, c: Byte, maxBytes: nat)
    requires r.st == Observing(s.rest, maxBytes)
    requires r.events == InterpretFrames(s.frames, maxBytes)
    ensures var s', r' := Absorb(s, c), Step(r, c, maxBytes);
            r'.st == Observing(s'.rest, maxBytes) && r'.events == InterpretFrames(s'.frames, maxBytes)
  {
    FrameReports(s, r.st, c, maxBytes);
    StateFollowsGrammar(s, r.st, c, maxBytes);
  }

  /**
    * Whatever the chunking, the events reported are those of the complete frames of the stream's
    * unique reading, in order, and the machine is where the unfinished part leaves it.
    */
  lemma {:induction false} FeedIsParse(data: seq<Byte>, maxBytes: nat)
    ensures var r := Feed(Run(START, []), data, maxBytes);
            && r.st == Observing(Parse(data).rest, maxBytes)
            && r.events == InterpretFrames(Parse(data).frames, maxBytes)
  {
    if data == [] {
    } else {
      FeedIsParse(data[..|data| - 1], maxBytes);
      StepFollowsGrammar(Parse(data[..|data| - 1]), Feed(Run(START, []), data[..|data| - 1], maxBytes),
                         data[|data| - 1], maxBytes);
    }
  }

  lemma {:induction false} FeedShifts(st: State, es: seq<Event>, past: seq<Event>, data: seq<Byte>, maxBytes: nat)
    ensures var r := Feed(Run(st, es), data, maxBytes);
            Feed(Run(st, past + es), data, maxBytes) == Run(r.st, past + r.events)
  {
    if data == [] {
    } else {
      FeedShifts(st, es, past, data[..|data| - 1], maxBytes);
    }
  }

  /**
    * Frames put into a stream come out as their bodies, in order; an oversized body costs one debug
    * event, and what follows is read as by a fresh observer.
    */
  lemma {:induction false} FramesRoundTrip(fs: seq<Frame>, later: seq<Byte>, maxBytes: nat)
    requires forall i :: 0 <= i < |fs| ==> ValidFrame(fs[i])
    ensures var r, fresher := Feed(Run(START, []), FramesBytes(fs), maxBytes), Feed(Run(START, []), later, maxBytes);
            && r == Run(START, InterpretFrames(fs, maxBytes))
            && Feed(Run(START, []), FramesBytes(fs) + later, maxBytes) == Run(fresher.st, r.events + fresher.events)
  {
    AbsorbFrames(fs);
    FeedIsParse(FramesBytes(fs), maxBytes);
    FeedConcat(Run(START, []), FramesBytes(fs), later, maxBytes);
    FeedShifts(START, [], InterpretFrames(fs, maxBytes), later, maxBytes);
    assert InterpretFrames(fs, maxBytes) + [] == InterpretFrames(fs, maxBytes);
  }

  /** A frame alone, fed to a fresh machine, reports what its body means. */
  lemma {:induction false} FrameIsReported(f: Frame, maxBytes: nat)
    requires ValidFrame(f)
    ensures Feed(Run(START, []), FrameBytes(f), maxBytes) == Run(START, Interpret(BodyBytes(f.body), maxBytes))
  {
    FramesRoundTrip([f], [], maxBytes);
    assert [f][..0] == [];
    assert [] + FrameBytes(f) == FrameBytes(f);
    assert [] + Interpret(BodyBytes(f.body), maxBytes) == Interpret(BodyBytes(f.body), maxBytes);
  }

  lemma DebugTextsDiffer()
    ensures Oversized() != BadPayload()
  {
    assert Ascii("dropped oversized OSC sequence")[0] == 'd' as int;
    assert Ascii("invalid or oversized OSC 52 payload")[0] == 'i' as int;
  }

  lemma FittingIsNotOversized(body: seq<Byte>, maxBytes: nat)
    requires |body| <= maxBytes
    ensures Interpret(body, maxBytes) != [Oversized()]
  {
    DebugTextsDiffer();
    var es := Interpret(body, maxBytes);
    if es != [] && es[0].kind == Debug {
      assert es[0] == BadPayload();
    }
  }

  /** A sequence is dropped for the oversize report exactly when its body exceeds the limit. */
  lemma {:induction false} OversizedIffTooLong(f: Frame, maxBytes: nat)
    requires ValidFrame(f)
    ensures Feed(Run(START, []), FrameBytes(f), maxBytes).events == [Oversized()] <==> |BodyBytes(f.body)| > maxBytes
  {
    FrameIsReported(f, maxBytes);
    if |BodyBytes(f.body)| <= maxBytes {
      FittingIsNotOversized(BodyBytes(f.body), maxBytes);
    }
  }

  lemma FirstSemicolon(a: seq<Byte>, b: seq<Byte>)
    requires SEMICOLON !in a
    ensures var s := a + [SEMICOLON] + b;
            FindByte(s, SEMICOLON) == Some(|a|) && s[..|a|] == a && s[|a| + 1..] == b
  {
    var s := a + [SEMICOLON] + b;
    assert s[|a|] == SEMICOLON && s[..|a|] == a;
  }

  /** The body of an OSC 52. */
  function Osc52(payload: seq<Byte>): seq<Byte> { Ascii("52") + [SEMICOLON] + payload }

  function Targeted(target: seq<Byte>, code: seq<Byte>): seq<Byte> { target + [SEMICOLON] + code }

  lemma {:induction false} Osc52IsReported(f: Frame, payload: seq<Byte>, maxBytes: nat)
    requires ValidFrame(f) && BodyBytes(f.body) == Osc52(payload)
    ensures Feed(Run(START, []), FrameBytes(f), maxBytes).events
              == if |Osc52(payload)| > maxBytes then [Oversized()] else ClipboardEvents(payload, maxBytes)
  {
    FrameIsReported(f, maxBytes);
    assert Ascii("52") == [0x35, 0x32] && Ascii("9") == [0x39];
    FirstSemicolon(Ascii("52"), payload);
  }

  /** An OSC 52 is dropped without any event exactly when it is not too long and names no target. */
  lemma {:induction false} SilentIffNoTarget(f: Frame, payload: seq<Byte>, maxBytes: nat)
    requires ValidFrame(f) && BodyBytes(f.body) == Osc52(payload)
    ensures Feed(Run(START, []), FrameBytes(f), maxBytes).events == [] <==>
              |Osc52(payload)| <= maxBytes && SEMICOLON !in payload
  {
    Osc52IsReported(f, payload, maxBytes);
  }

  function Plains(bs: seq<Byte>): (ts: seq<Token>)
    ensures |ts| == |bs|
    ensures forall i :: 0 <= i < |bs| ==> ts[i] == Plain(bs[i])
  {
    if bs == [] then [] else Plains(bs[..|bs| - 1]) + [Plain(bs[|bs| - 1])]
  }

  lemma {:induction false} PlainBytes(bs: seq<Byte>)
    ensures BodyBytes(Plains(bs)) == bs
  {
    if bs == [] {
    } else {
      PlainBytes(bs[..|bs| - 1]);
      BodySnoc(Plains(bs[..|bs| - 1]), Plain(bs[|bs| - 1]));
    }
  }

  /** A body of plain bytes, ended by BEL. */
  function Belled(body: seq<Byte>): Frame { Frame([], Plains(body), Bel) }

  lemma BelledBytes(body: seq<Byte>)
    requires BEL !in body && ESC !in body
    ensures ValidFrame(Belled(body)) && BodyBytes(Belled(body).body) == body
    ensures FrameBytes(Belled(body)) == [ESC, BRACKET] + body + [BEL]
  {
    PlainBytes(body);
    assert [] + INTRODUCER + body == INTRODUCER + body;
  }

  /** `52;c`. */
  const UNTARGETED: seq<Byte> := [0x35, 0x32, SEMICOLON, 0x63]

  lemma UntargetedIsOsc52()
    ensures Osc52([0x63]) == UNTARGETED
  {
    assert Ascii("52") == [0x35, 0x32];
  }

  /** The concrete sequence `ESC ] 52;c BEL` is dropped without any event. */
  lemma {:induction false} UntargetedIsDropped(maxBytes: nat)
    requires maxBytes >= 4
    ensures Feed(Run(START, []), [ESC, BRACKET] + UNTARGETED + [BEL], maxBytes).events == []
  {
    UntargetedIsOsc52();
    BelledBytes(UNTARGETED);
    SilentIffNoTarget(Belled(UNTARGETED), [0x63], maxBytes);
  }

  /**
    * An OSC 52 with a target always yields one event: a request exactly when the sequence is within the
    * limit and its code is in the base64 language. The limit on decoded bytes never decides.
    */
  lemma {:induction false} ReportIffInLanguage(f: Frame, target: seq<Byte>, code: seq<Byte>, maxBytes: nat)
    requires ValidFrame(f) && SEMICOLON !in target && BodyBytes(f.body) == Osc52(Targeted(target, code))
    ensures var es, fits, m := Feed(Run(START, []), FrameBytes(f), maxBytes).events,
                               |BodyBytes(f.body)| <= maxBytes, Base64.Meaning(code);
            && es == [if !fits then Oversized() else if m.Some? then ClipboardEvent(target, m.value) else BadPayload()]
            && (es[0].kind == ClipboardRequest <==> fits && Base64.InLanguage(code))
  {
    Osc52IsReported(f, Targeted(target, code), maxBytes);
    FirstSemicolon(target, code);
    Base64.LimitCannotRefuse(code, maxBytes);
  }

  /** A well-formed OSC 52 carries any data to the consumer, whatever the target and the spacing, if it fits. */
  lemma {:induction false} ClipboardRoundTrip(f: Frame, target: seq<Byte>, data: seq<Byte>, spaced: seq<Byte>,
                                              maxBytes: nat)
    requires ValidFrame(f) && SEMICOLON !in target && BodyBytes(f.body) == Osc52(Targeted(target, spaced))
    requires Base64.StripSpace(spaced) == Base64.Encode(data) && |BodyBytes(f.body)| <= maxBytes
    ensures Feed(Run(START, []), FrameBytes(f), maxBytes).events == [ClipboardEvent(target, data)]
  {
    ReportIffInLanguage(f, target, spaced, maxBytes);
    Base64.RoundTrip(data, spaced, |data|);
  }

  lemma PushAppendsOne(q: EventQueue.State, e: Event)
    requires FromObserver(e)
    ensures EventQueue.Push(q, e) == q.(items := q.items + [Dup(e)])
  {
  }

  /** Observer events never coalesce, so pushing them appends their copies. */
  lemma {:induction false} PushAppends(q: EventQueue.State, es: seq<Event>)
    requires forall i :: 0 <= i < |es| ==> FromObserver(es[i])
    ensures EventQueue.PushAll(q, es) == q.(items := q.items + DupAll(es))
  {
    if es == [] {
      assert q.items + [] == q.items;
    } else {
      var init, e := es[..|es| - 1], es[|es| - 1];
      PushAppends(q, init);
      PushAppendsOne(EventQueue.PushAll(q, init), e);
      assert q.items + DupAll(init) + [Dup(e)] == q.items + (DupAll(init) + [Dup(e)]);
    }
  }

  lemma {:induction false} FramesReportObserverEvents(fs: seq<Frame>, maxBytes: nat)
    ensures forall i :: 0 <= i < |InterpretFrames(fs, maxBytes)| ==> FromObserver(InterpretFrames(fs, maxBytes)[i])
  {
    if fs == [] {
    } else {
      FramesReportObserverEvents(fs[..|fs| - 1], maxBytes);
    }
  }

  function Joined(chunks: seq<seq<Byte>>): seq<Byte> {
    if chunks == [] then [] else Joined(chunks[..|chunks| - 1]) + chunks[|chunks| - 1]
  }

  /** The machine after one call of feed for each chunk. */
  ghost function FeedChunks(r: Run, chunks: seq<seq<Byte>>, maxBytes: nat): Run {
    if chunks == [] then r else Feed(FeedChunks(r, chunks[..|chunks| - 1], maxBytes), chunks[|chunks| - 1], maxBytes)
  }

  lemma {:induction false} ChunksDoNotMatter(r: Run, chunks: seq<seq<Byte>>, maxBytes: nat)
    ensures FeedChunks(r, chunks, maxBytes) == Feed(r, Joined(chunks), maxBytes)
  {
    if chunks == [] {
    } else {
      ChunksDoNotMatter(r, chunks[..|chunks| - 1], maxBytes);
      FeedConcat(r, Joined(chunks[..|chunks| - 1]), chunks[|chunks| - 1], maxBytes);
    }
  }

  /** However the stream is cut into chunks, the queue receives copies of what its frames mean, and no more. */
  lemma {:induction false} StreamIsReported(q: EventQueue.State, chunks: seq<seq<Byte>>, maxBytes: nat)
    ensures var events := FeedChunks(Run(START, []), chunks, maxBytes).events;
            EventQueue.PushAll(q, events)
              == q.(items := q.items + DupAll(InterpretFrames(Parse(Joined(chunks)).frames, maxBytes)))
  {
    ChunksDoNotMatter(Run(START, []), chunks, maxBytes);
    FeedIsParse(Joined(chunks), maxBytes);
    FramesReportObserverEvents(Parse(Joined(chunks)).frames, maxBytes);
    PushAppends(q, FeedChunks(Run(START, []), chunks, maxBytes).events);
  }

  // ---------------------------------------------------------------- the observer

  lemma CommandBytes(body: seq<Byte>, i: nat)
    requires i < |body|
    ensures body[..i] == Ascii("9") <==> i == 1 && body[0] == 0x39
    ensures body[..i] == Ascii("52") <==> i == 2 && body[0] == 0x35 && body[1] == 0x32
  {
    assert Ascii("9") == [0x39];
    assert Ascii("52") == [0x35, 0x32];
    if i == 1 { assert body[..i] == [body[0]]; }
    if i == 2 { assert body[..i] == [body[0], body[1]]; }
  }

  /** `dup_trim`: two loops, from the left and from the right. */
  method DupTrim(s: seq<Byte>) returns (r: seq<Byte>)
    ensures r == Trim(s) && IsTrimmed(s, r)
  {
    var lo, hi := 0, |s|;
    while lo < hi && IsSpace(s[lo])
      invariant 0 <= lo <= hi == |s|
      invariant forall i :: 0 <= i < lo ==> IsSpace(s[i])
    {
      lo := lo + 1;
    }
    while lo < hi && IsSpace(s[hi - 1])
      invariant 0 <= lo <= hi <= |s| && (lo < hi ==> !IsSpace(s[lo]))
      invariant forall i :: 0 <= i < lo || hi <= i < |s| ==> IsSpace(s[i])
    {
      hi := hi - 1;
    }
    assert Trims(s, lo, hi);
    TrimIsExact(s, s[lo..hi]);
    return s[lo..hi];
  }

  class Observer {
    const events: EventQueue.Queue
    const maxBytes: nat
    var buf: array<Byte>
    var len: nat
    var inOsc: bool
    var sawEsc: bool
    var overflowed: bool
    ghost var copied: nat  // bytes that growing the buffer has copied so far

    /** Memory: at most min(cap, limit) bytes used, cap at most max(256, limit), growth copies under 2 cap. */
    ghost predicate Valid()
      reads this, buf, events, events.items
    {
      && events.Valid()
      && maxBytes > 0
      && len <= buf.Length && len <= maxBytes
      && INITIAL_CAP <= buf.Length && (buf.Length == INITIAL_CAP || buf.Length <= maxBytes)
      && (copied + INITIAL_CAP <= buf.Length || (buf.Length == maxBytes && copied < 2 * buf.Length))
    }

    ghost function Abstract(): State
      reads this, buf
      requires len <= buf.Length
    {
      State(inOsc, sawEsc, overflowed, buf[..len])
    }

    constructor (events: EventQueue.Queue, maxBytes: nat)
      requires events.Valid()
      ensures Valid() && fresh(buf) && Abstract() == START
      ensures this.events == events && this.maxBytes == if maxBytes == 0 then 1048576 else maxBytes
    {
      this.events := events;
      this.maxBytes := if maxBytes == 0 then DEFAULT_MAX_BYTES else maxBytes;
      buf := new Byte[INITIAL_CAP](_ => NUL);
      len, inOsc, sawEsc, overflowed, copied := 0, false, false, false, 0;
    }

    method ResetSequence()
      requires Valid()
      modifies this
      ensures Valid() && buf == old(buf) && Abstract() == START
    {
      inOsc, sawEsc, overflowed, len := false, false, false, 0;
    }

    /** The `realloc` of a full buffer: doubled, but never beyond the limit. */
    method Grow()
      requires Valid() && len == buf.Length < maxBytes
      modifies this
      ensures Valid() && fresh(buf) && len < buf.Length
      ensures Abstract() == old(Abstract())
    {
      var next := buf.Length * 2;
      if next < len + 1 { next := len + 1; }
      if next > maxBytes { next := maxBytes; }
      var grown := new Byte[next](i requires 0 <= i < next reads this, buf => if i < buf.Length then buf[i] else NUL);
      assert grown[..len] == buf[..len];
      copied := copied + buf.Length;
      buf := grown;
    }

    method AppendByte(c: Byte) returns (ok: bool)
      requires Valid()
      modifies this, buf
      ensures Valid() && (buf == old(buf) || fresh(buf))
      ensures Abstract() == Appended(old(Abstract()), c, maxBytes)
      ensures ok == (old(len) < maxBytes)
    {
      if len >= maxBytes {
        overflowed := true;
        return false;
      }
      if len + 1 > buf.Length { Grow(); }
      buf[len] := c;
      len := len + 1;
      return true;
    }

    /** One push to the queue, for a handler or for a debug message. */
    method Report(e: Event)
      requires Valid()
      modifies events, events.items
      ensures Valid() && (events.items == old(events.items) || fresh(events.items))
      ensures events.Contents() == EventQueue.PushAll(old(events.Contents()), [e])
    {
      var _ := events.PushEvent(e);
      assert [e][..0] == [];
    }

    method HandleOsc9(payload: seq<Byte>)
      requires Valid()
      modifies events, events.items
      ensures Valid() && (events.items == old(events.items) || fresh(events.items))
      ensures events.Contents() == EventQueue.PushAll(old(events.Contents()), [NotificationEvent(payload)])
    {
      var event := BLANK.(kind := Notification);
      var sep := FindByte(payload, SEMICOLON);
      if sep.Some? {
        var title := DupTrim(payload[..sep.value]);
        var body := DupTrim(payload[sep.value + 1..]);
        event := event.(title := Some(title), body := Some(body));
      } else {
        var body := DupTrim(payload);
        event := event.(body := Some(body));
      }
      event := event.(text := Some(payload));
      assert event == NotificationEvent(payload);
      Report(event);
    }

    method HandleOsc52(payload: seq<Byte>)
      requires Valid()
      modifies events, events.items
      ensures Valid() && (events.items == old(events.items) || fresh(events.items))
      ensures events.Contents() == EventQueue.PushAll(old(events.Contents()), ClipboardEvents(payload, maxBytes))
    {
      var sep := FindByte(payload, SEMICOLON);
      if sep.None? { return; }
      var decoded := Base64.Decode(payload[sep.value + 1..], maxBytes);
      if decoded.None? {
        assert ClipboardEvents(payload, maxBytes) == [BadPayload()];
        Report(BadPayload());
        return;
      }
      assert ClipboardEvents(payload, maxBytes) == [ClipboardEvent(payload[..sep.value], decoded.value)];
      Report(ClipboardEvent(payload[..sep.value], decoded.value));
    }

    /** The command before the first semicolon selects the handler. */
    method Dispatch(body: seq<Byte>)
      requires Valid() && |body| <= maxBytes
      modifies events, events.items
      ensures Valid() && (events.items == old(events.items) || fresh(events.items))
      ensures events.Contents() == EventQueue.PushAll(old(events.Contents()), Interpret(body, maxBytes))
    {
      var semi := FindByte(body, SEMICOLON);
      if semi.None? { return; }
      CommandBytes(body, semi.value);
      var payload := body[semi.value + 1..];
      if semi.value == 1 && body[0] == 0x39 {
        HandleOsc9(payload);
      } else if semi.value == 2 && body[0] == 0x35 && body[1] == 0x32 {
        HandleOsc52(payload);
      }
    }

    method FinishSequence()
      requires Valid()
      modifies this, events, events.items
      ensures Valid() && buf == old(buf) && (events.items == old(events.items) || fresh(events.items))
      ensures Abstract() == START
      ensures events.Contents() == EventQueue.PushAll(old(events.Contents()), Finished(old(Abstract()), maxBytes))
    {
      if overflowed {
        Report(Oversized());
      } else {
        Dispatch(buf[..len]);
      }
      ResetSequence();
    }

    /** A byte of an open sequence. */
    method FeedInside(c: Byte)
      requires Valid() && inOsc
      modifies this, buf, events, events.items
      ensures Valid() && (buf == old(buf) || fresh(buf))
      ensures events.items == old(events.items) || fresh(events.items)
      ensures Abstract() == Next(old(Abstract()), c, maxBytes)
      ensures events.Contents() == EventQueue.PushAll(old(events.Contents()), Reported(old(Abstract()), c, maxBytes))
    {
      if sawEsc {
        if c == BACKSLASH {
          FinishSequence();
        } else {
          var _ := AppendByte(ESC);
          var _ := AppendByte(c);
          sawEsc := false;
        }
        return;
      }
      if c == BEL {
        FinishSequence();
      } else if c == ESC {
        sawEsc := true;
      } else {
        var _ := AppendByte(c);
      }
    }

    method FeedByte(c: Byte)
      requires Valid()
      modifies this, buf, events, events.items
      ensures Valid() && (buf == old(buf) || fresh(buf))
      ensures events.items == old(events.items) || fresh(events.items)
      ensures Abstract() == Next(old(Abstract()), c, maxBytes)
      ensures events.Contents() == EventQueue.PushAll(old(events.Contents()), Reported(old(Abstract()), c, maxBytes))
    {
      if !inOsc {
        if sawEsc {
          if c == BRACKET {
            inOsc, sawEsc, len, overflowed := true, false, 0, false;
          } else {
            sawEsc := c == ESC;
          }
        } else if c == ESC {
          sawEsc := true;
        }
      } else {
        FeedInside(c);
      }
    }

    /** `lxl_ghostty_osc_observer_feed`. */
    method FeedChunk(data: seq<Byte>)
      requires Valid()
      modifies this, buf, events, events.items
      ensures Valid() && (buf == old(buf) || fresh(buf))
      ensures events.items == old(events.items) || fresh(events.items)
      ensures var r := Feed(Run(old(Abstract()), []), data, maxBytes);
              && Abstract() == r.st
              && events.Contents() == EventQueue.PushAll(old(events.Contents()), r.events)
    {
      ghost var start, r, q := Run(Abstract(), []), Run(Abstract(), []), events.Contents();
      for i := 0 to |data|
        invariant Valid() && (buf == old(buf) || fresh(buf))
        invariant events.items == old(events.items) || fresh(events.items)
        invariant r == Feed(start, data[..i], maxBytes)
        invariant Abstract() == r.st && events.Contents() == EventQueue.PushAll(q, r.events)
      {
        TakeSnoc(data, i);
        EventQueue.PushAllConcat(q, r.events, Reported(r.st, data[i], maxBytes));
        FeedByte(data[i]);
        r := Step(r, data[i], maxBytes);
      }
      assert data[..|data|] == data;
    }
  }
}
