/**
  * What the reports of the OSC observer carry, field by field and on the machine.
  */
module OscReports {
  import opened Bytes
  import opened Events
  import opened OscGrammar
  import opened OscObserver
  import Base64

  /** The events of a frame that is fed to a fresh machine. */
  ghost function Reports(f: Frame, maxBytes: nat): seq<Event> {
    Feed(Run(START, []), FrameBytes(f), maxBytes).events
  }

  lemma ReportsAreInterpreted(f: Frame, maxBytes: nat)
    requires ValidFrame(f)
    ensures Reports(f, maxBytes) == Interpret(BodyBytes(f.body), maxBytes)
  {
    FrameIsReported(f, maxBytes);
  }

  // ---------------------------------------------------------------- OSC 9

  /** The body of an OSC with the command `9`. */
  function Osc9(payload: seq<Byte>): seq<Byte> { [0x39, SEMICOLON] + payload }

  lemma Osc9IsReported(f: Frame, payload: seq<Byte>, maxBytes: nat)
    requires ValidFrame(f) && BodyBytes(f.body) == Osc9(payload) && |Osc9(payload)| <= maxBytes
    ensures Reports(f, maxBytes) == [NotificationEvent(payload)]
  {
    ReportsAreInterpreted(f, maxBytes);
    assert Ascii("9") == [0x39];
    FirstSemicolon([0x39], payload);
    assert [0x39] + [SEMICOLON] + payload == Osc9(payload);
  }

  /** With a second semicolon, what stands before it is the title and what stands behind it the body, both trimmed. */
  lemma TitledNotification(f: Frame, title: seq<Byte>, body: seq<Byte>, maxBytes: nat)
    requires ValidFrame(f) && SEMICOLON !in title
    requires BodyBytes(f.body) == Osc9(title + [SEMICOLON] + body) && |BodyBytes(f.body)| <= maxBytes
    ensures |Reports(f, maxBytes)| == 1
    ensures var e := Reports(f, maxBytes)[0];
            && e.kind == Notification
            && e.title.Some? && IsTrimmed(title, e.title.value)
            && e.body.Some? && IsTrimmed(body, e.body.value)
            && e.text == Some(title + [SEMICOLON] + body)
            && e.clipboard == None && e.code == 0 && e.signal == 0 && e.bytes == 0
  {
    Osc9IsReported(f, title + [SEMICOLON] + body, maxBytes);
    FirstSemicolon(title, body);
    TrimIsExact(title, Trim(title));
    TrimIsExact(body, Trim(body));
  }

  /** Without one, there is no title and the whole payload is the body. */
  lemma UntitledNotification(f: Frame, payload: seq<Byte>, maxBytes: nat)
    requires ValidFrame(f) && SEMICOLON !in payload
    requires BodyBytes(f.body) == Osc9(payload) && |BodyBytes(f.body)| <= maxBytes
    ensures |Reports(f, maxBytes)| == 1
    ensures var e := Reports(f, maxBytes)[0];
            && e.kind == Notification && e.title == None
            && e.body.Some? && IsTrimmed(payload, e.body.value)
            && e.text == Some(payload)
            && e.clipboard == None && e.code == 0 && e.signal == 0 && e.bytes == 0
  {
    Osc9IsReported(f, payload, maxBytes);
    TrimIsExact(payload, Trim(payload));
  }

  // ---------------------------------------------------------------- other commands

  /** Of the sequences that fit, only the commands `9` and `52` are ever reported. */
  lemma OthersAreIgnored(f: Frame, command: seq<Byte>, payload: seq<Byte>, maxBytes: nat)
    requires ValidFrame(f) && SEMICOLON !in command && command != [0x39] && command != [0x35, 0x32]
    requires BodyBytes(f.body) == command + [SEMICOLON] + payload && |BodyBytes(f.body)| <= maxBytes
    ensures Reports(f, maxBytes) == []
  {
    ReportsAreInterpreted(f, maxBytes);
    assert Ascii("9") == [0x39] && Ascii("52") == [0x35, 0x32];
    FirstSemicolon(command, payload);
  }

  /** So is nothing without a semicolon. */
  lemma BareBodiesAreIgnored(f: Frame, maxBytes: nat)
    requires ValidFrame(f) && SEMICOLON !in BodyBytes(f.body) && |BodyBytes(f.body)| <= maxBytes
    ensures Reports(f, maxBytes) == []
  {
    ReportsAreInterpreted(f, maxBytes);
  }

  // ---------------------------------------------------------------- OSC 52 and debug messages

  /** A clipboard request names the target and carries the decoded data with their length. */
  lemma {:induction false} RequestCarriesData(f: Frame, target: seq<Byte>, code: seq<Byte>, maxBytes: nat)
    requires ValidFrame(f) && SEMICOLON !in target && BodyBytes(f.body) == Osc52(Targeted(target, code))
    requires |BodyBytes(f.body)| <= maxBytes && Base64.InLanguage(code)
    ensures |Reports(f, maxBytes)| == 1
    ensures var e, data := Reports(f, maxBytes)[0], Base64.Groups(Base64.Sextets(code));
            && e.kind == ClipboardRequest && e.clipboard == Some(target)
            && e.text == Some(data) && e.bytes == |data|
            && e.title == None && e.body == None && e.code == 0 && e.signal == 0
  {
    ReportIffInLanguage(f, target, code, maxBytes);
  }

  /** `e` is a debug message and says `msg`. */
  predicate Says(e: Event, msg: string) {
    && e.kind == Debug && e.text.Some? && |e.text.value| == |msg|
    && (forall i :: 0 <= i < |msg| && msg[i] < 128 as char ==> e.text.value[i] == msg[i] as int)
    && e.title == None && e.body == None && e.clipboard == None && e.code == 0 && e.signal == 0 && e.bytes == 0
  }

  lemma DropsAreExplained(f: Frame, maxBytes: nat)
    requires ValidFrame(f) && |BodyBytes(f.body)| > maxBytes
    ensures |Reports(f, maxBytes)| == 1 && Says(Reports(f, maxBytes)[0], "dropped oversized OSC sequence")
  {
    ReportsAreInterpreted(f, maxBytes);
  }

  lemma RefusalsAreExplained(f: Frame, target: seq<Byte>, code: seq<Byte>, maxBytes: nat)
    requires ValidFrame(f) && SEMICOLON !in target && BodyBytes(f.body) == Osc52(Targeted(target, code))
    requires |BodyBytes(f.body)| <= maxBytes && !Base64.InLanguage(code)
    ensures |Reports(f, maxBytes)| == 1 && Says(Reports(f, maxBytes)[0], "invalid or oversized OSC 52 payload")
  {
    ReportIffInLanguage(f, target, code, maxBytes);
  }

  // ---------------------------------------------------------------- sequences byte by byte

  lemma {:induction false} BytesAreAFrame(body: seq<Byte>, end: Terminator)
    requires 0x07 !in body && 0x1b !in body
    ensures var f := Frame([], Plains(body), end);
            && ValidFrame(f) && BodyBytes(f.body) == body
            && FrameBytes(f) == [0x1b, 0x5d] + body + if end.Bel? then [0x07] else [0x1b, 0x5c]
  {
    PlainBytes(body);
    assert [] + INTRODUCER + body == INTRODUCER + body;
  }

  lemma TrimmedOne(c: Byte, r: seq<Byte>)
    requires c > 0x20 && IsTrimmed([c], r)
    ensures r == [c]
  {
    TrimIsExact([c], r);
  }

  /** `ESC ] 9;a;b BEL` notifies with the title `a` and the body `b`. */
  lemma NotificationBytes()
    ensures var es := Feed(Run(START, []), [0x1b, 0x5d] + [0x39, 0x3b, 0x61, 0x3b, 0x62] + [0x07], 100).events;
            |es| == 1 && es[0].kind == Notification && es[0].title == Some([0x61]) && es[0].body == Some([0x62])
  {
    var body: seq<Byte> := [0x39, 0x3b, 0x61, 0x3b, 0x62];
    BytesAreAFrame(body, Bel);
    assert body == Osc9([0x61] + [SEMICOLON] + [0x62]);
    TitledNotification(Frame([], Plains(body), Bel), [0x61], [0x62], 100);
    TrimmedOne(0x61, Reports(Frame([], Plains(body), Bel), 100)[0].title.value);
    TrimmedOne(0x62, Reports(Frame([], Plains(body), Bel), 100)[0].body.value);
  }

  lemma QueryIsOsc52()
    ensures Osc52(Targeted([0x63], [0x3f])) == [0x35, 0x32, 0x3b, 0x63, 0x3b, 0x3f]
    ensures !Base64.InLanguage([0x3f])
  {
    assert Ascii("52") == [0x35, 0x32];
    assert [0x3f][0] == 0x3f;
  }

  /** The clipboard query `ESC ] 52;c;? ESC \` is answered by a debug message. */
  lemma QueryBytes()
    ensures var bytes := [0x1b, 0x5d] + [0x35, 0x32, 0x3b, 0x63, 0x3b, 0x3f] + [0x1b, 0x5c];
            var es := Feed(Run(START, []), bytes, 100).events;
            |es| == 1 && es[0].kind == Debug
  {
    var body: seq<Byte> := [0x35, 0x32, 0x3b, 0x63, 0x3b, 0x3f];
    BytesAreAFrame(body, St);
    QueryIsOsc52();
    RefusalsAreExplained(Frame([], Plains(body), St), [0x63], [0x3f], 100);
  }
}
