/**
  * From the pty's output to the clipboard: observer, queue, drain and Lua policy together.
  *
  * The reader handles its output byte by byte and pushes what the observer reports; bells, titles,
  * directories and the exit are pushed in between; Lua pops events, emits them later and in order, and
  * the user answers prompts at any time. A history is any interleaving of these.
  */
module Pipeline {
  import opened Bytes
  import opened Events
  import opened Consumer
  import Base64
  import Coalescing
  import OscGrammar
  import Osc = OscObserver

  datatype Op =
    | ByteRead(c: Byte)
    | BellRang | TitleRead(value: seq<Byte>) | CwdRead(value: seq<Byte>) | ChildExited(code: int, signal: int)
    | Drain | Emit | Reply(prompt: nat, yes: bool)

  /** `last` strings as `emit_string_change` keeps them; `consumed` counts the popped events emitted so far. */
  datatype Pipe = Pipe(
    observer: Osc.Run, events: Coalescing.History, lastTitle: Option<seq<Byte>>, lastPwd: Option<seq<Byte>>,
    consumed: nat, view: View)

  function Opening(policy: Policy): Pipe {
    Pipe(Osc.Run(Osc.START, []), Coalescing.DoAll([]), None, None, 0, Opened(policy))
  }

  function Pushed(p: Pipe, e: Event): Pipe { p.(events := Coalescing.Do(p.events, Coalescing.PushOp(e))) }

  /** `emit_string_change` says nothing when the string it kept last, up to its NUL, is the value. */
  predicate Unchanged(last: Option<seq<Byte>>, value: seq<Byte>) {
    last.Some? && CString(last.value) == value
  }

  function TitleEvent(value: seq<Byte>): Event { BLANK.(kind := Title, title := Some(value)) }

  function CwdEvent(value: seq<Byte>): Event { BLANK.(kind := Cwd, body := Some(value)) }

  ghost function Do(p: Pipe, op: Op, policy: Policy, maxBytes: nat): Pipe {
    match op
    case ByteRead(c) =>
      var p' := p.(observer := Osc.Step(p.observer, c, maxBytes));
      var reported := Osc.Reported(p.observer.st, c, maxBytes);
      if reported == [] then p' else Pushed(p', reported[0])
    case BellRang => Pushed(p, BLANK.(kind := Bell))
    case TitleRead(value) =>
      if Unchanged(p.lastTitle, value) then p else Pushed(p, TitleEvent(value)).(lastTitle := Some(value))
    case CwdRead(value) =>
      if Unchanged(p.lastPwd, value) then p else Pushed(p, CwdEvent(value)).(lastPwd := Some(value))
    case ChildExited(code, signal) => Pushed(p, BLANK.(kind := Exit, code := code, signal := signal))
    case Drain => p.(events := Coalescing.Do(p.events, Coalescing.PopOp))
    case Emit =>
      if p.consumed < |p.events.popped|
      then p.(view := Consume(p.view, policy, p.events.popped[p.consumed]), consumed := p.consumed + 1) else p
    case Reply(i, yes) => if i < |p.view.prompts| then p.(view := Answered(p.view, i, yes)) else p
  }

  ghost function DoAll(ops: seq<Op>, policy: Policy, maxBytes: nat): Pipe {
    if ops == [] then Opening(policy)
    else Do(DoAll(ops[..|ops| - 1], policy, maxBytes), ops[|ops| - 1], policy, maxBytes)
  }

  /** Everything the reader has read. */
  function Output(ops: seq<Op>): seq<Byte> {
    if ops == [] then []
    else Output(ops[..|ops| - 1]) + if ops[|ops| - 1].ByteRead? then [ops[|ops| - 1].c] else []
  }

  // ---------------------------------------------------------------- what the queue carries

  /** The queue carries exactly what the observer reported, the latest strings and nothing else. */
  ghost predicate Carried(p: Pipe) {
    var known := Know(p.events.pushed);
    && Coalescing.Faithful(p.events)
    && (forall i :: 0 <= i < |p.events.popped| ==> Dup(p.events.popped[i]) == p.events.popped[i])
    && known.others == DupAll(p.observer.events)
    && known.title == Cut(p.lastTitle) && known.cwd == Cut(p.lastPwd)
    && p.consumed <= |p.events.popped|
  }

  lemma {:induction false} DupAllSnoc(es: seq<Event>, e: Event)
    ensures DupAll(es + [e]) == DupAll(es) + [Dup(e)]
  {
    assert (es + [e])[..|es|] == es;
  }

  /** After the push of `e`, what is kept beside the queue must be what the queue has learnt. */
  lemma PushedIsCarried(p: Pipe, e: Event, p': Pipe)
    requires Carried(p) && Coalescing.Produced(e)
    requires p'.events == Pushed(p, e).events && p'.consumed == p.consumed
    requires var known := Learn(Know(p.events.pushed), e);
             && known.others == DupAll(p'.observer.events)
             && known.title == Cut(p'.lastTitle) && known.cwd == Cut(p'.lastPwd)
    ensures Carried(p')
  {
    Coalescing.DoKeepsFaithful(p.events, Coalescing.PushOp(e));
  }

  lemma LearnsReport(k: Knowledge, e: Event)
    requires Osc.FromObserver(e)
    ensures Learn(k, e) == k.(others := k.others + [Dup(e)])
  {
  }

  lemma ReportIsCarried(p: Pipe, e: Event, p': Pipe)
    requires Carried(p) && Osc.FromObserver(e)
    requires p' == Pushed(p, e).(observer := p'.observer) && p'.observer.events == p.observer.events + [e]
    ensures Carried(p')
  {
    LearnsReport(Know(p.events.pushed), e);
    DupAllSnoc(p.observer.events, e);
    PushedIsCarried(p, e, p');
  }

  lemma ByteCarries(p: Pipe, c: Byte, policy: Policy, maxBytes: nat)
    requires Carried(p)
    ensures Carried(Do(p, ByteRead(c), policy, maxBytes))
  {
    var reported := Osc.Reported(p.observer.st, c, maxBytes);
    if reported == [] {
      assert p.observer.events + [] == p.observer.events;
    } else {
      assert reported == [reported[0]];
      ReportIsCarried(p, reported[0], Do(p, ByteRead(c), policy, maxBytes));
    }
  }

  lemma DrainCarries(p: Pipe, policy: Policy, maxBytes: nat)
    requires Carried(p)
    ensures Carried(Do(p, Drain, policy, maxBytes))
  {
    Coalescing.DoKeepsFaithful(p.events, Coalescing.PopOp);
    if p.events.q.items != [] {
      assert Coalescing.Sound(p.events.q.items[0]);
    }
  }

  lemma StepCarries(p: Pipe, op: Op, policy: Policy, maxBytes: nat)
    requires Carried(p)
    ensures Carried(Do(p, op, policy, maxBytes))
  {
    var p' := Do(p, op, policy, maxBytes);
    match op {
      case ByteRead(c) => ByteCarries(p, c, policy, maxBytes);
      case BellRang => PushedIsCarried(p, BLANK.(kind := Bell), p');
      case TitleRead(value) => if !Unchanged(p.lastTitle, value) { PushedIsCarried(p, TitleEvent(value), p'); }
      case CwdRead(value) => if !Unchanged(p.lastPwd, value) { PushedIsCarried(p, CwdEvent(value), p'); }
      case ChildExited(code, signal) => PushedIsCarried(p, BLANK.(kind := Exit, code := code, signal := signal), p');
      case Drain => DrainCarries(p, policy, maxBytes);
      case Emit =>
      case Reply(_, _) =>
    }
  }

  // ---------------------------------------------------------------- what the view has seen

  function Seen(p: Pipe): seq<Event>
    requires p.consumed <= |p.events.popped|
  {
    p.events.popped[..p.consumed]
  }

  function RequestOf(e: Event): seq<Event> {
    if e.kind == ClipboardRequest then [e] else []
  }

  /** The clipboard requests in a list. */
  function Requests(es: seq<Event>): seq<Event> {
    if es == [] then [] else Requests(es[..|es| - 1]) + RequestOf(es[|es| - 1])
  }

  /** What Lua reads of a request's text; `None` when it would have to read beyond the copy. */
  type Text = Option<seq<Byte>>

  function TextOf(e: Event): seq<Text> {
    if e.kind == ClipboardRequest then [LuaText(e)] else []
  }

  /** What Lua reads from the clipboard requests in a list. */
  function Texts(es: seq<Event>): seq<Text> {
    if es == [] then [] else Texts(es[..|es| - 1]) + TextOf(es[|es| - 1])
  }

  lemma TextsOne(e: Event)
    ensures Texts([e]) == TextOf(e)
  {
    assert [e][..0] == [];
  }

  lemma {:induction false} TextsSnoc(es: seq<Event>, e: Event)
    ensures Texts(es + [e]) == Texts(es) + TextOf(e)
  {
    assert (es + [e])[..|es|] == es;
  }

  lemma {:induction false} RequestsSnoc(es: seq<Event>, e: Event)
    ensures Requests(es + [e]) == Requests(es) + RequestOf(e)
  {
    assert (es + [e])[..|es|] == es;
  }

  lemma {:induction false} TextsConcat(a: seq<Event>, b: seq<Event>)
    ensures Texts(a + b) == Texts(a) + Texts(b)
  {
    if b == [] {
      assert a + b == a;
    } else {
      assert (a + b)[..|a + b| - 1] == a + b[..|b| - 1];
      TextsConcat(a, b[..|b| - 1]);
    }
  }

  lemma {:induction false} RequestTexts(es: seq<Event>)
    ensures Texts(Requests(es)) == Texts(es)
  {
    if es == [] {
    } else {
      var init, e := es[..|es| - 1], es[|es| - 1];
      RequestTexts(init);
      TextsSnoc(Requests(init), e);
      assert Requests(init) + [] == Requests(init) && Texts(init) + [] == Texts(init);
    }
  }

  predicate AllRequests(es: seq<Event>) {
    forall i :: 0 <= i < |es| ==> es[i].kind == ClipboardRequest
  }

  /**
    * The policy has been followed for every request seen so far, the requests themselves and their texts;
    * `accepted` says whether a prompt was.
    */
  predicate Obeyed(v: View, policy: Policy, requests: seq<Event>, texts: seq<Text>, accepted: bool) {
    match policy
    case Allow => v.written == texts && v.denied == [] && v.prompts == []
    case Deny => v.written == [] && v.denied == requests && v.prompts == []
    case Ask => (v.allowed ==> accepted) && (v.written != [] ==> accepted)
  }

  /** What a view shows of the title, the directory and the exit. */
  predicate Shows(v: View, k: Knowledge) {
    v.title == k.title && v.cwd == k.cwd && v.exited == k.exit.Some?
  }

  /** The view shows what the emitted events tell. */
  ghost predicate Informed(p: Pipe, policy: Policy, accepted: bool) {
    && p.consumed <= |p.events.popped|
    && Shows(p.view, Know(Seen(p)))
    && Obeyed(p.view, policy, Requests(Seen(p)), Texts(Seen(p)), accepted)
  }

  lemma ConsumeObeys(v: View, policy: Policy, requests: seq<Event>, texts: seq<Text>, accepted: bool, e: Event)
    requires Obeyed(v, policy, requests, texts, accepted)
    ensures Obeyed(Consume(v, policy, e), policy, requests + RequestOf(e), texts + TextOf(e), accepted)
  {
    assert requests + [] == requests && texts + [] == texts;
  }

  lemma ConsumeShows(v: View, policy: Policy, k: Knowledge, e: Event)
    requires Shows(v, k) && Dup(e) == e
    ensures Shows(Consume(v, policy, e), Learn(k, e))
  {
    assert Dup(e).title == e.title && Dup(e).body == e.body;
  }

  /** What the next emitted event adds to what has been seen. */
  lemma SeenGrows(p: Pipe, p': Pipe, e: Event)
    requires p.consumed < |p.events.popped| && e == p.events.popped[p.consumed]
    requires p'.events.popped == p.events.popped && p'.consumed == p.consumed + 1
    ensures Know(Seen(p')) == Learn(Know(Seen(p)), e)
    ensures Requests(Seen(p')) == Requests(Seen(p)) + RequestOf(e)
    ensures Texts(Seen(p')) == Texts(Seen(p)) + TextOf(e)
  {
    TakeSnoc(p.events.popped, p.consumed);
    KnowSnoc(Seen(p), e);
    RequestsSnoc(Seen(p), e);
    TextsSnoc(Seen(p), e);
  }

  lemma EmitInforms(p: Pipe, policy: Policy, accepted: bool, maxBytes: nat)
    requires Carried(p) && Informed(p, policy, accepted)
    ensures Informed(Do(p, Emit, policy, maxBytes), policy, accepted)
  {
    if p.consumed < |p.events.popped| {
      var e := p.events.popped[p.consumed];
      SeenGrows(p, Do(p, Emit, policy, maxBytes), e);
      ConsumeObeys(p.view, policy, Requests(Seen(p)), Texts(Seen(p)), accepted, e);
      ConsumeShows(p.view, policy, Know(Seen(p)), e);
    }
  }

  /** Some prompt has been accepted. */
  predicate Accepting(ops: seq<Op>) {
    exists i :: 0 <= i < |ops| && ops[i].Reply? && ops[i].yes
  }

  lemma ReplyInforms(p: Pipe, policy: Policy, accepted: bool, i: nat, yes: bool, maxBytes: nat)
    requires Informed(p, policy, accepted)
    ensures Informed(Do(p, Reply(i, yes), policy, maxBytes), policy, accepted || yes)
  {
  }

  lemma OthersLeaveView(p: Pipe, op: Op, policy: Policy, maxBytes: nat)
    requires !op.Emit? && !op.Reply?
    ensures var p' := Do(p, op, policy, maxBytes);
            p'.view == p.view && p'.consumed == p.consumed && p.events.popped <= p'.events.popped
  {
  }

  lemma StepInforms(p: Pipe, op: Op, policy: Policy, accepted: bool, maxBytes: nat)
    requires Carried(p) && Informed(p, policy, accepted)
    ensures Informed(Do(p, op, policy, maxBytes), policy, accepted || (op.Reply? && op.yes))
  {
    if op.Emit? {
      EmitInforms(p, policy, accepted, maxBytes);
    } else if op.Reply? {
      ReplyInforms(p, policy, accepted, op.prompt, op.yes, maxBytes);
    } else {
      OthersLeaveView(p, op, policy, maxBytes);
      assert Seen(Do(p, op, policy, maxBytes)) == Seen(p);
    }
  }

  // ---------------------------------------------------------------- whole histories

  /** The queue carries what the observer reports, in every state of every history. */
  lemma {:induction false} EveryStateIsCarried(ops: seq<Op>, policy: Policy, maxBytes: nat)
    ensures Carried(DoAll(ops, policy, maxBytes))
  {
    if ops == [] {
      Coalescing.EveryHistoryIsFaithful([]);
    } else {
      EveryStateIsCarried(ops[..|ops| - 1], policy, maxBytes);
      StepCarries(DoAll(ops[..|ops| - 1], policy, maxBytes), ops[|ops| - 1], policy, maxBytes);
    }
  }

  lemma ObserverSteps(p: Pipe, op: Op, policy: Policy, maxBytes: nat)
    ensures Do(p, op, policy, maxBytes).observer
              == if op.ByteRead? then Osc.Step(p.observer, op.c, maxBytes) else p.observer
  {
  }

  /** The observer has been fed what the reader has read. */
  lemma {:induction false} ObserverIsFed(ops: seq<Op>, policy: Policy, maxBytes: nat)
    ensures DoAll(ops, policy, maxBytes).observer == Osc.Feed(Osc.Run(Osc.START, []), Output(ops), maxBytes)
  {
    if ops == [] {
    } else {
      var init, op := ops[..|ops| - 1], ops[|ops| - 1];
      ObserverIsFed(init, policy, maxBytes);
      ObserverSteps(DoAll(init, policy, maxBytes), op, policy, maxBytes);
      if op.ByteRead? {
        Osc.FeedSnoc(Osc.Run(Osc.START, []), Output(init), op.c, maxBytes);
      } else {
        assert Output(init) + [] == Output(init);
      }
    }
  }

  lemma AcceptingSnoc(ops: seq<Op>, op: Op)
    ensures Accepting(ops + [op]) <==> Accepting(ops) || (op.Reply? && op.yes)
  {
    var all := ops + [op];
    assert forall i :: 0 <= i < |ops| ==> all[i] == ops[i];
    assert all[|ops|] == op;
  }

  lemma OpeningIsInformed(policy: Policy)
    ensures Informed(Opening(policy), policy, false)
  {
    assert Texts([]) == [] && Requests([]) == [];
    assert Seen(Opening(policy)) == [];
  }

  /** The view follows the emitted events and the policy, in every state of every history. */
  lemma {:induction false} EveryStateIsInformed(ops: seq<Op>, policy: Policy, maxBytes: nat)
    ensures Informed(DoAll(ops, policy, maxBytes), policy, Accepting(ops))
  {
    if ops == [] {
      OpeningIsInformed(policy);
    } else {
      var init, op := ops[..|ops| - 1], ops[|ops| - 1];
      assert ops == init + [op];
      AcceptingSnoc(init, op);
      EveryStateIsInformed(init, policy, maxBytes);
      EveryStateIsCarried(init, policy, maxBytes);
      StepInforms(DoAll(init, policy, maxBytes), op, policy, Accepting(init), maxBytes);
    }
  }

  // ---------------------------------------------------------------- what the prompts do to the requests

  function Count(ts: seq<Text>, t: Text): nat {
    if ts == [] then 0 else Count(ts[..|ts| - 1], t) + if ts[|ts| - 1] == t then 1 else 0
  }

  lemma {:induction false} CountSnoc(ts: seq<Text>, x: Text, t: Text)
    ensures Count(ts + [x], t) == Count(ts, t) + if x == t then 1 else 0
  {
    assert (ts + [x])[..|ts|] == ts;
  }

  lemma {:induction false} CountConcat(a: seq<Text>, b: seq<Text>, t: Text)
    ensures Count(a + b, t) == Count(a, t) + Count(b, t)
  {
    if b == [] {
      assert a + b == a;
    } else {
      var init, x := b[..|b| - 1], b[|b| - 1];
      CountConcat(a, init, t);
      CountSnoc(a + init, x, t);
      assert a + b == a + init + [x];
    }
  }

  function Hits(e: Event, t: Text): nat {
    if e.kind == ClipboardRequest && LuaText(e) == t then 1 else 0
  }

  /** How many requests for `t` are in a list. */
  function Requesting(es: seq<Event>, t: Text): nat {
    if es == [] then 0 else Requesting(es[..|es| - 1], t) + Hits(es[|es| - 1], t)
  }

  lemma {:induction false} RequestingSnoc(es: seq<Event>, e: Event, t: Text)
    ensures Requesting(es + [e], t) == Requesting(es, t) + Hits(e, t)
  {
    assert (es + [e])[..|es|] == es;
  }

  /** How often `t` has been written, denied or is still asked about. */
  function Times(v: View, t: Text): nat {
    Count(v.written, t) + Requesting(v.denied, t) + Requesting(v.prompts, t)
  }

  lemma AcceptedTimes(v: View, e: Event, t: Text)
    ensures Times(Accepted(v, e), t) == Times(v, t) + if LuaText(e) == t then 1 else 0
  {
    CountSnoc(v.written, LuaText(e), t);
  }

  lemma AskedBalances(v: View, e: Event, t: Text)
    ensures Times(Consume(v, Ask, e), t) == Times(v, t) + Hits(e, t)
  {
    if e.kind == ClipboardRequest {
      if v.allowed { AcceptedTimes(v, e, t); } else { RequestingSnoc(v.prompts, e, t); }
    }
  }

  lemma {:induction false} RequestingConcat(a: seq<Event>, b: seq<Event>, t: Text)
    ensures Requesting(a + b, t) == Requesting(a, t) + Requesting(b, t)
  {
    if b == [] {
      assert a + b == a;
    } else {
      var init, e := b[..|b| - 1], b[|b| - 1];
      RequestingConcat(a, init, t);
      RequestingSnoc(a + init, e, t);
      assert a + b == a + init + [e];
    }
  }

  lemma {:induction false} TakenOut(es: seq<Event>, i: nat, t: Text)
    requires i < |es|
    ensures Requesting(es, t) == Requesting(es[..i] + es[i + 1..], t) + Hits(es[i], t)
  {
    var a, e, b := es[..i], es[i], es[i + 1..];
    assert es == (a + [e]) + b;
    RequestingConcat(a + [e], b, t);
    RequestingSnoc(a, e, t);
    RequestingConcat(a, b, t);
  }

  lemma AnswerBalances(v: View, i: nat, yes: bool, t: Text)
    requires i < |v.prompts| && v.prompts[i].kind == ClipboardRequest
    ensures Times(Answered(v, i, yes), t) == Times(v, t)
  {
    var e := v.prompts[i];
    TakenOut(v.prompts, i, t);
    RequestingSnoc(v.denied, e, t);
    CountSnoc(v.written, LuaText(e), t);
  }

  /** Only requests are denied or asked about. */
  predicate HoldsRequests(v: View) {
    AllRequests(v.denied) && AllRequests(v.prompts)
  }

  lemma StepHoldsRequests(p: Pipe, op: Op, maxBytes: nat)
    requires p.consumed <= |p.events.popped| && HoldsRequests(p.view)
    ensures HoldsRequests(Do(p, op, Ask, maxBytes).view)
  {
  }

  /** A text has been dealt with as often as it was requested. */
  ghost predicate Balanced(p: Pipe, t: Text) {
    p.consumed <= |p.events.popped| && Times(p.view, t) == Requesting(Seen(p), t)
  }

  lemma EmitBalances(p: Pipe, t: Text)
    requires Balanced(p, t) && p.consumed < |p.events.popped|
    ensures Balanced(p.(view := Consume(p.view, Ask, p.events.popped[p.consumed]), consumed := p.consumed + 1), t)
  {
    var e := p.events.popped[p.consumed];
    TakeSnoc(p.events.popped, p.consumed);
    RequestingSnoc(Seen(p), e, t);
    AskedBalances(p.view, e, t);
  }

  lemma ReplyBalances(p: Pipe, i: nat, yes: bool, t: Text)
    requires Balanced(p, t) && HoldsRequests(p.view) && i < |p.view.prompts|
    ensures Balanced(p.(view := Answered(p.view, i, yes)), t)
  {
    AnswerBalances(p.view, i, yes, t);
  }

  lemma SameBalance(p: Pipe, p': Pipe, t: Text)
    requires Balanced(p, t) && p'.view == p.view && p'.consumed == p.consumed && p.events.popped <= p'.events.popped
    ensures Balanced(p', t)
  {
    assert Seen(p') == Seen(p);
  }

  lemma StepBalances(p: Pipe, op: Op, maxBytes: nat, t: Text)
    requires HoldsRequests(p.view) && Balanced(p, t)
    ensures Balanced(Do(p, op, Ask, maxBytes), t)
  {
    if op.Emit? {
      if p.consumed < |p.events.popped| { EmitBalances(p, t); }
    } else if op.Reply? {
      if op.prompt < |p.view.prompts| { ReplyBalances(p, op.prompt, op.yes, t); }
    } else {
      OthersLeaveView(p, op, Ask, maxBytes);
      SameBalance(p, Do(p, op, Ask, maxBytes), t);
    }
  }

  lemma {:induction false} EveryStateIsBalanced(ops: seq<Op>, maxBytes: nat, t: Text)
    ensures HoldsRequests(DoAll(ops, Ask, maxBytes).view) && Balanced(DoAll(ops, Ask, maxBytes), t)
  {
    if ops == [] {
    } else {
      var init, op := ops[..|ops| - 1], ops[|ops| - 1];
      EveryStateIsBalanced(init, maxBytes, t);
      StepHoldsRequests(DoAll(init, Ask, maxBytes), op, maxBytes);
      StepBalances(DoAll(init, Ask, maxBytes), op, maxBytes, t);
    }
  }

  lemma {:induction false} RequestingTexts(es: seq<Event>, t: Text)
    ensures Requesting(es, t) == Count(Texts(es), t)
  {
    if es == [] {
    } else {
      var init, e := es[..|es| - 1], es[|es| - 1];
      RequestingTexts(init, t);
      if e.kind == ClipboardRequest {
        CountSnoc(Texts(init), LuaText(e), t);
      } else {
        assert Texts(init) + [] == Texts(init);
      }
    }
  }

  // ---------------------------------------------------------------- from the stream to the clipboard

  /** The data of an OSC 52 payload: what follows the target's semicolon. */
  ghost function PayloadData(payload: seq<Byte>): Option<seq<Byte>> {
    match FindByte(payload, SEMICOLON)
    case None => None
    case Some(j) => Base64.Meaning(payload[j + 1..])
  }

  /** The data that a body asks to put on the clipboard: OSC 52, within the limit, in the base64 language. */
  ghost function ClipboardData(body: seq<Byte>, maxBytes: nat): Option<seq<Byte>> {
    match FindByte(body, SEMICOLON)
    case None => None
    case Some(i) =>
      if |body| <= maxBytes && body[..i] == Osc.Ascii("52") then PayloadData(body[i + 1..]) else None
  }

  /** The clipboard data of a stream's frames, in order. */
  ghost function AllData(fs: seq<OscGrammar.Frame>, maxBytes: nat): seq<seq<Byte>> {
    if fs == [] then []
    else
      var data := ClipboardData(OscGrammar.BodyBytes(fs[|fs| - 1].body), maxBytes);
      AllData(fs[..|fs| - 1], maxBytes) + if data.Some? then [data.value] else []
  }

  /** What Lua reads of clipboard data. */
  function Read(data: seq<Byte>): Text { LuaText(Osc.ClipboardEvent([], data)) }

  function ReadAll(ds: seq<seq<Byte>>): seq<Text> {
    if ds == [] then [] else ReadAll(ds[..|ds| - 1]) + [Read(ds[|ds| - 1])]
  }

  /** No NUL stands before the last byte. */
  predicate Whole(data: seq<Byte>) {
    forall i :: 0 <= i < |data| - 1 ==> data[i] != NUL
  }

  /** Data reach Lua unchanged exactly when no NUL stands before their last byte. */
  lemma ReadIsExact(data: seq<Byte>)
    ensures Read(data) == Some(data) <==> Whole(data)
  {
    var cut := CString(data);
    assert forall i :: 0 <= i < |cut| ==> data[i] == cut[i] && cut[i] in cut;
    if |cut| < |data| - 1 {
      assert data[|cut|] == NUL;
    } else if |cut| == |data| - 1 {
      assert data[|cut|] == NUL && data == cut + [NUL];
      assert (cut + [NUL])[..|data|] == data;
    } else {
      assert cut == data && (cut + [NUL])[..|data|] == data;
    }
  }

  /** With a NUL before the last byte there is no telling what is read: the copy ends at it. */
  lemma NulIsReadBeyond()
    ensures Read([NUL, 0x41]) == None
  {
    assert CString([NUL, 0x41]) == [];
  }

  lemma ReportText(target: seq<Byte>, code: seq<Byte>, maxBytes: nat)
    requires |code| <= maxBytes
    ensures var data := Base64.Meaning(code);
            TextOf(Osc.ClipboardReport(target, code, maxBytes)) == if data.Some? then [Read(data.value)] else []
  {
    Base64.LimitCannotRefuse(code, maxBytes);
  }

  lemma PayloadRequests(payload: seq<Byte>, maxBytes: nat)
    requires |payload| <= maxBytes
    ensures var data := PayloadData(payload);
            Texts(Osc.ClipboardEvents(payload, maxBytes)) == if data.Some? then [Read(data.value)] else []
  {
    match FindByte(payload, SEMICOLON) {
      case None =>
      case Some(j) =>
        var target, code := payload[..j], payload[j + 1..];
        ReportText(target, code, maxBytes);
        TextsOne(Osc.ClipboardReport(target, code, maxBytes));
    }
  }

  lemma BodyRequests(body: seq<Byte>, maxBytes: nat)
    ensures var data := ClipboardData(body, maxBytes);
            Texts(Osc.Interpret(body, maxBytes)) == if data.Some? then [Read(data.value)] else []
  {
    var i := FindByte(body, SEMICOLON);
    assert |Osc.Ascii("9")| == 1 && |Osc.Ascii("52")| == 2;
    if |body| > maxBytes {
      TextsOne(Osc.Oversized());
    } else if i.Some? && body[..i.value] == Osc.Ascii("52") {
      PayloadRequests(body[i.value + 1..], maxBytes);
    } else if i.Some? {
      TextsOne(Osc.NotificationEvent(body[i.value + 1..]));
    }
  }

  lemma {:induction false} ReadAllSnoc(ds: seq<seq<Byte>>, d: seq<Byte>)
    ensures ReadAll(ds + [d]) == ReadAll(ds) + [Read(d)]
  {
    assert (ds + [d])[..|ds|] == ds;
  }

  lemma {:induction false} FramesRequest(fs: seq<OscGrammar.Frame>, maxBytes: nat)
    ensures Texts(Osc.InterpretFrames(fs, maxBytes)) == ReadAll(AllData(fs, maxBytes))
  {
    if fs == [] {
    } else {
      var init, body := fs[..|fs| - 1], OscGrammar.BodyBytes(fs[|fs| - 1].body);
      FramesRequest(init, maxBytes);
      TextsConcat(Osc.InterpretFrames(init, maxBytes), Osc.Interpret(body, maxBytes));
      BodyRequests(body, maxBytes);
      var data := ClipboardData(body, maxBytes);
      if data.Some? {
        ReadAllSnoc(AllData(init, maxBytes), data.value);
      } else {
        assert AllData(init, maxBytes) + [] == AllData(init, maxBytes);
      }
    }
  }

  lemma CopiedText(e: Event)
    ensures TextOf(Dup(e)) == TextOf(e)
  {
    LuaTextOfCopy(e);
  }

  lemma LearnsText(k: Knowledge, e: Event)
    ensures Texts(Learn(k, e).others) == Texts(k.others) + TextOf(e)
  {
    TextsSnoc(k.others, Dup(e));
    CopiedText(e);
    assert Texts(k.others) + [] == Texts(k.others);
  }

  /** Copies are read like their originals, so the others that a list tells carry its requests' texts. */
  lemma {:induction false} KnownTexts(es: seq<Event>)
    ensures Texts(es) == Texts(Know(es).others)
  {
    if es == [] {
    } else {
      var init, e := es[..|es| - 1], es[|es| - 1];
      KnownTexts(init);
      LearnsText(Know(init), e);
    }
  }

  lemma {:induction false} CopiedTexts(es: seq<Event>)
    ensures Texts(DupAll(es)) == Texts(es)
  {
    if es == [] {
    } else {
      CopiedTexts(es[..|es| - 1]);
      TextsSnoc(DupAll(es[..|es| - 1]), Dup(es[|es| - 1]));
      CopiedText(es[|es| - 1]);
    }
  }

  /** Events on their way: popped but not emitted, then queued. */
  function InFlight(p: Pipe): seq<Event>
    requires p.consumed <= |p.events.popped|
  {
    p.events.popped[p.consumed..] + p.events.q.items
  }

  lemma ReportedTexts(p: Pipe)
    requires Carried(p)
    ensures Texts(Coalescing.Delivered(p.events)) == Texts(p.observer.events)
  {
    KnownTexts(Coalescing.Delivered(p.events));
    CopiedTexts(p.observer.events);
  }

  lemma SeenAndInFlight(p: Pipe)
    requires p.consumed <= |p.events.popped|
    ensures Texts(Seen(p)) + Texts(InFlight(p)) == Texts(Coalescing.Delivered(p.events))
  {
    JoinAt(p.events.popped, p.events.q.items, p.consumed);
    TextsConcat(Seen(p), InFlight(p));
  }

  /** What Lua will have read of the stream's clipboard data when all has been emitted, in order. */
  ghost function Requested(ops: seq<Op>, maxBytes: nat): seq<Text> {
    ReadAll(AllData(OscGrammar.Parse(Output(ops)).frames, maxBytes))
  }

  /** The requests seen so far and those on their way are the stream's, in order. */
  lemma {:induction false} StreamIsSeen(ops: seq<Op>, policy: Policy, maxBytes: nat)
    ensures var p := DoAll(ops, policy, maxBytes);
            p.consumed <= |p.events.popped| && Texts(Seen(p)) + Texts(InFlight(p)) == Requested(ops, maxBytes)
  {
    EveryStateIsCarried(ops, policy, maxBytes);
    ObserverIsFed(ops, policy, maxBytes);
    var p := DoAll(ops, policy, maxBytes);
    ReportedTexts(p);
    SeenAndInFlight(p);
    Osc.FeedIsParse(Output(ops), maxBytes);
    FramesRequest(OscGrammar.Parse(Output(ops)).frames, maxBytes);
  }

  /**
    * Under "allow", for every chunking and interleaving: the clipboard writes so far, followed by those on
    * their way, are the decoded data of the output's OSC 52 sequences, in order. Once everything is drained
    * and emitted, none is lost, merged or duplicated.
    */
  lemma {:induction false} AllowDeliversEverything(ops: seq<Op>, maxBytes: nat)
    ensures var p := DoAll(ops, Allow, maxBytes);
            && p.consumed <= |p.events.popped|
            && p.view.written + Texts(InFlight(p)) == Requested(ops, maxBytes)
            && (InFlight(p) == [] ==> p.view.written == Requested(ops, maxBytes))
  {
    EveryStateIsInformed(ops, Allow, maxBytes);
    StreamIsSeen(ops, Allow, maxBytes);
    var p := DoAll(ops, Allow, maxBytes);
    assert p.view.written + [] == p.view.written;
  }

  /** A list of data is read unchanged exactly when that holds of each of them. */
  lemma {:induction false} ReadAllIsExact(ds: seq<seq<Byte>>)
    ensures |ReadAll(ds)| == |ds|
    ensures (forall i :: 0 <= i < |ds| ==> ReadAll(ds)[i] == Some(ds[i])) <==>
            (forall i :: 0 <= i < |ds| ==> Whole(ds[i]))
  {
    if ds == [] {
    } else {
      var init, d := ds[..|ds| - 1], ds[|ds| - 1];
      ReadAllIsExact(init);
      ReadIsExact(d);
      assert forall i :: 0 <= i < |init| ==> ds[i] == init[i] && ReadAll(ds)[i] == ReadAll(init)[i];
      assert ds[|init|] == d && ReadAll(ds)[|init|] == Read(d);
    }
  }

  /** Drained under "allow", the clipboard has got each of the stream's data, unchanged exactly if all are whole. */
  lemma {:induction false} AllowDeliversUnchanged(ops: seq<Op>, maxBytes: nat)
    ensures var p, data := DoAll(ops, Allow, maxBytes), AllData(OscGrammar.Parse(Output(ops)).frames, maxBytes);
            && p.consumed <= |p.events.popped|
            && (InFlight(p) == [] ==>
                  && |p.view.written| == |data|
                  && ((forall i :: 0 <= i < |data| ==> p.view.written[i] == Some(data[i])) <==>
                      (forall i :: 0 <= i < |data| ==> Whole(data[i]))))
  {
    AllowDeliversEverything(ops, maxBytes);
    ReadAllIsExact(AllData(OscGrammar.Parse(Output(ops)).frames, maxBytes));
  }

  /** Under "deny" nothing is ever written, and the denied requests are the stream's, in order. */
  lemma {:induction false} DenyRefusesEverything(ops: seq<Op>, maxBytes: nat)
    ensures var p := DoAll(ops, Deny, maxBytes);
            && p.consumed <= |p.events.popped|
            && p.view.written == [] && p.view.prompts == [] && p.view.denied == Requests(Seen(p))
            && Texts(p.view.denied) + Texts(InFlight(p)) == Requested(ops, maxBytes)
  {
    EveryStateIsInformed(ops, Deny, maxBytes);
    StreamIsSeen(ops, Deny, maxBytes);
    RequestTexts(Seen(DoAll(ops, Deny, maxBytes)));
  }

  /**
    * Under "ask" nothing is written before a yes; and however the prompts are answered, any text has been
    * written, denied, is still asked about or is on its way exactly as often as the stream requested it.
    */
  lemma {:induction false} AskLosesNothing(ops: seq<Op>, maxBytes: nat, t: Text)
    ensures var p := DoAll(ops, Ask, maxBytes);
            && p.consumed <= |p.events.popped|
            && (!Accepting(ops) ==> p.view.written == [])
            && AllRequests(p.view.denied) && AllRequests(p.view.prompts)
            && Count(p.view.written, t) + Requesting(p.view.denied, t) + Requesting(p.view.prompts, t)
                 + Requesting(InFlight(p), t) == Count(Requested(ops, maxBytes), t)
  {
    EveryStateIsInformed(ops, Ask, maxBytes);
    StreamIsSeen(ops, Ask, maxBytes);
    EveryStateIsBalanced(ops, maxBytes, t);
    var p := DoAll(ops, Ask, maxBytes);
    CountConcat(Texts(Seen(p)), Texts(InFlight(p)), t);
    RequestingTexts(Seen(p), t);
    RequestingTexts(InFlight(p), t);
  }

  /** When everything is drained and emitted, the view's title and directory are the ones kept last. */
  lemma {:induction false} LatestStringsAreShown(ops: seq<Op>, policy: Policy, maxBytes: nat)
    ensures var p := DoAll(ops, policy, maxBytes);
            && p.consumed <= |p.events.popped|
            && (InFlight(p) == [] ==> p.view.title == Cut(p.lastTitle) && p.view.cwd == Cut(p.lastPwd))
  {
    EveryStateIsCarried(ops, policy, maxBytes);
    EveryStateIsInformed(ops, policy, maxBytes);
    var p := DoAll(ops, policy, maxBytes);
    if InFlight(p) == [] {
      assert p.consumed == |p.events.popped| && p.events.q.items == [];
      assert Seen(p) == p.events.popped == Coalescing.Delivered(p.events);
    }
  }

  /**
    * An empty directory is reported exactly when none was kept before, or the one kept last has a byte before
    * its first NUL; otherwise nothing happens.
    */
  lemma EmptyCwdIsReported(p: Pipe, policy: Policy, maxBytes: nat)
    ensures var p' := Do(p, CwdRead([]), policy, maxBytes);
            && (p'.events.pushed == p.events.pushed + [CwdEvent([])] <==>
                  p.lastPwd == None || (p.lastPwd.value != [] && p.lastPwd.value[0] != NUL))
            && (p'.events.pushed == p.events.pushed + [CwdEvent([])] || p' == p)
  {
    assert p.events.pushed != p.events.pushed + [CwdEvent([])];
  }
}
