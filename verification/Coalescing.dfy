/**
  * Coalescing changes the list, not the meaning.
  *
  * A history is any interleaving of pushes and pops, each atomic under the queue's mutex. What the
  * consumer can learn from the events popped so far and those still queued is, at every moment, what
  * it would have learnt from every push.
  */
module Coalescing {
  import opened Bytes
  import opened Events
  import opened EventQueue

  // ---------------------------------------------------------------- one push

  ghost predicate AtMostOne(es: seq<Event>, k: Kind) {
    forall i, j :: 0 <= i < j < |es| ==> !(es[i].kind == k && es[j].kind == k)
  }

  ghost predicate Holds(es: seq<Event>, k: Kind) {
    exists i :: 0 <= i < |es| && es[i].kind == k
  }

  /** A queued event has a kind, its strings are cut, and a bell in it counts at least one bell. */
  predicate Sound(e: Event) {
    e.kind != NoKind && (e.kind == Bell ==> e.bytes >= 1) && Dup(e) == e
  }

  /** What every reachable queue satisfies. */
  ghost predicate WellFormed(q: State) {
    && AtMostOne(q.items, Bell) && AtMostOne(q.items, Title) && AtMostOne(q.items, Cwd) && AtMostOne(q.items, Exit)
    && (forall i :: 0 <= i < |q.items| ==> Sound(q.items[i]))
    && (Holds(q.items, Exit) ==> q.exitDelivered)
  }

  lemma CutTwice(e: Event)
    ensures Cut(Cut(e.title)) == Cut(e.title) && Cut(Cut(e.body)) == Cut(e.body)
  {
    DupTwice(e);
    assert Dup(Dup(e)).title == Dup(e).title && Dup(Dup(e)).body == Dup(e).body;
  }

  /** A push is refused, absorbed by the queued event of its kind, or appended. */
  lemma PushCases(q: State, e: Event)
    ensures var q', i := Push(q, e), LastOf(q.items, e.kind);
            if e.kind == NoKind || (e.kind == Exit && q.exitDelivered) then q' == q
            else if Coalesces(e.kind) && i >= 0 then
              && q'.exitDelivered == q.exitDelivered
              && q'.items == q.items[i := q'.items[i]] && q'.items[i].kind == e.kind
              && (Sound(q.items[i]) ==> Sound(q'.items[i]))
            else
              && q'.exitDelivered == (q.exitDelivered || e.kind == Exit)
              && q'.items == q.items + [Stored(e)] && Sound(Stored(e))
  {
    DupTwice(e);
    CutTwice(e);
  }

  lemma AbsorbedKeepsUnique(es: seq<Event>, i: nat, e: Event, k: Kind)
    requires i < |es| && e.kind == es[i].kind
    ensures AtMostOne(es, k) ==> AtMostOne(es[i := e], k)
    ensures Holds(es, k) <==> Holds(es[i := e], k)
  {
    var es' := es[i := e];
    assert forall j :: 0 <= j < |es| ==> es'[j].kind == es[j].kind;
  }

  lemma AppendedKeepsUnique(es: seq<Event>, e: Event, k: Kind)
    ensures AtMostOne(es, k) && (e.kind == k ==> !Holds(es, k)) ==> AtMostOne(es + [e], k)
    ensures Holds(es + [e], k) <==> Holds(es, k) || e.kind == k
  {
    var es' := es + [e];
    assert forall j :: 0 <= j < |es| ==> es'[j] == es[j];
    assert es'[|es|] == e;
  }

  lemma PushKeepsWellFormed(q: State, e: Event)
    requires WellFormed(q)
    ensures WellFormed(Push(q, e))
  {
    PushCases(q, e);
    var q', i := Push(q, e), LastOf(q.items, e.kind);
    forall k ensures AtMostOne(q.items, k) && (k == Exit || Coalesces(k)) ==> AtMostOne(q'.items, k)
             ensures k == Exit && Holds(q'.items, k) ==> q'.exitDelivered {
      if q' != q {
        if Coalesces(e.kind) && i >= 0 {
          AbsorbedKeepsUnique(q.items, i, q'.items[i], k);
        } else {
          AppendedKeepsUnique(q.items, Stored(e), k);
        }
      }
    }
  }

  /**
    * The pushes whose meaning coalescing keeps after the events `past` have been popped: a bell that stands
    * for one bell, a title or directory that is present, or an absent one when `past` told the queued one
    * already. Without a queued event of the same kind, every push is of this sort.
    */
  predicate Harmless(past: seq<Event>, q: State, e: Event) {
    var i := LastOf(q.items, e.kind);
    match e.kind
    case Bell => i < 0 || e.bytes <= 1
    case Title => i < 0 || e.title.Some? || q.items[i].title.None? || Know(past).title == q.items[i].title
    case Cwd => i < 0 || e.body.Some? || q.items[i].body.None? || Know(past).cwd == q.items[i].body
    case _ => true
  }

  lemma {:induction false} OneMoreBell(es: seq<Event>, i: nat)
    requires i < |es| && es[i].kind == Bell && es[i].bytes >= 1
    ensures Know(es[i := es[i].(bytes := es[i].bytes + 1)]) == Know(es).(bells := Know(es).bells + 1)
  {
    var es' := es[i := es[i].(bytes := es[i].bytes + 1)];
    var n := |es| - 1;
    if i < n {
      OneMoreBell(es[..n], i);
      assert es'[..n] == es[..n][i := es'[i]];
    } else {
      assert es'[..n] == es[..n];
    }
  }

  /** The last event of kind `k` in a list stands at `i`. */
  ghost predicate LastAt(es: seq<Event>, i: nat, k: Kind) {
    i < |es| && es[i].kind == k && forall j :: i < j < |es| ==> es[j].kind != k
  }

  /** A list tells its last title, or if that is absent the one told before it. */
  lemma {:induction false} TitleTold(es: seq<Event>, i: nat)
    requires LastAt(es, i, Title)
    ensures Know(es).title == if es[i].title.Some? then Cut(es[i].title) else Know(es[..i]).title
  {
    var init := es[..|es| - 1];
    if i == |es| - 1 {
    } else {
      TitleTold(init, i);
      assert init[..i] == es[..i];
    }
  }

  /** Overwriting the last title event changes nothing but the title that the list tells. */
  lemma {:induction false} Retitled(es: seq<Event>, i: nat, e: Event)
    requires LastAt(es, i, Title) && e.kind == Title
    ensures LastAt(es[i := e], i, Title)
    ensures Know(es[i := e]) == Know(es).(title := Know(es[i := e]).title)
  {
    var init := es[..|es| - 1];
    if i == |es| - 1 {
      assert es[i := e][..i] == init;
    } else {
      Retitled(init, i, e);
      assert es[i := e][..|es| - 1] == init[i := e];
    }
  }

  lemma {:induction false} CwdTold(es: seq<Event>, i: nat)
    requires LastAt(es, i, Cwd)
    ensures Know(es).cwd == if es[i].body.Some? then Cut(es[i].body) else Know(es[..i]).cwd
  {
    var init := es[..|es| - 1];
    if i == |es| - 1 {
    } else {
      CwdTold(init, i);
      assert init[..i] == es[..i];
    }
  }

  lemma {:induction false} Relocated(es: seq<Event>, i: nat, e: Event)
    requires LastAt(es, i, Cwd) && e.kind == Cwd
    ensures LastAt(es[i := e], i, Cwd)
    ensures Know(es[i := e]) == Know(es).(cwd := Know(es[i := e]).cwd)
  {
    var init := es[..|es| - 1];
    if i == |es| - 1 {
      assert es[i := e][..i] == init;
    } else {
      Relocated(init, i, e);
      assert es[i := e][..|es| - 1] == init[i := e];
    }
  }

  /** Events of other kinds do not change the title or the directory that has been told. */
  lemma {:induction false} Untold(past: seq<Event>, es: seq<Event>)
    ensures (forall j :: 0 <= j < |es| ==> es[j].kind != Title) ==> Know(past + es).title == Know(past).title
    ensures (forall j :: 0 <= j < |es| ==> es[j].kind != Cwd) ==> Know(past + es).cwd == Know(past).cwd
  {
    if es == [] {
      assert past + es == past;
    } else {
      var init, e := es[..|es| - 1], es[|es| - 1];
      Untold(past, init);
      assert past + es == (past + init) + [e];
      KnowSnoc(past + init, e);
    }
  }

  lemma LearnStored(k: Knowledge, e: Event)
    ensures Learn(k, Stored(e)) == Learn(k, e)
  {
    DupTwice(e);
    CutTwice(e);
  }

  lemma {:induction false} BellTeaches(past: seq<Event>, q: State, e: Event, i: nat)
    requires WellFormed(q) && e.kind == Bell && LastOf(q.items, Bell) == i
    ensures Know(past + Push(q, e).items) == Learn(Know(past + q.items), e) <==> Harmless(past, q, e)
  {
    var es, at := past + q.items, |past| + i;
    assert es[at] == q.items[i] && Sound(q.items[i]);
    OneMoreBell(es, at);
    assert past + Push(q, e).items == es[at := es[at].(bytes := es[at].bytes + 1)];
  }

  lemma {:induction false} TitleTeaches(past: seq<Event>, q: State, e: Event, i: nat)
    requires WellFormed(q) && e.kind == Title && LastOf(q.items, Title) == i
    ensures Know(past + Push(q, e).items) == Learn(Know(past + q.items), e) <==> Harmless(past, q, e)
  {
    var es, at, latest := past + q.items, |past| + i, Push(q, e).items[i];
    assert es[at] == q.items[i] && Sound(q.items[i]);
    assert past + Push(q, e).items == es[at := latest];
    assert LastAt(es, at, Title) by {
      assert forall j :: at < j < |es| ==> es[j] == q.items[j - |past|];
    }
    Retitled(es, at, latest);
    TitleTold(es, at);
    TitleTold(es[at := latest], at);
    assert es[at := latest][..at] == es[..at] == past + q.items[..i];
    Untold(past, q.items[..i]);
    CutTwice(e);
  }

  lemma {:induction false} CwdTeaches(past: seq<Event>, q: State, e: Event, i: nat)
    requires WellFormed(q) && e.kind == Cwd && LastOf(q.items, Cwd) == i
    ensures Know(past + Push(q, e).items) == Learn(Know(past + q.items), e) <==> Harmless(past, q, e)
  {
    var es, at, latest := past + q.items, |past| + i, Push(q, e).items[i];
    assert es[at] == q.items[i] && Sound(q.items[i]);
    assert past + Push(q, e).items == es[at := latest];
    assert LastAt(es, at, Cwd) by {
      assert forall j :: at < j < |es| ==> es[j] == q.items[j - |past|];
    }
    Relocated(es, at, latest);
    CwdTold(es, at);
    CwdTold(es[at := latest], at);
    assert es[at := latest][..at] == es[..at] == past + q.items[..i];
    Untold(past, q.items[..i]);
    CutTwice(e);
  }

  lemma {:induction false} AppendedTeaches(past: seq<Event>, items: seq<Event>, e: Event)
    ensures Know(past + (items + [Stored(e)])) == Learn(Know(past + items), e)
  {
    Associative(past, items, [Stored(e)]);
    KnowSnoc(past + items, Stored(e));
    LearnStored(Know(past + items), e);
  }

  /**
    * Whatever has been popped before, a push adds to what the consumer is told exactly what the pushed
    * event tells if it is harmless, and only then.
    */
  lemma {:induction false} PushTeachesIffHarmless(past: seq<Event>, q: State, e: Event)
    requires WellFormed(q) && q.exitDelivered == Know(past + q.items).exit.Some?
    ensures Know(past + Push(q, e).items) == Learn(Know(past + q.items), e) <==> Harmless(past, q, e)
  {
    PushCases(q, e);
    var i := LastOf(q.items, e.kind);
    if e.kind == NoKind || (e.kind == Exit && q.exitDelivered) {
    } else if i >= 0 && e.kind == Bell {
      BellTeaches(past, q, e, i);
    } else if i >= 0 && e.kind == Title {
      TitleTeaches(past, q, e, i);
    } else if i >= 0 && e.kind == Cwd {
      CwdTeaches(past, q, e, i);
    } else {
      assert Harmless(past, q, e);
      AppendedTeaches(past, q.items, e);
    }
  }

  /** Two bells pushed as one event count as one, and an absent title takes the queued one away. */
  lemma HarmfulPushesLose()
    ensures var q, e := State([BLANK.(kind := Bell, bytes := 1)], false), BLANK.(kind := Bell, bytes := 2);
            Know(Push(q, e).items) != Learn(Know(q.items), e)
    ensures var q, e := State([BLANK.(kind := Title, title := Some([]))], false), BLANK.(kind := Title);
            Know(Push(q, e).items) != Learn(Know(q.items), e)
  {
    assert Know([BLANK.(kind := Bell, bytes := 1)]).bells == 1;
  }

  /** A coalesced title or directory event keeps its place and takes the new strings and number, cut like a copy. */
  lemma AbsorbedFields(q: State, e: Event, i: nat)
    requires (e.kind == Title || e.kind == Cwd) && LastOf(q.items, e.kind) == i
    ensures |Push(q, e).items| == |q.items|
    ensures forall j :: 0 <= j < |q.items| && j != i ==> Push(q, e).items[j] == q.items[j]
    ensures var was, now := q.items[i], Push(q, e).items[i];
            && IsCut(e.title, now.title) && IsCut(e.body, now.body) && now.bytes == e.bytes
            && now.kind == was.kind && now.text == was.text && now.clipboard == was.clipboard
            && now.code == was.code && now.signal == was.signal
  {
    CutIsExact(e.title, Cut(e.title));
    CutIsExact(e.body, Cut(e.body));
  }

  /** An event that is not coalesced is appended as a copy; a bell that does not say how many counts one. */
  lemma AppendedFields(q: State, e: Event)
    requires e.kind != NoKind && !(e.kind == Exit && q.exitDelivered)
    requires e.kind == Bell || e.kind == Title || e.kind == Cwd ==> LastOf(q.items, e.kind) < 0
    ensures |Push(q, e).items| == |q.items| + 1 && Push(q, e).items[..|q.items|] == q.items
    ensures var d := Push(q, e).items[|q.items|];
            && d.kind == e.kind && d.code == e.code && d.signal == e.signal
            && d.bytes == (if e.kind == Bell && e.bytes == 0 then 1 else e.bytes)
            && IsCut(e.title, d.title) && IsCut(e.body, d.body) && IsCut(e.text, d.text)
            && IsCut(e.clipboard, d.clipboard)
  {
    DupIsExact(e, Dup(e));
  }

  // ---------------------------------------------------------------- whole histories

  datatype Op = PushOp(event: Event) | PopOp

  datatype History = History(q: State, popped: seq<Event>, pushed: seq<Event>)

  function Do(h: History, op: Op): History {
    match op
    case PushOp(e) => h.(q := Push(h.q, e), pushed := h.pushed + [e])
    case PopOp =>
      if h.q.items == [] then h
      else h.(q := h.q.(items := h.q.items[1..]), popped := h.popped + [h.q.items[0]])
  }

  function DoAll(ops: seq<Op>): History {
    if ops == [] then History(EMPTY, [], []) else Do(DoAll(ops[..|ops| - 1]), ops[|ops| - 1])
  }

  /** The events that the terminal's own producers push. */
  predicate Produced(e: Event) {
    && (e.kind == Bell ==> e.bytes == 0)
    && (e.kind == Title ==> e.title.Some?)
    && (e.kind == Cwd ==> e.body.Some?)
  }

  predicate AllProduced(ops: seq<Op>) {
    forall i :: 0 <= i < |ops| && ops[i].PushOp? ==> Produced(ops[i].event)
  }

  /** Everything the consumer has been or will be handed, in order. */
  function Delivered(h: History): seq<Event> { h.popped + h.q.items }

  /** What every history keeps besides its meaning: the latch is set once an exit has been delivered. */
  ghost predicate Latched(h: History) {
    && WellFormed(h.q)
    && AtMostOne(Delivered(h), Exit)
    && (h.q.exitDelivered <==> Holds(Delivered(h), Exit))
  }

  lemma TailIsWellFormed(q: State)
    requires WellFormed(q) && q.items != []
    ensures WellFormed(q.(items := q.items[1..]))
  {
    var t := q.items[1..];
    assert forall j :: 0 <= j < |t| ==> t[j] == q.items[j + 1];
  }

  /** A push absorbed at `i` of the queue changes that place of what is delivered; another one appends to it. */
  lemma PushDelivers(h: History, e: Event)
    requires Push(h.q, e) != h.q
    ensures var es, i := Delivered(Do(h, PushOp(e))), LastOf(h.q.items, e.kind);
            if Coalesces(e.kind) && i >= 0 then
              && Delivered(h)[|h.popped| + i].kind == Push(h.q, e).items[i].kind
              && es == Delivered(h)[|h.popped| + i := Push(h.q, e).items[i]]
            else es == Delivered(h) + [Stored(e)]
  {
    PushCases(h.q, e);
  }

  lemma PushKeepsOneExit(h: History, e: Event)
    requires AtMostOne(Delivered(h), Exit) && (h.q.exitDelivered <==> Holds(Delivered(h), Exit))
    ensures var h' := Do(h, PushOp(e));
            AtMostOne(Delivered(h'), Exit) && (h'.q.exitDelivered <==> Holds(Delivered(h'), Exit))
  {
    PushCases(h.q, e);
    var i := LastOf(h.q.items, e.kind);
    if Push(h.q, e) == h.q {
      assert Delivered(Do(h, PushOp(e))) == Delivered(h);
    } else {
      PushDelivers(h, e);
      if Coalesces(e.kind) && i >= 0 {
        AbsorbedKeepsUnique(Delivered(h), |h.popped| + i, Push(h.q, e).items[i], Exit);
      } else {
        AppendedKeepsUnique(Delivered(h), Stored(e), Exit);
      }
    }
  }

  lemma PushKeepsLatched(h: History, e: Event)
    requires Latched(h)
    ensures Latched(Do(h, PushOp(e)))
  {
    PushKeepsWellFormed(h.q, e);
    PushKeepsOneExit(h, e);
  }

  lemma DoKeepsLatched(h: History, op: Op)
    requires Latched(h)
    ensures Latched(Do(h, op))
  {
    match op {
      case PopOp =>
        if h.q.items != [] {
          assert Delivered(Do(h, op)) == Delivered(h);
          TailIsWellFormed(h.q);
        }
      case PushOp(e) => PushKeepsLatched(h, e);
    }
  }

  lemma {:induction false} KnownExit(es: seq<Event>)
    ensures Know(es).exit.Some? <==> Holds(es, Exit)
  {
    if es == [] {
    } else {
      var init := es[..|es| - 1];
      KnownExit(init);
      AppendedKeepsUnique(init, es[|es| - 1], Exit);
      assert es == init + [es[|es| - 1]];
    }
  }

  lemma DoTeaches(h: History, op: Op)
    requires Latched(h) && (op.PushOp? ==> Produced(op.event))
    ensures Know(Delivered(Do(h, op))) == if op.PushOp? then Learn(Know(Delivered(h)), op.event) else Know(Delivered(h))
  {
    match op {
      case PopOp => assert Delivered(Do(h, op)) == Delivered(h);
      case PushOp(e) =>
        KnownExit(Delivered(h));
        PushTeachesIffHarmless(h.popped, h.q, e);
    }
  }

  /** The queue is latched, and what has been and will be handed out tells what was pushed. */
  ghost predicate Faithful(h: History) {
    Latched(h) && Know(Delivered(h)) == Know(h.pushed)
  }

  lemma DoKeepsFaithful(h: History, op: Op)
    requires Faithful(h) && (op.PushOp? ==> Produced(op.event))
    ensures Faithful(Do(h, op))
    ensures Know(Do(h, op).pushed) == if op.PushOp? then Learn(Know(h.pushed), op.event) else Know(h.pushed)
  {
    DoKeepsLatched(h, op);
    DoTeaches(h, op);
    if op.PushOp? { KnowSnoc(h.pushed, op.event); }
  }

  /** A push of anything but an exit leaves the latch and the known exit alone. */
  lemma NoExitPushed(h: History, op: Op)
    requires op.PushOp? ==> op.event.kind != Exit
    ensures Do(h, op).q.exitDelivered == h.q.exitDelivered
    ensures forall k: Knowledge :: op.PushOp? ==> Learn(k, op.event).exit == k.exit
  {
    if op.PushOp? { PushCases(h.q, op.event); }
  }

  lemma {:induction false} EveryHistoryIsFaithful(ops: seq<Op>)
    requires AllProduced(ops)
    ensures Faithful(DoAll(ops))
  {
    if ops == [] {
    } else {
      var init := ops[..|ops| - 1];
      assert forall i :: 0 <= i < |init| ==> init[i] == ops[i];
      EveryHistoryIsFaithful(init);
      DoKeepsFaithful(DoAll(init), ops[|ops| - 1]);
    }
  }

  /**
    * For every interleaving of pushes and pops, the consumer is told the last title, the last directory,
    * the number of bells, the first exit and all other events in order, exactly as if nothing had been
    * coalesced. Once the queue is drained, it has been told.
    */
  lemma {:induction false} CoalescingPreservesMeaning(ops: seq<Op>)
    requires AllProduced(ops)
    ensures var h := DoAll(ops);
            && Know(Delivered(h)) == Know(h.pushed)
            && (h.q.items == [] ==> Know(h.popped) == Know(h.pushed))
            && Latched(h)
  {
    EveryHistoryIsFaithful(ops);
    assert DoAll(ops).popped + [] == DoAll(ops).popped;
  }
}
