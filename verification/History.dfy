/**
  * What the view ends up showing and the queue ends up telling, read off the history of operations alone.
  */
module History {
  import opened Bytes
  import opened Events
  import opened Consumer
  import opened Pipeline
  import Coalescing
  import EventQueue
  import OscGrammar
  import Osc = OscObserver

  // ---------------------------------------------------------------- titles and directories

  function LastTitle(ops: seq<Op>): Option<seq<Byte>> {
    if ops == [] then None
    else match ops[|ops| - 1] case TitleRead(v) => Some(v) case _ => LastTitle(ops[..|ops| - 1])
  }

  function LastCwd(ops: seq<Op>): Option<seq<Byte>> {
    if ops == [] then None
    else match ops[|ops| - 1] case CwdRead(v) => Some(v) case _ => LastCwd(ops[..|ops| - 1])
  }

  lemma {:induction false} LastTitleIsLast(ops: seq<Op>)
    ensures LastTitle(ops) == None <==> forall i :: 0 <= i < |ops| ==> !ops[i].TitleRead?
    ensures forall k :: 0 <= k < |ops| && ops[k].TitleRead? && (forall i :: k < i < |ops| ==> !ops[i].TitleRead?) ==>
              LastTitle(ops) == Some(ops[k].value)
  {
    if ops == [] {
    } else {
      var init := ops[..|ops| - 1];
      LastTitleIsLast(init);
      assert forall i :: 0 <= i < |init| ==> init[i] == ops[i];
    }
  }

  lemma {:induction false} LastCwdIsLast(ops: seq<Op>)
    ensures LastCwd(ops) == None <==> forall i :: 0 <= i < |ops| ==> !ops[i].CwdRead?
    ensures forall k :: 0 <= k < |ops| && ops[k].CwdRead? && (forall i :: k < i < |ops| ==> !ops[i].CwdRead?) ==>
              LastCwd(ops) == Some(ops[k].value)
  {
    if ops == [] {
    } else {
      var init := ops[..|ops| - 1];
      LastCwdIsLast(init);
      assert forall i :: 0 <= i < |init| ==> init[i] == ops[i];
    }
  }

  /** What `emit_string_change` keeps stands for the value read last, whether or not it pushed that one. */
  lemma KeptStands(last: Option<seq<Byte>>, value: seq<Byte>)
    requires Unchanged(last, value)
    ensures Cut(last) == Cut(Some(value))
  {
    CStringOfNulFree(value);
  }

  lemma StepKeeps(p: Pipe, op: Op, policy: Policy, maxBytes: nat)
    ensures var p' := Do(p, op, policy, maxBytes);
            && Cut(p'.lastTitle) == (if op.TitleRead? then Cut(Some(op.value)) else Cut(p.lastTitle))
            && Cut(p'.lastPwd) == (if op.CwdRead? then Cut(Some(op.value)) else Cut(p.lastPwd))
  {
    if op.TitleRead? && Unchanged(p.lastTitle, op.value) {
      KeptStands(p.lastTitle, op.value);
    } else if op.CwdRead? && Unchanged(p.lastPwd, op.value) {
      KeptStands(p.lastPwd, op.value);
    }
  }

  lemma {:induction false} KeptIsRead(ops: seq<Op>, policy: Policy, maxBytes: nat)
    ensures var p := DoAll(ops, policy, maxBytes);
            Cut(p.lastTitle) == Cut(LastTitle(ops)) && Cut(p.lastPwd) == Cut(LastCwd(ops))
  {
    if ops == [] {
    } else {
      var init := ops[..|ops| - 1];
      KeptIsRead(init, policy, maxBytes);
      StepKeeps(DoAll(init, policy, maxBytes), ops[|ops| - 1], policy, maxBytes);
    }
  }

  /**
    * Once everything is drained and emitted, the view shows the title that was read last, up to its first NUL,
    * and none if none was read; likewise for the directory.
    */
  lemma {:induction false} LastReadIsShown(ops: seq<Op>, policy: Policy, maxBytes: nat)
    ensures var p := DoAll(ops, policy, maxBytes);
            && p.consumed <= |p.events.popped|
            && (InFlight(p) == [] ==>
                  && ((forall i :: 0 <= i < |ops| ==> !ops[i].TitleRead?) ==> p.view.title == None)
                  && ((forall i :: 0 <= i < |ops| ==> !ops[i].CwdRead?) ==> p.view.cwd == None)
                  && (forall k :: 0 <= k < |ops| && ops[k].TitleRead?
                                  && (forall i :: k < i < |ops| ==> !ops[i].TitleRead?) ==>
                        p.view.title == Some(CString(ops[k].value)))
                  && (forall k :: 0 <= k < |ops| && ops[k].CwdRead?
                                  && (forall i :: k < i < |ops| ==> !ops[i].CwdRead?) ==>
                        p.view.cwd == Some(CString(ops[k].value))))
  {
    LatestStringsAreShown(ops, policy, maxBytes);
    KeptIsRead(ops, policy, maxBytes);
    LastTitleIsLast(ops);
    LastCwdIsLast(ops);
  }

  /** A title is pushed exactly when it differs from the one read before, up to that one's first NUL. */
  lemma {:induction false} TitleIsPushedIffNew(ops: seq<Op>, value: seq<Byte>, policy: Policy, maxBytes: nat)
    ensures var p := DoAll(ops, policy, maxBytes);
            var p' := Do(p, TitleRead(value), policy, maxBytes);
            p'.events.pushed == p.events.pushed
              + if LastTitle(ops).Some? && CString(LastTitle(ops).value) == value then []
                else [BLANK.(kind := Title, title := Some(value))]
  {
    KeptIsRead(ops, policy, maxBytes);
    var pushed := DoAll(ops, policy, maxBytes).events.pushed;
    assert pushed + [] == pushed;
  }

  lemma {:induction false} CwdIsPushedIffNew(ops: seq<Op>, value: seq<Byte>, policy: Policy, maxBytes: nat)
    ensures var p := DoAll(ops, policy, maxBytes);
            var p' := Do(p, CwdRead(value), policy, maxBytes);
            p'.events.pushed == p.events.pushed
              + if LastCwd(ops).Some? && CString(LastCwd(ops).value) == value then []
                else [BLANK.(kind := Cwd, body := Some(value))]
  {
    KeptIsRead(ops, policy, maxBytes);
    var pushed := DoAll(ops, policy, maxBytes).events.pushed;
    assert pushed + [] == pushed;
  }

  // ---------------------------------------------------------------- bells, the exit and the observer's reports

  function Bells(ops: seq<Op>): nat {
    if ops == [] then 0 else Bells(ops[..|ops| - 1]) + if ops[|ops| - 1].BellRang? then 1 else 0
  }

  /** The code and the signal of the first exit. */
  function FirstExit(ops: seq<Op>): Option<(int, int)> {
    if ops == [] then None
    else
      var first, op := FirstExit(ops[..|ops| - 1]), ops[|ops| - 1];
      if first.None? && op.ChildExited? then Some((op.code, op.signal)) else first
  }

  lemma {:induction false} FirstExitIsFirst(ops: seq<Op>)
    ensures FirstExit(ops) == None <==> forall i :: 0 <= i < |ops| ==> !ops[i].ChildExited?
    ensures forall k :: 0 <= k < |ops| && ops[k].ChildExited? && (forall i :: 0 <= i < k ==> !ops[i].ChildExited?) ==>
              FirstExit(ops) == Some((ops[k].code, ops[k].signal))
  {
    if ops == [] {
    } else {
      var init := ops[..|ops| - 1];
      FirstExitIsFirst(init);
      assert forall i :: 0 <= i < |init| ==> init[i] == ops[i];
    }
  }

  /** What a step pushes, if anything. */
  ghost function PushOf(p: Pipe, op: Op, maxBytes: nat): seq<Event> {
    match op
    case ByteRead(c) => Osc.Reported(p.observer.st, c, maxBytes)
    case BellRang => [BLANK.(kind := Bell)]
    case TitleRead(v) => if Unchanged(p.lastTitle, v) then [] else [TitleEvent(v)]
    case CwdRead(v) => if Unchanged(p.lastPwd, v) then [] else [CwdEvent(v)]
    case ChildExited(code, signal) => [BLANK.(kind := Exit, code := code, signal := signal)]
    case _ => []
  }

  lemma StepPushes(p: Pipe, op: Op, policy: Policy, maxBytes: nat)
    ensures |PushOf(p, op, maxBytes)| <= 1
    ensures Do(p, op, policy, maxBytes).events.pushed == p.events.pushed + PushOf(p, op, maxBytes)
  {
    assert p.events.pushed + [] == p.events.pushed;
    assert |PushOf(p, op, maxBytes)| == 1 ==> PushOf(p, op, maxBytes) == [PushOf(p, op, maxBytes)[0]];
  }

  lemma PushTells(p: Pipe, op: Op, maxBytes: nat, k: Knowledge)
    requires PushOf(p, op, maxBytes) != []
    ensures var k' := Learn(k, PushOf(p, op, maxBytes)[0]);
            && k'.bells == k.bells + (if op.BellRang? then 1 else 0)
            && k'.exit == if k.exit.None? && op.ChildExited? then Some((op.code, op.signal)) else k.exit
  {
    if op.ByteRead? {
      LearnsReport(k, PushOf(p, op, maxBytes)[0]);
    }
  }

  lemma StepTells(p: Pipe, op: Op, policy: Policy, maxBytes: nat)
    ensures var k, k' := Know(p.events.pushed), Know(Do(p, op, policy, maxBytes).events.pushed);
            && k'.bells == k.bells + (if op.BellRang? then 1 else 0)
            && k'.exit == if k.exit.None? && op.ChildExited? then Some((op.code, op.signal)) else k.exit
  {
    StepPushes(p, op, policy, maxBytes);
    var es := PushOf(p, op, maxBytes);
    if es == [] {
      assert p.events.pushed + [] == p.events.pushed;
    } else {
      PushTells(p, op, maxBytes, Know(p.events.pushed));
      KnowSnoc(p.events.pushed, es[0]);
      assert es == [es[0]];
    }
  }

  lemma {:induction false} PushesTell(ops: seq<Op>, policy: Policy, maxBytes: nat)
    ensures var k := Know(DoAll(ops, policy, maxBytes).events.pushed);
            k.bells == Bells(ops) && k.exit == FirstExit(ops)
  {
    if ops == [] {
    } else {
      var init := ops[..|ops| - 1];
      PushesTell(init, policy, maxBytes);
      StepTells(DoAll(init, policy, maxBytes), ops[|ops| - 1], policy, maxBytes);
    }
  }

  /** The bells that the bell events of a list stand for. */
  function BellBytes(es: seq<Event>): nat {
    if es == [] then 0
    else BellBytes(es[..|es| - 1]) + if es[|es| - 1].kind == Bell then es[|es| - 1].bytes else 0
  }

  predicate AllSound(es: seq<Event>) {
    forall i :: 0 <= i < |es| ==> Coalescing.Sound(es[i])
  }

  lemma AllSoundConcat(a: seq<Event>, b: seq<Event>)
    requires AllSound(a) && AllSound(b)
    ensures AllSound(a + b)
  {
  }

  lemma {:induction false} BellsAreBytes(es: seq<Event>)
    requires AllSound(es)
    ensures Know(es).bells == BellBytes(es)
  {
    if es == [] {
    } else {
      BellsAreBytes(es[..|es| - 1]);
    }
  }

  lemma StepPopsSound(p: Pipe, op: Op, policy: Policy, maxBytes: nat)
    requires Carried(p) && AllSound(p.events.popped)
    ensures AllSound(Do(p, op, policy, maxBytes).events.popped)
  {
    if op.Drain? && p.events.q.items != [] {
      assert Coalescing.Sound(p.events.q.items[0]);
    }
  }

  lemma {:induction false} EveryPoppedIsSound(ops: seq<Op>, policy: Policy, maxBytes: nat)
    ensures AllSound(DoAll(ops, policy, maxBytes).events.popped)
  {
    if ops == [] {
      assert DoAll(ops, policy, maxBytes).events.popped == [];
    } else {
      var init := ops[..|ops| - 1];
      EveryPoppedIsSound(init, policy, maxBytes);
      EveryStateIsCarried(init, policy, maxBytes);
      StepPopsSound(DoAll(init, policy, maxBytes), ops[|ops| - 1], policy, maxBytes);
    }
  }

  /**
    * For every history, the events popped and queued stand for as many bells as rang, in the `bytes` of the
    * bell events; the others that they tell are copies of what the output's complete frames mean, in order.
    */
  lemma {:induction false} BellsAndReportsAreTold(ops: seq<Op>, policy: Policy, maxBytes: nat)
    ensures var es := Coalescing.Delivered(DoAll(ops, policy, maxBytes).events);
            && BellBytes(es) == Bells(ops)
            && Know(es).exit == FirstExit(ops)
            && Know(es).others == DupAll(Osc.InterpretFrames(OscGrammar.Parse(Output(ops)).frames, maxBytes))
  {
    var p := DoAll(ops, policy, maxBytes);
    EveryStateIsCarried(ops, policy, maxBytes);
    EveryPoppedIsSound(ops, policy, maxBytes);
    PushesTell(ops, policy, maxBytes);
    AllSoundConcat(p.events.popped, p.events.q.items);
    BellsAreBytes(Coalescing.Delivered(p.events));
    ObserverIsFed(ops, policy, maxBytes);
    Osc.FeedIsParse(Output(ops), maxBytes);
  }

  /** Once drained and emitted, the view shows what the pushes tell. */
  lemma {:induction false} DrainedShows(ops: seq<Op>, policy: Policy, maxBytes: nat)
    ensures var p := DoAll(ops, policy, maxBytes);
            && p.consumed <= |p.events.popped|
            && (InFlight(p) == [] ==> Shows(p.view, Know(p.events.pushed)))
  {
    EveryStateIsCarried(ops, policy, maxBytes);
    EveryStateIsInformed(ops, policy, maxBytes);
    var p := DoAll(ops, policy, maxBytes);
    if InFlight(p) == [] {
      assert p.consumed == |p.events.popped| && p.events.q.items == [];
      assert Seen(p) == p.events.popped == Coalescing.Delivered(p.events);
    }
  }

  /** Then it shows that the child has exited exactly if it has. */
  lemma {:induction false} ExitIsShown(ops: seq<Op>, policy: Policy, maxBytes: nat)
    ensures var p := DoAll(ops, policy, maxBytes);
            && p.consumed <= |p.events.popped|
            && (InFlight(p) == [] ==> (p.view.exited <==> exists i :: 0 <= i < |ops| && ops[i].ChildExited?))
  {
    DrainedShows(ops, policy, maxBytes);
    PushesTell(ops, policy, maxBytes);
    FirstExitIsFirst(ops);
  }
}
