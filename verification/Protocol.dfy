/**
  * The protocol between the reader thread, any number of writers, the consumer and close.
  *
  * A step is what happens between two lock boundaries, or one access to an atomic, or one system call;
  * runs are all interleavings of such steps against every answer of the kernel.
  */
module Protocol {
  import opened Bytes
  import opened Outbox
  import opened Child
  import Events
  import Coalescing

  const READS_PER_POLL: nat := 16

  /** Polls of the child at end of file, and after a poll that timed out. */
  const REAPS_AT_EOF: nat := 101

  const REAPS_AT_TIMEOUT: nat := 1

  /** A call of `lxl_ghostty_terminal_write` under way, outside the lock. */
  datatype Writer = Holding(id: nat, data: seq<Byte>) | Rejected(id: nat)

  /** Where the reader thread is; `eof` tells the two calls of `reap_child_exit` apart. */
  datatype Reader =
    | NotStarted | Top | Peeking | Waiting(wantOut: bool) | Flushing | Reading(count: nat)
    | ReapEntry(eof: bool) | ReapTest(eof: bool, left: nat) | ReapWait(eof: bool, left: nat)
    | GotStatus(eof: bool, status: Status) | StoredStatus(eof: bool, status: Status)
    | Announcing(eof: bool, status: Status)
    | Marking(eof: bool) | Leaving | Clearing | Done

  datatype Closer = NotClosing | Stopping | Joined | FdClosed | Terminated | Closed

  datatype State = State(
    box: Outbox, issued: nat, writers: map<nat, Writer>,
    stopping: bool, reader: Reader, closer: Closer,
    pid: int, alive: bool, exitStatus: Option<Status>, acts: seq<Act>,
    events: Coalescing.History)

  function Initial(pid: int): State {
    State(EMPTY, 0, map[], false, NotStarted, NotClosing, pid, true, None, [], Coalescing.DoAll([]))
  }

  datatype Poll = PollFailed | PollEintr | PollTimeout | PollReady(out: bool)

  datatype Read = Got | ReadBlocked | Ended

  datatype Action =
    // a writer, or a Ghostty callback
    | Allocate(thread: nat, data: seq<Byte>) | Write(thread: nat, outs: seq<Outcome>) | FreeRejected(thread: nat)
    | FlushNow(outs: seq<Outcome>)
    // the event queue
    | Queue(op: Coalescing.Op)
    // the reader
    | Start | Test | Peek | PollOnce(poll: Poll) | FlushReady(outs: seq<Outcome>) | ReadOnce(read: Read)
    | EnterReap | TestReap | WaitOnce(wait: Wait) | StoreStatus | StoreDead | Announce | Mark | Leave | Clear
    // close
    | Stop | Join | CloseFd | TerminateChild(reachable: bool, waits: Waits) | Free

  // ---------------------------------------------------------------- steps

  /** A flush can have received these answers. */
  ghost predicate CanFlush(o: Outbox, outs: seq<Outcome>) {
    exists o', ok :: Flushes(o, outs, o', ok)
  }

  ghost function Flushed(o: Outbox, outs: seq<Outcome>): (r: (Outbox, bool))
    requires CanFlush(o, outs)
    ensures Flushes(o, outs, r.0, r.1)
  {
    var o', ok :| Flushes(o, outs, o', ok);
    (o', ok)
  }

  ghost predicate Enabled(s: State, a: Action) {
    && s.closer != Closed
    && match a
       case Allocate(t, data) => s.reader != NotStarted && t !in s.writers && data != []
       case Write(t, outs) =>
         && s.reader != NotStarted && t in s.writers && s.writers[t].Holding?
         && (!s.stopping ==> CanFlush(Enqueued(s.box, Pending(s.writers[t].id, s.writers[t].data, 0)), outs))
       case FreeRejected(t) => t in s.writers && s.writers[t].Rejected?
       case FlushNow(outs) => s.reader != NotStarted && CanFlush(s.box, outs)
       case Queue(op) => op.PushOp? ==> Coalescing.Produced(op.event) && op.event.kind != Events.Exit
       case Start => s.reader == NotStarted && s.closer == NotClosing
       case Test => s.reader == Top
       case Peek => s.reader == Peeking
       case PollOnce(p) => s.reader.Waiting? && (p.PollReady? && p.out ==> s.reader.wantOut)
       case FlushReady(outs) => s.reader == Flushing && CanFlush(s.box, outs)
       case ReadOnce(_) => s.reader.Reading?
       case EnterReap => s.reader.ReapEntry?
       case TestReap => s.reader.ReapTest?
       case WaitOnce(_) => s.reader.ReapWait?
       case StoreStatus => s.reader.GotStatus?
       case StoreDead => s.reader.StoredStatus?
       case Announce => s.reader.Announcing?
       case Mark => s.reader.Marking?
       case Leave => s.reader == Leaving
       case Clear => s.reader == Clearing
       case Stop => s.closer == NotClosing
       case Join => s.closer == Stopping && (s.reader == NotStarted || s.reader == Done)
       case CloseFd => s.closer == Joined
       case TerminateChild(_, _) => s.closer == FdClosed
       case Free => s.closer == Terminated
  }

  /** Where `reap_child_exit` returns to. */
  function AfterReap(eof: bool, exited: bool): Reader {
    if eof then Marking(true) else if exited then Leaving else Top
  }

  /** The critical section of `lxl_ghostty_terminal_write`. */
  ghost function AfterWrite(s: State, t: nat, outs: seq<Outcome>): State
    requires Enabled(s, Write(t, outs))
  {
    var w := s.writers[t];
    if s.stopping then s.(writers := s.writers[t := Rejected(w.id)])
    else s.(box := Flushed(Enqueued(s.box, Pending(w.id, w.data, 0)), outs).0, writers := s.writers - {t})
  }

  function AfterWait(s: State, w: Wait): State
    requires s.reader.ReapWait?
  {
    s.(acts := s.acts + [Waited(w)],
       reader := match w
                 case Reaped(status) => GotStatus(s.reader.eof, status)
                 case Eintr => ReapTest(s.reader.eof, s.reader.left)
                 case Error => AfterReap(s.reader.eof, false)
                 case Running => ReapTest(s.reader.eof, if s.reader.left > 0 then s.reader.left - 1 else 0))
  }

  /** `push_exit_event`. */
  function ExitEvent(status: Status): Events.Event {
    Events.BLANK.(kind := Events.Exit, code := Code(status), signal := Signal(status))
  }

  ghost function Apply(s: State, a: Action): State
    requires Enabled(s, a)
  {
    match a
    case Allocate(t, data) => s.(issued := s.issued + 1, writers := s.writers[t := Holding(s.issued, data)])
    case Write(t, outs) => AfterWrite(s, t, outs)
    case FreeRejected(t) =>
      s.(box := s.box.(freed := s.box.freed + [s.writers[t].id]), writers := s.writers - {t})
    case FlushNow(outs) => s.(box := Flushed(s.box, outs).0)
    case Queue(op) => s.(events := Coalescing.Do(s.events, op))
    case Start => s.(reader := Top)
    case Test => s.(reader := if s.stopping then Leaving else Peeking)
    case Peek => s.(reader := Waiting(s.box.queue != []))
    case PollOnce(p) =>
      s.(reader := match p
                   case PollFailed => Leaving
                   case PollEintr => Top
                   case PollTimeout => ReapEntry(false)
                   case PollReady(out) => if out then Flushing else Reading(0))
    case FlushReady(outs) =>
      s.(box := Flushed(s.box, outs).0, reader := if Flushed(s.box, outs).1 then Reading(0) else Marking(false))
    case ReadOnce(r) =>
      s.(reader := match r
                   case Got => if s.reader.count + 1 >= READS_PER_POLL then Top else Reading(s.reader.count + 1)
                   case ReadBlocked => Top
                   case Ended => ReapEntry(true))
    case EnterReap =>
      s.(reader := if !s.alive then AfterReap(s.reader.eof, true)
                   else ReapTest(s.reader.eof, if s.reader.eof then REAPS_AT_EOF else REAPS_AT_TIMEOUT))
    case TestReap =>
      s.(reader := if s.reader.left == 0 || s.stopping then AfterReap(s.reader.eof, false)
                   else ReapWait(s.reader.eof, s.reader.left))
    case WaitOnce(w) => AfterWait(s, w)
    case StoreStatus => s.(exitStatus := Some(s.reader.status), reader := StoredStatus(s.reader.eof, s.reader.status))
    case StoreDead => s.(alive := false, reader := Announcing(s.reader.eof, s.reader.status))
    case Announce =>
      s.(events := Coalescing.Do(s.events, Coalescing.PushOp(ExitEvent(s.reader.status))),
         reader := AfterReap(s.reader.eof, true))
    case Mark => s.(stopping := true, reader := if s.reader.eof then Top else Leaving)
    case Leave => s.(stopping := true, reader := Clearing)
    case Clear => s.(box := Cleared(s.box), reader := Done)
    case Stop => s.(stopping := true, closer := Stopping)
    case Join => s.(closer := Joined)
    case CloseFd => s.(closer := FdClosed)
    case TerminateChild(reachable, waits) =>
      s.(acts := if s.alive then s.acts + Termination(s.pid, reachable, waits) else s.acts, closer := Terminated)
    case Free => s.(box := Cleared(s.box), closer := Closed)
  }

  /** `lxl_ghostty_terminal_exited`. */
  function Exited(s: State): Option<(int, int)> {
    if s.alive then None
    else match s.exitStatus case None => Some((0, 0)) case Some(st) => Some((Code(st), Signal(st)))
  }

  ghost predicate IsRun(run: seq<State>, actions: seq<Action>, pid: int) {
    && |run| == |actions| + 1 && run[0] == Initial(pid)
    && forall i {:trigger actions[i]} :: 0 <= i < |actions| ==>
         Enabled(run[i], actions[i]) && run[i + 1] == Apply(run[i], actions[i])
  }

  // ---------------------------------------------------------------- control

  /** Who may be where: the final clear comes after `stopping`, the end of the reader before the rest of close. */
  ghost predicate Controlled(s: State) {
    && (s.reader == Clearing || s.reader == Done || s.closer != NotClosing ==> s.stopping)
    && (s.reader == Done || s.reader == NotStarted ==> s.box.queue == [])
    && (s.closer == NotClosing || s.closer == Stopping || s.reader == Done || s.reader == NotStarted)
    && (s.reader.Reading? ==> s.reader.count < READS_PER_POLL)
  }

  lemma {:induction false} NothingPlayed(f: Flush, outs: seq<Outcome>)
    requires Shaped(f.box.queue) && Halted(f) && Played(f, outs).Some?
    ensures outs == []
  {
    if outs == [] {
    } else {
      NothingPlayed(f, outs[..|outs| - 1]);
    }
  }

  lemma NothingToFlush(o: Outbox, outs: seq<Outcome>, o': Outbox, ok: bool)
    requires Flushes(o, outs, o', ok) && o.queue == []
    ensures outs == [] && o' == o && ok
  {
    NothingPlayed(Flush(o, WRITE_BUDGET, None), outs);
  }

  lemma StepKeepsControl(s: State, a: Action)
    requires Controlled(s) && Enabled(s, a)
    ensures Controlled(Apply(s, a))
  {
    if a.FlushNow? && s.box.queue == [] {
      NothingToFlush(s.box, a.outs, Flushed(s.box, a.outs).0, Flushed(s.box, a.outs).1);
    }
  }

  // ---------------------------------------------------------------- allocations and the stream

  /** A node is freed, queued or still in its writer's hands. */
  ghost predicate Located(s: State, id: nat) {
    id in Nodes(s.box) || exists t :: t in s.writers && s.writers[t].id == id
  }

  /** Nodes in writers' hands are different from one another and from those that were queued or freed. */
  ghost predicate HandsApart(s: State) {
    && (forall t :: t in s.writers ==> s.writers[t].id < s.issued && s.writers[t].id !in Nodes(s.box))
    && (forall t, u :: t in s.writers && u in s.writers && t != u ==> s.writers[t].id != s.writers[u].id)
    && (forall t :: t in s.writers && s.writers[t].Holding? ==> s.writers[t].data != [])
  }

  /** Conservation in every epoch, and every allocation in exactly one place. */
  ghost predicate Conserved(s: State) {
    && Accounted(s.box, s.issued)
    && HandsApart(s)
    && forall id: nat :: id < s.issued ==> Located(s, id)
  }

  /** The outbox changed without gaining or losing a node. */
  lemma SameNodes(s: State, s': State)
    requires Conserved(s) && Accounted(s'.box, s.issued) && Nodes(s'.box) == Nodes(s.box)
    requires s'.issued == s.issued && s'.writers == s.writers
    ensures Conserved(s')
  {
    forall id: nat | id < s'.issued ensures Located(s', id) {
      assert Located(s, id);
    }
  }

  /** The writer `t` gave its node to the outbox. */
  lemma HandedOver(s: State, s': State, t: nat)
    requires Conserved(s) && Accounted(s'.box, s.issued) && t in s.writers
    requires forall x :: x in Nodes(s'.box) <==> x in Nodes(s.box) || x == s.writers[t].id
    requires s'.issued == s.issued && s'.writers == s.writers - {t}
    ensures Conserved(s')
  {
    forall id: nat | id < s'.issued ensures Located(s', id) {
      assert Located(s, id);
      if id !in Nodes(s'.box) {
        var u :| u in s.writers && s.writers[u].id == id;
        assert u in s'.writers && s'.writers[u].id == id;
      }
    }
  }

  lemma AllocateConserves(s: State, t: nat, data: seq<Byte>)
    requires Conserved(s) && Enabled(s, Allocate(t, data))
    ensures Conserved(Apply(s, Allocate(t, data)))
  {
    var s' := Apply(s, Allocate(t, data));
    assert forall x :: x in Nodes(s.box) ==> x < s.issued;
    forall id: nat | id < s'.issued ensures Located(s', id) {
      if id == s.issued {
        assert t in s'.writers && s'.writers[t].id == id;
      } else {
        assert Located(s, id);
        if id !in Nodes(s.box) {
          var u :| u in s.writers && s.writers[u].id == id;
          assert u in s'.writers && s'.writers[u].id == id;
        }
      }
    }
  }

  lemma RejectConserves(s: State, t: nat, outs: seq<Outcome>)
    requires Conserved(s) && Enabled(s, Write(t, outs)) && s.stopping
    ensures Conserved(Apply(s, Write(t, outs)))
  {
    var s' := Apply(s, Write(t, outs));
    assert s'.writers.Keys == s.writers.Keys;
    forall id: nat | id < s'.issued ensures Located(s', id) {
      assert Located(s, id);
      if id !in Nodes(s.box) {
        var u :| u in s.writers && s.writers[u].id == id;
        assert u in s'.writers && s'.writers[u].id == id;
      }
    }
  }

  lemma WriteConserves(s: State, t: nat, outs: seq<Outcome>)
    requires Conserved(s) && Enabled(s, Write(t, outs)) && !s.stopping
    ensures Conserved(Apply(s, Write(t, outs)))
  {
    var w := s.writers[t];
    var r := Flushed(Enqueued(s.box, Pending(w.id, w.data, 0)), outs);
    WriteDelivers(s.box, w.id, w.data, false, outs, r.0, r.1, s.issued);
    HandedOver(s, Apply(s, Write(t, outs)), t);
  }

  lemma FlushKeepsNodes(s: State, outs: seq<Outcome>)
    requires Conserved(s) && CanFlush(s.box, outs)
    ensures Accounted(Flushed(s.box, outs).0, s.issued) && Nodes(Flushed(s.box, outs).0) == Nodes(s.box)
  {
    FlushDelivers(s.box, outs, Flushed(s.box, outs).0, Flushed(s.box, outs).1, s.issued);
  }

  /** The steps that take `write_mu` for the queue or free a node. */
  predicate TakesBox(a: Action) {
    a.Allocate? || a.Write? || a.FreeRejected? || a.FlushNow? || a.FlushReady? || a.Clear? || a.Free?
  }

  lemma OthersLeaveBox(s: State, a: Action)
    requires Enabled(s, a) && !TakesBox(a)
    ensures var s' := Apply(s, a); s'.box == s.box && s'.issued == s.issued && s'.writers == s.writers
  {
  }

  /** Every step conserves the stream and keeps every allocation in exactly one place. */
  lemma StepConserves(s: State, a: Action)
    requires Conserved(s) && Enabled(s, a)
    ensures Conserved(Apply(s, a))
  {
    var s' := Apply(s, a);
    if a.Allocate? {
      AllocateConserves(s, a.thread, a.data);
    } else if a.Write? {
      if s.stopping { RejectConserves(s, a.thread, a.outs); } else { WriteConserves(s, a.thread, a.outs); }
    } else if a.FreeRejected? {
      RejectedIsAccounted(s.box, s.writers[a.thread].id, s.issued);
      HandedOver(s, s', a.thread);
    } else if a.FlushNow? || a.FlushReady? {
      FlushKeepsNodes(s, a.outs);
      SameNodes(s, s');
    } else if a.Clear? || a.Free? {
      ClearedIsAccounted(s.box, s.issued);
      ClearedKeepsIntact(s.box);
      SameNodes(s, s');
    } else {
      OthersLeaveBox(s, a);
      SameNodes(s, s');
    }
  }

  // ---------------------------------------------------------------- the child and the exit event

  /** The reader has a status in its hands that it has not announced yet. */
  predicate HasStatus(r: Reader) { r.GotStatus? || r.StoredStatus? || r.Announcing? }

  /** The child is reaped once, and not signalled after that; the status is stored before `alive` falls. */
  ghost predicate Tended(s: State) {
    && NoKillAfterReap(s.acts)
    && (s.closer != Terminated && s.closer != Closed ==> forall i :: 0 <= i < |s.acts| ==> s.acts[i].Waited?)
    && (s.alive && !HasStatus(s.reader) && s.closer != Terminated && s.closer != Closed ==> !HasReaped(s.acts))
    && (!s.alive || HasStatus(s.reader) ==> HasReaped(s.acts))
    && (s.reader.ReapTest? || s.reader.ReapWait? || s.reader.GotStatus? || s.reader.StoredStatus? ==> s.alive)
    && (s.reader.Announcing? ==> !s.alive)
    && (s.reader.StoredStatus? || s.reader.Announcing? ==> s.exitStatus == Some(s.reader.status))
    && (!s.alive ==> s.exitStatus.Some?)
  }

  /** The queue says what was pushed; an exit is pushed once the child is known to be dead, with its status. */
  ghost predicate Announced(s: State) {
    && Coalescing.Faithful(s.events)
    && (s.events.q.exitDelivered <==> !s.alive && !HasStatus(s.reader))
    && (s.events.q.exitDelivered ==> Events.Know(s.events.pushed).exit == Exited(s))
  }

  lemma ReaderWaits(s: State, w: Wait)
    requires Tended(s) && Controlled(s) && Enabled(s, WaitOnce(w))
    ensures Tended(Apply(s, WaitOnce(w)))
  {
    ReapConcat(s.acts, [Waited(w)]);
    assert w.Reaped? ==> IsReap([Waited(w)][0]);
    assert s.reader != Done && s.reader != NotStarted;
  }

  lemma CloseTerminates(s: State, reachable: bool, waits: Waits)
    requires Tended(s) && Controlled(s) && Enabled(s, TerminateChild(reachable, waits))
    ensures Tended(Apply(s, TerminateChild(reachable, waits)))
  {
    EscalationIsLastResort(s.pid, reachable, waits);
    ReapConcat(s.acts, Termination(s.pid, reachable, waits));
  }

  /** A step of `reap_child_exit` other than the wait itself. */
  predicate Reaps(a: Action) {
    a.EnterReap? || a.TestReap? || a.StoreStatus? || a.StoreDead? || a.Announce?
  }

  lemma ReapKeepsTended(s: State, a: Action)
    requires Tended(s) && Enabled(s, a) && Reaps(a)
    ensures Tended(Apply(s, a))
  {
  }

  lemma OthersKeepTended(s: State, a: Action)
    requires Tended(s) && Enabled(s, a) && !Reaps(a) && !a.WaitOnce? && !a.TerminateChild?
    ensures Tended(Apply(s, a))
  {
    assert Apply(s, a).acts == s.acts;
  }

  lemma StepKeepsTended(s: State, a: Action)
    requires Tended(s) && Controlled(s) && Enabled(s, a)
    ensures Tended(Apply(s, a))
  {
    if Reaps(a) {
      ReapKeepsTended(s, a);
    } else if a.WaitOnce? {
      ReaderWaits(s, a.wait);
    } else if a.TerminateChild? {
      CloseTerminates(s, a.reachable, a.waits);
    } else {
      OthersKeepTended(s, a);
    }
  }

  lemma {:induction false} ExitIsKnown(es: seq<Events.Event>, i: nat)
    requires i < |es| && es[i].kind == Events.Exit && Coalescing.AtMostOne(es, Events.Exit)
    ensures Events.Know(es).exit == Some((es[i].code, es[i].signal))
    decreases |es|
  {
    var n := |es| - 1;
    if i < n {
      ExitIsKnown(es[..n], i);
    } else {
      Coalescing.KnownExit(es[..n]);
    }
  }

  lemma LearnsExit(k: Events.Knowledge, status: Status)
    requires k.exit == None
    ensures Events.Learn(k, ExitEvent(status)).exit == Some((Code(status), Signal(status)))
  {
  }

  lemma NoExitKnown(h: Coalescing.History)
    requires Coalescing.Faithful(h) && !h.q.exitDelivered
    ensures Events.Know(h.pushed).exit == None
  {
    Coalescing.KnownExit(Coalescing.Delivered(h));
  }

  lemma FirstExit(h: Coalescing.History, status: Status)
    requires Coalescing.Faithful(h) && !h.q.exitDelivered
    ensures var h' := Coalescing.Do(h, Coalescing.PushOp(ExitEvent(status)));
            && Coalescing.Faithful(h') && h'.q.exitDelivered
            && Events.Know(h'.pushed).exit == Some((Code(status), Signal(status)))
  {
    NoExitKnown(h);
    LearnsExit(Events.Know(h.pushed), status);
    Coalescing.DoKeepsFaithful(h, Coalescing.PushOp(ExitEvent(status)));
  }

  /** Only the reader's four steps from the wait to the announcement touch what is known of the child's end. */
  lemma StatusMoves(s: State, a: Action)
    requires Enabled(s, a) && !a.WaitOnce? && !a.StoreStatus? && !a.StoreDead? && !a.Announce?
    ensures var s' := Apply(s, a);
            && s'.alive == s.alive && s'.exitStatus == s.exitStatus && HasStatus(s'.reader) == HasStatus(s.reader)
            && (!a.Queue? ==> s'.events == s.events)
  {
  }

  /** Whatever else a step does, the announcement stands if this much is as before. */
  lemma StillAnnounced(s: State, s': State)
    requires Announced(s) && Coalescing.Faithful(s'.events)
    requires s'.events.q.exitDelivered == s.events.q.exitDelivered
    requires Events.Know(s'.events.pushed).exit == Events.Know(s.events.pushed).exit
    requires s'.alive == s.alive && s'.exitStatus == s.exitStatus && HasStatus(s'.reader) == HasStatus(s.reader)
    ensures Announced(s')
  {
  }

  /** The exit is not announced before `alive` has fallen and the reader has let go of the status. */
  lemma NotYetAnnounced(s: State, s': State)
    requires Announced(s) && s.alive && s'.events == s.events && (s'.alive || HasStatus(s'.reader))
    ensures Announced(s')
  {
  }

  /** Anything but an exit leaves the latch and the exit that is known alone. */
  lemma NoExit(h: Coalescing.History, op: Coalescing.Op)
    requires Coalescing.Faithful(h) && (op.PushOp? ==> Coalescing.Produced(op.event) && op.event.kind != Events.Exit)
    ensures var h' := Coalescing.Do(h, op);
            && Coalescing.Faithful(h') && h'.q.exitDelivered == h.q.exitDelivered
            && Events.Know(h'.pushed).exit == Events.Know(h.pushed).exit
  {
    Coalescing.NoExitPushed(h, op);
    Coalescing.DoKeepsFaithful(h, op);
  }

  lemma ExitIsAnnounced(h: Coalescing.History, s': State, status: Status)
    requires Coalescing.Faithful(h) && !h.q.exitDelivered
    requires s'.events == Coalescing.Do(h, Coalescing.PushOp(ExitEvent(status)))
    requires !s'.alive && s'.exitStatus == Some(status) && !HasStatus(s'.reader)
    ensures Announced(s')
  {
    FirstExit(h, status);
  }

  lemma StepKeepsAnnounced(s: State, a: Action)
    requires Announced(s) && Tended(s) && Enabled(s, a)
    ensures Announced(Apply(s, a))
  {
    if a.Queue? {
      NoExit(s.events, a.op);
      StillAnnounced(s, Apply(s, a));
    } else if a.Announce? {
      ExitIsAnnounced(s.events, Apply(s, a), s.reader.status);
    } else if a.WaitOnce? || a.StoreStatus? || a.StoreDead? {
      NotYetAnnounced(s, Apply(s, a));
    } else {
      StatusMoves(s, a);
      StillAnnounced(s, Apply(s, a));
    }
  }

  // ---------------------------------------------------------------- every run

  ghost predicate Sound(s: State) {
    Controlled(s) && Conserved(s) && Tended(s) && Announced(s)
  }

  lemma InitialIsSound(pid: int)
    ensures Sound(Initial(pid))
  {
    Coalescing.EveryHistoryIsFaithful([]);
  }

  /** The invariant of every state of every interleaving, against every kernel. */
  lemma {:induction false} EveryStateIsSound(run: seq<State>, actions: seq<Action>, pid: int, i: nat)
    requires IsRun(run, actions, pid) && i < |run|
    ensures Sound(run[i])
  {
    if i == 0 {
      InitialIsSound(pid);
    } else {
      EveryStateIsSound(run, actions, pid, i - 1);
      StepKeepsControl(run[i - 1], actions[i - 1]);
      StepConserves(run[i - 1], actions[i - 1]);
      StepKeepsTended(run[i - 1], actions[i - 1]);
      StepKeepsAnnounced(run[i - 1], actions[i - 1]);
    }
  }

  function Contribution(s: State, a: Action): seq<Byte> {
    if a.Write? && a.thread in s.writers && s.writers[a.thread].Holding? && !s.stopping
    then s.writers[a.thread].data else []
  }

  /** The data of the writes that were accepted since the last clear, in the order of their critical sections. */
  ghost function AcceptedWrites(run: seq<State>, actions: seq<Action>, pid: int, i: nat): seq<Byte>
    requires IsRun(run, actions, pid) && i < |run|
  {
    if i == 0 || |run[i].box.past| > |run[i - 1].box.past| then []
    else AcceptedWrites(run, actions, pid, i - 1) + Contribution(run[i - 1], actions[i - 1])
  }

  lemma StepAccepts(s: State, a: Action)
    requires Sound(s) && Enabled(s, a)
    ensures var o, o' := s.box, Apply(s, a).box;
            if |o'.past| > |o.past| then
              o'.epoch == Epoch([], []) && |o'.past| == |o.past| + 1
              && o'.past[|o.past|].accepted == o.epoch.accepted + Contribution(s, a)
            else o'.epoch.accepted == o.epoch.accepted + Contribution(s, a) && o'.past == o.past
  {
    if a.FlushNow? || a.FlushReady? {
      FlushDelivers(s.box, a.outs, Flushed(s.box, a.outs).0, Flushed(s.box, a.outs).1, s.issued);
    } else if a.Write? && !s.stopping {
      var w := s.writers[a.thread];
      var r := Flushed(Enqueued(s.box, Pending(w.id, w.data, 0)), a.outs);
      WriteDelivers(s.box, w.id, w.data, false, a.outs, r.0, r.1, s.issued);
    }
    assert s.box.epoch.accepted + [] == s.box.epoch.accepted;
  }

  lemma NextAccepts(run: seq<State>, actions: seq<Action>, pid: int, i: nat)
    requires IsRun(run, actions, pid) && i < |actions|
    ensures var o, o' := run[i].box, run[i + 1].box;
            o'.epoch.accepted
              == if |o'.past| > |o.past| then [] else o.epoch.accepted + Contribution(run[i], actions[i])
  {
    EveryStateIsSound(run, actions, pid, i);
    StepAccepts(run[i], actions[i]);
  }

  lemma {:induction false} AcceptedIsWritten(run: seq<State>, actions: seq<Action>, pid: int, i: nat)
    requires IsRun(run, actions, pid) && i < |run|
    ensures run[i].box.epoch.accepted == AcceptedWrites(run, actions, pid, i)
  {
    if i == 0 {
    } else {
      AcceptedIsWritten(run, actions, pid, i - 1);
      NextAccepts(run, actions, pid, i - 1);
    }
  }

  /**
    * In every epoch between clears, what the kernel took and what is still queued is what callers wrote,
    * in lock order; a closed epoch ended at a prefix. The list never offers an empty write.
    */
  lemma {:induction false} StreamIsConserved(run: seq<State>, actions: seq<Action>, pid: int, i: nat)
    requires IsRun(run, actions, pid) && i < |run|
    ensures var o := run[i].box;
            && o.epoch.sent + Unsent(o.queue) == AcceptedWrites(run, actions, pid, i)
            && (forall k :: 0 <= k < |o.past| ==> o.past[k].sent <= o.past[k].accepted)
            && (forall k :: 0 <= k < |o.queue| ==>
                  o.queue[k].offset < |o.queue[k].data| && (k > 0 ==> o.queue[k].offset == 0))
  {
    EveryStateIsSound(run, actions, pid, i);
    AcceptedIsWritten(run, actions, pid, i);
  }

  /** A step that clears the queue records what callers wrote in the epoch that it closes. */
  lemma ClosedEpochIsWritten(run: seq<State>, actions: seq<Action>, pid: int, i: nat)
    requires IsRun(run, actions, pid) && i < |actions|
    ensures var o, o' := run[i].box, run[i + 1].box;
            |o'.past| > |o.past| ==>
              && o'.queue == [] && |o'.past| == |o.past| + 1
              && o'.past[|o.past|].accepted == AcceptedWrites(run, actions, pid, i) + Contribution(run[i], actions[i])
              && o'.past[|o.past|].sent <= o'.past[|o.past|].accepted
  {
    EveryStateIsSound(run, actions, pid, i);
    EveryStateIsSound(run, actions, pid, i + 1);
    AcceptedIsWritten(run, actions, pid, i);
    StepAccepts(run[i], actions[i]);
    EmptyIffSent(run[i + 1].box.queue);
  }

  /** What a later state keeps of an earlier one. */
  ghost predicate Persists(s: State, later: State) {
    && (s.reader == Done ==> later.reader == Done && later.alive == s.alive)
    && (!s.alive && !HasStatus(s.reader) ==>
          !later.alive && !HasStatus(later.reader) && later.exitStatus == s.exitStatus)
    && s.events.popped <= later.events.popped
    && s.box.past <= later.box.past && s.box.freed <= later.box.freed
  }

  lemma {:induction false} FreedGrows(f: Flush, outs: seq<Outcome>)
    requires Shaped(f.box.queue) && Played(f, outs).Some?
    ensures f.box.freed <= Played(f, outs).value.box.freed
  {
    if outs == [] {
    } else {
      FreedGrows(f, outs[..|outs| - 1]);
    }
  }

  lemma BoxGrows(o: Outbox, outs: seq<Outcome>, o': Outbox, ok: bool, issued: nat)
    requires Accounted(o, issued) && Flushes(o, outs, o', ok)
    ensures o.past <= o'.past && o.freed <= o'.freed
  {
    FlushDelivers(o, outs, o', ok, issued);
    FreedGrows(Flush(o, WRITE_BUDGET, None), outs);
  }

  lemma BoxPersists(s: State, a: Action)
    requires Sound(s) && Enabled(s, a)
    ensures s.box.past <= Apply(s, a).box.past && s.box.freed <= Apply(s, a).box.freed
  {
    if a.FlushNow? || a.FlushReady? {
      BoxGrows(s.box, a.outs, Flushed(s.box, a.outs).0, Flushed(s.box, a.outs).1, s.issued);
    } else if a.Write? && !s.stopping {
      var p := Pending(s.writers[a.thread].id, s.writers[a.thread].data, 0);
      EnqueuedIsAccounted(s.box, p, s.issued);
      var r := Flushed(Enqueued(s.box, p), a.outs);
      BoxGrows(Enqueued(s.box, p), a.outs, r.0, r.1, s.issued);
    }
  }

  lemma ExitPersists(s: State, a: Action)
    requires Tended(s) && Enabled(s, a)
    ensures s.reader == Done ==> Apply(s, a).reader == Done && Apply(s, a).alive == s.alive
    ensures !s.alive && !HasStatus(s.reader) ==>
              !Apply(s, a).alive && !HasStatus(Apply(s, a).reader) && Apply(s, a).exitStatus == s.exitStatus
  {
    if !a.WaitOnce? && !a.StoreStatus? && !a.StoreDead? && !a.Announce? {
      StatusMoves(s, a);
    }
  }

  lemma StepPersists(s: State, a: Action)
    requires Sound(s) && Enabled(s, a)
    ensures Persists(s, Apply(s, a))
  {
    BoxPersists(s, a);
    ExitPersists(s, a);
    assert s.events.popped <= Apply(s, a).events.popped;
  }

  lemma PersistsOn(s: State, t: State, u: State)
    requires Persists(s, t) && Persists(t, u)
    ensures Persists(s, u)
  {
  }

  lemma NextPersists(run: seq<State>, actions: seq<Action>, pid: int, j: nat)
    requires IsRun(run, actions, pid) && j < |actions|
    ensures Persists(run[j], run[j + 1])
  {
    EveryStateIsSound(run, actions, pid, j);
    StepPersists(run[j], actions[j]);
  }

  lemma {:induction false} LaterStatesPersist(run: seq<State>, actions: seq<Action>, pid: int, i: nat, j: nat)
    requires IsRun(run, actions, pid) && i <= j < |run|
    ensures Persists(run[i], run[j])
  {
    if i == j {
    } else {
      LaterStatesPersist(run, actions, pid, i, j - 1);
      NextPersists(run, actions, pid, j - 1);
      PersistsOn(run[i], run[j - 1], run[j]);
    }
  }

  /** Once the reader has done its final clear, nothing is ever queued again. */
  lemma ClearIsFinal(run: seq<State>, actions: seq<Action>, pid: int, i: nat, j: nat)
    requires IsRun(run, actions, pid) && i <= j < |run| && run[i].reader == Done
    ensures run[j].box.queue == [] && run[j].reader == Done && run[j].stopping
  {
    LaterStatesPersist(run, actions, pid, i, j);
    EveryStateIsSound(run, actions, pid, j);
  }

  lemma AllInFreed(s: State)
    requires Conserved(s) && s.box.queue == [] && s.writers == map[]
    ensures forall id: nat :: id in s.box.freed <==> id < s.issued
  {
    assert Nodes(s.box) == s.box.freed;
    forall id: nat | id < s.issued ensures id in s.box.freed {
      assert Located(s, id);
    }
  }

  lemma FreedIsDistinct(o: Outbox, issued: nat)
    requires Distinct(Nodes(o), issued)
    ensures Distinct(o.freed, issued)
  {
    assert forall k :: 0 <= k < |o.freed| ==> o.freed[k] == Nodes(o)[k];
  }

  /** No node is freed twice; when close has returned and no writer is left, every node has been freed. */
  lemma EveryNodeFreedOnce(run: seq<State>, actions: seq<Action>, pid: int, i: nat)
    requires IsRun(run, actions, pid) && i < |run|
    ensures Distinct(run[i].box.freed, run[i].issued)
    ensures run[i].closer == Closed && run[i].writers == map[] ==>
              run[i].box.queue == [] && forall id: nat :: id in run[i].box.freed <==> id < run[i].issued
  {
    EveryStateIsSound(run, actions, pid, i);
    FreedIsDistinct(run[i].box, run[i].issued);
    if run[i].closer == Closed && run[i].writers == map[] {
      AllInFreed(run[i]);
    }
  }

  /** After close has closed the pty, no flush of any thread calls `write` on it. */
  lemma NoWriteAfterClose(run: seq<State>, actions: seq<Action>, pid: int, i: nat)
    requires IsRun(run, actions, pid) && i < |actions|
    requires run[i].closer != NotClosing && run[i].closer != Stopping
    ensures (actions[i].FlushNow? || actions[i].FlushReady?) ==> actions[i].outs == []
    ensures actions[i].Write? ==> run[i + 1].box == run[i].box
  {
    EveryStateIsSound(run, actions, pid, i);
    var s, a := run[i], actions[i];
    if a.FlushNow? {
      NothingToFlush(s.box, a.outs, Flushed(s.box, a.outs).0, Flushed(s.box, a.outs).1);
    }
  }

  /** The exit is told once, with the status that `lxl_ghostty_terminal_exited` reports from then on for ever. */
  lemma ExitProtocol(run: seq<State>, actions: seq<Action>, pid: int, i: nat, j: nat, k: nat, m: nat)
    requires IsRun(run, actions, pid) && i <= j < |run|
    requires k < |run[i].events.popped| && run[i].events.popped[k].kind == Events.Exit
    ensures Exited(run[j]) == Some((run[i].events.popped[k].code, run[i].events.popped[k].signal))
    ensures m < |run[j].events.popped| && run[j].events.popped[m].kind == Events.Exit ==> m == k
  {
    EveryStateIsSound(run, actions, pid, i);
    EveryStateIsSound(run, actions, pid, j);
    LaterStatesPersist(run, actions, pid, i, j);
    var es, later := Coalescing.Delivered(run[i].events), Coalescing.Delivered(run[j].events);
    assert es[k] == run[i].events.popped[k] && later[k] == es[k];
    assert Coalescing.Holds(es, Events.Exit);
    ExitIsKnown(es, k);
    if m < |run[j].events.popped| && run[j].events.popped[m].kind == Events.Exit {
      assert later[m].kind == Events.Exit;
    }
  }

  ghost predicate Announces(h: Coalescing.History) {
    Coalescing.Holds(Coalescing.Delivered(h), Events.Exit)
  }

  /**
    * There is never more than one exit event, popped or queued, and there is one exactly when the reader has
    * seen the child dead and pushed it. Until close waits itself, the reader's end finds that the exit has
    * been delivered if and only if one of its own polls reaped the child.
    */
  lemma ExitOnceIffReaped(run: seq<State>, actions: seq<Action>, pid: int, i: nat)
    requires IsRun(run, actions, pid) && i < |run|
    ensures var s := run[i];
            && Coalescing.AtMostOne(Coalescing.Delivered(s.events), Events.Exit)
            && (Announces(s.events) <==> Exited(s).Some? && !HasStatus(s.reader))
            && (s.reader == Done && s.closer != Terminated && s.closer != Closed ==>
                  (Announces(s.events) <==> HasReaped(s.acts)))
            && (s.events.q.items == [] ==> (Announces(s.events) <==> Coalescing.Holds(s.events.popped, Events.Exit)))
  {
    EveryStateIsSound(run, actions, pid, i);
    assert run[i].events.popped + [] == run[i].events.popped;
  }

  /** A reader that ends without having seen the child dead leaves the consumer without an exit for ever. */
  lemma SilentForEver(run: seq<State>, actions: seq<Action>, pid: int, i: nat, j: nat)
    requires IsRun(run, actions, pid) && i <= j < |run| && run[i].reader == Done && run[i].alive
    ensures !Announces(run[j].events) && Exited(run[j]) == None
  {
    LaterStatesPersist(run, actions, pid, i, j);
    ExitOnceIffReaped(run, actions, pid, j);
  }

  lemma Extended(run: seq<State>, actions: seq<Action>, pid: int, a: Action)
    returns (run': seq<State>, actions': seq<Action>)
    requires IsRun(run, actions, pid) && Enabled(run[|actions|], a)
    ensures IsRun(run', actions', pid) && |actions'| == |actions| + 1
    ensures run'[|actions'|] == Apply(run[|actions|], a)
  {
    run', actions' := run + [Apply(run[|actions|], a)], actions + [a];
  }

  /** There is such a run: a failing `poll` ends the reader before it has waited for the child. */
  lemma ReaderMayEndSilently(pid: int) returns (run: seq<State>, actions: seq<Action>)
    ensures IsRun(run, actions, pid)
    ensures run[|actions|].reader == Done && run[|actions|].alive
  {
    run, actions := [Initial(pid)], [];
    run, actions := Extended(run, actions, pid, Start);
    run, actions := Extended(run, actions, pid, Test);
    run, actions := Extended(run, actions, pid, Peek);
    run, actions := Extended(run, actions, pid, PollOnce(PollFailed));
    run, actions := Extended(run, actions, pid, Leave);
    run, actions := Extended(run, actions, pid, Clear);
  }

  /** No signal is ever sent to the child after it has been reaped. */
  lemma NeverSignalsTheReaped(run: seq<State>, actions: seq<Action>, pid: int, i: nat)
    requires IsRun(run, actions, pid) && i < |run|
    ensures NoKillAfterReap(run[i].acts)
  {
    EveryStateIsSound(run, actions, pid, i);
  }

  /** Successful reads since the reader last polled. */
  function ReadsSincePoll(actions: seq<Action>): nat {
    if actions == [] || actions[|actions| - 1].PollOnce? then 0
    else ReadsSincePoll(actions[..|actions| - 1]) + if actions[|actions| - 1] == ReadOnce(Got) then 1 else 0
  }

  predicate Counts(r: Reader, n: nat) {
    && n <= READS_PER_POLL
    && (r == Flushing ==> n == 0)
    && (r.Reading? ==> n == r.count < READS_PER_POLL)
  }

  lemma StepCounts(s: State, a: Action, n: nat)
    requires Enabled(s, a) && Counts(s.reader, n)
    ensures Counts(Apply(s, a).reader, if a.PollOnce? then 0 else if a == ReadOnce(Got) then n + 1 else n)
  {
  }

  lemma {:induction false} ReadsAreCounted(run: seq<State>, actions: seq<Action>, pid: int, i: nat)
    requires IsRun(run, actions, pid) && i < |run|
    ensures Counts(run[i].reader, ReadsSincePoll(actions[..i]))
  {
    if i == 0 {
    } else {
      ReadsAreCounted(run, actions, pid, i - 1);
      TakeSnoc(actions, i - 1);
      StepCounts(run[i - 1], actions[i - 1], ReadsSincePoll(actions[..i - 1]));
    }
  }

  /** A chatty child cannot starve queued output: at most 16 successful reads between two polls. */
  lemma ReadsAreBounded(run: seq<State>, actions: seq<Action>, pid: int, i: nat)
    requires IsRun(run, actions, pid) && i <= |actions|
    ensures ReadsSincePoll(actions[..i]) <= 16
  {
    ReadsAreCounted(run, actions, pid, i);
  }
}
