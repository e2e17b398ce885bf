/**
  * The three mutexes of a terminal and the join of its reader thread: no deadlock, no self-deadlock.
  *
  * An operation is the list of its lock actions. Ghostty's callbacks run while `mu` is held and take
  * `write_mu` or the event queue's mutex inside it; those two are leaves.
  */
module LockOrder {
  datatype Lock = Mu | WriteMu | EventMu

  datatype Action = Acquire(l: Lock) | Release(l: Lock) | JoinReader

  /** What Ghostty may call back while the terminal is locked: a write, a bell, a title change. */
  datatype Callback = WritesPty | PushesEvent

  /** The operations that take locks, by what they do inside. */
  datatype Operation =
    | WriteOrFlush            // terminal_write, flush_writes, the reader's look at the queue, its final clear
    | PushOrPop               // event_queue_push, event_queue_pop, event_queue_len
    | Locked(inside: seq<Callback>)  // vt_write, resize, scroll, render, encoders, poll_state_events
    | Close                   // joins the reader, holding nothing

  function Leaf(l: Lock): seq<Action> { [Acquire(l), Release(l)] }

  function Inside(cs: seq<Callback>): seq<Action> {
    if cs == [] then [] else Leaf(if cs[0].WritesPty? then WriteMu else EventMu) + Inside(cs[1..])
  }

  function Actions(op: Operation): seq<Action> {
    match op
    case WriteOrFlush => Leaf(WriteMu)
    case PushOrPop => Leaf(EventMu)
    case Locked(cs) => [Acquire(Mu)] + Inside(cs) + [Release(Mu)]
    case Close => [JoinReader]
  }

  /** What a thread does that runs these operations one after the other. */
  function Program(ops: seq<Operation>): seq<Action> {
    if ops == [] then [] else Actions(ops[0]) + Program(ops[1..])
  }

  // ---------------------------------------------------------------- which locks an operation takes

  lemma {:induction false} InsideInOrder(cs: seq<Callback>)
    ensures |Inside(cs)| == 2 * |cs|
    ensures forall j :: 0 <= j < |cs| ==>
              Inside(cs)[2 * j] == Acquire(if cs[j] == WritesPty then WriteMu else EventMu)
    ensures forall j :: 0 <= j < |cs| ==>
              Inside(cs)[2 * j + 1] == Release(if cs[j] == WritesPty then WriteMu else EventMu)
  {
    if cs == [] {
    } else {
      InsideInOrder(cs[1..]);
      var l := if cs[0] == WritesPty then WriteMu else EventMu;
      assert Inside(cs) == [Acquire(l), Release(l)] + Inside(cs[1..]);
      forall j | 0 < j < |cs|
        ensures Inside(cs)[2 * j] == Inside(cs[1..])[2 * (j - 1)]
        ensures Inside(cs)[2 * j + 1] == Inside(cs[1..])[2 * (j - 1) + 1]
      {
        assert cs[j] == cs[1..][j - 1];
      }
    }
  }

  /** Writers and flushers work under `write_mu`, pushes and pops under the queue's mutex. */
  lemma LeavesAreTaken()
    ensures Actions(WriteOrFlush) == [Acquire(WriteMu), Release(WriteMu)]
    ensures Actions(PushOrPop) == [Acquire(EventMu), Release(EventMu)]
    ensures Actions(Close) == [JoinReader]
  {
  }

  /** A terminal operation holds `mu` from first to last, and each callback takes its own lock inside. */
  lemma LockedHoldsMu(cs: seq<Callback>)
    ensures var acts := Actions(Locked(cs));
            && |acts| == 2 * |cs| + 2 && acts[0] == Acquire(Mu) && acts[|acts| - 1] == Release(Mu)
            && (forall j :: 0 <= j < |cs| ==>
                  && acts[1..|acts| - 1][2 * j] == Acquire(if cs[j] == WritesPty then WriteMu else EventMu)
                  && acts[1..|acts| - 1][2 * j + 1] == Release(if cs[j] == WritesPty then WriteMu else EventMu))
  {
    InsideInOrder(cs);
    var acts := Actions(Locked(cs));
    assert acts[1..|acts| - 1] == Inside(cs);
  }

  // ---------------------------------------------------------------- the discipline

  /**
    * A thread that holds `held` keeps the order on the rest of its program: `mu` only with nothing held,
    * a leaf only with nothing or `mu` held, a leaf released before anything else, nothing held at a join or at the end.
    */
  predicate Disciplined(held: set<Lock>, rest: seq<Action>)
    decreases |rest|
  {
    if rest == [] then held == {}
    else
      match rest[0]
      case Acquire(Mu) => held == {} && Disciplined({Mu}, rest[1..])
      case Acquire(l) => held <= {Mu} && Disciplined(held + {l}, rest[1..])
      case Release(l) => l in held && (l == Mu ==> held == {Mu}) && Disciplined(held - {l}, rest[1..])
      case JoinReader => held == {} && Disciplined({}, rest[1..])
  }

  lemma {:induction false} LeafIsDisciplined(held: set<Lock>, l: Lock, rest: seq<Action>)
    requires l != Mu && held <= {Mu} && Disciplined(held, rest)
    ensures Disciplined(held, Leaf(l) + rest)
  {
    var all := Leaf(l) + rest;
    assert all[1..] == [Release(l)] + rest && all[1..][1..] == rest;
    assert held + {l} - {l} == held;
  }

  lemma {:induction false} InsideStep(cs: seq<Callback>, rest: seq<Action>)
    requires cs != []
    ensures Inside(cs) + rest
              == Leaf(if cs[0].WritesPty? then WriteMu else EventMu) + (Inside(cs[1..]) + rest)
  {
  }

  lemma {:induction false} InsideIsDisciplined(cs: seq<Callback>, rest: seq<Action>)
    requires Disciplined({Mu}, rest)
    ensures Disciplined({Mu}, Inside(cs) + rest)
  {
    if cs == [] {
      assert Inside(cs) + rest == rest;
    } else {
      InsideIsDisciplined(cs[1..], rest);
      LeafIsDisciplined({Mu}, if cs[0].WritesPty? then WriteMu else EventMu, Inside(cs[1..]) + rest);
      InsideStep(cs, rest);
    }
  }

  lemma {:induction false} OperationIsDisciplined(op: Operation, rest: seq<Action>)
    requires Disciplined({}, rest)
    ensures Disciplined({}, Actions(op) + rest)
  {
    match op {
      case WriteOrFlush => LeafIsDisciplined({}, WriteMu, rest);
      case PushOrPop => LeafIsDisciplined({}, EventMu, rest);
      case Locked(cs) =>
        var tail := [Release(Mu)] + rest;
        assert tail[1..] == rest && {Mu} - {Mu} == {};
        InsideIsDisciplined(cs, tail);
        assert Actions(op) + rest == [Acquire(Mu)] + (Inside(cs) + tail);
        assert ([Acquire(Mu)] + (Inside(cs) + tail))[1..] == Inside(cs) + tail;
      case Close => assert ([JoinReader] + rest)[1..] == rest;
    }
  }

  /** Every thread keeps the order, whatever operations it runs and whatever Ghostty calls back. */
  lemma {:induction false} ProgramsAreDisciplined(ops: seq<Operation>)
    ensures Disciplined({}, Program(ops))
  {
    if ops == [] {
    } else {
      ProgramsAreDisciplined(ops[1..]);
      OperationIsDisciplined(ops[0], Program(ops[1..]));
    }
  }

  // ---------------------------------------------------------------- threads that share the locks

  datatype Thread = Thread(held: set<Lock>, rest: seq<Action>)

  /** Thread 0 is the reader. */
  type Threads = seq<Thread>

  const READER: nat := 0

  predicate IsFree(ts: Threads, l: Lock) {
    forall t :: 0 <= t < |ts| ==> l !in ts[t].held
  }

  /** A thread can take its next step; acquiring blocks while any thread, itself included, holds the lock. */
  predicate Enabled(ts: Threads, t: nat) {
    && t < |ts| && ts[t].rest != []
    && match ts[t].rest[0]
       case Acquire(l) => IsFree(ts, l)
       case Release(_) => true
       case JoinReader => |ts| > 0 && ts[READER].rest == []
  }

  function Stepped(ts: Threads, t: nat): Threads
    requires Enabled(ts, t)
  {
    var th := ts[t];
    var held := match th.rest[0]
                case Acquire(l) => th.held + {l}
                case Release(l) => th.held - {l}
                case JoinReader => th.held;
    ts[t := Thread(held, th.rest[1..])]
  }

  ghost predicate Invariant(ts: Threads) {
    && |ts| > 0
    && (forall t :: 0 <= t < |ts| ==> Disciplined(ts[t].held, ts[t].rest))
    && (forall l, t, u :: 0 <= t < u < |ts| ==> !(l in ts[t].held && l in ts[u].held))
    && JoinReader !in ts[READER].rest
  }

  /** Threads that start with nothing held; the reader runs no `Close`. */
  ghost predicate Start(ts: Threads, ops: seq<seq<Operation>>) {
    && |ts| == |ops| > 0
    && (forall t :: 0 <= t < |ts| ==> ts[t] == Thread({}, Program(ops[t])))
    && forall i :: 0 <= i < |ops[READER]| ==> ops[READER][i] != Close
  }

  /** The states along a run, one step of one thread at a time. */
  ghost predicate IsRun(run: seq<Threads>, ops: seq<seq<Operation>>) {
    && |run| > 0 && Start(run[0], ops)
    && forall i :: 0 <= i < |run| - 1 ==> exists t :: Enabled(run[i], t) && run[i + 1] == Stepped(run[i], t)
  }

  lemma {:induction false} NoJoinInside(cs: seq<Callback>)
    ensures JoinReader !in Inside(cs)
  {
    if cs == [] {
    } else {
      NoJoinInside(cs[1..]);
    }
  }

  lemma OnlyCloseJoins(op: Operation)
    requires op != Close
    ensures JoinReader !in Actions(op)
  {
    if op.Locked? { NoJoinInside(op.inside); }
  }

  lemma {:induction false} NoJoinWithoutClose(ops: seq<Operation>)
    requires forall i :: 0 <= i < |ops| ==> ops[i] != Close
    ensures JoinReader !in Program(ops)
  {
    if ops == [] {
    } else {
      NoJoinWithoutClose(ops[1..]);
      OnlyCloseJoins(ops[0]);
    }
  }

  lemma StepKeepsInvariant(ts: Threads, t: nat)
    requires Invariant(ts) && Enabled(ts, t)
    ensures Invariant(Stepped(ts, t))
  {
    var ts', th := Stepped(ts, t), ts[t];
    assert Disciplined(th.held, th.rest);
    assert forall a :: a in th.rest[1..] ==> a in th.rest;
    forall l, u, v | 0 <= u < v < |ts'| ensures !(l in ts'[u].held && l in ts'[v].held) {
      if th.rest[0].Acquire? { assert l == th.rest[0].l ==> l !in ts[u].held && l !in ts[v].held; }
    }
    if th.rest[0].Acquire? { assert th.held + {Mu} == {Mu} || th.held != {}; }
  }

  lemma {:induction false} RunsKeepInvariant(run: seq<Threads>, ops: seq<seq<Operation>>, i: nat)
    requires IsRun(run, ops) && i < |run|
    ensures Invariant(run[i])
  {
    if i == 0 {
      forall t | 0 <= t < |ops| ensures Disciplined({}, Program(ops[t])) { ProgramsAreDisciplined(ops[t]); }
      NoJoinWithoutClose(ops[READER]);
    } else {
      RunsKeepInvariant(run, ops, i - 1);
      var t :| Enabled(run[i - 1], t) && run[i] == Stepped(run[i - 1], t);
      StepKeepsInvariant(run[i - 1], t);
    }
  }

  /** The step that is possible whenever anything is left to do. */
  lemma SomeoneCanStep(ts: Threads, busy: nat) returns (t: nat)
    requires Invariant(ts) && busy < |ts| && ts[busy].rest != []
    ensures Enabled(ts, t)
  {
    if u :| 0 <= u < |ts| && (WriteMu in ts[u].held || EventMu in ts[u].held) {
      // A leaf is held: its holder can only release it.
      assert Disciplined(ts[u].held, ts[u].rest);
      t := u;
    } else if u :| 0 <= u < |ts| && Mu in ts[u].held {
      // Only mu is held: its holder releases it or takes a free leaf.
      assert Disciplined(ts[u].held, ts[u].rest);
      t := u;
    } else {
      // Nothing is held: anyone can go on but a join, and then the reader can.
      assert Disciplined(ts[busy].held, ts[busy].rest);
      if ts[busy].rest[0] == JoinReader && ts[READER].rest != [] {
        assert ts[READER].rest[0] in ts[READER].rest;
        t := READER;
      } else {
        t := busy;
      }
    }
  }

  /**
    * In every state of every run, however many threads run whatever operations: if a thread is unfinished,
    * some thread can step, and no thread is about to acquire a lock that it holds itself.
    */
  lemma DeadlockFree(run: seq<Threads>, ops: seq<seq<Operation>>, i: nat)
    requires IsRun(run, ops) && i < |run|
    ensures (exists t :: 0 <= t < |run[i]| && run[i][t].rest != []) ==> exists t :: Enabled(run[i], t)
    ensures forall t :: 0 <= t < |run[i]| && run[i][t].rest != [] && run[i][t].rest[0].Acquire? ==>
              run[i][t].rest[0].l !in run[i][t].held
    ensures forall l, t, u :: 0 <= t < u < |run[i]| ==> !(l in run[i][t].held && l in run[i][u].held)
  {
    RunsKeepInvariant(run, ops, i);
    var ts := run[i];
    forall t | 0 <= t < |ts| && ts[t].rest != [] && ts[t].rest[0].Acquire? ensures ts[t].rest[0].l !in ts[t].held {
      assert Disciplined(ts[t].held, ts[t].rest);
    }
    if busy :| 0 <= busy < |ts| && ts[busy].rest != [] {
      var t := SomeoneCanStep(ts, busy);
    }
  }
}
