/**
  * The reader's life: what each wake-up leads to, that it ends once it is told to stop, and how it and close
  * deal with the child.
  */
module ReaderLife {
  import opened Bytes
  import opened Outbox
  import opened Child
  import opened Protocol

  // ---------------------------------------------------------------- it ends

  /** The reader's own steps. */
  predicate ByReader(a: Action) {
    || a.Test? || a.Peek? || a.PollOnce? || a.FlushReady? || a.ReadOnce? || a.EnterReap? || a.TestReap?
    || a.WaitOnce? || a.StoreStatus? || a.StoreDead? || a.Announce? || a.Mark? || a.Leave? || a.Clear?
  }

  /** How many steps the reader may still take once `stopping` is set. */
  function Remaining(r: Reader): nat {
    match r
    case NotStarted => 30
    case Done => 0
    case Clearing => 1
    case Leaving => 2
    case Top => 3
    case Marking(_) => 4
    case ReapTest(_, _) => 5
    case Announcing(_, _) => 5
    case StoredStatus(_, _) => 6
    case GotStatus(_, _) => 7
    case ReapWait(_, _) => 8
    case ReapEntry(_) => 9
    case Reading(count) => if count <= 16 then 26 - count else 10
    case Flushing => 27
    case Waiting(_) => 28
    case Peeking => 29
  }

  lemma ReapCounts(s: State, a: Action)
    requires Enabled(s, a) && s.stopping && (Reaps(a) || a.WaitOnce?)
    ensures Remaining(Apply(s, a).reader) < Remaining(s.reader)
  {
  }

  lemma ReaderCounts(s: State, a: Action)
    requires Controlled(s) && Enabled(s, a) && s.stopping && ByReader(a)
    ensures Remaining(Apply(s, a).reader) < Remaining(s.reader)
  {
    if Reaps(a) || a.WaitOnce? {
      ReapCounts(s, a);
    }
  }

  lemma OthersLeaveReader(s: State, a: Action)
    requires Enabled(s, a) && !ByReader(a) && !a.Start?
    ensures Apply(s, a).reader == s.reader
  {
  }

  lemma StopStays(s: State, a: Action)
    requires Enabled(s, a) && s.stopping
    ensures Apply(s, a).stopping
  {
  }

  lemma StopCounts(run: seq<State>, actions: seq<Action>, pid: int, i: nat)
    requires IsRun(run, actions, pid) && i < |actions| && run[i].stopping
    ensures run[i + 1].stopping
    ensures Remaining(run[i + 1].reader) + (if ByReader(actions[i]) then 1 else 0) <= Remaining(run[i].reader)
  {
    EveryStateIsSound(run, actions, pid, i);
    StopStays(run[i], actions[i]);
    if ByReader(actions[i]) {
      ReaderCounts(run[i], actions[i]);
    } else if !actions[i].Start? {
      OthersLeaveReader(run[i], actions[i]);
    }
  }

  /** The reader's own steps in a list of actions. */
  function ReaderSteps(actions: seq<Action>): nat {
    if actions == [] then 0
    else ReaderSteps(actions[..|actions| - 1]) + if ByReader(actions[|actions| - 1]) then 1 else 0
  }

  lemma OneMoreStep(actions: seq<Action>, i: nat, j: nat)
    requires i <= j < |actions|
    ensures ReaderSteps(actions[i..j + 1]) == ReaderSteps(actions[i..j]) + if ByReader(actions[j]) then 1 else 0
  {
    assert actions[i..j + 1] == actions[i..j] + [actions[j]];
    assert actions[i..j + 1][..j - i] == actions[i..j];
  }

  /** Every step after the stop keeps it, and the reader's own steps bring the reader nearer to its end. */
  ghost predicate Descends(run: seq<State>, actions: seq<Action>) {
    && |run| == |actions| + 1
    && forall k {:trigger actions[k]} :: 0 <= k < |actions| && run[k].stopping ==>
         && run[k + 1].stopping
         && Remaining(run[k + 1].reader) + (if ByReader(actions[k]) then 1 else 0) <= Remaining(run[k].reader)
  }

  lemma RunsDescend(run: seq<State>, actions: seq<Action>, pid: int)
    requires IsRun(run, actions, pid)
    ensures Descends(run, actions)
  {
    forall k | 0 <= k < |actions| && run[k].stopping
      ensures run[k + 1].stopping
      ensures Remaining(run[k + 1].reader) + (if ByReader(actions[k]) then 1 else 0) <= Remaining(run[k].reader)
    {
      StopCounts(run, actions, pid, k);
    }
  }

  lemma {:induction false} StopIsKept(run: seq<State>, actions: seq<Action>, i: nat, j: nat)
    requires Descends(run, actions) && i <= j < |run| && run[i].stopping
    ensures run[j].stopping
    ensures ReaderSteps(actions[i..j]) + Remaining(run[j].reader) <= Remaining(run[i].reader)
  {
    if i == j {
    } else {
      StopIsKept(run, actions, i, j - 1);
      OneMoreStep(actions, i, j - 1);
    }
  }

  /** A step that the reader can take next. */
  ghost function NextStep(s: State): Action {
    match s.reader
    case Top => Test
    case Peeking => Peek
    case Waiting(_) => PollOnce(PollTimeout)
    case Flushing => FlushReady(if s.box.queue == [] then [] else [WouldBlock])
    case Reading(_) => ReadOnce(ReadBlocked)
    case ReapEntry(_) => EnterReap
    case ReapTest(_, _) => TestReap
    case ReapWait(_, _) => WaitOnce(Running)
    case GotStatus(_, _) => StoreStatus
    case StoredStatus(_, _) => StoreDead
    case Announcing(_, _) => Announce
    case Marking(_) => Mark
    case Leaving => Leave
    case _ => Clear
  }

  lemma FlushMayEnd(o: Outbox)
    requires Shaped(o.queue)
    ensures CanFlush(o, if o.queue == [] then [] else [WouldBlock])
  {
    var f := Flush(o, WRITE_BUDGET, None);
    assert Played(f, []) == Some(f);
    if o.queue == [] {
      assert Flushes(o, [], o, true);
    } else {
      assert [WouldBlock][..0] == [];
      assert Played(f, [WouldBlock]) == Some(WriteOnce(f, WouldBlock));
      assert Flushes(o, [WouldBlock], o, true);
    }
  }

  lemma NextIsEnabled(s: State)
    requires Controlled(s) && s.reader != NotStarted && s.reader != Done
    requires CanFlush(s.box, if s.box.queue == [] then [] else [WouldBlock])
    ensures ByReader(NextStep(s)) && Enabled(s, NextStep(s))
  {
  }

  /** A reader that has been started and has not ended can take a step, whatever state the others are in. */
  lemma ReaderIsNeverStuck(run: seq<State>, actions: seq<Action>, pid: int, i: nat)
    requires IsRun(run, actions, pid) && i < |run| && run[i].reader != NotStarted && run[i].reader != Done
    ensures ByReader(NextStep(run[i])) && Enabled(run[i], NextStep(run[i]))
  {
    EveryStateIsSound(run, actions, pid, i);
    FlushMayEnd(run[i].box);
    NextIsEnabled(run[i]);
  }

  /**
    * Once `stopping` is set, the reader takes at most 29 more steps of its own, whatever the kernel answers and
    * whoever runs in between; so the join in close returns.
    */
  lemma ReaderEndsAfterStop(run: seq<State>, actions: seq<Action>, pid: int, i: nat, j: nat)
    requires IsRun(run, actions, pid) && i <= j < |run| && run[i].stopping && run[i].reader != NotStarted
    ensures ReaderSteps(actions[i..j]) <= 29
    ensures ReaderSteps(actions[i..j]) == 29 ==> run[j].reader == Done
  {
    RunsDescend(run, actions, pid);
    StopIsKept(run, actions, i, j);
  }

  // ---------------------------------------------------------------- what a wake-up leads to

  /** The state after the steps `actions`, if they are all enabled one after the other. */
  ghost predicate Leads(s: State, actions: seq<Action>, s': State)
    decreases |actions|
  {
    if actions == [] then s' == s
    else Enabled(s, actions[0]) && Leads(Apply(s, actions[0]), actions[1..], s')
  }

  lemma {:induction false} Then(s: State, a: Action, t: State, rest: seq<Action>, s': State)
    requires Enabled(s, a) && Apply(s, a) == t && Leads(t, rest, s')
    ensures Leads(s, [a] + rest, s')
  {
    assert ([a] + rest)[1..] == rest;
  }

  lemma {:induction false} One(s: State, a: Action, t: State)
    requires Enabled(s, a) && Apply(s, a) == t
    ensures Leads(s, [a], t)
  {
    Then(s, a, t, [], t);
    assert [a] + [] == [a];
  }

  lemma {:induction false} Two(s: State, a: Action, t: State, b: Action, u: State)
    requires Enabled(s, a) && Apply(s, a) == t && Enabled(t, b) && Apply(t, b) == u
    ensures Leads(s, [a, b], u)
  {
    One(t, b, u);
    Then(s, a, t, [b], u);
    assert [a] + [b] == [a, b];
  }

  lemma OneFlush(o: Outbox, outs: seq<Outcome>, o': Outbox, ok: bool)
    requires Flushes(o, outs, o', ok)
    ensures CanFlush(o, outs) && Flushed(o, outs) == (o', ok)
  {
  }

  /** Queued bytes make the reader ask for output, and a pty that can take some gets a flush. */
  lemma {:induction false} WritableQueueIsFlushed(s: State, outs: seq<Outcome>, o': Outbox, ok: bool)
    requires s.reader == Top && !s.stopping && s.closer != Closed && s.box.queue != []
    requires Flushes(s.box, outs, o', ok)
    ensures var t := s.(reader := Waiting(true));
            && Leads(s, [Test, Peek], t)
            && Leads(t, [PollOnce(PollReady(true)), FlushReady(outs)],
                     s.(box := o', reader := if ok then Reading(0) else Marking(false)))
  {
    var t := s.(reader := Waiting(true));
    Two(s, Test, s.(reader := Peeking), Peek, t);
    OneFlush(s.box, outs, o', ok);
    Two(t, PollOnce(PollReady(true)), s.(reader := Flushing), FlushReady(outs),
        s.(box := o', reader := if ok then Reading(0) else Marking(false)));
  }

  /** Without queued bytes the reader does not ask for output. */
  lemma {:induction false} EmptyQueueIsNotPolled(s: State)
    requires s.reader == Top && !s.stopping && s.closer != Closed && s.box.queue == []
    ensures var t := s.(reader := Waiting(false)); Leads(s, [Test, Peek], t) && !Enabled(t, PollOnce(PollReady(true)))
  {
    Two(s, Test, s.(reader := Peeking), Peek, s.(reader := Waiting(false)));
  }

  /** A flush that was refused makes the reader stop the terminal and leave. */
  lemma {:induction false} RefusedFlushStops(s: State)
    requires s.reader == Marking(false) && s.closer != Closed
    ensures var t := s.(stopping := true, reader := Leaving);
            && Leads(s, [Mark], t)
            && Leads(t, [Leave, Clear], s.(box := Cleared(s.box), reader := Done, stopping := true))
  {
    var t := s.(stopping := true, reader := Leaving);
    One(s, Mark, t);
    Two(t, Leave, t.(reader := Clearing), Clear, t.(box := Cleared(s.box), reader := Done));
  }

  function Reads(k: nat): seq<Action> {
    if k == 0 then [] else [ReadOnce(Got)] + Reads(k - 1)
  }

  lemma {:induction false} ReadsLead(s: State, count: nat, k: nat)
    requires s.reader == Reading(count) && count + k < 16 && s.closer != Closed
    ensures Leads(s, Reads(k), s.(reader := Reading(count + k)))
    decreases k
  {
    if k == 0 {
    } else {
      var t := s.(reader := Reading(count + 1));
      ReadsLead(t, count + 1, k - 1);
      Then(s, ReadOnce(Got), t, Reads(k - 1), s.(reader := Reading(count + k)));
    }
  }

  /** A pty with input is read until it has none, or 16 times; then the reader starts over. */
  lemma {:induction false} InputIsRead(s: State, k: nat)
    requires s.reader.Waiting? && s.closer != Closed && k < 16
    ensures var t := s.(reader := Reading(k));
            && Leads(s, [PollOnce(PollReady(false))] + Reads(k), t)
            && Leads(t, [ReadOnce(ReadBlocked)], s.(reader := Top))
            && (k == 15 ==> Leads(t, [ReadOnce(Got)], s.(reader := Top)))
  {
    var t := s.(reader := Reading(k));
    ReadsLead(s.(reader := Reading(0)), 0, k);
    Then(s, PollOnce(PollReady(false)), s.(reader := Reading(0)), Reads(k), t);
    One(t, ReadOnce(ReadBlocked), s.(reader := Top));
    if k == 15 { One(t, ReadOnce(Got), s.(reader := Top)); }
  }

  // ---------------------------------------------------------------- the child

  /** Polls that answer `waits`. */
  function Polls(waits: seq<Wait>): seq<Action> {
    if waits == [] then [] else [TestReap, WaitOnce(waits[0])] + Polls(waits[1..])
  }

  function Waiteds(waits: seq<Wait>): (acts: seq<Act>)
    ensures |acts| == |waits| && forall i :: 0 <= i < |waits| ==> acts[i] == Waited(waits[i])
  {
    if waits == [] then [] else [Waited(waits[0])] + Waiteds(waits[1..])
  }

  /** The child was found running by all of these, except that some were interrupted. */
  predicate Unended(waits: seq<Wait>) {
    forall i :: 0 <= i < |waits| ==> waits[i] == Running || waits[i] == Eintr
  }

  function Founds(waits: seq<Wait>): nat {
    if waits == [] then 0 else (if waits[0] == Running then 1 else 0) + Founds(waits[1..])
  }

  lemma {:induction false} PollsStep(waits: seq<Wait>)
    requires waits != []
    ensures Polls(waits) == [TestReap] + ([WaitOnce(waits[0])] + Polls(waits[1..]))
  {
  }

  lemma {:induction false} SomeFound(waits: seq<Wait>)
    requires waits != [] && waits[|waits| - 1] == Running
    ensures Founds(waits) > 0
  {
    if |waits| == 1 {
    } else {
      SomeFound(waits[1..]);
    }
  }

  /** Each poll that finds the child running uses up one of those left; an interrupted one does not. */
  lemma {:induction false} PollsLead(s: State, eof: bool, left: nat, waits: seq<Wait>)
    requires s.reader == ReapTest(eof, left) && !s.stopping && s.closer != Closed
    requires Unended(waits) && Founds(waits) <= left
    requires waits != [] ==> waits[|waits| - 1] == Running
    ensures Leads(s, Polls(waits), s.(reader := ReapTest(eof, left - Founds(waits)), acts := s.acts + Waiteds(waits)))
    decreases |waits|
  {
    if waits == [] {
      assert s.acts + [] == s.acts;
    } else {
      var w, rest := waits[0], waits[1..];
      SomeFound(waits);
      var t := s.(reader := ReapWait(eof, left));
      var u := s.(reader := ReapTest(eof, if w == Running then left - 1 else left), acts := s.acts + [Waited(w)]);
      PollsLead(u, eof, u.reader.left, rest);
      Associative(s.acts, [Waited(w)], Waiteds(rest));
      var s' := s.(reader := ReapTest(eof, left - Founds(waits)), acts := s.acts + Waiteds(waits));
      Then(t, WaitOnce(w), u, Polls(rest), s');
      Then(s, TestReap, t, [WaitOnce(w)] + Polls(rest), s');
      PollsStep(waits);
    }
  }

  lemma {:induction false} LeadsOn(s: State, a: seq<Action>, t: State, b: seq<Action>, u: State)
    requires Leads(s, a, t) && Leads(t, b, u)
    ensures Leads(s, a + b, u)
    decreases |a|
  {
    if a == [] {
      assert a + b == b;
    } else {
      LeadsOn(Apply(s, a[0]), a[1..], t, b, u);
      assert (a + b)[1..] == a[1..] + b;
    }
  }

  /**
    * When a read finds the end of the output, the child is waited for before the reader leaves: if it goes on
    * running, until 101 waits have found it so, not counting the interrupted ones.
    */
  lemma {:induction false} EndOfOutputIsReaped(s: State, waits: seq<Wait>)
    requires s.reader.Reading? && s.alive && !s.stopping && s.closer != Closed
    requires Unended(waits) && Founds(waits) == 101 && waits[|waits| - 1] == Running
    ensures Leads(s, [ReadOnce(Ended), EnterReap] + Polls(waits) + [TestReap],
                  s.(reader := Marking(true), acts := s.acts + Waiteds(waits)))
  {
    var t := s.(reader := ReapTest(true, 101));
    var u := s.(reader := ReapTest(true, 0), acts := s.acts + Waiteds(waits));
    Two(s, ReadOnce(Ended), s.(reader := ReapEntry(true)), EnterReap, t);
    PollsLead(t, true, 101, waits);
    LeadsOn(s, [ReadOnce(Ended), EnterReap], t, Polls(waits), u);
    One(u, TestReap, u.(reader := Marking(true)));
    LeadsOn(s, [ReadOnce(Ended), EnterReap] + Polls(waits), u, [TestReap], u.(reader := Marking(true)));
  }

  /** When a poll times out, the child is waited for once; if it goes on running, so does the reader. */
  lemma {:induction false} TimeoutIsReaped(s: State, waits: seq<Wait>)
    requires s.reader.Waiting? && s.alive && !s.stopping && s.closer != Closed
    requires Unended(waits) && Founds(waits) == 1 && waits[|waits| - 1] == Running
    ensures Leads(s, [PollOnce(PollTimeout), EnterReap] + Polls(waits) + [TestReap],
                  s.(reader := Top, acts := s.acts + Waiteds(waits)))
  {
    var t := s.(reader := ReapTest(false, 1));
    var u := s.(reader := ReapTest(false, 0), acts := s.acts + Waiteds(waits));
    var first := [PollOnce(PollTimeout), EnterReap];
    Two(s, PollOnce(PollTimeout), s.(reader := ReapEntry(false)), EnterReap, t);
    PollsLead(t, false, 1, waits);
    LeadsOn(s, first, t, Polls(waits), u);
    One(u, TestReap, u.(reader := Top));
    LeadsOn(s, first + Polls(waits), u, [TestReap], u.(reader := Top));
  }

  /** Close sends the child SIGHUP, signal 1, exactly when it is not known to be dead and can be signalled. */
  lemma CloseHangsUp(run: seq<State>, actions: seq<Action>, pid: int, i: nat)
    requires IsRun(run, actions, pid) && i < |actions| && actions[i].TerminateChild?
    ensures Killed(1) in run[i + 1].acts <==>
              run[i].alive && run[i].pid > 0 && actions[i].reachable
  {
    EveryStateIsSound(run, actions, pid, i);
    var s, s', a := run[i], run[i + 1], actions[i];
    if s.alive && s.pid > 0 && a.reachable {
      HangupLeads(s.pid, a.reachable, a.waits);
      assert s'.acts[|s.acts|] == Killed(1);
    } else {
      assert s'.acts == s.acts;
    }
  }
}
