/**
  * The exit that is announced and reported is what `waitpid` answered.
  */
module ExitStatus {
  import opened Bytes
  import opened Child
  import opened Protocol
  import Events
  import Coalescing

  /** The status that the reader has in its hands or has stored was answered by a wait. */
  ghost predicate Witnessed(s: State) {
    && (HasStatus(s.reader) ==> Waited(Reaped(s.reader.status)) in s.acts)
    && (s.exitStatus.Some? ==> Waited(Reaped(s.exitStatus.value)) in s.acts)
  }

  /** When the child is known to be dead or about to be, the waits have answered no other status. */
  ghost predicate Single(s: State) {
    && (HasStatus(s.reader) ==> forall st :: Waited(Reaped(st)) in s.acts ==> st == s.reader.status)
    && (!s.alive ==> forall st :: Waited(Reaped(st)) in s.acts ==> Some(st) == s.exitStatus)
  }

  lemma NothingReaped(acts: seq<Act>)
    requires !HasReaped(acts)
    ensures forall st :: Waited(Reaped(st)) !in acts
  {
    assert forall a :: a in acts ==> !IsReap(a);
    assert forall st :: IsReap(Waited(Reaped(st)));
  }

  lemma WaitIsWitnessed(s: State, w: Wait)
    requires Sound(s) && Witnessed(s) && Single(s) && Enabled(s, WaitOnce(w))
    ensures var s' := Apply(s, WaitOnce(w)); Witnessed(s') && Single(s')
  {
    var s' := Apply(s, WaitOnce(w));
    NothingReaped(s.acts);
    assert s'.acts == s.acts + [Waited(w)];
    assert forall a :: a in s'.acts <==> a in s.acts || a == Waited(w);
  }

  /** The other steps keep the status, or hand it on. */
  lemma StatusIsHandedOn(s: State, a: Action)
    requires Enabled(s, a) && !a.WaitOnce? && !a.TerminateChild?
    ensures var s' := Apply(s, a);
            && s'.acts == s.acts
            && (HasStatus(s'.reader) ==> HasStatus(s.reader) && s'.reader.status == s.reader.status)
            && (s'.exitStatus == s.exitStatus || (HasStatus(s.reader) && s'.exitStatus == Some(s.reader.status)))
            && (s'.alive != s.alive ==> s.reader.StoredStatus? && s'.exitStatus == s.exitStatus)
  {
  }

  lemma TerminationIsWitnessed(s: State, reachable: bool, waits: Waits)
    requires Sound(s) && Witnessed(s) && Single(s) && Enabled(s, TerminateChild(reachable, waits))
    ensures var s' := Apply(s, TerminateChild(reachable, waits)); Witnessed(s') && Single(s')
  {
    var s' := Apply(s, TerminateChild(reachable, waits));
    assert s.reader == Done || s.reader == NotStarted;
    assert forall a :: a in s.acts ==> a in s'.acts;
  }

  lemma HandedOnIsWitnessed(s: State, a: Action, s': State)
    requires Sound(s) && Witnessed(s) && Single(s) && s'.acts == s.acts
    requires HasStatus(s'.reader) ==> HasStatus(s.reader) && s'.reader.status == s.reader.status
    requires s'.exitStatus == s.exitStatus || (HasStatus(s.reader) && s'.exitStatus == Some(s.reader.status))
    requires s'.alive != s.alive ==> s.reader.StoredStatus? && s'.exitStatus == s.exitStatus
    ensures Witnessed(s') && Single(s')
  {
  }

  lemma StepIsWitnessed(s: State, a: Action)
    requires Sound(s) && Witnessed(s) && Single(s) && Enabled(s, a)
    ensures Witnessed(Apply(s, a)) && Single(Apply(s, a))
  {
    if a.WaitOnce? {
      WaitIsWitnessed(s, a.wait);
    } else if a.TerminateChild? {
      TerminationIsWitnessed(s, a.reachable, a.waits);
    } else {
      StatusIsHandedOn(s, a);
      HandedOnIsWitnessed(s, a, Apply(s, a));
    }
  }

  lemma {:induction false} EveryStatusIsWitnessed(run: seq<State>, actions: seq<Action>, pid: int, i: nat)
    requires IsRun(run, actions, pid) && i < |run|
    ensures Witnessed(run[i]) && Single(run[i])
  {
    if i == 0 {
    } else {
      EveryStatusIsWitnessed(run, actions, pid, i - 1);
      EveryStateIsSound(run, actions, pid, i - 1);
      StepIsWitnessed(run[i - 1], actions[i - 1]);
    }
  }

  /** `pair` is the code and the signal of a wait status: of the two, only one can differ from 0. */
  predicate Tells(pair: (int, int), st: Status) {
    match st
    case Exited(v) => pair == (v, 0)
    case Signaled(n) => pair == (0, n)
  }

  /**
    * Once the child is known to be dead, a `waitpid` has answered its status, and no other; what
    * `lxl_ghostty_terminal_exited` reports and what an exit event carries, popped or queued, tell it.
    */
  lemma ExitIsWhatWaitpidAnswered(run: seq<State>, actions: seq<Action>, pid: int, i: nat)
    requires IsRun(run, actions, pid) && i < |run| && !run[i].alive
    ensures exists st ::
              && Waited(Reaped(st)) in run[i].acts
              && (forall other :: Waited(Reaped(other)) in run[i].acts ==> other == st)
              && Protocol.Exited(run[i]).Some? && Tells(Protocol.Exited(run[i]).value, st)
              && forall e :: e in Coalescing.Delivered(run[i].events) && e.kind == Events.Exit ==>
                   Tells((e.code, e.signal), st)
  {
    var s := run[i];
    EveryStateIsSound(run, actions, pid, i);
    EveryStatusIsWitnessed(run, actions, pid, i);
    var st := s.exitStatus.value;
    assert Tells(Protocol.Exited(s).value, st);
    forall e | e in Coalescing.Delivered(s.events) && e.kind == Events.Exit ensures Tells((e.code, e.signal), st) {
      var k :| 0 <= k < |Coalescing.Delivered(s.events)| && Coalescing.Delivered(s.events)[k] == e;
      assert Coalescing.Holds(Coalescing.Delivered(s.events), Events.Exit);
      ExitIsKnown(Coalescing.Delivered(s.events), k);
    }
    assert Waited(Reaped(st)) in s.acts;
  }

  /** While the child is not known to be dead, there is no exit to report and no exit event. */
  lemma NoExitWhileAlive(run: seq<State>, actions: seq<Action>, pid: int, i: nat)
    requires IsRun(run, actions, pid) && i < |run| && run[i].alive
    ensures Protocol.Exited(run[i]) == None
    ensures forall e :: e in Coalescing.Delivered(run[i].events) ==> e.kind != Events.Exit
  {
    EveryStateIsSound(run, actions, pid, i);
    var es := Coalescing.Delivered(run[i].events);
    forall e | e in es ensures e.kind != Events.Exit {
      var k :| 0 <= k < |es| && es[k] == e;
      assert !Coalescing.Holds(es, Events.Exit);
    }
  }
}
