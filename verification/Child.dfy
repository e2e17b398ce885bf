/** The child process: waiting for it, its exit status, and `lxl_ghostty_pty_terminate`. */
module Child {
  /** A wait status, as WIFEXITED and WIFSIGNALED tell them apart. */
  datatype Status = Exited(value: int) | Signaled(number: int)

  /** The code and the signal that `lxl_ghostty_terminal_exited` reports and an exit event carries. */
  function Code(s: Status): int { if s.Exited? then s.value else 0 }

  function Signal(s: Status): int { if s.Signaled? then s.number else 0 }

  /** What `waitpid` with WNOHANG may answer: still running, reaped, interrupted, or another error. */
  datatype Wait = Running | Reaped(status: Status) | Eintr | Error

  const SIGHUP: int := 1
  const SIGTERM: int := 15
  const POLLS: nat := 20

  /** The calls made on the child, in order. */
  datatype Act = Waited(result: Wait) | Killed(signal: int)

  predicate IsReap(a: Act) { a.Waited? && a.result.Reaped? }

  ghost predicate HasReaped(acts: seq<Act>) {
    exists i :: 0 <= i < |acts| && IsReap(acts[i])
  }

  /** No signal goes to a process number that has already been reaped. */
  ghost predicate NoKillAfterReap(acts: seq<Act>) {
    forall i, j :: 0 <= i < j < |acts| && IsReap(acts[i]) ==> !acts[j].Killed?
  }

  lemma ReapConcat(a: seq<Act>, b: seq<Act>)
    ensures HasReaped(a + b) <==> HasReaped(a) || HasReaped(b)
    ensures NoKillAfterReap(a) && NoKillAfterReap(b) ==>
              (HasReaped(a) ==> forall i :: 0 <= i < |b| ==> !b[i].Killed?) ==>
              NoKillAfterReap(a + b)
  {
    var c := a + b;
    assert forall i :: 0 <= i < |a| ==> c[i] == a[i];
    assert forall i :: 0 <= i < |b| ==> c[|a| + i] == b[i];
    assert forall i :: |a| <= i < |c| ==> c[i] == b[i - |a|];
  }

  /** The answers to successive calls of `waitpid`. */
  type Waits = nat -> Wait

  function Answer(waits: Waits, i: nat): Wait { waits(i) }

  /** The polls up to the first that does not find the child running, at most 20. */
  function Polled(waits: Waits, k: nat): (acts: seq<Act>)
    requires k <= POLLS
    ensures forall i :: 0 <= i < |acts| ==> acts[i].Waited?
    decreases POLLS - k
  {
    if k == POLLS then []
    else if Answer(waits, k) == Running then [Waited(Running)] + Polled(waits, k + 1)
    else [Waited(Answer(waits, k))]
  }

  /** All of the polls from the `k`th on found the child running. */
  predicate AllRunning(waits: Waits, k: nat)
    requires k <= POLLS
    decreases POLLS - k
  {
    k == POLLS || (Answer(waits, k) == Running && AllRunning(waits, k + 1))
  }

  /** What `lxl_ghostty_pty_terminate` does; `reachable` is the answer to the probe with signal 0. */
  function Termination(pid: int, reachable: bool, waits: Waits): seq<Act> {
    if pid <= 0 || !reachable then []
    else [Killed(SIGHUP)] + Polled(waits, 0) + if AllRunning(waits, 0) then [Killed(SIGTERM)] else []
  }

  /** SIGHUP has been sent, and the first `i` polls all found the child running; `acts` are those calls. */
  ghost predicate Polling(waits: Waits, i: nat, acts: seq<Act>)
    requires i <= POLLS
  {
    acts + Polled(waits, i) == [Killed(SIGHUP)] + Polled(waits, 0) && (AllRunning(waits, 0) <==> AllRunning(waits, i))
  }

  lemma PollStep(pid: int, waits: Waits, i: nat, acts: seq<Act>)
    requires pid > 0 && i < POLLS && Polling(waits, i, acts)
    ensures var acts' := acts + [Waited(Answer(waits, i))];
            if Answer(waits, i) == Running then Polling(waits, i + 1, acts')
            else acts' == Termination(pid, true, waits)
  {
    var acts' := acts + [Waited(Answer(waits, i))];
    if Answer(waits, i) == Running {
      assert acts' + Polled(waits, i + 1) == acts + Polled(waits, i);
    } else {
      assert acts' == acts + Polled(waits, i);
      assert acts' + [] == acts';
    }
  }

  lemma PollsBegin(waits: Waits)
    ensures Polling(waits, 0, [] + [Killed(SIGHUP)])
  {
  }

  lemma PolledOut(pid: int, waits: Waits, acts: seq<Act>)
    requires pid > 0 && Polling(waits, POLLS, acts)
    ensures acts + [Killed(SIGTERM)] == Termination(pid, true, waits)
  {
    assert acts + [] == acts;
  }

  method Terminate(pid: int, reachable: bool, waits: Waits) returns (acts: seq<Act>)
    ensures acts == Termination(pid, reachable, waits)
  {
    acts := [];
    if pid <= 0 { return; }
    if reachable {
      acts := acts + [Killed(SIGHUP)];
      PollsBegin(waits);
      for i := 0 to POLLS
        invariant Polling(waits, i, acts)
      {
        var result := Answer(waits, i);
        PollStep(pid, waits, i, acts);
        acts := acts + [Waited(result)];
        if result.Reaped? || result.Eintr? || result.Error? { return; }
      }
      PolledOut(pid, waits, acts);
      acts := acts + [Killed(SIGTERM)];
    }
  }

  lemma {:induction false} AllRunningMeans(waits: Waits, k: nat)
    requires k <= POLLS
    ensures AllRunning(waits, k) <==> forall i: nat :: k <= i < POLLS ==> Answer(waits, i) == Running
    decreases POLLS - k
  {
    if k == POLLS {
    } else {
      AllRunningMeans(waits, k + 1);
    }
  }

  lemma {:induction false} PolledReaps(waits: Waits, k: nat)
    requires k <= POLLS
    ensures AllRunning(waits, k) ==> !HasReaped(Polled(waits, k))
    decreases POLLS - k
  {
    if k < POLLS && Answer(waits, k) == Running {
      PolledReaps(waits, k + 1);
      ReapConcat([Waited(Running)], Polled(waits, k + 1));
    }
  }

  /** SIGTERM is sent exactly when the process could be signalled and all 20 polls saw it running. */
  lemma EscalationIsLastResort(pid: int, reachable: bool, waits: Waits)
    ensures var acts := Termination(pid, reachable, waits);
            && NoKillAfterReap(acts)
            && (Killed(SIGTERM) in acts <==>
                pid > 0 && reachable && forall i: nat :: i < POLLS ==> Answer(waits, i) == Running)
  {
    var polls := Polled(waits, 0);
    AllRunningMeans(waits, 0);
    PolledReaps(waits, 0);
    if pid > 0 && reachable {
      ReapConcat([Killed(SIGHUP)], polls);
      if AllRunning(waits, 0) {
        ReapConcat([Killed(SIGHUP)] + polls, [Killed(SIGTERM)]);
        assert ([Killed(SIGHUP)] + polls + [Killed(SIGTERM)])[|polls| + 1] == Killed(SIGTERM);
      } else {
        assert [Killed(SIGHUP)] + polls + [] == [Killed(SIGHUP)] + polls;
      }
    }
  }

  /** The process is sent SIGHUP, signal 1, before anything else, if it exists at all. */
  lemma HangupLeads(pid: int, reachable: bool, waits: Waits)
    ensures var acts := Termination(pid, reachable, waits);
            if pid > 0 && reachable then acts != [] && acts[0] == Killed(1) else acts == []
  {
  }

  /** The waits are answered in order, and all but the last of them find the child running. */
  lemma {:induction false} PolledInOrder(waits: Waits, k: nat)
    requires k <= POLLS
    ensures |Polled(waits, k)| <= POLLS - k
    ensures forall j :: k <= j < k + |Polled(waits, k)| ==> Polled(waits, k)[j - k] == Waited(Answer(waits, j))
    ensures forall j :: k <= j < k + |Polled(waits, k)| - 1 ==> Answer(waits, j) == Running
    ensures |Polled(waits, k)| < POLLS - k ==>
              |Polled(waits, k)| > 0 && Answer(waits, k + |Polled(waits, k)| - 1) != Running
    decreases POLLS - k
  {
    if k == POLLS {
    } else if Answer(waits, k) == Running {
      PolledInOrder(waits, k + 1);
      var rest := Polled(waits, k + 1);
      assert Polled(waits, k) == [Waited(Running)] + rest;
    }
  }

  lemma LastPollDecides(waits: Waits)
    ensures AllRunning(waits, 0) <==> |Polled(waits, 0)| == 20 && Answer(waits, 19) == Running
  {
    PolledInOrder(waits, 0);
    AllRunningMeans(waits, 0);
    if |Polled(waits, 0)| == 20 && Answer(waits, 19) == Running {
      assert forall j: nat :: j < POLLS ==> Answer(waits, j) == Running;
    }
  }

  /**
    * After SIGHUP come the waits, each with its own answer, until one does not find the child running, at most
    * 20; then SIGTERM, signal 15, if all 20 found it running, and nothing else.
    */
  lemma TerminationInOrder(pid: int, reachable: bool, waits: Waits) returns (polls: seq<Act>)
    requires pid > 0 && reachable
    ensures 0 < |polls| <= 20 && (|polls| == 20 || Answer(waits, |polls| - 1) != Running)
    ensures forall j :: 0 <= j < |polls| ==> polls[j] == Waited(Answer(waits, j))
    ensures forall j :: 0 <= j < |polls| - 1 ==> Answer(waits, j) == Running
    ensures Termination(pid, reachable, waits)
              == [Killed(1)] + polls + if |polls| == 20 && Answer(waits, 19) == Running then [Killed(15)] else []
  {
    polls := Polled(waits, 0);
    PolledInOrder(waits, 0);
    LastPollDecides(waits);
  }
}
