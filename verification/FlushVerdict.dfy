/**
  * What the kernel's answers decide about a flush: when it fails, when it stops, and how much it has sent.
  *
  * Everything here is read off the list of answers, without the step that a flush takes for each of them.
  */
module FlushVerdict {
  import opened Bytes
  import opened Outbox

  /** A return value of zero, or an error other than EINTR, EAGAIN and EWOULDBLOCK. */
  predicate Refuses(a: Outcome) { a == Failed || a == Took(0) }

  /** The flush goes on after such an answer. */
  predicate GoesOn(a: Outcome) { a == Interrupted || (a.Took? && a.n > 0) }

  /** The answers let a flush go on until the last of them, which decides what it returns. */
  lemma {:induction false} LastAnswerDecides(f: Flush, outs: seq<Outcome>, r: Flush)
    requires Shaped(f.box.queue) && f.verdict.None? && Played(f, outs) == Some(r)
    ensures forall i :: 0 <= i < |outs| - 1 ==> GoesOn(outs[i])
    ensures r.verdict.None? <==> outs == [] || GoesOn(outs[|outs| - 1])
    ensures r.verdict == Some(true) <==> outs != [] && outs[|outs| - 1] == WouldBlock
    ensures r.verdict == Some(false) <==> outs != [] && Refuses(outs[|outs| - 1])
  {
    if outs == [] {
    } else {
      var init := outs[..|outs| - 1];
      LastAnswerDecides(f, init, Played(f, init).value);
      assert forall i :: 0 <= i < |init| ==> outs[i] == init[i];
    }
  }

  /** While nothing refuses, the past is left alone. */
  lemma {:induction false} OnlyRefusalsClear(f: Flush, outs: seq<Outcome>, r: Flush)
    requires Shaped(f.box.queue) && Played(f, outs) == Some(r)
    requires forall i :: 0 <= i < |outs| ==> !Refuses(outs[i])
    ensures r.box.past == f.box.past && r.box.epoch.accepted == f.box.epoch.accepted
  {
    if outs == [] {
    } else {
      var init := outs[..|outs| - 1];
      assert forall i :: 0 <= i < |init| ==> outs[i] == init[i];
      OnlyRefusalsClear(f, init, Played(f, init).value);
    }
  }

  /**
    * A flush fails exactly when its last answer is a hard error or zero. On EAGAIN it succeeds and keeps what
    * is still queued; if it succeeds otherwise, the queue is empty or 65536 bytes have been sent.
    */
  lemma FailsIffRefused(o: Outbox, outs: seq<Outcome>, o': Outbox, ok: bool)
    requires Intact(o) && Flushes(o, outs, o', ok)
    ensures !ok <==> outs != [] && (outs[|outs| - 1] == Failed || outs[|outs| - 1] == Took(0))
    ensures forall i :: 0 <= i < |outs| - 1 ==> outs[i] == Interrupted || (outs[i].Took? && outs[i].n > 0)
    ensures outs != [] && outs[|outs| - 1] == WouldBlock ==>
              ok && o'.past == o.past && o'.epoch.sent + Unsent(o'.queue) == o.epoch.accepted
    ensures ok && (outs == [] || outs[|outs| - 1] != WouldBlock) ==>
              o'.queue == [] || |o'.epoch.sent| == |o.epoch.sent| + 65536
  {
    var f := Flush(o, WRITE_BUDGET, None);
    var r := Played(f, outs).value;
    LastAnswerDecides(f, outs, r);
    FlushConserves(f, outs, r);
    if ok { OnlyRefusalsClear(f, outs, r); }
  }

  /** EAGAIN at once leaves everything as it was. */
  lemma WouldBlockChangesNothing(o: Outbox, o': Outbox, ok: bool)
    requires Flushes(o, [WouldBlock], o', ok)
    ensures ok && o' == o
  {
    var f, outs := Flush(o, WRITE_BUDGET, None), [WouldBlock];
    assert outs[..|outs| - 1] == [] && Played(f, []) == Some(f);
    assert Played(f, outs) == Some(WriteOnce(f, WouldBlock));
  }

  /** A write fails exactly when the terminal is stopping, or the flush that follows is refused. */
  lemma WriteFailsIffRefused(o: Outbox, id: nat, data: seq<Byte>, stopping: bool, outs: seq<Outcome>, o': Outbox,
                             ok: bool)
    requires Intact(o) && data != [] && Writes(o, id, data, stopping, outs, o', ok)
    ensures !ok <==> stopping || (outs != [] && (outs[|outs| - 1] == Failed || outs[|outs| - 1] == Took(0)))
    ensures !stopping && outs != [] && outs[|outs| - 1] == WouldBlock ==>
              o'.past == o.past && o'.epoch.sent + Unsent(o'.queue) == o.epoch.accepted + data
  {
    if !stopping {
      EnqueuedKeepsIntact(o, Pending(id, data, 0));
      FailsIffRefused(Enqueued(o, Pending(id, data, 0)), outs, o', ok);
    }
  }

  // ---------------------------------------------------------------- how much has been sent

  /** The bytes that the answers say were taken. */
  function Total(outs: seq<Outcome>): nat {
    if outs == [] then 0
    else Total(outs[..|outs| - 1]) + match outs[|outs| - 1] case Took(n) => n case _ => 0
  }

  /** `write` never takes more than it was asked to. */
  ghost predicate Honest(f: Flush, outs: seq<Outcome>)
    requires Shaped(f.box.queue)
  {
    outs == [] ||
      (var init, last := outs[..|outs| - 1], outs[|outs| - 1];
       && Honest(f, init) && Played(f, init).Some?
       && var r := Played(f, init).value;
          !Halted(r) && (last.Took? ==>
            last.n <= Min(|r.box.queue[0].data| - r.box.queue[0].offset, r.budget)))
  }

  lemma {:induction false} BudgetIsTaken(f: Flush, outs: seq<Outcome>, r: Flush)
    requires Shaped(f.box.queue) && Played(f, outs) == Some(r) && Honest(f, outs)
    ensures r.budget == f.budget - Total(outs)
  {
    if outs == [] {
    } else {
      var init := outs[..|outs| - 1];
      BudgetIsTaken(f, init, Played(f, init).value);
    }
  }

  /** Every byte that the kernel took is counted as sent, and no other. */
  lemma {:induction false} SentIsTaken(o: Outbox, outs: seq<Outcome>, o': Outbox, ok: bool)
    requires Intact(o) && Flushes(o, outs, o', ok) && Honest(Flush(o, WRITE_BUDGET, None), outs)
    ensures ok ==> |o'.epoch.sent| == |o.epoch.sent| + Total(outs)
    ensures !ok ==> |o'.past| == |o.past| + 1 && |o'.past[|o.past|].sent| == |o.epoch.sent| + Total(outs)
  {
    var f := Flush(o, WRITE_BUDGET, None);
    var r := Played(f, outs).value;
    FlushConserves(f, outs, r);
    BudgetIsTaken(f, outs, r);
  }
}
