/**
  * The queue of bytes waiting to be written to the pty, on values.
  *
  * An epoch is the time between two clears of the queue. Its ghost record is what callers had accepted
  * and what the kernel took; `Intact` says how the two stay tied, and which nodes have been freed.
  */
module Outbox {
  import opened Bytes

  const WRITE_BUDGET: nat := 64 * 1024

  /** A heap node, with the identity of its allocation. */
  datatype Pending = Pending(id: nat, data: seq<Byte>, offset: nat)

  datatype Epoch = Epoch(accepted: seq<Byte>, sent: seq<Byte>)

  datatype Outbox = Outbox(queue: seq<Pending>, epoch: Epoch, past: seq<Epoch>, freed: seq<nat>)

  const EMPTY: Outbox := Outbox([], Epoch([], []), [], [])

  function Suffix(p: Pending): seq<Byte> {
    if p.offset <= |p.data| then p.data[p.offset..] else []
  }

  /** The unsent suffixes of the queued nodes, in order. */
  function Unsent(q: seq<Pending>): seq<Byte> {
    if q == [] then [] else Suffix(q[0]) + Unsent(q[1..])
  }

  function Ids(q: seq<Pending>): (r: seq<nat>)
    ensures |r| == |q|
    ensures forall i :: 0 <= i < |q| ==> r[i] == q[i].id
  {
    seq(|q|, i requires 0 <= i < |q| => q[i].id)
  }

  /** Every node still has bytes to send, and only the head may have sent some. */
  ghost predicate Shaped(q: seq<Pending>) {
    forall i :: 0 <= i < |q| ==> q[i].offset < |q[i].data| && (i > 0 ==> q[i].offset == 0)
  }

  /** The allocations in `ids` are different, and all were issued. */
  ghost predicate Distinct(ids: seq<nat>, issued: nat) {
    (forall i :: 0 <= i < |ids| ==> ids[i] < issued) && (forall i, j :: 0 <= i < j < |ids| ==> ids[i] != ids[j])
  }

  /** Conservation: sent plus unsent is accepted, and in a closed epoch the sent bytes are a prefix. */
  ghost predicate Intact(o: Outbox) {
    && Shaped(o.queue)
    && o.epoch.sent + Unsent(o.queue) == o.epoch.accepted
    && (forall i :: 0 <= i < |o.past| ==> o.past[i].sent <= o.past[i].accepted)
  }

  /** The nodes that have been freed, then those that are queued. */
  function Nodes(o: Outbox): seq<nat> { o.freed + Ids(o.queue) }

  /** The stream is intact, and no allocation is queued twice, freed twice, or queued after being freed. */
  ghost predicate Accounted(o: Outbox, issued: nat) {
    Intact(o) && Distinct(Nodes(o), issued)
  }

  lemma DistinctGrows(a: seq<nat>, x: nat, b: seq<nat>, issued: nat)
    requires Distinct(a + b, issued) && x < issued && x !in a + b
    ensures Distinct(a + [x] + b, issued)
  {
    var ids, more := a + b, a + [x] + b;
    forall i | 0 <= i < |more| && i != |a|
      ensures more[i] == ids[if i < |a| then i else i - 1] && more[i] != x && more[i] < issued
    { }
    assert more[|a|] == x;
  }

  // ---------------------------------------------------------------- steps

  /** `clear_pending_writes`. */
  function Cleared(o: Outbox): Outbox {
    Outbox([], Epoch([], []), o.past + [o.epoch], o.freed + Ids(o.queue))
  }

  function Enqueued(o: Outbox, p: Pending): Outbox {
    o.(queue := o.queue + [p], epoch := o.epoch.(accepted := o.epoch.accepted + p.data))
  }

  /** The kernel took `chunk`. */
  function Sent(o: Outbox, chunk: seq<Byte>): Outbox {
    o.(epoch := o.epoch.(sent := o.epoch.sent + chunk))
  }

  /** The head's offset moves by `n`. */
  function Moved(o: Outbox, n: nat): Outbox
    requires o.queue != []
  {
    o.(queue := o.queue[0 := o.queue[0].(offset := o.queue[0].offset + n)])
  }

  /** The head leaves the queue and is freed. */
  function Unlinked(o: Outbox): Outbox
    requires o.queue != []
  {
    o.(queue := o.queue[1..], freed := o.freed + [o.queue[0].id])
  }

  /** The next `n` bytes of the head are sent, and a head that is finished leaves the queue. */
  function Advanced(o: Outbox, n: nat): Outbox
    requires o.queue != [] && o.queue[0].offset + n <= |o.queue[0].data|
  {
    var p := o.queue[0];
    var moved := Moved(Sent(o, p.data[p.offset..p.offset + n]), n);
    if p.offset + n == |p.data| then Unlinked(moved) else moved
  }

  /** What one non-blocking `write` may answer; `Took(0)` is a return value of zero. */
  datatype Outcome = Took(n: nat) | Interrupted | WouldBlock | Failed

  function Min(a: int, b: int): int { if a <= b then a else b }

  /** How many of the `k` bytes offered were taken. */
  function Taken(outcome: Outcome, k: nat): (m: nat)
    ensures m <= k
  {
    match outcome case Took(n) => Min(n, k) case _ => 0
  }

  /** A flush under way: `verdict` is what it has returned, if it has. */
  datatype Flush = Flush(box: Outbox, budget: nat, verdict: Option<bool>)

  predicate Halted(f: Flush) { f.verdict.Some? || f.box.queue == [] || f.budget == 0 }

  /** The boolean that a halted flush returns. */
  predicate Succeeded(f: Flush) { f.verdict != Some(false) }

  /** The length that the next `write` asks for. */
  function Request(f: Flush): int
    requires f.box.queue != []
  {
    Min(|f.box.queue[0].data| - f.box.queue[0].offset, f.budget)
  }

  function WriteOnce(f: Flush, outcome: Outcome): Flush
    requires Shaped(f.box.queue) && !Halted(f)
  {
    match outcome
    case Took(n) =>
      var m := Min(n, Request(f));
      if m > 0 then f.(box := Advanced(f.box, m), budget := f.budget - m)
      else f.(box := Cleared(f.box), verdict := Some(false))
    case Interrupted => f
    case WouldBlock => f.(verdict := Some(true))
    case Failed => f.(box := Cleared(f.box), verdict := Some(false))
  }

  /** Freeing the head moves its identity from the queue to the freed nodes. */
  lemma FreedFirst(freed: seq<nat>, q: seq<Pending>)
    requires q != []
    ensures freed + [q[0].id] + Ids(q[1..]) == freed + Ids(q)
  {
    assert Ids(q) == [q[0].id] + Ids(q[1..]);
  }

  lemma AdvancedNodes(o: Outbox, n: nat)
    requires o.queue != [] && o.queue[0].offset + n <= |o.queue[0].data|
    ensures Nodes(Advanced(o, n)) == Nodes(o)
  {
    if o.queue[0].offset + n == |o.queue[0].data| {
      FreedFirst(o.freed, o.queue);
    } else {
      assert Ids(Advanced(o, n).queue) == Ids(o.queue);
    }
  }

  lemma AdvancedUnsent(o: Outbox, n: nat)
    requires Shaped(o.queue) && o.queue != [] && 0 < n <= |o.queue[0].data| - o.queue[0].offset
    ensures Unsent(o.queue) == o.queue[0].data[o.queue[0].offset..o.queue[0].offset + n] + Unsent(Advanced(o, n).queue)
    ensures Shaped(Advanced(o, n).queue)
  {
    var p, rest := o.queue[0], o.queue[1..];
    var chunk, left := p.data[p.offset..p.offset + n], p.data[p.offset + n..];
    assert Suffix(p) == chunk + left;
    Associative(chunk, left, Unsent(rest));
    assert Advanced(o, n).queue == if p.offset + n == |p.data| then rest else [p.(offset := p.offset + n)] + rest;
    assert left == [] ==> left + Unsent(rest) == Unsent(rest);
  }

  lemma AdvancedKeepsIntact(o: Outbox, n: nat)
    requires Intact(o) && o.queue != [] && 0 < n <= |o.queue[0].data| - o.queue[0].offset
    ensures Intact(Advanced(o, n)) && Nodes(Advanced(o, n)) == Nodes(o)
  {
    AdvancedUnsent(o, n);
    AdvancedNodes(o, n);
  }

  lemma AdvancedSends(o: Outbox, n: nat)
    requires o.queue != [] && o.queue[0].offset + n <= |o.queue[0].data|
    ensures var o' := Advanced(o, n);
            && o'.past == o.past && o'.epoch.accepted == o.epoch.accepted
            && o.epoch.sent <= o'.epoch.sent && |o'.epoch.sent| == |o.epoch.sent| + n
  {
  }

  lemma {:induction false} UnsentSnoc(q: seq<Pending>, p: Pending)
    ensures Unsent(q + [p]) == Unsent(q) + Suffix(p)
  {
    if q == [] {
      assert [p][1..] == [];
    } else {
      assert (q + [p])[1..] == q[1..] + [p];
      UnsentSnoc(q[1..], p);
    }
  }

  lemma EnqueuedNodes(o: Outbox, p: Pending)
    ensures Nodes(Enqueued(o, p)) == Nodes(o) + [p.id]
  {
    assert Ids(o.queue + [p]) == Ids(o.queue) + [p.id];
    Associative(o.freed, Ids(o.queue), [p.id]);
  }

  lemma EnqueuedKeepsIntact(o: Outbox, p: Pending)
    requires Intact(o) && p.offset == 0 && p.data != []
    ensures Intact(Enqueued(o, p)) && Nodes(Enqueued(o, p)) == Nodes(o) + [p.id]
  {
    UnsentSnoc(o.queue, p);
    assert Suffix(p) == p.data;
    Associative(o.epoch.sent, Unsent(o.queue), p.data);
    EnqueuedNodes(o, p);
  }

  lemma ClearedKeepsIntact(o: Outbox)
    requires Intact(o)
    ensures Intact(Cleared(o)) && Nodes(Cleared(o)) == Nodes(o)
    ensures o.epoch.sent <= o.epoch.accepted
  {
    assert o.epoch.sent <= o.epoch.sent + Unsent(o.queue);
    assert o.freed + Ids(o.queue) + Ids([]) == o.freed + Ids(o.queue);
  }

  lemma ClearedIsAccounted(o: Outbox, issued: nat)
    requires Accounted(o, issued)
    ensures Accounted(Cleared(o), issued)
  {
    ClearedKeepsIntact(o);
  }

  lemma EnqueuedIsAccounted(o: Outbox, p: Pending, issued: nat)
    requires Accounted(o, issued) && p.offset == 0 && p.data != [] && p.id < issued && p.id !in Nodes(o)
    ensures Accounted(Enqueued(o, p), issued)
  {
    EnqueuedKeepsIntact(o, p);
    assert Nodes(o) + [] == Nodes(o) && Nodes(o) + [p.id] + [] == Nodes(o) + [p.id];
    DistinctGrows(Nodes(o), p.id, [], issued);
  }

  /** A node that is freed without having been queued. */
  lemma RejectedIsAccounted(o: Outbox, id: nat, issued: nat)
    requires Accounted(o, issued) && id < issued && id !in Nodes(o)
    ensures Accounted(o.(freed := o.freed + [id]), issued)
    ensures forall x :: x in Nodes(o.(freed := o.freed + [id])) <==> x in Nodes(o) || x == id
  {
    DistinctGrows(o.freed, id, Ids(o.queue), issued);
  }

  // ---------------------------------------------------------------- one whole flush

  lemma WriteKeepsShape(f: Flush, outcome: Outcome)
    requires Shaped(f.box.queue) && !Halted(f)
    ensures Shaped(WriteOnce(f, outcome).box.queue)
  {
  }

  /** The flush after the answers `outs`; none if it had halted before the last of them. */
  ghost function Played(f: Flush, outs: seq<Outcome>): (r: Option<Flush>)
    requires Shaped(f.box.queue)
    ensures r.Some? ==> Shaped(r.value.box.queue)
  {
    if outs == [] then Some(f)
    else
      match Played(f, outs[..|outs| - 1])
      case None => None
      case Some(r) =>
        if Halted(r) then None
        else
          WriteKeepsShape(r, outs[|outs| - 1]);
          Some(WriteOnce(r, outs[|outs| - 1]))
  }

  /** One call of `flush_pending_writes` that received exactly the answers `outs` and returned `ok`. */
  ghost predicate Flushes(o: Outbox, outs: seq<Outcome>, o': Outbox, ok: bool) {
    && Shaped(o.queue)
    && var r := Played(Flush(o, WRITE_BUDGET, None), outs);
       r.Some? && Halted(r.value) && o' == r.value.box && ok == Succeeded(r.value)
  }

  /**
    * One call of `lxl_ghostty_terminal_write` with a fresh node, when the terminal is `stopping` or not:
    * the node is freed at once, or queued for the flush that follows.
    */
  ghost predicate Writes(o: Outbox, id: nat, data: seq<Byte>, stopping: bool, outs: seq<Outcome>, o': Outbox,
                         ok: bool) {
    if stopping then !ok && outs == [] && o' == o.(freed := o.freed + [id])
    else Flushes(Enqueued(o, Pending(id, data, 0)), outs, o', ok)
  }

  /** A flush that has not failed conserves the stream; one that has, closed its epoch at a prefix. */
  ghost predicate Conserves(f: Flush, r: Flush)
    requires r.budget <= f.budget
  {
    && Intact(r.box) && Nodes(r.box) == Nodes(f.box)
    && if r.verdict == Some(false) then
         && |r.box.past| == |f.box.past| + 1
         && r.box.queue == [] && r.box.epoch == Epoch([], [])
         && r.box.past == f.box.past + [Epoch(f.box.epoch.accepted, r.box.past[|f.box.past|].sent)]
         && f.box.epoch.sent <= r.box.past[|f.box.past|].sent <= f.box.epoch.accepted
         && |r.box.past[|f.box.past|].sent| == |f.box.epoch.sent| + (f.budget - r.budget)
       else
         && r.box.past == f.box.past && r.box.epoch.accepted == f.box.epoch.accepted
         && f.box.epoch.sent <= r.box.epoch.sent
         && |r.box.epoch.sent| == |f.box.epoch.sent| + (f.budget - r.budget)
  }

  lemma WriteConserves(f: Flush, r: Flush, outcome: Outcome)
    requires r.budget <= f.budget && Conserves(f, r) && !Halted(r)
    ensures WriteOnce(r, outcome).budget <= f.budget
    ensures Conserves(f, WriteOnce(r, outcome))
  {
    ClearedKeepsIntact(r.box);
    if outcome.Took? && Min(outcome.n, Request(r)) > 0 {
      AdvancedKeepsIntact(r.box, Min(outcome.n, Request(r)));
      AdvancedSends(r.box, Min(outcome.n, Request(r)));
    }
  }

  lemma {:induction false} FlushConserves(f: Flush, outs: seq<Outcome>, r: Flush)
    requires Intact(f.box) && f.verdict.None? && Played(f, outs) == Some(r)
    ensures r.budget <= f.budget && Conserves(f, r)
  {
    if outs == [] {
    } else {
      var before := Played(f, outs[..|outs| - 1]).value;
      FlushConserves(f, outs[..|outs| - 1], before);
      WriteConserves(f, before, outs[|outs| - 1]);
    }
  }

  // ---------------------------------------------------------------- what a call of flush or write does

  /**
    * A flush that succeeds keeps every accepted byte, sent or queued in order, and sends at most 65536.
    * One that fails empties the queue, having sent a prefix of what had been accepted.
    */
  lemma FlushDelivers(o: Outbox, outs: seq<Outcome>, o': Outbox, ok: bool, issued: nat)
    requires Accounted(o, issued) && Flushes(o, outs, o', ok)
    ensures Accounted(o', issued) && Nodes(o') == Nodes(o)
    ensures ok ==> o'.past == o.past && o'.epoch.accepted == o.epoch.accepted
                   && o.epoch.sent <= o'.epoch.sent && |o'.epoch.sent| <= |o.epoch.sent| + WRITE_BUDGET
    ensures !ok ==> o'.queue == [] && o'.epoch == Epoch([], []) && |o'.past| == |o.past| + 1
                    && o'.past[..|o.past|] == o.past
                    && o'.past[|o.past|].accepted == o.epoch.accepted
                    && o.epoch.sent <= o'.past[|o.past|].sent <= o.epoch.accepted
                    && |o'.past[|o.past|].sent| <= |o.epoch.sent| + WRITE_BUDGET
  {
    var f := Flush(o, WRITE_BUDGET, None);
    FlushConserves(f, outs, Played(f, outs).value);
  }

  /** The promise of `lxl_ghostty_terminal_write`: success appends the data to the accepted stream. */
  lemma WriteDelivers(o: Outbox, id: nat, data: seq<Byte>, stopping: bool, outs: seq<Outcome>, o': Outbox, ok: bool,
                      issued: nat)
    requires Accounted(o, issued) && id < issued && id !in Nodes(o) && data != []
    requires Writes(o, id, data, stopping, outs, o', ok)
    ensures Accounted(o', issued) && forall x :: x in Nodes(o') <==> x in Nodes(o) || x == id
    ensures ok ==> !stopping && o'.past == o.past && o'.epoch.accepted == o.epoch.accepted + data
                   && o.epoch.sent <= o'.epoch.sent
    ensures !ok && stopping ==> o'.queue == o.queue && o'.epoch == o.epoch && o'.past == o.past && id in o'.freed
    ensures !ok && !stopping ==> o'.queue == [] && o'.epoch == Epoch([], []) && |o'.past| == |o.past| + 1
                                 && o'.past[..|o.past|] == o.past
                                 && o'.past[|o.past|].accepted == o.epoch.accepted + data
  {
    if stopping {
      RejectedIsAccounted(o, id, issued);
    } else {
      var p := Pending(id, data, 0);
      EnqueuedIsAccounted(o, p, issued);
      EnqueuedKeepsIntact(o, p);
      FlushDelivers(Enqueued(o, p), outs, o', ok, issued);
    }
  }

  // ---------------------------------------------------------------- how fast it drains

  lemma {:induction false} NeverRefused(f: Flush, outs: seq<Outcome>, r: Flush)
    requires Shaped(f.box.queue) && f.verdict.None? && Played(f, outs) == Some(r)
    requires forall i :: 0 <= i < |outs| ==> outs[i].Took? && outs[i].n > 0
    ensures r.verdict.None?
  {
    if outs == [] {
    } else {
      NeverRefused(f, outs[..|outs| - 1], Played(f, outs[..|outs| - 1]).value);
    }
  }

  /** Against a kernel that takes at least one byte every time, a flush sends all it may. */
  lemma AcceptingKernelDrains(o: Outbox, outs: seq<Outcome>, o': Outbox, ok: bool)
    requires Intact(o) && Flushes(o, outs, o', ok)
    requires forall i :: 0 <= i < |outs| ==> outs[i].Took? && outs[i].n > 0
    ensures ok && Intact(o')
    ensures |o'.epoch.sent| - |o.epoch.sent| == Min(WRITE_BUDGET, |Unsent(o.queue)|)
    ensures |Unsent(o'.queue)| == |Unsent(o.queue)| - Min(WRITE_BUDGET, |Unsent(o.queue)|)
  {
    var f := Flush(o, WRITE_BUDGET, None);
    var r := Played(f, outs).value;
    FlushConserves(f, outs, r);
    NeverRefused(f, outs, r);
    assert |o.epoch.accepted| == |o.epoch.sent| + |Unsent(o.queue)|;
    assert |o'.epoch.accepted| == |o'.epoch.sent| + |Unsent(o'.queue)|;
  }

  ghost predicate Round(o: Outbox, outs: seq<Outcome>, o': Outbox) {
    && (forall i :: 0 <= i < |outs| ==> outs[i].Took? && outs[i].n > 0)
    && exists ok :: Flushes(o, outs, o', ok)
  }

  /** Boxes before and after each of a number of flushes, all against an accepting kernel. */
  ghost predicate Rounds(boxes: seq<Outbox>, scripts: seq<seq<Outcome>>) {
    && |boxes| == |scripts| + 1 && Intact(boxes[0])
    && forall i :: 0 <= i < |scripts| ==> Round(boxes[i], scripts[i], boxes[i + 1])
  }

  /** The bytes left of `t` after `k` flushes of 65536. */
  function Left(t: nat, k: nat): nat {
    if k * 65536 >= t then 0 else t - k * 65536
  }

  lemma LeftStep(t: nat, k: nat)
    requires k > 0
    ensures Left(t, k) == Left(t, k - 1) - Min(65536, Left(t, k - 1))
  {
  }

  lemma LeftIsZero(t: nat, k: nat)
    ensures Left(t, k) == 0 <==> k >= (t + 65535) / 65536
  {
  }

  lemma {:induction false} EmptyIffSent(q: seq<Pending>)
    requires Shaped(q)
    ensures q == [] <==> |Unsent(q)| == 0
  {
    if q != [] { assert |Suffix(q[0])| > 0; }
  }

  lemma RoundDrains(o: Outbox, outs: seq<Outcome>, o': Outbox)
    requires Intact(o) && Round(o, outs, o')
    ensures Intact(o') && |Unsent(o'.queue)| == |Unsent(o.queue)| - Min(WRITE_BUDGET, |Unsent(o.queue)|)
  {
    var ok :| Flushes(o, outs, o', ok);
    AcceptingKernelDrains(o, outs, o', ok);
  }

  /** `t` pending bytes are gone after `t / 65536` flushes, rounded up, and not before. */
  lemma {:induction false} DrainsInRounds(boxes: seq<Outbox>, scripts: seq<seq<Outcome>>, k: nat)
    requires Rounds(boxes, scripts) && k <= |scripts|
    ensures Intact(boxes[k])
    ensures var t := |Unsent(boxes[0].queue)|;
            && |Unsent(boxes[k].queue)| == Left(t, k)
            && (boxes[k].queue == [] <==> k >= (t + 65535) / 65536)
  {
    if k == 0 {
    } else {
      DrainsInRounds(boxes, scripts, k - 1);
      var o, outs := boxes[k - 1], scripts[k - 1];
      assert Round(o, outs, boxes[k]);
      RoundDrains(o, outs, boxes[k]);
      LeftStep(|Unsent(boxes[0].queue)|, k);
    }
    LeftIsZero(|Unsent(boxes[0].queue)|, k);
    EmptyIffSent(boxes[k].queue);
  }
}
