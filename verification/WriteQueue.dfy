/**
  * The pending-write queue as the terminal keeps it: heap nodes linked by `next`, drained in place.
  *
  * Each method runs under `write_mu`, so it is one atomic step of the protocol. `Contents()` gives the
  * outbox that the nodes represent, and every method is proved against the steps on that value.
  */
module WriteQueue {
  import opened Bytes
  import opened Outbox

  class Node {
    const data: seq<Byte>
    ghost const id: nat
    var offset: nat
    var next: Node?

    constructor (data: seq<Byte>, ghost id: nat)
      ensures this.data == data && this.id == id && offset == 0 && next == null
    {
      this.data, this.id, offset, next := data, id, 0, null;
    }
  }

  /** The kernel's answers to the successive calls of `write`. */
  type Kernel = nat -> Outcome

  function Answer(kernel: Kernel, i: nat): Outcome { kernel(i) }

  ghost predicate AnswersFrom(kernel: Kernel, i: nat) {
    exists j: nat :: i <= j && Answer(kernel, j) != Interrupted
  }

  /** No endless run of EINTR: the condition for a flush to terminate. */
  ghost predicate Patient(kernel: Kernel) {
    forall i: nat :: AnswersFrom(kernel, i)
  }

  ghost function Willing(kernel: Kernel, i: nat): (j: nat)
    requires Patient(kernel)
    ensures i <= j && Answer(kernel, j) != Interrupted
  {
    assert AnswersFrom(kernel, i);
    var j: nat :| i <= j && Answer(kernel, j) != Interrupted;
    j
  }

  function Answers(kernel: Kernel, from: nat, to: nat): (r: seq<Outcome>)
    requires from <= to
    ensures |r| == to - from
  {
    if from == to then [] else Answers(kernel, from, to - 1) + [Answer(kernel, to - 1)]
  }

  /** The pending writes that a list of nodes stands for. */
  ghost function Represented(spine: seq<Node>): (q: seq<Pending>)
    reads spine
    ensures |q| == |spine|
  {
    if spine == [] then []
    else [Pending(spine[0].id, spine[0].data, spine[0].offset)] + Represented(spine[1..])
  }

  ghost predicate AllIn(spine: seq<Node>, nodes: set<Node>) {
    forall n :: n in spine ==> n in nodes
  }

  function First(spine: seq<Node>, end: Node?): Node? {
    if spine == [] then end else spine[0]
  }

  /** The nodes differ, each points to the one after it, and the last one to `end`. */
  ghost predicate Linked(spine: seq<Node>, end: Node?)
    reads spine
  {
    spine != [] ==>
      && spine[0] !in spine[1..]
      && spine[0].next == First(spine[1..], end)
      && Linked(spine[1..], end)
  }

  lemma {:induction false} SplitLast(spine: seq<Node>)
    requires spine != [] && Linked(spine, null)
    ensures var n := |spine| - 1;
            spine[n] !in spine[..n] && spine[n].next == null && Linked(spine[..n], spine[n])
  {
    var n := |spine| - 1;
    if n == 0 {
    } else {
      SplitLast(spine[1..]);
      assert spine[1..][..n - 1] == spine[..n][1..];
      assert spine[..n] == [spine[0]] + spine[..n][1..];
    }
  }

  lemma {:induction false} LinkLast(spine: seq<Node>, last: Node, end: Node?)
    requires Linked(spine, last) && last !in spine && last.next == end
    ensures Linked(spine + [last], end)
  {
    if spine == [] {
      assert [last][1..] == [];
    } else {
      LinkLast(spine[1..], last, end);
      assert (spine + [last])[1..] == spine[1..] + [last];
    }
  }

  lemma {:induction false} RepresentedConcat(a: seq<Node>, b: seq<Node>)
    ensures Represented(a + b) == Represented(a) + Represented(b)
  {
    if a == [] {
      assert a + b == b;
    } else {
      var rest := a[1..];
      RepresentedConcat(rest, b);
      assert (a + b)[0] == a[0] && (a + b)[1..] == rest + b;
      assert Represented(a + b) == [Pending(a[0].id, a[0].data, a[0].offset)] + Represented(rest + b);
    }
  }

  /** The answers of the kernel's calls `from` to `to` lead from `start` to `f`. */
  ghost predicate Reached(start: Flush, kernel: Kernel, from: nat, to: nat, f: Flush) {
    from <= to && Shaped(start.box.queue) && Played(start, Answers(kernel, from, to)) == Some(f)
  }

  lemma ReachedNext(start: Flush, kernel: Kernel, from: nat, to: nat, f: Flush, f': Flush)
    requires Reached(start, kernel, from, to, f)
    requires Shaped(f.box.queue) && !Halted(f) && f' == WriteOnce(f, Answer(kernel, to))
    ensures Reached(start, kernel, from, to + 1, f')
  {
    var outs := Answers(kernel, from, to);
    assert (outs + [Answer(kernel, to)])[..|outs|] == outs;
  }

  /** What a list stands for depends on its nodes' offsets only. */
  twostate lemma {:induction false} SameOffsets(spine: seq<Node>)
    requires forall n :: n in spine ==> old(n.offset) == n.offset
    ensures old(Represented(spine)) == Represented(spine)
  {
    if spine == [] {
    } else {
      SameOffsets(spine[1..]);
    }
  }

  class WriteQueue {
    var head: Node?
    var tail: Node?
    var ptyFd: int
    var stopping: bool
    var calls: nat  // calls of `write` so far
    ghost var spine: seq<Node>
    ghost var wire: seq<Byte>  // what the kernel has taken so far, from all the buffers that `write` was given
    ghost var mark: nat  // the length of `wire` when the queue was cleared last
    ghost var accepted: seq<Byte>  // what callers have been promised since then
    ghost var past: seq<Epoch>
    ghost var live: set<Node>  // allocated and not freed yet
    ghost var freed: seq<nat>
    ghost var issued: nat  // allocations so far; each takes the next number

    /** The list is acyclic, starts at `head` and ends in `tail`, both null together; none of it is freed. */
    ghost predicate ValidList()
      reads this, spine
    {
      && head == First(spine, null)
      && tail == (if spine == [] then null else spine[|spine| - 1])
      && Linked(spine, null)
      && AllIn(spine, live)
      && mark <= |wire|
    }

    ghost predicate Valid()
      reads this, spine
    {
      ValidList() && Shaped(Represented(spine))
    }

    ghost function Contents(): Outbox
      reads this, spine
      requires mark <= |wire|
    {
      Outbox(Represented(spine), Epoch(accepted, wire[mark..]), past, freed)
    }

    constructor (ptyFd: int)
      ensures Valid() && Contents() == EMPTY && spine == [] && live == {}
    {
      head, tail, this.ptyFd, stopping, calls := null, null, ptyFd, false, 0;
      spine, wire, mark, accepted, past, live, freed, issued := [], [], 0, [], [], {}, [], 0;
    }

    /** `free` of a node and its data, which must not have been freed before. */
    ghost method Free(node: Node)
      requires node in live
      modifies `live, `freed
      ensures live == old(live) - {node} && freed == old(freed) + [node.id]
    {
      live, freed := live - {node}, freed + [node.id];
    }

    /** Reads the link of a node, which must not have been freed. */
    method Next(node: Node) returns (next: Node?)
      requires node in live
      ensures next == node.next
    {
      next := node.next;
    }

    /** Frees the first of the linked nodes `rest`, whose link is read before that. */
    method FreeFirst(write: Node, ghost rest: seq<Node>) returns (next: Node?)
      requires rest != [] && write == rest[0] && Linked(rest, null) && AllIn(rest, live)
      modifies `live, `freed
      ensures next == First(rest[1..], null) && Linked(rest[1..], null) && AllIn(rest[1..], live)
      ensures freed + Ids(Represented(rest[1..])) == old(freed) + Ids(Represented(rest))
    {
      FreedFirst(freed, Represented(rest));
      next := Next(write);
      Free(write);
    }

    method ClearPending()
      requires Valid()
      modifies `head, `tail, `spine, `mark, `accepted, `past, `live, `freed
      ensures Valid() && Contents() == Cleared(old(Contents())) && spine == []
    {
      var write := head;
      ghost var rest := spine;
      ghost var total := freed + Ids(Represented(spine));
      while write != null
        invariant Linked(rest, null) && write == First(rest, null)
        invariant freed + Ids(Represented(rest)) == total
        invariant AllIn(rest, live)
        modifies `live, `freed
        decreases |rest|
      {
        var next := FreeFirst(write, rest);
        rest := rest[1..];
        write := next;
      }
      assert freed + Ids([]) == freed;
      head, tail := null, null;
      past, accepted, mark, spine := past + [Epoch(accepted, wire[mark..])], [], |wire|, [];
    }

    /** `write(2)` on the non-blocking pty; it is never asked to write nothing, or more than the budget. */
    method KernelWrite(kernel: Kernel, chunk: seq<Byte>, ghost budget: nat) returns (outcome: Outcome)
      requires chunk != [] && |chunk| <= budget && mark <= |wire|
      modifies `calls, `wire
      ensures outcome == Answer(kernel, old(calls)) && calls == old(calls) + 1
      ensures wire == old(wire) + chunk[..Taken(outcome, |chunk|)]
      ensures Taken(outcome, |chunk|) == 0 ==> wire == old(wire)
      ensures wire[mark..] == old(wire[mark..]) + chunk[..Taken(outcome, |chunk|)]
    {
      outcome := Answer(kernel, calls);
      calls := calls + 1;
      wire := wire + chunk[..Taken(outcome, |chunk|)];
    }

    method MoveOffset(n: nat)
      requires ValidList() && head != null
      modifies head`offset
      ensures ValidList() && head.offset == old(head.offset) + n
      ensures Contents() == Moved(old(Contents()), n)
    {
      head.offset := head.offset + n;
    }

    method UnlinkHead()
      requires ValidList() && head != null
      modifies `head, `tail, `spine, `live, `freed
      ensures ValidList() && spine == old(spine)[1..]
      ensures Contents() == Unlinked(old(Contents()))
    {
      var pending := head;
      head := Next(pending);
      spine := spine[1..];
      if head == null { tail := null; }
      Free(pending);
    }

    /** The head's offset moves; a finished head is unlinked and freed. */
    method MoveHead(n: nat, ghost was: Outbox)
      requires ValidList() && head != null && 0 < n <= |head.data| - head.offset
      requires was.queue == Represented(spine)
      requires Contents() == Sent(was, head.data[head.offset..head.offset + n])
      modifies `head, `tail, `spine, `live, `freed, head`offset
      ensures ValidList() && Contents() == Advanced(was, n)
      ensures spine == old(spine) || spine == old(spine)[1..]
    {
      MoveOffset(n);
      if head.offset == |head.data| { UnlinkHead(); }
    }

    /** The kernel has taken the next `n` bytes of the head of `was`. */
    method Advance(n: nat, ghost was: Outbox)
      requires ValidList() && head != null && 0 < n <= |head.data| - head.offset
      requires was.queue == Represented(spine) && Shaped(was.queue)
      requires Contents() == Sent(was, head.data[head.offset..head.offset + n])
      modifies `head, `tail, `spine, `live, `freed, head`offset
      ensures Valid() && Contents() == Advanced(was, n)
      ensures spine == old(spine) || spine == old(spine)[1..]
    {
      AdvancedUnsent(was, n);
      MoveHead(n, was);
    }

    /** Offers the head's unsent bytes, within the budget, to the kernel and drops those that it took. */
    method OfferHead(kernel: Kernel, budget: nat) returns (outcome: Outcome, taken: nat)
      requires Valid() && head != null && 0 < budget
      modifies `head, `tail, `spine, `wire, `live, `freed, `calls, head`offset
      ensures Valid() && calls == old(calls) + 1 && outcome == Answer(kernel, old(calls))
      ensures var request := Min(|old(head).data| - old(head.offset), budget);
              0 < request && taken == Taken(outcome, request)
      ensures Contents() == if taken > 0 then Advanced(old(Contents()), taken) else old(Contents())
      ensures spine == old(spine) || (taken > 0 && spine == old(spine)[1..])
    {
      var pending := head;
      ghost var was := Contents();
      assert was.queue[0] == Pending(pending.id, pending.data, pending.offset);
      var remaining := |pending.data| - pending.offset;
      if remaining > budget { remaining := budget; }
      outcome := KernelWrite(kernel, pending.data[pending.offset..pending.offset + remaining], budget);
      taken := Taken(outcome, remaining);
      TakeOfSlice(pending.data, pending.offset, remaining, taken);
      if taken > 0 { Advance(taken, was); }
    }

    /** One turn of the flush loop; `verdict` is what the loop returns with, if it ends here. */
    method WriteHead(kernel: Kernel, budget: nat) returns (left: nat, verdict: Option<bool>, ghost gone: nat)
      requires Valid() && head != null && 0 < budget
      modifies `head, `tail, `spine, `wire, `mark, `accepted, `past, `live, `freed, `calls, head`offset
      ensures Valid() && calls == old(calls) + 1
      ensures verdict.None? ==> left < budget || (left == budget && Answer(kernel, old(calls)) == Interrupted)
      ensures Flush(Contents(), left, verdict)
                == WriteOnce(Flush(old(Contents()), budget, None), Answer(kernel, old(calls)))
      ensures gone <= |old(spine)| && spine == old(spine)[gone..]
    {
      assert Contents().queue[0] == Pending(head.id, head.data, head.offset);
      left, verdict, gone := budget, None, 0;
      var outcome, taken := OfferHead(kernel, budget);
      if taken > 0 {
        left, gone := budget - taken, |old(spine)| - |spine|;
      } else if outcome == WouldBlock {
        verdict := Some(true);
      } else if outcome != Interrupted {
        ClearPending();
        verdict, gone := Some(false), |old(spine)|;
      }
    }

    /** Between two turns: the answers so far have led from `start` here, and one at `until` will not be EINTR. */
    ghost predicate Midway(start: Flush, kernel: Kernel, from: nat, budget: nat, until: nat)
      reads this, spine
    {
      && Valid() && Reached(start, kernel, from, calls, Flush(Contents(), budget, None))
      && calls <= until && Answer(kernel, until) != Interrupted
    }

    method Turn(kernel: Kernel, budget: nat, ghost start: Flush, ghost from: nat)
      returns (left: nat, verdict: Option<bool>, ghost gone: nat)
      requires Valid() && head != null && 0 < budget
      requires Reached(start, kernel, from, calls, Flush(Contents(), budget, None))
      modifies `head, `tail, `spine, `wire, `mark, `accepted, `past, `live, `freed, `calls, head`offset
      ensures Valid() && calls == old(calls) + 1
      ensures Reached(start, kernel, from, calls, Flush(Contents(), left, verdict))
      ensures verdict.None? ==> left < budget || (left == budget && Answer(kernel, old(calls)) == Interrupted)
      ensures gone <= |old(spine)| && spine == old(spine)[gone..]
    {
      ghost var f := Flush(Contents(), budget, None);
      left, verdict, gone := WriteHead(kernel, budget);
      ReachedNext(start, kernel, from, old(calls), f, Flush(Contents(), left, verdict));
    }

    /** The same, with the call looked forward to that EINTR will not answer. */
    method Pass(kernel: Kernel, budget: nat, ghost start: Flush, ghost from: nat, ghost until: nat)
      returns (left: nat, verdict: Option<bool>, ghost until': nat, ghost gone: nat)
      requires Patient(kernel) && Midway(start, kernel, from, budget, until) && head != null && 0 < budget
      modifies `head, `tail, `spine, `wire, `mark, `accepted, `past, `live, `freed, `calls, head`offset
      ensures Valid() && Reached(start, kernel, from, calls, Flush(Contents(), left, verdict))
      ensures verdict.None? ==>
                && Midway(start, kernel, from, left, until')
                && (left < budget || (left == budget && until' - calls < until - old(calls)))
      ensures gone <= |old(spine)| && spine == old(spine)[gone..]
    {
      left, verdict, gone := Turn(kernel, budget, start, from);
      until' := if left < budget then Willing(kernel, calls) else until;
    }

    /** Called with `write_mu` held: writes until the queue is empty, the budget spent or the kernel unwilling. */
    method FlushPending(kernel: Kernel) returns (ok: bool)
      requires Valid() && Patient(kernel)
      modifies `head, `tail, `spine, `wire, `mark, `accepted, `past, `live, `freed, `calls, spine
      ensures Valid() && calls >= old(calls)
      ensures Flushes(old(Contents()), Answers(kernel, old(calls), calls), Contents(), ok)
    {
      var budget: nat, verdict := WRITE_BUDGET, None;
      ghost var start, from := Flush(Contents(), WRITE_BUDGET, None), calls;
      ghost var until: nat, d: nat, gone: nat := Willing(kernel, calls), 0, 0;
      while head != null && budget > 0
        invariant Midway(start, kernel, from, budget, until)
        invariant 0 <= d <= |old(spine)| && spine == old(spine)[d..]
        decreases budget, until - calls
      {
        assert head == old(spine)[d];
        budget, verdict, until, gone := Pass(kernel, budget, start, from, until);
        if verdict.Some? { return verdict.value; }
        d := d + gone;
      }
      return true;
    }

    method Extend(pending: Node)
      requires ValidList() && tail != null
      modifies tail`next
      ensures Linked(spine, pending)
    {
      ghost var init := spine[..|spine| - 1];
      SplitLast(spine);
      assert Linked(init, tail);
      tail.next := pending;
      assert Linked(init, tail);
      LinkLast(init, tail, pending);
      assert init + [tail] == spine;
    }

    /** Links a new node behind the tail. */
    method Append(pending: Node)
      requires ValidList() && pending !in spine && pending in live && pending.next == null
      modifies `head, `tail, `spine, `accepted, spine
      ensures ValidList() && spine == old(spine) + [pending]
      ensures Represented(spine) == old(Represented(spine)) + [Pending(pending.id, pending.data, pending.offset)]
      ensures accepted == old(accepted) + pending.data
    {
      ghost var was := spine;
      accepted := accepted + pending.data;
      if tail != null {
        Extend(pending);
      } else {
        head := pending;
      }
      tail := pending;
      spine := spine + [pending];
      LinkLast(was, pending, null);
      SameOffsets(was);
      RepresentedConcat(was, [pending]);
    }

    method Enqueue(pending: Node)
      requires Valid() && pending !in spine && pending in live && pending.next == null && pending.id == issued
      requires pending.offset == 0 && pending.data != []
      modifies `head, `tail, `spine, `accepted, `issued, spine
      ensures Valid() && issued == old(issued) + 1 && spine == old(spine) + [pending]
      ensures Contents() == Enqueued(old(Contents()), Pending(pending.id, pending.data, 0))
    {
      ghost var was := Contents();
      issued := issued + 1;
      Append(pending);
      assert Contents() == Enqueued(was, Pending(pending.id, pending.data, 0));
    }

    method Accept(pending: Node, kernel: Kernel) returns (ok: bool)
      requires Valid() && Patient(kernel)
      requires pending !in spine && pending in live && pending.next == null && pending.id == issued
      requires pending.offset == 0 && pending.data != []
      modifies `head, `tail, `spine, `wire, `mark, `accepted, `past, `live, `freed, `issued, `calls, spine, pending
      ensures Valid() && calls >= old(calls) && issued == old(issued) + 1
      ensures Flushes(Enqueued(old(Contents()), Pending(pending.id, pending.data, 0)),
                      Answers(kernel, old(calls), calls), Contents(), ok)
    {
      Enqueue(pending);
      ok := FlushPending(kernel);
    }

    method Reject(pending: Node)
      requires Valid() && pending !in spine && pending in live && pending.id == issued
      modifies `live, `freed, `issued
      ensures Valid() && issued == old(issued) + 1
      ensures Contents() == old(Contents()).(freed := old(freed) + [pending.id])
    {
      issued := issued + 1;
      Free(pending);
    }

    /** `lxl_ghostty_terminal_write`, when allocation succeeds. */
    method TerminalWrite(data: seq<Byte>, kernel: Kernel) returns (ok: bool)
      requires Valid() && Patient(kernel)
      modifies `head, `tail, `spine, `wire, `mark, `accepted, `past, `live, `freed, `issued, `calls, spine
      ensures Valid() && calls >= old(calls)
      ensures if old(ptyFd) < 0 || data == []
              then !ok && Contents() == old(Contents()) && issued == old(issued) && calls == old(calls)
              else issued == old(issued) + 1 &&
                   Writes(old(Contents()), old(issued), data, old(stopping), Answers(kernel, old(calls), calls),
                          Contents(), ok)
    {
      if ptyFd < 0 || |data| == 0 { return false; }
      var pending := new Node(data, issued);
      live := live + {pending};
      if stopping || ptyFd < 0 {
        Reject(pending);
        return false;
      }
      ok := Accept(pending, kernel);
    }

    /** `lxl_ghostty_terminal_flush_writes`. */
    method FlushWrites(kernel: Kernel) returns (ok: bool)
      requires Valid() && Patient(kernel)
      modifies `head, `tail, `spine, `wire, `mark, `accepted, `past, `live, `freed, `calls, spine
      ensures Valid() && calls >= old(calls)
      ensures if ptyFd < 0 then !ok && Contents() == old(Contents()) && calls == old(calls)
              else Flushes(old(Contents()), Answers(kernel, old(calls), calls), Contents(), ok)
    {
      if ptyFd < 0 { return false; }
      ok := FlushPending(kernel);
    }
  }
}
