/**
  * The coalescing event queue between the reader thread and Lua.
  *
  * Every operation runs under the queue's mutex, so one call is one step. `Push` and `Pop` give the
  * steps on values; the class performs them in place on a doubling array.
  */
module EventQueue {
  import opened Bytes
  import opened Events

  datatype State = State(items: seq<Event>, exitDelivered: bool)

  const EMPTY: State := State([], false)

  /** The last position of an event of kind `k`, or -1. */
  function LastOf(items: seq<Event>, k: Kind): (i: int)
    ensures -1 <= i < |items|
    ensures i >= 0 ==> items[i].kind == k
    ensures forall j :: i < j < |items| ==> items[j].kind != k
  {
    if items == [] then -1
    else if items[|items| - 1].kind == k then |items| - 1
    else LastOf(items[..|items| - 1], k)
  }

  /** The copy that a fresh slot receives. */
  function Stored(e: Event): Event {
    var d := Dup(e);
    if d.kind == Bell && d.bytes == 0 then d.(bytes := 1) else d
  }

  /** A queued title or directory event, overwritten with a later one. */
  function Renewed(queued: Event, e: Event): Event {
    queued.(title := Cut(e.title), body := Cut(e.body), bytes := e.bytes)
  }

  function Push(q: State, e: Event): State {
    if e.kind == NoKind || (e.kind == Exit && q.exitDelivered) then q
    else
      var i := LastOf(q.items, e.kind);
      var items :=
        if e.kind == Bell && i >= 0 then q.items[i := q.items[i].(bytes := q.items[i].bytes + 1)]
        else if (e.kind == Title || e.kind == Cwd) && i >= 0 then
          q.items[i := Renewed(q.items[i], e)]
        else q.items + [Stored(e)];
      State(items, q.exitDelivered || e.kind == Exit)
  }

  function PushAll(q: State, es: seq<Event>): State {
    if es == [] then q else Push(PushAll(q, es[..|es| - 1]), es[|es| - 1])
  }

  lemma {:induction false} PushAllConcat(q: State, a: seq<Event>, b: seq<Event>)
    ensures PushAll(q, a + b) == PushAll(PushAll(q, a), b)
  {
    if b == [] {
      assert a + b == a;
    } else {
      assert (a + b)[..|a + b| - 1] == a + b[..|b| - 1];
      PushAllConcat(q, a, b[..|b| - 1]);
    }
  }

  // ---------------------------------------------------------------- the array

  /** 16, doubled some number of times. */
  predicate IsDoubled(n: nat) {
    n == 16 || (n > 16 && n % 2 == 0 && IsDoubled(n / 2))
  }

  class Queue {
    var items: array<Event>
    var len: nat
    var exitDelivered: bool
    ghost var copied: nat  // slots that growing the array has copied so far

    /** Capacity is 0 or 16 doubled some number of times, and growth has copied fewer slots than that. */
    ghost predicate Valid()
      reads this, items
    {
      && len <= items.Length
      && (items.Length == 0 || IsDoubled(items.Length))
      && (copied == 0 || copied + 16 <= items.Length)
    }

    ghost function Contents(): State
      reads this, items
      requires Valid()
    {
      State(items[..len], exitDelivered)
    }

    constructor ()
      ensures Valid() && fresh(items) && Contents() == EMPTY
    {
      items := new Event[0];
      len, exitDelivered, copied := 0, false, 0;
    }

    method EnsureCap(cap: nat)
      requires Valid()
      modifies this
      ensures Valid() && cap <= items.Length && (items == old(items) || fresh(items))
      ensures Contents() == old(Contents()) && len == old(len)
    {
      if items.Length >= cap { return; }
      var next := if items.Length != 0 then items.Length * 2 else 16;
      while next < cap
        invariant IsDoubled(next) && next >= 2 * items.Length
        decreases cap - next
      {
        next := next * 2;
      }
      var grown := new Event[next](i requires 0 <= i < next reads this, items =>
        if i < items.Length then items[i] else BLANK);
      assert grown[..len] == items[..len];
      copied := copied + items.Length;
      items := grown;
    }

    method Append(e: Event)
      requires Valid()
      modifies this, items
      ensures Valid() && (items == old(items) || fresh(items))
      ensures Contents() == State(old(items[..len]) + [Stored(e)], old(exitDelivered))
    {
      EnsureCap(len + 1);
      items[len] := Stored(e);
      len := len + 1;
    }

    /** The backward scan that looks for an event to coalesce with. */
    method FindLast(k: Kind) returns (i: int)
      requires Valid()
      ensures i == LastOf(items[..len], k)
    {
      i := len - 1;
      while i >= 0 && items[i].kind != k
        invariant -1 <= i < len
        invariant LastOf(items[..len], k) == LastOf(items[..i + 1], k)
      {
        assert items[..i + 1][..i] == items[..i];
        i := i - 1;
      }
    }

    method CoalesceLatest(e: Event) returns (done: bool)
      requires Valid()
      modifies items
      ensures var i := LastOf(old(items[..len]), e.kind);
              && done == ((e.kind == Title || e.kind == Cwd) && i >= 0)
              && items[..len] == if done then old(items[..len])[i := Renewed(old(items[..len])[i], e)]
                                 else old(items[..len])
    {
      if e.kind != Title && e.kind != Cwd { return false; }
      var i := FindLast(e.kind);
      if i < 0 { return false; }
      items[i] := Renewed(items[i], e);
      return true;
    }

    method PushEvent(e: Event) returns (accepted: bool)
      requires Valid()
      modifies this, items
      ensures Valid() && (items == old(items) || fresh(items))
      ensures Contents() == Push(old(Contents()), e)
      ensures accepted == (e.kind != NoKind)
    {
      if e.kind == NoKind { return false; }
      if e.kind == Exit {
        if exitDelivered { return true; }
        exitDelivered := true;
      }
      if e.kind == Bell {
        var i := FindLast(Bell);
        if i >= 0 {
          items[i] := items[i].(bytes := items[i].bytes + 1);
          return true;
        }
      }
      var done := CoalesceLatest(e);
      if done { return true; }
      Append(e);
      return true;
    }

    /** The `memmove` of every later slot down by one. */
    method ShiftDown()
      requires Valid() && len > 0
      modifies items
      ensures items[..len - 1] == old(items[1..len])
    {
      forall j | 0 <= j < len - 1 {
        items[j] := items[j + 1];
      }
    }

    method PopEvent() returns (out: Option<Event>)
      requires Valid()
      modifies this, items
      ensures Valid() && items == old(items)
      ensures var q := old(Contents());
              && out == (if q.items == [] then None else Some(q.items[0]))
              && Contents() == if q.items == [] then q else q.(items := q.items[1..])
    {
      if len == 0 { return None; }
      out := Some(items[0]);
      ShiftDown();
      len := len - 1;
      items[len] := BLANK;
    }
  }
}
