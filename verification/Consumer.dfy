/** The Lua side: draining the queue, the text rule, and the view that consumes native events. */
module Consumer {
  import opened Bytes
  import opened Events
  import EventQueue

  /** The `osc52` option; any value but "allow" and "deny" asks. */
  datatype Policy = Allow | Deny | Ask

  /**
    * `push_event` hands Lua `bytes` bytes of the text, or up to its NUL if `bytes` is 0. The copy holds
    * the text and one NUL; there is no telling what lies behind it.
    */
  function LuaText(e: Event): Option<seq<Byte>> {
    match e.text
    case None => Some([])
    case Some(s) =>
      var copy := CString(s) + [NUL];
      if e.bytes == 0 then Some(CString(s)) else if e.bytes <= |copy| then Some(copy[..e.bytes]) else None
  }

  lemma LuaTextOfCopy(e: Event)
    ensures LuaText(Dup(e)) == LuaText(e)
  {
    if e.text.Some? { CStringTwice(e.text.value); }
  }

  /** A text whose length is not given, as in notifications, is read up to its first NUL; an absent one as empty. */
  lemma UnmeasuredText(e: Event)
    requires e.bytes == 0
    ensures LuaText(e).Some? && IsCut(if e.text.Some? then e.text else Some([]), LuaText(e))
  {
    CutIsExact(if e.text.Some? then e.text else Some([]), LuaText(e));
  }

  /** One whose length is given is read to that length, if the copy and its NUL have as many bytes. */
  lemma MeasuredText(e: Event)
    requires e.text.Some? && e.bytes > 0
    ensures LuaText(e).Some? <==> e.bytes <= |CString(e.text.value)| + 1
    ensures LuaText(e).Some? ==> |LuaText(e).value| == e.bytes
    ensures LuaText(e).Some? ==> forall i :: 0 <= i < e.bytes ==>
              LuaText(e).value[i] == if i < |CString(e.text.value)| then e.text.value[i] else 0
  {
  }

  // ---------------------------------------------------------------- the view

  datatype View = View(
    title: Option<seq<Byte>>, cwd: Option<seq<Byte>>, exited: bool, allowed: bool,
    written: seq<Option<seq<Byte>>>, denied: seq<Event>, prompts: seq<Event>)

  function Opened(policy: Policy): View {
    View(None, None, false, policy == Allow, [], [], [])
  }

  function Accepted(v: View, e: Event): View {
    v.(written := v.written + [LuaText(e)], allowed := true)
  }

  /** `emit_native_event`; a prompt stays open until it is answered, if ever. */
  function Consume(v: View, policy: Policy, e: Event): View {
    match e.kind
    case Title => if e.title.Some? then v.(title := e.title) else v
    case Cwd => if e.body.Some? then v.(cwd := e.body) else v
    case Exit => v.(exited := true)
    case ClipboardRequest =>
      if policy == Deny then v.(denied := v.denied + [e])
      else if policy == Allow || v.allowed then Accepted(v, e)
      else v.(prompts := v.prompts + [e])
    case _ => v
  }

  /** The user's answer to an open prompt. */
  function Answered(v: View, i: nat, yes: bool): View
    requires i < |v.prompts|
  {
    var e, rest := v.prompts[i], v.(prompts := v.prompts[..i] + v.prompts[i + 1..]);
    if yes then Accepted(rest, e) else rest.(denied := v.denied + [e])
  }

  class TerminalView {
    const policy: Policy
    var title: Option<seq<Byte>>
    var cwd: Option<seq<Byte>>
    var exited: bool
    var osc52Allowed: bool
    var written: seq<Option<seq<Byte>>>
    var denied: seq<Event>
    var prompts: seq<Event>

    function Abstract(): View
      reads this
    {
      View(title, cwd, exited, osc52Allowed, written, denied, prompts)
    }

    constructor (policy: Policy)
      ensures this.policy == policy && Abstract() == Opened(policy)
    {
      this.policy := policy;
      title, cwd, exited, osc52Allowed := None, None, false, policy == Allow;
      written, denied, prompts := [], [], [];
    }

    method Accept(event: Event)
      modifies this
      ensures Abstract() == Accepted(old(Abstract()), event)
    {
      written := written + [LuaText(event)];
      osc52Allowed := true;
    }

    method EmitNativeEvent(event: Event)
      modifies this
      ensures Abstract() == Consume(old(Abstract()), policy, event)
    {
      if event.kind == Title && event.title.Some? {
        title := event.title;
      } else if event.kind == Cwd && event.body.Some? {
        cwd := event.body;
      } else if event.kind == Exit {
        exited := true;
      } else if event.kind == ClipboardRequest {
        if policy == Deny {
          denied := denied + [event];
          return;
        }
        if policy == Allow || osc52Allowed {
          Accept(event);
        } else {
          prompts := prompts + [event];
        }
      }
    }

    /** The prompt's `submit`: only "yes" and "y" accept. */
    method Submit(i: nat, text: string)
      requires i < |prompts|
      modifies this
      ensures Abstract() == Answered(old(Abstract()), i, text == "yes" || text == "y")
    {
      var event := prompts[i];
      prompts := prompts[..i] + prompts[i + 1..];
      if text == "yes" || text == "y" {
        Accept(event);
      } else {
        denied := denied + [event];
      }
    }
  }

  lemma MoveHead<T>(a: seq<T>, b: seq<T>)
    requires b != []
    ensures a + b == (a + [b[0]]) + b[1..]
  {
  }

  /** The drain loop of `f_poll_events`. */
  method PollEvents(queue: EventQueue.Queue) returns (batch: seq<Event>)
    requires queue.Valid()
    modifies queue, queue.items
    ensures queue.Valid() && queue.items == old(queue.items)
    ensures batch == old(queue.Contents().items)
    ensures queue.Contents() == EventQueue.State([], old(queue.exitDelivered))
  {
    batch := [];
    ghost var rest := queue.Contents().items;
    while true
      invariant queue.Valid() && queue.items == old(queue.items)
      invariant queue.Contents() == EventQueue.State(rest, old(queue.exitDelivered))
      invariant batch + rest == old(queue.Contents().items)
      decreases |rest|
    {
      var event := queue.PopEvent();
      if event.None? { break; }
      MoveHead(batch, rest);
      batch, rest := batch + [event.value], rest[1..];
    }
  }
}
