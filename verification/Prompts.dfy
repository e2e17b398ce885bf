/**
  * What an answer to a clipboard prompt does under "ask", and what it does to later requests.
  */
module Prompts {
  import opened Bytes
  import opened Events
  import opened Consumer
  import opened Pipeline

  /** A yes writes what the prompt asked about, denies nothing and closes the prompt. */
  lemma YesWrites(p: Pipe, i: nat, policy: Policy, maxBytes: nat)
    requires i < |p.view.prompts|
    ensures var p' := Do(p, Reply(i, true), policy, maxBytes);
            && p'.view.written == p.view.written + [LuaText(p.view.prompts[i])]
            && p'.view.denied == p.view.denied
            && p'.view.prompts == p.view.prompts[..i] + p.view.prompts[i + 1..]
  {
  }

  /** Any other answer denies it, writes nothing and closes the prompt. */
  lemma NoDenies(p: Pipe, i: nat, policy: Policy, maxBytes: nat)
    requires i < |p.view.prompts|
    ensures var p' := Do(p, Reply(i, false), policy, maxBytes);
            && p'.view.written == p.view.written
            && p'.view.denied == p.view.denied + [p.view.prompts[i]]
            && p'.view.prompts == p.view.prompts[..i] + p.view.prompts[i + 1..]
  {
  }

  /** At `k`, a yes answered a prompt that was open. */
  ghost predicate Granted(ops: seq<Op>, maxBytes: nat, k: nat)
    requires k < |ops|
  {
    ops[k].Reply? && ops[k].yes && ops[k].prompt < |DoAll(ops[..k], Ask, maxBytes).view.prompts|
  }

  ghost predicate GrantedEver(ops: seq<Op>, maxBytes: nat) {
    exists k :: 0 <= k < |ops| && Granted(ops, maxBytes, k)
  }

  lemma {:induction false} GrantedSnoc(ops: seq<Op>, op: Op, maxBytes: nat)
    ensures GrantedEver(ops + [op], maxBytes) <==>
              GrantedEver(ops, maxBytes)
              || (op.Reply? && op.yes && op.prompt < |DoAll(ops, Ask, maxBytes).view.prompts|)
  {
    var all := ops + [op];
    forall k | 0 <= k < |ops| ensures Granted(all, maxBytes, k) <==> Granted(ops, maxBytes, k) {
      assert all[..k] == ops[..k] && all[k] == ops[k];
    }
    assert all[..|ops|] == ops && all[|ops|] == op;
    if GrantedEver(ops, maxBytes) {
      var k :| 0 <= k < |ops| && Granted(ops, maxBytes, k);
      assert Granted(all, maxBytes, k);
    }
    if op.Reply? && op.yes && op.prompt < |DoAll(ops, Ask, maxBytes).view.prompts| {
      assert Granted(all, maxBytes, |ops|);
    }
  }

  lemma StepGrants(p: Pipe, op: Op, maxBytes: nat)
    ensures Do(p, op, Ask, maxBytes).view.allowed <==>
              p.view.allowed || (op.Reply? && op.yes && op.prompt < |p.view.prompts|)
  {
    if !op.Emit? && !op.Reply? {
      OthersLeaveView(p, op, Ask, maxBytes);
    }
  }

  lemma {:induction false} AllowedIffGranted(ops: seq<Op>, maxBytes: nat)
    ensures DoAll(ops, Ask, maxBytes).view.allowed <==> GrantedEver(ops, maxBytes)
  {
    if ops == [] {
    } else {
      var init, op := ops[..|ops| - 1], ops[|ops| - 1];
      assert ops == init + [op];
      AllowedIffGranted(init, maxBytes);
      GrantedSnoc(init, op, maxBytes);
      StepGrants(DoAll(init, Ask, maxBytes), op, maxBytes);
    }
  }

  /**
    * Under "ask", a request is written at once if an open prompt was ever answered with yes before, and then no
    * prompt opens; otherwise it opens a prompt and is not written. It is not denied either way.
    */
  lemma {:induction false} RequestUnderAsk(ops: seq<Op>, maxBytes: nat)
    ensures var p := DoAll(ops, Ask, maxBytes);
            var p' := Do(p, Emit, Ask, maxBytes);
            p.consumed < |p.events.popped| && p.events.popped[p.consumed].kind == ClipboardRequest ==>
              var e := p.events.popped[p.consumed];
              && p'.consumed == p.consumed + 1 && p'.view.denied == p.view.denied
              && (if GrantedEver(ops, maxBytes)
                  then p'.view.written == p.view.written + [LuaText(e)] && p'.view.prompts == p.view.prompts
                  else p'.view.written == p.view.written && p'.view.prompts == p.view.prompts + [e])
  {
    AllowedIffGranted(ops, maxBytes);
  }
}
