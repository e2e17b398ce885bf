/** Native events, and what a consumer learns from a list of them. */
module Events {
  import opened Bytes

  datatype Kind =
    | NoKind | Bell | Title | Cwd | Notification | ClipboardRequest | ClipboardDenied
    | ClipboardAccepted | Exit | Debug

  /** `None` stands for a null pointer, `Some(s)` for a buffer of `s` and one NUL after it. */
  datatype Event = Event(
    kind: Kind, title: Option<seq<Byte>>, body: Option<seq<Byte>>, text: Option<seq<Byte>>,
    clipboard: Option<seq<Byte>>, code: int, signal: int, bytes: nat)

  const BLANK: Event := Event(NoKind, None, None, None, None, 0, 0, 0)

  /** `lxl_ghostty_strdup`: null stays null, a buffer is cut at its first NUL. */
  function Cut(s: Option<seq<Byte>>): Option<seq<Byte>> {
    match s case None => None case Some(b) => Some(CString(b))
  }

  /** `event_dup`: the strings are cut, the numbers copied. */
  function Dup(e: Event): Event {
    e.(title := Cut(e.title), body := Cut(e.body), text := Cut(e.text), clipboard := Cut(e.clipboard))
  }

  lemma DupTwice(e: Event)
    ensures Dup(Dup(e)) == Dup(e)
  {
    if e.title.Some? { CStringTwice(e.title.value); }
    if e.body.Some? { CStringTwice(e.body.value); }
    if e.text.Some? { CStringTwice(e.text.value); }
    if e.clipboard.Some? { CStringTwice(e.clipboard.value); }
  }

  /** `r` is null if `s` is, and else a copy of `s` up to its first NUL, or whole if it has none. */
  predicate IsCut(s: Option<seq<Byte>>, r: Option<seq<Byte>>) {
    match s
    case None => r == None
    case Some(b) =>
      r.Some? && r.value <= b && NUL !in r.value && (|r.value| < |b| ==> b[|r.value|] == NUL)
  }

  lemma CutIsExact(s: Option<seq<Byte>>, r: Option<seq<Byte>>)
    ensures IsCut(s, r) <==> r == Cut(s)
  {
    if s.Some? && IsCut(s, r) {
      var b, c := s.value, CString(s.value);
      assert forall i :: 0 <= i < |r.value| ==> b[i] == r.value[i] && r.value[i] in r.value;
      assert forall i :: 0 <= i < |c| ==> b[i] == c[i] && c[i] in c;
      assert |c| == |r.value|;
      assert c == b[..|c|] == r.value;
    }
  }

  /** A copied event has the kind and the numbers of the original, and each of its strings cut; no other event has. */
  lemma DupIsExact(e: Event, d: Event)
    ensures d == Dup(e) <==>
              && d.kind == e.kind && d.code == e.code && d.signal == e.signal && d.bytes == e.bytes
              && IsCut(e.title, d.title) && IsCut(e.body, d.body)
              && IsCut(e.text, d.text) && IsCut(e.clipboard, d.clipboard)
  {
    CutIsExact(e.title, d.title);
    CutIsExact(e.body, d.body);
    CutIsExact(e.text, d.text);
    CutIsExact(e.clipboard, d.clipboard);
  }

  function DupAll(es: seq<Event>): (r: seq<Event>)
    ensures |r| == |es|
  {
    if es == [] then [] else DupAll(es[..|es| - 1]) + [Dup(es[|es| - 1])]
  }

  /** The kinds that a later event of the same kind may replace or absorb. */
  predicate Coalesces(k: Kind) { k == Bell || k == Title || k == Cwd }

  // ---------------------------------------------------------------- knowledge

  /**
    * What a consumer ends up knowing: the latest title and directory, how many bells rang, the first
    * exit, and every other event in order.
    */
  datatype Knowledge = Knowledge(
    title: Option<seq<Byte>>, cwd: Option<seq<Byte>>, bells: nat, exit: Option<(int, int)>, others: seq<Event>)

  const NOTHING: Knowledge := Knowledge(None, None, 0, None, [])

  /** A bell event stands for `bytes` bells; one that was never coalesced may still say 0. */
  function Rings(e: Event): nat { if e.bytes == 0 then 1 else e.bytes }

  function Learn(k: Knowledge, e: Event): Knowledge {
    match e.kind
    case NoKind => k
    case Bell => k.(bells := k.bells + Rings(e))
    case Title => if e.title.Some? then k.(title := Cut(e.title)) else k
    case Cwd => if e.body.Some? then k.(cwd := Cut(e.body)) else k
    case Exit => if k.exit.None? then k.(exit := Some((e.code, e.signal))) else k
    case _ => k.(others := k.others + [Dup(e)])
  }

  function Know(es: seq<Event>): Knowledge {
    if es == [] then NOTHING else Learn(Know(es[..|es| - 1]), es[|es| - 1])
  }

  lemma {:induction false} KnowSnoc(es: seq<Event>, e: Event)
    ensures Know(es + [e]) == Learn(Know(es), e)
  {
    assert (es + [e])[..|es|] == es;
  }
}
