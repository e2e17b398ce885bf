# Verified model of the terminal's native runtime

One terminal of lite-xl-ghostty is a pty, a reader thread, and a Lua view that shares four native
components with it. This project models those components and their protocol in Dafny 4.11 and proves
what their callers rely on. `dafny verify dfyconfig.toml` checks all of it.

| file | content |
|---|---|
| `Bytes.dfy` | bytes, C strings, `memchr`, `isspace` in the C locale |
| `Base64.dfy`, `Base64Alphabet.dfy` | the decoder with its unmasked 32-bit accumulator, against section 4 of RFC 4648 |
| `Utf8.dfy`, `Utf8Bits.dfy` | encoder, validator and grapheme loop, against sections 3 and 4 of RFC 3629 |
| `Events.dfy`, `EventQueue.dfy` | native events, and the coalescing queue on its doubling array |
| `Coalescing.dfy` | what coalescing keeps, over all histories of pushes and pops |
| `OscGrammar.dfy` | the grammar of OSC sequences (section 8.3.89 of ECMA-48) with its own parser |
| `OscObserver.dfy`, `OscReports.dfy` | the byte-at-a-time observer, its agreement with that grammar, and what its reports carry |
| `Outbox.dfy`, `FlushVerdict.dfy`, `WriteQueue.dfy` | pending writes: the steps on values, what the answers of `write` decide, and the linked heap nodes |
| `Child.dfy` | wait status, and the escalation of `lxl_ghostty_pty_terminate` |
| `LockOrder.dfy` | the three mutexes and the join: no deadlock |
| `Protocol.dfy` | reader, writers, consumer and close as interleaved atomic steps |
| `ExitStatus.dfy`, `ReaderLife.dfy` | the exit is what `waitpid` answered; what the reader does, and that it ends |
| `Consumer.dfy`, `Pipeline.dfy` | the Lua side, and the way from pty output to the clipboard |
| `Prompts.dfy`, `History.dfy` | what answers to prompts do; what the view shows, read off the operations alone |

A component that changes state in place is a class or a method here too. Each is proved equal to a step
on values (`Push`, `Feed`, `Flushes`, `Consume`), and the laws are proved about runs of those steps. What such
a step does is also stated without it: in bytes, in the kernel's answers or in the operations of a history.
Every proof by induction is written out; automatic induction is off wherever it would apply.

How the environment enters:

- `write`, `waitpid`, `poll` and `read` are adversaries: a script of arbitrary answers. A flush needs
  only that EINTR does not go on for ever, which is exactly what makes its loop end. What the kernel took
  is recorded from the buffers that `write` was given.
- A section between taking and releasing a lock is one step, and so is every access to an atomic.
- Ghostty's callbacks appear as writes and pushes at any time by any thread; the title and directory it
  reports are arbitrary strings.
- A null pointer is `None`. A buffer is its bytes, followed by one NUL that is not written down.
- Shifts and masks are written as multiplication, division and remainder; the accumulator wraps at 2^32.

Laws that the code keeps only under a condition are stated as equivalences with that condition, next to an
input on which the law fails:

- `Utf8.EncoderIsCorrectExactlyInRange`: code points above 0x10FFFF all come out as one overlong form.
- `Pipeline.ReadIsExact`, `Pipeline.NulIsReadBeyond`: when a NUL stands before the last byte of clipboard
  data, `lua_pushlstring` is given the full length of a copy that ends at that NUL, so it reads beyond the
  copy; the model says that what is read is unknown (src/lxl_ghostty.c:648-651).
- `Coalescing.PushTeachesIffHarmless`, `Coalescing.HarmfulPushesLose`: a bell event that stands for several
  bells, or an absent title, is not kept by coalescing. The terminal pushes neither.

Three promises of specs/mvp.md hold in part, and again exactly when is proved:

- OSC 52 must not be dropped silently (specs/mvp.md:358): a sequence `52;` and payload is dropped so if and
  only if it fits and its payload names no target (`OscObserver.SilentIffNoTarget`;
  `ESC ] 52;c BEL` in `OscObserver.UntargetedIsDropped`).
- The exit is delivered exactly once (specs/mvp.md:359): never twice, and once if and only if one of the
  reader's own polls reaped the child (`Protocol.ExitOnceIffReaped`); a reader that ends otherwise leaves the
  consumer without an exit for ever (`Protocol.SilentForEver`, with a run in `Protocol.ReaderMayEndSilently`).
- A directory is reported when it is not empty (specs/mvp.md:436): an empty one is reported too, unless the
  one kept last is empty (`Pipeline.EmptyCwdIsReported`). This needs Ghostty to report an empty directory by
  a pointer that is not null, which is outside the model.

The oversize report does not depend on a debug setting as specs/mvp.md:465 has it; there is none, and the
report is always pushed (`OscObserver.OversizedIffTooLong`).

## Model

| member | source | states |
|---|---|---|
| `Base64.Decode` | src/osc_observer.c:21-60 | The streaming decoder, with one buffer sized from the input length and a wrapping accumulator, returns exactly the octets that the grouping of RFC 4648 gives, and refuses exactly what is outside the language or above the limit; it stays inside its buffer, trailing NUL included. |
| `Base64.RunIsFaithful` | src/osc_observer.c:26-55 | After any prefix, the bits the unmasked accumulator has yet to write are right although its upper bits are rubbish. |
| `Base64.GroupsInvertToSextets` | src/osc_observer.c:45-54 | The 24-bit grouping of RFC 4648 inverts the encoder's grouping for every byte string. |
| `Base64.RoundTrip` | src/osc_observer.c:21-60 | Decoding the padded standard encoding of any data, with whitespace inserted anywhere, returns the data if they are within the limit, and is refused if not. |
| `Base64.LimitCannotRefuse` | src/osc_observer.c:49-52 | Input within the limit is never refused for the size of its decoding. |
| `Base64Alphabet.ValueIsItsPlace` | src/osc_observer.c:10-19 | A byte has a sextet if and only if it stands in Table 1 of RFC 4648, and the sextet is its only place there. |
| `Base64Alphabet.SymbolIsInTable` | src/osc_observer.c:10-19 | The encoder's characters are those of Table 1. |
| `Base64Alphabet.LanguageByTable` | src/osc_observer.c:26-44 | Accepted is exactly what has letters of Table 1 first, then only `=`, and the six whitespace bytes anywhere. |
| `Base64Alphabet.SextetsByTable` | src/osc_observer.c:26-46 | The sextets of a text are the places of its letters in the table, in order. |
| `Base64Alphabet.GroupIsNumber` | src/osc_observer.c:45-54 | Four sextets and their three octets are the same 24-bit number. |
| `Base64Alphabet.TailOfTwo` | src/osc_observer.c:45-54 | Two sextets left over give one octet, the upper eight of their twelve bits. |
| `Base64Alphabet.TailOfThree` | src/osc_observer.c:45-54 | Three sextets left over give two octets, the upper sixteen of their eighteen bits. |
| `Base64Alphabet.EncodingIsPadded` | src/osc_observer.c:16-16 | The reference encoding has four characters for every three octets begun, and `=` at its end for each octet missing. |
| `Base64Alphabet.QueryIsRefused` | src/osc_observer.c:10-19 | The text `?` is refused. |
| `Utf8.UniquelyDecodable` | src/utf8.c:28-60 | A byte string is well formed by section 4 of RFC 3629 if and only if it is the concatenated encoding of scalar values, and then of one sequence only. |
| `Utf8.Validate` | src/utf8.c:28-60 | The validator returns 1 exactly on the strings that are well formed by the octet ranges of RFC 3629, although it tests recomputed code points and not ranges. |
| `Utf8.TestsMatchSyntax` | src/utf8.c:34-56 | The masks and the overlong, surrogate and range tests together accept exactly the octet ranges of the RFC. |
| `Utf8.EncoderIsCorrectExactlyInRange` | src/utf8.c:3-26 | The encoder's output is well formed if and only if the code point is at most 0x10FFFF; then it is the encoding of the code point, or of U+FFFD for a surrogate. |
| `Utf8.Encode` | src/utf8.c:3-26 | Writes those octets behind the text already in the buffer, and nothing beyond the four bytes it may use. |
| `Utf8.RenderGrapheme` | src/lxl_ghostty.c:777-781 | The loop never overruns its 256 bytes, takes code points whole, and stops early only when fewer than four bytes are left. |
| `Utf8.EncodedTextReadsBack` | src/lxl_ghostty.c:779-781 | The text of code points up to 0x10FFFF validates and decodes to those code points, with surrogates as U+FFFD. |
| `Utf8Bits.TwoOctets` | src/utf8.c:3-26 | Two octets have the markers of section 3 of RFC 3629, and their payload bits make the code point. |
| `Utf8Bits.ThreeOctets` | src/utf8.c:3-26 | So have three. |
| `Utf8Bits.FourOctets` | src/utf8.c:3-26 | So have four. |
| `Utf8Bits.EncodedByRange` | src/utf8.c:3-26 | Surrogates are written as EF BF BD, everything above 0x10FFFF as F0 8F BF BD, which is not UTF-8, and every other code point as itself. |
| `EventQueue.Queue.EnsureCap` | src/event_queue.c:63-72 | Growing keeps the contents; capacity is 0 or 16 doubled, and growth has copied fewer slots than that in all. |
| `EventQueue.Queue.CoalesceLatest` | src/event_queue.c:74-95 | Rewrites the last queued event of the same kind in place, for titles and directories only. |
| `EventQueue.Queue.PushEvent` | src/event_queue.c:97-135 | A push on the array is the push on lists: exit latched once, bells counted, strings replaced, everything else appended as a copy cut at its first NUL. |
| `EventQueue.Queue.PopEvent` | src/event_queue.c:137-151 | A pop removes the oldest event and shifts the rest down. |
| `Events.DupIsExact` | src/event_queue.c:18-27 | A copied event has the original's kind and numbers, and each of its four strings up to its first NUL; it is the only such event. |
| `Coalescing.AbsorbedFields` | src/event_queue.c:74-95 | A coalesced title or directory event keeps its place and its other fields and takes the new strings and number. |
| `Coalescing.AppendedFields` | src/event_queue.c:109-135 | Any other event is appended as a copy; a bell that does not say how many counts one. |
| `Coalescing.PushKeepsWellFormed` | src/event_queue.c:97-135 | A queue never holds two bells, two titles, two directories or two exits. |
| `Coalescing.PushTeachesIffHarmless` | src/event_queue.c:74-135 | Whatever has been popped before, a push changes what the consumer is told by exactly what the pushed event tells if and only if it is harmless: no bell for several, no absent string that hides one not told before. |
| `Coalescing.HarmfulPushesLose` | src/event_queue.c:109-116 | A bell event for two bells, and a title event without a title, lose something when they are coalesced. |
| `Coalescing.CoalescingPreservesMeaning` | src/event_queue.c:74-151 | For every interleaving of pushes and pops, popped and queued events together tell the last title, last directory, bell count, first exit and all other events in order as the uncoalesced pushes do; after a drain the popped ones tell it all; at most one exit is ever delivered. |
| `OscGrammar.ParseRenders` | src/osc_observer.c:181-222 | Every stream of bytes has a reading as noise, complete frames and an unfinished rest, and the parse is one that renders back to it. |
| `OscGrammar.ParseInvertsRendering` | src/osc_observer.c:181-222 | That reading is the only one: any well-formed frames, however terminated and separated by noise, are found again exactly as they were put. |
| `OscObserver.FeedIsParse` | src/osc_observer.c:94-222 | The machine with its three flags and bounded buffer reports, in order, what the complete frames of the parse mean. |
| `OscObserver.StreamIsReported` | src/osc_observer.c:86-222 | However the stream is cut into chunks, the queue receives copies of those reports and nothing else, none of them coalesced. |
| `OscObserver.FramesRoundTrip` | src/osc_observer.c:159-222 | Frames put into a stream come out as their meanings, and what follows is read as by a fresh observer. |
| `OscObserver.OversizedIffTooLong` | src/osc_observer.c:94-164 | Fed to the machine, a frame reports that it was dropped for its size if and only if its body is longer than the limit, and then nothing else. |
| `OscObserver.SilentIffNoTarget` | src/osc_observer.c:139-141 | Fed to the machine, an OSC 52 frame yields no event at all if and only if it is within the limit and its payload has no semicolon. |
| `OscObserver.UntargetedIsDropped` | src/osc_observer.c:139-141 | `ESC ] 52;c BEL` yields no event. |
| `OscObserver.ReportIffInLanguage` | src/osc_observer.c:139-178 | Fed to the machine, an OSC 52 frame with a target yields exactly one event: a request for the meaning of its code if and only if the body is within the limit and the code in the base64 language, the oversize or the payload report otherwise; the decoded-size limit never decides. |
| `OscObserver.ClipboardRoundTrip` | src/osc_observer.c:139-178 | Fed to the machine, an OSC 52 frame that carries the standard encoding of any data, spaced anyhow, with any target free of semicolons, asks for exactly that data. |
| `OscReports.TitledNotification` | src/osc_observer.c:124-137 | Fed to the machine, `9;` title `;` body yields one notification with title and body trimmed, the whole payload as text, and nothing else. |
| `OscReports.UntitledNotification` | src/osc_observer.c:124-137 | Without a second semicolon there is no title, and the body is the trimmed payload. |
| `OscReports.RequestCarriesData` | src/osc_observer.c:150-156 | A clipboard request names the target and carries the decoded data and their length, and nothing else. |
| `OscReports.OthersAreIgnored` | src/osc_observer.c:170-177 | A sequence that fits and has any command but `9` and `52` yields no event. |
| `OscReports.BareBodiesAreIgnored` | src/osc_observer.c:165-169 | Neither does one without a semicolon. |
| `OscReports.DropsAreExplained` | src/osc_observer.c:160-164 | An oversized sequence yields one debug event, with the message of the source. |
| `OscReports.RefusalsAreExplained` | src/osc_observer.c:145-148 | So does an OSC 52 whose code is outside the base64 language. |
| `OscReports.NotificationBytes` | src/osc_observer.c:181-222 | The bytes 1B 5D 39 3B 61 3B 62 07 notify with title `a` and body `b`. |
| `OscReports.QueryBytes` | src/osc_observer.c:181-222 | The clipboard query 1B 5D 35 32 3B 63 3B 3F 1B 5C yields a debug event. |
| `OscObserver.Observer.FeedChunk` | src/osc_observer.c:181-222 | One call of feed on the real fields, buffer and queue is the machine's run over the chunk. |
| `OscObserver.Observer.AppendByte` | src/osc_observer.c:94-113 | Appends within the limit or marks overflow; the buffer is at most max(256, limit) long, and growing has copied less than twice its length in all. |
| `OscObserver.Observer.FinishSequence` | src/osc_observer.c:159-179 | Dispatches the body on its command, pushes at most one report and resets the machine. |
| `OscObserver.DupTrim` | src/osc_observer.c:115-122 | The two loops leave the window of the input that has whitespace only on both sides and none at its ends. |
| `OscObserver.TrimIsExact` | src/osc_observer.c:115-122 | There is one such window's content for every input, and `Trim` is it. |
| `Outbox.FlushDelivers` | src/terminal.c:40-64 | A flush that succeeds keeps every accepted byte, sent or queued in order, and sends at most 65536; one that fails empties the queue after sending a prefix; no node is lost or freed twice. |
| `Outbox.WriteDelivers` | src/terminal.c:374-394 | Success of a write means its data stand behind everything accepted before, sent or still queued; failure means that the node was freed untouched or the whole queue was dropped. |
| `FlushVerdict.FailsIffRefused` | src/terminal.c:40-64 | A flush fails if and only if the last answer of `write` is a hard error or zero, and all answers before the last are EINTR or bytes taken; EAGAIN ends it with success and loses nothing; otherwise success means an empty queue or 65536 bytes sent. |
| `FlushVerdict.WouldBlockChangesNothing` | src/terminal.c:59-59 | EAGAIN at once leaves everything as it was. |
| `FlushVerdict.WriteFailsIffRefused` | src/terminal.c:374-394 | A write fails if and only if the terminal is stopping or its flush is refused; on EAGAIN its data stay queued. |
| `FlushVerdict.SentIsTaken` | src/terminal.c:45-57 | The bytes counted as sent are as many as the answers say were taken. |
| `Outbox.AcceptingKernelDrains` | src/terminal.c:40-64 | Against a kernel that takes at least one byte each time, a flush sends exactly min(65536, pending). |
| `Outbox.DrainsInRounds` | src/terminal.c:40-64 | Then a queue of t bytes is empty after t/65536 flushes, rounded up, and not before. |
| `WriteQueue.WriteQueue.ClearPending` | src/terminal.c:28-37 | Walks the linked list, frees every live node once, reads no link of a freed node, and leaves head and tail null. |
| `WriteQueue.WriteQueue.OfferHead` | src/terminal.c:42-56 | `write` is given the head's unsent bytes, neither none nor more than the budget; the bytes of that buffer that the kernel took are what the stream counts as sent, and the offset moves by their number. |
| `WriteQueue.WriteQueue.FlushPending` | src/terminal.c:40-64 | The loop on the heap nodes is the flush on values against the kernel's answers, with the sent bytes read off the buffers passed to `write`; it keeps the list acyclic with `tail` last and all nodes live, and ends. |
| `WriteQueue.WriteQueue.TerminalWrite` | src/terminal.c:374-394 | Allocates, links behind the tail and flushes, or rejects without a call of `write` when closed or stopping, as the step on values says. |
| `WriteQueue.WriteQueue.FlushWrites` | src/terminal.c:396-402 | Retries queued writes without waiting; false on a closed pty leaves everything alone. |
| `Child.Terminate` | src/pty_unix.c:82-94 | The bounded loop of signals and waits performs exactly the specified calls. |
| `Child.EscalationIsLastResort` | src/pty_unix.c:82-94 | SIGTERM is sent if and only if the process could be signalled and all 20 polls found it running; nothing is signalled after it has been reaped. |
| `Child.TerminationInOrder` | src/pty_unix.c:82-94 | Signal 1 comes first, then the waits with their own answers until one does not find the process running, at most 20, then signal 15 if all 20 did, and nothing else. |
| `LockOrder.ProgramsAreDisciplined` | src/terminal.c:66-474 | Every sequence of operations, with whatever callbacks inside, takes `mu` only holding nothing and treats the other two locks as leaves. |
| `LockOrder.DeadlockFree` | src/terminal.c:227-402 | In every state of every run of any number of threads, an unfinished thread implies an enabled step, no thread waits for a lock it holds, and no lock has two holders. |
| `LockOrder.LeavesAreTaken` | src/terminal.c:374-402 | Writers and flushers take `write_mu` and give it back, pushes and pops the queue's mutex; close joins. |
| `LockOrder.LockedHoldsMu` | src/terminal.c:255-259 | A terminal operation holds `mu` from first to last, and each callback takes its own lock inside it. |
| `Protocol.EveryStateIsSound` | src/terminal.c:193-402 | The combined invariant of control, stream, allocations, child and exit holds in every state of every interleaving against every kernel. |
| `Protocol.StreamIsConserved` | src/terminal.c:374-402 | In each epoch between clears, the bytes the kernel took followed by the unsent suffixes of all queued nodes are the data of the accepted writes in lock order; only the head may be partly sent, and no node is exhausted. |
| `Protocol.ClosedEpochIsWritten` | src/terminal.c:28-64 | A step that clears the queue closes an epoch whose accepted bytes are those writes and whose sent bytes are a prefix of them. |
| `Protocol.ClearIsFinal` | src/terminal.c:271-274 | Once the reader has done its final clear, the queue is empty in every later state. |
| `Protocol.EveryNodeFreedOnce` | src/terminal.c:28-55 | No allocation is ever freed twice, and when close has returned and no write is under way every allocation has been freed. |
| `Protocol.NoWriteAfterClose` | src/terminal.c:330-337 | After close has closed the pty, no flush calls `write`, and writers change nothing. |
| `Protocol.ExitProtocol` | src/terminal.c:485-490 | An exit event that has been popped is the only one ever, and from then on `lxl_ghostty_terminal_exited` reports its code and signal for ever. |
| `Protocol.ExitOnceIffReaped` | src/terminal.c:193-221 | In every state there is at most one exit event, popped or queued, and one exactly when the child is known to be dead and the reader has pushed it; when the reader has ended, before close waits itself, that is if and only if a `waitpid` of the reader reaped the child. |
| `Protocol.SilentForEver` | src/terminal.c:227-274 | If the reader ends with the child not seen dead, no exit is ever queued or reported. |
| `Protocol.ReaderMayEndSilently` | src/terminal.c:232-236 | A failing `poll` gives a run that ends so. |
| `ExitStatus.ExitIsWhatWaitpidAnswered` | src/terminal.c:193-221 | In every state in which the child is known to be dead, `waitpid` has answered exactly one status; the reported pair and that of every exit event are (value, 0) for an exit and (0, number) for a signal. |
| `ExitStatus.NoExitWhileAlive` | src/terminal.c:485-490 | Before that there is neither a report nor an exit event. |
| `ReaderLife.ReaderEndsAfterStop` | src/terminal.c:227-274 | Once `stopping` is set, the reader takes at most 29 more steps of its own in any run, whatever the kernel answers. |
| `ReaderLife.ReaderIsNeverStuck` | src/terminal.c:227-274 | In every state of every run, a reader that has started and not ended has an enabled step, so the join in close returns. |
| `ReaderLife.WritableQueueIsFlushed` | src/terminal.c:228-247 | With bytes queued the reader asks for output, and flushes when the pty can take some. |
| `ReaderLife.EmptyQueueIsNotPolled` | src/terminal.c:228-231 | Without queued bytes it does not ask for output. |
| `ReaderLife.RefusedFlushStops` | src/terminal.c:243-246 | After a refused flush it stops the terminal, clears and ends. |
| `ReaderLife.InputIsRead` | src/terminal.c:249-265 | Input is read until there is none, or 16 times. |
| `ReaderLife.EndOfOutputIsReaped` | src/terminal.c:266-268 | At the end of the output the child is waited for until 101 waits have found it running, interrupted ones not counted, before the reader leaves. |
| `ReaderLife.TimeoutIsReaped` | src/terminal.c:237-240 | After a timeout it is waited for once, and the reader goes on if it runs. |
| `ReaderLife.CloseHangsUp` | src/terminal.c:330-337 | Close sends signal 1 if and only if the child is not known to be dead and can be signalled. |
| `Protocol.NeverSignalsTheReaped` | src/terminal.c:200-221 | No run signals the child after a successful `waitpid` on it, through reader, close and escalation. |
| `Protocol.ReadsAreBounded` | src/terminal.c:249-269 | At most 16 successful reads happen between two polls. |
| `Consumer.PollEvents` | src/lxl_ghostty.c:664-677 | The drain loop takes every queued event, in order, and leaves the queue empty. |
| `Consumer.TerminalView.EmitNativeEvent` | plugins/ghostty/init.lua:378-417 | Assigns title, directory, exit and clipboard state as the policy machine on values does. |
| `Consumer.TerminalView.Submit` | plugins/ghostty/init.lua:405-413 | Only "yes" and "y" write to the clipboard and allow later writes. |
| `Consumer.UnmeasuredText` | src/lxl_ghostty.c:648-651 | A text without a length is read up to its first NUL, an absent one as empty. |
| `Consumer.MeasuredText` | src/lxl_ghostty.c:648-651 | A text with a length is read byte by byte to that length, as far as its copy goes. |
| `Prompts.YesWrites` | plugins/ghostty/init.lua:405-408 | A yes writes exactly what the prompt asked about, denies nothing and closes the prompt. |
| `Prompts.NoDenies` | plugins/ghostty/init.lua:409-411 | Any other answer denies exactly that, writes nothing and closes the prompt. |
| `Prompts.RequestUnderAsk` | plugins/ghostty/init.lua:397-415 | In every history under "ask", a request is written at once and without a prompt if an open prompt was ever answered with yes, and otherwise opens a prompt and is not written. |
| `Pipeline.ReadIsExact` | src/lxl_ghostty.c:648-651 | Clipboard data reach Lua unchanged if and only if no NUL stands before their last byte. |
| `Pipeline.NulIsReadBeyond` | src/lxl_ghostty.c:648-651 | For the data NUL, `A` the length passed on exceeds the copy. |
| `Pipeline.AllowDeliversEverything` | plugins/ghostty/init.lua:391-404 | Under "allow", for every interleaving of reading, draining and emitting, the clipboard writes so far followed by those on their way are what Lua reads of the decoded data of the output's OSC 52 frames, in order; once drained, none is lost, merged or duplicated. |
| `Pipeline.AllowDeliversUnchanged` | plugins/ghostty/init.lua:391-404 | Once drained under "allow", there is one write for each of the decoded data, and each write is its datum unchanged if and only if no datum has a NUL before its last byte. |
| `Pipeline.DenyRefusesEverything` | plugins/ghostty/init.lua:391-398 | Under "deny" nothing is ever written or asked; the denied requests followed by those on their way are the stream's, in order. |
| `Pipeline.AskLosesNothing` | plugins/ghostty/init.lua:391-415 | Under "ask" nothing is written before a prompt is accepted; and every text has been written, denied, is still asked about or is on its way exactly as often as the stream's OSC 52 frames request it. |
| `Pipeline.LatestStringsAreShown` | src/terminal.c:133-161 | Once drained and emitted, the view shows the title and directory that the terminal kept last. |
| `History.LastReadIsShown` | src/terminal.c:133-161 | In every history, once drained and emitted, the view shows the last title and the last directory that were read, up to a NUL, and none if none was. |
| `History.TitleIsPushedIffNew` | src/terminal.c:139-146 | A title is pushed if and only if it differs from the one read before. |
| `History.CwdIsPushedIffNew` | src/terminal.c:139-146 | So is a directory. |
| `History.BellsAndReportsAreTold` | src/event_queue.c:97-151 | In every history, the popped and queued events count as many bells as rang, tell the first exit, and carry copies of what the output's frames mean, in order. |
| `History.ExitIsShown` | plugins/ghostty/init.lua:386-387 | Once drained and emitted, the view shows an exit if and only if the child has exited. |
| `Pipeline.EmptyCwdIsReported` | src/terminal.c:133-148 | An empty directory is pushed if and only if none was kept before or the one kept last is not empty; otherwise nothing changes. |

## Left out

- Ghostty's terminal, renderer, key, mouse and paste encoders: foreign code, represented by arbitrary callbacks and strings.
- `forkpty`, `execvp`, `ioctl` and timing: operating system plumbing without a law of its own.
- Allocation failure: every allocation succeeds. On failure the source may drop a coalesced update or latch an exit that it did not queue.
- Size arithmetic near the largest `size_t`, the width of the bell counter, and locales other than C.
- Null arguments of the public functions, which return at once.
- Memory after close: the model stops when the terminal has been freed, and callers must stop too.
- Reader-thread callbacks are not tied to the reader's position: the model lets them happen at any time, which allows more interleavings than the source.
- Output read after the child has gone: the poll-timeout path leaves without a last read, so nothing is claimed about output preceding the exit there.
- A change of the `osc52` option while the terminal runs, and handlers subscribed to `events.emit`.
- Selection, click-to-open, keymaps, drawing and tab management: Lua over interfaces that this repository does not define.
