# kickpass, modelled and verified in Dafny

kickpass keeps passwords in encrypted files and, optionally, in an agent process that talks to its
clients over a framed byte stream. This project models four connected parts and proves what they
promise, over all inputs and all runs.

* **Transport** (`Wire`, `SendQueue`, `Frames`, `Transport`, `ImsgBuffer`, `Imsg`). The classes follow
  `compat/bsd/imsg.c` and `compat/bsd/imsg-buffer.c`: growable write buffers, a FIFO queue drained by
  partial writes, a fixed read buffer compacted in place. Their contracts are written with the step
  relations `Queued`, `Wrote`, `Received` and `Took`; `Transport` proves, over every run of those steps,
  in-order delivery of messages and descriptors for any choice of transfer sizes.
* **Agent** (`Store`, `Protocol`, `Agent`, `Timers`, `Session`, `Connection`). The store is a sequence of
  nodes in search order, each keyed through the payload it points to; dispatching is proved equal to one
  run of a handler function over the parsed stream. `Timers` adds time and expiry, and says exactly how
  long an entry lives. `Session` is the pairing of requests and replies, with sends that fail and answers
  that are given up on. `Connection` puts both directions of the transport, the dispatching agent and a
  client together, and proves every run of them, byte by byte, to be a run of `Session`, and that no choice
  of transfer sizes keeps a question from its answer.
* **Safe layer** (`Inbox`, `Replay`, `Cache`, `Parting`, `Mishaps`, `Late`, `Safe`, `Directories`). `Inbox` is
  the agent as its clients reach it: for each connection the replies that its client has not read yet,
  of which it always reads the oldest, and the requests that a failed send has left queued, which go out
  before the next one; `Replay` ties that to `Session`. On top of it come the operations of `lib/safe.c` on
  the agent's copy and on the encrypted file, for any number of clients and open handles, the agreement
  of the two copies over runs, the exact conditions under which single operations keep it, and runs in
  which it breaks.
* **Files and configuration** (`SafeFile`, `Config`). The file format of `lib/storage.c`, and the
  configuration text and the search for the nearest one in `lib/config.c`.

Findings about the code are stated as lemmas, each with the exact condition under which the expected
property holds:

* `kp_storage_save` compares the signed result of writing the ciphertext with an unsigned size
  (`lib/storage.c:263`), so a write that fails outright is reported as success and leaves a file that
  cannot be opened (`SafeFile.LostSaveDoesNotOpen`).
* Timers are never cancelled. An entry that is left alone lives to its own deadline if and only if no
  older timer for its name has an earlier one (`Timers.LivesItsTime`); before the earliest of them it
  cannot go, and after it, it is gone (`Timers.LivesUntil`, `Timers.GoneAfter`).
* A timer that fires for an absent name sends an error nobody asked for (`lib/kpagent.c:364-366`). From
  then on the client reads each reply one too early: what it receives is the answers to its requests
  with one error inserted at the point of each miss (`Session.Shifted`). A question that is given up on,
  because its send or its receive failed, shifts the replies too. A reply is the question's own if and
  only if neither has happened before (`Session.Pairing`, `Connection.PairedOverTheWire`).
* So after such a miss the safe layer goes wrong while every call succeeds (`Mishaps`): a save takes a
  cached safe for uncached and leaves the agent with the old contents; the next open of another safe is
  served the first one's contents, because the name in the answer is not looked at; and the next save of
  another safe stores its contents under the first one's name.
* A send that fails leaves its frame queued, to go out before the next one (`lib/kpagent.c:146-151`), while
  open, save, rename and store go on and succeed. So a store can arrive after another client has saved
  the safe, and put the old contents back, and a late answer can be taken for another safe's (`Late`).
  Requests that arrive late are harmless if and only if what the last of them leaves stored is what the
  files hold (`Parting.LateRequestsAgree`).
* `Parting` says exactly when an open, a save, a store and a rename leave the copies in agreement, whatever
  is unread or queued and whatever timers fire meanwhile; without a miss and a failure they always do,
  from clean handles and to unused names (`Cache.AgreementOverRuns`, `Cache.SaveChanges`).
* An entry that expires between the search and the store of a save is put back without a timer
  (`Parting.SaveRevives`). Time can still remove it if and only if another timer for it is pending
  (`Parting.ExpiresIff`, `Parting.RevivedForEver`).
* Renaming an uncached safe to the name of a cached one leaves the copies different
  (`Parting.RenameAgrees`, `Mishaps.RenameParts`).
* `imsg_composev` cuts every piece of 65536 bytes or more to its length modulo 65536
  (`Imsg.ComposevFaithful`, `Imsg.ComposevCutsLongPiece`). Nothing in the repository calls it.

Two more conditions come from design: `kp_cfg_find` loops for ever exactly when no directory above,
nor the root, has a configuration (`Config.EndsExactlyWhenDecided`), and the configuration text reads
back exactly for limits below 2 to the 63 (`Config.ConfigRoundTrip`).

Nondeterminism (transfer sizes, failing calls, due timers, random salts) is an arbitrary choice inside
the methods that stand for the operating system, so every result holds for every such choice. Those
methods count their failures in ghost fields (`Pipe.unsent`, `Pipe.unread`, `File.faults` and `refused`,
`Tree.faults`, `Ctx.linkFaults` and `fileFaults`), and contracts say that an operation gives up exactly
when one of them grew. Byte
order of the imsg header and of `struct kp_unsafe` is the host's, taken as little-endian on both ends;
sizes are those of a 64-bit Linux host (`PATH_MAX` 4096, `IOV_MAX` 1024, 8-byte `time_t`). The AEAD is
a parameter that satisfies `SafeFile.Crypto.Laws`, which are the interface of sections 2.1 and 2.2 of
RFC 5116; scrypt is an uninterpreted function that may fail.

## Model

| member | source | states |
|---|---|---|
| Frames.NextOfFrame | compat/bsd/imsg.c:148-186 | a well-formed frame in front of any bytes is read back exactly, and those bytes are what is left |
| Frames.NextIsFrame | compat/bsd/imsg.c:148-186 | whatever is extracted was there byte for byte: the framer loses and invents nothing |
| Frames.NextExtends | compat/bsd/imsg.c:148-166 | a message or a bad length, once decided, does not change when more bytes arrive |
| Frames.ParseIsFrames | compat/bsd/imsg.c:148-186 | a buffer is the frames extracted from it followed by the rest |
| Frames.ParseSplit | compat/bsd/imsg.c:148-186 | parsing in two reads gives the same messages and rest as parsing at once |
| Frames.ParseOfFrames | compat/bsd/imsg.c:148-205 | parsing inverts framing on every list of well-formed messages, whatever follows |
| Frames.WellFramedLeavesRoom | compat/bsd/imsg.c:86-112 | on a well-framed stream the unparsed rest is an incomplete frame shorter than MAX_IMSGSIZE, so every next read has room |
| Frames.HeaderDecodes | compat/bsd/imsg.c:158-158 | the 16-byte header is read back as written |
| Frames.FdBit | compat/bsd/imsg.c:171-174 | a message comes with a descriptor exactly when the lowest flag bit is set |
| Frames.HeaderPlaces | compat/bsd/imsg.h:65-71 | where each field of the 16-byte header lies, numbers being little-endian |
| SendQueue.FlatDrain | compat/bsd/imsg-buffer.c:194-210 | draining n bytes removes exactly the first n pending bytes |
| SendQueue.DrainCells | compat/bsd/imsg-buffer.c:194-210 | draining bytes without descriptors leaves the remaining bytes and descriptors, and closes nothing |
| SendQueue.OfferedIsPlain | compat/bsd/imsg-buffer.c:235-258 | once the offered descriptor is passed, nothing else in the offered data carries one |
| SendQueue.OfferedFdIsFirst | compat/bsd/imsg-buffer.c:235-258 | the descriptor offered is the first one waiting in the queue, also past the IOV_MAX cut-off |
| SendQueue.WriteDrains | compat/bsd/imsg-buffer.c:274-285 | after a write of n bytes no queued buffer is empty, and no descriptor was closed unsent |
| SendQueue.ScanFd | compat/bsd/imsg-buffer.c:237-258 | where the scan stops determines the descriptor passed, and only that one is cleared |
| Transport.WriteConservesBytes | compat/bsd/imsg-buffer.c:221-286 | bytes sent followed by bytes pending are unchanged by a write of any size |
| Transport.WriteConservesFds | compat/bsd/imsg-buffer.c:221-286 | so is the sequence of descriptors sent and pending |
| Transport.WriteMovesFdsForward | compat/bsd/imsg-buffer.c:235-281 | a write only ever moves a descriptor towards the front of the stream |
| Transport.StepKeeps | compat/bsd/imsg.c:71-205 | composing, writing, reading and extracting each keep: bytes and descriptors in flight are those of the undelivered messages, and each descriptor arrives no later than its message |
| Transport.ReceiverWaits | compat/bsd/imsg.c:86-166 | between extractions the receiver holds less than one largest frame and never a bad length |
| Transport.Delivery | compat/bsd/imsg.c:148-205 | in every run the messages delivered, each with its own descriptor, are a prefix of those composed, and all of them once all is sent, read and extracted |
| Transport.StepsMakeProgress | compat/bsd/imsg.c:309-315 | every write, read and extraction reduces the work left |
| Transport.NeverStalls | compat/bsd/imsg.c:71-186 | while something composed is undelivered, a write, a read or an extraction is possible |
| ImsgBuffer.IBuf.Dynamic | compat/bsd/imsg-buffer.c:52-67 | refused exactly when larger than the bound; otherwise an empty buffer that may grow to it |
| ImsgBuffer.IBuf.Realloc | compat/bsd/imsg-buffer.c:69-87 | grows to exactly what is needed and keeps what was written, or fails and changes nothing |
| ImsgBuffer.IBuf.Add | compat/bsd/imsg-buffer.c:89-99 | appends the data exactly when it fits the bound, and changes nothing otherwise |
| ImsgBuffer.MsgBuf.Enqueue | compat/bsd/imsg-buffer.c:288-293 | adds the buffer at the end and counts it |
| ImsgBuffer.MsgBuf.Dequeue | compat/bsd/imsg-buffer.c:295-305 | removes the head; a descriptor still attached is closed |
| ImsgBuffer.MsgBuf.DrainBytes | compat/bsd/imsg-buffer.c:194-210 | the loop drops exactly n bytes of the queue, and closes exactly the descriptors of the buffers dropped |
| ImsgBuffer.MsgBuf.Gather | compat/bsd/imsg-buffer.c:235-258 | the scan gathers the unsent data up to the first descriptor or the IOV_MAX limit |
| ImsgBuffer.MsgBuf.Write | compat/bsd/imsg-buffer.c:221-286 | one write step: what the socket took is gone from the queue, and no descriptor was closed unsent; a failure changes nothing |
| Imsg.ImsgBuf.Read | compat/bsd/imsg.c:71-146 | one read step: what the socket gave is appended within the buffer, with at most one descriptor |
| Imsg.ImsgBuf.Get | compat/bsd/imsg.c:148-186 | one extraction step with in-place compaction; 0 or -1 exactly when the framer has too few bytes or a bad length |
| Imsg.ImsgBuf.Create | compat/bsd/imsg.c:233-257 | refused exactly when the 16-bit sum of length and header size exceeds the maximum |
| Imsg.ImsgBuf.Close | compat/bsd/imsg.c:271-284 | the length field is the exact frame size and the flag says whether a descriptor comes along |
| Imsg.ImsgBuf.Compose | compat/bsd/imsg.c:188-205 | succeeds exactly when the data are at most MAX_IMSGSIZE minus the header, wrapping lengths included; failure leaves the queue unchanged |
| Imsg.ImsgBuf.Composev | compat/bsd/imsg.c:207-229 | succeeds exactly when both checks pass, and queues the concatenation of the pieces as truncated |
| Imsg.ComposevFaithful | compat/bsd/imsg.c:207-229 | the message holds all the pieces if and only if every piece is shorter than 65536 bytes, and then it is accepted if and only if the total fits |
| Imsg.ComposevCutsLongPiece | compat/bsd/imsg.c:260-268 | a piece of exactly 65536 bytes is accepted as an empty message |
| Imsg.ImsgBuf.Flush | compat/bsd/imsg.c:309-315 | ends, with an empty queue if and only if no sendmsg came back empty-handed; sent and pending bytes and descriptors together never change |
| Store.StrCmpDecides | lib/kpagent.c:416-420 | the first bytes that differ decide the search order, and a name comes before its extensions |
| Store.StrCmpTotal | lib/kpagent.c:416-420 | the search order is total: 0 exactly for equal names, antisymmetric otherwise |
| Store.StrCmpTransitive | lib/kpagent.c:416-420 | and transitive |
| Store.InsertRepresents | lib/kpagent.c:319-325 | inserting where the order demands adds exactly that entry to the map the tree stands for |
| Store.ReplaceKeeps | lib/kpagent.c:322-325 | swapping a payload keeps the order and changes exactly that entry |
| Store.RemoveRepresents | lib/kpagent.c:355-356 | removing a node removes exactly its entry |
| Store.Storage.Locate | lib/kpagent.c:348-348 | the descent finds the node exactly when the name is present, and otherwise its place in the order |
| Store.Storage.Insert | lib/kpagent.c:321-321 | links the node in order, or returns the node that has the key already and changes nothing |
| Store.Storage.Put | lib/kpagent.c:284-331 | maps the name to the contents, new or replaced, exactly when all three strings are terminated |
| Store.Storage.Find | lib/kpagent.c:377-388 | found exactly when the map has the name, with the mapped contents |
| Store.Storage.Remove | lib/kpagent.c:341-356 | removes exactly that name, and says whether it was there |
| Protocol.UnsafeDecodes | include/kpagent.h:42-47 | a structure sent is the structure received |
| Protocol.UnsafePlaces | include/kpagent.h:42-47 | where its fields lie in 12296 bytes: a signed little-endian timeout and three strings |
| Protocol.StoreDecodes | src/command/agent.c:134-142 | a message of type 0 with a structure in it is the request to store that structure |
| Protocol.StoreOverTheWire | src/command/agent.c:134-142 | the frame of a store, cut into any reads, stores its contents exactly when its strings are terminated, arms one timer exactly when its timeout is positive and its name terminated, and is not answered |
| Protocol.SearchOverTheWire | src/command/agent.c:143-153 | the frame of a search, cut into any reads, is answered with the entry or the error, and changes nothing; the last byte of the name counts as its end |
| Protocol.DiscardOverTheWire | src/command/agent.c:154-164 | the frame of a discard, cut into any reads, removes the entry and no timer, and is confirmed exactly when there was one |
| Protocol.ReplyBytes | lib/kpagent.c:156-169 | the three replies byte by byte: type 1 with a structure of timeout -1, type 2 with a single 1, type 3 with the numbers 5 and 2 |
| Protocol.OnMessagesAppend | src/command/agent.c:128-168 | handling two lists one after the other is handling their concatenation |
| Protocol.StoreIsLastWord | lib/kpagent.c:284-367 | after any sequence of requests a name holds its last successful store, or nothing after a discard; requests for other names do not matter |
| Protocol.SearchFindsLastWord | lib/kpagent.c:369-414 | a search after any sequence of requests is answered with exactly that, and changes nothing |
| Protocol.ChunkIndependence | src/command/agent.c:115-169 | for every way of cutting a stream into reads: same store, timers, replies and unread bytes as one run over the whole stream |
| Protocol.MalformedIsSkipped | src/command/agent.c:131-165 | a message of a type above 2, or not of the size of its type, has no effect on how the others are read and handled |
| Agent.KpSend | lib/kpagent.c:140-154 | the outgoing stream grows by exactly one frame, whatever the socket does; it fails if and only if a sendmsg did, and if and only if the end of the frame is still queued |
| Agent.KpReceive | lib/kpagent.c:171-235 | answers from the first message of the stream, however it arrives, leaving the rest, unless a recvmsg failed during the call, an ended stream or a bad frame; does not read when the message is there already; loses no byte when it gives up |
| Agent.Server.OnStore | src/command/agent.c:342-368 | arms a timer for a positive timeout, then stores |
| Agent.Server.Search | lib/kpagent.c:369-414 | the reply is the stored entry, or the error |
| Agent.Server.Discard | lib/kpagent.c:333-367 | removes the entry; silent and successful means no reply, a miss always means an error |
| Agent.Server.Handle | src/command/agent.c:128-168 | one message changes the shared state and is answered as the handler says |
| Agent.Conn.TimeoutDiscard | src/command/agent.c:370-379 | the timer and its entry are gone; an error is sent exactly when there was no entry |
| Agent.Conn.Drain | src/command/agent.c:128-168 | the loop handles exactly the complete messages in the buffer and sends exactly their replies |
| Agent.Conn.Dispatch | src/command/agent.c:115-169 | one read, then the handler's run over what was buffered and read; the connection is closed, and the store left alone, if and only if the read failed or there was nothing to read or no room |
| Agent.Conn.TurnBeside | src/command/agent.c:115-169 | one connection is served as dispatch does it, and every other connection to the same store is as it was and can be served next |
| Timers.FiringRemoves | src/command/agent.c:370-379 | right after a timer fires its name is absent, no other name is touched, and exactly that timer is gone |
| Timers.LeavesOnlyBy | lib/kpagent.c:333-367 | an entry disappears only by a discard of its name or a timer for it |
| Timers.BoundedLifetime | src/command/agent.c:342-379 | while an entry stored with timeout T at time t stays present, a timer for it with deadline t+T is pending, despite re-stores, discards and other timers |
| Timers.ExpiresInTime | src/command/agent.c:350-379 | when the event loop is not late, such an entry is gone once t+T has passed |
| Timers.StaysUntilFired | src/command/agent.c:370-379 | an entry neither stored nor discarded again is still there after any number of steps if and only if no timer for it has fired |
| Timers.LivesUntil | src/command/agent.c:350-365 | before the earliest deadline pending for it an entry that is left alone cannot go, whether the event loop is punctual or not |
| Timers.GoneAfter | src/command/agent.c:350-379 | once a deadline pending for it has passed it is gone, when the event loop is punctual |
| Timers.LivesToDeadline | src/command/agent.c:350-379 | an entry lives to a deadline in every punctual run that leaves it alone if and only if no timer pending for it has an earlier one |
| Timers.LivesItsTime | src/command/agent.c:342-379 | so an entry stored with timeout T at time t lives until t+T if and only if no older timer for its name has an earlier deadline |
| Timers.OlderTimerCutsShort | src/command/agent.c:350-365 | an older timer can remove a newer entry before its own deadline |
| Session.StepKeeps | lib/kpagent.c:140-235 | every step, failed sends and given up answers included, keeps what was sent to the client equal to the answers in order with the strays inserted |
| Session.Shifted | lib/kpagent.c:364-366 | in every run the answer to request i is received after i others and after as many errors as timers had fired in vain by then |
| Session.Pairing | lib/kpagent.c:171-235 | the k-th reply received is the answer to the question it is taken for if and only if before no timer of the connection had fired for an absent name and no question had been given up on |
| Session.FirstWrong | lib/kpagent.c:364-366 | the first reply that is not its request's own is an error, deserved if and only if the request met a store without its name |
| Session.QuietBetweenOperations | lib/kpagent.c:140-235 | between operations nothing is in flight if and only if no timer fired for an absent name and no question was given up on; otherwise exactly that many replies and questions are |
| Session.MissMisleads | lib/kpagent.c:364-366 | a run in which the client is told that a safe it has stored to stay is not there, and the true answer waits for the next question |
| Session.ExchangeLeads | lib/kpagent.c:140-235 | a question and its answer are three steps of a session, in which the client reads the first reply under way |
| Connection.StepPictured | src/command/agent.c:115-169 | every step of a connection, byte moves of any size included, is a step of the session it pictures, or none |
| Connection.IsASession | lib/kpagent.c:140-235 | every run of both directions of the transport with the dispatching agent and a client is a run of Session, whose received replies are the messages taken out of the last stream |
| Connection.PairedOverTheWire | lib/kpagent.c:140-235 | the k-th message a client takes out of its stream is the reply its k-th question deserved if and only if no timer fired in vain and no question was given up on before |
| Connection.TransfersEnd | lib/kpagent.c:181-198 | only finitely many byte moves, extractions and readings can follow one another |
| Connection.NeverStuck | lib/kpagent.c:181-198 | in every run, while a client waits for an answer, one of them is possible |
| Connection.AnswerComes | lib/kpagent.c:181-198 | every run in which a client waits can be continued, by such steps alone, until it has read one more message |
| SafeFile.UnpackPacked | lib/storage.c:92-122 | unpacking undoes packing, on all headers |
| SafeFile.PackUnpacked | lib/storage.c:92-122 | packing undoes unpacking, on all 60-byte strings |
| SafeFile.HeaderLayout | lib/storage.c:80-106 | where each field lies in the file, numbers being big-endian |
| SafeFile.HeaderPack | lib/storage.c:92-106 | the cursor writes exactly the packed header |
| SafeFile.LayoutBound | lib/storage.c:222-230 | any plaintext fits 8192 bytes, and the bound is reached |
| SafeFile.LayoutReadsBack | lib/storage.c:338-345 | both strings are read back exactly whatever else the buffer holds |
| SafeFile.CopyString | lib/storage.c:338-345 | strncpy and the final terminator yield a terminated string, reading only inside the source |
| SafeFile.Save | lib/storage.c:183-274 | success if and only if the primitives succeed and no call fails or stops short, except that a ciphertext write which fails outright goes unnoticed and leaves the header alone; otherwise the file is the sealed contents, the old ones or a proper prefix |
| SafeFile.Open | lib/storage.c:276-353 | for any file: success if and only if no read fails and the file is authentic, and then two terminated strings shorter than 4096 read within the 8192-byte buffer |
| SafeFile.OpensExactly | lib/storage.c:276-336 | a file opens if and only if its header, its key and its ciphertext authenticate, and then to what they decrypt to; the error says whether it is too short, has no key or fails authentication |
| SafeFile.SavedOpens | lib/storage.c:206-345 | what was saved is what opens, for all contents that fit, all salts and nonces, and any later configuration |
| SafeFile.LostSaveDoesNotOpen | lib/storage.c:263-266 | a save that reports success reads back if and only if its ciphertext write did not fail |
| Directories.Components | lib/safe.c:385-398 | a path names its non-empty pieces between slashes, in order |
| Directories.Tree.MakeParents | lib/safe.c:372-401 | success leaves every prefix before a slash present and adds nothing else; a second call adds nothing; the path buffer is the name again after each turn; it fails if and only if the name is too long or begins with a slash, or a call fails |
| Inbox.Ages | src/command/agent.c:370-379 | time only removes entries, each with a timer of its name; on a connection errors arrive exactly when one of its timers fired for an absent name |
| Inbox.OwnAnswer | lib/kpagent.c:181-235 | with nothing unread a client reads its own answer; otherwise the oldest unread reply, and as many stay unread as before |
| Inbox.DeliveredPosted | lib/kpagent.c:146-151 | requests that arrive late are handled in order, and their replies join behind the unread ones |
| Inbox.FlushedKeeps | compat/bsd/imsg.c:308-315 | a send that succeeds leaves nothing queued |
| Inbox.StuckKeeps | compat/bsd/imsg-buffer.c:260-272 | a send that fails is recorded on its connection and loses nothing that others have queued |
| Inbox.GenuineServes | lib/safe.c:114-131 | whatever reply is taken for a found safe carries a complete structure with timeout -1 |
| Replay.AskIsSession | lib/kpagent.c:140-235 | a question of the safe layer, with what a flush sends before it, is steps of Session |
| Replay.FailIsSession | lib/kpagent.c:146-192 | and so is a question whose send or receive fails |
| Replay.StoreIsSession | lib/kpagent.c:140-154 | and a store that gets through |
| Replay.StuckIsSession | lib/kpagent.c:146-151 | and any request that stays queued |
| Replay.TimeIsSession | src/command/agent.c:370-379 | and what time does to the agent |
| Cache.OpenServes | lib/safe.c:105-132 | an open on a connection on which nothing has failed and whose timers did not miss is served exactly what the agent has, or falls back to the file when its own exchange fails |
| Cache.SaveChanges | lib/safe.c:163-198 | with nothing unread or queued, a save that gets through arms and disarms no timer, adds no key and changes no other entry; if no timer fired, timers and keys are the same |
| Cache.StepKeeps | lib/safe.c:64-370 | each successful operation of any client on any handle, also one whose exchange with the agent fails, and expiry, keeps the copies equal and clean handles equal to their files |
| Cache.AgreementOverRuns | lib/safe.c:64-370 | over every run of successful operations in which no timer of a connection that opens or saves fires for an absent name, no connection is used again after a failed send or receive, and safes are stored and renamed from clean handles and to unused names, every safe in the agent is on disk with the same contents |
| Cache.ServedIsForced | lib/safe.c:105-144 | after such a run an open that the agent may serve returns what a forced open would, unless its connection has failed before or a timer of it has fired for an absent name |
| Parting.OpenAgrees | lib/safe.c:105-132 | in any state, an open returns what the file holds if and only if no safe is served or one with the same contents; with something unread the oldest unread reply decides |
| Parting.ToldWhat | lib/safe.c:163-193 | the name under which a save stores is its own if nothing is unread, and that of the safe the oldest unread reply is about otherwise |
| Parting.SaveTells | lib/safe.c:163-198 | a save is one store without a timeout under the name that the first unread reply has when its search is handled, on the agent as it is when the store arrives, or nothing |
| Parting.SaveSparesOthers | lib/safe.c:163-198 | it leaves keys and other entries alone if and only if that name is its own and still there, or that of an entry with the same contents, or none |
| Parting.UnheardSave | lib/safe.c:163-201 | a file written without the agent hearing of it agrees with the agent if and only if the name is not cached or has the same contents |
| Parting.SaveAgrees | lib/safe.c:163-201 | with timers firing as they may: if the copies agree when its store arrives, a save keeps agreement if and only if the safe it tells the agent about is the saved one, or the contents happen to fit both |
| Parting.SaveAgreesAt | lib/safe.c:163-201 | the same name by name, from any state |
| Parting.AgreesOnArrival | lib/safe.c:163-198 | with nothing queued, copies that agree before a save that gets through still agree when its store arrives |
| Parting.PutAgrees | lib/safe.c:339-370 | a store that arrives keeps agreement if and only if the handle holds what the file holds |
| Parting.RenameAgrees | lib/safe.c:285-334 | with timers firing as they may: if the copies agree when its store arrives, a rename from any handle to any name keeps agreement if and only if a store that arrives carries what the file holds, without one the new name is not cached with other contents, and nothing is left under the old name |
| Parting.RenameAgreesAt | lib/safe.c:285-334 | the same name by name, from any state |
| Parting.LateRequestsAgree | lib/kpagent.c:146-151 | requests that arrive late keep agreement if and only if every contents that the last of them leaves under a name are those of its file |
| Parting.SaveRevives | lib/safe.c:167-195 | a save adds a key if and only if the agent does not have the name told when the store arrives, and arms no timer; with nothing unread that is an entry that expired between its search and its store |
| Parting.ExpiresIff | src/command/agent.c:350-379 | time can still remove an entry if and only if a timer for its name is pending |
| Parting.RevivedForEver | lib/safe.c:167-195 | if the entry had only the timer that fired, no timer for it is pending and no time removes it |
| Mishaps.FilesExist | lib/storage.c:206-345 | files with any contents exist for some primitives that keep the laws |
| Mishaps.RenameParts | lib/safe.c:332-332 | a careful rename of an uncached safe to the name of a cached one parts the copies |
| Mishaps.MissPartsTheCopies | lib/safe.c:173-201 | a run of seven successful operations in which a timer that fires in vain makes a save write only the file |
| Mishaps.OpenGetsAnother | lib/safe.c:113-131 | the next open of another safe returns the first one's contents, and a forced open something else |
| Mishaps.SaveOverwritesAnother | lib/safe.c:173-193 | the next save of another safe stores its contents under the first one's name |
| Late.LateStoreParts | lib/safe.c:366-369 | a run of six successful operations without any timer in which a store whose send failed arrives after another client has saved the safe |
| Late.LateAnswerMisleads | lib/safe.c:108-131 | an open whose search failed falls back to the file, and the next open on the connection is served the first safe's contents |
| Safe.SearchAnswer | lib/kpagent.c:200-235 | the client reads the stored contents from the answer to a search, or the error ENOENT |
| Safe.AnyAnswer | lib/kpagent.c:200-235 | any reply an agent sends is data to a question exactly when its type and size are those asked for, the error ENOENT for a missing safe, and an invalid message otherwise |
| Safe.AnswerReads | lib/kpagent.c:200-230 | exactly which message gives which answer: the data, the two numbers of an error, a wrong type or a wrong size |
| Safe.QuestionOverTheWire | lib/safe.c:108-113 | a question cut into any reads is handled as exactly that request, and the first frame then on its way to the client is its oldest unread reply, with the others behind it |
| Safe.Ctx.Send | lib/kpagent.c:140-154 | what is queued arrives first; a failure leaves the request queued, and perhaps some of what was queued before, and is counted |
| Safe.Ctx.ReadFile | lib/storage.c:276-353 | when no read fails, what the file opens to, or its error |
| Safe.Ctx.WriteFile | lib/storage.c:183-274 | writes the contents sealed under version 1 and the limits of the workspace; succeeds if and only if the primitives do and no call fails or stops short, a lost ciphertext apart |
| Safe.Ctx.Open | lib/safe.c:64-145 | success is an open step: what the first unread reply serves, or else the file, also when the exchange fails; for a new safe the absence of a file; whatever the outcome, one search is sent and its reply consumed, or none |
| Safe.Ctx.Save | lib/safe.c:147-202 | the agent's part is a search and, exactly when it serves a safe, a store, unless an exchange fails; the file is then written as WriteFile does; success, with the file written, is a save step whatever became of the agent's part; no other file changes |
| Safe.Ctx.UpdateAgent | lib/safe.c:163-198 | searches, and sends the structure it read back with new strings under the name and timeout it came with, only when the reply serves a safe; either exchange may fail |
| Safe.Ctx.Delete | lib/safe.c:231-263 | succeeds if and only if the first unread reply confirms a discard, which with nothing unread means that the safe was cached, and the file is there and its removal does not fail; whatever the outcome, exactly one discard is sent and one reply consumed, unless the exchange fails; success is a delete step |
| Safe.Ctx.Rename | lib/safe.c:265-337 | exactly when it succeeds; success is a rename step: the file moves, and after a confirmed discard the safe is stored without a timeout, unless that fails; a failure leaves the files alone |
| Safe.Ctx.Put | lib/safe.c:339-370 | refused exactly without an agent; a store whose send fails is reported as success and stays queued |
| Safe.Ctx.Close | lib/safe.c:204-229 | clears the strings and keeps the name |
| Config.AtolReads | lib/config.c:210-243 | blanks, a sign, a printed number and whatever follows it are read as that number with its sign, clamped to 64 bits |
| Config.AtolOfDecimal | lib/config.c:210-243 | a printed number is read back as itself, clamped to the largest signed value |
| Config.TokenAtFront | lib/config.c:127-141 | a token without delimiters is split off exactly, with what follows its delimiter left |
| Config.TextLoads | lib/config.c:81-83 | loading the printed text sets both limits, each clamped to the largest signed value |
| Config.ConfigRoundTrip | lib/config.c:29-31 | the text reads back exactly if and only if both limits are below 2 to the 63 |
| Config.TextFits | lib/config.c:82-83 | the text always fits the metadata of a safe |
| Config.ConfigSurvivesFile | lib/config.c:60-148 | the limits survive printing, sealing in a file, opening and loading |
| Config.Search | lib/config.c:135-135 | the binary search finds a key exactly when the table has it |
| Config.Settings.Load | lib/config.c:125-141 | the loop sets what the lines say, in order, and goes wrong exactly on a line without a key or a known key without a value |
| Config.AncestorsOfParent | lib/config.c:168-172 | one cut at the last slash reaches the nearest ancestor, and all others lie above it |
| Config.FindsNearest | lib/config.c:157-196 | finds a directory if and only if it is the longest proper ancestor with a configuration and nothing longer stopped the search |
| Config.EndsExactlyWhenDecided | lib/config.c:168-188 | the loop ends if and only if some ancestor or the root has a configuration or cannot be looked up |
| Config.FindConfig | lib/config.c:157-196 | the loop on its path buffer leaves exactly that directory in it; a path that does not fit is refused |

## Left out

- ChaCha20-Poly1305, scrypt, libsodium's guarded memory and random generation: foreign code, present only as parameters with laws.
- Sockets, fork, signals, the set-up of the event loop, accepting and freeing connections: plumbing; a connection is assumed to outlive its timers.
- Retries after EINTR or EAGAIN, and the check for spare descriptors in `imsg_read`: a call stands for its final outcome.
- Allocation failure and memory leaks.
- Red-black balancing: `sys/tree.h` is not part of this model; the tree is its in-order sequence of nodes, searched by halving.
- `ibuf_write`, `ibuf_reserve`, `ibuf_seek`, `ibuf_size` and `ibuf_left`: not used by kickpass.
- The 32-bit width of the queue counter and the 64-bit width of sizes and of event times: more than 2 to the 32 queued buffers, or buffers of more than 2 to the 63 bytes, are out of reach.
- Agent.Classify: an error message shorter than its structure is read beyond its end by the code; the model gives such a message no defined reading.
- Prompting for passwords: the master password is known throughout a run.
- Inbox.Asked: one question is one step, although the client may read an older reply before the agent has handled the question; replies are read in order, so that what it reads is the same.
- Cache.Step: operations of all clients are sequential, each one handled by the agent before the next one starts; interleaving inside one save or rename is not modelled.
- Cache.AgreementOverRuns: claimed for operations that succeed with no write of a file lost unnoticed, as save and rename change the agent before the file; Parting.UnheardSave and SafeFile.LostSaveDoesNotOpen say what happens otherwise.
- Directories.Tree: paths are their non-empty components; "." and "..", symbolic links, and the files that saving creates are not resolved there.
- File names on disk are compared as given, so two spellings of one path count as two safes.
- Config.Settings.Load: sorting the table is left out because it is in order already, and opening and storing the configuration safe around the loop are the safe layer's operations.
- Config.FindConfig: required to end, because otherwise the code does not return; EndsExactlyWhenDecided says when it does.
- Safe.Ctx.Open: whether the file is there is taken to be known; an `fstatat` that fails for another reason counts as absence in the code.
- Command-line parsing, prompts, editor, clipboard, listing, logging, password generation, config getters and `kp_cfg_save`: user interface or trivial.
