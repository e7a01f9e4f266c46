# skynet runtime core in Dafny

skynet is an actor runtime. Services ("contexts") own a message queue each.
Worker threads pop queues from one global scheduling queue and hand the
messages to the service callbacks. This project models the bookkeeping that
the workers run inside short locked sections, with each locked operation
treated as one atomic step:

- **Message queues** (`mq.dfy`, module `MessageQueue`). A per-service ring
  buffer doubles instead of dropping messages. It keeps an overload
  threshold that doubles under backlog and an `in_global` flag. The global
  queue is an intrusive FIFO list. Release drains pending messages in order.
- **Handle table** (`handle.dfy`, module `HandleTable`). A power-of-two slot
  array is probed from a rotating cursor and rehashed when full. Handles
  carry the harbor id in their top byte. A sorted name array supports
  binary-search lookup and ordered insertion, and retiring a handle removes
  every name bound to it.
- **Contexts** (`context.dfy`, `server.dfy`, `address.dfy`, `command.dfy`).
  These cover reference counting (a context starts at 2 and is deleted
  exactly when its count reaches 0), positive session numbers, and the
  packing of the message type above the size. They also cover
  `skynet_send` routing, one weighted dispatch turn, `:hex` and `.name`
  addresses, `id_to_hex`, `copy_name` and the command table.
- **Monitor** (`monitor.dfy`, module `Monitor`). A version/check-version
  pair flags a message whose handler has not returned between two checks.
- **Socket engine** (`socket.dfy`, `write_buffer.dfy`, `udp_address.dfy`).
  This covers socket-id reservation over the 65536-slot table and the
  socket state machine. It covers the high- and low-priority write lists,
  with partial writes, promotion of a half-sent low buffer and deferred
  close. It also covers adaptive read sizing, the UDP address byte layout,
  control-command dispatch and the clearing of stale poll events.
- **Module registry** (`module.dfy`, module `ModuleRegistry`). It expands
  the `;`-separated path templates, where `?` stands for the module name.
  It holds at most 32 entries, looked up by name, and builds the symbol
  names `name_create`, `name_init` and `name_release`.

The C library and kernel calls become parameters:

- `write`, `read` and `sendto` results: `IoResult` values, listed in call
  order.
- `sp_add` failure: a boolean.
- `dlopen`: a map from file name to library.
- `dlsym`: a map from (library, symbol) to address.
- The harbor's remote test: a boolean.
- Payload copies: a number.

Fixed-width integers are written out where the source relies on their
width: the 32-bit session counter and monitor version, the `strtoul` result
converted to `uint32_t`, and the `unsigned` conversion in `HASH_ID`.

## Model

| member | source | states |
|---|---|---|
| MessageQueue.Queue.constructor | skynet-src/skynet_mq.c:88-109 | a new queue is empty, has capacity 64 and overload threshold 1024, and starts with `in_global` set so that pushes before init do not link it |
| MessageQueue.Queue.Length | skynet-src/skynet_mq.c:127-140 | the ring distance from head to tail, wrapped by the capacity, is the number of messages held |
| MessageQueue.Queue.Overload | skynet-src/skynet_mq.c:144-151 | returns the recorded overload and resets it to 0 |
| MessageQueue.Queue.Pop | skynet-src/skynet_mq.c:155-189 | an empty queue yields nothing, clears `in_global` and resets the threshold to 1024; otherwise the oldest message comes out, the rest stay in order, and a backlog above the threshold is recorded while the threshold doubles |
| MessageQueue.RaisedThresholdMeetsLength | skynet-src/skynet_mq.c:173-176 | the doubled threshold is the old one times a power of two, reaches the length, and stays below twice the length when it had to grow |
| MessageQueue.Queue.ExpandQueue | skynet-src/skynet_mq.c:193-205 | the new buffer has twice the capacity and holds the old contents in logical order at 0..cap-1, with head 0 and tail at the old capacity |
| MessageQueue.Queue.Append | skynet-src/skynet_mq.c:209-220 | the message is appended after the existing contents, and no message is lost when the ring is full and grows |
| MessageQueue.Queue.Push | skynet-src/skynet_mq.c:209-228 | appends the message; links the queue into the global list exactly when it was not already there, and sets the flag |
| MessageQueue.Queue.MarkRelease | skynet-src/skynet_mq.c:239-247 | sets the release flag; links the queue into the global list only when it is not already there |
| MessageQueue.Queue.DropQueue | skynet-src/skynet_mq.c:251-257 | every pending message goes to the drop callback in FIFO order, and the queue is freed |
| MessageQueue.Queue.Release | skynet-src/skynet_mq.c:261-271 | a marked queue is drained in order and freed; an unmarked one keeps its messages and is put back at the tail of the global list |
| MessageQueue.GlobalQueue.constructor | skynet-src/skynet_mq.c:231-235 | the global list starts empty |
| MessageQueue.GlobalQueue.Push | skynet-src/skynet_mq.c:52-64 | the queue is linked at the tail of the global list |
| MessageQueue.GlobalQueue.Pop | skynet-src/skynet_mq.c:69-85 | the head of the list is returned with its `next` cleared, and the rest keep their order; an empty list yields null |
| MessageQueue.PushAllThenDrain | skynet-src/skynet_mq.c:155-228 | any number of messages pushed into a fresh queue come back in push order (FIFO across growth) |
| MessageQueue.ReleaseDropsPending | skynet-src/skynet_mq.c:239-271 | a queue marked for release with any number of pending messages hands all of them, in order, to the drop callback on release |
| HandleTable.HandleStorage.constructor | skynet-src/skynet_handle.c:249-269 | no contexts, no names, harbor `(id & 0xff) << 24`, handle index 1, 4 slots and room for two names |
| HandleTable.HandleStorage.Register | skynet-src/skynet_handle.c:40-73 | the context is stored under a fresh handle that carries the harbor tag, and the cursor moves past it; the handle is the first free one probed from the old cursor, every slot probed before it being taken in the final table; names are unchanged |
| HandleTable.HandleStorage.Probe | skynet-src/skynet_handle.c:45-59 | one probe round stores the context exactly when some slot is empty, under the first local id from the cursor whose slot was empty (every earlier probe hit a taken slot); when none is, the table is full and nothing changes |
| HandleTable.ProbesCoverSlots | skynet-src/skynet_handle.c:47-49 | every slot index is reached by one of the `slot_size` probes from the cursor |
| HandleTable.ProbedAll | skynet-src/skynet_handle.c:47-59 | a probe round that found every probed slot taken saw a full table |
| HandleTable.HandleStorage.Store | skynet-src/skynet_handle.c:50-57 | the handle returned is the probed value or-ed with the harbor, the slot at its hash now holds the context, and the cursor is the handle plus one |
| HandleTable.SlotWithHarbor | skynet-src/skynet_handle.c:56 | the harbor bits do not change which slot a handle hashes to |
| HandleTable.SlotOfLocalId | skynet-src/skynet_handle.c:48-49 | masking the cursor to 24 bits does not change its slot |
| HandleTable.HandleStorage.Grow | skynet-src/skynet_handle.c:60-71 | the table doubles, keeps every context, and gains an empty slot |
| HandleTable.Rehash | skynet-src/skynet_handle.c:61-68 | each context moves to the slot of its handle in the doubled table without collision, and every occupied new slot holds the old context that hashed there, and slot 0 or slot `size` stays empty |
| HandleTable.HalvesShareSlot | skynet-src/skynet_handle.c:65-66 | handles that land in slots 0 and `size` of the doubled table would both come from old slot 0, so after the rehash one of those two slots is empty |
| HandleTable.HandleStorage.Retire | skynet-src/skynet_handle.c:77-107 | returns true exactly when the handle was registered; then the slot is emptied, every name bound to it is removed, and one reference is released (deleting the context at 0); otherwise nothing changes |
| HandleTable.HandleStorage.RetireFound | skynet-src/skynet_handle.c:86-101 | empties the handle's slot, removes the names bound to it and releases one reference of the context; the source releases before emptying the slot, an order that makes no difference under the table's write lock |
| HandleTable.HandleStorage.Unregister | skynet-src/skynet_handle.c:86-101 | the handle leaves the table and its names are removed |
| HandleTable.HandleStorage.Evict | skynet-src/skynet_handle.c:88 | the handle leaves the table |
| HandleTable.HandleStorage.RemoveNames | skynet-src/skynet_handle.c:90-101 | the name array becomes the old one without the entries bound to the handle |
| HandleTable.HandleStorage.ReleaseRetired | skynet-src/skynet_handle.c:87 | the reference count drops by one and the context is deleted exactly at 0, marking its queue for release |
| HandleTable.Compact | skynet-src/skynet_handle.c:90-101 | the in-place compaction leaves exactly the entries of other handles, in their old order |
| HandleTable.RemoveHandleMembers | skynet-src/skynet_handle.c:92-99 | an entry survives removal exactly when it was present and bound to another handle |
| HandleTable.RemoveHandleSorted | skynet-src/skynet_handle.c:90-101 | removing a handle's names keeps the array strictly sorted |
| HandleTable.HandleStorage.RetireAll | skynet-src/skynet_handle.c:110-131 | when no pass retires anything, only handle 0 can be left, and the contexts left are the ones that were there |
| HandleTable.HandleStorage.SweepSlots | skynet-src/skynet_handle.c:112-129 | one pass either retires some handle, so the handle set strictly shrinks, or leaves only handle 0 |
| HandleTable.HandleStorage.RetireSlot | skynet-src/skynet_handle.c:115-126 | a slot is retired exactly when it holds a context with a non-zero handle |
| HandleTable.HandleStorage.RetireRegistered | skynet-src/skynet_handle.c:122-125 | retiring a registered handle removes it from the table |
| HandleTable.HandleStorage.Grab | skynet-src/skynet_handle.c:135-151 | returns the context registered under the handle, with one more reference, or null when none is |
| HandleTable.HandleStorage.Locate | skynet-src/skynet_handle.c:161-177 | the binary search either finds the name or stops at the position between the smaller and the larger names |
| HandleTable.HandleStorage.AbsentBetween | skynet-src/skynet_handle.c:164-177 | a name that sorts between the neighbours where the search stopped is not in the array |
| HandleTable.HandleStorage.FindName | skynet-src/skynet_handle.c:154-182 | returns the handle bound to the name, or 0 when no entry has that name |
| HandleTable.LookupSorted | skynet-src/skynet_handle.c:154-182 | in a sorted name array every entry's name looks up to that entry's handle |
| HandleTable.LookupAbsent | skynet-src/skynet_handle.c:159 | an absent name looks up to 0 |
| HandleTable.CopyWithGap | skynet-src/skynet_handle.c:186-198 | the doubled array keeps the entries before the insertion point and shifts the rest up by one |
| HandleTable.ShiftRight | skynet-src/skynet_handle.c:200-203 | entries from the insertion point on move up by one, and those before it stay |
| HandleTable.HandleStorage.InsertNameBefore | skynet-src/skynet_handle.c:185-209 | the new entry is inserted at the given position, the others keep their order, the count grows by one, and the capacity doubles exactly when the array was full |
| HandleTable.SortedInsert | skynet-src/skynet_handle.c:213-234 | inserting at the binary-search position keeps the array strictly sorted |
| HandleTable.HandleStorage.NameHandle | skynet-src/skynet_handle.c:238-246 | a duplicate name is refused and nothing changes; otherwise the name is inserted, afterwards looks up to the handle, and the name capacity doubles exactly when it was full |
| Context.Ctx.constructor | skynet-src/skynet_server.c:144-159 | a new context has two references, session 0, handle 0, and is neither initialised nor endless |
| Context.NextSession | skynet-src/skynet_server.c:191-199 | the next session is always positive: the previous plus one, or 1 after the 32-bit counter overflows |
| Context.SessionsIncrease | skynet-src/skynet_server.c:191-199 | below the overflow point, `k` allocations advance the counter by exactly `k` |
| Context.Ctx.NewSession | skynet-src/skynet_server.c:191-199 | returns the next session and stores it |
| Context.Ctx.Grab | skynet-src/skynet_server.c:202-204 | adds one reference |
| Context.Ctx.Delete | skynet-src/skynet_server.c:215-223 | the context is deleted and its queue is marked for release |
| Context.Ctx.Release | skynet-src/skynet_server.c:226-232 | drops one reference; returns null and deletes the context exactly when the count reaches 0, and otherwise returns the context |
| Context.DeletedByLastRelease | skynet-src/skynet_server.c:150-232 | a context grabbed `k` times survives `k + 1` releases and is deleted by the next one |
| Server.Int32Of | skynet-src/skynet_server.c:270 | reinterpreting a 32-bit unsigned word as `int` gives the value congruent to it modulo 2^32 |
| Server.Pack | skynet-src/skynet_server.c:671 | the corrected packing puts the type byte into bits 24-31 of a 32-bit size word |
| Server.PackAsWritten | skynet-src/skynet_server.c:671 | the packing as written, with the shift done on a signed `int` |
| Server.UnpackType | skynet-src/skynet_server.c:270 | the type read back is a 32-bit signed value |
| Server.UnpackSize | skynet-src/skynet_server.c:271 | the size read back is below 2^24 |
| Server.PackRoundTrip | skynet-src/skynet_server.c:654-672 | with the corrected packing, unpacking a packed word returns the type and size that went in; the source achieves this only for types below 128 (see Findings) |
| Server.PackAsWrittenLowTypes | skynet-src/skynet_server.c:671 | for types below 128 the packing as written equals the corrected one |
| Server.PackAsWrittenHighTypes | skynet-src/skynet_server.c:671 | for types 128-255 the packing as written reads back as the type minus 256 |
| Server.PackAsWrittenType128 | skynet-src/skynet_server.c:671 | the concrete case: type 128 reads back as -128 |
| Server.SendThenDispatch | skynet-src/skynet_server.c:270-271 | with the corrected packing, the type byte and size that `skynet_send` packs are the ones `dispatch_message` hands the callback; as written this holds only for types below 128 |
| Server.FilterArgs | skynet-src/skynet_server.c:654-672 | with ALLOCSESSION a fresh positive session is allocated, and otherwise the session is kept; without DONTCOPY a non-null payload is replaced by its copy; the size word round-trips type and size |
| Server.Prepare | skynet-src/skynet_server.c:681-701 | the message sent carries the filtered session, payload and size word, and the sender's handle when the source is 0 |
| Server.Send | skynet-src/skynet_server.c:675-709 | an oversized payload returns -1 and changes nothing; destination 0 returns the session without enqueuing; a remote handle goes to the harbor; an unknown local handle returns -1; otherwise the message is appended to the destination's queue and the session returned; the destination's reference count and deletion mark end as they started, and on every path but the last its queue contents and global-queue flag are unchanged |
| Server.Deliver | skynet-src/skynet_server.c:687-708 | the routing after the message is built: nothing for destination 0, the harbor for a remote handle, -1 for an unknown handle, otherwise the destination's queue; the sender's context is untouched, the destination's reference count and deletion mark are kept, and its queue is unchanged for destination 0 and remote handles |
| Server.Forward | skynet-src/skynet_server.c:690-707 | a remote handle goes to the harbor; a local one is pushed to its queue, which fails when no context has the handle, and its reference count and deletion mark end where they started; a remote send leaves its queue unchanged |
| Server.ContextPush | skynet-src/skynet_server.c:235-244 | returns 0 exactly when the handle is registered; then the message is appended to its queue, the queue is linked if it was not, and the reference count is back where it was |
| Server.PushHeld | skynet-src/skynet_server.c:240-241 | under a held reference, the message is appended and that reference released |
| Server.ContextEndless | skynet-src/skynet_server.c:247-254 | the registered context is marked endless and its reference count is unchanged; an unknown handle changes nothing |
| Server.MonitorCheck | skynet-src/skynet_monitor.c:40-49 | a check that finds no trigger since the previous one flags the destination, and that context, if registered, is marked endless |
| Server.Batch | skynet-src/skynet_server.c:311-321 | the messages one turn takes: none from an empty queue, one for a negative weight, otherwise at least one and at most the length |
| Server.BatchShrinksWithWeight | skynet-src/skynet_server.c:318-321 | a larger weight never takes more messages |
| Server.BatchWeightZero | skynet-src/skynet_server.c:318-321 | with weight 0 a turn takes all but one of at least two messages, since `n` is the length left after the first pop |
| Server.RunBatch | skynet-src/skynet_server.c:311-336 | the first `Batch` messages are handled in order and the rest stay queued; the monitor version advances by two per message and the monitor ends cleared; an empty queue only clears `in_global` |
| Server.HandleOne | skynet-src/skynet_server.c:322-335 | the overload report is reset, and the monitor is triggered twice and ends cleared |
| Server.TurnKeepsMessages | skynet-src/skynet_server.c:295-349 | a dispatch turn loses no message: handled, dropped and still-queued messages together are the queue's old contents |
| Server.TurnRequeuesAtTail | skynet-src/skynet_server.c:339-345 | after a turn on a registered queue, the queue is requeued at the tail exactly when it had messages and another queue was waiting, and that queue is the one returned |
| Server.DispatchQueue | skynet-src/skynet_server.c:302-349 | one turn on a popped queue satisfies the turn relation, and the serving context's reference count ends where it started |
| Server.DropTurn | skynet-src/skynet_server.c:305-309 | with no context for the handle, a marked queue is drained and an unmarked one requeued, then the next queue is popped |
| Server.HeldTurn | skynet-src/skynet_server.c:311-348 | a batch under the grabbed reference, then the requeue decision and the release of that reference; the monitor effects follow the batch size |
| Server.EndTurn | skynet-src/skynet_server.c:314-317 | after an empty batch the next queue is popped and this one is left out; otherwise the requeue decision applies |
| Server.Requeue | skynet-src/skynet_server.c:339-345 | `q` is pushed back and the next queue returned when one is waiting; otherwise `q` is returned |
| Server.MessageDispatch | skynet-src/skynet_server.c:295-349 | with no queue given and an empty global list nothing happens; otherwise one turn runs on the given queue or on the head of the global list |
| Address.HexOf | skynet-src/skynet_server.c:107-115 | the hex text of an id has 8 digits |
| Address.IdToHex | skynet-src/skynet_server.c:107-115 | the buffer holds `':'`, the 8 upper-case hex digits of the id, most significant first, then NUL |
| Address.HexRoundTrip | skynet-src/skynet_server.c:366 | parsing the 8 digits of `id_to_hex` with `strtoul` base 16 gives the id back |
| Address.HexPrefixValue | skynet-src/skynet_server.c:111-113 | the first `k` digits read as a number are the id shifted right by `4(8-k)` |
| Address.StrtoulOfDigits | skynet-src/skynet_server.c:366 | `strtoul` base 16 over a string of hex digits is its value when that does not overflow |
| Address.Strtoul16 | skynet-src/skynet_server.c:366 | the parse result is an `unsigned long`: overflow saturates at the maximum, and a leading `-` negates modulo 2^64 |
| Address.LeadingHex | skynet-src/skynet_server.c:366 | `strtoul` reads the longest run of hex digits and stops at the first other character |
| Address.SkipSpaces | skynet-src/skynet_server.c:366 | leading white space is skipped |
| Address.CopyName | skynet-src/skynet_server.c:352-360 | the buffer holds the name cut to 16 characters and padded with NUL |
| Address.PaddedName | skynet-src/skynet_server.c:352-360 | the padded name is exactly 16 characters |
| Address.PaddedNameReads | skynet-src/skynet_server.c:352-360 | reading the padded buffer as a C string gives the name back, cut to 16 characters |
| Address.CStringOfPadded | skynet-src/skynet_server.c:357-359 | a C string followed by NUL reads back as itself |
| Address.QueryName | skynet-src/skynet_server.c:363-372 | `:hex` parses to the hex value as a 32-bit handle, `.name` looks the name up, anything else gives 0 |
| Address.QueryHexAddress | skynet-src/skynet_server.c:363-366 | querying the text `id_to_hex` wrote gives the id back |
| Address.QueryBoundName | skynet-src/skynet_server.c:367-368 | querying `.name` for a bound name gives its handle |
| Command.LookupFirst | skynet-src/skynet_server.c:641-651 | an unknown command yields nothing; a known one yields the first entry with that exact name |
| Command.LookupDistinct | skynet-src/skynet_server.c:641-651 | in a table with distinct names, each entry's name selects that entry |
| Command.CommandTableReachable | skynet-src/skynet_server.c:619-651 | every entry of the 17-command table is reached by its own name |
| Command.SetEnvSplit | skynet-src/skynet_server.c:513-528 | a parameter with no space sets nothing; otherwise the key is the part before the first space and the value the rest; the parameter is a NUL-free C string |
| Command.CmdEndless | skynet-src/skynet_server.c:538-545 | returns "1" and clears the flag when the context was marked endless, and nothing otherwise |
| Command.EndlessReportedOnce | skynet-src/skynet_server.c:538-545 | the endless mark is reported once: a second ENDLESS right after returns nothing |
| Monitor.SkynetMonitor.constructor | skynet-src/skynet_monitor.c:21-25 | version, check version, source and destination all start at 0 |
| Monitor.SkynetMonitor.Trigger | skynet-src/skynet_monitor.c:33-37 | stores source and destination and increments the 32-bit version by one |
| Monitor.SkynetMonitor.Check | skynet-src/skynet_monitor.c:40-49 | flags the destination exactly when the version has not moved since the last check and the destination is not 0; afterwards the check version equals the version; version, source and destination are untouched |
| Monitor.TriggerSilencesCheck | skynet-src/skynet_monitor.c:33-49 | on any monitor, a trigger between two checks keeps the second check quiet (the wrapping increment always changes the version), while a further check with no trigger before it flags the destination when a message is in flight |
| ModuleRegistry.Until | skynet-src/skynet_module.c:41-42 | the segment ends at the first `;`, or at the end of the path |
| ModuleRegistry.UntilUnique | skynet-src/skynet_module.c:41-42 | any position with no `;` before it and `;` or the end at it is that end |
| ModuleRegistry.Segments | skynet-src/skynet_module.c:36-57 | the path splits into non-empty segments without `;` |
| ModuleRegistry.EmptySegmentsSkipped | skynet-src/skynet_module.c:39 | an empty segment between two `;` changes nothing |
| ModuleRegistry.Expand | skynet-src/skynet_module.c:45-54 | a segment without `?` is invalid; otherwise the candidate is the text before the first `?`, the name, then the rest of the segment |
| ModuleRegistry.SearchOpensFirst | skynet-src/skynet_module.c:36-57 | segments are tried left to right, and the first candidate that opens is the library returned |
| ModuleRegistry.SearchFailsAtInvalid | skynet-src/skynet_module.c:51-54 | reaching a segment without `?` before any open succeeds is the fatal invalid-path error |
| ModuleRegistry.TryOpen | skynet-src/skynet_module.c:26-64 | the loop over the path computes the search over its segments |
| ModuleRegistry.SkipSeparators | skynet-src/skynet_module.c:39 | skipping `;` leaves the same segments to try |
| ModuleRegistry.SegmentEnd | skynet-src/skynet_module.c:41-43 | finds the end of the current segment |
| ModuleRegistry.SegmentAt | skynet-src/skynet_module.c:41-56 | the segments from a position are the current one, then those after it |
| ModuleRegistry.Candidate | skynet-src/skynet_module.c:44-54 | the file name built into `tmp` is the expansion of the segment |
| ModuleRegistry.Find | skynet-src/skynet_module.c:67-75 | returns the first module with an equal name, or nothing when no module has it |
| ModuleRegistry.FindDistinct | skynet-src/skynet_module.c:67-75 | with distinct names, each module is found by its own name |
| ModuleRegistry.Modules.Query | skynet-src/skynet_module.c:67-75 | the loop over the registered modules computes `Find` |
| ModuleRegistry.OpenSym | skynet-src/skynet_module.c:78-90 | looks up `name_create`, `name_init` and `name_release`, and fails exactly when `name_init` is missing |
| ModuleRegistry.SymbolNamesDistinct | skynet-src/skynet_module.c:80-87 | the three symbol names differ |
| ModuleRegistry.Modules.constructor | skynet-src/skynet_module.c:156-164 | the registry starts empty with the given path |
| ModuleRegistry.Modules.ModuleQuery | skynet-src/skynet_module.c:93-120 | a registered module is returned with nothing changed; with 32 modules nothing is added; otherwise the path search decides, and a module is added, with count up by one, exactly when a library opens and has `name_init` |
| ModuleRegistry.Modules.Insert | skynet-src/skynet_module.c:123-132 | a module with a new name is appended while fewer than 32 are registered |
| ModuleRegistry.InstanceCreate | skynet-src/skynet_module.c:135-141 | the sentinel `~0` exactly when there is no create function or it returned that value |
| SocketServer.HashId | skynet-src/socket_server.c:42 | an id's slot is below 65536, using the `unsigned` conversion of negative ids |
| SocketServer.Server.constructor | skynet-src/socket_server.c:281-329 | every slot starts invalid, and the id counter and event counters start at 0 |
| SocketServer.Server.ReserveId | skynet-src/socket_server.c:251-271 | returns -1 exactly when no slot is invalid; otherwise it returns a non-negative id whose slot was invalid and becomes reserved with that id and fd -1, and every slot probed before it was taken |
| SocketServer.Server.NextId | skynet-src/socket_server.c:254-257 | the id counter steps by one and wraps to stay non-negative |
| SocketServer.ForceClosed | skynet-src/socket_server.c:344-362 | the socket becomes invalid with both write lists freed, keeping id, owner, fd and protocol; an invalid socket is left as it is |
| SocketServer.ForceCloseIdempotent | skynet-src/socket_server.c:344-362 | closing twice is closing once |
| SocketServer.NewFd | skynet-src/socket_server.c:388-409 | fails and invalidates the slot exactly when the poll registration is asked for and fails; otherwise sets id, fd, protocol, owner, read size 64 and empty lists |
| SocketServer.Server.OpenSocket | skynet-src/socket_server.c:413-500 | a failed connect invalidates the slot and reports an error; a finished one makes the socket connected; one in progress leaves it connecting |
| SocketServer.Server.ListenSocket | skynet-src/socket_server.c:785-803 | the reserved slot becomes a listening socket waiting for start |
| SocketServer.Server.BindSocket | skynet-src/socket_server.c:833-847 | a failed poll registration reports an error and invalidates the slot; otherwise the socket is bound and "binding" is reported |
| SocketServer.Server.AddUdpSocket | skynet-src/socket_server.c:933-948 | the slot becomes the corrected UDP socket, or invalid when the poll registration fails |
| SocketServer.AddUdp | skynet-src/socket_server.c:933-948 | the corrected add: invalid exactly when registration fails; otherwise a connected socket of the requested family with a zeroed peer address |
| SocketServer.AddUdpAsWrittenFaults | skynet-src/socket_server.c:941-946 | as written, a failed registration leaves no socket to write to (the null dereference), and a successful one agrees with the corrected add |
| SocketServer.Server.StartSocket | skynet-src/socket_server.c:851-888 | an unknown id is an error; a pending accept becomes connected and a pending listen becomes listening, unless registration fails; a connected socket changes owner only; anything else is ignored |
| SocketServer.Server.SetUdpAddress | skynet-src/socket_server.c:951-973 | an unknown id is ignored; a tag that does not match the protocol is an error; otherwise the address is copied and decodes as the request did |
| SocketServer.CopyAddress | skynet-src/socket_server.c:967-971 | the stored address stays 19 bytes |
| SocketServer.CopyAddressDecodes | skynet-src/socket_server.c:967-971 | copying 7 or 19 bytes keeps everything the decoder reads |
| SocketServer.Server.SendSocket | skynet-src/socket_server.c:720-782 | data for a socket that does not take it is dropped and nothing changes; otherwise the slot becomes `Sent`; the call closes exactly when a direct TCP write fails |
| SocketServer.Sent | skynet-src/socket_server.c:720-782 | a direct TCP write queues its unsent rest at high priority; a direct UDP send queues the datagram unless it went out; otherwise data joins the list of its priority; no byte is lost |
| SocketServer.DirectWritten | skynet-src/socket_server.c:734-740 | a direct write never counts more than the buffer |
| SocketServer.QueuedSound | skynet-src/socket_server.c:668-705 | appending to a list keeps the socket consistent, and the pending byte count grows by the buffer's size |
| SocketServer.Server.CloseSocket | skynet-src/socket_server.c:806-830 | an unknown id reports close and changes nothing; with nothing pending the socket is force-closed; otherwise the socket is what `send_buffer` leaves of it (`BufferSent`) when that closed it, force-closed when both lists emptied, and half-closed with the remaining lists otherwise; no other slot changes |
| SocketServer.SendList | skynet-src/socket_server.c:594-600 | TCP sockets drain with `send_list_tcp`, the others with `send_list_udp` |
| SocketServer.DrainKeeps | skynet-src/socket_server.c:503-600 | draining conserves bytes, and only the head of a list can be left partly written |
| SocketServer.RaiseUncomplete | skynet-src/socket_server.c:612-626 | the low list's head becomes the only element of the empty high list, and the order of pending buffers is kept |
| SocketServer.SendBuffer | skynet-src/socket_server.c:637-665 | the socket left is stated for each path (`BufferSent`): a failed write force-closes it; high data left unsent leaves the low list alone; an emptied high list hands over to the low list; with both lists empty a half-closed socket closes; wb_size drops by what was written and no bytes appear |
| SocketServer.SendLow | skynet-src/socket_server.c:645-652 | the socket left is stated (`LowSent`): a failed write force-closes it; otherwise the unsent buffers, in order, are the high list followed by the low list, the high list holding exactly the half-sent head if any, and wb_size drops by what was written |
| SocketServer.ReadSizeAdapts | skynet-src/socket_server.c:1072-1088 | the read size doubles exactly when a read fills it and halves exactly when it is above 64 and less than half was read, so it never drops below 64 |
| SocketServer.Server.ForwardMessageTcp | skynet-src/socket_server.c:1053-1095 | EINTR and EAGAIN change nothing; an error or a 0-byte read force-closes; data read while half-closed is discarded; otherwise the byte count is reported (the bytes themselves are not modelled) and the read size adapts |
| SocketServer.Server.ClearClosedEvent | skynet-src/socket_server.c:1224-1238 | after a close or an error, no pending event points at the closed socket, and no other event changes |
| SocketServer.Server.CtrlCmd | skynet-src/socket_server.c:977-1049 | each opcode has the effect of its handler on the slot table (`S` start, `B` bind, `L` listen, `K` close, `O` open, `D`/`P`/`A` send high, low and UDP, `C` set UDP address, `U` add UDP); only `X` exits; `T` and an unknown command change nothing |
| WriteBuffers.Moved | skynet-src/socket_server.c:507-523 | a write moves at most the bytes asked, and all of them exactly when it reports that many |
| WriteBuffers.Advance | skynet-src/socket_server.c:520-524 | a partial write advances the head buffer's pointer and shrinks its size by the same amount |
| WriteBuffers.DrainTcpShape | skynet-src/socket_server.c:503-532 | buffers leave only from the head and only when fully written; what is left is the list from some buffer on, that buffer possibly advanced |
| WriteBuffers.DrainTcpConserves | skynet-src/socket_server.c:503-532 | the bytes left plus the bytes written are the bytes there were |
| WriteBuffers.DrainTcpKeepsFresh | skynet-src/socket_server.c:503-532 | of a list of unwritten buffers, only the head can be left partly written |
| WriteBuffers.SendListTcp | skynet-src/socket_server.c:503-532 | the write loop computes the drain: EINTR retries, EAGAIN stops, another error fails, a short write stops |
| WriteBuffers.DrainUdpShape | skynet-src/socket_server.c:559-591 | whole datagrams leave from the head, and what is left is a suffix of the list |
| WriteBuffers.DrainUdpConserves | skynet-src/socket_server.c:559-591 | the bytes left plus the bytes sent are the bytes there were |
| WriteBuffers.SendListUdp | skynet-src/socket_server.c:559-591 | the send loop computes the drain, stopping at the first `sendto` that does not succeed |
| UdpAddress.GenUdpAddress | skynet-src/socket_server.c:1098-1113 | the tag, port and address take 7 bytes for IPv4 and 19 for IPv6 |
| UdpAddress.UdpSocketAddress | skynet-src/socket_server.c:535-556 | decodes exactly when the tag is the UDP socket's protocol, giving an address of that family |
| UdpAddress.GenThenDecode | skynet-src/socket_server.c:535-556 | decoding what `gen_udp_address` wrote gives the address back |
| UdpAddress.DecodeThenGen | skynet-src/socket_server.c:1098-1113 | encoding a decoded address gives back the buffer's meaningful prefix |
| UdpAddress.DecodeReadsPrefix | skynet-src/socket_server.c:535-556 | decoding reads only the first 7 bytes for IPv4 or 19 for IPv6 |

## Left out

- Locks, atomics and threads. Each locked operation is one sequential step. The retry after a failed compare-and-swap in `reserve_id` therefore never happens. The double check in `skynet_module_query` is the same as its first lookup.
- `skynet_context_new` as a whole is left out: its parts are modelled separately (module query, the context's initial fields, register, queue creation, release and retire). The init callback it calls is foreign code.
- `skynet_sendname`, `skynet_harbor_send` and global (harbor) names are left out. Whether a handle is remote is a boolean parameter.
- Payloads are opaque numbers. `skynet_free`, the allocator and the copy made for a message are not modelled. The copy's address is a parameter.
- The service callback `cb`, the logging of messages and `skynet_error` are left out. `dispatch_message` is reduced to the unpacking of type and size.
- The environment store behind `cmd_setenv` is left out. `SetEnvSplit` stops at the key/value split it would store. The other command bodies (timer, launch, kill, log, abort, monitor, mqlen) call code that is not part of this model; the command lookup reaches every entry.
- `drop_message`'s error reply to the sender is left out. Dropped messages are returned in order instead.
- `Server.Send`, `Server.FilterArgs`, `Server.Prepare`, `Server.SendThenDispatch`: the too-large check is modelled, but messages are built only for sizes below 2^24, which is what passes it. They build the size word with the corrected packing `Server.Pack`; as written, types 128-255 read back as the type minus 256 (see Findings, `Server.PackAsWrittenHighTypes`).
- `Server.DispatchQueue`: states the turn and the context's reference count. The monitor effects of the batch are stated on `Server.HeldTurn` instead.
- `Server.Batch`: weights are taken below 32. The worker weight table holds only -1 to 3 (skynet-src/skynet_start.c:204-208), and a shift by 32 or more is undefined in C.
- Sockets are values in the slot array, so the user object `soi` and the aliasing of the `p` union (read size and UDP address share memory) are not modelled. They are two fields.
- `open_socket` name resolution, `connect`, `socket`, `bind` and `listen` are outcome parameters. `socket_server_create`'s allocation and poll failures are left out.
- `socket_server_poll`, `report_connect`, `report_accept`, `forward_message_udp`, `has_cmd` and the pipe I/O are left out. They are driven by system calls and the event loop.
- `setopt_socket` only calls `setsockopt`, so it is modelled as changing nothing.
- `SocketServer.Sent`: the 64-bit `wb_size` and the `int` sizes are unbounded here, so their overflow is not modelled.
- `SocketServer.Server.SendSocket`, `SocketServer.Server.CtrlCmd`: besides the "not listening" assertion of `send_socket`, they require that a socket only reserved under the id is not sent to. The source does not check this; data queued there would break the assertion in `new_fd` that the lists are empty.
- `WriteBuffers.SendListTcp`, `WriteBuffers.SendListUdp`: when the listed I/O results run out, the list is left as on EAGAIN.
- `skynet_module_instance_release` (skynet-src/skynet_module.c:149-153) is only a null check before a call into the module's foreign release function, so it has no member of its own.
- `dlopen` and `dlsym` are maps given as parameters. The module's init callback (`skynet_module_instance_init`) and the create and release calls are foreign code.
- `ModuleRegistry.Candidate`: the fixed-size `tmp` buffer is a string here, so its size is not modelled.

## Findings

| source | as written | input that shows it | evidently intended | confidence | as-written member | corrected member |
|---|---|---|---|---|---|---|
| skynet-src/skynet_server.c:671 | `*sz \|= type << HANDLE_REMOTE_SHIFT` shifts a signed `int`, so type bytes 128-255 set the sign bit and `dispatch_message` reads the type back as a negative number | type 128 with size 0: the callback receives type -128 | the type byte travels in bits 24-31 and reads back unchanged | not executed | Server.PackAsWrittenType128 | Server.PackRoundTrip |
| skynet-src/socket_server.c:941-946 | when `new_fd` fails, `add_udp_socket` invalidates the slot but falls through to `ns->type = ...` with `ns == NULL` | any UDP add whose `sp_add` registration fails | return after invalidating the slot | not executed | SocketServer.AddUdpAsWrittenFaults | SocketServer.AddUdp |
