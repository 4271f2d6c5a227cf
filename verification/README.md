# snotstream core, modelled in Dafny

This project models three sequential pieces of the snotstream network
monitor and proves properties about them:

- **The fixed-capacity ring buffer** (`ringbuf.c`). It has `num_keys`
  slots, a `write` cursor, a `read` cursor and a `fill` count. Records are
  queued through `ringbuf_push` and `ringbuf_pop`. They are addressed
  directly through `ringbuf_insert` and `ringbuf_get`, which bypass the
  cursors but share the fill count. Module `RingBuffer` (ringbuf.dfy) holds
  the operations. Module `RingBufferFifo` (ringbuf_fifo.dfy) proves that
  push/pop use refines a bounded FIFO queue.
- **The doubly-linked node utility** (`lib/node/node.c`). Memory is an
  arena `map<NodeId, Node>`, and each operation performs the source's field
  writes in the source's order. Module `NodeList` (node.dfy) holds the
  relinking. Module `NodeChain` (node_chain.dfy) defines a well-formed list
  (`IsChain`) and states each operation as an edit of the list's sequence.
  It also holds the walks `nd_first`, `nd_last` and `nd_destroy`, which
  terminate because a chain has no cycle.
- **Controller admission** (`monitor.c`). The `have_controller` flag, the
  global controller record, and the `listener_cb`, `eventcb` and `readcb`
  callbacks form a pure state machine in module `Monitor` (monitor.dfy).
  The C string handling it relies on (50-character buffers, `strncpy`,
  `strncmp`) is in module `CString` (cstring.dfy).

The event loop's effects are data. A handle is an opaque identity, and
`NullBev` stands for a failed `bufferevent_socket_new`. Freeing a handle adds
it to the `freed` multiset. Writing the welcome line adds the handle and the
bytes written to `welcomed`. An accepted socket descriptor that no handle takes
over (a refused accept, or one whose `bufferevent_socket_new` failed) is never
closed; it is added to the `leaked` multiset. `event_base_loopbreak` sets
`loopBreak`.

The model follows the code, including these behaviours a caller might not
expect:

- `ringbuf_isfull` tests `write == read && fill != 0`, not `fill == N`. One
  direct insert into a fresh buffer therefore makes it report full
  (`OneInsertReportsFull`).
- `ringbuf_insert` consults `overwrite` only when the buffer reports full.
  In a buffer that is not full, an occupied slot is replaced without it
  (`InsertReplacesWithoutOverwrite`).
- `ringbuf_get` tests the out-pointer itself against NULL, so it returns
  0 even when the slot is empty.
- `eventcb` clears `have_controller` only on EOF. An error without EOF on
  the controller frees its handle but keeps the flag, so every later accept
  is refused (`ErrorWithoutEofKeepsFlag`).
- `readcb` sends the welcome line on every read of the controller, not only
  the first (`WelcomeOnEveryRead`).

Return codes are kept as in C. Push and pop return 1 on success and 0 on
failure. Insert returns 0 on success and 1 on failure.

## Model

| member | source | states |
|---|---|---|
| RingBuffer.Init | ringbuf.c:8-21 | a new buffer has `num_keys` empty slots, both cursors and fill at 0, and reports empty and not full |
| RingBuffer.FullAndEmptyExclusive | ringbuf.c:48-53 | of the predicates IsFull and IsEmpty: full means the cursors meet with a non-zero fill; empty means they meet with fill 0; never both |
| RingBuffer.Loc | ringbuf.c:83 | the slot an index addresses lies inside the slot array, and an index below `num_keys` addresses itself |
| RingBuffer.Push | ringbuf.c:55-66 | returns 0 and changes nothing when full; otherwise stores the record at `write`, advances `write` modulo N, adds 1 to fill, keeps `read` and every other slot, and returns 1 |
| RingBuffer.Pop | ringbuf.c:67-81 | returns 0 and leaves buffer and destination alone when empty; otherwise hands out the slot under `read` (possibly empty), empties it, advances `read` modulo N, takes 1 from fill, and returns 1 |
| RingBuffer.Get | ringbuf.c:96-100 | yields the slot the index addresses and always returns 0 |
| RingBuffer.Insert | ringbuf.c:82-95 | never moves the cursors; full without overwrite returns 1 and changes nothing; otherwise a later get of the index yields the record, no other slot changes, fill grows by 1 only if the slot was empty, and it returns 0 |
| RingBuffer.Clear | ringbuf.c:24-36 | every slot empty, both cursors and fill at 0, capacity kept |
| RingBuffer.OneInsertReportsFull | ringbuf.c:84-91 | one insert into a fresh buffer makes fill 1, the buffer reports full, and the next push is refused |
| RingBuffer.InsertReplacesWithoutOverwrite | ringbuf.c:85-92 | in a buffer that is not full, insert without overwrite replaces an occupied slot and keeps fill |
| RingBuffer.InsertKeepsAccounted | ringbuf.c:86-91 | insert keeps fill equal to the number of occupied slots |
| RingBuffer.PushAccounted | ringbuf.c:57-63 | a successful push keeps fill equal to the occupied count exactly when the slot under `write` was empty |
| RingBuffer.PopAccounted | ringbuf.c:69-78 | a successful pop keeps fill equal to the occupied count exactly when the slot under `read` was occupied |
| RingBufferFifo.InitHoldsEmpty | ringbuf.c:15-18 | a fresh buffer holds the empty queue |
| RingBufferFifo.HoldsFullEmpty | ringbuf.c:48-53 | on a ring holding a queue, full means the queue has N records and empty means it has none |
| RingBufferFifo.PushHolds | ringbuf.c:55-66 | a push with room appends the record to the held queue and returns 1 |
| RingBufferFifo.PopHolds | ringbuf.c:67-81 | a pop from a non-empty ring hands out the queue's front and holds the rest |
| RingBufferFifo.StepRefines | ringbuf.c:55-81 | each push or pop answers and moves exactly like a bounded queue of capacity N |
| RingBufferFifo.RunRefines | ringbuf.c:55-81 | any sequence of pushes and pops agrees with the bounded queue, reply by reply |
| RingBufferFifo.FillBounded | ringbuf.c:55-81 | from a fresh buffer, fill stays in 0..N and equals successful pushes minus successful pops |
| RingBufferFifo.FifoRoundTrip | ringbuf.c:55-81 | pushing k ≤ N records into a fresh buffer and popping k times returns them in push order and leaves fill at 0 |
| RingBufferFifo.CapacityThreeScenario | ringbuf.c:55-81 | capacity 3: push A B C, push D refused, pop A, push D, pop B C D, a further pop refused |
| NodeList.Make | lib/node/node.c:5-11 | a fresh cell holds the data with no head or tail; no other cell changes |
| NodeList.Rem | lib/node/node.c:13-23 | the former head's tail becomes the node's tail, the former tail's head becomes its head, the node is returned and nothing else changes |
| NodeList.Free | lib/node/node.c:25-33 | unlinks as Rem does, removes the node from the arena, and returns its former tail |
| NodeList.Append | lib/node/node.c:58-70 | the node's tail becomes the new cell, whose head is the node and whose tail is the node's former tail; that former tail points back to the new cell |
| NodeList.Prepend | lib/node/node.c:72-84 | the node's head becomes the new cell, whose tail is the node and whose head is the node's former head; that former head points forward to the new cell |
| NodeChain.LinksAgree | lib/node/node.c:58-84 | within a chain `x.tail == y` exactly when `y.head == x`, and a tail link goes only one step forward |
| NodeChain.MakeChain | lib/node/node.c:5-11 | the fresh cell is a one-element chain and every existing chain survives |
| NodeChain.RemChain | lib/node/node.c:13-23 | on a chain, the rest is the old sequence without the node, the node keeps its own links, and other cells are untouched |
| NodeChain.FreeChain | lib/node/node.c:25-33 | on a chain, the node leaves the arena, the rest is the old sequence without it, and the result is the next cell if any |
| NodeChain.AppendChain | lib/node/node.c:58-70 | on a chain, an outside cell is inserted right after the node and every other cell keeps its place |
| NodeChain.PrependChain | lib/node/node.c:72-84 | on a chain, an outside cell is inserted right before the node and every other cell keeps its place |
| NodeChain.Last | lib/node/node.c:42-48 | following tails from any cell of a chain ends at the chain's last cell, which has no tail |
| NodeChain.First | lib/node/node.c:50-56 | following heads from any cell of a chain ends at the chain's first cell, which has no head |
| NodeChain.Destroy | lib/node/node.c:35-40 | the walk terminates; the node and every cell after it leave the arena; the cells before it remain a chain; every remaining cell keeps its data, and cells outside the chain are untouched |
| CString.Strncpy | monitor.c:157-158 | copying `strlen(src)` characters puts `src` at the front and leaves the rest of the buffer alone |
| CString.StrncpyFits | monitor.c:155-158 | a zeroed buffer with room for a terminator, after the copy, holds exactly the copied string |
| CString.StrnEqPrefix | monitor.c:175 | StrnEq, the model of `strncmp(...) == 0`: strncmp against a literal with no NUL matches exactly when the buffer starts with the literal's characters |
| Monitor.ZeroCon | monitor.c:33 | the zero-initialised global controller record has no handle and reads back an empty name and host |
| Monitor.Initial | monitor.c:33-34 | at start no controller is held, the controller record has no handle and an empty name (so it fails the controller test), and nothing is freed, written or leaked |
| Monitor.SetupCon | monitor.c:153-160 | keeps the handle, sets the port, zero-fills both buffers apart from the copied name and host, and a name or host shorter than 50 reads back unchanged |
| Monitor.IsControllerPrefix | monitor.c:175 | the controller test IsController, shared by eventcb and readcb, holds exactly when the name buffer begins with "Controller" |
| Monitor.ListenerCb | monitor.c:126-151 | refused while a controller is held, changing nothing but leaving the accepted socket open; otherwise the record takes the handle and the name "Controller", and the flag rises on success or the loop is asked to break on failure; the socket is leaked exactly when the accept is refused or no handle was built |
| Monitor.EventCb | monitor.c:162-182 | a connected event changes nothing; any other event frees the record's handle once; the flag is cleared only by EOF on a record named "Controller" and is never raised |
| Monitor.WelcomeLength | monitor.c:188 | the welcome line is exactly the 21 bytes written |
| Monitor.ReadCb | monitor.c:184-191 | a record named "Controller" is sent the whole welcome line (its first 21 bytes) on that read; other records are sent nothing; the flag, controller and sockets are untouched |
| Monitor.StepReleases | monitor.c:174-177 | while a controller is held, an event clears the flag exactly when it is an EOF on a record named "Controller" |
| Monitor.StepAdmits | monitor.c:128-146 | only an accept while no controller is held changes the controller record, and only an accept with a built handle raises the flag |
| Monitor.HeldUntilReleased | monitor.c:128-131 | once a controller is held, no run of events admits another or changes its record until a releasing EOF |
| Monitor.StepNamed | monitor.c:138-146 | every callback keeps the held controller record named like the controller |
| Monitor.RunNamed | monitor.c:174-177 | over any run, a held controller keeps its name, so its own EOF would release it |
| Monitor.ReachableReleasable | monitor.c:33-34 | on every run from process start, an EOF on the held controller clears the flag |
| Monitor.SecondControllerWaitsForEof | monitor.c:126-182 | a second connection is refused while the first is held and its socket is left open, and a third is admitted after the first's EOF |
| Monitor.ErrorWithoutEofKeepsFlag | monitor.c:170-180 | an error without EOF on the controller frees its handle but keeps the flag for any run without a release |
| Monitor.FailedAcceptBreaksLoop | monitor.c:138-145 | a failed accept leaves no controller held, still names the record "Controller", leaves the socket open, and asks the loop to break |
| Monitor.ControllerReadStep | monitor.c:187-189 | one read of the controller adds one welcome line for its handle and changes nothing else |
| Monitor.WelcomeOnEveryRead | monitor.c:187-191 | k reads of the controller send the welcome line k times |
| Monitor.MonitoredNamesNeverRelease | monitor.c:70-71 | the two configured monitored records are not named like the controller, so their EOF never clears the flag |

## Left out

- `ringbuf_status` only prints the buffer's fields.
- Allocation failure in `ringbuf_init` and `nd_make` (a NULL `malloc` result) is not modelled.
- Push copies only a pointer's width of the record into a fresh allocation. The model stores whole records.
- The pointer-sized `memset` in `ringbuf_init` and its uninitialised slot array are not modelled. Slots start empty.
- RingBuffer.Clear: the source also releases the slot array, so any later use of the buffer is a use after free. The model keeps the emptied slots.
- The fill counter's C type is declared in ringbuf.h, which is not part of this model. Fill is an unbounded integer. Mixing insert with pop can take it below zero, where an unsigned C counter would wrap instead. The source only ever compares fill with 0, so the two agree until the counter has been moved by a whole multiple of its range.
- RingBuffer.Insert: a NULL key, which C would store while still counting it, is not modelled. Keys are always records.
- RingBuffer.Insert and RingBuffer.Get: the model covers only `elem >= 0`. What `elem % rb->num_keys` does for a negative `elem` depends on the type of `num_keys`, which is declared in ringbuf.h, not part of this model. A signed `num_keys` gives a slot index in `-(num_keys-1)..0`, because C's `%` truncates toward zero; the index is negative and outside the array unless `elem` is a multiple of `num_keys`, when it is slot 0. An unsigned long `num_keys` converts `elem` to unsigned and addresses a defined slot.
- Every ring operation requires `num_keys > 0`. With 0 slots, push and insert divide by zero.
- RingBuffer.Loc: the contract gives only the range and the identity below `num_keys`, not periodicity.
- NodeList.Rem: on an arbitrary arena the contract leaves out aliased cases, where `nd` is its own neighbour or its head and tail are the same cell. NodeChain.RemChain states the full effect on well-formed lists.
- NodeList.Append: the contract leaves out aliased cases, where `c` is `nd` or is already its tail, or `nd` is its own tail. NodeChain.AppendChain states the full effect on well-formed lists.
- NodeList.Prepend: the contract leaves out aliased cases, where `h` is `nd` or is already its head, or `nd` is its own head. NodeChain.PrependChain states the full effect on well-formed lists.
- NodeList.Free: releasing the node's `data` is not modelled. Data is a value.
- `nd_get_nth` advances its pointer by raw address arithmetic and never counts its steps.
- `nd_reverse` dereferences `first->tail` without a NULL check.
- Monitor.SetupCon requires names and hosts of at most 50 characters. The source's unbounded `strncpy` overruns the buffer for longer ones.
- `have_controller` is a boolean. The source only ever assigns it 0 or 1.
- Event bits are booleans (connected, EOF, error). Their numeric values come from libevent headers, which are not part of this model.
- Event-base configuration, DNS dialing of the monitored connections, listener binding, the SIGINT handler and loop exit are I/O in `main` and `signalcb`. They are not modelled.
- `readcb` drains its input and copies it to standard output. This and every `printf` log line are I/O and are not modelled.
- monitor.c has no per-connection lifecycle state; each data_con holds only a handle, name, host and port. Only the controller record is part of the modelled state; a monitored record travels with its event.
- Monitor.Run keeps delivering events after `loopBreak` is set. In the source `event_base_loopbreak` ends the dispatch loop and `main` then cleans up and returns (monitor.c:116-123). The model's runs therefore include more than the reachable ones, so every lemma about all runs still holds of the source.
- `fakedata.c` is a stand-alone TCP responder (network I/O only).
- `snotstream.h` declares packet sizes from headers that are not part of this model, plus an HTTP client handle.
