# SPP session layer: a Dafny model

This project models the session layer that sits between an ESP32 Bluetooth
Serial Port Profile (SPP) stack and an application that wants plain byte-stream
reads and writes (`src/spp_user_hdr.c`). The layer has three parts:

- a table of `OPEN_HDR_NUM` = 8 connection records. Each record has an in-use flag, a
  six-byte device address and a 32-bit connection handle;
- a default send target (`_spp_send_hdl`, where 0 means none), with a
  first-opened-wins policy;
- one receive stream buffer of `SPP_RECV_BUFF_SIZE` = 2048 bytes, shared by
  all connections. Stack callbacks push into it and the application polls it.

The state is an immutable record `Session(slots, sendTarget, recv)`. Every
handler and application call is a pure function from one state to the next.
Each call counts as one atomic step. Calls the layer makes into the stack
(`esp_spp_write`, `esp_spp_disconnect`) are returned as a list of `Call`
values. Events outside the layer's control are parameters:

- the status the stack's send reports (`Status`);
- whether creating the stream buffer succeeds (`allocOk`).

Files:

- `types.dfy` (`SppTypes`): handle, byte, address, `Option`, `Status` and `Call`.
- `slot_table.dfy` (`SlotTable`): the record type, the two linear scans, occupancy
  counting and the close-all loop.
- `recv_buffer.dfy` (`RecvBuffer`): the contract of the stream buffer. It is a bounded
  FIFO with a truncating, non-blocking send and a non-blocking receive.
- `session.dfy` (`SppSession`): the handlers (`OnOpen`, `OnClose`, `OnRead`, and
  the no-op hooks `OnWriteDone` and `OnCongestion`), the application calls (`Init`,
  `Read`, `Write`, `CloseAll`) and the event-driven state machine (`Step`, `Run`).
- `session_properties.dfy` (`SessionProperties`): invariants and multi-step properties.
- `scenarios.dfy` (`Scenarios`): two concrete event sequences.

Behaviour of the code that the model keeps as it is:

- The send target is meant to name an open connection or be none, and open
  and close keep it that way. `spp_close_all_handle` frees every record
  without clearing the target. The model keeps this behaviour. `TargetTracked`
  is proved for every run without close-all (`RunKeepsInvariants`).
  `CloseAllStrandsTarget` shows how close-all breaks it. After close-all, a
  close event for the stale handle finds no record and changes nothing, and
  writes still go to that handle.
- `spp_user_init` returns nothing. A failed creation leaves the buffer absent,
  and `Init` models exactly that.
- Releasing a record clears only its in-use flag. The stale address and handle stay
  in the record.
- Opening a connection whose handle is 0 takes a record. That connection can never
  become the send target, because 0 is the "none" value.

## Model

| member | source | states |
|---|---|---|
| SlotTable.ScanFree | src/spp_user_hdr.c:59-64 | The open handler's scan stops at the first unused record from its start index. It returns the table size only when every record from there on is in use. |
| SlotTable.ScanHandle | src/spp_user_hdr.c:92-97 | The close handler's scan stops at the first in-use record with the given handle. It returns the table size only when no such record follows. |
| SlotTable.ScanFreeFindsLowest | src/spp_user_hdr.c:59-68 | A full scan runs off the end exactly when the table is full. Otherwise it returns the unique lowest free index. |
| SlotTable.ScanHandleFindsFirst | src/spp_user_hdr.c:92-101 | A full handle scan runs off the end exactly when the handle is not open. Otherwise it returns the unique first matching index. |
| SlotTable.InUseCountUpdate | src/spp_user_hdr.c:71-73 | Overwriting one record changes the occupancy count only by that record's in-use flag. |
| SlotTable.FullIffCountIsSize | src/spp_user_hdr.h:10 | The table is full exactly when the number of in-use records equals its size. |
| SlotTable.Disconnects | src/spp_user_hdr.c:223-230 | Reference teardown traffic: one disconnect per in-use record, in table order. Its length is the occupancy count. |
| SlotTable.CloseFrom | src/spp_user_hdr.c:223-230 | The close-all loop leaves records before the start index alone. Every later record ends up free with its address and handle kept. The calls it issues are exactly the reference disconnects. |
| SlotTable.DisconnectsNameOpenHandles | src/spp_user_hdr.c:224-227 | Every disconnect that close-all issues names a connection that was open. |
| RecvBuffer.Push | src/spp_user_hdr.c:127-131 | The accepted bytes are a prefix of the input, appended after the old contents. The bound of 2048 is kept. Bytes are dropped only when the buffer is then full. Nothing is dropped when everything fits. |
| RecvBuffer.Pop | src/spp_user_hdr.c:207-208 | The returned bytes followed by the remaining contents give back the old contents. At most `max_len` bytes are returned, and fewer only when the buffer is drained. |
| RecvBuffer.FifoOrder | src/spp_user_hdr.c:119-131 | After pushing bytes that fit, draining returns the old contents first and then exactly the pushed bytes. |
| RecvBuffer.PushPopRoundTrip | src/spp_user_hdr.c:200-208 | Bytes pushed into an empty buffer come back unchanged, and the buffer is left empty. |
| RecvBuffer.PopTwice | src/spp_user_hdr.c:207 | Two successive reads return the same bytes, and leave the same remainder, as one read of the combined length. |
| RecvBuffer.OverflowKeepsOldContents | src/spp_user_hdr.c:127-131 | A full buffer accepts 0 bytes and keeps its contents: the new data is dropped, not the old. |
| SppSession.OnOpen | src/spp_user_hdr.c:55-83 | A full table leaves the whole state unchanged. Otherwise the lowest free record receives the address and handle, and every other record is unchanged. The target becomes the handle only when it was none. |
| SppSession.OnClose | src/spp_user_hdr.c:88-112 | A handle that is not open leaves the whole state unchanged, target included. Otherwise only the first matching record is freed. The target is cleared exactly when it equals the handle. |
| SppSession.OnRead | src/spp_user_hdr.c:117-133 | Without a buffer nothing changes. Otherwise a prefix of the data is appended to the buffer, and the table and target are untouched. The prefix is all of the data unless the buffer then reaches 2048 bytes, and a bounded buffer stays within 2048 bytes, so exactly the bytes that fit are stored. |
| SppSession.OnWriteDone | src/spp_user_hdr.c:138-144 | The write-complete hook leaves the whole state unchanged. |
| SppSession.OnCongestion | src/spp_user_hdr.c:148-154 | The congestion-change hook leaves the whole state unchanged. |
| SppSession.Init | src/spp_user_hdr.c:159-175 | An existing buffer is left alone. An absent buffer becomes an empty one exactly when creation succeeds. |
| SppSession.Read | src/spp_user_hdr.c:200-209 | Without a buffer it returns nothing and changes nothing. Otherwise the returned bytes are the oldest ones, at most `max_len` of them, and they are removed. |
| SppSession.Write | src/spp_user_hdr.c:180-195 | Without a target there is no stack call and the result is 0. Otherwise there is exactly one send of the full data to the target, and the result is the full length. |
| SppSession.CloseAll | src/spp_user_hdr.c:214-236 | Every record ends up free with its address and handle kept. One disconnect is issued per in-use record, in table order. The target and buffer are untouched. |
| SessionProperties.InitialIsSound | src/spp_user_hdr.c:41-49 | The zero-initialised state has no record in use and satisfies both invariants. |
| SessionProperties.StepKeepsBufferBounded | src/spp_user_hdr.c:37 | Every event, close-all included, keeps the buffer within 2048 bytes. |
| SessionProperties.OpenKeepsTargetTracked | src/spp_user_hdr.c:65-79 | Open keeps the target pointing at an open connection. |
| SessionProperties.CloseKeepsTargetTracked | src/spp_user_hdr.c:98-110 | Close keeps the target pointing at an open connection. |
| SessionProperties.StepKeepsTargetTracked | src/spp_user_hdr.c:55-112 | Every event other than close-all keeps the target pointing at an open connection. |
| SessionProperties.RunKeepsInvariants | src/spp_user_hdr.c:55-209 | Along any event sequence without close-all, the buffer bound and the target invariant hold at every state reached. |
| SessionProperties.RunKeepsBufferBounded | src/spp_user_hdr.c:117-133 | The buffer bound holds along every event sequence. |
| SessionProperties.CloseAllStrandsTarget | src/spp_user_hdr.c:223-230 | After close-all a set target names no open connection. A close event for it changes nothing, and writes are still sent to it. |
| SessionProperties.TargetClearedOnlyByOwnClose | src/spp_user_hdr.c:107-110 | A set target changes only when a close event arrives for that handle while it is open, and it then becomes none. |
| SessionProperties.TargetSetOnlyByOpen | src/spp_user_hdr.c:76-79 | An empty target is set only by an open that finds a free record, and it is set to that open's handle. |
| SessionProperties.ZeroHandleNeverTarget | src/spp_user_hdr.c:76-77 | Opening a connection with handle 0 never changes the target. |
| SessionProperties.LaterOpenKeepsTarget | src/spp_user_hdr.c:76 | While a target is set, no open replaces it. |
| SessionProperties.WriteIgnoresStatus | src/spp_user_hdr.c:188-194 | The result of a write and the calls it makes do not depend on the send status. |
| SlotTable.NoneInUseCountsZero | src/spp_user_hdr.c:49 | A table with no record in use has occupancy 0. |
| SessionProperties.OpenCount | src/spp_user_hdr.c:59-73 | An open raises the occupancy by exactly one unless the table is full. |
| SessionProperties.CloseCount | src/spp_user_hdr.c:92-105 | A close lowers the occupancy by exactly one when the handle is open, and leaves it unchanged otherwise. |
| SessionProperties.OpensFillTable | src/spp_user_hdr.c:59-73 | Opens that fit in the free capacity all succeed, each in a record of its own. |
| SessionProperties.OpenAtCapacityRejected | src/spp_user_hdr.c:65-68 | With all 8 records in use, an open leaves the whole state unchanged. |
| SessionProperties.OpenBeyondCapacityRejected | src/spp_user_hdr.c:65-68 | Once opens have filled all 8 records, the next open changes nothing. |
| SessionProperties.CloseAllEmptiesTable | src/spp_user_hdr.c:223-230 | After close-all no record is in use, and exactly as many disconnects were issued as records were open. |
| SessionProperties.SharedBufferConcatenates | src/spp_user_hdr.c:125-127 | Data from two different connections is appended, one after the other, to the one shared buffer. |
| SessionProperties.OnReadStoresWhatFits | src/spp_user_hdr.c:119-131 | On a buffer within its bound, a read event stores exactly the first min(len, 2048 - occupancy) bytes after the old contents, and drops the rest. |
| SessionProperties.ReceiveThenReadRoundTrip | src/spp_user_hdr.c:117-208 | Received bytes that fit are read back after the bytes already buffered, in order, and the buffer is left empty. |
| SessionProperties.InitIdempotent | src/spp_user_hdr.c:163-164 | Once the buffer exists, calling init again changes nothing. |
| Scenarios.FirstOpenedWinsScenario | src/spp_user_hdr.c:76-110 | Open 1 and open 2 give target 1. Closing 1 gives no target and a write sends nothing. A later open of 3 gives target 3, not 2. |
| Scenarios.DrainInPiecesScenario | src/spp_user_hdr.c:200-208 | After 100 bytes are received, a read of 50 and then a read of 100 return the two halves in order. |

`Step` and `Run` only dispatch events to the members above and fold over them.

## Left out

- FreeRTOS stream-buffer internals: only the buffer's contract is modelled. That contract is a bounded FIFO, with a non-blocking, truncating send and a non-blocking receive.
- `esp_spp_write` and `esp_spp_disconnect` themselves. They appear only as `Call` values, and the send status is a parameter.
- All `ESP_LOG*` logging, including the overflow warning in the read handler.
- The `volatile` qualifiers and any concurrency between callback and application contexts. Every call is modelled as one atomic step.
- The unused send stream buffer and sending flag (src/spp_user_hdr.c:42-43), the unused `fd` parameter of the open handler, and the `#if 0` trace-level code in close-all.
- The read handler's `int len`. It is taken as the length of the data, so it is never negative.
- Separate length arguments for `spp_write` and `spp_read`. The model uses the length of the data sequence, and the returned data stands for the caller's output buffer.
- `size_t` and `int` widths: lengths are unbounded naturals, so a length that does not fit in 32 bits is not modelled.
