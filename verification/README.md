# RS-232 bridge of Hatari, modelled in Dafny

Hatari emulates an Atari ST. Its RS-232 bridge (`src/rs232.c`) connects the emulated serial port to a host file or device. This project models the sequential state of that bridge:

- **Connection lifecycle.** The `bConnectedRS232` flag and the open/closed `hCom` handle. `RS232_OpenCOMPort` and `RS232_CloseCOMPort` change them. `RS232_TransferBytesTo` opens the port lazily when RS-232 is enabled. `RS232_UnInit` closes it. `RS232_SetConfig` is a no-op.
- **Input ring buffer.** `InputBuffer_RS232` with `InputBuffer_Head` and `InputBuffer_Tail`. `RS232_AddBytesToInputBuffer` appends bytes at the tail. `RS232_ReadBytes` copies bytes out from the head. `RS232_GetStatus` reports waiting input. Both indices move with `(i + 1) % C`. Nothing checks occupancy, so an overrun or an underflow wraps silently. The lemmas state exactly what that does.

Files:

- `mod_arith.dfy` (module `ModArith`): `Slot(base, k, C)` is the index reached after `k` steps of `(i + 1) % C`. `Offset(base, p, C)` is the forward distance from `base` to `p`. The module also holds the modular-arithmetic lemmas the buffer proofs use.
- `ring_buffer.dfy` (module `RingBuffer`): the buffer as a value `Ring(buf, head, tail)`. It has functional definitions of appending (`Enqueue`) and reading (`Dequeue`), and the two copy loops of the source as methods (`CopyIn`, `CopyOut`). `Contents` is the sequence of unread bytes. Its lemmas cover FIFO order from any state and for any interleaving of arrivals and reads within capacity (`QueueOrder`), as well as wrap-around, overrun and underflow.
- `rs232.dfy` (module `Rs232`): the bridge state `Bridge(connected, handleOpen, input, hostOut)` and one function per public operation.

Abstractions:

- The capacity `MAX_RS232INPUT_BUFFER` is defined in `rs232.h`, which is not part of this model. The capacity is therefore the length `C = |buf|` of the buffer sequence. Every result holds for any `C > 0`.
- The host file is abstracted. Whether `fopen` succeeds is the parameter `fopenOk`. The configuration's enable flag is the parameter `enabled`. Everything `fwrite` delivers is appended to `hostOut`.
- One pass of the reader thread is `ReaderStep`. It receives either end-of-file or one incoming byte, modelling one `fgetc`.
- The USART control bits for the default configuration (`UCR_1STOPBIT | UCR_PARITY | UCR_ODDPARITY`) are also defined in `rs232.h`. Their values here are assumed from the bit layout documented above `RS232_SetConfig` (src/rs232.c:137-149), which does not say which digit of the stop-bit field is bit 3. `SetConfig` ignores its arguments, so nothing depends on these values.

The model follows the code as written, also where a safer design would differ:

- Reading neither truncates nor fails on an empty or short buffer. It copies stale bytes and moves the head past the tail.
- Appending has no overflow policy.
- The reader thread is never started, because the body of `RS232_Init` is disabled with `#if 0`.
- No locking exists.

## Model

| member | source | states |
|---|---|---|
| Rs232.Initial | src/rs232.c:36-41 | At start the flag is FALSE and there is no handle. Head and tail are 0, the C-byte array is all zeros (a file-scope C array), and nothing has been written to the host. |
| Rs232.SetConfig | src/rs232.c:152-197 | Configuring the line changes no state, whatever the baud, control and USART arguments. |
| Rs232.OpenComPort | src/rs232.c:81-106 | Returns the new connected flag, which is the `fopen` outcome. On success the bridge is connected with an open handle. On failure it is disconnected with no handle. The buffer and host output are untouched. |
| Rs232.CloseComPort | src/rs232.c:113-126 | Always ends disconnected. If connected, it also releases the handle. If already disconnected, it is the identity. The buffer and host output are untouched. |
| Rs232.CloseIdempotent | src/rs232.c:113-126 | Closing twice has the same effect as closing once. |
| Rs232.OpenThenCloseRestores | src/rs232.c:81-126 | From a consistent disconnected state, opening (whether `fopen` succeeds or not) and then closing restores the state exactly. |
| Rs232.UnInit | src/rs232.c:63-74 | Shutdown always ends disconnected. From a consistent state it also ends with no handle. Buffer and host output are unchanged. |
| Rs232.TransferBytesTo | src/rs232.c:204-230 | Succeeds iff it was connected, or RS-232 is enabled and the lazy open succeeds. Success always coincides with ending connected. On success the host output grows by exactly the given bytes, in order; on failure nothing is written. Disconnected and disabled: it fails and the state is unchanged. The input buffer is never touched. |
| Rs232.DisabledStaysDisconnected | src/rs232.c:207-212 | With RS-232 disabled, any number of transfers from a disconnected bridge leave it exactly as it was: never connected, nothing sent. |
| Rs232.AddBytesToInputBuffer | src/rs232.c:280-290 | Appends at the tail as described by `Appended`, with no full check. Connection, handle and host output are unchanged. |
| Rs232.ReadBytes | src/rs232.c:237-254 | Disconnected: returns FALSE and changes neither the state nor the caller's buffer. Connected: returns TRUE, puts into caller slot k the byte k steps past the old head, leaves later slots alone, and advances head by n modulo C (a negative n reads nothing). The caller's buffer must hold n bytes only when connected. It never checks n against occupancy. Tail and contents are unchanged. |
| Rs232.GetStatus | src/rs232.c:261-273 | TRUE iff connected and occupancy (tail - head) mod C is non-zero. |
| Rs232.ReaderStep | src/rs232.c:305-320 | With a handle open, an incoming byte is appended at the tail. At end-of-file, or with no handle, the state is unchanged. |
| Rs232.StatusAfterAdd | src/rs232.c:261-290 | On a connected bridge with an empty buffer, after bytes are added, input is reported iff their number is not a multiple of C. |
| Rs232.AddExtendsContents | src/rs232.c:280-290 | Whatever is already unread, bytes added while the total stays below C are appended after the unread bytes. |
| Rs232.ReadTakesOldest | src/rs232.c:241-250 | Connected, reading n bytes with n at most the unread count returns the oldest n unread bytes in order. The remaining unread bytes stay, in order. |
| Rs232.BridgeFifo | src/rs232.c:241-290 | Connected with an empty buffer: adding up to C bytes and reading that many returns TRUE and exactly those bytes, and no input is reported afterwards. |
| Rs232.ReaderScenario | src/rs232.c:237-290 | Bytes 0x10, 0x20, 0x30 arrive one at a time. Input is reported after the first arrives. Reading 2 yields 0x10 0x20, and a further read of 1 yields 0x30. No input is reported afterwards. |
| RingBuffer.EnqueueAppends | src/rs232.c:285-289 | Appending s writes byte k at slot (tail + k) mod C. The last min(len(s), C) bytes survive, and slots not reached keep their bytes. Tail becomes (tail + len(s)) mod C and head is unchanged. |
| RingBuffer.PushExtends | src/rs232.c:287-288 | One loop iteration (store at tail, advance tail) extends the append relation by one byte. |
| RingBuffer.AppendedUnique | src/rs232.c:285-289 | The append relation fixes the resulting buffer completely, so two rings satisfying it are equal. |
| RingBuffer.CopyIn | src/rs232.c:284-289 | The imperative copy-in loop satisfies the append relation and equals `Enqueue`. |
| RingBuffer.Dequeue | src/rs232.c:245-249 | Reading n bytes returns, at position k, the byte k slots past the head. Head becomes (head + n) mod C, and tail and contents are unchanged. |
| RingBuffer.CopyOut | src/rs232.c:245-249 | The imperative copy-out loop fills the first n caller slots from the head in order, leaves the rest unchanged, advances the head by n modulo C, and agrees with `Dequeue`. |
| RingBuffer.EnqueueConcat | src/rs232.c:285-289 | Appending s and then t equals appending s + t. Byte-at-a-time arrivals equal one bulk append. |
| RingBuffer.FifoRoundTrip | src/rs232.c:245-289 | Empty ring, s with at most C bytes: appending s and reading the same number returns s in order, and the ring is empty again. |
| RingBuffer.DequeueContents | src/rs232.c:245-249 | Reading n bytes, with n at most the occupancy, returns the first n unread bytes. Occupancy drops by n, and the unread bytes become the remaining suffix. |
| RingBuffer.UnreadByteSurvives | src/rs232.c:285-289 | An append that keeps the total below C never overwrites a byte that was still unread. |
| RingBuffer.EnqueueContents | src/rs232.c:285-289 | From any state, an append of s that keeps the total below C grows occupancy by len(s), and the unread bytes become the old unread bytes followed by s. |
| RingBuffer.QueueOrder | src/rs232.c:245-289 | For any interleaving of arrivals and reads that neither overruns nor underflows: the bytes read, followed by those still unread, equal the bytes unread at the start followed by every byte that arrived. |
| RingBuffer.OccupancyAfterAppend | src/rs232.c:285-289 | After appending s to an empty ring, occupancy is len(s) mod C, not len(s). |
| RingBuffer.FullCycleLooksEmpty | src/rs232.c:285-289 | Appending exactly C bytes to an empty ring stores all of them, yet leaves head = tail, so the ring reads as empty. |
| RingBuffer.OverrunKeepsNewest | src/rs232.c:285-289 | Appending between C and 2C - 1 bytes to an empty ring loses the first C bytes silently. Occupancy is len(s) - C, and reading that many returns the last len(s) - C bytes. |
| RingBuffer.UnderflowReportsPhantomBytes | src/rs232.c:245-249 | Reading n bytes (0 < n < C) from an empty ring moves head past tail, after which C - n unread bytes are reported. |

## Left out

- `RS232_ThreadFunc`'s endless polling loop and its `SDL_Delay` pauses. Only one pass is modelled, as `ReaderStep`, because the rest is timing and concurrency.
- `RS232_Init`: its body is disabled by `#if 0`, so it does nothing.
- The thread kill in `RS232_UnInit`. `UnInit` models only the close.
- Races between the reader thread and the emulator thread. The source has no locking, and the model is sequential.
- Rs232.TransferBytesTo: models `fwrite` as writing every byte. The source returns TRUE even when `fwrite` writes nothing; such a short write would append fewer bytes to `hostOut`.
- `fflush` and `fclose`: host I/O with no effect on the modelled state.
- Rs232.OpenComPort: calling it while a handle is already open leaks that handle in the source. This is not modelled, because the bridge only opens from a disconnected state.
- The commented-out Windows DCB line-control code in `RS232_SetConfig`: it is dead code, so `SetConfig` is a no-op.
- `Dprintf` debug output and the commented-out status-bar icon update: they have no effect on the state.
- Rs232.AddBytesToInputBuffer: the byte count is the length of the byte sequence, so a negative `nBytes` (which copies nothing in the source) is not separately represented.
