# meinheld non-blocking socket core, in Dafny

meinheld's `nsocket` object (`meinheld/server/socket.c`) gives a greenlet a
blocking-looking `recv(n)` and `send(bytes)` on a non-blocking descriptor.
`recv_ready` and `send_ready` set up the socket's in-flight buffer, register
the descriptor with the picoev reactor, and switch to the hub. The reactor
then calls `recv_inner` or `send_inner` on every readiness or timeout event.
Each call makes at most one `read`/`write`, moves the buffer's cursor, and
either waits for the next event or switches back to the connection with a
result or an error.

The model has five modules:

- `Kernel` (kernel.dfy): bytes, errno, and the result of one `read`/`write`.
  That result is `Failed(errno)` (the call returned -1) or `Transferred(value)`.
  Its value is a byte count for `write` and the bytes for `read`.
  EAGAIN/EWOULDBLOCK use their Linux value, 11.
- `Reactor` (kernel.dfy): the event bits a callback receives (READ, WRITE,
  TIMEOUT), the registered interest, and the two idle timeouts the file uses:
  5 seconds for recv and 0 (none) for send.
- `Transfer` (transfer.dfy): the send buffer (a cursor over the caller's bytes)
  and the recv buffer (the bytes received so far). It defines `SendInner` and
  `RecvInner`: what one callback does to a buffer and what it resumes the
  connection with, as an `Outcome`. `Pending` means no resume. The other
  outcomes are `SendOk(n)`, `RecvOk(bytes)`, `WriteTimeout`, `ReadTimeout` and
  `IOError(errno)`. Lemmas cover each branch.
- `Traces` (traces.dfy): the reactor calling a callback again and again. A run
  of WRITE or READ events is applied to a buffer. The lemmas prove that the
  operation resumes exactly once, on the last event, with the right result.
  They also prove that the bytes arrive or go out in order, and that a recv
  whose peer has reached end of stream never resumes.
- `Socket` (socket.dfy): the `NSocket` class. Its fields are the socket's
  `send_buf`/`recv_buf` and its reactor registration. `RecvReady`, `SendReady`,
  `OnRecvEvent` and `OnSendEvent` update those fields in place. Each one's
  postcondition ties the new state to `Transfer`. Two client methods walk
  through two scenarios with asserts the verifier discharges: "3 bytes then
  silence" and "hello, two bytes per write".

Where the code differs from what a caller might expect, the model follows the
code:

- No path in this file deregisters the descriptor. Completion, timeout and
  error leave the registration as it is. A further event after completion
  resumes the connection again (`SendResumesAgainAfterDrain`,
  `RecvResumesAgainAfterCompletion`).
- `recv_inner` refreshes the 5-second timeout on every READ event, before it
  looks at what `read` returned. That includes would-block and fatal errors.
- A zero-length `read` (end of stream) counts as a successful read of 0 bytes.
  With bytes still wanted, the recv stays pending and the timeout keeps being
  refreshed (`RecvEndOfStreamStalls`).
- Read and write failures are both reported as the same `IOError(errno)`.
- `send_inner` has a TIMEOUT branch even though `send_ready` registers no
  timeout. The branch is modelled as written.
- `recv_buf` is released on the timeout and fatal paths only. The send buffer
  is never released in this file.

## Model

| member | source | states |
|---|---|---|
| `Transfer.NewSendBuffer` | meinheld/server/socket.c:172-174 | send_ready's buffer: cursor at the first of the caller's bytes, all of them unsent, buf_size is their length, accounting invariant holds |
| `Transfer.NewRecvBuffer` | meinheld/server/socket.c:158 | recv_ready's buffer: nothing received, `len` and buf_size both the requested length, accounting invariant holds |
| `Transfer.SendInner` | meinheld/server/socket.c:64-102 | one send_inner call keeps `cursor + len == buf_size`, `0 <= len`, the bytes and buf_size. It never raises `len`. It resumes only with Pending, WriteTimeout, SendOk(buf_size) or IOError |
| `Transfer.RecvInner` | meinheld/server/socket.c:105-151 | one recv_inner call keeps `received + len == buf_size`. It only appends to what was received. It frees the buffer exactly on TIMEOUT or a fatal read error. A RecvOk carries buf_size bytes beginning with what had been received |
| `Transfer.SendTimeoutFirst` | meinheld/server/socket.c:71-75 | with TIMEOUT set, whatever else is set and whatever write would return, the buffer is unchanged and the result is WriteTimeout |
| `Transfer.SendWouldBlockNoChange` | meinheld/server/socket.c:79-82 | a write failing with EAGAIN/EWOULDBLOCK leaves the buffer unchanged and resumes nothing |
| `Transfer.SendFatalNoAdvance` | meinheld/server/socket.c:83-87 | a write failing with any other errno resumes with IOError(errno) and does not advance the buffer |
| `Transfer.SendAdvance` | meinheld/server/socket.c:89-98 | a write of r bytes advances the cursor by r and lowers len by r. It resumes with SendOk(buf_size) iff r was all that remained, and stays Pending otherwise |
| `Transfer.RecvTimeoutFirst` | meinheld/server/socket.c:113-118 | with TIMEOUT set there is no read and no refresh. The buffer is freed and the result is ReadTimeout |
| `Transfer.RecvRefreshOnEveryRead` | meinheld/server/socket.c:120-127 | the idle timeout is refreshed iff READ is set and TIMEOUT is not, whatever read returned |
| `Transfer.RecvWouldBlockNoChange` | meinheld/server/socket.c:128-130 | a read failing with EAGAIN/EWOULDBLOCK leaves the buffer unchanged and resumes nothing |
| `Transfer.RecvFatalFrees` | meinheld/server/socket.c:131-135 | a read failing with any other errno frees the buffer and resumes with IOError(errno) |
| `Transfer.RecvAdvance` | meinheld/server/socket.c:138-147 | a read appends its chunk at the cursor and lowers len by its size. It resumes with everything received iff the chunk was all that remained. A zero-length read with bytes outstanding changes nothing |
| `Traces.RunSend` | meinheld/server/socket.c:76-101 | after a run of WRITE events the accounting invariant still holds. There is one outcome per event, and len has dropped by the total the kernel accepted |
| `Traces.SegmentThenUnsent` | meinheld/server/socket.c:78-91 | one write puts exactly the first r unsent bytes on the wire, and the rest stay unsent |
| `Traces.WireThenUnsent` | meinheld/server/socket.c:78-91 | over a run of writes, the bytes put on the wire followed by those still unsent are exactly the bytes unsent before |
| `Traces.SendResumesOnce` | meinheld/server/socket.c:89-98 | if the kernel accepts exactly what remains, the last piece on the last event, every earlier event is Pending and the last is SendOk(buf_size) |
| `Traces.SendCompletesOnLastWrite` | meinheld/server/socket.c:76-98 | the same run also drains the buffer (`len == 0`), and the wire carries the unsent bytes in order |
| `Traces.SendDeliversAll` | meinheld/server/socket.c:167-176 | send(data) whose writes sum to the length of data resumes once, with that length, on the last event, and the wire carries data in order |
| `Traces.RunRecv` | meinheld/server/socket.c:120-147 | after a run of READ events with no fatal error, the accounting invariant holds and what was received is the chunks appended in arrival order. Every event in the run refreshed the idle timeout |
| `Traces.RecvCompletesOnLastRead` | meinheld/server/socket.c:138-147 | if the chunks sum to what is still wanted, the last chunk non-empty, every earlier event is Pending. The last is RecvOk of everything received, in order |
| `Traces.RecvDeliversAll` | meinheld/server/socket.c:153-159 | recv(n) fed chunks summing to n resumes once, on the last event, with exactly those n bytes in order |
| `Traces.RecvEndOfStreamStalls` | meinheld/server/socket.c:124-141 | with bytes still wanted, any number of zero-length reads leave the buffer as it was, never resume the connection, and each one refreshes the idle timeout |
| `Transfer.SendResumesAgainAfterDrain` | meinheld/server/socket.c:89-97 | once len is 0, a further WRITE event writes 0 bytes and resumes the connection with SendOk(buf_size) a second time |
| `Transfer.RecvResumesAgainAfterCompletion` | meinheld/server/socket.c:138-146 | once len is 0, a further READ event reads 0 bytes, refreshes the timeout and resumes the connection with the same bytes a second time |
| `Socket.NSocket.Deadline` | meinheld/server/socket.c:159 | there is a TIMEOUT deadline iff the registered idle timeout is non-zero |
| `Socket.NSocket.constructor` | meinheld/server/socket.c:43-55 | a new socket owns `fd`, has no buffers and no registration |
| `Socket.NSocket.RecvReady` | meinheld/server/socket.c:153-165 | recv_buf becomes a fresh buffer for len bytes. READ interest is registered with a 5 s timeout counted from now. send_buf is unchanged |
| `Socket.NSocket.SendReady` | meinheld/server/socket.c:167-182 | send_buf becomes a cursor over the caller's bytes with all of them remaining. WRITE interest is registered with no timeout. recv_buf is unchanged |
| `Socket.NSocket.OnSendEvent` | meinheld/server/socket.c:64-102 | updates send_buf in place and returns exactly what SendInner gives. Recv buffer and registration are untouched |
| `Socket.NSocket.OnRecvEvent` | meinheld/server/socket.c:105-151 | updates or frees recv_buf in place and returns exactly what RecvInner gives. When it refreshes, the timeout becomes 5 s from now. send_buf and interest are untouched |

## Left out

- Greenlet switching (`PyGreenlet_Switch`, `switch_wsgi_app`, the hub switch in `recv_ready`/`send_ready`): "resume the connection" is the returned `Outcome`, and `Pending` means no switch. Stack switching happens in a foreign library.
- The Python exception objects behind the outcomes (`PyErr_SetString`, `PyErr_SetFromErrno`), `Py_BuildValue`, and the `client->args` assignment: each becomes a case of `Outcome`.
- picoev internals: `picoev_add` and `picoev_set_timeout` become the fields `interest`, `timeoutSecs` and `armedAt`, and the reactor clock is the parameter `now`. When the reactor actually fires TIMEOUT is its own business. `Deadline` only records when it is due, reading 0 as "no timeout".
- The `read`/`write` system calls and `errno`: each becomes the `Syscall` parameter. The kernel's promise never to move more bytes than asked is a precondition (`WriteFits`, `ReadFits`).
- `new_buffer`, `free_buffer` and `getPyString` are not part of this model. It assumes `new_buffer(n, n)` yields a buffer with `n` bytes remaining and buf_size `n`, and that `getPyString` yields the bytes received, in order. `free_buffer` becomes setting `recvBuf` to `None`. Allocation failure is not modelled.
- `Socket.NSocket.RecvReady`: takes `len: nat`. The C code passes any parsed `int` to `new_buffer`, and what that does with a negative length is not visible here.
- Machine integer widths (`ssize_t`, `size_t`): counts and lengths are unbounded integers.
- Socket options: `setup_sock`, `enable_cork` and `disable_cork` only call `setsockopt`/`fcntl`.
- Python C-API scaffolding: argument parsing in `NSocketObject_recv`/`NSocketObject_send`, reference counting of the client in `NSocketObject_New`/`NSocketObject_dealloc`, `CheckNSocketObject`, the `NSocketObjectType` table, `setup_nsocket`, and the debug `printf` in `NSocketObject_send`.
- Callbacks after resumption: nothing in this file deregisters the descriptor, and whether `switch_wsgi_app` does is not visible here. The run lemmas stop at the completing event. `SendResumesAgainAfterDrain` and `RecvResumesAgainAfterCompletion` show that one more event would resume the connection again.
- `Socket.NSocket.OnRecvEvent`: requires a live `recvBuf`. This precondition is where the model excludes a callback after `free_buffer` (timeout, line 115; fatal error, line 132). Because the descriptor stays registered, the C code would then free the buffer twice (line 115) or read into freed memory (line 124). The model does not capture that.
- `Traces.RecvCompletesOnLastRead`, `Traces.RecvDeliversAll`: the byte content of the `RecvOk` result holds only under the assumed behaviour of `getPyString`. In the C code, lines 139-140 move `recv_buf->buf` forward past every byte read, and line 144 hands that moved pointer to `getPyString`. Lines 115 and 132 likewise hand a possibly moved pointer to `free_buffer`. What those helpers make of it is not visible here.
- `Transfer.NewRecvBuffer`: assumes `new_buffer(len, len)` leaves `len` bytes remaining. `send_ready` sets `send_buf->len = len` again after the same call (line 174), so `new_buffer` may not set the remaining count itself. If it does not, the recv buffer would start with a different remaining count.
- At most one operation in flight: the source does not enforce it. A second `recv_ready`/`send_ready` overwrites the buffer field, and the model does the same.
- `Traces.RecvCompletesOnLastRead`, `Traces.SendCompletesOnLastWrite`: cover runs of READ-only or WRITE-only events with no fatal error. Timeouts and fatal errors are covered one event at a time by the `Transfer` lemmas.
