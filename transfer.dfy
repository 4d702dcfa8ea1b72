/** The two in-flight buffers of a socket and what one readiness callback
    (send_inner, recv_inner) does to them, as functions of the event bits and
    of the kernel's answer. */
module Transfer {
  import opened Kernel
  import opened Reactor

  /** What the connection is resumed with; Pending means it is not resumed. */
  datatype Outcome =
    | Pending
    | SendOk(n: nat)
    | RecvOk(bytes: seq<byte>)
    | WriteTimeout
    | ReadTimeout
    | IOError(errno: int)

  /** send_buf: a cursor over the caller's bytes `data`. `cursor` is how far
      send_buf->buf has moved from the start, `len` is send_buf->len (bytes
      still to write) and `bufSize` is buf_size. */
  datatype SendBuffer = SendBuffer(data: seq<byte>, cursor: nat, len: int, bufSize: nat)

  /** The accounting invariant: consumed plus remaining is the original size. */
  predicate SendValid(b: SendBuffer) {
    b.bufSize == |b.data| && 0 <= b.len && b.cursor + b.len == b.bufSize
  }

  /** The bytes from the cursor on: what write() is handed. */
  function Unsent(b: SendBuffer): seq<byte>
    requires SendValid(b)
  {
    b.data[b.cursor..]
  }

  /** The buffer send_ready sets up: the cursor at the first byte, all of it to go. */
  function NewSendBuffer(data: seq<byte>): (b: SendBuffer)
    ensures SendValid(b) && Unsent(b) == data && b.bufSize == |data|
  {
    SendBuffer(data, 0, |data|, |data|)
  }

  /** recv_buf: `received` is what read() has stored in front of the cursor,
      `len` is recv_buf->len (bytes still wanted) and `bufSize` the size
      asked for. */
  datatype RecvBuffer = RecvBuffer(received: seq<byte>, len: int, bufSize: nat)

  predicate RecvValid(b: RecvBuffer) {
    0 <= b.len && |b.received| + b.len == b.bufSize
  }

  /** The buffer recv_ready allocates for a recv of `n` bytes. */
  function NewRecvBuffer(n: nat): (b: RecvBuffer)
    ensures RecvValid(b) && b.received == [] && b.len == n && b.bufSize == n
  {
    RecvBuffer([], n, n)
  }

  /** One call of send_inner: the buffer afterwards and the resumption. */
  datatype SendStep = SendStep(buf: SendBuffer, out: Outcome)

  function SendInner(b: SendBuffer, ev: Events, res: Syscall<nat>): (s: SendStep)
    requires SendValid(b) && WriteFits(res, b.len)
    ensures SendValid(s.buf) && s.buf.data == b.data && s.buf.bufSize == b.bufSize
    ensures s.buf.len <= b.len
    ensures s.out.Pending? || s.out.WriteTimeout? || s.out == SendOk(b.bufSize) || s.out.IOError?
  {
    if ev.timeout then
      SendStep(b, WriteTimeout)
    else if ev.write then
      match res
      case Failed(errno) =>
        if IsWouldBlock(errno) then SendStep(b, Pending) else SendStep(b, IOError(errno))
      case Transferred(r) =>
        var next := b.(cursor := b.cursor + r, len := b.len - r);
        SendStep(next, if next.len == 0 then SendOk(b.bufSize) else Pending)
    else
      SendStep(b, Pending)
  }

  /** The bytes one send_inner call puts on the wire: the first r unsent ones. */
  function Segment(b: SendBuffer, res: Syscall<nat>): seq<byte>
    requires SendValid(b) && WriteFits(res, b.len)
  {
    if res.Transferred? then b.data[b.cursor..b.cursor + res.value] else []
  }

  /** One call of recv_inner: the buffer afterwards (None once freed), whether
      the reactor timeout was refreshed, and the resumption. */
  datatype RecvStep = RecvStep(buf: Option<RecvBuffer>, refresh: bool, out: Outcome)

  function RecvInner(b: RecvBuffer, ev: Events, res: Syscall<seq<byte>>): (s: RecvStep)
    requires RecvValid(b) && ReadFits(res, b.len)
    ensures s.buf.Some? ==> RecvValid(s.buf.value) && s.buf.value.bufSize == b.bufSize
    ensures s.buf.Some? ==> b.received <= s.buf.value.received && s.buf.value.len <= b.len
    ensures s.buf.None? <==> ev.timeout || (ev.read && res.Failed? && !IsWouldBlock(res.errno))
    ensures s.out.RecvOk? ==> |s.out.bytes| == b.bufSize && b.received <= s.out.bytes
  {
    if ev.timeout then
      RecvStep(None, false, ReadTimeout)
    else if ev.read then
      match res
      case Failed(errno) =>
        if IsWouldBlock(errno) then RecvStep(Some(b), true, Pending)
        else RecvStep(None, true, IOError(errno))
      case Transferred(chunk) =>
        var next := b.(received := b.received + chunk, len := b.len - |chunk|);
        RecvStep(Some(next), true, if next.len == 0 then RecvOk(next.received) else Pending)
    else
      RecvStep(Some(b), false, Pending)
  }

  // ---- send_inner, case by case ----

  /** A TIMEOUT bit wins over WRITE: no write is attempted, the buffer is
      untouched and the connection is resumed with "write timeout". */
  lemma SendTimeoutFirst(b: SendBuffer, ev: Events, res: Syscall<nat>)
    requires SendValid(b) && WriteFits(res, b.len) && ev.timeout
    ensures SendInner(b, ev, res) == SendStep(b, WriteTimeout)
  {
  }

  /** EAGAIN / EWOULDBLOCK changes nothing and resumes nothing. */
  lemma SendWouldBlockNoChange(b: SendBuffer, ev: Events, errno: int)
    requires SendValid(b) && IsWouldBlock(errno)
    ensures !ev.timeout ==> SendInner(b, ev, Failed(errno)) == SendStep(b, Pending)
  {
  }

  /** Any other errno resumes with IOError(errno) and does not advance the buffer. */
  lemma SendFatalNoAdvance(b: SendBuffer, ev: Events, errno: int)
    requires SendValid(b) && !IsWouldBlock(errno) && ev.write && !ev.timeout
    ensures SendInner(b, ev, Failed(errno)) == SendStep(b, IOError(errno))
  {
  }

  /** A write of r bytes moves the cursor forward by r and lowers len by r;
      the connection is resumed with buf_size exactly when len reaches 0. */
  lemma SendAdvance(b: SendBuffer, ev: Events, r: nat)
    requires SendValid(b) && r <= b.len && ev.write && !ev.timeout
    ensures var s := SendInner(b, ev, Transferred(r));
      s.buf.cursor == b.cursor + r && s.buf.len == b.len - r &&
      (s.out == SendOk(b.bufSize) <==> r == b.len) &&
      (r < b.len <==> s.out == Pending)
  {
  }

  // ---- recv_inner, case by case ----

  /** A TIMEOUT bit wins over READ: no read, no refresh, the buffer is freed
      and the connection is resumed with "read timeout". */
  lemma RecvTimeoutFirst(b: RecvBuffer, ev: Events, res: Syscall<seq<byte>>)
    requires RecvValid(b) && ReadFits(res, b.len) && ev.timeout
    ensures RecvInner(b, ev, res) == RecvStep(None, false, ReadTimeout)
  {
  }

  /** Every READ event without TIMEOUT refreshes the idle timeout, whatever
      read() returned; no other event does. */
  lemma RecvRefreshOnEveryRead(b: RecvBuffer, ev: Events, res: Syscall<seq<byte>>)
    requires RecvValid(b) && ReadFits(res, b.len)
    ensures RecvInner(b, ev, res).refresh <==> ev.read && !ev.timeout
  {
  }

  /** EAGAIN / EWOULDBLOCK leaves the buffer as it was and resumes nothing. */
  lemma RecvWouldBlockNoChange(b: RecvBuffer, ev: Events, errno: int)
    requires RecvValid(b) && IsWouldBlock(errno) && ev.read && !ev.timeout
    ensures RecvInner(b, ev, Failed(errno)) == RecvStep(Some(b), true, Pending)
  {
  }

  /** Any other errno frees the buffer and resumes with IOError(errno). */
  lemma RecvFatalFrees(b: RecvBuffer, ev: Events, errno: int)
    requires RecvValid(b) && !IsWouldBlock(errno) && ev.read && !ev.timeout
    ensures RecvInner(b, ev, Failed(errno)) == RecvStep(None, true, IOError(errno))
  {
  }

  /** A read of a chunk appends it at the cursor and lowers len by its size;
      the connection is resumed with everything received exactly when len
      reaches 0. A zero-length read (end of stream) changes nothing. */
  lemma RecvAdvance(b: RecvBuffer, ev: Events, chunk: seq<byte>)
    requires RecvValid(b) && |chunk| <= b.len && ev.read && !ev.timeout
    ensures var s := RecvInner(b, ev, Transferred(chunk));
      s.buf == Some(RecvBuffer(b.received + chunk, b.len - |chunk|, b.bufSize)) &&
      (s.out.RecvOk? <==> |chunk| == b.len) &&
      (s.out.RecvOk? ==> s.out.bytes == b.received + chunk) &&
      (chunk == [] && b.len > 0 ==> s == RecvStep(Some(b), true, Pending))
  {
    if chunk == [] {
      assert b.received + chunk == b.received;
    }
  }

  // ---- after completion ----

  /** Once the send has drained, a further WRITE event writes 0 bytes and
      resumes the connection with buf_size again. */
  lemma SendResumesAgainAfterDrain(b: SendBuffer, ev: Events)
    requires SendValid(b) && b.len == 0 && ev.write && !ev.timeout
    ensures SendInner(b, ev, Transferred(0)) == SendStep(b, SendOk(b.bufSize))
  {
  }

  /** Once the recv has completed, a further READ event reads 0 bytes and
      resumes the connection with the same bytes again. */
  lemma RecvResumesAgainAfterCompletion(b: RecvBuffer, ev: Events)
    requires RecvValid(b) && b.len == 0 && ev.read && !ev.timeout
    ensures RecvInner(b, ev, Transferred([])) == RecvStep(Some(b), true, RecvOk(b.received))
  {
    assert b.received + [] == b.received;
  }
}
