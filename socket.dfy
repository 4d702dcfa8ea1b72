/** NSocketObject: a non-blocking socket whose recv and send park the caller
    until the reactor has driven the transfer to its end. The send and recv
    buffers are updated in place by the readiness callbacks. */
module Socket {
  import opened Kernel
  import opened Reactor
  import opened Transfer

  class NSocket {
    const fd: int
    /** socket->send_buf and socket->recv_buf; None before the first
        operation, and for recv_buf once free_buffer has released it. */
    var sendBuf: Option<SendBuffer>
    var recvBuf: Option<RecvBuffer>
    /** The descriptor's picoev registration: the interest last added, the
        idle timeout last set and the reactor time at which it was set. */
    var interest: Interest
    var timeoutSecs: nat
    var armedAt: int

    ghost predicate Valid()
      reads this
    {
      (sendBuf.Some? ==> SendValid(sendBuf.value)) &&
      (recvBuf.Some? ==> RecvValid(recvBuf.value))
    }

    /** When the reactor will fire TIMEOUT if nothing refreshes it first. */
    function Deadline(): (d: Option<int>)
      reads this
      ensures d.Some? <==> timeoutSecs != 0
    {
      if timeoutSecs == 0 then None else Some(armedAt + timeoutSecs)
    }

    /** NSocketObject_New, without the socket options and the reference to
        the client object. */
    constructor (fd: int)
      ensures Valid() && this.fd == fd
      ensures sendBuf == None && recvBuf == None && interest == NoInterest && timeoutSecs == 0
    {
      this.fd := fd;
      sendBuf, recvBuf := None, None;
      interest, timeoutSecs, armedAt := NoInterest, 0, 0;
    }

    /** recv_ready: a buffer for `len` bytes, READ interest with a 5 second
        idle timeout counted from `now`. */
    method RecvReady(len: nat, now: int)
      requires Valid()
      modifies this
      ensures Valid()
      ensures recvBuf == Some(NewRecvBuffer(len))
      ensures interest == ReadInterest && timeoutSecs == RecvTimeoutSecs && armedAt == now
      ensures Deadline() == Some(now + 5)
      ensures sendBuf == old(sendBuf)
    {
      recvBuf := Some(RecvBuffer([], len, len));
      interest := ReadInterest;
      timeoutSecs := 5;
      armedAt := now;
    }

    /** send_ready: the buffer is a cursor over the caller's bytes, all of
        them remaining; WRITE interest with no idle timeout. */
    method SendReady(data: seq<byte>, now: int)
      requires Valid()
      modifies this
      ensures Valid()
      ensures sendBuf == Some(NewSendBuffer(data))
      ensures Unsent(sendBuf.value) == data && sendBuf.value.len == |data|
      ensures interest == WriteInterest && timeoutSecs == SendTimeoutSecs && armedAt == now
      ensures Deadline() == None
      ensures recvBuf == old(recvBuf)
    {
      sendBuf := Some(SendBuffer(data, 0, |data|, |data|));
      interest := WriteInterest;
      timeoutSecs := 0;
      armedAt := now;
    }

    /** send_inner: the reactor reports `ev`; `res` is what write() returns
        if it is called. The in-place form of Transfer.SendInner. */
    method OnSendEvent(ev: Events, res: Syscall<nat>) returns (out: Outcome)
      requires Valid() && sendBuf.Some? && WriteFits(res, sendBuf.value.len)
      modifies this
      ensures Valid() && sendBuf.Some?
      ensures var s := SendInner(old(sendBuf.value), ev, res);
        sendBuf.value == s.buf && out == s.out
      ensures recvBuf == old(recvBuf) && interest == old(interest)
      ensures timeoutSecs == old(timeoutSecs) && armedAt == old(armedAt)
    {
      var buf := sendBuf.value;
      out := Pending;
      if ev.timeout {
        out := WriteTimeout;
      } else if ev.write {
        match res {
          case Failed(errno) =>
            if errno == EAGAIN || errno == EWOULDBLOCK {
              // would block: wait for the next event, nothing changes
            } else {
              out := IOError(errno);
            }
          case Transferred(r) =>
            buf := buf.(cursor := buf.cursor + r);
            buf := buf.(len := buf.len - r);
            sendBuf := Some(buf);
            if buf.len == 0 {
              out := SendOk(buf.bufSize);
            }
        }
      }
    }

    /** recv_inner: the reactor reports `ev` at time `now`; `res` is what
        read() returns if it is called. The in-place form of
        Transfer.RecvInner, plus the timeout refresh on the registration. */
    method OnRecvEvent(ev: Events, res: Syscall<seq<byte>>, now: int) returns (out: Outcome)
      requires Valid() && recvBuf.Some? && ReadFits(res, recvBuf.value.len)
      modifies this
      ensures Valid()
      ensures var s := RecvInner(old(recvBuf.value), ev, res);
        recvBuf == s.buf && out == s.out &&
        (s.refresh ==> timeoutSecs == RecvTimeoutSecs && armedAt == now && Deadline() == Some(now + 5)) &&
        (!s.refresh ==> timeoutSecs == old(timeoutSecs) && armedAt == old(armedAt))
      ensures sendBuf == old(sendBuf) && interest == old(interest)
    {
      var buf := recvBuf.value;
      out := Pending;
      if ev.timeout {
        recvBuf := None;
        out := ReadTimeout;
      } else if ev.read {
        // every READ event re-arms the idle timeout, whatever read() returns
        timeoutSecs, armedAt := 5, now;
        match res {
          case Failed(errno) =>
            if errno == EAGAIN || errno == EWOULDBLOCK {
              // would block: wait for the next event, nothing changes
            } else {
              recvBuf := None;
              out := IOError(errno);
            }
          case Transferred(chunk) =>
            buf := buf.(received := buf.received + chunk);
            buf := buf.(len := buf.len - |chunk|);
            recvBuf := Some(buf);
            if buf.len == 0 {
              out := RecvOk(buf.received);
            }
        }
      }
    }
  }

  /** recv(5) on a descriptor that delivers 3 bytes at t = 1 and then nothing:
      the deadline moves to t = 6 and the TIMEOUT that follows resumes the
      connection with "read timeout", freeing the buffer. */
  method PartialReadThenTimeout(fd: int) {
    var sock := new NSocket(fd);
    sock.RecvReady(5, 0);
    assert sock.Deadline() == Some(5);
    var out := sock.OnRecvEvent(Events(true, false, false), Transferred([1, 2, 3]), 1);
    assert out == Pending && sock.recvBuf.value.len == 2;
    assert sock.Deadline() == Some(6);
    out := sock.OnRecvEvent(Events(false, false, true), Failed(EAGAIN), 6);
    assert out == ReadTimeout && sock.recvBuf == None;
  }

  /** send("hello") through a descriptor that takes two bytes per write:
      resumed with 5 after the third WRITE event and not before. */
  method SendHelloTwoBytesAtATime(fd: int) {
    var hello: seq<byte> := [104, 101, 108, 108, 111];
    var writable := Events(false, true, false);
    var sock := new NSocket(fd);
    sock.SendReady(hello, 0);
    var out := sock.OnSendEvent(writable, Transferred(2));
    assert sock.sendBuf.value.len == 3 && out == Pending;
    out := sock.OnSendEvent(writable, Failed(EWOULDBLOCK));
    assert sock.sendBuf.value.len == 3 && out == Pending;
    out := sock.OnSendEvent(writable, Transferred(2));
    assert sock.sendBuf.value.len == 1 && out == Pending;
    out := sock.OnSendEvent(writable, Transferred(1));
    assert out == SendOk(5) && Unsent(sock.sendBuf.value) == [];
  }
}
