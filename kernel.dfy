/** What the core sees of the operating system: bytes, errno values and the
    outcome of one non-blocking read(2) or write(2) on the socket. */
module Kernel {

  newtype byte = x: int | 0 <= x < 256

  /** Linux values; EWOULDBLOCK is an alias of EAGAIN there. */
  const EAGAIN: int := 11
  const EWOULDBLOCK: int := 11

  /** The errno class that means "not ready yet, try again later". */
  predicate IsWouldBlock(errno: int) {
    errno == EAGAIN || errno == EWOULDBLOCK
  }

  /** One call of read or write: it returned -1 and set `errno`, or it moved
      `value` (a byte count for write, the bytes themselves for read). */
  datatype Syscall<T> = Failed(errno: int) | Transferred(value: T)

  /** The kernel never writes more than it was offered. */
  predicate WriteFits(res: Syscall<nat>, len: int) {
    res.Transferred? ==> res.value <= len
  }

  /** The kernel never reads more than it was asked for. */
  predicate ReadFits(res: Syscall<seq<byte>>, len: int) {
    res.Transferred? ==> |res.value| <= len
  }

  /** No result in the sequence is a fatal error. */
  predicate NoFatal<T>(results: seq<Syscall<T>>) {
    forall i :: 0 <= i < |results| && results[i].Failed? ==> IsWouldBlock(results[i].errno)
  }
}

/** What the core sees of the picoev reactor: the event bits a callback is
    invoked with and the interest a descriptor is registered for. */
module Reactor {

  /** Which of the PICOEV_READ, PICOEV_WRITE and PICOEV_TIMEOUT bits are set. */
  datatype Events = Events(read: bool, write: bool, timeout: bool)

  datatype Interest = NoInterest | ReadInterest | WriteInterest

  /** Idle timeout, in seconds, of a pending recv; a send passes 0, no timeout. */
  const RecvTimeoutSecs: nat := 5
  const SendTimeoutSecs: nat := 0

  datatype Option<T> = None | Some(value: T)
}
