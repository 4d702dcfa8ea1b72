/** The reactor calling a callback again and again: the same callback applied
    to a sequence of kernel results, one readiness event each. */
module Traces {
  import opened Kernel
  import opened Reactor
  import opened Transfer

  const WriteReady := Events(read := false, write := true, timeout := false)
  const ReadReady := Events(read := true, write := false, timeout := false)

  /** Total number of bytes the kernel accepted over a run of writes. */
  function Written(results: seq<Syscall<nat>>): nat {
    if results == [] then 0
    else (if results[0].Transferred? then results[0].value else 0) + Written(results[1..])
  }

  /** The chunks a run of reads delivered, concatenated in arrival order. */
  function Delivered(results: seq<Syscall<seq<byte>>>): seq<byte> {
    if results == [] then []
    else (if results[0].Transferred? then results[0].value else []) + Delivered(results[1..])
  }

  /** A send after a run of WRITE events: the buffer and the outcome of
      every call. */
  datatype SendRun = SendRun(buf: SendBuffer, outs: seq<Outcome>)

  function RunSend(b: SendBuffer, results: seq<Syscall<nat>>): (run: SendRun)
    requires SendValid(b) && Written(results) <= b.len
    ensures SendValid(run.buf) && run.buf.data == b.data && run.buf.bufSize == b.bufSize
    ensures |run.outs| == |results|
    ensures run.buf.len == b.len - Written(results)
    decreases |results|
  {
    if results == [] then SendRun(b, [])
    else
      var s := SendInner(b, WriteReady, results[0]);
      var rest := RunSend(s.buf, results[1..]);
      SendRun(rest.buf, [s.out] + rest.outs)
  }

  /** The bytes a run of WRITE events puts on the wire, in order. */
  function Wire(b: SendBuffer, results: seq<Syscall<nat>>): seq<byte>
    requires SendValid(b) && Written(results) <= b.len
    decreases |results|
  {
    if results == [] then []
    else
      var s := SendInner(b, WriteReady, results[0]);
      Segment(b, results[0]) + Wire(s.buf, results[1..])
  }

  /** Nothing is lost or reordered: what went on the wire followed by what
      is still unsent is exactly what was unsent before the run. */
  lemma {:induction false} WireThenUnsent(b: SendBuffer, results: seq<Syscall<nat>>)
    requires SendValid(b) && Written(results) <= b.len
    ensures Wire(b, results) + Unsent(RunSend(b, results).buf) == Unsent(b)
    decreases |results|
  {
    if results == [] {
      assert RunSend(b, results).buf == b;
    } else {
      var s := SendInner(b, WriteReady, results[0]);
      WireThenUnsent(s.buf, results[1..]);
      SegmentThenUnsent(b, results[0]);
      assert RunSend(b, results).buf == RunSend(s.buf, results[1..]).buf;
      ConcatAssoc(Segment(b, results[0]), Wire(s.buf, results[1..]),
                  Unsent(RunSend(s.buf, results[1..]).buf), Unsent(s.buf));
    }
  }

  lemma SegmentThenUnsent(b: SendBuffer, res: Syscall<nat>)
    requires SendValid(b) && WriteFits(res, b.len)
    ensures Unsent(b) == Segment(b, res) + Unsent(SendInner(b, WriteReady, res).buf)
  {
  }

  lemma ConcatAssoc(x: seq<byte>, y: seq<byte>, z: seq<byte>, yz: seq<byte>)
    requires y + z == yz
    ensures (x + y) + z == x + yz
  {
  }

  /** A recv after a run of READ events with no fatal error: the buffer,
      the outcome of every call, and whether each call refreshed the idle
      timeout. */
  datatype RecvRun = RecvRun(buf: RecvBuffer, outs: seq<Outcome>, refreshed: seq<bool>)

  function RunRecv(b: RecvBuffer, results: seq<Syscall<seq<byte>>>): (run: RecvRun)
    requires RecvValid(b) && NoFatal(results) && |Delivered(results)| <= b.len
    ensures RecvValid(run.buf) && run.buf.bufSize == b.bufSize
    ensures run.buf.received == b.received + Delivered(results)
    ensures |run.outs| == |results| && |run.refreshed| == |results|
    ensures forall i :: 0 <= i < |results| ==> run.refreshed[i]
    decreases |results|
  {
    if results == [] then RecvRun(b, [], [])
    else
      var s := RecvInner(b, ReadReady, results[0]);
      NoFatalTail(results);
      var rest := RunRecv(s.buf.value, results[1..]);
      RecvRun(rest.buf, [s.out] + rest.outs, [s.refresh] + rest.refreshed)
  }

  // ---- helpers ----

  lemma {:induction false} WrittenAtLeastLast(results: seq<Syscall<nat>>)
    requires |results| > 0 && results[|results| - 1].Transferred?
    ensures Written(results) >= results[|results| - 1].value
    decreases |results|
  {
    if |results| > 1 {
      assert results[1..][|results[1..]| - 1] == results[|results| - 1];
      WrittenAtLeastLast(results[1..]);
    }
  }

  lemma {:induction false} DeliveredAtLeastLast(results: seq<Syscall<seq<byte>>>)
    requires |results| > 0 && results[|results| - 1].Transferred?
    ensures |Delivered(results)| >= |results[|results| - 1].value|
    decreases |results|
  {
    if |results| > 1 {
      assert results[1..][|results[1..]| - 1] == results[|results| - 1];
      DeliveredAtLeastLast(results[1..]);
    }
  }

  lemma NoFatalTail<T>(results: seq<Syscall<T>>)
    requires |results| > 0 && NoFatal(results)
    ensures NoFatal(results[1..])
  {
    forall i | 0 <= i < |results[1..]| && results[1..][i].Failed?
      ensures IsWouldBlock(results[1..][i].errno)
    {
      assert results[1..][i] == results[i + 1];
    }
  }

  // ---- completion ----

  /** If the kernel accepts, over a run of WRITE events with no fatal error,
      exactly the bytes that remain, the last of them on the last event, then
      the send is resumed exactly once, on that last event, with buf_size;
      and the wire carries the unsent bytes in order. */
  lemma SendCompletesOnLastWrite(b: SendBuffer, results: seq<Syscall<nat>>)
    requires SendValid(b) && NoFatal(results) && Written(results) == b.len
    requires |results| > 0 && results[|results| - 1].Transferred? && results[|results| - 1].value > 0
    ensures var run := RunSend(b, results);
      (forall i :: 0 <= i < |results| - 1 ==> run.outs[i] == Pending) &&
      run.outs[|results| - 1] == SendOk(b.bufSize) &&
      run.buf.len == 0 && Wire(b, results) == Unsent(b)
  {
    SendResumesOnce(b, results);
    WireThenUnsent(b, results);
    DrainedHasNothingUnsent(RunSend(b, results).buf);
  }

  /** The induction behind SendCompletesOnLastWrite: Pending until the last
      event, SendOk(buf_size) on it. */
  lemma {:induction false} SendResumesOnce(b: SendBuffer, results: seq<Syscall<nat>>)
    requires SendValid(b) && NoFatal(results) && Written(results) == b.len
    requires |results| > 0 && results[|results| - 1].Transferred? && results[|results| - 1].value > 0
    ensures var outs := RunSend(b, results).outs;
      (forall i :: 0 <= i < |results| - 1 ==> outs[i] == Pending) &&
      outs[|results| - 1] == SendOk(b.bufSize)
    decreases |results|
  {
    var outs := RunSend(b, results).outs;
    var s := SendInner(b, WriteReady, results[0]);
    var rest := RunSend(s.buf, results[1..]).outs;
    assert outs == [s.out] + rest;
    if |results| == 1 {
      assert Written(results[1..]) == 0;
    } else {
      NoFatalTail(results);
      assert results[1..][|results[1..]| - 1] == results[|results| - 1];
      WrittenAtLeastLast(results[1..]);
      assert s.buf.len == Written(results[1..]) > 0;
      assert s.out == Pending;
      SendResumesOnce(s.buf, results[1..]);
      forall i | 1 <= i < |results| - 1
        ensures outs[i] == Pending
      {
        assert outs[i] == rest[i - 1];
      }
    }
  }

  lemma DrainedHasNothingUnsent(b: SendBuffer)
    requires SendValid(b) && b.len == 0
    ensures Unsent(b) == []
  {
  }

  /** A send of `data` whose writes the kernel accepts in pieces summing to
      |data| reports |data| bytes, once, and the wire carries `data` in order. */
  lemma SendDeliversAll(data: seq<byte>, results: seq<Syscall<nat>>)
    requires NoFatal(results) && Written(results) == |data|
    requires |results| > 0 && results[|results| - 1].Transferred? && results[|results| - 1].value > 0
    ensures var run := RunSend(NewSendBuffer(data), results);
      run.outs[|results| - 1] == SendOk(|data|) && Wire(NewSendBuffer(data), results) == data &&
      forall i :: 0 <= i < |results| - 1 ==> run.outs[i] == Pending
  {
    SendCompletesOnLastWrite(NewSendBuffer(data), results);
  }

  /** If the chunks of a run of READ events with no fatal error sum to the
      bytes still wanted, the last chunk non-empty, the recv is resumed
      exactly once, on the last event, with the chunks appended in order. */
  lemma {:induction false} RecvCompletesOnLastRead(b: RecvBuffer, results: seq<Syscall<seq<byte>>>)
    requires RecvValid(b) && NoFatal(results) && |Delivered(results)| == b.len
    requires |results| > 0 && results[|results| - 1].Transferred? && results[|results| - 1].value != []
    ensures var run := RunRecv(b, results);
      (forall i :: 0 <= i < |results| - 1 ==> run.outs[i] == Pending) &&
      run.outs[|results| - 1] == RecvOk(b.received + Delivered(results)) &&
      run.buf.len == 0
    decreases |results|
  {
    var run := RunRecv(b, results);
    var s := RecvInner(b, ReadReady, results[0]);
    NoFatalTail(results);
    var rest := RunRecv(s.buf.value, results[1..]);
    assert run.outs == [s.out] + rest.outs;
    if |results| == 1 {
      assert Delivered(results[1..]) == [];
      assert s.out == RecvOk(b.received + Delivered(results));
    } else {
      assert results[1..][|results[1..]| - 1] == results[|results| - 1];
      DeliveredAtLeastLast(results[1..]);
      assert s.buf.value.len == |Delivered(results[1..])| > 0;
      assert s.out == Pending;
      RecvCompletesOnLastRead(s.buf.value, results[1..]);
      assert s.buf.value.received + Delivered(results[1..]) == b.received + Delivered(results);
      forall i | 1 <= i < |results| - 1
        ensures run.outs[i] == Pending
      {
        assert run.outs[i] == rest.outs[i - 1];
      }
    }
  }

  /** recv(n) fed chunks summing to n returns exactly those n bytes, in order. */
  lemma RecvDeliversAll(n: nat, results: seq<Syscall<seq<byte>>>)
    requires NoFatal(results) && |Delivered(results)| == n
    requires |results| > 0 && results[|results| - 1].Transferred? && results[|results| - 1].value != []
    ensures var run := RunRecv(NewRecvBuffer(n), results);
      run.outs[|results| - 1] == RecvOk(Delivered(results)) &&
      |run.outs[|results| - 1].bytes| == n &&
      forall i :: 0 <= i < |results| - 1 ==> run.outs[i] == Pending
  {
    RecvCompletesOnLastRead(NewRecvBuffer(n), results);
    assert [] + Delivered(results) == Delivered(results);
  }

  /** End of stream before the recv is satisfied: every further READ event
      reads 0 bytes, leaves the buffer as it was and resumes nothing, while
      each one refreshes the idle timeout; the recv never completes. */
  lemma {:induction false} RecvEndOfStreamStalls(b: RecvBuffer, results: seq<Syscall<seq<byte>>>)
    requires RecvValid(b) && b.len > 0
    requires forall i :: 0 <= i < |results| ==> results[i] == Transferred([])
    ensures NoFatal(results) && Delivered(results) == []
    ensures var run := RunRecv(b, results);
      run.buf == b &&
      (forall i :: 0 <= i < |results| ==> run.outs[i] == Pending) &&
      (forall i :: 0 <= i < |results| ==> run.refreshed[i])
    decreases |results|
  {
    if results != [] {
      RecvEndOfStreamStalls(b, results[1..]);
      var s := RecvInner(b, ReadReady, results[0]);
      assert b.received + [] == b.received;
      assert s == RecvStep(Some(b), true, Pending);
      var run := RunRecv(b, results);
      assert forall i :: 1 <= i < |results| ==> run.outs[i] == RunRecv(b, results[1..]).outs[i - 1];
    }
  }
}
