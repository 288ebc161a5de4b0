/**
 * The write-coalescing stream buffer (`struct ff_write_stream_buffer`) and the
 * byte sink it sits in front of (`ff_write_stream_func` with its context).
 */
module StreamBuffer {
  import opened Common

  /** The value a sink returns to signal an error. */
  const WriteError: int := -1

  type Positive = n: nat | n > 0 witness 1

  /** What the sink does on one call: refuse it, or accept at most `limit` bytes. */
  datatype Reply = Refuse | Accept(limit: Positive)

  /**
   * The value the sink returns when asked to write `len` bytes and its next
   * scripted reply is the head of `script`; an exhausted script accepts everything.
   */
  function Outcome(script: seq<Reply>, len: Positive): (n: int)
    ensures n == WriteError || 0 < n <= len
    ensures n == len <== script == [] || (script[0].Accept? && script[0].limit >= len)
  {
    if script == [] then len
    else match script[0]
      case Refuse => WriteError
      case Accept(limit) => if limit < len then limit else len
  }

  /** Moving the first `n` bytes of `rest` to the end of `x` keeps the concatenation. */
  lemma Shift(x: seq<byte>, rest: seq<byte>, n: nat)
    requires n <= |rest|
    ensures x + rest == (x + rest[..n]) + rest[n..]
  {
    assert rest == rest[..n] + rest[n..];
  }

  /** Equal concatenations with the same first part have the same second part. */
  lemma CancelPrefix(x: seq<byte>, y: seq<byte>, z: seq<byte>, w: seq<byte>)
    requires x + y == x + z + w
    ensures y == z + w
  {
    assert y == (x + y)[|x|..];
    assert z + w == (x + z + w)[|x|..];
  }

  /**
   * A byte sink. Its behaviour on successive calls is the arbitrary `script`
   * it was created with, so any sink that honours the write contract is one of
   * these. `Log` holds every byte it has accepted, in order, and `Errors` counts
   * the calls it refused.
   */
  class Sink {
    var script: seq<Reply>
    ghost var Log: seq<byte>
    ghost var Errors: nat

    constructor (script: seq<Reply>)
      ensures this.script == script && Log == [] && Errors == 0
    {
      this.script := script;
      Log := [];
      Errors := 0;
    }

    /** `write_func(ctx, data, |data|)`: -1, or the number of leading bytes of `data` taken. */
    method Write(data: seq<byte>) returns (n: int)
      requires |data| > 0
      modifies this
      ensures n == WriteError || 0 < n <= |data|
      ensures n == Outcome(old(script), |data|)
      ensures script == if old(script) == [] then [] else old(script)[1..]
      ensures Log == old(Log) + (if n == WriteError then [] else data[..n])
      ensures Errors == old(Errors) + (if n == WriteError then 1 else 0)
    {
      n := Outcome(script, |data|);
      if script != [] {
        script := script[1..];
      }
      if n == WriteError {
        Errors := Errors + 1;
      } else {
        Log := Log + data[..n];
      }
    }
  }

  /**
   * The buffer: `buf` of fixed `capacity`, of which the first `startPos`
   * bytes are pending data not yet handed to `sink`.
   */
  class WriteStreamBuffer {
    const sink: Sink
    const buf: array<byte>
    const capacity: int
    var startPos: int

    ghost predicate Valid()
      reads this
    {
      buf.Length == capacity && 0 < capacity && 0 <= startPos <= capacity
    }

    /** The bytes accepted by `Write` and not yet delivered to the sink. */
    ghost function Pending(): (p: seq<byte>)
      reads this, buf
      requires Valid()
      ensures |p| == startPos
    {
      buf[..startPos]
    }

    /** Every byte handed to the buffer so far, in order: what the sink took, then what is pending. */
    ghost function Accounted(): seq<byte>
      reads this, buf, sink
      requires Valid()
    {
      sink.Log + Pending()
    }

    /** `ff_write_stream_buffer_create`: an empty buffer with a zero-filled storage. */
    constructor (sink: Sink, capacity: int)
      requires capacity > 0
      ensures Valid() && fresh(buf)
      ensures this.sink == sink && this.capacity == capacity
      ensures startPos == 0 && Pending() == []
      ensures forall i :: 0 <= i < capacity ==> buf[i] == 0
    {
      this.sink := sink;
      this.capacity := capacity;
      buf := new byte[capacity](_ => 0);
      startPos := 0;
    }

    /** The `memcpy` into the free space and the advance of `start_pos`. */
    method Fill(chunk: seq<byte>)
      requires Valid() && |chunk| <= capacity - startPos
      modifies this, buf
      ensures Valid()
      ensures startPos == old(startPos) + |chunk|
      ensures Pending() == old(Pending()) + chunk
      ensures Accounted() == old(Accounted()) + chunk
    {
      forall i | 0 <= i < |chunk| {
        buf[startPos + i] := chunk[i];
      }
      startPos := startPos + |chunk|;
    }

    /**
     * `ff_write_stream_buffer_flush`: hand the pending bytes to the sink,
     * reissuing the rest after every short write.
     */
    method Flush() returns (result: FfResult)
      requires Valid()
      modifies this, sink
      ensures Valid()
      ensures sink.Errors == old(sink.Errors) + (if result == Failure then 1 else 0)
      ensures result == Success ==> startPos == 0 && sink.Log == old(sink.Log) + old(Pending())
      ensures result == Failure ==>
        startPos == old(startPos) && Pending() == old(Pending()) &&
        old(sink.Log) <= sink.Log < old(sink.Log) + old(Pending())
      ensures old(startPos) == 0 ==> result == Success && sink.script == old(sink.script)
      // a sink whose next reply takes everything is called exactly once
      ensures old(startPos) > 0 && old(sink.script) != [] &&
              old(sink.script)[0].Accept? && old(sink.script)[0].limit >= old(startPos) ==>
        result == Success && sink.script == old(sink.script)[1..]
    {
      var totalBytesWritten := 0;
      var bytesToWrite := startPos;
      while bytesToWrite > 0
        invariant 0 <= totalBytesWritten && 0 <= bytesToWrite && totalBytesWritten + bytesToWrite == startPos
        invariant startPos == old(startPos)
        invariant sink.Log == old(sink.Log) + buf[..totalBytesWritten]
        invariant sink.Errors == old(sink.Errors)
        invariant totalBytesWritten == 0 ==> sink.script == old(sink.script)
        invariant totalBytesWritten > 0 && old(sink.script) != [] && old(sink.script)[0].Accept? &&
                  old(sink.script)[0].limit >= old(startPos) ==>
          bytesToWrite == 0 && sink.script == old(sink.script)[1..]
        decreases bytesToWrite
      {
        var bytesWritten := sink.Write(buf[totalBytesWritten..totalBytesWritten + bytesToWrite]);
        if bytesWritten == WriteError {
          assert buf[..startPos] == buf[..totalBytesWritten] + buf[totalBytesWritten..startPos];
          return Failure;
        }
        assert buf[..totalBytesWritten + bytesWritten]
            == buf[..totalBytesWritten] + buf[totalBytesWritten..totalBytesWritten + bytesToWrite][..bytesWritten];
        bytesToWrite := bytesToWrite - bytesWritten;
        totalBytesWritten := totalBytesWritten + bytesWritten;
      }
      startPos := 0;
      result := Success;
    }

    /**
     * The direct-write loop of `ff_write_stream_buffer_write`, run on an empty
     * buffer: while at least `capacity` bytes of `data` remain, offer all of
     * them to the sink. `written` is how many leading bytes of `data` the sink took.
     */
    method WriteDirect(data: seq<byte>) returns (ok: bool, written: nat)
      requires Valid() && startPos == 0
      modifies sink
      ensures written <= |data|
      ensures sink.Errors == old(sink.Errors) + (if ok then 0 else 1)
      ensures ok ==> |data| - written < capacity && sink.Log == old(sink.Log) + data[..written]
      ensures !ok ==> old(sink.Log) <= sink.Log < old(sink.Log) + data
      ensures |data| < capacity ==> ok && written == 0 && sink.script == old(sink.script)
      ensures capacity <= |data| && old(sink.script) != [] && old(sink.script)[0] == Refuse ==>
        !ok && sink.Log == old(sink.Log)
    {
      var len := |data|;
      written := 0;
      while len >= capacity
        invariant 0 <= written <= |data| && written + len == |data|
        invariant sink.Log == old(sink.Log) + data[..written]
        invariant sink.Errors == old(sink.Errors)
        invariant written == 0 ==> sink.script == old(sink.script)
        invariant written > 0 ==> capacity <= |data|
        invariant capacity <= |data| && old(sink.script) != [] && old(sink.script)[0] == Refuse ==> written == 0
        decreases len
      {
        var bytesWritten := sink.Write(data[written..]);
        if bytesWritten == WriteError {
          assert data == data[..written] + data[written..];
          return false, written;
        }
        assert data[..written + bytesWritten] == data[..written] + data[written..][..bytesWritten];
        written, len := written + bytesWritten, len - bytesWritten;
      }
      ok := true;
    }

    /**
     * The full-buffer step of `ff_write_stream_buffer_write`: flush, then hand
     * whole buffers' worth of `rest` straight to the sink. `written` is how many
     * leading bytes of `rest` the sink took directly; either failure is reported.
     */
    method FlushAndWriteDirect(rest: seq<byte>) returns (result: FfResult, written: nat)
      requires Valid() && startPos == capacity
      modifies this, sink
      ensures Valid() && written <= |rest|
      ensures old(sink.Log) <= sink.Log
      ensures sink.Errors == old(sink.Errors) + (if result == Failure then 1 else 0)
      ensures result == Success ==>
        startPos == 0 && |rest| - written < capacity && Accounted() == old(Accounted()) + rest[..written]
      ensures result == Failure ==> sink.Log < old(Accounted()) + rest
    {
      written := 0;
      result := Flush();
      if result != Success {
        return;
      }
      var ok;
      ok, written := WriteDirect(rest);
      if !ok {
        result := Failure;
      }
    }

    /**
     * The same step as written: a refused direct write still comes back with
     * the flush's FF_SUCCESS, so only a failed flush (which leaves the buffer
     * full) is reported. `exit` says that the write must stop (`goto end`).
     */
    method FlushAndWriteDirectAsWritten(rest: seq<byte>) returns (result: FfResult, exit: bool, written: nat)
      requires Valid() && startPos == capacity
      modifies this, sink
      ensures Valid() && written <= |rest|
      ensures old(sink.Log) <= sink.Log
      ensures sink.Errors == old(sink.Errors) + (if exit then 1 else 0)
      ensures !exit ==>
        result == Success && startPos == 0 && |rest| - written < capacity &&
        Accounted() == old(Accounted()) + rest[..written]
      ensures exit ==> sink.Log < old(Accounted()) + rest
      ensures result == Failure <==> exit && startPos == capacity
      // a refused direct write after a successful flush: the buffer is empty
      ensures exit && result == Success ==> startPos == 0
      ensures capacity <= |rest| && |old(sink.script)| >= 2 &&
              old(sink.script)[0].Accept? && old(sink.script)[0].limit >= capacity &&
              old(sink.script)[1] == Refuse ==>
        result == Success && exit && startPos == 0 && sink.Log == old(Accounted())
    {
      written := 0;
      result := Flush();
      if result != Success {
        return result, true, written;
      }
      var ok;
      ok, written := WriteDirect(rest);
      // as written: a refused direct write jumps to the exit, `result` untouched
      exit := !ok;
    }

    /**
     * `ff_write_stream_buffer_write`, with a failed direct write reported as a
     * failure: every byte of `data` ends up, in order, either at the sink or in
     * the buffer, and the result is a failure exactly when the sink reported one.
     */
    method Write(data: seq<byte>) returns (result: FfResult)
      requires Valid()
      modifies this, buf, sink
      ensures Valid()
      ensures old(sink.Log) <= sink.Log
      ensures sink.Errors == old(sink.Errors) + (if result == Failure then 1 else 0)
      ensures result == Success ==> sink.Log + Pending() == old(sink.Log) + old(Pending()) + data
      ensures result == Failure ==> sink.Log < old(sink.Log) + old(Pending()) + data
      // data that fits the free space is only copied: no sink call at all
      ensures |data| == 0 || (old(startPos) < capacity && |data| <= capacity - old(startPos)) ==>
        result == Success && sink.script == old(sink.script) && sink.Log == old(sink.Log) &&
        Pending() == old(Pending()) + data
    {
      ghost var whole := old(Accounted()) + data;
      ghost var fits := |data| == 0 || (old(startPos) < capacity && |data| <= capacity - old(startPos));
      // `rest` is the C pair (`char_buf`, `len`): the part of `data` not yet consumed
      var rest := data;
      result := Failure;
      while |rest| > 0
        invariant Valid()
        invariant old(sink.Log) <= sink.Log
        invariant Accounted() + rest == whole
        invariant sink.Errors == old(sink.Errors)
        invariant fits ==> sink.script == old(sink.script) && sink.Log == old(sink.Log) && startPos + |rest| <= capacity
        decreases |rest|
      {
        assert 0 <= startPos <= capacity;
        if capacity == startPos {
          // the buffer is full: flush it, then send whole buffers' worth directly
          ghost var before := Accounted();
          var written;
          result, written := FlushAndWriteDirect(rest);
          if result != Success {
            return;
          }
          Shift(before, rest, written);
          rest := rest[written..];
          if |rest| == 0 {
            break;
          }
        }
        assert startPos < capacity;
        var freeBytesCnt := capacity - startPos;
        var n := if freeBytesCnt > |rest| then |rest| else freeBytesCnt;
        Shift(Accounted(), rest, n);
        Fill(rest[..n]);
        rest := rest[n..];
      }
      result := Success;
      if fits {
        CancelPrefix(sink.Log, Pending(), old(Pending()), data);
      }
    }

    /**
     * `ff_write_stream_buffer_write` as written: after a successful flush, a
     * direct write that the sink refuses leaves through the same exit with the
     * flush's FF_SUCCESS still in `result`.
     */
    method WriteAsWritten(data: seq<byte>) returns (result: FfResult)
      requires Valid()
      modifies this, buf, sink
      ensures Valid()
      ensures old(sink.Log) <= sink.Log
      ensures sink.Errors == old(sink.Errors) || sink.Errors == old(sink.Errors) + 1
      ensures sink.Errors == old(sink.Errors) ==>
        result == Success && sink.Log + Pending() == old(sink.Log) + old(Pending()) + data
      ensures sink.Errors != old(sink.Errors) ==> sink.Log < old(sink.Log) + old(Pending()) + data
      // success in spite of a refusal: nothing is pending, and part of the data is lost
      ensures result == Success && sink.Errors != old(sink.Errors) ==>
        Pending() == [] && sink.Log < old(sink.Log) + old(Pending()) + data
      // only a failed flush is reported: it leaves the buffer full
      ensures result == Failure <==> sink.Errors != old(sink.Errors) && startPos == capacity
      ensures |data| == 0 || (old(startPos) < capacity && |data| <= capacity - old(startPos)) ==>
        result == Success && sink.script == old(sink.script) && sink.Log == old(sink.Log) &&
        Pending() == old(Pending()) + data
      // the discrepancy: flush succeeds, the direct write is refused, FF_SUCCESS comes back
      ensures old(startPos) == capacity && capacity <= |data| && |old(sink.script)| >= 2 &&
              old(sink.script)[0].Accept? && old(sink.script)[0].limit >= capacity &&
              old(sink.script)[1] == Refuse ==>
        result == Success && sink.Errors == old(sink.Errors) + 1 &&
        sink.Log == old(sink.Log) + old(Pending()) && Pending() == []
    {
      ghost var whole := old(Accounted()) + data;
      ghost var fits := |data| == 0 || (old(startPos) < capacity && |data| <= capacity - old(startPos));
      ghost var lost := old(startPos) == capacity && capacity <= |data| && |old(sink.script)| >= 2 &&
              old(sink.script)[0].Accept? && old(sink.script)[0].limit >= capacity &&
              old(sink.script)[1] == Refuse;
      var rest := data;
      result := Failure;
      while |rest| > 0
        invariant Valid()
        invariant old(sink.Log) <= sink.Log
        invariant Accounted() + rest == whole
        invariant sink.Errors == old(sink.Errors)
        invariant fits ==> sink.script == old(sink.script) && sink.Log == old(sink.Log) && startPos + |rest| <= capacity
        invariant lost ==> rest == data && startPos == old(startPos) && sink.script == old(sink.script)
        decreases |rest|
      {
        assert 0 <= startPos <= capacity;
        if capacity == startPos {
          ghost var before := Accounted();
          var exit, written;
          result, exit, written := FlushAndWriteDirectAsWritten(rest);
          if exit {
            // a failed flush returns FF_FAILURE; a refused direct write returns FF_SUCCESS
            return;
          }
          Shift(before, rest, written);
          rest := rest[written..];
          if |rest| == 0 {
            break;
          }
        }
        assert startPos < capacity;
        var freeBytesCnt := capacity - startPos;
        var n := if freeBytesCnt > |rest| then |rest| else freeBytesCnt;
        Shift(Accounted(), rest, n);
        Fill(rest[..n]);
        rest := rest[n..];
      }
      result := Success;
      if fits {
        CancelPrefix(sink.Log, Pending(), old(Pending()), data);
      }
    }
  }

  /**
   * A concrete run of the code as written: a one-byte buffer holding byte 1, a
   * sink that takes that byte and then refuses, and a write of byte 2. The write
   * reports success although byte 2 reached neither the sink nor the buffer.
   */
  method BypassFailureReportedAsSuccess() returns (result: FfResult, ghost delivered: seq<byte>, ghost pending: seq<byte>)
    ensures result == Success
    ensures delivered == [1] && pending == []
  {
    var sink := new Sink([Accept(1), Refuse]);
    var w := new WriteStreamBuffer(sink, 1);
    var first := w.WriteAsWritten([1]);
    assert first == Success && w.Pending() == [1];
    result := w.WriteAsWritten([2]);
    delivered, pending := sink.Log, w.Pending();
  }
}
