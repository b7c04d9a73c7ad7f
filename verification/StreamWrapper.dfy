/** The byte stream handed to the TLS library, buffering both ways: `StreamWrapper`. */
module StreamWrappers {
  import opened Basics
  import opened Transports
  import opened WriteBuffers
  import opened ReadBuffers

  class StreamWrapper {
    const transport: Transport
    const readBuf: ReadBuffer
    const writeBuf: WriteBuffer
    var writeThrough: bool              // whether a record may bypass the buffer
    var shutdownSent: bool              // latched by a successful `SSL_shutdown`
    var readEnd: Option<Result<()>>     // an end held back behind plaintext

    ghost predicate Valid()
      reads this, transport, readBuf, writeBuf
    {
      writeBuf.Valid() && readBuf.Valid() && readBuf.Conserves(transport)
    }

    constructor (transport: Transport)
      requires transport.wire == [] && transport.taken == []
      ensures Valid() && this.transport == transport && fresh(readBuf) && fresh(writeBuf)
      ensures Delivered() == []
      ensures writeBuf.Buffered() == [] && writeBuf.peak == 0 && readBuf.given == []
      ensures !writeThrough && !shutdownSent && readEnd == None
    {
      this.transport := transport;
      readBuf := new ReadBuffer();
      writeBuf := new WriteBuffer();
      writeThrough, shutdownSent, readEnd := false, false, None;
    }

    /** All ciphertext that left the TLS library: accepted by the transport, then still buffered. */
    ghost function Delivered(): seq<byte>
      requires writeBuf.Valid()
      reads this, transport, writeBuf
    {
      transport.wire + writeBuf.Buffered()
    }

    /**
      Takes one record whole, so the TLS library never holds a pending write.

      Only the last record of an unblocked write goes to the transport; any other is buffered.
     */
    method Write(record: seq<byte>)
      requires Valid()
      modifies writeBuf, transport`wire, transport`polls
      ensures Valid()
      ensures Delivered() == old(Delivered()) + record
      ensures old(transport.wire) <= transport.wire && old(transport.polls) <= transport.polls
      ensures var new_ := transport.polls[|old(transport.polls)|..];
              && |new_| <= 1
              && (writeBuf.blocked <==> old(writeBuf.blocked) || !NoRefusal(new_))
              && (new_ != [] ==> writeThrough && !old(writeBuf.blocked))
              && (writeThrough && !old(writeBuf.blocked) && old(writeBuf.Buffered()) == [] ==> |new_| == 1)
              && (new_ != [] && writeBuf.Buffered() != [] ==> Holds(new_))
      ensures !writeThrough ==> writeBuf.Len() == old(writeBuf.Len()) + |record|
      ensures writeBuf.Len() <= old(writeBuf.Len()) + |record|
      ensures old(writeBuf.peak) <= writeBuf.peak <= Max(old(writeBuf.peak), old(writeBuf.Len()) + |record|)
    {
      if writeThrough && !writeBuf.blocked {
        writeBuf.WriteLast(transport, record);
      } else {
        writeBuf.Push(record);
        assert old(Delivered()) + record == transport.wire + (old(writeBuf.Buffered()) + record);
      }
    }

    /**
      Drains the buffer, then flushes the transport.

      Success means every byte delivered so far is accepted and flushed. The result is the account the
      drain gives of the write polls, or the answer to the one flush poll made once nothing is buffered.
     */
    method Flush() returns (r: Result<()>)
      requires Valid()
      modifies writeBuf, transport`wire, transport`polls, transport`flushedTo, transport`flushes
      ensures Valid()
      ensures Delivered() == old(Delivered())
      ensures old(transport.wire) <= transport.wire
      ensures old(transport.polls) <= transport.polls && old(transport.flushes) <= transport.flushes
      ensures r.Ok? ==> writeBuf.Buffered() == [] && transport.flushedTo == |transport.wire|
      ensures var polls, flushes := transport.polls[|old(transport.polls)|..],
                                    transport.flushes[|old(transport.flushes)|..];
              && RefusalIsFinal(polls) && FlushReports(r, polls, flushes)
              && (flushes == [] <==> writeBuf.Buffered() != [])
              && ((r == Err(WouldBlock) ==> Founded(polls, flushes)) <==> !Misreports(polls, flushes))
              && (flushes != [] && |old(transport.flushes)| < |transport.flushPlan| ==>
                    flushes[0] == transport.flushPlan[|old(transport.flushes)|])
              && (old(writeBuf.Buffered()) == [] ==> polls == [])
      ensures writeBuf.blocked == old(writeBuf.blocked) && writeBuf.peak == old(writeBuf.peak)
    {
      ghost var polls, flushes := transport.polls, transport.flushes;
      r := writeBuf.Drain(transport);
      if r.Ok? {
        var flushed := transport.PollFlush();
        r := FlushResult(flushed);
      }
      FlushFounded(r, transport.polls[|polls|..], transport.flushes[|flushes|..]);
    }
  }

  /**
    A flush that reports backpressure with no `Pending`: nothing is buffered, and the flush poll fails with
    `WouldBlock`.
   */
  method FlushWithoutPending() returns (r: Result<()>, polls: seq<WritePoll>, flushes: seq<Poll<()>>)
    ensures r == Err(WouldBlock) && polls == [] && flushes == [Ready(Err(WouldBlock))]
  {
    var transport := new Transport([], [Ready(Err(WouldBlock))]);
    var w := new StreamWrapper(transport);
    r := w.Flush();
    polls, flushes := transport.polls, transport.flushes;
  }
}
