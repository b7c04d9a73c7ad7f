/** The backlog of ciphertext: tokio-btls/src/lib.rs, `WriteBuffer`. */
module WriteBuffers {
  import opened Basics
  import opened Transports
  import opened SealBudgets

  /** Smallest capacity a growing byte vector allocates. */
  const MIN_VEC_CAPACITY: nat := 8

  /** Capacity of a byte vector grown to hold `need` bytes: at least double, never below the minimum. */
  function Grown(capacity: nat, need: nat): nat {
    Max(Max(2 * capacity, need), MIN_VEC_CAPACITY)
  }

  /** Capacity the memory bound allows when at most `peak` bytes were ever live or asked for. */
  function CapacityBound(peak: nat): nat { Max(2 * peak, MIN_VEC_CAPACITY) }

  class WriteBuffer {
    var bytes: seq<byte>
    var pos: nat         // bytes[..pos] is written
    var capacity: nat    // of the vector behind `bytes`
    var blocked: bool
    ghost var peak: nat  // most bytes that were ever live plus requested

    ghost predicate Valid()
      reads this
    {
      && (pos < |bytes| || (pos == 0 && bytes == []))
      && |bytes| <= capacity <= CapacityBound(peak)
    }

    constructor ()
      ensures Valid() && Buffered() == [] && !blocked && capacity == peak == 0
    {
      bytes, pos, capacity, blocked, peak := [], 0, 0, false, 0;
    }

    /** The records still to write. */
    function Buffered(): seq<byte>
      requires pos <= |bytes|
      reads this
    {
      bytes[pos..]
    }

    function Len(): nat
      requires pos <= |bytes|
      reads this
    {
      |bytes| - pos
    }

    predicate IsEmpty()
      reads this
    {
      bytes == []
    }

    /** At least `WRITE_BUF_CAPACITY` bytes of backlog. */
    predicate IsFull()
      requires pos <= |bytes|
      reads this
    {
      Len() >= WRITE_BUF_CAPACITY
    }

    /**
      Reserves vector capacity for `extra` more bytes. A reallocation happens only with the written
      prefix already dropped.
     */
    method Grow(extra: nat)
      requires Valid()
      requires pos == 0 || |bytes| + extra <= capacity
      modifies this`capacity, this`peak
      ensures Valid()
      ensures |bytes| + extra <= capacity
      ensures capacity == if |bytes| + extra <= old(capacity) then old(capacity)
                          else Max(Max(2 * old(capacity), Len() + extra), MIN_VEC_CAPACITY)
      ensures peak == Max(old(peak), Len() + extra)
    {
      if capacity - |bytes| < extra {
        capacity := Grown(capacity, |bytes| + extra);
      }
      peak := Max(peak, Len() + extra);
    }

    /**
      Afterwards `extra` bytes fit behind the backlog, which is unchanged. A written prefix survives exactly
      if it is shorter than the backlog and the bytes fit without reallocating.
     */
    method MakeRoom(extra: nat)
      requires Valid()
      modifies this`bytes, this`pos, this`capacity, this`peak
      ensures Valid()
      ensures Buffered() == old(Buffered())
      ensures |bytes| + extra <= capacity
      ensures pos == if old(pos) >= Len() || old(capacity) - |old(bytes)| < extra then 0 else old(pos)
      ensures capacity == old(capacity) || (pos == 0 && capacity == Grown(old(capacity), Len() + extra))
      ensures peak == Max(old(peak), Len() + extra)
    {
      if pos > 0 && (pos >= Len() || capacity - |bytes| < extra) {
        bytes := bytes[pos..];
        pos := 0;
      }
      Grow(extra);
    }

    method Push(record: seq<byte>)
      requires Valid()
      modifies this`bytes, this`pos, this`capacity, this`peak
      ensures Valid()
      ensures Buffered() == old(Buffered()) + record
      ensures peak == Max(old(peak), Len())
    {
      MakeRoom(|record|);
      bytes := bytes + record;
    }

    /** Allocates what the default records of a write take, if several, up to `WRITE_BUF_CAPACITY` of plaintext. */
    method Reserve(total: nat)
      requires Valid()
      modifies this`bytes, this`pos, this`capacity, this`peak
      ensures Valid()
      ensures Buffered() == old(Buffered())
      ensures if total <= MAX_RECORD
              then bytes == old(bytes) && pos == old(pos) && capacity == old(capacity) && peak == old(peak)
              else
                var extra := RecordBytes(MAX_RECORD, RECORD_OVERHEAD, Min(total, WRITE_BUF_CAPACITY));
                && |bytes| + extra <= capacity && peak == Max(old(peak), Len() + extra)
                && extra <= 2 * WRITE_BUF_CAPACITY
    {
      if total > MAX_RECORD {
        var sealed := Min(total, WRITE_BUF_CAPACITY);
        RecordBytesSum(MAX_RECORD, RECORD_OVERHEAD, sealed);
        MakeRoom(sealed + DivCeil(sealed, MAX_RECORD) * RECORD_OVERHEAD);
      }
    }

    /** Appends the `written` bytes sealed into the room made before. */
    method AppendSealed(written: seq<byte>)
      requires Valid() && |bytes| + |written| <= capacity
      modifies this`bytes
      ensures Valid() && Buffered() == old(Buffered()) + written
    {
      bytes := bytes + written;
    }

    /**
      Polls until the backlog is gone or a poll makes no progress.

      Nothing is lost or reordered, only the last poll can be a refusal, and the result tells which. A
      transport that takes all it is offered is polled just once.
     */
    method Drain(transport: Transport) returns (r: Result<()>)
      requires Valid()
      modifies this`bytes, this`pos, this`capacity, transport`wire, transport`polls
      ensures Valid()
      ensures transport.wire + Buffered() == old(transport.wire) + old(Buffered())
      ensures old(transport.wire) <= transport.wire
      ensures r.Ok? <==> Buffered() == []
      ensures r.Ok? ==> capacity == 0
      ensures r.Err? ==> capacity == old(capacity)
      ensures old(transport.polls) <= transport.polls
      ensures Reports(r, transport.polls[|old(transport.polls)|..])
      ensures old(Buffered()) == [] <==> transport.polls == old(transport.polls)
      ensures TookAll(transport.polls[|old(transport.polls)|..]) ==> |transport.polls| <= |old(transport.polls)| + 1
      ensures transport.Planned(|old(transport.polls)|)
    {
      hide Reports, TookAll, Draining;
      DrainingStarts(|bytes| - pos);
      assert transport.polls[|transport.polls|..] == [];
      r := Ok(());
      while pos != |bytes| && r.Ok?
        invariant pos <= |bytes| == |old(bytes)| && capacity == old(capacity)
        invariant transport.wire + Buffered() == old(transport.wire) + old(Buffered())
        invariant old(transport.wire) <= transport.wire
        invariant old(transport.polls) <= transport.polls
        invariant if transport.polls == old(transport.polls) then bytes == old(bytes) && pos == old(pos) && r.Ok?
                  else |old(bytes)| > old(pos)
        invariant transport.Planned(|old(transport.polls)|)
        invariant Draining(r, transport.polls[|old(transport.polls)|..], |bytes| - pos)
        decreases |bytes| - pos, r.Ok?
      {
        ghost var before, rest, new_ := r, Buffered(), transport.polls[|old(transport.polls)|..];
        var answer := transport.PollWrite(Buffered());
        assert transport.polls[|old(transport.polls)|..] == new_ + [answer];
        match answer {
          case Accepted(n, _) =>
            if n == 0 {
              r := Err(WriteZero);
            } else {
              pos := pos + n;
              assert rest == rest[..n] + Buffered();
            }
          case Failed(kind) => r := Err(kind);
          case Blocked => r := Err(WouldBlock);
        }
        DrainingStep(before, new_, answer, |rest|, r, |bytes| - pos);
      }
      DrainingEnds(r, transport.polls[|old(transport.polls)|..], |bytes| - pos);
      if pos == |bytes| {
        bytes, pos, capacity := [], 0, 0;
      }
    }

    /**
      The drain that opens a write. An error of its last poll is an error of the write, save backpressure
      with a buffer below the cap: that sets `blocked`, which otherwise is cleared.

      The backpressure it finds rests on a `Pending` exactly with a transport that did not fail with
      `WouldBlock`.
     */
    method Retry(transport: Transport) returns (r: Result<()>)
      requires Valid()
      modifies this`bytes, this`pos, this`capacity, this`blocked, transport`wire, transport`polls
      ensures Valid()
      ensures transport.wire + Buffered() == old(transport.wire) + old(Buffered())
      ensures old(transport.wire) <= transport.wire
      ensures old(transport.polls) <= transport.polls
      ensures var new_ := transport.polls[|old(transport.polls)|..];
              && RefusalIsFinal(new_)
              && (r.Ok? ==> (blocked <==> Buffered() != []) && (blocked <==> !NoRefusal(new_)))
              && (r.Ok? && blocked ==> BackedByLast(new_) && !IsFull())
              && (r.Err? ==> Reports(r, new_) && (r.error == WouldBlock ==> IsFull()))
              && (TookAll(new_) ==> |new_| <= 1)
              && (old(Buffered()) == [] <==> new_ == [])
              && ((r == Err(WouldBlock) || (r.Ok? && blocked) ==> Founded(new_, [])) <==> !Misreports(new_, []))
      ensures transport.Planned(|old(transport.polls)|)
      ensures r.Err? ==> Buffered() != [] && blocked == old(blocked)
    {
      r := Ok(());
      if bytes != [] {
        ghost var polls := transport.polls;
        var drained := Drain(transport);
        DrainFounded(drained, transport.polls[|polls|..]);
        if drained.Err? && (drained.error != WouldBlock || IsFull()) {
          return drained;
        }
      }
      blocked := bytes != [];
    }

    /** Polls only if not `blocked`; then either the backlog is gone or the last poll left bytes behind. */
    method DrainUnlessBlocked(transport: Transport)
      requires Valid()
      modifies this`bytes, this`pos, this`capacity, transport`wire, transport`polls
      ensures Valid()
      ensures transport.wire + Buffered() == old(transport.wire) + old(Buffered())
      ensures old(transport.wire) <= transport.wire && old(transport.polls) <= transport.polls
      ensures RefusalIsFinal(transport.polls[|old(transport.polls)|..])
      ensures blocked == old(blocked) && (blocked ==> transport.polls == old(transport.polls))
      ensures !blocked && Buffered() != [] ==> Holds(transport.polls[|old(transport.polls)|..])
      ensures old(Buffered()) == [] ==> transport.polls == old(transport.polls)
      ensures TookAll(transport.polls[|old(transport.polls)|..]) ==> |transport.polls| <= |old(transport.polls)| + 1
    {
      hide Reports, RefusalIsFinal, NoRefusal, TookAll, Holds;
      ghost var polls := transport.polls;
      if blocked {
        NothingPolled(transport.polls[|polls|..]);
      } else {
        var drained := Drain(transport);
        ReportsHold(drained, transport.polls[|polls|..]);
      }
    }

    /**
      Sends backlog and `record` together. At most one poll is made, and one for certain if there is no
      backlog. Wherever the transport splits the two, what it does not take stays buffered in order; a
      refusal sets `blocked`.
     */
    method WriteLast(transport: Transport, record: seq<byte>)
      requires Valid()
      modifies this, transport`wire, transport`polls
      ensures Valid()
      ensures transport.wire + Buffered() == old(transport.wire) + old(Buffered()) + record
      ensures old(transport.wire) <= transport.wire && old(transport.polls) <= transport.polls
      ensures var new_ := transport.polls[|old(transport.polls)|..];
              && |new_| <= 1
              && (blocked <==> old(blocked) || !NoRefusal(new_))
              && (new_ == [] ==> old(Buffered()) != [])
              && (new_ != [] && Buffered() != [] ==> Holds(new_))
      ensures old(peak) <= peak <= Max(old(peak), |old(Buffered())| + |record|)
    {
      var answer := SendTogether(transport, record);
      match answer {
        case Accepted(n, _) => Keep(n, record);
        case _ =>
          assert Refused(transport.polls[|old(transport.polls)|..][0]);
          blocked := true;
          Keep(0, record);
      }
    }

    /** One poll offered everything, or none if the transport cannot gather the two parts. */
    method SendTogether(transport: Transport, record: seq<byte>) returns (answer: WritePoll)
      requires Valid()
      modifies transport`wire, transport`polls
      ensures answer.Accepted? ==>
                && answer.n <= answer.offered == Len() + |record|
                && transport.wire == old(transport.wire) + (Buffered() + record)[..answer.n]
      ensures Refused(answer) ==> transport.wire == old(transport.wire)
      ensures transport.polls == old(transport.polls) + [answer]
              || (transport.polls == old(transport.polls) && Len() > 0 && answer == Accepted(0, Len() + |record|))
    {
      if Len() == 0 {
        assert Buffered() + record == record;
        answer := transport.PollWrite(record);
      } else {
        var vectored := transport.IsWriteVectored();
        if vectored {
          answer := transport.PollWriteVectored(Buffered(), record);
        } else {
          answer := Accepted(0, Len() + |record|);
        }
      }
    }

    /** Keeps what is left of the backlog and `record` once the transport took `n` bytes of them. */
    method Keep(n: nat, record: seq<byte>)
      requires Valid() && n <= Len() + |record|
      modifies this`bytes, this`pos, this`capacity, this`peak
      ensures Valid()
      ensures Buffered() == (old(Buffered()) + record)[n..]
      ensures old(peak) <= peak <= Max(old(peak), |old(Buffered())| + |record|)
    {
      var pending := Len();
      if n < pending {
        pos := pos + n;
        Push(record);
      } else {
        var tail := record[n - pending..];
        bytes, pos := [], 0;
        Grow(|tail|);
        bytes := tail;
      }
    }
  }

  /**
    A retry that finds backpressure with no `Pending`: the transport fails with `WouldBlock`, and the
    record stays buffered though no waker is registered.
   */
  method RetryWithoutPending() returns (blocked: bool, polls: seq<WritePoll>)
    ensures blocked && polls == [Failed(WouldBlock)]
  {
    var transport := new Transport([Failed(WouldBlock)], []);
    var buffer := new WriteBuffer();
    buffer.Push([0]);
    var r := buffer.Retry(transport);
    assert |buffer.Buffered()| <= 1;
    assert transport.polls[0] == Failed(WouldBlock) && Refused(transport.polls[0]);
    blocked, polls := buffer.blocked, transport.polls;
  }
}
