/** Ciphertext on its way from the transport to the TLS library: tokio-btls/src/lib.rs, `ReadBuffer`. */
module ReadBuffers {
  import opened Basics
  import opened Transports

  class ReadBuffer {
    var bytes: seq<byte>
    var pos: nat            // bytes[..pos] is handed out
    var capacity: nat       // of the vector behind `bytes`
    ghost var given: seq<byte>  // bytes handed to the TLS library so far

    ghost predicate Valid()
      reads this
    {
      if bytes == [] then pos == 0 && capacity == 0 else pos < |bytes| <= capacity
    }

    constructor ()
      ensures Valid() && IsEmpty() && given == []
    {
      bytes, pos, capacity, given := [], 0, 0, [];
    }

    /** Whether no ciphertext is waiting. */
    predicate IsEmpty()
      reads this
    {
      bytes == []
    }

    /** Every byte taken from `transport` was handed on or is waiting, in order. */
    ghost predicate Conserves(transport: Transport)
      requires Valid()
      reads this, transport
    {
      transport.taken == given + bytes[pos..]
    }

    /**
      Hands on as much ciphertext as there is and `room` takes: of what was waiting or, only if nothing was,
      of the one transport read made. No bytes with room to spare mean that the transport ended; an error is
      that of the transport read, and loses nothing. A drained buffer gives its memory back at once.
     */
    method Read(transport: Transport, room: nat) returns (r: Result<seq<byte>>)
      requires Valid() && Conserves(transport)
      modifies this, transport`taken, transport`fills
      ensures Valid() && Conserves(transport)
      ensures old(transport.taken) <= transport.taken
      ensures r.Ok? ==>
                var waiting := old(bytes[pos..]) + transport.taken[|old(transport.taken)|..];
                r.value == waiting[..Min(|waiting|, room)] && given == old(given) + r.value
      ensures r.Err? ==> given == old(given) && IsEmpty()
      ensures if !old(IsEmpty())
              then r.Ok? && transport.fills == old(transport.fills) && transport.taken == old(transport.taken)
              else
                && |transport.fills| == |old(transport.fills)| + 1 && old(transport.fills) <= transport.fills
                && match transport.fills[|old(transport.fills)|].answer
                   case Pending => r == Err(WouldBlock)
                   case Ready(Err(kind)) => r == Err(kind)
                   case Ready(Ok(data)) => r.Ok? && transport.taken == old(transport.taken) + data
      ensures r.Ok? && r.value == [] && room > 0 ==> old(IsEmpty()) && transport.taken == old(transport.taken)
    {
      ghost var taken := transport.taken;
      if bytes == [] {
        var filled := Fill(transport);
        if filled.Err? {
          return Err(filled.error);
        }
      }
      Appended(taken, transport.taken, bytes);
      var data := Take(room);
      r := Ok(data);
    }

    /** Hands on waiting ciphertext, from its start. */
    method Take(room: nat) returns (data: seq<byte>)
      requires pos <= |bytes| <= capacity
      modifies this`bytes, this`pos, this`capacity, this`given
      ensures Valid()
      ensures data == old(bytes[pos..])[..Min(|old(bytes[pos..])|, room)]
      ensures bytes[pos..] == old(bytes[pos..])[|data|..] && given == old(given) + data
      ensures given + bytes[pos..] == old(given) + old(bytes[pos..])
    {
      ghost var waiting := bytes[pos..];
      var n := Min(|bytes| - pos, room);
      data := bytes[pos..pos + n];
      pos, given := pos + n, given + data;
      assert waiting == data + bytes[pos..];
      ConcatAssoc(old(given), data, bytes[pos..]);
      if pos == |bytes| {
        bytes, pos, capacity := [], 0, 0;
      }
    }

    /** Polls the transport for a read exactly once; without data the buffer stays empty and holds no memory. */
    method Fill(transport: Transport) returns (r: Result<()>)
      requires Valid() && IsEmpty() && Conserves(transport)
      modifies this`bytes, this`capacity, transport`taken, transport`fills
      ensures |transport.fills| == |old(transport.fills)| + 1 && old(transport.fills) <= transport.fills
      ensures var poll := transport.fills[|old(transport.fills)|];
              && poll.room == READ_BUF_CAPACITY
              && match poll.answer
                 case Pending => r == Err(WouldBlock)
                 case Ready(Err(kind)) => r == Err(kind)
                 case Ready(Ok(data)) => r.Ok? && bytes == data
      ensures transport.taken == old(transport.taken) + bytes
      ensures pos == 0 && |bytes| <= READ_BUF_CAPACITY
      ensures transport.taken == given + bytes
      ensures capacity == if r.Ok? then READ_BUF_CAPACITY else 0
      ensures r.Err? ==> bytes == []
    {
      var answer := transport.PollRead(READ_BUF_CAPACITY);
      match answer {
        case Pending => r := Err(WouldBlock);
        case Ready(Err(kind)) => r := Err(kind);
        case Ready(Ok(data)) =>
          bytes, capacity := data, READ_BUF_CAPACITY;
          r := Ok(());
      }
    }
  }

  /** What a read took is what it left waiting, if nothing was. */
  lemma Appended(before: seq<byte>, after: seq<byte>, data: seq<byte>)
    ensures before == after ==> after[|before|..] == []
    ensures after == before + data ==> after[|before|..] == data
  {
  }
}
