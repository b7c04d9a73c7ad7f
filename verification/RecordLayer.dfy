/**
  The TLS library behind its narrow interface.

  It seals plaintext into records of at most `fragment` bytes, each `overhead` bytes longer than its
  plaintext, and sends pending handshake bytes ahead of the next record. Ciphertext is arbitrary. The
  ghost fields record what was sealed, opened and called.
 */
module RecordLayers {
  import opened Basics
  import opened Transports
  import opened StreamWrappers
  import opened Packers

  /** One piece of output: the application data in it, and the bytes on the wire. */
  datatype Emission = Emission(plain: seq<byte>, cipher: seq<byte>)

  function Plain(log: seq<Emission>): seq<byte> {
    if log == [] then [] else Plain(log[..|log| - 1]) + log[|log| - 1].plain
  }

  function Cipher(log: seq<Emission>): seq<byte> {
    if log == [] then [] else Cipher(log[..|log| - 1]) + log[|log| - 1].cipher
  }

  lemma LogAppend(log: seq<Emission>, e: Emission)
    ensures Plain(log + [e]) == Plain(log) + e.plain
    ensures Cipher(log + [e]) == Cipher(log) + e.cipher
  {
    assert (log + [e])[..|log|] == log;
  }

  /** An `SSL_write`: the plaintext offered and how much of it was sealed. */
  datatype WriteCall = WriteCall(offered: nat, sealed: nat)

  datatype SealLimits = SealLimits(maxFragment: nat, recordOverhead: nat, pendingLen: nat)

  /** What a sealing call offers: the most plaintext to take and the room for its records. */
  datatype Offer = Offer(maxIn: nat, room: nat)

  datatype Sealed = Sealed(consumed: nat, written: seq<byte>)

  /** What the peer sent, as `SSL_read` opens it: plaintext, and at last an end or an error. */
  datatype Item = Byte(value: byte) | End(result: Result<()>)

  function Bytes(data: seq<byte>): (items: seq<Item>)
    ensures |items| == |data|
  {
    seq(|data|, i requires 0 <= i < |data| => Byte(data[i]))
  }

  /** The items of one `SSL_read`: its plaintext, an end, or none if it wants input. */
  function Opened(r: Result<seq<byte>>): seq<Item> {
    match r
    case Ok(data) => if data == [] then [End(Ok(()))] else Bytes(data)
    case Err(kind) => if kind == WouldBlock then [] else [End(Err(kind))]
  }

  lemma BytesAppend(a: seq<byte>, b: seq<byte>)
    ensures Bytes(a + b) == Bytes(a) + Bytes(b)
  {
  }

  /** An `SSL_read`: whether ciphertext was buffered as it was called, and whether it wanted more. */
  datatype ReadCall = ReadCall(buffered: bool, starved: bool)

  /** The outcomes of `SSL_shutdown` that the stream tells apart. */
  datatype ShutdownOutcome = Sent | Received | ZeroReturn | ClosedByAlert | WantIo | ShutdownFailed(kind: ErrorKind)

  /** Nothing is left to send: close_notify is out, or a fatal alert closed the write side before. */
  predicate Closes(o: ShutdownOutcome) { !o.WantIo? && !o.ShutdownFailed? }

  class RecordLayer {
    const fragment: nat
    const overhead: nat
    var pending: seq<byte>          // handshake bytes to send ahead of the next record
    ghost var log: seq<Emission>
    ghost var calls: seq<WriteCall>      // `SSL_write` calls that sealed a record
    ghost var failures: seq<ErrorKind>   // errors of the sealing calls that failed
    ghost var offers: seq<Offer>         // sealing calls without transport I/O
    ghost var declines: nat              // times sealing without transport I/O was declined
    ghost var items: seq<Item>           // results of `SSL_read`, in order
    ghost var opens: seq<ReadCall>
    ghost var shutdowns: seq<ShutdownOutcome>

    ghost predicate Valid()
      reads this
    {
      1 <= fragment <= MAX_RECORD
    }

    constructor (fragment: nat, overhead: nat)
      requires 1 <= fragment <= MAX_RECORD
      ensures Valid() && this.fragment == fragment && this.overhead == overhead
      ensures pending == [] && log == [] && calls == [] && failures == [] && offers == [] && declines == 0
      ensures items == [] && opens == [] && shutdowns == []
    {
      this.fragment, this.overhead := fragment, overhead;
      pending, log, calls, failures, offers, declines, items, opens, shutdowns := [], [], [], [], [], 0, [], [], [];
    }

    /** The ciphertext sealed so far is what `w` got, in order. */
    ghost predicate Synced(w: StreamWrapper)
      requires w.Valid()
      reads this, w, w.transport, w.readBuf, w.writeBuf
    {
      Cipher(log) == w.Delivered()
    }

    /** What sealing into a buffer must reckon with; `None` counts as a decline. */
    method SealAppDataLimits() returns (limits: Option<SealLimits>)
      modifies this`declines
      ensures limits.None? || limits == Some(SealLimits(fragment, overhead, |pending|))
      ensures declines == old(declines) + if limits.None? then 1 else 0
    {
      var available: bool := *;
      limits := if available then Some(SealLimits(fragment, overhead, |pending|)) else None;
      declines := declines + if available then 0 else 1;
    }

    /**
      Seals up to `maxIn` bytes of `bufs` into at most `room` bytes without transport I/O; `None` or an
      error seals nothing.
     */
    method SealAppData(bufs: Slices, maxIn: nat, room: nat) returns (r: Result<Option<Sealed>>)
      modifies this`log, this`pending, this`failures, this`offers, this`declines
      ensures offers == old(offers) + [Offer(maxIn, room)]
      ensures declines == old(declines) + if r == Ok(None) then 1 else 0
      ensures r.Err? ==> r.error.Other? && failures == old(failures) + [r.error]
      ensures r.Ok? ==> failures == old(failures)
      ensures r.Err? || r.value.None? ==> log == old(log) && pending == old(pending)
      ensures r.Ok? && r.value.Some? ==>
                var Sealed(consumed, written) := r.value.value;
                && consumed <= maxIn && consumed <= |Flat(bufs)|
                && (maxIn > 0 && Flat(bufs) != [] ==> consumed > 0)
                && |written| <= room
                && log == old(log) + [Emission(Flat(bufs)[..consumed], written)]
                && pending == []
    {
      offers := offers + [Offer(maxIn, room)];
      var input := Flat(bufs);
      var most := Min(maxIn, |input|);
      var consumed: nat :| consumed <= most && (most > 0 ==> consumed > 0);
      var written: seq<byte> :| |written| <= room;
      var code: int := *;
      var choice: int := *;
      match choice {
        case 0 =>
          failures := failures + [Other(code)];
          r := Err(Other(code));
        case 1 =>
          declines := declines + 1;
          r := Ok(None);
        case _ =>
          log := log + [Emission(input[..consumed], written)];
          pending := [];
          r := Ok(Some(Sealed(consumed, written)));
      }
    }

    /** Seals one record of `plaintext` behind the pending bytes and hands both to `w`, or fails and seals nothing. */
    method SslWrite(w: StreamWrapper, plaintext: seq<byte>) returns (r: Result<nat>)
      requires Valid() && w.Valid() && Synced(w) && plaintext != []
      modifies this`log, this`pending, this`calls, this`failures, w.writeBuf, w.transport`wire, w.transport`polls
      ensures w.Valid() && Synced(w)
      ensures r.Err? ==>
                && failures == old(failures) + [r.error]
                && log == old(log) && pending == old(pending) && calls == old(calls)
                && w.transport.wire == old(w.transport.wire) && w.transport.polls == old(w.transport.polls)
                && w.writeBuf.blocked == old(w.writeBuf.blocked) && w.writeBuf.Buffered() == old(w.writeBuf.Buffered())
                && w.writeBuf.peak == old(w.writeBuf.peak)
      ensures r.Ok? ==>
                && r.value == Min(fragment, |plaintext|)
                && pending == []
                && calls == old(calls) + [WriteCall(|plaintext|, r.value)]
                && Plain(log) == old(Plain(log)) + plaintext[..r.value]
                && failures == old(failures)
                && old(w.transport.wire) <= w.transport.wire && old(w.transport.polls) <= w.transport.polls
                && (var new_ := w.transport.polls[|old(w.transport.polls)|..];
                    && |new_| <= 1
                    && (w.writeBuf.blocked <==> old(w.writeBuf.blocked) || !NoRefusal(new_))
                    && (new_ != [] ==> w.writeThrough && !old(w.writeBuf.blocked))
                    && (w.writeThrough && !old(w.writeBuf.blocked) && old(w.writeBuf.Buffered()) == [] ==> |new_| == 1)
                    && (new_ != [] && w.writeBuf.Buffered() != [] ==> Holds(new_)))
                && (var grown := old(w.writeBuf.Len()) + |old(pending)| + r.value + overhead;
                    && w.writeBuf.Len() <= grown
                    && (!w.writeThrough ==> w.writeBuf.Len() == grown)
                    && old(w.writeBuf.peak) <= w.writeBuf.peak <= Max(old(w.writeBuf.peak), grown))
    {
      var fails: bool := *;
      if fails {
        var kind: ErrorKind := *;
        failures := failures + [kind];
        return Err(kind);
      }
      var n := Min(fragment, |plaintext|);
      var record: seq<byte> := Encrypt(n + overhead);
      var handed := pending + record;
      LogAppend(log, Emission(plaintext[..n], handed));
      log := log + [Emission(plaintext[..n], handed)];
      calls := calls + [WriteCall(|plaintext|, n)];
      pending := [];
      w.Write(handed);
      r := Ok(n);
    }

    /** Some ciphertext of the given length. */
    method Encrypt(len: nat) returns (record: seq<byte>)
      ensures |record| == len
    {
      record := seq(len, _ => 0);
      var any: seq<byte> := *;
      if |any| == len {
        record := any;
      }
    }

    /**
      Any transport I/O of the TLS library outside a write: a handshake, alerts, acknowledgments.

      It reads, hands over records without application data, flushes and queues handshake bytes, in any
      order and number.
     */
    method BioActivity(w: StreamWrapper)
      requires Valid() && w.Valid() && Synced(w) && !w.writeThrough
      modifies this`log, this`pending, w.writeBuf, w.readBuf, w.transport
      ensures w.Valid() && Synced(w)
      ensures Plain(log) == old(Plain(log))
      ensures old(w.transport.wire) <= w.transport.wire
      ensures old(w.transport.polls) <= w.transport.polls && old(w.transport.flushes) <= w.transport.flushes
      ensures w.writeBuf.blocked == old(w.writeBuf.blocked) && w.transport.closes == old(w.transport.closes)
      ensures |old(Cipher(log))| <= |Cipher(log)|
      ensures w.writeBuf.peak <= Max(old(w.writeBuf.peak), old(w.writeBuf.Len()) + |Cipher(log)| - |old(Cipher(log))|)
    {
      hide Plain, Cipher;
      ghost var c := |Cipher(log)|;
      ghost var most := w.writeBuf.Len();
      var steps: nat :| true;
      while steps > 0
        invariant w.Valid() && Synced(w)
        invariant Plain(log) == old(Plain(log))
        invariant old(w.transport.wire) <= w.transport.wire
        invariant old(w.transport.polls) <= w.transport.polls && old(w.transport.flushes) <= w.transport.flushes
        invariant w.writeBuf.blocked == old(w.writeBuf.blocked) && w.transport.closes == old(w.transport.closes)
        invariant c <= |Cipher(log)| && w.writeBuf.peak <= Max(old(w.writeBuf.peak), most + |Cipher(log)| - c)
      {
        var choice: int := *;
        match choice {
          case 0 =>
            var room: nat :| true;
            var _ := w.readBuf.Read(w.transport, room);
          case 1 =>
            var record: seq<byte> := *;
            LogAppend(log, Emission([], record));
            log := log + [Emission([], record)];
            w.Write(record);
          case 2 =>
            var _ := w.Flush();
          case _ =>
            pending := *;
        }
        steps := steps - 1;
      }
    }

    /** Opens at most one record into `room` bytes: plaintext, the end of the stream, or an error. */
    method SslRead(w: StreamWrapper, room: nat) returns (r: Result<seq<byte>>)
      requires Valid() && w.Valid() && Synced(w) && !w.writeThrough && room > 0
      modifies this`log, this`pending, this`items, this`opens, w.writeBuf, w.readBuf, w.transport
      ensures w.Valid() && Synced(w)
      ensures Plain(log) == old(Plain(log))
      ensures old(w.transport.wire) <= w.transport.wire
      ensures w.transport.closes == old(w.transport.closes)
      ensures |old(Cipher(log))| <= |Cipher(log)|
      ensures w.writeBuf.peak <= Max(old(w.writeBuf.peak), old(w.writeBuf.Len()) + |Cipher(log)| - |old(Cipher(log))|)
      ensures r.Ok? ==> |r.value| <= room
      ensures opens == old(opens) + [ReadCall(!old(w.readBuf.IsEmpty()), r == Err(WouldBlock))]
      ensures items == old(items) + Opened(r)
    {
      ghost var buffered := !w.readBuf.IsEmpty();
      BioActivity(w);
      var data: seq<byte> :| |data| <= room;
      var kind: ErrorKind := *;
      var fails: bool := *;
      if fails {
        r := Err(kind);
      } else {
        r := Ok(data);
      }
      items := items + Opened(r);
      opens := opens + [ReadCall(buffered, r == Err(WouldBlock))];
    }

    /** Sends close_notify, unless a fatal alert has closed the write side. */
    method SslShutdown(w: StreamWrapper) returns (outcome: ShutdownOutcome)
      requires Valid() && w.Valid() && Synced(w) && !w.writeThrough
      modifies this`log, this`pending, this`shutdowns, w.writeBuf, w.readBuf, w.transport
      ensures w.Valid() && Synced(w)
      ensures Plain(log) == old(Plain(log))
      ensures old(w.transport.wire) <= w.transport.wire
      ensures old(w.transport.polls) <= w.transport.polls && old(w.transport.flushes) <= w.transport.flushes
      ensures w.transport.closes == old(w.transport.closes)
      ensures |old(Cipher(log))| <= |Cipher(log)|
      ensures w.writeBuf.peak <= Max(old(w.writeBuf.peak), old(w.writeBuf.Len()) + |Cipher(log)| - |old(Cipher(log))|)
      ensures shutdowns == old(shutdowns) + [outcome]
    {
      BioActivity(w);
      outcome := *;
      shutdowns := shutdowns + [outcome];
    }
  }
}
