/** What holds over every run of the stream's operations, against any transport. */
module Runs {
  import opened Basics
  import opened Transports
  import opened WriteBuffers
  import opened RecordLayers
  import opened Packers
  import opened WriteLedgers
  import opened SslStreams

  datatype Op = Write(bufs: Slices) | Flush | Read(room: nat) | Shutdown | Handshake

  /** What the caller learns of one operation. */
  datatype Event =
    | Written(input: seq<byte>, result: Poll<nat>)
    | Flushed(done: bool)
    | ReadBack(room: nat, answer: Poll<()>, data: seq<byte>)
    | OtherIo

  /** The plaintext the caller was told is on its way. */
  function Reported(events: seq<Event>): seq<byte> {
    if events == [] then [] else Reported(events[..|events| - 1]) + Prefix(events[|events| - 1])
  }

  function Prefix(e: Event): seq<byte> {
    if e.Written? && e.result.Ready? && e.result.result.Ok? && e.result.result.value <= |e.input|
    then e.input[..e.result.result.value] else []
  }

  /** The plaintext and ends the caller has seen in reads. */
  function SeenBy(events: seq<Event>): seq<Item> {
    if events == [] then [] else SeenBy(events[..|events| - 1]) + SeenIn(events[|events| - 1])
  }

  function SeenIn(e: Event): seq<Item> {
    if e.ReadBack? then Bytes(e.data) + EndSeen(e.answer, e.data, e.room) else []
  }

  lemma SeenAppend(events: seq<Event>, e: Event)
    ensures SeenBy(events + [e]) == SeenBy(events) + SeenIn(e)
  {
    assert (events + [e])[..|events|] == events;
  }

  /** One step of a run, seen from the write side. */
  ghost predicate Step(v: View, v': View, e: Event, fragment: nat, overhead: nat)
    requires fragment > 0
  {
    && Conserved(v') && Roomy(v')
    && match e
       case Written(input, r) => WriteStep(v, v', input, fragment, overhead, r)
       case Flushed(done) => Drained(v, v') && (done ==> v'.backlog == [])
       case _ => OtherActivity(v, v')
  }

  ghost predicate Run(views: seq<View>, events: seq<Event>, fragment: nat, overhead: nat)
    requires fragment > 0
  {
    && |views| == |events| + 1
    && Conserved(views[0]) && Roomy(views[0])
    && forall k :: 0 <= k < |events| ==> Step(views[k], views[k + 1], events[k], fragment, overhead)
  }

  lemma StepReports(v: View, v': View, e: Event, fragment: nat, overhead: nat)
    requires fragment > 0 && Step(v, v', e, fragment, overhead)
    ensures Plain(v'.log) == Plain(v.log) + Prefix(e)
  {
  }

  /**
    Exactly-once reporting: over every run, the plaintext sealed is the concatenation of the prefixes
    the write calls reported, whatever path each took and whatever the transport did.
   */
  lemma {:induction false} ExactlyOnce(views: seq<View>, events: seq<Event>, fragment: nat, overhead: nat)
    requires fragment > 0 && Run(views, events, fragment, overhead)
    ensures Plain(views[|events|].log) == Plain(views[0].log) + Reported(events)
  {
    if events != [] {
      var n := |events| - 1;
      assert Run(views[..|events|], events[..n], fragment, overhead);
      ExactlyOnce(views[..|events|], events[..n], fragment, overhead);
      StepReports(views[n], views[n + 1], events[n], fragment, overhead);
      ConcatAssoc(Plain(views[0].log), Reported(events[..n]), Prefix(events[n]));
    }
  }

  /** The transport has exactly the records of all that was reported. */
  ghost predicate Caught(v: View, events: seq<Event>) {
    v.wire == Cipher(v.log) && Plain(v.log) == Reported(events)
  }

  /** Once the backlog is gone, the transport has all of it and nothing else. */
  lemma DrainedRunDelivers(views: seq<View>, events: seq<Event>, fragment: nat, overhead: nat)
    requires fragment > 0 && Run(views, events, fragment, overhead)
    requires views[0].log == [] && views[|events|].backlog == []
    ensures Caught(views[|events|], events)
  {
    ExactlyOnce(views, events, fragment, overhead);
    assert views[|events|].wire + [] == views[|events|].wire;
    if |events| > 0 {
      assert Step(views[|events| - 1], views[|events|], events[|events| - 1], fragment, overhead);
    }
  }

  /** A run that ends in a successful flush has delivered everything its writes reported. */
  lemma FlushDelivers(views: seq<View>, events: seq<Event>, fragment: nat, overhead: nat)
    requires fragment > 0 && Run(views, events, fragment, overhead) && views[0].log == []
    requires events != [] && events[|events| - 1] == Flushed(true)
    ensures Caught(views[|events|], events)
  {
    assert Step(views[|events| - 1], views[|events|], events[|events| - 1], fragment, overhead);
    DrainedRunDelivers(views, events, fragment, overhead);
  }

  /**
    Even without a flush, a run that ends in a successful write has delivered everything, unless sealing
    failed in that write or the last transport write in it left bytes behind.
   */
  lemma WriteDelivers(views: seq<View>, events: seq<Event>, fragment: nat, overhead: nat)
    requires fragment > 0 && Run(views, events, fragment, overhead) && views[0].log == []
    requires events != [] && events[|events| - 1].Written?
    requires events[|events| - 1].result.Ready? && events[|events| - 1].result.result.Ok?
    requires var v, v' := views[|events| - 1], views[|events|];
             v'.failures == v.failures && v.polls <= v'.polls && !Holds(v'.polls[|v.polls|..])
    ensures Caught(views[|events|], events)
  {
    assert Step(views[|events| - 1], views[|events|], events[|events| - 1], fragment, overhead);
    DrainedRunDelivers(views, events, fragment, overhead);
  }

  /** At most `pending` handshake bytes wait at the start and whenever the TLS library may have queued some. */
  ghost predicate PendingWithin(views: seq<View>, events: seq<Event>, pending: nat)
    requires |views| == |events| + 1
  {
    && views[0].pending <= pending
    && forall k :: 0 <= k < |events| && Other(events[k]) ==> views[k + 1].pending <= pending
  }

  predicate Other(e: Event) { !e.Written? && !e.Flushed? }

  /** Ciphertext of the TLS library's own: what reads, handshakes and shutdowns handed over. */
  function OwnOutput(views: seq<View>, events: seq<Event>): nat
    requires |views| == |events| + 1
  {
    if events == [] then 0 else
      var n := |events| - 1;
      OwnOutput(views[..|events|], events[..n]) +
      if Other(events[n]) then Monus(|Cipher(views[n + 1].log)|, |Cipher(views[n].log)|) else 0
  }

  /**
    Bounded backlog and memory: over any run the ciphertext buffered, the most ever live or asked for at
    once, and the capacity of the buffer stay below constants of the record layer plus what the TLS library
    itself handed over.
   */
  lemma {:induction false} BoundedBuffers(views: seq<View>, events: seq<Event>, fragment: nat, overhead: nat,
                                          pending: nat)
    requires fragment > 0 && Run(views, events, fragment, overhead) && PendingWithin(views, events, pending)
    ensures views[|events|].pending <= pending
    ensures var most := Max(|views[0].backlog|, WriteBound(fragment, overhead, pending)) + OwnOutput(views, events);
            && |views[|events|].backlog| <= most
            && views[|events|].peak <= Max(views[0].peak, most + 2 * WRITE_BUF_CAPACITY)
            && views[|events|].capacity <= CapacityBound(Max(views[0].peak, most + 2 * WRITE_BUF_CAPACITY))
  {
    hide WriteBound, Cipher, WriteStep, OtherActivity;
    if events != [] {
      var n := |events| - 1;
      var before := views[..|events|];
      assert Run(before, events[..n], fragment, overhead) && PendingWithin(before, events[..n], pending);
      BoundedBuffers(before, events[..n], fragment, overhead, pending);
      WriteBoundIn(fragment, overhead, views[n].pending, pending);
      assert Step(views[n], views[n + 1], events[n], fragment, overhead);
      RunConserves(views, events, fragment, overhead, n);
      RunConserves(views, events, fragment, overhead, n + 1);
      StepBounded(views[n], views[n + 1], events[n], fragment, overhead,
                  Max(|views[0].backlog|, WriteBound(fragment, overhead, pending)) + OwnOutput(before, events[..n]),
                  views[0].peak);
    }
  }

  lemma RunConserves(views: seq<View>, events: seq<Event>, fragment: nat, overhead: nat, k: nat)
    requires fragment > 0 && Run(views, events, fragment, overhead) && k <= |events|
    ensures Conserved(views[k]) && Roomy(views[k])
  {
    if k > 0 {
      assert Step(views[k - 1], views[k], events[k - 1], fragment, overhead);
    }
  }

  /** A step keeps the backlog below `most`, but for output of the TLS library's own. */
  lemma StepBounded(v: View, v': View, e: Event, fragment: nat, overhead: nat, most: nat, peak: nat)
    requires fragment > 0 && Step(v, v', e, fragment, overhead) && Conserved(v)
    requires WriteBound(fragment, overhead, v.pending) <= most && |v.backlog| <= most
    requires v.peak <= Max(peak, most + 2 * WRITE_BUF_CAPACITY)
    ensures Other(e) || v'.pending <= v.pending
    ensures var most' := most + if Other(e) then Monus(|Cipher(v'.log)|, |Cipher(v.log)|) else 0;
            && |v'.backlog| <= most'
            && v'.peak <= Max(peak, most' + 2 * WRITE_BUF_CAPACITY)
  {
    hide WriteBound, Plain;
    assert |Cipher(v.log)| == |v.wire| + |v.backlog| && |Cipher(v'.log)| == |v'.wire| + |v'.backlog|;
  }

  lemma WriteBoundIn(fragment: nat, overhead: nat, a: nat, b: nat)
    requires fragment > 0 && a <= b
    ensures WriteBound(fragment, overhead, a) <= WriteBound(fragment, overhead, b)
  {
  }

  // ----- The stream makes such runs -----

  /**
    Any sequence of operations on a stream is a run. It seals exactly what its writes reported; and what
    its reads returned, with an end still held, is exactly what `SSL_read` produced.
   */
  method Drive(stream: SslStream, ops: seq<Op>) returns (ghost views: seq<View>, ghost events: seq<Event>)
    requires stream.ValidAll()
    modifies stream, stream.w, stream.w.writeBuf, stream.w.readBuf, stream.w.transport, stream.tls
    ensures stream.ValidAll()
    ensures |events| == |ops| && views != []
    ensures views[0] == old(stream.Snapshot()) && views[|views| - 1] == stream.Snapshot()
    ensures Run(views, events, stream.tls.fragment, stream.tls.overhead)
    ensures Plain(stream.tls.log) == old(Plain(stream.tls.log)) + Reported(events)
    ensures stream.seen == old(stream.seen) + SeenBy(events)
    ensures stream.tls.items == old(stream.seen) + SeenBy(events) + stream.Held()
    ensures forall k :: 0 <= k < |ops| ==> Answers(ops[k], events[k])
  {
    views, events := [stream.Snapshot()], [];
    assert Run(views, events, stream.tls.fragment, stream.tls.overhead) && SeenBy(events) == [];
    hide Run, Step, SeenBy, SeenIn, Reported, Answers, Plain, Cipher;
    for i := 0 to |ops|
      invariant stream.ValidAll()
      invariant |events| == i && |views| == i + 1
      invariant views[0] == old(stream.Snapshot()) && views[i] == stream.Snapshot()
      invariant Run(views, events, stream.tls.fragment, stream.tls.overhead)
      invariant stream.seen == old(stream.seen) + SeenBy(events)
      invariant forall k :: 0 <= k < i ==> Answers(ops[k], events[k])
    {
      ghost var event := Apply(stream, ops[i]);
      SeenAppend(events, event);
      ConcatAssoc(old(stream.seen), SeenBy(events), SeenIn(event));
      RunAppend(views, events, stream.Snapshot(), event, stream.tls.fragment, stream.tls.overhead);
      views, events := views + [stream.Snapshot()], events + [event];
    }
    ExactlyOnce(views, events, stream.tls.fragment, stream.tls.overhead);
  }

  lemma RunAppend(views: seq<View>, events: seq<Event>, v: View, e: Event, fragment: nat, overhead: nat)
    requires fragment > 0 && Run(views, events, fragment, overhead)
    requires Step(views[|events|], v, e, fragment, overhead)
    ensures Run(views + [v], events + [e], fragment, overhead)
  {
  }

  /** The event is of the kind the operation makes. */
  predicate Answers(op: Op, e: Event) {
    match op
    case Write(bufs) => e.Written? && e.input == Flat(bufs)
    case Flush => e.Flushed?
    case Read(room) => e.ReadBack? && e.room == room
    case _ => e.OtherIo?
  }

  method Apply(stream: SslStream, op: Op) returns (ghost event: Event)
    requires stream.ValidAll()
    modifies stream, stream.w, stream.w.writeBuf, stream.w.readBuf, stream.w.transport, stream.tls
    ensures stream.ValidAll()
    ensures Step(old(stream.Snapshot()), stream.Snapshot(), event, stream.tls.fragment, stream.tls.overhead)
    ensures stream.seen == old(stream.seen) + SeenIn(event)
    ensures Answers(op, event)
  {
    hide WriteStep, OtherActivity, RefusedFull, SealingBlocked, FlushReports, Founded, Misreports;
    hide Plain, Cipher, CapacityBound, RefusalIsFinal;
    match op {
      case Write(bufs) =>
        var r := stream.PollWriteVectored(bufs);
        event := Written(Flat(bufs), r);
      case Flush =>
        var r := stream.PollFlush();
        event := Flushed(r.Ready? && r.result.Ok?);
      case Read(room) =>
        var r, data := stream.PollRead(room);
        event := ReadBack(room, r, data);
        ConcatAssoc(old(stream.seen), Bytes(data), EndSeen(r, data, room));
      case Shutdown =>
        var _, _, _, _ := stream.PollShutdown();
        event := OtherIo;
      case Handshake =>
        var _ := stream.PollHandshake();
        event := OtherIo;
    }
  }
}
