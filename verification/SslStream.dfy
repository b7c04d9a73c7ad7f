/** The asynchronous TLS stream: tokio-btls/src/lib.rs, `SslStream`. */
module SslStreams {
  import opened Basics
  import opened Transports
  import opened StreamWrappers
  import opened RecordLayers
  import opened Packers
  import opened SealBudgets
  import opened FallbackTallies
  import opened WriteLedgers

  class SslStream {
    const w: StreamWrapper
    const tls: RecordLayer
    const top: nat                    // largest `usize`
    ghost var seen: seq<Item>         // what reads reported to the caller
    ghost var sealed: seq<nat>        // ciphertext sealed by each shutdown poll of the transport

    ghost predicate Valid()
      reads this, w, w.transport, w.readBuf, w.writeBuf, tls
    {
      && top >= 4 * WRITE_BUF_CAPACITY
      && tls.Valid() && w.Valid() && tls.Synced(w) && !w.writeThrough
    }

    constructor (w: StreamWrapper, tls: RecordLayer, top: nat)
      requires w.Valid() && tls.Valid() && tls.Synced(w) && !w.writeThrough
      requires top >= 4 * WRITE_BUF_CAPACITY
      requires w.readEnd == None && tls.items == [] && tls.shutdowns == [] && !w.shutdownSent
      requires w.transport.closes == []
      ensures ValidAll() && this.w == w && this.tls == tls && this.top == top && seen == []
    {
      this.w, this.tls, this.top, seen, sealed := w, tls, top, [], [];
    }

    ghost function Snapshot(): View
      requires w.writeBuf.Valid()
      reads this, w, w.transport, w.writeBuf, tls
    {
      View(tls.log, w.transport.wire, w.writeBuf.Buffered(), w.transport.polls,
           tls.calls, tls.failures, |tls.pending|, w.writeBuf.peak, w.writeBuf.capacity)
    }

    /** In the write polls since `start` a refusal is final, and `blocked` says whether there was one. */
    ghost predicate Quiet(start: nat)
      reads this, w, w.transport, w.writeBuf
    {
      && start <= |w.transport.polls|
      && RefusalIsFinal(w.transport.polls[start..])
      && (w.writeBuf.blocked <==> !NoRefusal(w.transport.polls[start..]))
    }

    /**
      The TLS library has declined to seal since there were `declines` refusals, or the room for the
      records of a write could overflow.
     */
    ghost predicate Forced(declines: nat, pending: nat)
      requires tls.fragment > 0
      reads tls`declines
    {
      declines < tls.declines || BacklogBound(tls.fragment, tls.overhead, pending) > top
    }

    /**
      Since `offers`, sealing into the buffer was offered just the budget, in the room its records and the
      pending bytes take; or not offered, for the TLS library had declined or that room overflows.
     */
    ghost predicate Budgeted(offers: seq<Offer>, declines: nat, pending: nat, buffered: nat, total: nat)
      requires tls.fragment > 0
      reads tls`offers, tls`declines
    {
      var budget := SealBudget(top, tls.fragment, tls.overhead, pending, buffered, total);
      var room := pending + RecordBytes(tls.fragment, tls.overhead, budget);
      || (tls.offers == offers && (room > top || declines < tls.declines))
      || (tls.offers == offers + [Offer(budget, room)] && room <= top)
    }

    /** Ends a write: drains unless the transport refused in it. */
    method FinalDrain(ghost start: nat)
      requires Valid() && Quiet(start)
      modifies w.writeBuf, w.transport`wire, w.transport`polls
      ensures Valid()
      ensures Extends(old(Snapshot()), Snapshot()) && Drained(old(Snapshot()), Snapshot())
      ensures RefusalIsFinal(w.transport.polls[start..]) && Gone(Snapshot(), start)
      ensures OneWrite(old(Snapshot()), Snapshot())
    {
      ghost var before := w.transport.polls[start..];
      ghost var polls := w.transport.polls;
      w.writeBuf.DrainUnlessBlocked(w.transport);
      assert w.transport.polls[start..] == before + w.transport.polls[|polls|..];
      if !w.writeBuf.blocked {
        RefusalAppend(before, w.transport.polls[|polls|..]);
        if w.writeBuf.Buffered() != [] {
          HoldsAppend(before, w.transport.polls[|polls|..]);
        }
      } else {
        RefusedHolds(before);
      }
    }

    /** Everything but the record being sealed is in order. */
    ghost predicate Sealing(start: nat)
      reads this, w, w.transport, w.readBuf, w.writeBuf, tls
    {
      && top >= 4 * WRITE_BUF_CAPACITY
      && tls.Valid() && w.Valid() && tls.Synced(w) && Quiet(start)
    }

    /** Seals one record. Only if `through` may it go straight out, and then it does if nothing holds it up. */
    method SealRecord(record: seq<byte>, through: bool, ghost start: nat) returns (r: Result<nat>)
      requires Sealing(start) && record != []
      modifies w`writeThrough, w.writeBuf, w.transport`wire, w.transport`polls
      modifies tls`log, tls`pending, tls`calls, tls`failures
      ensures Sealing(start) && Extends(old(Snapshot()), Snapshot())
      ensures r.Err? ==> SealedNothing(old(Snapshot()), Snapshot(), [r.error])
      ensures r.Ok? ==> SealedRecord(old(Snapshot()), Snapshot(), record, r.value, tls.fragment, tls.overhead, through)
      ensures r.Ok? && through && !old(w.writeBuf.blocked) && old(w.writeBuf.Buffered()) == [] ==>
                |w.transport.polls| == |old(w.transport.polls)| + 1
    {
      hide RefusalIsFinal, NoRefusal, Holds, Plain, Cipher;
      w.writeThrough := through;
      ghost var before, polls := w.transport.polls[start..], w.transport.polls;
      r := tls.SslWrite(w, record);
      if r.Ok? {
        assert w.transport.polls[start..] == before + w.transport.polls[|polls|..];
        OnePollIsFinal(w.transport.polls[|polls|..]);
        if NoRefusal(before) {
          RefusalAppend(before, w.transport.polls[|polls|..]);
        } else {
          assert w.transport.polls == polls;
        }
      }
    }

    /** Packs the next record and seals it with one `SSL_write`. */
    method SealNext(packer: Packer, last: bool, written: nat, total: nat, ghost prev: nat, ghost start: nat)
        returns (step: RecordTurn)
      requires Sealing(start)
      requires packer.Valid() && prev > 0 && Crowded(packer.bufs, |packer.Rest()|, packer.limit, prev)
      requires written + |packer.Rest()| == |Flat(packer.bufs)|
      modifies packer`i, packer`off, packer`scratch
      modifies w`writeThrough, w.writeBuf, w.transport`wire, w.transport`polls
      modifies tls`log, tls`pending, tls`calls, tls`failures
      ensures Sealing(start) && Extends(old(Snapshot()), Snapshot())
      ensures packer.Valid() && packer.Rest() == old(packer.Rest())
      ensures TurnFits(step, packer.Rest(), packer.limit, prev, written, packer.bufs)
      ensures TurnSeals(step, old(Snapshot()), Snapshot(), tls.fragment, tls.overhead, top, last, written, total)
      ensures step.Took? && last && SaturatingAdd(top, written, |step.record|) >= total
                && !old(w.writeBuf.blocked) && old(w.writeBuf.Buffered()) == [] ==>
                |w.transport.polls| == |old(w.transport.polls)| + 1
      ensures step.Took? ==> Crowded(packer.bufs, |packer.Rest()| - |step.record|, packer.limit, |step.record|)
    {
      hide Plain, Cipher, Flat, Crowded;
      var next := packer.NextRecord(prev);
      if next.None? {
        assert Snapshot() == old(Snapshot());
        return Finished;
      }
      var sealed := SealRecord(next.value, last && SaturatingAdd(top, written, |next.value|) >= total, start);
      step := match sealed case Ok(n) => Took(next.value, n) case Err(kind) => Broke(kind);
    }

    /**
      Writes through `SSL_write`, a record at a time.

      At most one call seals less than it was offered. Unless a call fails, sealing goes on to the end of
      the input or until a full buffer has been sealed with more than a default record to go. That is
      exactly `SliceLoop`, and `SealBudget` for one flat slice, whatever the transport accepts.
     */
    method SslWriteRecords(bufs: Slices, total: nat, ghost start: nat) returns (r: Result<nat>)
      requires Valid() && Quiet(start)
      requires Flat(bufs) != [] && total == Min(|Flat(bufs)|, top) && w.writeBuf.Len() < WRITE_BUF_CAPACITY
      modifies w`writeThrough, w.writeBuf, w.transport`wire, w.transport`polls
      modifies tls`log, tls`pending, tls`calls, tls`failures
      ensures Valid()
      ensures Extends(old(Snapshot()), Snapshot())
      ensures ReportedOnce(old(Snapshot()), Snapshot(), Flat(bufs), r)
      ensures Gone(Snapshot(), start) && RefusalIsFinal(w.transport.polls[start..])
      ensures FewWrites(old(Snapshot()), Snapshot(), 0)
      ensures WithinFallback(old(Snapshot()), Snapshot(), tls.fragment, tls.overhead, r)
      ensures tls.failures == old(tls.failures) ==>
                r.Ok? && Exhausts(old(Snapshot()), Snapshot(), total, |Flat(bufs)|, r.value)
      ensures tls.failures == old(tls.failures) ==>
                r == Ok(SliceLoop(bufs, tls.fragment, tls.overhead, old(w.writeBuf.Len() + |tls.pending|), 0,
                                  MAX_RECORD, total))
      ensures |bufs| == 1 && total == |Flat(bufs)| && tls.failures == old(tls.failures) ==>
                r == Ok(SealBudget(top, tls.fragment, tls.overhead, old(|tls.pending|), old(w.writeBuf.Len()), total))
    {
      hide FewWrites, OneWrite, Exhausts, WithinFallback, ReportedOnce, Settled, FallbackBound, Plain, Cipher, Flat;
      ghost var v0 := Snapshot();
      var written, err, c := SealAll(bufs, total, start);
      ghost var v := Snapshot();
      assert Conserved(v0) && Conserved(v);
      FinalDrain(start);
      r := if err.Some? && written == 0 then Err(err.value) else Ok(written);
      FallbackOutcome(c, v0, v, Snapshot(), Flat(bufs), bufs, top, written, err, r);
    }

    /** Everything in `SslWriteRecords` but its final drain. */
    method SealAll(bufs: Slices, total: nat, ghost start: nat)
        returns (written: nat, err: Option<ErrorKind>, ghost c: Call)
      requires Valid() && Quiet(start)
      requires Flat(bufs) != [] && total == Min(|Flat(bufs)|, top) && w.writeBuf.Len() < WRITE_BUF_CAPACITY
      modifies w`writeThrough, w.writeBuf, w.transport`wire, w.transport`polls
      modifies tls`log, tls`pending, tls`calls, tls`failures
      ensures Valid() && Quiet(start) && Extends(old(Snapshot()), Snapshot())
      ensures c == Call(tls.fragment, tls.overhead, old(|tls.pending|), old(w.writeBuf.Len()), total, |Flat(bufs)|)
      ensures Settled(c, old(Snapshot()), Snapshot(), Flat(bufs), bufs, written, err)
      ensures total > MAX_RECORD ==>
                w.writeBuf.peak >= c.start + RecordBytes(MAX_RECORD, RECORD_OVERHEAD, Min(total, WRITE_BUF_CAPACITY))
    {
      hide Settled, RecordBytes, Plain, Cipher;
      ghost var v0 := Snapshot();
      MakeAhead(total);
      FallbackBoundFloor(tls.fragment, tls.overhead, |tls.pending|);
      c := Call(tls.fragment, tls.overhead, |tls.pending|, w.writeBuf.Len(), total, |Flat(bufs)|);
      var packer := new Packer(bufs);
      written, err := SealLoop(packer, total, c, v0, start);
      w.writeThrough := false;
    }

    /** Allocates ahead for the records of a write. */
    method MakeAhead(total: nat)
      requires Valid()
      modifies w.writeBuf
      ensures Valid() && w.writeBuf.blocked == old(w.writeBuf.blocked)
      ensures Snapshot() == old(Snapshot()).(peak := w.writeBuf.peak, capacity := w.writeBuf.capacity)
      ensures old(w.writeBuf.peak) <= w.writeBuf.peak
                <= Max(old(w.writeBuf.peak), old(w.writeBuf.Len()) + 2 * WRITE_BUF_CAPACITY)
      ensures total > MAX_RECORD ==>
                w.writeBuf.peak >= old(w.writeBuf.Len()) +
                                   RecordBytes(MAX_RECORD, RECORD_OVERHEAD, Min(total, WRITE_BUF_CAPACITY))
    {
      hide RecordBytes, Plain, Cipher;
      w.writeBuf.Reserve(total);
    }

    /** The loop of `SslWriteRecords`, over a fresh packer. */
    method SealLoop(packer: Packer, total: nat, ghost c: Call, ghost v0: View, ghost start: nat)
        returns (written: nat, err: Option<ErrorKind>)
      requires Sealing(start) && packer.Valid() && packer.limit == MAX_RECORD && packer.Rest() == Flat(packer.bufs)
      requires Starts(c, v0, Snapshot(), Flat(packer.bufs))
      requires c.fragment == tls.fragment && c.overhead == tls.overhead && c.total == total <= top
      modifies packer`i, packer`off, packer`scratch, packer`limit
      modifies w`writeThrough, w.writeBuf, w.transport`wire, w.transport`polls
      modifies tls`log, tls`pending, tls`calls, tls`failures
      ensures Sealing(start) && Extends(v0, Snapshot()) && old(w.writeBuf.peak) <= w.writeBuf.peak
      ensures Settled(c, v0, Snapshot(), Flat(packer.bufs), packer.bufs, written, err)
    {
      ghost var flat := Flat(packer.bufs);
      ghost var t := Opening(c);
      var through := true;
      written, err := 0, None;
      StartsMidway(c, v0, Snapshot(), flat, packer.bufs);
      ghost var v := Snapshot();
      var more := true;
      while more
        invariant Sealing(start) && Extends(v0, v) && v == Snapshot() && old(w.writeBuf.peak) <= w.writeBuf.peak
        invariant more ==> AtTurn(packer, c, t, v0, v) && err.None? && written == t.written && through == t.through
        invariant !more ==> Settled(c, v0, v, flat, packer.bufs, written, err)
        decreases more, |flat| - written
      {
        more, written, through, err, t, v := Turn(packer, written, total, through, c, t, v0, v, start);
      }
    }

    /** The loop is about to seal the next record. */
    ghost predicate AtTurn(packer: Packer, c: Call, t: Tally, v0: View, v: View)
      reads packer
    {
      && packer.Valid() && packer.limit == t.limit
      && Midway(c, t, v0, v, Flat(packer.bufs), packer.bufs)
      && packer.Rest() == Flat(packer.bufs)[t.written..]
      && Crowded(packer.bufs, |packer.Rest()|, packer.limit, t.prev)
    }

    /** One turn of the loop of `SslWriteRecords`: whether to go on, and where it stands then. */
    method Turn(packer: Packer, written: nat, total: nat, through: bool,
                ghost c: Call, ghost t: Tally, ghost v0: View, ghost v: View, ghost start: nat)
        returns (more: bool, written': nat, through': bool, err: Option<ErrorKind>, ghost t': Tally, ghost v': View)
      requires Sealing(start) && v == Snapshot() && Extends(v0, v)
      requires AtTurn(packer, c, t, v0, v) && written == t.written && through == t.through
      requires c.fragment == tls.fragment && c.overhead == tls.overhead && total == c.total <= top
      modifies packer`i, packer`off, packer`scratch, packer`limit
      modifies w`writeThrough, w.writeBuf, w.transport`wire, w.transport`polls
      modifies tls`log, tls`pending, tls`calls, tls`failures
      ensures Sealing(start) && v' == Snapshot() && Extends(v0, v') && v.peak <= v'.peak
      ensures more ==>
                && AtTurn(packer, c, t', v0, v') && err.None? && written' == t'.written && through' == t'.through
                && written < written' <= |Flat(packer.bufs)|
      ensures !more ==> Settled(c, v0, v', Flat(packer.bufs), packer.bufs, written', err)
      ensures err.None? && through && !old(w.writeBuf.blocked) && old(w.writeBuf.Buffered()) == []
                && written < |Flat(packer.bufs)|
                && SaturatingAdd(top, written, NextLen(packer.bufs, written, old(packer.limit))) >= total ==>
                |w.transport.polls| == |old(w.transport.polls)| + 1
    {
      hide Settled, TurnSeals, Midway, FallbackBound, Plain, Cipher, Flat, Crowded, NextLen;
      MidwayRange(c, t, v0, v, Flat(packer.bufs), packer.bufs);
      ghost var flat := Flat(packer.bufs);
      more, written', through', err, t' := false, written, through, None, t;
      var step := TakeRecord(packer, through, written, total, t.prev, start);
      v' := Snapshot();
      ExtendsTrans(v0, v, v');
      TurnSettles(c, t, v0, v, v', flat, packer.bufs, step, top);
      match step {
        case Finished =>
        case Broke(kind) =>
          err := Some(kind);
        case Took(record, n) =>
          t' := Next(c, t, record, n, |v'.backlog|);
          through' := through && n == |record|;
          written' := written + n;
          more := !(w.writeBuf.IsFull() && Monus(total, written') > MAX_RECORD);
      }
    }

    /** Seals the next record and moves past it; if it was sealed short, `n` becomes the limit. */
    method TakeRecord(packer: Packer, last: bool, written: nat, total: nat, ghost prev: nat, ghost start: nat)
        returns (step: RecordTurn)
      requires Sealing(start)
      requires packer.Valid() && prev > 0 && Crowded(packer.bufs, |packer.Rest()|, packer.limit, prev)
      requires written + |packer.Rest()| == |Flat(packer.bufs)|
      modifies packer`i, packer`off, packer`scratch, packer`limit
      modifies w`writeThrough, w.writeBuf, w.transport`wire, w.transport`polls
      modifies tls`log, tls`pending, tls`calls, tls`failures
      ensures Sealing(start) && Extends(old(Snapshot()), Snapshot()) && packer.Valid()
      ensures TurnFits(step, old(packer.Rest()), old(packer.limit), prev, written, packer.bufs)
      ensures TurnSeals(step, old(Snapshot()), Snapshot(), tls.fragment, tls.overhead, top, last, written, total)
      ensures step.Took? && last && SaturatingAdd(top, written, |step.record|) >= total
                && !old(w.writeBuf.blocked) && old(w.writeBuf.Buffered()) == [] ==>
                |w.transport.polls| == |old(w.transport.polls)| + 1
      ensures step.Took? ==>
                && packer.Rest() == old(packer.Rest())[step.n..]
                && packer.limit == (if step.n < |step.record| then step.n else old(packer.limit))
                && Crowded(packer.bufs, |packer.Rest()|, packer.limit, step.n)
    {
      hide Plain, Cipher, Flat;
      step := SealNext(packer, last, written, total, prev, start);
      if step.Took? {
        var len := |step.record|;
        if step.n < len {
          packer.limit := step.n;
        }
        packer.Advance(step.n);
      }
    }

    /**
      A write behind the backlog. It offers the TLS library the budget, and calls `SSL_write` only once
      that was declined. Success leaves no backlog unless the last poll left bytes behind.
     */
    method WriteBuffered(bufs: Slices, total: nat, ghost start: nat) returns (r: Result<nat>)
      requires Valid() && Quiet(start)
      requires Flat(bufs) != [] && total == Min(|Flat(bufs)|, top) && w.writeBuf.Len() < WRITE_BUF_CAPACITY
      modifies w`writeThrough, w.writeBuf, w.transport`wire, w.transport`polls
      modifies tls`log, tls`pending, tls`calls, tls`failures, tls`offers, tls`declines
      ensures Valid() && Extends(old(Snapshot()), Snapshot())
      ensures ReportedOnce(old(Snapshot()), Snapshot(), Flat(bufs), r)
      ensures start <= |w.transport.polls| && RefusalIsFinal(w.transport.polls[start..])
      ensures WithinWrite(old(Snapshot()), Snapshot(), tls.fragment, tls.overhead, r)
      ensures r.Err? ==> tls.failures == old(tls.failures) + [r.error]
      ensures r.Ok? ==> Gone(Snapshot(), start)
      ensures FewWrites(old(Snapshot()), Snapshot(), 0)
      ensures tls.calls != old(tls.calls) ==> Forced(old(tls.declines), old(|tls.pending|))
      ensures Budgeted(old(tls.offers), old(tls.declines), old(|tls.pending|), old(w.writeBuf.Len()), total)
    {
      hide SealedBehind, ReportedOnce, WithinWrite, WithinFallback, FewWrites, OneWrite, Exhausts, Budgeted, Forced;
      hide Plain, Cipher, Flat, SealBudget, BacklogBound;
      ghost var v0 := Snapshot();
      var sealed := TrySeal(bufs, total);
      ghost var v := Snapshot();
      match sealed {
        case Err(kind) =>
          r := Err(kind);
          BehindFails(v0, v, Flat(bufs), tls.fragment, tls.overhead, kind);
        case Ok(Some(n)) =>
          r := Ok(n);
          FinalDrain(start);
          BehindDrains(v0, v, Snapshot(), Flat(bufs), tls.fragment, tls.overhead, n);
        case Ok(None) =>
          r := SslWriteRecords(bufs, total, start);
          BehindDeclines(v0, v, Snapshot(), Flat(bufs), tls.fragment, tls.overhead, r);
      }
    }

    /** Seals into the buffer if the TLS library has limits for that now; `None` if it declines. */
    method TrySeal(bufs: Slices, total: nat) returns (r: Result<Option<nat>>)
      requires Valid()
      requires Flat(bufs) != [] && total == Min(|Flat(bufs)|, top) && w.writeBuf.Len() < WRITE_BUF_CAPACITY
      modifies w.writeBuf, tls`log, tls`pending, tls`failures, tls`offers, tls`declines
      ensures Valid() && w.writeBuf.blocked == old(w.writeBuf.blocked)
      ensures Extends(old(Snapshot()), Snapshot())
      ensures r.Err? || r == Ok(None) ==> w.writeBuf.Len() == old(w.writeBuf.Len())
      ensures SealedBehind(old(Snapshot()), Snapshot(), Flat(bufs), tls.fragment, tls.overhead, r)
      ensures if r == Ok(None) then Forced(old(tls.declines), old(|tls.pending|)) else tls.declines == old(tls.declines)
      ensures Budgeted(old(tls.offers), old(tls.declines), old(|tls.pending|), old(w.writeBuf.Len()), total)
    {
      hide Plain, Cipher, Flat, SealBudget, BacklogBound;
      var limits := tls.SealAppDataLimits();
      if limits.None? {
        r := Ok(None);
        assert Snapshot() == old(Snapshot());
      } else {
        r := SealBuffered(bufs, limits.value, total);
      }
    }

    /** Offers the TLS library the budget and exactly the room that takes, behind the backlog. */
    method SealBuffered(bufs: Slices, limits: SealLimits, total: nat) returns (r: Result<Option<nat>>)
      requires Valid()
      requires limits == SealLimits(tls.fragment, tls.overhead, |tls.pending|)
      requires Flat(bufs) != [] && total == Min(|Flat(bufs)|, top) && w.writeBuf.Len() < WRITE_BUF_CAPACITY
      modifies w.writeBuf, tls`log, tls`pending, tls`failures, tls`offers, tls`declines
      ensures Valid() && w.writeBuf.blocked == old(w.writeBuf.blocked)
      ensures Extends(old(Snapshot()), Snapshot())
      ensures r.Err? || r == Ok(None) ==> w.writeBuf.Len() == old(w.writeBuf.Len())
      ensures SealedBehind(old(Snapshot()), Snapshot(), Flat(bufs), tls.fragment, tls.overhead, r)
      ensures r.Ok? && r.value.Some? ==>
                r.value.value <= SealBudget(top, tls.fragment, tls.overhead, old(|tls.pending|),
                                            old(w.writeBuf.Len()), total)
      ensures if r == Ok(None) then Forced(old(tls.declines), old(|tls.pending|)) else tls.declines == old(tls.declines)
      ensures Budgeted(old(tls.offers), old(tls.declines), old(|tls.pending|), old(w.writeBuf.Len()), total)
    {
      hide SealBudget, BacklogBound, RecordBytes, Plain, Cipher, Flat;
      var budget := SealBudget(top, limits.maxFragment, limits.recordOverhead, limits.pendingLen,
                               w.writeBuf.Len(), total);
      BudgetInRange(top, tls.fragment, tls.overhead, |tls.pending|, w.writeBuf.Len(), total);
      SealedLenWithinBound(top, tls.fragment, tls.overhead, |tls.pending|, w.writeBuf.Len(), total);
      SealedLenIsRecords(top, tls.fragment, tls.overhead, |tls.pending|, budget);
      var maxOut := SealedLen(top, limits.maxFragment, limits.recordOverhead, limits.pendingLen, budget);
      if maxOut.None? {
        r := Ok(None);
      } else {
        r := SealInto(bufs, budget, maxOut.value);
      }
    }

    /** Makes `room` behind the buffered records and seals at most `budget` bytes into it. */
    method SealInto(bufs: Slices, budget: nat, room: nat) returns (r: Result<Option<nat>>)
      requires Valid() && Flat(bufs) != [] && budget > 0
      modifies w.writeBuf, tls`log, tls`pending, tls`failures, tls`offers, tls`declines
      ensures Valid() && w.writeBuf.blocked == old(w.writeBuf.blocked)
      ensures Extends(old(Snapshot()), Snapshot())
      ensures r.Err? ==> SealedNothing(old(Snapshot()), Snapshot().(peak := old(w.writeBuf.peak)), [r.error])
      ensures r == Ok(None) ==> SealedNothing(old(Snapshot()), Snapshot().(peak := old(w.writeBuf.peak)), [])
      ensures r.Ok? && r.value.Some? ==>
                && r.value.value <= budget
                && ReportedOnce(old(Snapshot()), Snapshot(), Flat(bufs), Ok(r.value.value))
                && w.writeBuf.Len() <= old(w.writeBuf.Len()) + room
                && tls.pending == [] && tls.failures == old(tls.failures)
      ensures w.writeBuf.peak == Max(old(w.writeBuf.peak), old(w.writeBuf.Len()) + room)
      ensures w.transport.polls == old(w.transport.polls) && tls.calls == old(tls.calls)
      ensures tls.declines == old(tls.declines) + if r == Ok(None) then 1 else 0
      ensures tls.offers == old(tls.offers) + [Offer(budget, room)]
    {
      hide Plain, Cipher, Flat;
      w.writeBuf.MakeRoom(room);
      ghost var log, wire, backlog := tls.log, w.transport.wire, w.writeBuf.Buffered();
      var sealed := tls.SealAppData(bufs, budget, room);
      match sealed {
        case Err(kind) => r := Err(kind);
        case Ok(None) => r := Ok(None);
        case Ok(Some(out)) =>
          LogAppend(log, Emission(Flat(bufs)[..out.consumed], out.written));
          w.writeBuf.AppendSealed(out.written);
          ConcatAssoc(wire, backlog, out.written);
          r := Ok(Some(out.consumed));
      }
    }

    /** Retries the backlog as a write starts. */
    method StartWrite() returns (r: Result<()>)
      requires Valid()
      modifies w.writeBuf, w.transport`wire, w.transport`polls
      ensures Valid() && Extends(old(Snapshot()), Snapshot())
      ensures Drained(old(Snapshot()), Snapshot())
      ensures RefusalIsFinal(w.transport.polls[|old(w.transport.polls)|..])
      ensures r.Ok? ==>
                && Quiet(|old(w.transport.polls)|)
                && (w.writeBuf.blocked <==> !w.writeBuf.IsEmpty())
                && w.writeBuf.Len() < WRITE_BUF_CAPACITY
      ensures r.Err? ==> Reports(r, w.transport.polls[|old(w.transport.polls)|..])
      ensures r == Err(WouldBlock) ==> w.writeBuf.Len() >= WRITE_BUF_CAPACITY
      ensures OneWrite(old(Snapshot()), Snapshot())
    {
      r := w.writeBuf.Retry(w.transport);
    }

    /**
      A whole write, from retrying the backlog to the final drain.

      Every promise of `Wrote` holds, and no write poll follows a refusal. With nothing buffered to begin
      with, a write of at most `MAX_RECORD` bytes is first offered for sealing on the stack, a longer one
      for sealing into the buffer within its budget.
     */
    method WriteRecords(bufs: Slices) returns (r: Result<nat>)
      requires Valid()
      modifies w`writeThrough, w.writeBuf, w.transport`wire, w.transport`polls
      modifies tls`log, tls`pending, tls`calls, tls`failures, tls`offers, tls`declines
      ensures Valid() && Extends(old(Snapshot()), Snapshot())
      ensures RefusalIsFinal(w.transport.polls[|old(w.transport.polls)|..])
      ensures Wrote(old(Snapshot()), Snapshot(), Flat(bufs), tls.fragment, tls.overhead, r)
      ensures old(w.writeBuf.IsEmpty()) && Flat(bufs) != [] ==>
                if |Flat(bufs)| <= MAX_RECORD
                then old(tls.offers) + [Offer(|Flat(bufs)|, SEAL_STACK_LEN)] <= tls.offers
                else Budgeted(old(tls.offers), old(tls.declines), old(|tls.pending|), 0, Min(|Flat(bufs)|, top))
      ensures tls.calls != old(tls.calls) ==> Forced(old(tls.declines), old(|tls.pending|))
    {
      hide Wrote, WithinWrite, ReportedOnce, FewWrites, Plain, Cipher, Flat;
      ghost var start := |w.transport.polls|;
      var retried := StartWrite();
      ghost var v := Snapshot();
      if retried.Err? {
        r := Err(retried.error);
        StoppedEarly(old(Snapshot()), v, Flat(bufs), tls.fragment, tls.overhead, r);
        return;
      }
      var total := TotalLen(top, 0, bufs);
      if total == 0 {
        if !w.writeBuf.IsEmpty() {
          RefusedHolds(w.transport.polls[start..]);
        }
        r := Ok(0);
        StoppedEarly(old(Snapshot()), v, Flat(bufs), tls.fragment, tls.overhead, r);
        return;
      }
      r := WriteNew(bufs, total, start);
      AfterRetry(old(Snapshot()), v, Snapshot(), Flat(bufs), tls.fragment, tls.overhead, r);
    }

    /** A write once the backlog has been retried: on the stack if it is short and nothing is buffered. */
    method WriteNew(bufs: Slices, total: nat, ghost start: nat) returns (r: Result<nat>)
      requires Valid() && Quiet(start) && (w.writeBuf.blocked <==> !w.writeBuf.IsEmpty())
      requires Flat(bufs) != [] && total == Min(|Flat(bufs)|, top) && w.writeBuf.Len() < WRITE_BUF_CAPACITY
      modifies w`writeThrough, w.writeBuf, w.transport`wire, w.transport`polls
      modifies tls`log, tls`pending, tls`calls, tls`failures, tls`offers, tls`declines
      ensures Valid() && Extends(old(Snapshot()), Snapshot())
      ensures ReportedOnce(old(Snapshot()), Snapshot(), Flat(bufs), r)
      ensures start <= |w.transport.polls| && RefusalIsFinal(w.transport.polls[start..])
      ensures WithinWrite(old(Snapshot()), Snapshot(), tls.fragment, tls.overhead, r)
      ensures r.Err? ==> tls.failures == old(tls.failures) + [r.error]
      ensures r.Ok? && tls.failures == old(tls.failures) ==> Gone(Snapshot(), start)
      ensures FewWrites(old(Snapshot()), Snapshot(), 0)
      ensures tls.calls != old(tls.calls) ==> Forced(old(tls.declines), old(|tls.pending|))
      ensures if total <= MAX_RECORD && old(w.writeBuf.IsEmpty())
              then old(tls.offers) + [Offer(total, SEAL_STACK_LEN)] <= tls.offers
              else Budgeted(old(tls.offers), old(tls.declines), old(|tls.pending|), old(w.writeBuf.Len()), total)
    {
      hide WithinWrite, ReportedOnce, FewWrites, Gone, BacklogBound, SealBudget, RecordBytes, Plain, Cipher, Flat;
      if total <= MAX_RECORD && w.writeBuf.IsEmpty() {
        r := WriteShort(bufs, total, start);
      } else {
        r := WriteBuffered(bufs, total, start);
      }
    }

    /** A short write with nothing buffered. */
    method WriteShort(bufs: Slices, total: nat, ghost start: nat) returns (r: Result<nat>)
      requires Valid() && Quiet(start) && w.writeBuf.IsEmpty() && !w.writeBuf.blocked
      requires Flat(bufs) != [] && total == |Flat(bufs)| <= MAX_RECORD
      modifies w`writeThrough, w.writeBuf, w.transport`wire, w.transport`polls
      modifies tls`log, tls`pending, tls`calls, tls`failures, tls`offers, tls`declines
      ensures Valid() && Extends(old(Snapshot()), Snapshot())
      ensures ReportedOnce(old(Snapshot()), Snapshot(), Flat(bufs), r)
      ensures start <= |w.transport.polls| && RefusalIsFinal(w.transport.polls[start..])
      ensures WithinWrite(old(Snapshot()), Snapshot(), tls.fragment, tls.overhead, r)
      ensures r.Err? ==> tls.failures == old(tls.failures) + [r.error]
      ensures r.Ok? && tls.failures == old(tls.failures) ==> Gone(Snapshot(), start)
      ensures FewWrites(old(Snapshot()), Snapshot(), 0)
      ensures tls.calls != old(tls.calls) ==> Forced(old(tls.declines), old(|tls.pending|))
      ensures old(tls.offers) + [Offer(total, SEAL_STACK_LEN)] <= tls.offers
    {
      hide WithinWrite, WriteBound, ReportedOnce, Plain, Cipher;
      ghost var v0 := Snapshot();
      var sealed := SealOnStack(bufs, total, start);
      ghost var v1 := Snapshot();
      WriteBoundMono(tls.fragment, tls.overhead, v0.pending);
      match sealed {
        case Err(kind) =>
          r := Err(kind);
          OneStep(v0, v1, Flat(bufs), tls.fragment, tls.overhead, r);
        case Ok(None) =>
          r := WriteBuffered(bufs, total, start);
        case Ok(Some(n)) =>
          r := Ok(n);
          if n == total {
            OneStep(v0, v1, Flat(bufs), tls.fragment, tls.overhead, r);
          } else {
            var rest := AdvanceSlices(bufs, n);
            var more := WriteBuffered(rest, total - n, start);
            r := Ok(n + if more.Ok? then more.value else 0);
            TwoSteps(v0, v1, Snapshot(), Flat(bufs), n, more);
            TwoStepsWithin(v0, v1, Snapshot(), tls.fragment, tls.overhead, n, more);
          }
      }
    }

    /**
      Offers the TLS library a short write and `SEAL_STACK_LEN` bytes of room.

      Sealed whole, it makes exactly one write poll; sealed in part, none, and its records are buffered.
      `None` or an error seals nothing.
     */
    method SealOnStack(bufs: Slices, total: nat, ghost start: nat) returns (r: Result<Option<nat>>)
      requires Valid() && Quiet(start) && w.writeBuf.IsEmpty() && !w.writeBuf.blocked
      requires Flat(bufs) != [] && total == |Flat(bufs)|
      modifies w.writeBuf, w.transport`wire, w.transport`polls
      modifies tls`log, tls`pending, tls`failures, tls`offers, tls`declines
      ensures Valid() && Quiet(start) && Extends(old(Snapshot()), Snapshot())
      ensures r.Err? ==> SealedNothing(old(Snapshot()), Snapshot(), [r.error])
      ensures r == Ok(None) ==> Snapshot() == old(Snapshot())
      ensures r.Ok? && r.value.Some? ==>
                && 0 < r.value.value <= total
                && ReportedOnce(old(Snapshot()), Snapshot(), Flat(bufs), Ok(r.value.value))
                && (if r.value.value < total then w.transport.polls == old(w.transport.polls)
                    else |w.transport.polls| == |old(w.transport.polls)| + 1 && Gone(Snapshot(), start))
                && tls.pending == [] && tls.calls == old(tls.calls) && tls.failures == old(tls.failures)
      ensures w.writeBuf.Len() <= SEAL_STACK_LEN
      ensures w.writeBuf.peak <= Max(old(w.writeBuf.peak), SEAL_STACK_LEN)
      ensures tls.declines == old(tls.declines) + if r == Ok(None) then 1 else 0
      ensures tls.offers == old(tls.offers) + [Offer(total, SEAL_STACK_LEN)]
    {
      hide RefusalIsFinal, NoRefusal, Holds, Plain, Cipher, Flat;
      ghost var log, wire, backlog := tls.log, w.transport.wire, w.writeBuf.Buffered();
      ghost var before, polls := w.transport.polls[start..], w.transport.polls;
      var sealed := tls.SealAppData(bufs, total, SEAL_STACK_LEN);
      match sealed {
        case Err(kind) => r := Err(kind);
        case Ok(None) => r := Ok(None);
        case Ok(Some(out)) =>
          LogAppend(log, Emission(Flat(bufs)[..out.consumed], out.written));
          if out.consumed < total {
            w.writeBuf.Push(out.written);
            ConcatAssoc(wire, backlog, out.written);
          } else {
            w.writeBuf.WriteLast(w.transport, out.written);
            assert w.transport.polls[start..] == before + w.transport.polls[|polls|..];
            OnePollIsFinal(w.transport.polls[|polls|..]);
            RefusalAppend(before, w.transport.polls[|polls|..]);
            if w.writeBuf.Buffered() != [] {
              HoldsAppend(before, w.transport.polls[|polls|..]);
            }
          }
          r := Ok(Some(out.consumed));
      }
    }

    // ----- The stream's poll methods -----

    /** What a read met and still has to report. */
    ghost function Held(): seq<Item>
      reads w`readEnd
    {
      if w.readEnd.Some? then [End(w.readEnd.value)] else []
    }

    /** The caller has seen what `SSL_read` returned, in order and once, but for what is held. */
    ghost predicate ReadsInOrder()
      reads this`seen, w`readEnd, tls`items
    {
      tls.items == seen + Held()
    }

    /** `SSL_shutdown` succeeded at most once, last of all, and `shutdownSent` says so. */
    ghost predicate ShutdownOnce()
      reads w`shutdownSent, tls`shutdowns
    {
      ClosesLast(tls.shutdowns, w.shutdownSent)
    }

    /** At every shutdown poll the transport had accepted and flushed everything sealed by then. */
    ghost predicate ClosedClean()
      reads this`sealed, w.transport`closes
    {
      && |sealed| == |w.transport.closes|
      && forall k :: 0 <= k < |sealed| ==> sealed[k] == w.transport.closes[k].accepted == w.transport.closes[k].flushed
    }

    ghost predicate ValidAll()
      reads this, w, w.transport, w.readBuf, w.writeBuf, tls
    {
      Valid() && ReadsInOrder() && ShutdownOnce() && ClosedClean()
    }

    method PollWriteVectored(bufs: Slices) returns (r: Poll<nat>)
      requires ValidAll()
      modifies w`writeThrough, w.writeBuf, w.transport`wire, w.transport`polls
      modifies tls`log, tls`pending, tls`calls, tls`failures, tls`offers, tls`declines
      ensures ValidAll() && Extends(old(Snapshot()), Snapshot())
      ensures RefusalIsFinal(w.transport.polls[|old(w.transport.polls)|..])
      ensures WriteStep(old(Snapshot()), Snapshot(), Flat(bufs), tls.fragment, tls.overhead, r)
      ensures r.Pending? <==> RefusedFull(old(Snapshot()), Snapshot()) || SealingBlocked(old(Snapshot()), Snapshot())
      ensures tls.calls != old(tls.calls) ==> Forced(old(tls.declines), old(|tls.pending|))
    {
      hide Wrote, WriteStep, RefusedFull, SealingBlocked, Plain, Cipher;
      var written := WriteRecords(bufs);
      StepOf(old(Snapshot()), Snapshot(), Flat(bufs), tls.fragment, tls.overhead, written);
      r := Cvt(written);
      PendingIff(old(Snapshot()), Snapshot(), Flat(bufs), tls.fragment, tls.overhead, r);
    }

    /** Drives a handshake, which may read, hand over records and flush as it likes. */
    method PollHandshake() returns (r: Poll<()>)
      requires ValidAll()
      modifies w.writeBuf, w.readBuf, w.transport, tls`log, tls`pending
      ensures ValidAll() && OtherActivity(old(Snapshot()), Snapshot())
      ensures w.transport.closes == old(w.transport.closes)
    {
      tls.BioActivity(w);
      r := *;
    }

    method PollFlush() returns (r: Poll<()>)
      requires ValidAll()
      modifies w.writeBuf, w.transport`wire, w.transport`polls, w.transport`flushedTo, w.transport`flushes
      ensures ValidAll() && Drained(old(Snapshot()), Snapshot()) && Extends(old(Snapshot()), Snapshot())
      ensures RefusalIsFinal(w.transport.polls[|old(w.transport.polls)|..])
      ensures r.Ready? && r.result.Ok? ==> w.writeBuf.Buffered() == [] && w.transport.flushedTo == |w.transport.wire|
      ensures old(w.transport.flushes) <= w.transport.flushes
      ensures FlushAnswers(r, w.transport.polls[|old(w.transport.polls)|..],
                           w.transport.flushes[|old(w.transport.flushes)|..])
      ensures var polls, flushes := w.transport.polls[|old(w.transport.polls)|..],
                                    w.transport.flushes[|old(w.transport.flushes)|..];
              (r.Pending? ==> Founded(polls, flushes)) <==> !Misreports(polls, flushes)
    {
      var flushed := w.Flush();
      r := Cvt(flushed);
    }

    /**
      Sends close_notify once, then flushes, then closes the transport.

      It answers with whatever stops it: `SSL_shutdown`, or the flush, here reported as `flushed` over the
      polls from `polls` and `flushes` on. The next call goes on from there.
     */
    method PollShutdown() returns (r: Poll<()>, ghost flushed: Poll<()>, ghost polls: nat, ghost flushes: nat)
      requires ValidAll()
      modifies w`shutdownSent, this`sealed, w.writeBuf, w.readBuf, w.transport
      modifies tls`log, tls`pending, tls`shutdowns
      ensures ValidAll() && OtherActivity(old(Snapshot()), Snapshot())
      ensures old(tls.shutdowns) <= tls.shutdowns
      ensures old(w.transport.polls) <= w.transport.polls && old(w.transport.flushes) <= w.transport.flushes
      ensures if !w.shutdownSent then
                && |tls.shutdowns| == |old(tls.shutdowns)| + 1 && w.transport.closes == old(w.transport.closes)
                && ShutdownStops(Some(r), tls.shutdowns[|old(tls.shutdowns)|])
              else
                && |old(w.transport.polls)| <= polls <= |w.transport.polls|
                && |old(w.transport.flushes)| <= flushes <= |w.transport.flushes|
                && FlushAnswers(flushed, w.transport.polls[polls..], w.transport.flushes[flushes..])
                && (flushed.Ready? && flushed.result.Ok? <==> w.transport.closes != old(w.transport.closes))
                && (w.transport.closes == old(w.transport.closes) ==> r == flushed)
                && (old(w.shutdownSent) ==> polls == |old(w.transport.polls)| && flushes == |old(w.transport.flushes)|)
      ensures w.transport.closes != old(w.transport.closes) ==>
                && w.transport.closes == old(w.transport.closes) +
                                         [Closing(|w.transport.wire|, w.transport.flushedTo, r)]
                && w.shutdownSent && |Cipher(tls.log)| == |w.transport.wire| == w.transport.flushedTo
      ensures old(w.shutdownSent) ==> w.shutdownSent && tls.shutdowns == old(tls.shutdowns)
    {
      hide Plain, Cipher, ClosesLast;
      var stop := SendClose();
      polls, flushes := |w.transport.polls|, |w.transport.flushes|;
      flushed := Pending;
      if stop.Some? {
        r := stop.value;
        return;
      }
      ghost var v := Snapshot();
      r := PollFlush();
      flushed := r;
      OtherTrans(old(Snapshot()), v, Snapshot());
      if r.Pending? || r.result.Err? {
        return;
      }
      sealed := sealed + [|Cipher(tls.log)|];
      r := w.transport.PollShutdown();
    }

    /** Has `SSL_shutdown` send close_notify unless it has succeeded before; `Some` is why it stopped. */
    method SendClose() returns (stop: Option<Poll<()>>)
      requires ValidAll()
      modifies w`shutdownSent, w.writeBuf, w.readBuf, w.transport
      modifies tls`log, tls`pending, tls`shutdowns
      ensures ValidAll() && OtherActivity(old(Snapshot()), Snapshot())
      ensures w.transport.closes == old(w.transport.closes)
      ensures old(w.transport.polls) <= w.transport.polls && old(w.transport.flushes) <= w.transport.flushes
      ensures w.shutdownSent <==> stop.None?
      ensures old(w.shutdownSent) ==>
                && stop.None? && tls.shutdowns == old(tls.shutdowns)
                && w.transport.polls == old(w.transport.polls) && w.transport.flushes == old(w.transport.flushes)
      ensures !old(w.shutdownSent) ==>
                && |tls.shutdowns| == |old(tls.shutdowns)| + 1 && old(tls.shutdowns) <= tls.shutdowns
                && ShutdownStops(stop, tls.shutdowns[|old(tls.shutdowns)|])
    {
      hide ClosesLast, Plain, Cipher;
      stop := None;
      if !w.shutdownSent {
        ghost var shutdowns := tls.shutdowns;
        var outcome := tls.SslShutdown(w);
        ClosesLastAppend(shutdowns, outcome);
        match outcome {
          case WantIo => stop := Some(Pending);
          case ShutdownFailed(kind) => stop := Some(Ready(Err(kind)));
          case _ => w.shutdownSent := true;
        }
      }
    }

    /**
      A read into `room` bytes. What it tells the caller continues what earlier reads told, in the order
      of `SSL_read`. An end that comes behind data of this call is held, and is all the next read with room
      reports.
     */
    method PollRead(room: nat) returns (r: Poll<()>, data: seq<byte>)
      requires ValidAll()
      modifies this`seen, w`readEnd, w.writeBuf, w.readBuf, w.transport
      modifies tls`log, tls`pending, tls`items, tls`opens
      ensures ValidAll() && OtherActivity(old(Snapshot()), Snapshot())
      ensures w.transport.closes == old(w.transport.closes)
      ensures |data| <= room
      ensures seen == old(seen) + Bytes(data) + EndSeen(r, data, room)
      ensures r.Pending? ==> data == [] && tls.items == old(tls.items) && w.readEnd == None
      ensures room > 0 && old(w.readEnd).Some? ==> r == Ready(old(w.readEnd).value) && data == [] && w.readEnd == None
      ensures r.Ready? && r.result.Err? ==> data == []
    {
      hide Plain, Cipher, ClosesLast;
      data := [];
      if room == 0 {
        r := Ready(Ok(()));
      } else if w.readEnd.Some? {
        r := Ready(w.readEnd.value);
        seen := seen + [End(w.readEnd.value)];
        w.readEnd := None;
      } else {
        var end;
        data, end := ReadRecords(room);
        ghost var ended := if end.Some? then [End(end.value)] else [];
        if data == [] {
          r := if end.Some? then Ready(end.value) else Pending;
          seen := seen + ended;
        } else {
          seen := seen + Bytes(data);
          w.readEnd := end;
          r := Ready(Ok(()));
        }
        ConcatAssoc(old(seen), Bytes(data), ended);
      }
    }

    /** Opens at most one record. */
    method OpenRecord(room: nat) returns (r: Result<seq<byte>>)
      requires Valid() && room > 0
      modifies w.writeBuf, w.readBuf, w.transport
      modifies tls`log, tls`pending, tls`items, tls`opens
      ensures Valid() && OtherActivity(old(Snapshot()), Snapshot())
      ensures Conserved(old(Snapshot())) && Conserved(Snapshot())
      ensures w.transport.closes == old(w.transport.closes)
      ensures r.Ok? ==> |r.value| <= room
      ensures tls.opens == old(tls.opens) + [ReadCall(!old(w.readBuf.IsEmpty()), r == Err(WouldBlock))]
      ensures tls.items == old(tls.items) + Opened(r)
    {
      hide Plain, Cipher;
      r := tls.SslRead(w, room);
    }

    /**
      Opens records until `room` bytes are filled, no ciphertext is buffered, or the TLS library stops:
      with an end, an error, or for want of input.
     */
    method ReadRecords(room: nat) returns (data: seq<byte>, end: Option<Result<()>>)
      requires Valid() && room > 0
      modifies w.writeBuf, w.readBuf, w.transport
      modifies tls`log, tls`pending, tls`items, tls`opens
      ensures Valid() && OtherActivity(old(Snapshot()), Snapshot())
      ensures w.transport.closes == old(w.transport.closes)
      ensures |data| <= room
      ensures tls.items == old(tls.items) + Bytes(data) + (if end.Some? then [End(end.value)] else [])
      ensures end.Some? && end.value.Err? ==> end.value.error != WouldBlock
      ensures |old(tls.opens)| < |tls.opens|
      ensures forall k :: |old(tls.opens)| < k < |tls.opens| ==> tls.opens[k].buffered
      ensures end.Some? || |data| == room || w.readBuf.IsEmpty() || tls.opens[|tls.opens| - 1].starved
    {
      hide Plain, Cipher, OtherActivity;
      data, end := [], None;
      ghost var items, v0, v := tls.items, Snapshot(), Snapshot();
      OtherSame(v0);
      assert Conserved(v0);
      assert Bytes([]) == [];
      while true
        invariant Valid() && |data| < room
        invariant v == Snapshot() && OtherActivity(v0, v) && Conserved(v0) && Conserved(v)
        invariant w.transport.closes == old(w.transport.closes)
        invariant tls.items == items + Bytes(data)
        invariant |old(tls.opens)| <= |tls.opens| && (|old(tls.opens)| < |tls.opens| ==> !w.readBuf.IsEmpty())
        invariant forall k :: |old(tls.opens)| < k < |tls.opens| ==> tls.opens[k].buffered
        decreases room - |data|
      {
        var read := OpenRecord(room - |data|);
        OtherTrans(v0, v, Snapshot());
        v := Snapshot();
        match Cvt(read) {
          case Ready(Ok(more)) =>
            if more == [] {
              end := Some(Ok(()));
              break;
            }
            BytesAppend(data, more);
            ConcatAssoc(items, Bytes(data), Bytes(more));
            data := data + more;
            if |data| == room || w.readBuf.IsEmpty() {
              break;
            }
          case Ready(Err(kind)) =>
            end := Some(Err(kind));
            break;
          case Pending =>
            break;
        }
      }
    }
  }

  /** What an outcome of `SSL_shutdown` makes the shutdown answer at once, if anything. */
  ghost predicate ShutdownStops(stop: Option<Poll<()>>, outcome: ShutdownOutcome) {
    && (stop == Some(Pending) <==> outcome == WantIo)
    && (forall kind :: stop == Some(Ready(Err(kind))) <==> outcome == ShutdownFailed(kind))
    && (stop == None <==> outcome in {Sent, Received, ZeroReturn, ClosedByAlert})
  }

  /** An outcome that leaves nothing to send is the last one, and `sent` says whether it has come. */
  ghost predicate ClosesLast(shutdowns: seq<ShutdownOutcome>, sent: bool) {
    && (forall k :: 0 <= k < |shutdowns| - 1 ==> !Closes(shutdowns[k]))
    && (sent <==> shutdowns != [] && Closes(shutdowns[|shutdowns| - 1]))
  }

  lemma ClosesLastAppend(shutdowns: seq<ShutdownOutcome>, outcome: ShutdownOutcome)
    requires ClosesLast(shutdowns, false)
    ensures ClosesLast(shutdowns + [outcome], Closes(outcome))
  {
  }

  /** The end a read reports: with room left but no data, the stream is over. */
  function EndSeen(r: Poll<()>, data: seq<byte>, room: nat): seq<Item> {
    if r.Ready? && data == [] && (r.result.Err? || room > 0) then [End(r.result)] else []
  }
}
