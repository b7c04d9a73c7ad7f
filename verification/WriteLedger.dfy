/**
  What a write does, as relations between snapshots of the write side: which plaintext was sealed and
  reported, what the fallback loop has done so far, and what it leaves behind.
 */
module WriteLedgers {
  import opened Basics
  import opened Transports
  import opened WriteBuffers
  import opened RecordLayers
  import opened Packers
  import opened SealBudgets
  import opened FallbackTallies

  /** The length of a write, saturating at the largest `usize`: slices may alias. */
  function TotalLen(top: nat, acc: nat, bufs: Slices): (total: nat)
    requires acc <= top
    ensures total == Min(acc + |Flat(bufs)|, top)
    decreases |bufs|
  {
    if bufs == [] then acc else TotalLen(top, SaturatingAdd(top, acc, |bufs[0]|), bufs[1..])
  }

  /** Most ciphertext one write leaves buffered. */
  function WriteBound(fragment: nat, overhead: nat, pending: nat): nat
    requires fragment > 0
  {
    Max(BacklogBound(fragment, overhead, pending), FallbackBound(fragment, overhead, pending))
  }

  lemma WriteBoundMono(fragment: nat, overhead: nat, pending: nat)
    requires fragment > 0
    ensures WriteBound(fragment, overhead, 0) <= WriteBound(fragment, overhead, pending)
    ensures WriteBound(fragment, overhead, pending) >= WRITE_BUF_CAPACITY + MAX_RECORD
  {
    assert DivCeil(MAX_RECORD, fragment) * overhead >= 0;
  }

  /** At most one of these `SSL_write` calls sealed less than it was offered. */
  ghost predicate OneShort(calls: seq<WriteCall>) {
    forall i, j :: 0 <= i < j < |calls| ==> !(calls[i].sealed < calls[i].offered && calls[j].sealed < calls[j].offered)
  }

  ghost predicate NoShort(calls: seq<WriteCall>) {
    forall i :: 0 <= i < |calls| ==> calls[i].sealed == calls[i].offered
  }

  /** One turn of the `SSL_write` loop. */
  datatype RecordTurn = Took(record: seq<byte>, n: nat) | Finished | Broke(kind: ErrorKind)

  /** A snapshot of the write side. */
  datatype View = View(
    log: seq<Emission>, wire: seq<byte>, backlog: seq<byte>, polls: seq<WritePoll>,
    calls: seq<WriteCall>, failures: seq<ErrorKind>, pending: nat, peak: nat, capacity: nat)

  /** Nothing sealed is lost, repeated or reordered between the TLS library and the transport. */
  ghost predicate Conserved(v: View) { Cipher(v.log) == v.wire + v.backlog }

  /** The buffer holds its backlog and keeps the memory bound. */
  ghost predicate Roomy(v: View) { |v.backlog| <= v.capacity <= CapacityBound(v.peak) }

  /** The histories only grow. */
  ghost predicate Extends(v: View, v': View) {
    v.wire <= v'.wire && v.polls <= v'.polls && v.calls <= v'.calls && v.failures <= v'.failures && v.peak <= v'.peak
  }

  lemma ExtendsTrans(a: View, b: View, c: View)
    requires Extends(a, b) && Extends(b, c)
    ensures Extends(a, c)
  {
  }

  /** Exactly the plaintext reported was sealed; an error sealed nothing. */
  ghost predicate ReportedOnce(v: View, v': View, input: seq<byte>, r: Result<nat>) {
    match r
    case Ok(n) => n <= |input| && (n == 0 <==> input == []) && Plain(v'.log) == Plain(v.log) + input[..n]
    case Err(_) => v'.log == v.log
  }

  /** One `SSL_write` sealed `n` bytes of `record`; unless `direct`, the result was only buffered. */
  ghost predicate SealedRecord(v: View, v': View, record: seq<byte>, n: nat, fragment: nat, overhead: nat,
                               direct: bool) {
    && n == Min(fragment, |record|)
    && v'.pending == 0 && v'.failures == v.failures
    && v'.calls == v.calls + [WriteCall(|record|, n)]
    && Plain(v'.log) == Plain(v.log) + record[..n]
    && var grown := |v.backlog| + v.pending + n + overhead;
    && |v'.backlog| <= grown
    && (!direct ==> |v'.backlog| == grown)
    && |v'.polls| <= |v.polls| + (if direct then 1 else 0)
    && (|v'.polls| > |v.polls| ==> Gone(v', |v.polls|))
    && v'.peak <= Max(v.peak, grown)
  }

  /** Nothing was sealed: only failures were noted. */
  ghost predicate SealedNothing(v: View, v': View, failures: seq<ErrorKind>) {
    v' == v.(failures := v.failures + failures, capacity := v'.capacity)
  }

  /** Most bytes a fallback call ever has live or asked for. */
  function FallbackPeak(c: Call): nat { FallbackBound(c.fragment, c.overhead, c.pending) + 2 * WRITE_BUF_CAPACITY }

  /** The fallback that started at `v0` has sealed `t.written` bytes of `flat`, short at most once. */
  ghost predicate Progress(c: Call, t: Tally, v0: View, v: View, flat: seq<byte>) {
    && t.written <= |flat|
    && Plain(v.log) == Plain(v0.log) + flat[..t.written]
    && t.backlog == |v.backlog| && t.pending == v.pending <= v0.pending
    && v.failures == v0.failures && v0.calls <= v.calls
    && OneShort(v.calls[|v0.calls|..])
    && (t.through <==> NoShort(v.calls[|v0.calls|..]))
    && v.peak <= Max(v0.peak, FallbackPeak(c))
    && |v.polls| <= |v0.polls| + 1
    && (|v.polls| > |v0.polls| && t.through ==> t.written == |flat| && Gone(v, |v0.polls|))
  }

  lemma ProgressStep(c: Call, t: Tally, v0: View, v: View, v': View, flat: seq<byte>, record: seq<byte>,
                     n: nat, direct: bool)
    requires Progress(c, t, v0, v, flat) && record <= flat[t.written..]
    requires SealedRecord(v, v', record, n, c.fragment, c.overhead, direct)
    requires t.through || n == |record|
    requires n > 0 && (direct ==> t.through && t.written + |record| == |flat|)
    requires |v.backlog| + v.pending + n + c.overhead <= FallbackBound(c.fragment, c.overhead, c.pending)
    ensures Progress(c, Next(c, t, record, n, |v'.backlog|), v0, v', flat)
  {
    assert flat[..t.written + n] == flat[..t.written] + record[..n];
    assert Plain(v'.log) == Plain(v0.log) + flat[..t.written + n];
    ShortOnce(v0.calls, v.calls, WriteCall(|record|, n), t.through);
  }

  lemma ShortOnce(calls0: seq<WriteCall>, calls: seq<WriteCall>, call: WriteCall, through: bool)
    requires calls0 <= calls && OneShort(calls[|calls0|..])
    requires through <==> NoShort(calls[|calls0|..])
    requires !through ==> call.sealed == call.offered
    ensures OneShort((calls + [call])[|calls0|..])
    ensures through && call.sealed == call.offered <==> NoShort((calls + [call])[|calls0|..])
  {
    var new_ := calls[|calls0|..];
    assert (calls + [call])[|calls0|..] == new_ + [call];
    assert (new_ + [call])[|new_|] == call;
    assert forall i :: 0 <= i < |new_| ==> (new_ + [call])[i] == new_[i];
  }

  /** What a write leaves behind, whichever path it takes. */
  ghost predicate WithinWrite(v: View, v': View, fragment: nat, overhead: nat, r: Result<nat>)
    requires fragment > 0
  {
    && v.calls <= v'.calls && OneShort(v'.calls[|v.calls|..])
    && (r.Ok? ==> |v'.backlog| <= WriteBound(fragment, overhead, v.pending))
    && (r.Err? ==> |v'.backlog| <= |v.backlog|)
    && v'.pending <= v.pending
    && v'.peak <= Max(v.peak, WriteBound(fragment, overhead, v.pending) + 2 * WRITE_BUF_CAPACITY)
  }

  /**
    Every error of a write is one that sealing failed with, or what stopped the retry of the backlog;
    the latter is backpressure only with a full buffer.
   */
  ghost predicate FailsForCause(v: View, v': View, r: Result<nat>) {
    r.Err? ==>
      || v'.failures == v.failures + [r.error]
      || (v.polls <= v'.polls && Reports(Err(r.error), v'.polls[|v.polls|..]) && v'.failures == v.failures
          && (r.error == WouldBlock ==> |v'.backlog| >= WRITE_BUF_CAPACITY))
  }

  /** Nothing is buffered, or the last poll since `start` left bytes behind. */
  ghost predicate Gone(v: View, start: nat) {
    start <= |v.polls| && (v.backlog == [] || Holds(v.polls[start..]))
  }

  /** A write keeps ciphertext back only for a transport that left some behind in it, or if sealing failed. */
  ghost predicate Prompt(v: View, v': View, r: Result<nat>) {
    r.Ok? && v'.failures == v.failures ==> Gone(v', |v.polls|)
  }

  /**
    A transport that takes all it is offered is polled once for the records of a write, `extra` times
    before, and once more if a record was sealed short.
   */
  ghost predicate FewWrites(v: View, v': View, extra: nat) {
    && |v.polls| <= |v'.polls| && |v.calls| <= |v'.calls|
    && (TookAll(v'.polls[|v.polls|..]) ==>
          |v'.polls| <= |v.polls| + extra + if NoShort(v'.calls[|v.calls|..]) then 1 else 2)
  }

  /** And once to drain a backlog, which is `Gone` then. */
  ghost predicate OneWrite(v: View, v': View) {
    && |v.polls| <= |v'.polls| && (v.backlog == [] ==> v'.polls == v.polls)
    && (TookAll(v'.polls[|v.polls|..]) ==> |v'.polls| <= |v.polls| + 1)
  }

  /** A write sealed in two parts is reported as one; an error of the second part is dropped. */
  lemma TwoSteps(v0: View, v1: View, v2: View, input: seq<byte>, n: nat, more: Result<nat>)
    requires 0 < n <= |input|
    requires ReportedOnce(v0, v1, input, Ok(n)) && ReportedOnce(v1, v2, input[n..], more)
    ensures ReportedOnce(v0, v2, input, Ok(n + if more.Ok? then more.value else 0))
  {
    if more.Ok? {
      assert input[..n + more.value] == input[..n] + input[n..][..more.value];
    }
  }

  /** A write done with on the stack. */
  lemma OneStep(v0: View, v1: View, input: seq<byte>, fragment: nat, overhead: nat, r: Result<nat>)
    requires fragment > 0
    requires if r.Err? then SealedNothing(v0, v1, [r.error]) else
               v1.calls == v0.calls && v1.pending == 0 && |v1.backlog| <= SEAL_STACK_LEN
               && v1.peak <= Max(v0.peak, SEAL_STACK_LEN)
    ensures r.Err? ==> ReportedOnce(v0, v1, input, r)
    ensures WithinWrite(v0, v1, fragment, overhead, r)
  {
    WriteBoundMono(fragment, overhead, v0.pending);
    if r.Err? {
      assert v1.log == v0.log;
    }
  }

  lemma TwoStepsWithin(v0: View, v1: View, v2: View, fragment: nat, overhead: nat, n: nat, more: Result<nat>)
    requires fragment > 0
    requires v1.calls == v0.calls && v1.pending == 0 && |v1.backlog| <= SEAL_STACK_LEN
    requires v1.peak <= Max(v0.peak, SEAL_STACK_LEN)
    requires WithinWrite(v1, v2, fragment, overhead, more)
    ensures WithinWrite(v0, v2, fragment, overhead, Ok(n + if more.Ok? then more.value else 0))
  {
    WriteBoundMono(fragment, overhead, v0.pending);
  }

  /** Retrying the backlog first changes nothing about what the rest of a write promises. */
  lemma AfterRetry(v0: View, v1: View, v2: View, input: seq<byte>, fragment: nat, overhead: nat, r: Result<nat>)
    requires fragment > 0
    requires Drained(v0, v1)
    requires ReportedOnce(v1, v2, input, r) && WithinWrite(v1, v2, fragment, overhead, r)
    requires r.Err? ==> v2.failures == v1.failures + [r.error]
    requires r.Ok? && v2.failures == v1.failures ==> Gone(v2, |v0.polls|)
    requires FewWrites(v1, v2, 0) && v0.polls <= v1.polls <= v2.polls
    requires OneWrite(v0, v1) && input != []
    ensures Wrote(v0, v2, input, fragment, overhead, r)
  {
  }

  /** A write that ends with the retry of its backlog: by an error, or for want of input. */
  lemma StoppedEarly(v0: View, v: View, input: seq<byte>, fragment: nat, overhead: nat, r: Result<nat>)
    requires fragment > 0
    requires Drained(v0, v) && v0.polls <= v.polls
    requires match r
             case Ok(n) => n == 0 && input == [] && Gone(v, |v0.polls|) && |v.backlog| < WRITE_BUF_CAPACITY
             case Err(kind) =>
               Reports(Err(kind), v.polls[|v0.polls|..]) && (kind == WouldBlock ==> |v.backlog| >= WRITE_BUF_CAPACITY)
    requires OneWrite(v0, v)
    ensures Wrote(v0, v, input, fragment, overhead, r)
  {
    WriteBoundMono(fragment, overhead, v0.pending);
    assert input[..0] == [];
  }

  /** Sealing into the buffer: polls nothing, and takes some of `input` or leaves all as it was but for room. */
  ghost predicate SealedBehind(v: View, v': View, input: seq<byte>, fragment: nat, overhead: nat,
                               r: Result<Option<nat>>)
    requires fragment > 0
  {
    && v.peak <= v'.peak <= Max(v.peak, BacklogBound(fragment, overhead, v.pending))
    && match r
       case Err(kind) => SealedNothing(v, v'.(peak := v.peak), [kind])
       case Ok(None) => SealedNothing(v, v'.(peak := v.peak), [])
       case Ok(Some(n)) =>
         && 0 < n && ReportedOnce(v, v', input, Ok(n)) && |v'.backlog| <= BacklogBound(fragment, overhead, v.pending)
         && v'.polls == v.polls && v'.calls == v.calls && v'.failures == v.failures && v'.pending == 0
  }

  lemma BehindFails(v: View, v': View, input: seq<byte>, fragment: nat, overhead: nat, kind: ErrorKind)
    requires fragment > 0 && SealedBehind(v, v', input, fragment, overhead, Err(kind))
    ensures ReportedOnce(v, v', input, Err(kind)) && WithinWrite(v, v', fragment, overhead, Err(kind))
    ensures FewWrites(v, v', 0) && v'.failures == v.failures + [kind]
  {
  }

  lemma BehindDrains(v0: View, v: View, v': View, input: seq<byte>, fragment: nat, overhead: nat, n: nat)
    requires fragment > 0 && SealedBehind(v0, v, input, fragment, overhead, Ok(Some(n)))
    requires Drained(v, v') && OneWrite(v, v')
    ensures ReportedOnce(v0, v', input, Ok(n)) && WithinWrite(v0, v', fragment, overhead, Ok(n)) && FewWrites(v0, v', 0)
  {
  }

  lemma BehindDeclines(v0: View, v: View, v': View, input: seq<byte>, fragment: nat, overhead: nat, r: Result<nat>)
    requires fragment > 0 && SealedBehind(v0, v, input, fragment, overhead, Ok(None))
    requires ReportedOnce(v, v', input, r) && WithinFallback(v, v', fragment, overhead, r) && FewWrites(v, v', 0)
    ensures ReportedOnce(v0, v', input, r) && WithinWrite(v0, v', fragment, overhead, r) && FewWrites(v0, v', 0)
    ensures r.Err? ==> v'.failures == v0.failures + [r.error]
  {
  }

  /** What a fallback call leaves behind. */
  ghost predicate WithinFallback(v: View, v': View, fragment: nat, overhead: nat, r: Result<nat>) {
    && v'.pending <= v.pending
    && v.calls <= v'.calls && OneShort(v'.calls[|v.calls|..])
    && (r.Ok? ==> |v'.backlog| <= FallbackBound(fragment, overhead, v.pending))
    && (r.Err? ==> |v'.backlog| <= |v.backlog| && v'.failures == v.failures + [r.error])
    && v'.peak <= Max(v.peak, FallbackBound(fragment, overhead, v.pending) + 2 * WRITE_BUF_CAPACITY)
  }

  /** The fallback call `c` starts at `v`, which only made room since `v0`. */
  ghost predicate Starts(c: Call, v0: View, v: View, flat: seq<byte>) {
    && c.Valid() && flat != [] && c.flat == |flat|
    && v == v0.(peak := v.peak, capacity := v.capacity) && v0.peak <= v.peak <= Max(v0.peak, FallbackPeak(c))
    && c.pending == v.pending && c.start == |v.backlog|
  }

  /** The loop stands at `t`, with more to do unless the input has ended. */
  ghost predicate Midway(c: Call, t: Tally, v0: View, v: View, flat: seq<byte>, bufs: Slices) {
    && c.Valid() && c.flat == |flat| > 0 && t.prev > 0
    && Keeps(c, t) && Progress(c, t, v0, v, flat)
    && flat == Flat(bufs) && OnCourse(c, t, bufs)
    && (t.written == 0 ==> v.log == v0.log && |v.backlog| == c.start)
  }

  /** The outcome of the loop, before the final drain. */
  ghost predicate Settled(c: Call, v0: View, v: View, flat: seq<byte>, bufs: Slices, written: nat,
                          err: Option<ErrorKind>) {
    && c.Valid() && written <= |flat|
    && Plain(v.log) == Plain(v0.log) + flat[..written]
    && v0.calls <= v.calls && OneShort(v.calls[|v0.calls|..])
    && v.failures == v0.failures + (if err.Some? then [err.value] else [])
    && v.peak <= Max(v0.peak, FallbackPeak(c))
    && |v.backlog| <= FallbackBound(c.fragment, c.overhead, c.pending)
    && |v.polls| <= |v0.polls| + 1 && v.pending <= v0.pending
    && (|v.polls| > |v0.polls| && NoShort(v.calls[|v0.calls|..]) ==> Gone(v, |v0.polls|))
    && (err.None? ==> written == |flat| || (!InTail(c, written) && |v.backlog| >= WRITE_BUF_CAPACITY))
    && (err.None? ==> written > 0)
    && (written == 0 ==> v.log == v0.log && |v.backlog| == c.start)
    && (err.None? ==> written == SliceLoop(bufs, c.fragment, c.overhead, c.start + c.pending, 0, MAX_RECORD, c.total))
  }

  /** The tally a fallback call starts with. */
  function Opening(c: Call): Tally { Tally(0, c.start, c.pending, MAX_RECORD, true, MAX_RECORD, []) }

  lemma StartsMidway(c: Call, v0: View, v: View, flat: seq<byte>, bufs: Slices)
    requires Starts(c, v0, v, flat) && flat == Flat(bufs)
    ensures Midway(c, Opening(c), v0, v, flat, bufs)
  {
    assert flat[..0] == [];
    assert Flat<byte>([]) == [];
    CourseStarts(c, Opening(c), bufs);
  }

  lemma MidwayRange(c: Call, t: Tally, v0: View, v: View, flat: seq<byte>, bufs: Slices)
    requires Midway(c, t, v0, v, flat, bufs)
    ensures t.prev > 0 && t.written <= |flat| && t.limit > 0
  {
  }

  lemma MidwayBacklog(c: Call, t: Tally, v0: View, v: View, flat: seq<byte>, bufs: Slices)
    requires Midway(c, t, v0, v, flat, bufs)
    ensures |v.backlog| <= FallbackBound(c.fragment, c.overhead, c.pending)
  {
    if InTail(c, t.written) {
      TailBound(c, t);
    } else {
      FallbackBoundFloor(c.fragment, c.overhead, c.pending);
    }
  }

  lemma EndSettles(c: Call, t: Tally, v0: View, v: View, flat: seq<byte>, bufs: Slices)
    requires Midway(c, t, v0, v, flat, bufs) && t.written == |flat| > 0
    ensures Settled(c, v0, v, flat, bufs, t.written, None)
  {
    MidwayBacklog(c, t, v0, v, flat, bufs);
  }

  lemma FailureSettles(c: Call, t: Tally, v0: View, v: View, v': View, flat: seq<byte>, bufs: Slices, kind: ErrorKind)
    requires Midway(c, t, v0, v, flat, bufs) && SealedNothing(v, v', [kind])
    ensures Settled(c, v0, v', flat, bufs, t.written, Some(kind))
  {
    MidwayBacklog(c, t, v0, v, flat, bufs);
  }

  /** A sealed record leaves the loop midway, or full with too much left to finish. */
  lemma RecordSettles(c: Call, t: Tally, v0: View, v: View, v': View, flat: seq<byte>, bufs: Slices,
                      record: seq<byte>, n: nat, direct: bool)
    requires Midway(c, t, v0, v, flat, bufs)
    requires 0 < |record| <= t.limit && record <= flat[t.written..] && t.prev + |record| > t.limit
    requires SealedRecord(v, v', record, n, c.fragment, c.overhead, direct)
    requires direct ==> t.through && t.written + |record| == |flat|
    requires |record| == NextLen(bufs, t.written, t.limit)
    ensures var t' := Next(c, t, record, n, |v'.backlog|);
            if |v'.backlog| >= WRITE_BUF_CAPACITY && !InTail(c, t'.written)
            then Settled(c, v0, v', flat, bufs, t'.written, None)
            else Midway(c, t', v0, v', flat, bufs)
  {
    TallyStep(c, t, record, n, |v'.backlog|);
    TallyStep(c, t, record, n, |v.backlog| + v.pending + n + c.overhead);
    ProgressStep(c, t, v0, v, v', flat, record, n, direct);
    CourseStep(c, t, bufs, record, n, |v'.backlog|);
  }

  /** The record of a turn is packed from `rest`, and the two last records would not share one. */
  ghost predicate TurnFits(step: RecordTurn, rest: seq<byte>, limit: nat, prev: nat, written: nat, bufs: Slices) {
    match step
    case Finished => rest == []
    case Broke(_) => true
    case Took(record, n) =>
      && 0 < n <= |record| <= limit && record <= rest && prev + |record| > limit
      && written < |Flat(bufs)| && limit > 0 && |record| == NextLen(bufs, written, limit)
  }

  /** What a turn does to the write side. */
  ghost predicate TurnSeals(step: RecordTurn, v: View, v': View, fragment: nat, overhead: nat, top: nat,
                            last: bool, written: nat, total: nat) {
    match step
    case Finished => SealedNothing(v, v', [])
    case Broke(kind) => SealedNothing(v, v', [kind])
    case Took(record, n) =>
      SealedRecord(v, v', record, n, fragment, overhead, last && SaturatingAdd(top, written, |record|) >= total)
  }

  lemma TurnSettles(c: Call, t: Tally, v0: View, v: View, v': View, flat: seq<byte>, bufs: Slices,
                    step: RecordTurn, top: nat)
    requires Midway(c, t, v0, v, flat, bufs) && c.total <= top
    requires TurnFits(step, flat[t.written..], t.limit, t.prev, t.written, bufs)
    requires TurnSeals(step, v, v', c.fragment, c.overhead, top, t.through, t.written, c.total)
    ensures match step
            case Finished => Settled(c, v0, v', flat, bufs, t.written, None)
            case Broke(kind) => Settled(c, v0, v', flat, bufs, t.written, Some(kind))
            case Took(record, n) =>
              var t' := Next(c, t, record, n, |v'.backlog|);
              if |v'.backlog| >= WRITE_BUF_CAPACITY && !InTail(c, t'.written)
              then Settled(c, v0, v', flat, bufs, t'.written, None)
              else Midway(c, t', v0, v', flat, bufs)
  {
    match step {
      case Finished =>
        EndSettles(c, t, v0, v, flat, bufs);
      case Broke(kind) =>
        FailureSettles(c, t, v0, v, v', flat, bufs, kind);
      case Took(record, n) =>
        if !InTail(c, t.written) {
          NotLastBeforeTail(c, t, top, |record|);
        }
        RecordSettles(c, t, v0, v, v', flat, bufs, record, n,
                      t.through && SaturatingAdd(top, t.written, |record|) >= c.total);
    }
  }

  /** A final drain moves backlog to the wire and touches nothing else. */
  ghost predicate Drained(v: View, v': View) {
    && v' == v.(wire := v'.wire, backlog := v'.backlog, polls := v'.polls, capacity := v'.capacity)
    && |v'.backlog| <= |v.backlog|
  }

  /**
    Having sealed `n` of `len` bytes, a write has sealed all, or a full buffer while more than a default
    record is left.
   */
  ghost predicate Exhausts(v: View, v': View, total: nat, len: nat, n: nat) {
    || n == len
    || (Monus(total, n) > MAX_RECORD && |v.backlog| + |Cipher(v'.log)| - |Cipher(v.log)| >= WRITE_BUF_CAPACITY)
  }

  lemma FallbackOutcome(c: Call, v0: View, v: View, v': View, flat: seq<byte>, bufs: Slices, top: nat,
                        written: nat, err: Option<ErrorKind>, r: Result<nat>)
    requires Settled(c, v0, v, flat, bufs, written, err) && flat == Flat(bufs) && Drained(v, v')
    requires v0.polls <= v.polls <= v'.polls && OneWrite(v, v')
    requires Conserved(v0) && Conserved(v) && v0.wire <= v.wire
    requires c.start == |v0.backlog| && c.pending == v0.pending && flat != [] && c.total <= top
    requires WRITE_BUF_CAPACITY <= top
    requires r == if err.Some? && written == 0 then Err(err.value) else Ok(written)
    ensures ReportedOnce(v0, v', flat, r) && FewWrites(v0, v', 0)
    ensures WithinFallback(v0, v', c.fragment, c.overhead, r)
    ensures v'.failures == v0.failures ==> r.Ok? && Exhausts(v0, v', c.total, |flat|, r.value)
    ensures v'.failures == v0.failures ==>
              r == Ok(SliceLoop(bufs, c.fragment, c.overhead, |v0.backlog| + v0.pending, 0, MAX_RECORD, c.total))
    ensures |bufs| == 1 && c.total == |flat| && v'.failures == v0.failures ==>
              r == Ok(SealBudget(top, c.fragment, c.overhead, v0.pending, |v0.backlog|, c.total))
  {
    hide SliceLoop, RecordLoop, SealBudget, FallbackBound, Flat;
    if |bufs| == 1 && c.total == |flat| {
      SliceLoopOnOne(bufs, c.fragment, c.overhead, c.start + c.pending, 0, MAX_RECORD);
      SealBudgetIsRecordLoop(top, c.fragment, c.overhead, c.pending, c.start, c.total);
    }
    if TookAll(v'.polls[|v0.polls|..]) {
      TookAllSince(v'.polls, |v0.polls|, |v.polls|);
      if |v.polls| > |v0.polls| && NoShort(v.calls[|v0.calls|..]) {
        TookAllGone(v, v'.polls, |v0.polls|);
      }
    }
  }

  /** Nothing stays behind with a transport that takes all it is offered. */
  lemma TookAllGone(v: View, polls: seq<WritePoll>, start: nat)
    requires start < |v.polls| && v.polls <= polls && TookAll(polls[start..]) && Gone(v, start)
    ensures v.backlog == []
  {
    var k := |v.polls| - 1;
    assert polls[start..][k - start] == v.polls[k] == v.polls[start..][k - start];
  }

  // ----- Runs of writes -----

  /** One poll of a write, as the caller sees it. */
  ghost predicate WriteStep(v: View, v': View, input: seq<byte>, fragment: nat, overhead: nat, r: Poll<nat>)
    requires fragment > 0
  {
    exists result :: Cvt(result) == r && Wrote(v, v', input, fragment, overhead, result)
  }

  /** Nothing was sealed: the transport refused the backlog, and it fills the buffer. */
  ghost predicate RefusedFull(v: View, v': View) {
    && v'.log == v.log && v'.failures == v.failures && |v'.backlog| >= WRITE_BUF_CAPACITY
    && v.polls <= v'.polls && BackedByLast(v'.polls[|v.polls|..])
  }

  /** Nothing was sealed: sealing failed with `WouldBlock`. */
  ghost predicate SealingBlocked(v: View, v': View) {
    v'.log == v.log && v'.failures == v.failures + [WouldBlock]
  }

  /** A write is `Pending` exactly for one of these two causes. */
  lemma PendingIff(v: View, v': View, input: seq<byte>, fragment: nat, overhead: nat, r: Poll<nat>)
    requires fragment > 0 && WriteStep(v, v', input, fragment, overhead, r)
    ensures r.Pending? <==> RefusedFull(v, v') || SealingBlocked(v, v')
  {
    hide WriteBound;
    var result :| Cvt(result) == r && Wrote(v, v', input, fragment, overhead, result);
    match result {
      case Ok(n) =>
        if n > 0 {
          assert Plain(v'.log) == Plain(v.log) + input[..n];
          assert v'.log != v.log;
        }
      case Err(kind) =>
        assert (v.failures + [kind])[|v.failures|] == kind;
        assert (v.failures + [WouldBlock])[|v.failures|] == WouldBlock;
    }
  }

  // ----- Activity of the TLS library outside writes -----

  /**
    Reads, handshakes and shutdowns seal no application data; what they buffer is ciphertext of the TLS
    library's own.
   */
  ghost predicate OtherActivity(v: View, v': View) {
    && Plain(v'.log) == Plain(v.log) && v.wire <= v'.wire
    && |Cipher(v.log)| <= |Cipher(v'.log)|
    && v'.peak <= Max(v.peak, |v.backlog| + |Cipher(v'.log)| - |Cipher(v.log)|)
  }

  lemma OtherSame(v: View)
    ensures OtherActivity(v, v)
  {
  }

  lemma OtherTrans(a: View, b: View, c: View)
    requires OtherActivity(a, b) && OtherActivity(b, c) && Conserved(a) && Conserved(b)
    ensures OtherActivity(a, c)
  {
    assert a.wire <= c.wire;
  }

  lemma StepOf(v: View, v': View, input: seq<byte>, fragment: nat, overhead: nat, r: Result<nat>)
    requires fragment > 0
    requires Wrote(v, v', input, fragment, overhead, r)
    ensures WriteStep(v, v', input, fragment, overhead, Cvt(r))
  {
  }

  ghost predicate Wrote(v: View, v': View, input: seq<byte>, fragment: nat, overhead: nat, r: Result<nat>)
    requires fragment > 0
  {
    && ReportedOnce(v, v', input, r) && WithinWrite(v, v', fragment, overhead, r)
    && FailsForCause(v, v', r) && Prompt(v, v', r) && FewWrites(v, v', if v.backlog == [] then 0 else 1)
    && (r == Ok(0) ==> v'.failures == v.failures && |v'.backlog| < WRITE_BUF_CAPACITY)
  }
}
