/**
  The underlying byte stream, as an adversary.

  Every poll answers whatever it likes within the poll contract: a write takes a prefix of what is
  offered, refuses, or fails. The ghost fields record what happened.
 */
module Transports {
  import opened Basics

  /** The answer to one write poll: `n` of the `offered` bytes taken, `Pending`, or an error. */
  datatype WritePoll = Accepted(n: nat, offered: nat) | Blocked | Failed(kind: ErrorKind)

  /** A refusal: `Pending` or an error. Accepting zero bytes is not one. */
  predicate Refused(p: WritePoll) { !p.Accepted? }

  ghost predicate NoRefusal(polls: seq<WritePoll>) {
    forall i :: 0 <= i < |polls| ==> !Refused(polls[i])
  }

  /** No write poll follows a refused one. */
  ghost predicate RefusalIsFinal(polls: seq<WritePoll>) {
    forall i :: 0 <= i < |polls| - 1 ==> !Refused(polls[i])
  }

  /** The transport's last answer left bytes behind. */
  ghost predicate Holds(polls: seq<WritePoll>) {
    polls != [] && var last := polls[|polls| - 1];
    Refused(last) || last.n < last.offered
  }

  /** Every poll took all it was offered. */
  ghost predicate TookAll(polls: seq<WritePoll>) {
    forall i :: 0 <= i < |polls| ==> polls[i].Accepted? && polls[i].n == polls[i].offered
  }

  lemma TookAllAppend(polls: seq<WritePoll>, answer: WritePoll)
    requires TookAll(polls + [answer])
    ensures TookAll(polls) && answer.Accepted? && answer.n == answer.offered
  {
    assert answer == (polls + [answer])[|polls|];
    forall i | 0 <= i < |polls|
      ensures polls[i].Accepted? && polls[i].n == polls[i].offered
    {
      assert polls[i] == (polls + [answer])[i];
    }
  }

  lemma TookAllSince(polls: seq<WritePoll>, a: nat, b: nat)
    requires a <= b <= |polls| && TookAll(polls[a..])
    ensures TookAll(polls[b..])
  {
    forall i | 0 <= i < |polls| - b
      ensures polls[b..][i].Accepted? && polls[b..][i].n == polls[b..][i].offered
    {
      assert polls[b..][i] == polls[a..][b - a + i];
    }
  }

  /** Backpressure is reported on account of the last poll. */
  ghost predicate BackedByLast(polls: seq<WritePoll>) {
    polls != [] && (polls[|polls| - 1] == Blocked || polls[|polls| - 1] == Failed(WouldBlock))
  }

  /** What the result of a drain says about the polls it made. */
  ghost predicate Reports(r: Result<()>, polls: seq<WritePoll>) {
    && RefusalIsFinal(polls)
    && match r {
         case Ok(_) => NoRefusal(polls)
         case Err(kind) => polls != [] && Explains(polls[|polls| - 1], kind)
       }
  }

  /** The error a drain makes of the poll that stopped it. */
  ghost predicate Explains(last: WritePoll, kind: ErrorKind) {
    match last
    case Accepted(n, offered) => n == 0 < offered && kind == WriteZero
    case Blocked => kind == WouldBlock
    case Failed(k) => kind == k
  }

  // ----- Backpressure and `Pending` -----

  /** What flushing says about the polls it made: the drain's account, or the answer to the flush poll. */
  ghost predicate FlushReports(r: Result<()>, polls: seq<WritePoll>, flushes: seq<Poll<()>>) {
    if flushes == [] then r.Err? && Reports(r, polls)
    else
      && |flushes| == 1 && NoRefusal(polls)
      && match flushes[0]
         case Pending => r == Err(WouldBlock)
         case Ready(Err(kind)) => r == Err(kind)
         case Ready(Ok(_)) => r.Ok?
  }

  function FlushResult(answer: Poll<()>): Result<()> {
    match answer
    case Ready(result) => result
    case Pending => Err(WouldBlock)
  }

  /** What a poll method answers that flushed so. */
  ghost predicate FlushAnswers(answer: Poll<()>, polls: seq<WritePoll>, flushes: seq<Poll<()>>) {
    match answer
    case Pending => FlushReports(Err(WouldBlock), polls, flushes)
    case Ready(r) => FlushReports(r, polls, flushes) && r != Err(WouldBlock)
  }

  /** Some answer was `Pending`, so a waker is registered. */
  ghost predicate Founded(polls: seq<WritePoll>, flushes: seq<Poll<()>>) {
    Blocked in polls || Pending in flushes
  }

  /** Some answer was an error of the kind that stands for backpressure. */
  ghost predicate Misreports(polls: seq<WritePoll>, flushes: seq<Poll<()>>) {
    Failed(WouldBlock) in polls || Ready(Err(WouldBlock)) in flushes
  }

  /** A drain's backpressure is founded exactly with a transport that never fails with `WouldBlock`. */
  lemma DrainFounded(r: Result<()>, polls: seq<WritePoll>)
    requires Reports(r, polls)
    ensures (r == Err(WouldBlock) ==> Founded(polls, [])) <==> !Misreports(polls, [])
  {
    if Failed(WouldBlock) in polls {
      var i :| 0 <= i < |polls| && polls[i] == Failed(WouldBlock);
      assert Refused(polls[i]);
    }
  }

  /** So is a flush's, whether draining or the flush poll stopped it. */
  lemma FlushFounded(r: Result<()>, polls: seq<WritePoll>, flushes: seq<Poll<()>>)
    requires FlushReports(r, polls, flushes)
    ensures (r == Err(WouldBlock) ==> Founded(polls, flushes)) <==> !Misreports(polls, flushes)
  {
    if flushes == [] {
      DrainFounded(r, polls);
    } else {
      assert forall p :: p in polls ==> !Refused(p);
      assert flushes == [flushes[0]];
    }
  }

  lemma RefusalAppend(a: seq<WritePoll>, b: seq<WritePoll>)
    requires NoRefusal(a) && RefusalIsFinal(b)
    ensures RefusalIsFinal(a + b)
    ensures NoRefusal(b) <==> NoRefusal(a + b)
  {
    assert forall i :: 0 <= i < |b| ==> (a + b)[|a| + i] == b[i];
  }

  lemma OnePollIsFinal(polls: seq<WritePoll>)
    requires |polls| <= 1
    ensures RefusalIsFinal(polls)
  {
  }

  /** Once refused, a transport holds on. */
  lemma RefusedHolds(polls: seq<WritePoll>)
    requires RefusalIsFinal(polls) && !NoRefusal(polls)
    ensures Holds(polls)
  {
  }

  /** A drain that failed was held up by its last poll. */
  lemma ReportsHold(r: Result<()>, polls: seq<WritePoll>)
    requires Reports(r, polls)
    ensures RefusalIsFinal(polls) && (r.Err? ==> Holds(polls))
  {
  }

  lemma NothingPolled(polls: seq<WritePoll>)
    requires polls == []
    ensures RefusalIsFinal(polls) && TookAll(polls)
  {
  }

  // ----- Draining, poll by poll -----

  /** What a drain has come to after `polls`, with `rest` bytes to go. */
  ghost predicate Draining(r: Result<()>, polls: seq<WritePoll>, rest: nat) {
    && Reports(r, polls) && (r.Err? ==> rest > 0)
    && (TookAll(polls) && polls != [] ==> |polls| == 1 && rest == 0)
  }

  lemma DrainingStarts(rest: nat)
    ensures Draining(Ok(()), [], rest)
  {
  }

  lemma DrainingStep(before: Result<()>, polls: seq<WritePoll>, answer: WritePoll, rest: nat, r: Result<()>, rest': nat)
    requires Draining(before, polls, rest) && before.Ok? && rest > 0
    requires match answer
             case Accepted(n, offered) =>
               && n <= offered == rest && rest' == rest - n
               && if n == 0 then r == Err(WriteZero) else r.Ok?
             case Blocked => rest' == rest && r == Err(WouldBlock)
             case Failed(kind) => rest' == rest && r == Err(kind)
    ensures Draining(r, polls + [answer], rest')
  {
    if TookAll(polls + [answer]) {
      TookAllAppend(polls, answer);
    }
  }

  lemma DrainingEnds(r: Result<()>, polls: seq<WritePoll>, rest: nat)
    requires Draining(r, polls, rest)
    ensures Reports(r, polls) && (r.Err? ==> rest > 0) && (TookAll(polls) ==> |polls| <= 1)
  {
  }

  lemma HoldsAppend(a: seq<WritePoll>, b: seq<WritePoll>)
    requires Holds(b)
    ensures Holds(a + b)
  {
    assert (a + b)[|a + b| - 1] == b[|b| - 1];
  }

  /** A read poll: the room offered, and the answer. */
  datatype ReadPoll = ReadPoll(room: nat, answer: Poll<seq<byte>>)

  /** A shutdown poll: how much was accepted and flushed by then, and the answer. */
  datatype Closing = Closing(accepted: nat, flushed: nat, answer: Poll<()>)

  /**
    Where `plan` and `flushPlan` hold an answer for a poll, a refusal or any flush answer, the transport
    gives that one; otherwise it answers as it likes.
   */
  class Transport {
    const plan: seq<WritePoll>
    const flushPlan: seq<Poll<()>>
    var polls: seq<WritePoll>          // answers to the write polls so far
    var flushes: seq<Poll<()>>         // answers to the flush polls so far
    ghost var closes: seq<Closing>     // shutdown polls so far
    ghost var fills: seq<ReadPoll>     // read polls so far
    ghost var wire: seq<byte>          // bytes accepted so far
    ghost var flushedTo: nat           // length of `wire` at the last successful flush
    ghost var taken: seq<byte>         // bytes handed out by read polls so far

    constructor (plan: seq<WritePoll>, flushPlan: seq<Poll<()>>)
      ensures this.plan == plan && this.flushPlan == flushPlan
      ensures polls == [] && flushes == [] && closes == [] && fills == []
      ensures wire == [] && flushedTo == 0 && taken == []
    {
      this.plan, this.flushPlan := plan, flushPlan;
      polls, flushes, closes, fills, wire, flushedTo, taken := [], [], [], [], [], 0, [];
    }

    /** The write polls from the `from`th on were answered as planned. */
    ghost predicate Planned(from: nat)
      reads this`polls
    {
      forall i :: from <= i < |polls| && i < |plan| && Refused(plan[i]) ==> polls[i] == plan[i]
    }

    /** A write poll offered `offered`. */
    method PollWrite(offered: seq<byte>) returns (answer: WritePoll)
      modifies this`wire, this`polls
      ensures polls == old(polls) + [answer] && Planned(|old(polls)|)
      ensures answer.Accepted? ==> answer.n <= answer.offered == |offered| && wire == old(wire) + offered[..answer.n]
      ensures Refused(answer) ==> wire == old(wire)
    {
      var n: nat :| n <= |offered|;
      var kind: ErrorKind := *;
      var choice: int := *;
      if |polls| < |plan| && Refused(plan[|polls|]) {
        answer := plan[|polls|];
        polls := polls + [answer];
        return;
      }
      match choice {
        case 0 => answer := Blocked;
        case 1 => answer := Failed(kind);
        case _ =>
          answer := Accepted(n, |offered|);
          wire := wire + offered[..n];
      }
      polls := polls + [answer];
    }

    method IsWriteVectored() returns (vectored: bool)
    {
      vectored := *;
    }

    /** A vectored write poll offered `first` and then `second`. */
    method PollWriteVectored(first: seq<byte>, second: seq<byte>) returns (answer: WritePoll)
      modifies this`wire, this`polls
      ensures polls == old(polls) + [answer] && Planned(|old(polls)|)
      ensures answer.Accepted? ==>
                answer.n <= answer.offered == |first| + |second| && wire == old(wire) + (first + second)[..answer.n]
      ensures Refused(answer) ==> wire == old(wire)
    {
      answer := PollWrite(first + second);
    }

    method PollFlush() returns (answer: Poll<()>)
      modifies this`flushedTo, this`flushes
      ensures flushes == old(flushes) + [answer]
      ensures |old(flushes)| < |flushPlan| ==> answer == flushPlan[|old(flushes)|]
      ensures flushedTo == if answer.Ready? && answer.result.Ok? then |wire| else old(flushedTo)
    {
      answer := *;
      if |flushes| < |flushPlan| {
        answer := flushPlan[|flushes|];
      }
      flushes := flushes + [answer];
      if answer.Ready? && answer.result.Ok? {
        flushedTo := |wire|;
      }
    }

    method PollShutdown() returns (answer: Poll<()>)
      modifies this`closes
      ensures closes == old(closes) + [Closing(|wire|, flushedTo, answer)]
    {
      answer := *;
      closes := closes + [Closing(|wire|, flushedTo, answer)];
    }

    /** A read poll with room for `room` bytes. No bytes is the end of the stream. */
    method PollRead(room: nat) returns (answer: Poll<seq<byte>>)
      modifies this`taken, this`fills
      ensures fills == old(fills) + [ReadPoll(room, answer)]
      ensures answer.Ready? && answer.result.Ok? ==>
                |answer.result.value| <= room && taken == old(taken) + answer.result.value
      ensures !(answer.Ready? && answer.result.Ok?) ==> taken == old(taken)
    {
      var data: seq<byte> :| |data| <= room;
      var kind: ErrorKind := *;
      var choice: int := *;
      match choice {
        case 0 => answer := Pending;
        case 1 => answer := Ready(Err(kind));
        case _ =>
          answer := Ready(Ok(data));
          taken := taken + data;
      }
      fills := fills + [ReadPoll(room, answer)];
    }
  }
}
