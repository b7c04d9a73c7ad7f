/** Futures stored with a connection and driven by callbacks: btls/src/ssl/async_callbacks.rs. */
module ExDataFutures {
  import opened Basics

  /** What a poll of a future answers: pending, ready with a closure to run, or ready with a failure. */
  datatype Answer = NotYet | Finish | Fails

  /** What happened to the futures of one slot. Futures are named in the order of their creation. */
  datatype Event =
    | Created(future: nat)
    | Refused                                         // creating one failed
    | Polled(future: nat, answer: Answer)
    | Finished(future: nat, written: Option<nat>)     // the closure it resolved to ran, with this result
    | Bug                                             // `complete` ran with no future stored

  /** The future being driven, the one whose closure is yet to run, and the name of the next. */
  datatype Phase = Phase(live: Option<nat>, resolved: Option<nat>, next: nat)

  /** One step of a slot, or `None` if it breaks the rules; a closure runs before anything else happens. */
  function Advance(p: Phase, e: Event): Option<Phase> {
    if p.resolved.Some? then
      if e.Finished? && p.resolved == Some(e.future) then Some(p.(resolved := None)) else None
    else match e
      case Created(f) => if p.live.None? && f == p.next then Some(Phase(Some(f), None, f + 1)) else None
      case Polled(f, answer) =>
        if p.live != Some(f) then None
        else if answer.NotYet? then Some(p)
        else Some(Phase(None, if answer.Finish? then Some(f) else None, p.next))
      case Finished(_, _) => None
      case _ => if p.live.None? then Some(p) else None
  }

  /** The phase after a history, if it keeps to the rules throughout. */
  function After(events: seq<Event>): Option<Phase> {
    if events == [] then Some(Phase(None, None, 0)) else
      match After(events[..|events| - 1])
      case None => None
      case Some(p) => Advance(p, events[|events| - 1])
  }

  predicate Lawful(events: seq<Event>) { After(events).Some? }

  /** A ready result of the future. */
  predicate Ready(e: Event, future: nat) { e.Polled? && e.future == future && !e.answer.NotYet? }

  lemma AfterAppend(events: seq<Event>, e: Event)
    ensures After(events + [e]) == match After(events) case None => None case Some(p) => Advance(p, e)
  {
    assert (events + [e])[..|events|] == events;
  }

  // ----- What every lawful history obeys -----

  lemma {:induction false} PrefixLawful(events: seq<Event>, n: nat)
    requires Lawful(events) && n <= |events|
    ensures Lawful(events[..n])
  {
    if n < |events| {
      assert events[..|events| - 1][..n] == events[..n];
      PrefixLawful(events[..|events| - 1], n);
    } else {
      assert events[..n] == events;
    }
  }

  /** Names in use are below `next`, and a resolved future is not live. */
  lemma {:induction false} Known(events: seq<Event>, k: nat)
    requires Lawful(events) && k < |events| && !events[k].Bug? && !events[k].Refused?
    ensures events[k].future < After(events).value.next
    ensures Ready(events[k], events[k].future) ==> After(events).value.live != Some(events[k].future)
  {
    var n := |events| - 1;
    PrefixLawful(events, n);
    if k < n {
      Known(events[..n], k);
    } else {
      LiveIsKnown(events[..n]);
    }
  }

  lemma {:induction false} LiveIsKnown(events: seq<Event>)
    requires Lawful(events)
    ensures var p := After(events).value;
            (p.live.Some? ==> p.live.value < p.next) && (p.resolved.Some? ==> p.resolved.value < p.next)
  {
    if events != [] {
      PrefixLawful(events, |events| - 1);
      LiveIsKnown(events[..|events| - 1]);
    }
  }

  /** A future is never polled again after its first ready result. */
  lemma NeverPolledAfterReady(events: seq<Event>, i: nat, j: nat)
    requires Lawful(events) && i < j < |events|
    requires events[i].Polled? && Ready(events[i], events[i].future)
    ensures !(events[j].Polled? && events[j].future == events[i].future)
  {
    PrefixLawful(events, j + 1);
    assert events[..j + 1][..j] == events[..j];
    Known(events[..j], i);
  }

  /** A new future is created only once every earlier one is resolved. */
  lemma {:induction false} CreatedOneAtATime(events: seq<Event>, i: nat, j: nat)
    requires Lawful(events) && i < j < |events|
    requires events[i].Created? && events[j].Created?
    ensures events[i].future != events[j].future
    ensures exists k :: i < k < j && Ready(events[k], events[i].future)
  {
    PrefixLawful(events, j + 1);
    assert events[..j + 1][..j] == events[..j];
    Known(events[..j], i);
    LiveUntilReady(events[..j], i);
  }

  /** A created future stays live until it is polled ready. */
  lemma {:induction false} LiveUntilReady(events: seq<Event>, i: nat)
    requires Lawful(events) && i < |events| && events[i].Created?
    ensures || After(events).value.live == Some(events[i].future)
            || exists k :: i < k < |events| && Ready(events[k], events[i].future)
  {
    var n := |events| - 1;
    PrefixLawful(events, n);
    if i < n {
      LiveUntilReady(events[..n], i);
      if k :| i < k < n && Ready(events[..n][k], events[i].future) {
        assert Ready(events[k], events[i].future);
      } else if Ready(events[n], events[i].future) {
      }
    }
  }

  /** The closure of a future runs right as it resolves, so at most once. */
  lemma FinishedOnce(events: seq<Event>, i: nat, j: nat)
    requires Lawful(events) && i < j < |events|
    requires events[i].Finished? && events[j].Finished?
    ensures events[i].future != events[j].future
  {
    FinishedAtReady(events, i);
    FinishedAtReady(events, j);
    if events[i].future == events[j].future && i < j - 1 {
      NeverPolledAfterReady(events, i - 1, j - 1);
    }
  }

  lemma FinishedAtReady(events: seq<Event>, j: nat)
    requires Lawful(events) && j < |events| && events[j].Finished?
    ensures j > 0 && events[j - 1] == Polled(events[j].future, Finish)
  {
    PrefixLawful(events, j + 1);
    assert events[..j + 1][..j] == events[..j];
    assert After(events[..j]).value.resolved == Some(events[j].future);
    assert events[..j] != [];
    assert events[..j][..j - 1] == events[..j - 1];
    assert events[..j][j - 1] == events[j - 1];
  }

  /** A future that resolves to a closure has it run before anything else happens. */
  lemma FinishedRightAway(events: seq<Event>, i: nat)
    requires Lawful(events) && i < |events| && events[i].Polled? && events[i].answer.Finish?
    ensures After(events[..i + 1]).Some? && After(events[..i + 1]).value.resolved == Some(events[i].future)
    ensures i + 1 < |events| ==> events[i + 1].Finished? && events[i + 1].future == events[i].future
  {
    PrefixLawful(events, i + 1);
    assert events[..i + 1][..i] == events[..i];
    if i + 1 < |events| {
      PrefixLawful(events, i + 2);
      assert events[..i + 2][..i + 1] == events[..i + 1];
    }
  }

  // ----- The driver -----

  /** What driving a future comes to: still pending, resolved, or failed. */
  datatype Driven = StillPending | Resolved(future: nat) | Failed

  /** What a private key method returns to the TLS library. */
  datatype KeyResult = Written(n: nat) | Failure | Retry

  /** The ex data slot of one connection. */
  class Slot {
    var stored: Option<nat>
    var taskWaker: bool         // whether a task waker is set
    var next: nat
    ghost var events: seq<Event>

    /** The history is lawful, the stored future is the live one, and `resolved` is yet to be finished. */
    ghost predicate Owes(resolved: Option<nat>)
      reads this
    {
      && Lawful(events)
      && After(events).value == Phase(stored, resolved, next)
    }

    ghost predicate Valid()
      reads this
    {
      Owes(None)
    }

    constructor (taskWaker: bool)
      ensures Valid() && stored == None && events == [] && this.taskWaker == taskWaker
    {
      stored, next, events := None, 0, [];
      this.taskWaker := taskWaker;
    }

    ghost method Note(e: Event)
      requires Lawful(events) && Advance(After(events).value, e).Some?
      modifies this`events
      ensures Lawful(events) && events == old(events) + [e]
      ensures After(events) == Advance(old(After(events).value), e)
    {
      AfterAppend(events, e);
      events := events + [e];
    }

    /** Polls a live future, which answers as it likes. */
    method Poll(future: nat) returns (answer: Answer)
      requires Lawful(events) && After(events).value.live == Some(future) && After(events).value.resolved == None
      modifies this`events
      ensures Lawful(events) && events == old(events) + [Polled(future, answer)]
      ensures After(events) == Advance(old(After(events).value), Polled(future, answer))
    {
      answer := *;
      Note(Polled(future, answer));
    }

    /** Makes a future, or fails; `complete` has none to make. */
    method Create(complete: bool) returns (future: Option<nat>)
      requires Valid() && stored == None
      modifies this`next, this`events
      ensures Lawful(events) && After(events).value == Phase(future, None, next)
      ensures future.Some? ==> !complete && future == Some(old(next)) && events == old(events) + [Created(old(next))]
      ensures future.None? ==> events == old(events) + [if complete then Bug else Refused]
    {
      var fails: bool := *;
      if complete {
        Note(Bug);
        future := None;
      } else if fails {
        Note(Refused);
        future := None;
      } else {
        Note(Created(next));
        future := Some(next);
        next := next + 1;
      }
    }

    /** Runs the closure of a future just resolved. */
    method RunFinish(future: nat) returns (written: Option<nat>)
      requires Owes(Some(future))
      modifies this`events
      ensures Valid() && events == old(events) + [Finished(future, written)]
    {
      written := *;
      Note(Finished(future, written));
    }

    /**
      Drives the stored future, or one made now, with a single poll.

      A future is made only when none is stored; it is stored only while it is pending, and leaves the
      slot in the call in which it resolves.
     */
    method WithExDataFuture(complete: bool) returns (r: Driven)
      requires Valid() && taskWaker
      modifies this`stored, this`next, this`events
      ensures Owes(if r.Resolved? then Some(r.future) else None)
      ensures r.StillPending? <==> stored.Some?
      ensures old(events) < events
      ensures match old(stored)
              case Some(future) =>
                exists answer ::
                  Drives(r, future, answer) && events == old(events) + [Polled(future, answer)]
              case None =>
                if complete then r.Failed? && events == old(events) + [Bug]
                else
                  || (r.Failed? && events == old(events) + [Refused])
                  || exists answer ::
                       Drives(r, old(next), answer) &&
                       events == old(events) + [Created(old(next)), Polled(old(next), answer)]
    {
      if stored.Some? {
        var future := stored.value;
        var answer := Poll(future);
        if answer.NotYet? {
          r := StillPending;
        } else {
          stored := None;
          r := if answer.Finish? then Resolved(future) else Failed;
        }
        assert Drives(r, future, answer);
      } else {
        var future := Create(complete);
        if future.None? {
          return Failed;
        }
        var answer := Poll(future.value);
        assert old(events) + [Created(old(next))] + [Polled(old(next), answer)] ==
               old(events) + [Created(old(next)), Polled(old(next), answer)];
        match answer {
          case NotYet =>
            stored := future;
            r := StillPending;
          case Finish => r := Resolved(future.value);
          case Fails => r := Failed;
        }
        assert Drives(r, old(next), answer);
      }
    }

    /** Drives the future of a private key operation; one that resolves to a closure has it run in this call. */
    method WithPrivateKeyMethod(complete: bool) returns (r: KeyResult)
      requires Valid() && taskWaker
      modifies this`stored, this`next, this`events
      ensures Valid() && old(events) < events
      ensures r.Retry? <==> stored.Some?
      ensures Bug in events[|old(events)|..] <==> complete && old(stored) == None
      ensures match events[|events| - 1]
              case Polled(_, answer) => if answer.NotYet? then r == Retry else answer.Fails? && r == Failure
              case Finished(_, written) => r == if written.Some? then Written(written.value) else Failure
              case _ => r == Failure
    {
      hide After, Lawful, Advance;
      var driven := WithExDataFuture(complete);
      match driven {
        case StillPending => r := Retry;
        case Failed => r := Failure;
        case Resolved(future) =>
          var written := RunFinish(future);
          r := if written.Some? then Written(written.value) else Failure;
      }
    }
  }

  /** What comes of an answer. */
  ghost predicate Drives(r: Driven, future: nat, answer: Answer) {
    match answer
    case NotYet => r == StillPending
    case Finish => r == Resolved(future)
    case Fails => r == Failed
  }

  /** The calls the TLS library makes on a private key method. */
  datatype KeyCall = Sign | Decrypt | Complete

  /**
    Over every run in which `complete` follows only a `Retry`, the history stays lawful and the "BUG"
    branch is not reached.
   */
  method RunKeyOperations(slot: Slot, steps: nat) returns (last: KeyResult)
    requires slot.Valid() && slot.taskWaker && slot.stored == None && Bug !in slot.events
    modifies slot`stored, slot`next, slot`events
    ensures slot.Valid() && Bug !in slot.events && |slot.events| >= |old(slot.events)| + steps
  {
    last := Failure;
    for i := 0 to steps
      invariant slot.Valid() && Bug !in slot.events
      invariant last.Retry? ==> slot.stored.Some?
      invariant |slot.events| >= |old(slot.events)| + i
    {
      var call: KeyCall := *;
      if call.Complete? && !last.Retry? {
        call := Sign;
      }
      ghost var before := slot.events;
      last := slot.WithPrivateKeyMethod(call.Complete?);
      assert slot.events == before + slot.events[|before|..];
    }
  }
}
