/**
  The arithmetic of one `SSL_write` fallback: how many records it makes, when it stops, and how much
  ciphertext it can leave behind.
 */
module FallbackTallies {
  import opened Basics
  import opened Packers
  import opened SealBudgets

  /** What does not change during one fallback call. */
  datatype Call = Call(fragment: nat, overhead: nat, pending: nat, start: nat, total: nat, flat: nat) {
    ghost predicate Valid() {
      && 1 <= fragment <= MAX_RECORD
      && start < WRITE_BUF_CAPACITY
      && total <= flat
      && (total < flat ==> total >= 4 * WRITE_BUF_CAPACITY)
    }
  }

  /**
    Where the loop stands: plaintext `written`, ciphertext `backlog` buffered and `pending` still to
    come, the packing limit, the last record's length, and the whole records of the final tail packed
    at this limit.
   */
  datatype Tally = Tally(written: nat, backlog: nat, pending: nat, limit: nat, through: bool, prev: nat, tail: Slices)

  /** Most ciphertext a fallback call leaves buffered. */
  function FallbackBound(fragment: nat, overhead: nat, pending: nat): nat {
    WRITE_BUF_CAPACITY + pending + 2 * (fragment + overhead) + MAX_RECORD +
    (2 * (MAX_RECORD / (fragment + 1)) + 1) * overhead
  }

  lemma FallbackBoundFloor(fragment: nat, overhead: nat, pending: nat)
    ensures FallbackBound(fragment, overhead, pending) >=
            WRITE_BUF_CAPACITY + pending + 2 * (fragment + overhead) + MAX_RECORD
  {
    assert (2 * (MAX_RECORD / (fragment + 1)) + 1) * overhead >= 0;
  }

  predicate InTail(c: Call, written: nat) { Monus(c.total, written) <= MAX_RECORD }

  ghost predicate Keeps(c: Call, t: Tally)
    requires c.Valid()
  {
    && t.written <= c.flat
    && t.limit == (if t.through then MAX_RECORD else c.fragment)
    && t.pending <= c.pending
    && (c.total < c.flat ==> !InTail(c, t.written) && t.written <= t.backlog)
    && (!InTail(c, t.written) ==> t.tail == [] && t.backlog < WRITE_BUF_CAPACITY)
    && (InTail(c, t.written) ==>
          && |Flat(t.tail)| + (c.flat - t.written) <= MAX_RECORD
          && Packing(t.tail, t.limit)
          && (t.tail != [] ==> t.prev == |t.tail[|t.tail| - 1]|)
          && t.backlog + t.pending <= TailRoom(c, t))
  }

  /** Backlog allowed once the tail's records so far are buffered. */
  function TailRoom(c: Call, t: Tally): nat {
    WRITE_BUF_CAPACITY + c.pending + (c.fragment + c.overhead)
    + (if t.through then 0 else c.fragment + c.overhead)
    + |Flat(t.tail)| + |t.tail| * c.overhead
  }

  /** One record of the loop: `record` offered, `n` bytes of it sealed. */
  function Next(c: Call, t: Tally, record: seq<byte>, n: nat, backlog: nat): Tally {
    var short := n < |record|;
    Tally(t.written + n, backlog, 0, if short then n else t.limit, t.through && !short, if short then n else |record|,
          if short || !InTail(c, t.written) then [] else t.tail + [record])
  }

  /** Outside the final tail no record completes the write, so none is written through. */
  lemma NotLastBeforeTail(c: Call, t: Tally, top: nat, len: nat)
    requires c.Valid() && Keeps(c, t) && len <= MAX_RECORD
    requires c.total <= top
    requires !InTail(c, t.written)
    ensures SaturatingAdd(top, t.written, len) < c.total
  {
  }

  lemma TallyStep(c: Call, t: Tally, record: seq<byte>, n: nat, backlog: nat)
    requires c.Valid() && Keeps(c, t)
    requires 0 < |record| <= t.limit && |record| <= c.flat - t.written
    requires t.prev + |record| > t.limit
    requires n == Min(c.fragment, |record|)
    requires backlog <= t.backlog + t.pending + n + c.overhead
    requires !InTail(c, t.written) ==> backlog == t.backlog + t.pending + n + c.overhead
    ensures var t' := Next(c, t, record, n, backlog);
            && backlog <= FallbackBound(c.fragment, c.overhead, c.pending)
            && (backlog < WRITE_BUF_CAPACITY || InTail(c, t'.written) ==> Keeps(c, t'))
  {
    if !InTail(c, t.written) {
      StepBeforeTail(c, t, record, n, backlog);
    } else if n < |record| {
      ShortStepInTail(c, t, record, n, backlog);
    } else {
      WholeStepInTail(c, t, record, backlog);
    }
  }

  lemma StepBeforeTail(c: Call, t: Tally, record: seq<byte>, n: nat, backlog: nat)
    requires c.Valid() && Keeps(c, t) && !InTail(c, t.written)
    requires 0 < |record| <= t.limit && |record| <= c.flat - t.written
    requires n == Min(c.fragment, |record|)
    requires backlog == t.backlog + t.pending + n + c.overhead
    ensures var t' := Next(c, t, record, n, backlog);
            && backlog <= FallbackBound(c.fragment, c.overhead, c.pending)
            && (backlog < WRITE_BUF_CAPACITY || InTail(c, t'.written) ==> Keeps(c, t'))
  {
    var t' := Next(c, t, record, n, backlog);
    assert Flat(t'.tail) == [];
    FallbackBoundFloor(c.fragment, c.overhead, c.pending);
  }

  /** A short record in the tail is the only one so far, since one default record takes the tail. */
  lemma ShortStepInTail(c: Call, t: Tally, record: seq<byte>, n: nat, backlog: nat)
    requires c.Valid() && Keeps(c, t) && InTail(c, t.written)
    requires 0 < |record| <= t.limit && |record| <= c.flat - t.written
    requires t.prev + |record| > t.limit
    requires n == Min(c.fragment, |record|) < |record|
    requires backlog <= t.backlog + t.pending + n + c.overhead
    ensures var t' := Next(c, t, record, n, backlog);
            Keeps(c, t') && backlog <= FallbackBound(c.fragment, c.overhead, c.pending)
  {
    if t.tail != [] {
      LastFits(t.tail);
    }
    var t' := Next(c, t, record, n, backlog);
    assert Flat(t'.tail) == [];
    TailBound(c, t');
  }

  lemma WholeStepInTail(c: Call, t: Tally, record: seq<byte>, backlog: nat)
    requires c.Valid() && Keeps(c, t) && InTail(c, t.written)
    requires 0 < |record| <= t.limit && |record| <= c.flat - t.written
    requires t.prev + |record| > t.limit
    requires |record| <= c.fragment
    requires backlog <= t.backlog + t.pending + |record| + c.overhead
    ensures var t' := Next(c, t, record, |record|, backlog);
            Keeps(c, t') && backlog <= FallbackBound(c.fragment, c.overhead, c.pending)
  {
    FlatAppend(t.tail, record);
    PackingAppend(t.tail, record, t.limit);
    MulStep(|t.tail|, c.overhead);
    TailBound(c, Next(c, t, record, |record|, backlog));
  }

  lemma LastFits(tail: Slices)
    requires tail != []
    ensures |tail[|tail| - 1]| <= |Flat(tail)|
  {
    assert tail == tail[..|tail| - 1] + [tail[|tail| - 1]];
    FlatAppend(tail[..|tail| - 1], tail[|tail| - 1]);
  }

  /** However the slices lie, the tail's records keep the backlog within the bound. */
  lemma TailBound(c: Call, t: Tally)
    requires c.Valid() && Keeps(c, t) && InTail(c, t.written)
    ensures t.backlog + t.pending <= FallbackBound(c.fragment, c.overhead, c.pending)
  {
    RecordCount(t.tail, t.limit);
    QuotientMono(|Flat(t.tail)|, MAX_RECORD, t.limit + 1, c.fragment + 1);
    var most := 2 * (MAX_RECORD / (c.fragment + 1)) + 1;
    MulMono(|t.tail|, most, c.overhead);
  }

  lemma QuotientMono(a: nat, b: nat, d: nat, e: nat)
    requires 0 < e <= d && a <= b
    ensures a / d <= b / e
  {
    var p, q := a / d, b / e;
    assert a == p * d + a % d && b == q * e + b % e;
    MulStep(q, e);
    MulMono(e, d, p);
    if q < p { MulMono(q + 1, p, e); }
  }

  // ----- How far the loop goes -----

  /**
    What the loop seals of `bufs` unless a call fails: it goes on from `written` bytes with `out` bytes of
    ciphertext, cutting records at `limit`.
   */
  function SliceLoop(bufs: Slices, fragment: nat, overhead: nat, out: nat, written: nat, limit: nat, total: nat): nat
    requires fragment > 0 && limit > 0 && written <= |Flat(bufs)|
    decreases |Flat(bufs)| - written
  {
    if written == |Flat(bufs)| then written else
      var len := NextLen(bufs, written, limit);
      var n := Min(fragment, len);
      var out', written' := out + n + overhead, written + n;
      if out' >= WRITE_BUF_CAPACITY && Monus(total, written') > MAX_RECORD then written'
      else SliceLoop(bufs, fragment, overhead, out', written', if n < len then n else limit, total)
  }

  /** One record of it. */
  lemma SliceLoopStep(bufs: Slices, fragment: nat, overhead: nat, out: nat, written: nat, limit: nat, total: nat)
    requires fragment > 0 && limit > 0 && written < |Flat(bufs)|
    ensures var len := NextLen(bufs, written, limit);
            var n := Min(fragment, len);
            var out', written' := out + n + overhead, written + n;
            && 0 < n <= |Flat(bufs)| - written
            && SliceLoop(bufs, fragment, overhead, out, written, limit, total) ==
               if out' >= WRITE_BUF_CAPACITY && Monus(total, written') > MAX_RECORD then written'
               else SliceLoop(bufs, fragment, overhead, out', written', if n < len then n else limit, total)
  {
    hide NextLen;
  }

  lemma {:induction false} SliceLoopTakesTail(bufs: Slices, fragment: nat, overhead: nat, out: nat, written: nat,
                                              limit: nat, total: nat)
    requires fragment > 0 && limit > 0 && written <= |Flat(bufs)|
    requires Monus(total, written) <= MAX_RECORD
    ensures SliceLoop(bufs, fragment, overhead, out, written, limit, total) == |Flat(bufs)|
    decreases |Flat(bufs)| - written
  {
    if written == |Flat(bufs)| {
      hide NextLen;
    } else {
      hide NextLen, SliceLoop;
      SliceLoopStep(bufs, fragment, overhead, out, written, limit, total);
      var len := NextLen(bufs, written, limit);
      var n := Min(fragment, len);
      SliceLoopTakesTail(bufs, fragment, overhead, out + n + overhead, written + n,
                         if n < len then n else limit, total);
    }
  }

  /** On one slice it is the record-by-record rule, even with a first record cut too long. */
  lemma {:induction false} SliceLoopOnOne(bufs: Slices, fragment: nat, overhead: nat, out: nat, written: nat,
                                          limit: nat)
    requires |bufs| == 1 && limit >= fragment > 0 && written <= |Flat(bufs)|
    ensures SliceLoop(bufs, fragment, overhead, out, written, limit, |Flat(bufs)|) ==
            RecordLoop(fragment, overhead, out, written, |Flat(bufs)|)
    decreases |Flat(bufs)| - written
  {
    hide NextLen, Flat;
    if written < |Flat(bufs)| {
      SliceLoopStep(bufs, fragment, overhead, out, written, limit, |Flat(bufs)|);
      NextLenOnOne(bufs, written, limit);
      var len := NextLen(bufs, written, limit);
      var n := Min(fragment, len);
      SliceLoopOnOne(bufs, fragment, overhead, out + n + overhead, written + n, if n < len then n else limit);
    }
  }

  /** The plaintext the loop still leads to, whichever record it is at. */
  ghost predicate OnCourse(c: Call, t: Tally, bufs: Slices)
    requires c.Valid() && Keeps(c, t) && c.flat == |Flat(bufs)|
  {
    SliceLoop(bufs, c.fragment, c.overhead, c.start + c.pending, 0, MAX_RECORD, c.total) ==
    if InTail(c, t.written) then c.flat
    else SliceLoop(bufs, c.fragment, c.overhead, t.backlog + t.pending, t.written, t.limit, c.total)
  }

  lemma CourseStarts(c: Call, t: Tally, bufs: Slices)
    requires c.Valid() && Keeps(c, t) && c.flat == |Flat(bufs)|
    requires t.written == 0 && t.backlog == c.start && t.pending == c.pending && t.limit == MAX_RECORD
    ensures OnCourse(c, t, bufs)
  {
    if InTail(c, 0) {
      SliceLoopTakesTail(bufs, c.fragment, c.overhead, c.start + c.pending, 0, MAX_RECORD, c.total);
    }
  }

  lemma CourseStep(c: Call, t: Tally, bufs: Slices, record: seq<byte>, n: nat, backlog: nat)
    requires c.Valid() && Keeps(c, t) && c.flat == |Flat(bufs)| && OnCourse(c, t, bufs)
    requires t.written < c.flat && |record| == NextLen(bufs, t.written, t.limit)
    requires n == Min(c.fragment, |record|)
    requires !InTail(c, t.written) ==> backlog == t.backlog + t.pending + n + c.overhead
    ensures var t' := Next(c, t, record, n, backlog);
            if backlog >= WRITE_BUF_CAPACITY && !InTail(c, t'.written)
            then SliceLoop(bufs, c.fragment, c.overhead, c.start + c.pending, 0, MAX_RECORD, c.total) == t'.written
            else Keeps(c, t') ==> OnCourse(c, t', bufs)
  {
    hide SliceLoop, NextLen, Packing, TailRoom, Flat;
    var t' := Next(c, t, record, n, backlog);
    if !InTail(c, t.written) {
      SliceLoopStep(bufs, c.fragment, c.overhead, t.backlog + t.pending, t.written, t.limit, c.total);
      if InTail(c, t'.written) {
        SliceLoopTakesTail(bufs, c.fragment, c.overhead, backlog, t'.written, t'.limit, c.total);
      }
    }
  }
}
