/** Cutting a write into records across its slices: tokio-btls/src/lib.rs, `Packer`. */
module Packers {
  import opened Basics
  import opened SealBudgets

  type Slices = seq<seq<byte>>

  /** The input from offset `off` of slice `i` on. */
  function RestFrom(bufs: Slices, i: nat, off: nat): seq<byte>
    requires i <= |bufs|
    requires off <= if i < |bufs| then |bufs[i]| else 0
  {
    if i == |bufs| then [] else bufs[i][off..] + Flat(bufs[i + 1..])
  }

  /** The slices `from..to`. */
  function Grouped(bufs: Slices, from: nat, to: nat): seq<byte>
    requires from <= to <= |bufs|
  {
    Flat(bufs[from..to])
  }

  /**
    When the next slice may be cut to fill a record: it is at most half a record, and either several
    slices are already grouped or more input follows it.
   */
  predicate CutsNext(bufs: Slices, end: nat, limit: nat, grouped: bool)
    requires end < |bufs|
  {
    |bufs[end]| <= limit / 2 && (grouped || exists k :: end < k < |bufs| && bufs[k] != [])
  }

  lemma CutsSame(bufs: Slices, end: nat, limit: nat, grouped: bool)
    requires end < |bufs|
    ensures CutsNext(bufs[end..], 0, limit, grouped) == CutsNext(bufs, end, limit, grouped)
  {
    var next := bufs[end..];
    if k :| end < k < |bufs| && bufs[k] != [] {
      assert next[k - end] != [];
    }
    assert forall k :: 0 < k < |next| ==> next[k] == bufs[end + k];
  }

  lemma CutsNextIff(bufs: Slices, end: nat, limit: nat, grouped: bool)
    ensures end < |bufs| ==>
              (CutsNext(bufs, end, limit, grouped) <==>
               2 * |bufs[end]| <= limit && (grouped || exists k :: end < k < |bufs| && bufs[k] != []))
  {
  }

  lemma GroupOne(bufs: Slices, from: nat, to: nat)
    requires from <= to < |bufs|
    ensures Grouped(bufs, from, to + 1) == Grouped(bufs, from, to) + bufs[to]
  {
    assert bufs[from..to + 1] == bufs[from..to] + [bufs[to]];
    FlatAppend(bufs[from..to], bufs[to]);
  }

  lemma GroupNone(bufs: Slices, from: nat)
    requires from <= |bufs|
    ensures Grouped(bufs, from, from) == []
  {
  }

  lemma GroupRest(bufs: Slices, from: nat, to: nat)
    requires from <= to <= |bufs|
    ensures Flat(bufs[from..]) == Grouped(bufs, from, to) + Flat(bufs[to..])
  {
    assert bufs[from..] == bufs[from..to] + bufs[to..];
    FlatConcat(bufs[from..to], bufs[to..]);
  }

  lemma RestSplit(bufs: Slices, i: nat, off: nat)
    requires i < |bufs| && off <= |bufs[i]|
    ensures RestFrom(bufs, i, off) == bufs[i][off..] + RestFrom(bufs, i + 1, 0)
  {
    if i + 1 < |bufs| {
      FlatFrom(bufs, i + 1);
    }
  }

  /** The slices left once their first `n` bytes are dropped, and empty slices before the next byte. */
  function AdvanceSlices(bufs: Slices, n: nat): (rest: Slices)
    requires n <= |Flat(bufs)|
    ensures Flat(rest) == Flat(bufs)[n..]
    ensures rest != [] ==> rest[0] != []
  {
    if bufs == [] then [] else if n < |bufs[0]| then
      var rest := [bufs[0][n..]] + bufs[1..];
      assert rest[1..] == bufs[1..];
      rest
    else AdvanceSlices(bufs[1..], n - |bufs[0]|)
  }

  /** The length of a record that has `len` bytes, `head` of them from the first slice, and `next` to go on with. */
  function Grouping(next: Slices, len: nat, head: nat, limit: nat): (total: nat)
    requires len <= limit
    ensures len <= total <= limit && total <= len + |Flat(next)|
  {
    if next == [] || len == limit then len
    else if len + |next[0]| <= limit then Grouping(next[1..], len + |next[0]|, head, limit)
    else if CutsNext(next, 0, limit, len > head) then limit
    else len
  }

  /** The length of the record after `written` bytes of `bufs`. */
  function NextLen(bufs: Slices, written: nat, limit: nat): (len: nat)
    requires written < |Flat(bufs)| && limit > 0
    ensures 0 < len <= limit && len <= |Flat(bufs)| - written
  {
    var rest := AdvanceSlices(bufs, written);
    var head := Min(|rest[0]|, limit);
    Grouping(rest[1..], head, head, limit)
  }

  /** On one slice that is all that is left, up to the limit. */
  lemma NextLenOnOne(bufs: Slices, written: nat, limit: nat)
    requires |bufs| == 1 && written < |Flat(bufs)| && limit > 0
    ensures NextLen(bufs, written, limit) == Min(limit, |Flat(bufs)| - written)
  {
    assert Flat(bufs[1..]) == [];
  }

  /** A cursor inside a slice stands where as many bytes were dropped as the rest lacks. */
  lemma {:induction false} CursorAdvances(bufs: Slices, i: nat, off: nat)
    requires i < |bufs| && off < |bufs[i]|
    ensures |RestFrom(bufs, i, off)| <= |Flat(bufs)|
    ensures AdvanceSlices(bufs, |Flat(bufs)| - |RestFrom(bufs, i, off)|) == [bufs[i][off..]] + bufs[i + 1..]
  {
    hide Flat;
    FlatFrom(bufs, 0);
    assert bufs[0..] == bufs;
    if i > 0 {
      var later := bufs[1..];
      assert later[i - 1] == bufs[i] && later[i..] == bufs[i + 1..];
      CursorAdvances(later, i - 1, off);
      var n := |Flat(later)| - |RestFrom(later, i - 1, off)|;
      assert |Flat(bufs)| - |RestFrom(bufs, i, off)| == |bufs[0]| + n;
    }
  }

  /** The length of the next record, from the cursor. */
  lemma NextLenAtCursor(bufs: Slices, i: nat, off: nat, limit: nat)
    requires i < |bufs| && off < |bufs[i]| && limit > 0
    ensures |RestFrom(bufs, i, off)| <= |Flat(bufs)|
    ensures var head := Min(|bufs[i]| - off, limit);
            NextLen(bufs, |Flat(bufs)| - |RestFrom(bufs, i, off)|, limit) == Grouping(bufs[i + 1..], head, head, limit)
  {
    hide AdvanceSlices, Flat, Grouping;
    CursorAdvances(bufs, i, off);
    assert ([bufs[i][off..]] + bufs[i + 1..])[1..] == bufs[i + 1..];
  }

  lemma GroupingGoesOn(bufs: Slices, end: nat, len: nat, head: nat, limit: nat)
    requires end < |bufs| && len < limit && len + |bufs[end]| <= limit
    ensures Grouping(bufs[end..], len, head, limit) == Grouping(bufs[end + 1..], len + |bufs[end]|, head, limit)
  {
    assert bufs[end..][1..] == bufs[end + 1..];
  }

  lemma GroupingStops(bufs: Slices, end: nat, len: nat, head: nat, limit: nat)
    requires end <= |bufs| && len <= limit
    requires end == |bufs| || len == limit || len + |bufs[end]| > limit
    ensures Grouping(bufs[end..], len, head, limit) ==
            if end < |bufs| && len < limit && CutsNext(bufs, end, limit, len > head) then limit else len
  {
    if end < |bufs| {
      CutsSame(bufs, end, limit, len > head);
    }
  }

  // ----- The rule for record lengths, in slice lengths -----

  /** The slices that are not empty. */
  function Filled(slices: Slices): (filled: Slices)
    ensures forall k :: 0 <= k < |filled| ==> filled[k] != [] && filled[k] in slices
    ensures Flat(filled) == Flat(slices)
    ensures |filled| <= |slices| && (filled == [] <==> forall k :: 0 <= k < |slices| ==> slices[k] == [])
  {
    if slices == [] then [] else
      var rest := Filled(slices[1..]);
      assert forall k :: 0 < k < |slices| ==> slices[k] == slices[1..][k - 1];
      if slices[0] == [] then rest else
        assert ([slices[0]] + rest)[1..] == rest;
        [slices[0]] + rest
  }

  /** `k` slices of `ahead`, but no more, fit into one record. */
  ghost predicate Fit(ahead: Slices, k: nat, limit: nat) {
    && k <= |ahead| && |Flat(ahead[..k])| <= limit
    && (k < |ahead| ==> |Flat(ahead[..k])| + |ahead[k]| > limit)
  }

  /**
    The length of a record with the slices `ahead`, none empty: the limit if the first slice fills it;
    otherwise as many whole slices as fit, filled up from the next slice just if that is at most half the
    limit, and the record already has several slices or there are slices after it.
   */
  ghost predicate RecordRule(ahead: Slices, len: nat, limit: nat) {
    if ahead != [] && |ahead[0]| >= limit then len == limit
    else exists k: nat :: Fit(ahead, k, limit) && len == FilledUp(ahead, k, limit)
  }

  /** The length of a record of `k` slices, with the next one cut or not. */
  function FilledUp(ahead: Slices, k: nat, limit: nat): nat
    requires k <= |ahead|
  {
    if k < |ahead| && 2 * |ahead[k]| <= limit && (k >= 2 || k + 1 < |ahead|) then limit else |Flat(ahead[..k])|
  }

  /** A record ends inside a slice it did not begin in only if that slice is at most half the limit. */
  ghost predicate CutsShort(rest: Slices, len: nat, limit: nat) {
    forall k :: 0 < k < |rest| && |Flat(rest[..k])| < len < |Flat(rest[..k + 1])| ==> 2 * |rest[k]| <= limit
  }

  /** Both of the record of `len` bytes after `written`. */
  ghost predicate ByTheRule(bufs: Slices, written: nat, len: nat, limit: nat)
    requires written <= |Flat(bufs)|
  {
    var rest := AdvanceSlices(bufs, written);
    RecordRule(Filled(rest), len, limit) && CutsShort(rest, len, limit)
  }

  lemma FlatTake(slices: Slices, k: nat)
    requires 0 < k <= |slices|
    ensures |Flat(slices[..k])| == |slices[0]| + |Flat(slices[1..][..k - 1])|
  {
    assert slices[..k][0] == slices[0] && slices[..k][1..] == slices[1..][..k - 1];
  }

  lemma {:induction false} GroupingRule(next: Slices, len: nat, head: nat, limit: nat, k: nat)
    requires head <= len <= limit && k <= |Filled(next)|
    requires var whole := len + |Flat(Filled(next)[..k])|;
             whole <= limit && (k < |Filled(next)| ==> whole + |Filled(next)[k]| > limit)
    ensures var filled, whole := Filled(next), len + |Flat(Filled(next)[..k])|;
            Grouping(next, len, head, limit) ==
            if k < |filled| && 2 * |filled[k]| <= limit && (whole > head || k + 1 < |filled|) then limit else whole
  {
    hide Flat;
    var filled := Filled(next);
    TakeNone(filled);
    if next == [] || len == limit {
    } else if next[0] == [] {
      GroupingRule(next[1..], len, head, limit, k);
    } else if k > 0 {
      FlatTake(filled, k);
      assert filled[1..] == Filled(next[1..]);
      GroupingRule(next[1..], len + |next[0]|, head, limit, k - 1);
    } else {
      LaterFilled(next);
    }
  }

  lemma TakeNone(slices: Slices)
    ensures Flat(slices[..0]) == []
  {
  }

  lemma LaterFilled(next: Slices)
    requires next != [] && next[0] != []
    ensures |Filled(next)| > 1 <==> exists k :: 0 < k < |next| && next[k] != []
  {
    var later := next[1..];
    assert Filled(next) == [next[0]] + Filled(later);
    assert forall k :: 0 < k < |next| ==> next[k] == later[k - 1];
    if j :| 0 <= j < |later| && later[j] != [] {
      assert next[j + 1] != [];
    }
  }

  lemma {:induction false} FitExists(ahead: Slices, limit: nat) returns (k: nat)
    ensures Fit(ahead, k, limit)
  {
    k := 0;
    assert ahead[..0] == [];
    while k < |ahead| && |Flat(ahead[..k])| + |ahead[k]| <= limit
      invariant k <= |ahead| && |Flat(ahead[..k])| <= limit
    {
      assert ahead[..k + 1] == ahead[..k] + [ahead[k]];
      FlatAppend(ahead[..k], ahead[k]);
      k := k + 1;
    }
  }

  /** A slice within the limit fits. */
  lemma FitSome(ahead: Slices, k: nat, limit: nat)
    requires ahead != [] && |ahead[0]| <= limit && Fit(ahead, k, limit)
    ensures k > 0
  {
    assert ahead[..0] == [];
  }

  /** What is fitted of slices of at most half the limit is two slices or more, or all. */
  lemma FitTwo(ahead: Slices, k: nat, limit: nat)
    requires ahead != [] && limit > 0 && Fit(ahead, k, limit)
    requires forall j :: 0 <= j < |ahead| ==> 2 * |ahead[j]| <= limit
    ensures k >= 2 || k == |ahead|
  {
    FitSome(ahead, k, limit);
    FlatTake(ahead, k);
    if k == 1 {
      assert ahead[1..][..0] == [];
    }
  }

  lemma {:induction false} GroupingCuts(next: Slices, len: nat, head: nat, limit: nat, k: nat)
    requires len <= limit && k < |next|
    requires len + |Flat(next[..k])| < Grouping(next, len, head, limit) < len + |Flat(next[..k + 1])|
    ensures 2 * |next[k]| <= limit
  {
    FlatTake(next, k + 1);
    if k == 0 {
      assert next[1..][..0] == [];
    } else {
      FlatTake(next, k);
      if len < limit && len + |next[0]| <= limit {
        GroupingCuts(next[1..], len + |next[0]|, head, limit, k - 1);
      }
    }
  }

  /** `NextLen` keeps to the rule. */
  lemma NextLenByTheRule(bufs: Slices, written: nat, limit: nat)
    requires written < |Flat(bufs)| && limit > 0
    ensures ByTheRule(bufs, written, NextLen(bufs, written, limit), limit)
  {
    var rest := AdvanceSlices(bufs, written);
    var len := NextLen(bufs, written, limit);
    NextLenRule(rest, len, limit);
    NextLenCuts(rest, len, limit);
  }

  lemma FilledHead(rest: Slices)
    requires rest != [] && rest[0] != []
    ensures Filled(rest) != [] && Filled(rest)[0] == rest[0] && Filled(rest)[1..] == Filled(rest[1..])
  {
  }

  lemma NextLenRule(rest: Slices, len: nat, limit: nat)
    requires rest != [] && rest[0] != [] && limit > 0
    requires var head := Min(|rest[0]|, limit); len == Grouping(rest[1..], head, head, limit)
    ensures RecordRule(Filled(rest), len, limit)
  {
    hide Filled, Grouping;
    var ahead := Filled(rest);
    FilledHead(rest);
    if |ahead[0]| < limit {
      var k := FitExists(ahead, limit);
      FitSome(ahead, k, limit);
      FlatTake(ahead, k);
      GroupingRule(rest[1..], |rest[0]|, |rest[0]|, limit, k - 1);
      if k >= 2 {
        FlatTake(ahead[1..], k - 1);
      } else {
        assert ahead[1..][..0] == [];
      }
    }
  }

  lemma NextLenCuts(rest: Slices, len: nat, limit: nat)
    requires rest != [] && rest[0] != [] && limit > 0
    requires var head := Min(|rest[0]|, limit); len == Grouping(rest[1..], head, head, limit)
    ensures CutsShort(rest, len, limit)
  {
    forall k | 0 < k < |rest| && |Flat(rest[..k])| < len < |Flat(rest[..k + 1])|
      ensures 2 * |rest[k]| <= limit
    {
      FlatTake(rest, k);
      FlatTake(rest, k + 1);
      GroupingCuts(rest[1..], |rest[0]|, |rest[0]|, limit, k - 1);
    }
  }

  /** With just two slices left that do not fit together, the first goes alone. */
  lemma IsolatedPair(bufs: Slices, written: nat, limit: nat, a: seq<byte>, b: seq<byte>)
    requires written < |Flat(bufs)| && Filled(AdvanceSlices(bufs, written)) == [a, b]
    requires |a| <= limit < |a| + |b|
    ensures NextLen(bufs, written, limit) == |a|
  {
    hide NextLen;
    NextLenByTheRule(bufs, written, limit);
    var ahead := [a, b];
    assert Flat(ahead[..1]) == a && Flat(ahead) == a + b by {
      assert ahead[..1][1..] == [] && ahead[1..] == [b] && [b][1..] == [];
    }
    if |a| < limit {
      var len := NextLen(bufs, written, limit);
      var k: nat :| Fit(ahead, k, limit) && len == FilledUp(ahead, k, limit);
      FitSome(ahead, k, limit);
      assert ahead[..2] == ahead;
    }
  }

  lemma FitsLess(ahead: Slices, k: nat)
    requires k < |ahead|
    ensures |Flat(ahead)| >= |Flat(ahead[..k])| + |ahead[k]|
  {
    assert ahead == ahead[..k] + ahead[k..];
    FlatConcat(ahead[..k], ahead[k..]);
    FlatFrom(ahead, k);
  }

  /** With slices of at most half the limit, every record is full, but for the last. */
  lemma ShortSlicesFill(bufs: Slices, written: nat, limit: nat)
    requires written < |Flat(bufs)| && limit > 0
    requires forall k :: 0 <= k < |bufs| ==> 2 * |bufs[k]| <= limit
    ensures NextLen(bufs, written, limit) == Min(limit, |Flat(bufs)| - written)
  {
    hide NextLen;
    NextLenByTheRule(bufs, written, limit);
    var ahead := Filled(AdvanceSlices(bufs, written));
    AdvanceShortens(bufs, written, limit / 2);
    assert |Flat(ahead)| == |Flat(bufs)| - written;
    var len := NextLen(bufs, written, limit);
    var k: nat :| Fit(ahead, k, limit) && len == FilledUp(ahead, k, limit);
    FitTwo(ahead, k, limit);
    if k == |ahead| {
      assert ahead[..k] == ahead;
    } else {
      FitsLess(ahead, k);
    }
  }

  lemma {:induction false} AdvanceShortens(bufs: Slices, n: nat, most: nat)
    requires n <= |Flat(bufs)| && forall k :: 0 <= k < |bufs| ==> |bufs[k]| <= most
    ensures forall k :: 0 <= k < |AdvanceSlices(bufs, n)| ==> |AdvanceSlices(bufs, n)[k]| <= most
  {
    if bufs != [] && n >= |bufs[0]| {
      AdvanceShortens(bufs[1..], n - |bufs[0]|, most);
    }
  }

  /** The plaintext of a packed record: the head, the grouped slices and the cut. */
  function Packed(bufs: Slices, i: nat, off: nat, limit: nat, end: nat, tail: nat): seq<byte>
    requires i < end <= |bufs| && off <= |bufs[i]|
    requires tail == 0 || (end < |bufs| && tail <= |bufs[end]|)
  {
    bufs[i][off..][..Min(|bufs[i]| - off, limit)] + Grouped(bufs, i + 1, end) +
    (if tail == 0 then [] else bufs[end][..tail])
  }

  lemma PackedIsPrefix(bufs: Slices, i: nat, off: nat, limit: nat, end: nat, tail: nat)
    requires i < end <= |bufs| && off <= |bufs[i]|
    requires tail == 0 || (end < |bufs| && tail <= |bufs[end]|)
    requires (end > i + 1 || tail > 0) ==> |bufs[i]| - off <= limit
    ensures Packed(bufs, i, off, limit, end, tail) <= RestFrom(bufs, i, off)
    ensures end == |bufs| && |bufs[i]| - off <= limit ==>
              Packed(bufs, i, off, limit, end, tail) == RestFrom(bufs, i, off)
  {
    hide Flat, Grouped;
    GroupRest(bufs, i + 1, end);
    var head, group, rest := bufs[i][off..], Grouped(bufs, i + 1, end), Flat(bufs[end..]);
    var cut := if tail == 0 then [] else bufs[end][..tail];
    if end < |bufs| {
      FlatFrom(bufs, end);
    } else {
      FlatNone(bufs);
    }
    if |head| <= limit {
      assert head[..Min(|head|, limit)] == head && cut <= rest;
      PrefixOfThree(head, group, cut, rest);
    } else {
      GroupNone(bufs, i + 1);
      assert head[..limit] + [] + [] == head[..limit];
    }
  }

  lemma FlatNone(bufs: Slices)
    ensures Flat(bufs[|bufs|..]) == []
  {
  }

  lemma PrefixOfThree(head: seq<byte>, group: seq<byte>, cut: seq<byte>, rest: seq<byte>)
    requires cut <= rest
    ensures head + group + cut <= head + (group + rest)
    ensures cut == rest ==> head + group + cut == head + (group + rest)
  {
    ConcatAssoc(head, group, cut);
    ConcatAssoc(head, group, rest);
    assert rest == cut + rest[|cut|..];
    ConcatAssoc(head + group, cut, rest[|cut|..]);
  }

  /** Bytes from one slice boundary to a later one. */
  lemma RestToSlice(bufs: Slices, i: nat, off: nat, j: nat)
    requires i < j < |bufs| && off <= |bufs[i]|
    ensures |RestFrom(bufs, i, off)| == |bufs[i]| - off + |Grouped(bufs, i + 1, j)| + |RestFrom(bufs, j, 0)|
  {
    GroupRest(bufs, i + 1, j);
    FlatFrom(bufs, j);
  }

  /** A cursor inside a slice is where the length of its rest says it is. */
  lemma CursorUnique(bufs: Slices, i: nat, off: nat, j: nat)
    requires i < |bufs| && off < |bufs[i]| && j < |bufs| && bufs[j] != []
    requires |RestFrom(bufs, i, off)| == |RestFrom(bufs, j, 0)|
    ensures i == j && off == 0
  {
    if i < j { RestToSlice(bufs, i, off, j); }
    if j < i { RestToSlice(bufs, j, 0, i); }
  }

  /**
    With `rest` bytes left, a record of `prev` bytes just before leaves no room for the next one: it
    filled the limit, or input ended, or the slice that comes next is too long to share a record.
   */
  ghost predicate Crowded(bufs: Slices, rest: nat, limit: nat, prev: nat) {
    prev >= limit || rest == 0 || exists end :: 0 <= end < |bufs| && LongSlice(bufs, rest, limit, prev, end)
  }

  ghost predicate LongSlice(bufs: Slices, rest: nat, limit: nat, prev: nat, end: nat)
    requires end < |bufs|
  {
    bufs[end] != [] && |RestFrom(bufs, end, 0)| == rest && prev + |bufs[end]| > limit
  }

  class Packer {
    const bufs: Slices
    var i: nat
    var off: nat
    var limit: nat
    var scratch: seq<byte>

    ghost predicate Valid()
      reads this
    {
      && limit > 0
      && i <= |bufs|
      && off <= (if i < |bufs| then |bufs[i]| else 0)
    }

    /** The input not yet sealed. */
    ghost function Rest(): seq<byte>
      requires Valid()
      reads this
    {
      RestFrom(bufs, i, off)
    }

    constructor (bufs: Slices)
      ensures Valid() && this.bufs == bufs && limit == MAX_RECORD && Rest() == Flat(bufs)
    {
      this.bufs := bufs;
      i, off, limit, scratch := 0, 0, MAX_RECORD, [];
      new;
      if bufs != [] {
        FlatFrom(bufs, 0);
      }
      assert bufs[0..] == bufs;
    }

    /**
      The next record: a nonempty prefix of the rest, within the limit, or `None` once all is sealed.

      No two records in a row would fit in one: if the previous record left no room for this one,
      the two exceed the limit, and this one leaves no room for the next.
     */
    method NextRecord(ghost prev: nat) returns (r: Option<seq<byte>>)
      requires Valid() && prev > 0 && Crowded(bufs, |Rest()|, limit, prev)
      modifies this`i, this`off, this`scratch
      ensures Valid() && Rest() == old(Rest())
      ensures r.None? <==> Rest() == []
      ensures r.Some? ==>
                && 0 < |r.value| <= limit
                && r.value <= Rest()
                && prev + |r.value| > limit
                && Crowded(bufs, |Rest()| - |r.value|, limit, |r.value|)
                && |Rest()| <= |Flat(bufs)| && |r.value| == NextLen(bufs, |Flat(bufs)| - |Rest()|, limit)
                && ByTheRule(bufs, |Flat(bufs)| - |Rest()|, |r.value|, limit)
    {
      hide NextLen, Flat, ByTheRule;
      SkipSealed();
      if i == |bufs| {
        return None;
      }
      if prev < limit {
        var end :| 0 <= end < |bufs| && LongSlice(bufs, |Rest()|, limit, prev, end);
        CursorUnique(bufs, i, off, end);
      }
      var record := PackRecord();
      NextLenByTheRule(bufs, |Flat(bufs)| - |Rest()|, limit);
      r := Some(record);
    }

    /** The record packed at a slice with input left: borrowed from the head alone, or gathered. */
    method PackRecord() returns (record: seq<byte>)
      requires Valid() && i < |bufs| && off < |bufs[i]|
      modifies this`scratch
      ensures Min(|bufs[i]| - off, limit) <= |record| <= limit
      ensures record <= Rest()
      ensures Crowded(bufs, |Rest()| - |record|, limit, |record|)
      ensures |Rest()| <= |Flat(bufs)| && |record| == NextLen(bufs, |Flat(bufs)| - |Rest()|, limit)
    {
      hide NextLen, Grouping, Flat, CutsNext;
      var head := bufs[i][off..];
      var len, end, tail := Pack();
      PackedIsPrefix(bufs, i, off, limit, end, tail);
      NextLenAtCursor(bufs, i, off, limit);
      if len < limit && end < |bufs| {
        RestToSlice(bufs, i, off, end);
        assert LongSlice(bufs, |Rest()| - len, limit, len, end);
      }
      if len == Min(|head|, limit) {
        assert Packed(bufs, i, off, limit, end, tail) == head[..len];
        record := head[..len];
      } else {
        record := Gather(head, end, tail);
      }
    }

    /** Skips slices with nothing left to seal. */
    method SkipSealed()
      requires Valid()
      modifies this`i, this`off
      ensures Valid() && Rest() == old(Rest())
      ensures i < |bufs| ==> off < |bufs[i]|
    {
      while i < |bufs| && off == |bufs[i]|
        invariant Valid() && Rest() == old(Rest())
        decreases |bufs| - i
      {
        RestSplit(bufs, i, off);
        i, off := i + 1, 0;
      }
    }

    /** Assembles a record that spans slices, in the order of the input. */
    method Gather(head: seq<byte>, end: nat, tail: nat) returns (record: seq<byte>)
      requires Valid() && i < end <= |bufs|
      requires tail == 0 || (end < |bufs| && tail <= |bufs[end]|)
      modifies this`scratch
      ensures record == head + Grouped(bufs, i + 1, end) + (if tail == 0 then [] else bufs[end][..tail])
    {
      scratch := head;
      for k := i + 1 to end
        invariant scratch == head + Grouped(bufs, i + 1, k)
      {
        GroupOne(bufs, i + 1, k);
        scratch := scratch + bufs[k];
      }
      if tail > 0 {
        scratch := scratch + bufs[end][..tail];
      }
      record := scratch;
    }

    /**
      Chooses a record length, the end of the grouped slices, and how much of the next slice to cut.

      Grouping is greedy. A cut fills the record exactly, and happens just where the next slice is at most
      half the limit and either slices are grouped already or input follows it.
     */
    method Pack() returns (len: nat, end: nat, tail: nat)
      requires Valid() && i < |bufs| && off < |bufs[i]|
      ensures i < end <= |bufs| && len <= limit
      ensures var head := Min(|bufs[i]| - off, limit);
              var whole := head + |Grouped(bufs, i + 1, end)|;
              && len == whole + tail
              && (end > i + 1 ==> head == |bufs[i]| - off)
              && (tail > 0 <==>
                    && end < |bufs| && whole < limit && 2 * |bufs[end]| <= limit
                    && (whole > head || exists k :: end < k < |bufs| && bufs[k] != []))
              && (tail > 0 ==> len == limit && tail < |bufs[end]|)
              && (whole == limit || end == |bufs| || whole + |bufs[end]| > limit)
              && len == Grouping(bufs[i + 1..], head, head, limit)
    {
      hide Grouping, Grouped, CutsNext, Flat;
      ghost var head := Min(|bufs[i]| - off, limit);
      len, end := Group();
      tail := 0;
      GroupingStops(bufs, end, len, head, limit);
      CutsNextIff(bufs, end, limit, len > head);
      if end < |bufs| && len < limit && CutsNext(bufs, end, limit, len > Min(|bufs[i]| - off, limit)) {
        tail := limit - len;
        len := limit;
      }
    }

    /** Groups whole slices while they fit. */
    method Group() returns (len: nat, end: nat)
      requires Valid() && i < |bufs| && off < |bufs[i]|
      ensures i < end <= |bufs|
      ensures var head := Min(|bufs[i]| - off, limit);
              && head <= len <= limit && len == head + |Grouped(bufs, i + 1, end)|
              && (end > i + 1 ==> head == |bufs[i]| - off)
              && (len == limit || end == |bufs| || len + |bufs[end]| > limit)
              && Grouping(bufs[i + 1..], head, head, limit) == Grouping(bufs[end..], len, head, limit)
    {
      hide Grouping, Grouped, CutsNext, Flat;
      var head := Min(|bufs[i]| - off, limit);
      len, end := head, i + 1;
      GroupNone(bufs, end);
      while end < |bufs| && len < limit && len + |bufs[end]| <= limit
        invariant i < end <= |bufs| && head <= len <= limit
        invariant len == head + |Grouped(bufs, i + 1, end)|
        invariant end > i + 1 ==> head == |bufs[i]| - off
        invariant Grouping(bufs[i + 1..], head, head, limit) == Grouping(bufs[end..], len, head, limit)
      {
        GroupingGoesOn(bufs, end, len, head, limit);
        GroupOne(bufs, i + 1, end);
        len, end := len + |bufs[end]|, end + 1;
      }
    }

    /** Moves past `n` sealed bytes. */
    method Advance(n: nat)
      requires Valid() && n <= |Rest()|
      modifies this`i, this`off
      ensures Valid() && Rest() == old(Rest())[n..]
    {
      var more: nat := n;
      while more > 0
        invariant Valid() && more <= |Rest()|
        invariant Rest()[more..] == old(Rest())[n..]
        decreases more, |bufs| - i
      {
        var left := |bufs[i]| - off;
        RestSplit(bufs, i, off);
        if more < left {
          off := off + more;
          RestSplit(bufs, i, off);
          more := 0;
        } else {
          more, i, off := more - left, i + 1, 0;
        }
      }
    }
  }

  // ----- Packing a whole write -----

  /** Nonempty records within the limit, any two in a row of which exceed it. */
  ghost predicate Packing(records: Slices, limit: nat) {
    && (forall k :: 0 <= k < |records| ==> 0 < |records[k]| <= limit)
    && (forall k :: 0 <= k < |records| - 1 ==> |records[k]| + |records[k + 1]| > limit)
  }

  lemma PackingStarts(bufs: Slices, limit: nat)
    requires limit > 0
    ensures Packing([], limit) && Cut(bufs, [], limit)
    ensures Flat<byte>([]) == [] && Crowded(bufs, |Flat(bufs)|, limit, limit)
  {
  }

  lemma PackingAppend(records: Slices, record: seq<byte>, limit: nat)
    requires Packing(records, limit) && 0 < |record| <= limit
    requires records != [] ==> |records[|records| - 1]| + |record| > limit
    ensures Packing(records + [record], limit)
  {
  }

  /** So packing needs at most about twice the fewest records possible. */
  lemma {:induction false} RecordCount(records: Slices, limit: nat)
    requires Packing(records, limit)
    ensures |records| <= 2 * (|Flat(records)| / (limit + 1)) + 1
  {
    if |records| >= 2 {
      var rest := records[2..];
      forall k | 0 <= k < |rest| - 1
        ensures |rest[k]| + |rest[k + 1]| > limit
      {
        var j := k + 2;
        assert |records[j]| + |records[j + 1]| > limit;
      }
      RecordCount(rest, limit);
      assert records[1..][1..] == rest;
      assert |Flat(records)| == |records[0]| + |records[1]| + |Flat(rest)|;
      QuotientStep(|Flat(rest)|, |Flat(records)|, limit + 1);
    }
  }

  /** The length of every record follows from where it starts. */
  ghost predicate Cut(bufs: Slices, records: Slices, limit: nat)
    requires limit > 0
  {
    forall k :: 0 <= k < |records| ==>
      |Flat(records[..k])| < |Flat(bufs)| && |records[k]| == NextLen(bufs, |Flat(records[..k])|, limit)
  }

  lemma CutAppend(bufs: Slices, records: Slices, record: seq<byte>, limit: nat)
    requires limit > 0 && Cut(bufs, records, limit)
    requires |Flat(records)| < |Flat(bufs)| && |record| == NextLen(bufs, |Flat(records)|, limit)
    ensures Cut(bufs, records + [record], limit)
  {
    hide NextLen, Flat;
    var more := records + [record];
    assert more[..|records|] == records;
    assert forall k :: 0 <= k < |records| ==> more[..k] == records[..k];
  }

  /** Every record takes the limit, or all that is left. */
  ghost predicate Full(records: Slices, limit: nat) {
    forall k :: 0 <= k < |records| ==> 0 < |records[k]| == Min(limit, |Flat(records)| - |Flat(records[..k])|)
  }

  /** Such records are as few as can be. */
  lemma {:induction false} FullRecords(records: Slices, limit: nat)
    requires limit > 0
    requires Full(records, limit)
    ensures |records| == DivCeil(|Flat(records)|, limit)
  {
    hide DivCeil;
    var total := |Flat(records)|;
    DivCeilBounds(total, limit);
    if records != [] {
      assert records[..0] == [];
      var later := records[1..];
      forall k | 0 <= k < |later|
        ensures 0 < |later[k]| == Min(limit, |Flat(later)| - |Flat(later[..k])|)
      {
        FlatTake(records, k + 1);
        assert later[k] == records[k + 1];
      }
      FullRecords(later, limit);
      DivCeilBounds(|Flat(later)|, limit);
      if later == [] {
        DivCeilUnique(total, limit, 1);
      } else {
        assert 0 < |later[0]|;
        MulStep(|later|, limit);
        MulStep(|later| - 1, limit);
        DivCeilUnique(total, limit, |records|);
      }
    }
  }

  lemma ShortSlicesPackFull(bufs: Slices, records: Slices, limit: nat)
    requires limit > 0 && Cut(bufs, records, limit) && Flat(records) == Flat(bufs)
    requires forall k :: 0 <= k < |bufs| ==> 2 * |bufs[k]| <= limit
    ensures |records| == DivCeil(|Flat(bufs)|, limit)
  {
    hide NextLen, DivCeil, Flat, Full;
    assert Full(records, limit) by {
      ShortSlicesFull(bufs, records, limit);
    }
    FullRecords(records, limit);
  }

  lemma ShortSlicesFull(bufs: Slices, records: Slices, limit: nat)
    requires limit > 0 && Cut(bufs, records, limit) && Flat(records) == Flat(bufs)
    requires forall k :: 0 <= k < |bufs| ==> 2 * |bufs[k]| <= limit
    ensures Full(records, limit)
  {
    hide NextLen, Flat;
    forall k | 0 <= k < |records|
      ensures 0 < |records[k]| == Min(limit, |Flat(records)| - |Flat(records[..k])|)
    {
      ShortSlicesFill(bufs, |Flat(records[..k])|, limit);
    }
  }

  lemma CutByTheRule(bufs: Slices, records: Slices, limit: nat)
    requires limit > 0 && Cut(bufs, records, limit)
    ensures forall k :: 0 <= k < |records| ==>
              |Flat(records[..k])| <= |Flat(bufs)| && ByTheRule(bufs, |Flat(records[..k])|, |records[k]|, limit)
  {
    hide NextLen, ByTheRule;
    forall k | 0 <= k < |records|
      ensures ByTheRule(bufs, |Flat(records[..k])|, |records[k]|, limit)
    {
      NextLenByTheRule(bufs, |Flat(records[..k])|, limit);
    }
  }

  /**
    Packs a whole write at one limit: lossless, nothing empty or over the limit, every record cut by the
    rule, few records, and the fewest possible if no slice exceeds half the limit.
   */
  method PackAll(bufs: Slices, limit: nat) returns (records: Slices)
    requires limit > 0
    ensures Flat(records) == Flat(bufs)
    ensures Packing(records, limit)
    ensures |records| <= 2 * (|Flat(bufs)| / (limit + 1)) + 1
    ensures forall k :: 0 <= k < |records| ==>
              |Flat(records[..k])| <= |Flat(bufs)| && ByTheRule(bufs, |Flat(records[..k])|, |records[k]|, limit)
    ensures (forall k :: 0 <= k < |bufs| ==> 2 * |bufs[k]| <= limit) ==> |records| == DivCeil(|Flat(bufs)|, limit)
  {
    hide NextLen, ByTheRule, DivCeil, Cut;
    records := PackLoop(bufs, limit);
    RecordCount(records, limit);
    CutByTheRule(bufs, records, limit);
    if forall k :: 0 <= k < |bufs| ==> 2 * |bufs[k]| <= limit {
      ShortSlicesPackFull(bufs, records, limit);
    }
  }

  /** The loop of `PackAll`. */
  method PackLoop(bufs: Slices, limit: nat) returns (records: Slices)
    requires limit > 0
    ensures Flat(records) == Flat(bufs) && Packing(records, limit) && Cut(bufs, records, limit)
  {
    hide Packing, Crowded, Flat, RestFrom, NextLen, Cut;
    var packer := new Packer(bufs);
    packer.limit := limit;
    records := [];
    ghost var prev := limit;
    PackingStarts(bufs, limit);
    while true
      invariant fresh(packer) && packer.Valid() && packer.limit == limit && packer.bufs == bufs
      invariant Flat(bufs) == Flat(records) + packer.Rest()
      invariant Packing(records, limit) && Cut(bufs, records, limit)
      invariant prev > 0 && (records != [] ==> prev == |records[|records| - 1]|)
      invariant Crowded(bufs, |packer.Rest()|, limit, prev)
      decreases |packer.Rest()|
    {
      ghost var rest := packer.Rest();
      var next := PackOne(packer, prev);
      if next.None? {
        break;
      }
      FlatAppend(records, next.value);
      PackingAppend(records, next.value, limit);
      CutAppend(bufs, records, next.value, limit);
      Shift(Flat(bufs), Flat(records), rest, next.value);
      prev, records := |next.value|, records + [next.value];
    }
  }

  /** Packs one record and moves past it. */
  method PackOne(packer: Packer, ghost prev: nat) returns (next: Option<seq<byte>>)
    requires packer.Valid() && prev > 0 && Crowded(packer.bufs, |packer.Rest()|, packer.limit, prev)
    modifies packer`i, packer`off, packer`scratch
    ensures packer.Valid()
    ensures next.None? ==> packer.Rest() == old(packer.Rest()) == []
    ensures next.Some? ==>
              && 0 < |next.value| <= packer.limit && next.value <= old(packer.Rest())
              && old(|packer.Rest()|) <= |Flat(packer.bufs)|
              && |next.value| == NextLen(packer.bufs, |Flat(packer.bufs)| - old(|packer.Rest()|), packer.limit)
              && prev + |next.value| > packer.limit
              && packer.Rest() == old(packer.Rest())[|next.value|..]
              && Crowded(packer.bufs, |packer.Rest()|, packer.limit, |next.value|)
  {
    hide Flat, RestFrom, NextLen, Crowded, ByTheRule;
    next := packer.NextRecord(prev);
    if next.Some? {
      packer.Advance(|next.value|);
    }
  }
}
