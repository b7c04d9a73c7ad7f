/**
  How much plaintext one sealing call may take.

  `SealBudget` is the closed form; `RecordLoop` is the record-by-record rule of the `SSL_write` loop.
  Both stop once about `WRITE_BUF_CAPACITY` bytes of ciphertext are buffered, and finish a
  write of which `MAX_RECORD` bytes or fewer are left.
 */
module SealBudgets {
  import opened Basics

  function SaturatingAdd(top: nat, a: nat, b: nat): nat { Min(a + b, top) }

  function SaturatingMul(top: nat, a: nat, b: nat): nat { Min(a * b, top) }

  function DivCeil(a: nat, b: nat): nat
    requires b > 0
  {
    if a % b == 0 then a / b else a / b + 1
  }

  /** The closed form on a machine whose largest `usize` is `top`. */
  function SealBudget(top: nat, fragment: nat, overhead: nat, pending: nat, buffered: nat, total: nat): nat {
    var room := Monus(Monus(WRITE_BUF_CAPACITY, buffered), pending);
    var records := Max(DivCeil(room, Max(SaturatingAdd(top, fragment, overhead), 1)), 1);
    var cap := SaturatingMul(top, records, fragment);
    if Monus(total, cap) <= MAX_RECORD then total else cap
  }

  /** Plaintext sealed in the end when `written` bytes are sealed and `out` bytes are buffered. */
  function RecordLoop(fragment: nat, overhead: nat, out: nat, written: nat, total: nat): (sealed: nat)
    requires fragment > 0
    decreases Monus(total, written)
  {
    if written >= total then written else
      var len := Min(fragment, total - written);
      var out', written' := out + len + overhead, written + len;
      if out' >= WRITE_BUF_CAPACITY && total - written' > MAX_RECORD then written'
      else RecordLoop(fragment, overhead, out', written', total)
  }

  /** Room `sealed_len` asks for: `None` on overflow. */
  function SealedLen(top: nat, fragment: nat, overhead: nat, pending: nat, len: nat): Option<nat>
    requires fragment > 0
  {
    var n := DivCeil(len, fragment) * overhead + len + pending;
    if n <= top then Some(n) else None
  }

  /** The bytes of `len` bytes of plaintext sealed in full fragments and a last record. */
  function RecordBytes(fragment: nat, overhead: nat, len: nat): nat
    requires fragment > 0
  {
    if len == 0 then 0 else
      var n := Min(fragment, len);
      n + overhead + RecordBytes(fragment, overhead, len - n)
  }

  lemma {:induction false} RecordBytesSum(fragment: nat, overhead: nat, len: nat)
    requires fragment > 0
    ensures RecordBytes(fragment, overhead, len) == DivCeil(len, fragment) * overhead + len
  {
    hide DivCeil;
    DivCeilBounds(len, fragment);
    if len > 0 {
      var n := Min(fragment, len);
      RecordBytesSum(fragment, overhead, len - n);
      DivCeilBounds(len - n, fragment);
      var d: int := DivCeil(len - n, fragment);
      MulStep(d, fragment);
      MulStep(d - 1, fragment);
      DivCeilUnique(len, fragment, d + 1);
      MulStep(d, overhead);
    }
  }

  /** The room asked for is what the records take, behind the pending bytes; there is none if that overflows. */
  lemma SealedLenIsRecords(top: nat, fragment: nat, overhead: nat, pending: nat, len: nat)
    requires fragment > 0
    ensures var room := pending + RecordBytes(fragment, overhead, len);
            SealedLen(top, fragment, overhead, pending, len) == if room <= top then Some(room) else None
  {
    RecordBytesSum(fragment, overhead, len);
  }

  lemma DivCeilBounds(a: nat, b: nat)
    requires b > 0
    ensures DivCeil(a, b) * b >= a
    ensures a > 0 ==> (DivCeil(a, b) - 1) * b < a
    ensures a == 0 <==> DivCeil(a, b) == 0
  {
    assert a == (a / b) * b + a % b;
    assert (a / b + 1) * b == (a / b) * b + b;
    assert (a / b - 1) * b == (a / b) * b - b;
    if a > 0 && a / b == 0 { assert a % b != 0; }
  }

  lemma DivCeilUnique(a: nat, b: nat, q: nat)
    requires b > 0
    requires q * b >= a
    requires q == 0 || (q - 1) * b < a
    ensures DivCeil(a, b) == q
  {
    DivCeilBounds(a, b);
    var d := DivCeil(a, b);
    if d < q { MulMono(d, q - 1, b); }
    if q < d { MulMono(q, d - 1, b); }
  }

  // ----- The closed form is the loop -----

  /** Records of a budget without machine arithmetic. */
  function Records(fragment: nat, overhead: nat, room: nat): (n: nat)
    requires fragment > 0
    ensures n >= 1
  {
    Max(DivCeil(room, fragment + overhead), 1)
  }

  /** Saturation never changes the budget, whatever the word size. */
  lemma SaturationIsExact(top: nat, fragment: nat, overhead: nat, pending: nat, buffered: nat, total: nat)
    requires fragment > 0
    requires WRITE_BUF_CAPACITY <= top && total <= top
    ensures SealBudget(top, fragment, overhead, pending, buffered, total) ==
            var cap := Records(fragment, overhead, Monus(WRITE_BUF_CAPACITY, buffered + pending)) * fragment;
            if total <= cap + MAX_RECORD then total else cap
  {
    var room := Monus(WRITE_BUF_CAPACITY, buffered + pending);
    if fragment + overhead > top && room > 0 {
      DivCeilUnique(room, top, 1);
      DivCeilUnique(room, fragment + overhead, 1);
    }
  }

  /** Once `MAX_RECORD` bytes or fewer are left, the loop takes them all. */
  lemma {:induction false} LoopTakesTail(fragment: nat, overhead: nat, out: nat, written: nat, total: nat)
    requires fragment > 0
    requires written <= total <= written + MAX_RECORD
    ensures RecordLoop(fragment, overhead, out, written, total) == total
    decreases total - written
  {
    if written < total {
      var len := Min(fragment, total - written);
      LoopTakesTail(fragment, overhead, out + len + overhead, written + len, total);
    }
  }

  /** The loop after `k` full records, where `records` is the first count that fills the buffer. */
  lemma {:induction false} LoopFrom(fragment: nat, overhead: nat, base: nat, records: nat, k: nat,
                                    out: nat, written: nat, total: nat)
    requires fragment > 0 && k < records
    requires base + records * (fragment + overhead) >= WRITE_BUF_CAPACITY
    requires records == 1 || base + (records - 1) * (fragment + overhead) < WRITE_BUF_CAPACITY
    requires out == base + k * (fragment + overhead) && written == k * fragment
    requires written < total
    ensures RecordLoop(fragment, overhead, out, written, total) ==
            if total <= records * fragment + MAX_RECORD then total else records * fragment
    decreases records - k
  {
    MulStep(k, fragment);
    MulStep(k, fragment + overhead);
    MulMono(k + 1, records, fragment);
    var len := Min(fragment, total - written);
    var out', written' := out + len + overhead, written + len;
    if len < fragment || written' == total {
      LoopTakesTail(fragment, overhead, out', written', total);
    } else if k + 1 == records {
      if total <= written' + MAX_RECORD {
        LoopTakesTail(fragment, overhead, out', written', total);
      }
    } else {
      MulMono(k + 1, records - 1, fragment + overhead);
      LoopFrom(fragment, overhead, base, records, k + 1, out', written', total);
    }
  }

  /**
    The fast form refines the loop: the closed form, machine arithmetic included, is exactly the
    plaintext that sealing one flat buffer record by record takes.
   */
  lemma SealBudgetIsRecordLoop(top: nat, fragment: nat, overhead: nat, pending: nat, buffered: nat, total: nat)
    requires fragment > 0
    requires WRITE_BUF_CAPACITY <= top && total <= top
    ensures SealBudget(top, fragment, overhead, pending, buffered, total) ==
            RecordLoop(fragment, overhead, buffered + pending, 0, total)
  {
    SaturationIsExact(top, fragment, overhead, pending, buffered, total);
    var base := buffered + pending;
    var room := Monus(WRITE_BUF_CAPACITY, base);
    DivCeilBounds(room, fragment + overhead);
    if total > 0 {
      LoopFrom(fragment, overhead, base, Records(fragment, overhead, room), 0, base, 0, total);
    }
  }

  /** A budget is never empty and never more than the write. */
  lemma BudgetInRange(top: nat, fragment: nat, overhead: nat, pending: nat, buffered: nat, total: nat)
    requires fragment > 0 && total > 0
    requires WRITE_BUF_CAPACITY <= top && total <= top
    ensures 0 < SealBudget(top, fragment, overhead, pending, buffered, total) <= total
  {
    SaturationIsExact(top, fragment, overhead, pending, buffered, total);
    MulMono(1, Records(fragment, overhead, Monus(WRITE_BUF_CAPACITY, buffered + pending)), fragment);
  }

  /** Without a fragment the closed form gives up: a long write would seal nothing. */
  lemma NoFragmentSealsNothing(top: nat, overhead: nat, pending: nat, buffered: nat, total: nat)
    ensures SealBudget(top, 0, overhead, pending, buffered, total) == if total <= MAX_RECORD then total else 0
  {
    var room := Monus(Monus(WRITE_BUF_CAPACITY, buffered), pending);
    var records := Max(DivCeil(room, Max(SaturatingAdd(top, 0, overhead), 1)), 1);
    assert records * 0 == 0;
  }

  // ----- The backlog a budget can leave -----

  /** Most ciphertext one sealing call leaves behind `WRITE_BUF_CAPACITY` of backlog. */
  function BacklogBound(fragment: nat, overhead: nat, pending: nat): nat
    requires fragment > 0
  {
    WRITE_BUF_CAPACITY + pending + (fragment + overhead) + MAX_RECORD + DivCeil(MAX_RECORD, fragment) * overhead
  }

  lemma DivCeilPlus(q: nat, a: nat, len: nat, b: nat)
    requires b > 0
    requires len <= q * b + a
    ensures DivCeil(len, b) <= q + DivCeil(a, b)
  {
    DivCeilBounds(len, b);
    DivCeilBounds(a, b);
    hide DivCeil;
    var d, e := DivCeil(len, b), q + DivCeil(a, b);
    MulSum(q, DivCeil(a, b), b);
    if d > e { MulMono(e, d - 1, b); }
  }

  /**
    Bounded backlog: the room the budget asks for keeps the buffer below `BacklogBound`, and overflows
    only if that bound does.
   */
  lemma SealedLenWithinBound(top: nat, fragment: nat, overhead: nat, pending: nat, buffered: nat, total: nat)
    requires fragment > 0 && buffered < WRITE_BUF_CAPACITY
    requires WRITE_BUF_CAPACITY <= top && total <= top
    ensures var budget := SealBudget(top, fragment, overhead, pending, buffered, total);
            match SealedLen(top, fragment, overhead, pending, budget)
            case Some(room) => buffered + room <= BacklogBound(fragment, overhead, pending)
            case None => BacklogBound(fragment, overhead, pending) > top
  {
    SaturationIsExact(top, fragment, overhead, pending, buffered, total);
    var room := Monus(WRITE_BUF_CAPACITY, buffered + pending);
    DivCeilBounds(room, fragment + overhead);
    RoomForRecords(fragment, overhead, room, Records(fragment, overhead, room),
                   SealBudget(top, fragment, overhead, pending, buffered, total));
  }

  lemma RoomForRecords(fragment: nat, overhead: nat, room: nat, records: nat, budget: nat)
    requires fragment > 0 && records > 0
    requires records == 1 || (records - 1) * (fragment + overhead) < room
    requires budget <= records * fragment + MAX_RECORD
    ensures DivCeil(budget, fragment) * overhead + budget <=
            room + (fragment + overhead) + MAX_RECORD + DivCeil(MAX_RECORD, fragment) * overhead
  {
    var extra := DivCeil(MAX_RECORD, fragment);
    DivCeilPlus(records, MAX_RECORD, budget, fragment);
    MulMono(DivCeil(budget, fragment), records + extra, overhead);
    assert (records + extra) * overhead == records * overhead + extra * overhead;
    assert records * (fragment + overhead) == records * fragment + records * overhead;
    MulStep(records - 1, fragment + overhead);
  }
}
