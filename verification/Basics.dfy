/** Vocabulary shared by the models: bytes, buffer sizes, results, and byte strings cut into slices. */
module Basics {

  newtype byte = x: int | 0 <= x < 256

  const READ_BUF_CAPACITY: nat := 17 * 1024
  const WRITE_BUF_CAPACITY: nat := 64 * 1024
  const MAX_RECORD: nat := 16 * 1024
  const RECORD_OVERHEAD: nat := 64
  const SEAL_STACK_LEN: nat := 17 * 1024

  datatype Option<+T> = None | Some(value: T)

  /** The kinds of I/O error the stream distinguishes. */
  datatype ErrorKind = WouldBlock | WriteZero | Other(code: int)

  datatype Result<+T> = Ok(value: T) | Err(error: ErrorKind)

  /** What a poll method of the stream returns. */
  datatype Poll<+T> = Ready(result: Result<T>) | Pending

  /** Turns an I/O result into a poll result: backpressure becomes `Pending`. */
  function Cvt<T>(r: Result<T>): (answer: Poll<T>)
    ensures answer.Pending? <==> r == Err(WouldBlock)
    ensures answer.Ready? ==> answer.result == r
  {
    if r.Err? && r.error.WouldBlock? then Pending else Ready(r)
  }

  function Min(a: int, b: int): int { if a <= b then a else b }

  function Max(a: int, b: int): int { if a <= b then b else a }

  function Monus(a: nat, b: nat): nat { if a <= b then 0 else a - b }

  /** The bytes of a list of slices, in order. */
  function Flat<T>(slices: seq<seq<T>>): seq<T> {
    if slices == [] then [] else slices[0] + Flat(slices[1..])
  }

  lemma ConcatAssoc<T>(a: seq<T>, b: seq<T>, c: seq<T>)
    ensures (a + b) + c == a + (b + c)
  {
  }

  lemma {:induction false} FlatConcat<T>(a: seq<seq<T>>, b: seq<seq<T>>)
    ensures Flat(a + b) == Flat(a) + Flat(b)
  {
    if a == [] {
      assert a + b == b;
    } else {
      FlatConcat(a[1..], b);
      assert (a + b)[1..] == a[1..] + b;
      ConcatAssoc(a[0], Flat(a[1..]), Flat(b));
    }
  }

  lemma FlatAppend<T>(a: seq<seq<T>>, s: seq<T>)
    ensures Flat(a + [s]) == Flat(a) + s
  {
    FlatConcat(a, [s]);
    assert [s][1..] == [];
  }

  lemma PrefixSplit<T>(a: seq<T>, b: seq<T>)
    requires a <= b
    ensures b == a + b[|a|..]
  {
  }

  /** Moves a prefix of the input to the output. */
  lemma Shift<T>(all: seq<T>, done: seq<T>, rest: seq<T>, next: seq<T>)
    requires all == done + rest && next <= rest
    ensures all == (done + next) + rest[|next|..]
  {
    PrefixSplit(next, rest);
    ConcatAssoc(done, next, rest[|next|..]);
  }

  lemma FlatFrom<T>(slices: seq<seq<T>>, i: nat)
    requires i < |slices|
    ensures Flat(slices[i..]) == slices[i] + Flat(slices[i + 1..])
  {
    assert slices[i..][1..] == slices[i + 1..];
  }

  lemma MulMono(x: int, y: int, b: nat)
    requires x <= y
    ensures x * b <= y * b
  {
    assert (y - x) * b >= 0;
  }

  lemma MulStep(k: int, b: nat)
    ensures (k + 1) * b == k * b + b
  {
  }

  lemma MulSum(x: int, y: int, b: int)
    ensures (x + y) * b == x * b + y * b
  {
  }

  lemma QuotientStep(a: nat, b: nat, d: nat)
    requires d > 0 && b >= a + d
    ensures b / d >= a / d + 1
  {
    var p, q := a / d, b / d;
    assert a == p * d + a % d && b == q * d + b % d;
    if q <= p { MulMono(q, p, d); }
  }
}
