/** Bytes, errors and a few facts about sequences that every other module uses. */
module Basics {

  newtype byte = x: int | 0 <= x < 256

  type Bytes = seq<byte>

  /** The exception kinds the three stream classes raise. */
  datatype Error =
    | PollFailed
    | ReadFailed
    | Closed
    | TerminationRequest
    | ReadTimeout
    | WriteFailed
    | WritePartial(processed: nat)
    | InvalidCondition
    | BufferFull         // std::logic_error of readUntilDelimiter
    | BufferTooSmall     // std::logic_error of read(n)
    | OutOfRange         // std::out_of_range of PopFromBuffer
    | ConditionOverread  // std::logic_error of processDataSendSignals
    | NoDataPresent      // std::out_of_range of ConditionalBufferedStream::read

  datatype Option<+T> = None | Some(value: T)

  datatype Result<+T> = Ok(value: T) | Err(error: Error)

  /** The largest value of a C++ `int`. */
  const INT_MAX: nat := 0x7fff_ffff

  function Min(a: nat, b: nat): nat {
    if a <= b then a else b
  }

  function Abs(n: int): nat {
    if n < 0 then -n else n
  }

  /** `std::find`: the first position of `d`, or the length when there is none. */
  function IndexOf(data: Bytes, d: byte): (r: nat)
    ensures r <= |data|
    ensures forall k | 0 <= k < r :: data[k] != d
    ensures r < |data| ==> data[r] == d
  {
    if data == [] || data[0] == d then 0 else 1 + IndexOf(data[1..], d)
  }

  ghost predicate Lacks(data: Bytes, d: byte) {
    forall k | 0 <= k < |data| :: data[k] != d
  }

  lemma {:induction false} Assoc<T>(a: seq<T>, b: seq<T>, c: seq<T>)
    ensures (a + b) + c == a + (b + c)
  {
  }

  /** All parts, one after the other. */
  function Concat(parts: seq<Bytes>): Bytes {
    if parts == [] then [] else Concat(parts[..|parts| - 1]) + parts[|parts| - 1]
  }

  lemma {:induction false} ConcatSnoc(parts: seq<Bytes>, last: Bytes)
    ensures Concat(parts + [last]) == Concat(parts) + last
  {
    assert (parts + [last])[..|parts|] == parts;
  }

  lemma {:induction false} ConcatCons(first: Bytes, parts: seq<Bytes>)
    ensures Concat([first] + parts) == first + Concat(parts)
  {
    if parts == [] {
      ConcatSnoc([], first);
    } else {
      var front := parts[..|parts| - 1];
      ConcatCons(first, front);
      assert [first] + parts == ([first] + front) + [parts[|parts| - 1]];
      ConcatSnoc([first] + front, parts[|parts| - 1]);
    }
  }

  lemma {:induction false} ConcatAppend(a: seq<Bytes>, b: seq<Bytes>)
    ensures Concat(a + b) == Concat(a) + Concat(b)
  {
    if b == [] {
      assert a + b == a;
    } else {
      var front, last := b[..|b| - 1], b[|b| - 1];
      ConcatAppend(a, front);
      assert a + b == (a + front) + [last];
      ConcatSnoc(a + front, last);
    }
  }

  lemma {:induction false} IndexOfIs(data: Bytes, d: byte, p: nat)
    requires p <= |data| && (forall k | 0 <= k < p :: data[k] != d)
    requires p < |data| ==> data[p] == d
    ensures IndexOf(data, d) == p
  {
  }
}
