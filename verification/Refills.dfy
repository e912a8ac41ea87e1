/** The three reads of `BufferedStream`, refill by refill: after how many refills each of them ends, and
    with what. */
module Refills {
  import opened Basics
  import opened Network
  import opened ByteQueue

  /** The queue after `k` refills in a row. */
  function Refilled(s: Schedule, cap: nat, q: Queue, k: nat): (r: Queue)
    requires |q.data| <= cap
    ensures |r.data| <= cap
    decreases k
  {
    if k == 0 then q else Refilled(s, cap, Fill(s, cap, q).queue, k - 1)
  }

  lemma {:induction false} RefilledStep(s: Schedule, cap: nat, q: Queue, k: nat)
    requires |q.data| <= cap
    ensures Refilled(s, cap, q, 0) == q
    ensures Refilled(s, cap, q, k + 1) == Refilled(s, cap, Fill(s, cap, q).queue, k)
  {
    hide Fill;
  }

  /** The first `k` refills return. */
  ghost predicate Returns(s: Schedule, cap: nat, q: Queue, k: nat)
    requires |q.data| <= cap
  {
    forall j: nat | j < k :: Fill(s, cap, Refilled(s, cap, q, j)).result.Ok?
  }

  /** The next refill throws, and the call with it. */
  ghost predicate RefillThrows<T(!new)>(s: Schedule, cap: nat, q: Queue, r: Step<T>)
    requires |q.data| <= cap
  {
    var f := Fill(s, cap, q);
    f.result.Err? && r == Step(f.queue, Err(f.result.error))
  }

  lemma {:induction false} NextReturns(s: Schedule, cap: nat, q: Queue, k: nat)
    requires |q.data| <= cap && Fill(s, cap, q).result.Ok? && Returns(s, cap, Fill(s, cap, q).queue, k)
    ensures Returns(s, cap, q, k + 1)
    ensures forall j: nat | j <= k :: Refilled(s, cap, q, j + 1) == Refilled(s, cap, Fill(s, cap, q).queue, j)
  {
    hide Fill, Refilled;
    RefilledStep(s, cap, q, k);
    forall j: nat | j <= k
      ensures Refilled(s, cap, q, j + 1) == Refilled(s, cap, Fill(s, cap, q).queue, j)
    {
      RefilledStep(s, cap, q, j);
    }
    forall j: nat | j < k + 1 ensures Fill(s, cap, Refilled(s, cap, q, j)).result.Ok? {
      if j > 0 {
        assert Refilled(s, cap, q, j - 1 + 1) == Refilled(s, cap, Fill(s, cap, q).queue, j - 1);
      }
    }
  }

  // ---------------------------------------------------------------- readUntilDelimiter

  /** The call goes on for exactly `k` refills: all return and leave room, and none but the last brings
      the delimiter. Then it returns what is in front of it, or overflows, or the next refill throws. */
  ghost predicate UntilEnds(s: Schedule, cap: nat, q: Queue, d: byte, k: nat, r: Step<Bytes>)
    requires |q.data| <= cap
  {
    var last := Refilled(s, cap, q, k);
    && Returns(s, cap, q, k)
    && (forall j: nat | j < k :: |Refilled(s, cap, q, j).data| < cap)
    && (forall j: nat | 0 < j < k :: d !in Refilled(s, cap, q, j).data)
    && if k > 0 && d in last.data then
         var at := IndexOf(last.data, d);
         at < |last.data| && r == Step(Queue(last.net, last.data[at + 1..]), Ok(last.data[..at]))
       else if |last.data| == cap then r == Step(last, Err(BufferFull))
       else RefillThrows(s, cap, last, r)
  }

  lemma {:induction false} FoundIffIn(data: Bytes, d: byte)
    ensures d in data <==> IndexOf(data, d) < |data|
  {
  }

  lemma {:induction false} UntilExactly(s: Schedule, cap: nat, q: Queue, d: byte) returns (k: nat)
    requires |q.data| <= cap
    ensures UntilEnds(s, cap, q, d, k, Until(s, cap, q, d))
    decreases cap - |q.data|
  {
    hide Fill, Until, IndexOf;
    RefilledStep(s, cap, q, 0);
    if |q.data| == cap {
      UntilFull(s, cap, q, d);
      k := 0;
    } else {
      var f := Fill(s, cap, q);
      UntilStep(s, cap, q, d);
      FoundIffIn(f.queue.data, d);
      if f.result.Err? {
        k := 0;
      } else if d in f.queue.data {
        k := 1;
        RefilledStep(s, cap, f.queue, 0);
      } else {
        var more := UntilExactly(s, cap, f.queue, d);
        k := more + 1;
        NextReturns(s, cap, q, more);
        UntilLater(s, cap, q, d, more, Until(s, cap, q, d));
      }
    }
  }

  lemma {:induction false} UntilLater(s: Schedule, cap: nat, q: Queue, d: byte, k: nat, r: Step<Bytes>)
    requires |q.data| < cap && Fill(s, cap, q).result.Ok? && d !in Fill(s, cap, q).queue.data
    requires UntilEnds(s, cap, Fill(s, cap, q).queue, d, k, r)
    ensures UntilEnds(s, cap, q, d, k + 1, r)
  {
    hide Fill, IndexOf, Refilled, Returns, RefillThrows;
    var next := Fill(s, cap, q).queue;
    NextReturns(s, cap, q, k);
    RefilledStep(s, cap, q, 0);
    RefilledStep(s, cap, next, 0);
    forall j: nat | 0 < j < k + 1
      ensures |Refilled(s, cap, q, j).data| < cap && d !in Refilled(s, cap, q, j).data
    {
      assert Refilled(s, cap, q, j - 1 + 1) == Refilled(s, cap, next, j - 1);
    }
  }

  // ---------------------------------------------------------------- read(n) and read(ptr, max, min)

  /** The refill loop goes on for exactly `k` refills: until `n` bytes are there, or the next one throws. */
  ghost predicate FillToEnds(s: Schedule, cap: nat, q: Queue, n: nat, k: nat, r: Step<()>)
    requires |q.data| <= cap
  {
    var last := Refilled(s, cap, q, k);
    && Returns(s, cap, q, k)
    && (forall j: nat | j < k :: |Refilled(s, cap, q, j).data| < n)
    && if |last.data| >= n then r == Step(last, Ok(())) else RefillThrows(s, cap, last, r)
  }

  lemma {:induction false} FillToExactly(s: Schedule, cap: nat, q: Queue, n: nat) returns (k: nat)
    requires |q.data| <= cap
    ensures FillToEnds(s, cap, q, n, k, FillTo(s, cap, q, n))
    decreases n - |q.data|
  {
    hide Fill, FillTo;
    RefilledStep(s, cap, q, 0);
    FillToStep(s, cap, q, n);
    if |q.data| >= n || Fill(s, cap, q).result.Err? {
      k := 0;
    } else {
      var more := FillToExactly(s, cap, Fill(s, cap, q).queue, n);
      k := more + 1;
      FillToLater(s, cap, q, n, more, FillTo(s, cap, q, n));
    }
  }

  lemma {:induction false} FillToLater(s: Schedule, cap: nat, q: Queue, n: nat, k: nat, r: Step<()>)
    requires |q.data| <= cap && |q.data| < n && Fill(s, cap, q).result.Ok?
    requires FillToEnds(s, cap, Fill(s, cap, q).queue, n, k, r)
    ensures FillToEnds(s, cap, q, n, k + 1, r)
  {
    hide Fill, Refilled, Returns, RefillThrows;
    var next := Fill(s, cap, q).queue;
    NextReturns(s, cap, q, k);
    RefilledStep(s, cap, q, 0);
    forall j: nat | 0 < j < k + 1 ensures |Refilled(s, cap, q, j).data| < n {
      assert Refilled(s, cap, q, j - 1 + 1) == Refilled(s, cap, next, j - 1);
    }
  }

  /** A call that takes `n` bytes once its refills are done, or throws with the last of them. */
  ghost predicate Serves(s: Schedule, cap: nat, last: Queue, n: nat, done: bool, r: Step<Bytes>)
    requires |last.data| <= cap && (done ==> n <= |last.data|)
  {
    if done then r == Step(Queue(last.net, last.data[n..]), Ok(last.data[..n])) else RefillThrows(s, cap, last, r)
  }

  /** `read(n)` within the capacity makes exactly as many refills as it takes for `n` bytes to be there, none
      if they are, and then returns them; or one of these refills throws, and so does the call. */
  lemma {:induction false} ReadCount(s: Schedule, cap: nat, q: Queue, n: nat) returns (k: nat)
    requires |q.data| <= cap && n <= cap
    ensures Returns(s, cap, q, k) && forall j: nat | j < k :: |Refilled(s, cap, q, j).data| < n
    ensures var last := Refilled(s, cap, q, k);
            Serves(s, cap, last, n, n <= |last.data|, Exactly(s, cap, q, n))
  {
    hide Fill, FillTo, Refilled, Returns;
    k := FillToExactly(s, cap, q, n);
  }

  /** `read(ptr, max, min)` makes one refill, and then exactly as many as it takes for `min` bytes to be there;
      it returns the first `max` of them, or all, or throws what a refill throws. */
  lemma {:induction false} ReadRawExactly(s: Schedule, cap: nat, q: Queue, max: nat, min: nat) returns (k: nat)
    requires |q.data| <= cap
    ensures Returns(s, cap, q, k) && forall j: nat | 0 < j < k :: |Refilled(s, cap, q, j).data| < min
    ensures var last := Refilled(s, cap, q, k);
            Serves(s, cap, last, Min(|last.data|, max), k > 0 && min <= |last.data|, Raw(s, cap, q, max, min))
  {
    hide Fill, FillTo, Refilled;
    var f := Fill(s, cap, q);
    RefilledStep(s, cap, q, 0);
    if f.result.Err? {
      k := 0;
    } else {
      var more := FillToExactly(s, cap, f.queue, min);
      k := more + 1;
      NextReturns(s, cap, q, more);
      forall j: nat | 0 < j < k ensures |Refilled(s, cap, q, j).data| < min {
        assert Refilled(s, cap, q, j - 1 + 1) == Refilled(s, cap, f.queue, j - 1);
      }
    }
  }

  // ---------------------------------------------------------------- when they fail

  lemma {:induction false} FillCauses(s: Schedule, cap: nat, q: Queue)
    requires |q.data| <= cap
    ensures var f := Fill(s, cap, q);
            f.result.Err? ==>
              0 < f.queue.net.now && Causes(s(f.queue.net.now - 1), f.queue.net, cap - |q.data|, f.result.error)
  {
    hide ReadLoop, Causes;
    LastPollCauses(s, q.net, cap - |q.data|, 1, []);
  }

  /** `read(n)` within the capacity fails exactly as its last poll says: a call failed, or every byte that was
      received is in the buffer and they are not enough. Otherwise it must return. */
  lemma {:induction false} ReadFailsOnlyShort(s: Schedule, cap: nat, q: Queue, n: nat)
    requires |q.data| <= cap && n <= cap
    ensures var r := Exactly(s, cap, q, n);
            r.result.Err? ==>
              && 0 < r.queue.net.now && |r.queue.data| < n
              && var e := s(r.queue.net.now - 1);
                 && Causes(e, r.queue.net, cap - |r.queue.data|, r.result.error)
                 && (e.pollFails || e.readFails || r.queue.net.kernel == [])
  {
    hide Fill, FillTo, Refilled, Returns;
    var k := ReadCount(s, cap, q, n);
    var last := Refilled(s, cap, q, k);
    FillCauses(s, cap, last);
  }

  /** `read(ptr, max, min)` fails exactly as its last poll says, before `min` bytes are there or before its
      first refill; a `min` beyond the capacity ends in "closed" on a full buffer. */
  lemma {:induction false} RawFailsAsPolled(s: Schedule, cap: nat, q: Queue, max: nat, min: nat)
    requires |q.data| <= cap
    ensures var r := Raw(s, cap, q, max, min);
            r.result.Err? ==>
              && 0 < r.queue.net.now
              && Causes(s(r.queue.net.now - 1), r.queue.net, cap - |r.queue.data|, r.result.error)
              && (|r.queue.data| < min || r.queue.net.taken == q.net.taken)
  {
    hide Fill, FillTo, Refilled, Returns, Causes;
    var k := ReadRawExactly(s, cap, q, max, min);
    var last := Refilled(s, cap, q, k);
    FillCauses(s, cap, last);
    RefilledStep(s, cap, q, 0);
  }

  /** `readUntilDelimiter` fails with "full" exactly as said above, and otherwise as its last poll says; what it
      has buffered by then lacks the delimiter, unless not one byte was read. */
  lemma {:induction false} UntilFailsAsPolled(s: Schedule, cap: nat, q: Queue, d: byte)
    requires |q.data| <= cap
    ensures var r := Until(s, cap, q, d);
            r.result.Err? ==>
              && (d !in r.queue.data || r.queue.net.taken == q.net.taken)
              && (if |r.queue.data| == cap then r.result == Err(BufferFull) else
                    && 0 < r.queue.net.now
                    && Causes(s(r.queue.net.now - 1), r.queue.net, cap - |r.queue.data|, r.result.error))
  {
    hide Fill, Until, Refilled, Returns, Causes, IndexOf;
    var k := UntilExactly(s, cap, q, d);
    var last := Refilled(s, cap, q, k);
    FillCauses(s, cap, last);
    RefilledStep(s, cap, q, 0);
  }
}
