/** The operations of `BufferedStream` as functions on the socket and the buffered bytes. */
module ByteQueue {
  import opened Basics
  import opened Network

  /** The socket, and the bytes in front of `buffer_write_offset`. */
  datatype Queue = Queue(net: Net, data: Bytes)

  datatype Step<+T> = Step(queue: Queue, result: Result<T>)

  /** Between `a` and `b`, exactly `out` left the queue at its front, and nothing else was lost. */
  ghost predicate Moved(a: Queue, out: Bytes, b: Queue) {
    && a.net.taken <= b.net.taken
    && a.data + b.net.taken[|a.net.taken|..] == out + b.data
  }

  /** `readAvailableDataIntoBuffer`: one `Stream::read` of at least one byte into the free space. */
  function Fill(s: Schedule, cap: nat, q: Queue): (r: Step<nat>)
    requires |q.data| <= cap
    ensures Moved(q, [], r.queue) && |r.queue.data| <= cap
    ensures q.data <= r.queue.data && r.queue.net.taken == q.net.taken + r.queue.data[|q.data|..]
    ensures r.result.Ok? ==> |r.queue.data| == |q.data| + r.result.value > |q.data|
    ensures r.result.Err? ==> r.queue.data == q.data && r.queue.net.taken == q.net.taken
  {
    var t := ReadLoop(s, q.net, cap - |q.data|, 1, []);
    match t.result
    case Err(e) => Step(Queue(t.net, q.data), Err(e))
    case Ok(k) => Step(Queue(t.net, q.data + t.filled), Ok(k))
  }

  /** `PopFromBuffer`. */
  function Pop(q: Queue, n: nat): (r: Step<Bytes>)
    ensures r.queue.net == q.net
    ensures r.result.Ok? <==> n <= |q.data|
    ensures r.result.Ok? ==> |r.result.value| == n && Moved(q, r.result.value, r.queue)
    ensures r.result.Err? ==> r == Step(q, Err(OutOfRange))
  {
    if n > |q.data| then Step(q, Err(OutOfRange)) else Step(Queue(q.net, q.data[n..]), Ok(q.data[..n]))
  }

  lemma {:induction false} MovedTwice(a: Queue, x: Bytes, b: Queue, y: Bytes, c: Queue)
    requires Moved(a, x, b) && Moved(b, y, c)
    ensures Moved(a, x + y, c)
  {
    var t, u, v := a.net.taken, b.net.taken, c.net.taken;
    var first, second := u[|t|..], v[|u|..];
    assert v[|t|..] == first + second;
    calc {
      a.data + (first + second);
      { Assoc(a.data, first, second); }
      (a.data + first) + second;
      (x + b.data) + second;
      { Assoc(x, b.data, second); }
      x + (b.data + second);
      x + (y + c.data);
      { Assoc(x, y, c.data); }
      (x + y) + c.data;
    }
  }

  /** `readUntilDelimiter`: the buffer is searched only after at least one more byte was read. */
  function Until(s: Schedule, cap: nat, q: Queue, d: byte): (r: Step<Bytes>)
    requires |q.data| <= cap
    ensures |r.queue.data| <= cap
    decreases cap - |q.data|
  {
    if |q.data| >= cap then Step(q, Err(BufferFull)) else
      var f := Fill(s, cap, q);
      if f.result.Err? then Step(f.queue, Err(f.result.error)) else
        var at := IndexOf(f.queue.data, d);
        if at < |f.queue.data| then Step(Queue(f.queue.net, f.queue.data[at + 1..]), Ok(f.queue.data[..at]))
        else Until(s, cap, f.queue, d)
  }

  lemma {:induction false} UntilStep(s: Schedule, cap: nat, q: Queue, d: byte)
    requires |q.data| < cap
    ensures var f := Fill(s, cap, q);
            var at := IndexOf(f.queue.data, d);
            Until(s, cap, q, d)
            == if f.result.Err? then Step(f.queue, Err(f.result.error))
               else if at < |f.queue.data| then
                 Step(Queue(f.queue.net, f.queue.data[at + 1..]), Ok(f.queue.data[..at]))
               else Until(s, cap, f.queue, d)
  {
    hide Fill, IndexOf;
  }

  lemma {:induction false} UntilFull(s: Schedule, cap: nat, q: Queue, d: byte)
    requires |q.data| == cap
    ensures Until(s, cap, q, d) == Step(q, Err(BufferFull))
  {
  }

  lemma {:induction false} FillToStep(s: Schedule, cap: nat, q: Queue, n: nat)
    requires |q.data| <= cap
    ensures var f := Fill(s, cap, q);
            FillTo(s, cap, q, n)
            == if n <= |q.data| then Step(q, Ok(()))
               else if f.result.Err? then Step(f.queue, Err(f.result.error))
               else FillTo(s, cap, f.queue, n)
  {
  }

  /** The refill loop of `read(n)`. */
  function FillTo(s: Schedule, cap: nat, q: Queue, n: nat): (r: Step<()>)
    requires |q.data| <= cap
    ensures Moved(q, [], r.queue) && |r.queue.data| <= cap
    ensures r.result.Ok? ==> n <= |r.queue.data|
    ensures r.result.Err? ==> |r.queue.data| < n
    decreases n - |q.data|
  {
    if |q.data| >= n then Step(q, Ok(())) else
      var f := Fill(s, cap, q);
      if f.result.Err? then Step(f.queue, Err(f.result.error)) else
        var r := FillTo(s, cap, f.queue, n);
        assert Moved(q, [], r.queue) by { MovedThen(q, f.queue, [], r.queue); }
        r
  }

  /** `read(n)`. */
  function Exactly(s: Schedule, cap: nat, q: Queue, n: nat): (r: Step<Bytes>)
    requires |q.data| <= cap
    ensures |r.queue.data| <= cap
  {
    if n > cap then Step(q, Err(BufferTooSmall)) else
      var f := FillTo(s, cap, q, n);
      if f.result.Err? then Step(f.queue, Err(f.result.error)) else Pop(f.queue, n)
  }

  /** The do-while loop of `read(ptr, max, min)`. */
  function FillAtLeastOnce(s: Schedule, cap: nat, q: Queue, min: nat): (r: Step<()>)
    requires |q.data| <= cap
    ensures Moved(q, [], r.queue) && |r.queue.data| <= cap
    ensures r.result.Ok? ==> min <= |r.queue.data|
  {
    var f := Fill(s, cap, q);
    if f.result.Err? then Step(f.queue, Err(f.result.error)) else
      var r := FillTo(s, cap, f.queue, min);
      assert Moved(q, [], r.queue) by { MovedThen(q, f.queue, [], r.queue); }
      r
  }

  /** `read(ptr, max, min)`. */
  function Raw(s: Schedule, cap: nat, q: Queue, max: nat, min: nat): (r: Step<Bytes>)
    requires |q.data| <= cap
    ensures |r.queue.data| <= cap
  {
    var f := FillAtLeastOnce(s, cap, q, min);
    if f.result.Err? then Step(f.queue, Err(f.result.error))
    else Pop(f.queue, Min(|f.queue.data|, max))
  }

  // ---------------------------------------------------------------- what a call takes out

  datatype Op = UntilDelimiter(d: byte) | ReadExactly(n: nat) | ReadRaw(max: nat, min: nat)

  function Apply(s: Schedule, cap: nat, q: Queue, op: Op): (r: Step<Bytes>)
    requires |q.data| <= cap
    ensures |r.queue.data| <= cap
  {
    match op
    case UntilDelimiter(d) => Until(s, cap, q, d)
    case ReadExactly(n) => Exactly(s, cap, q, n)
    case ReadRaw(max, min) => Raw(s, cap, q, max, min)
  }

  /** The bytes a call removed from the stream: its result, and the delimiter that it drops. */
  function Removed(op: Op, r: Result<Bytes>): Bytes {
    match r
    case Err(_) => []
    case Ok(bytes) => if op.UntilDelimiter? then bytes + [op.d] else bytes
  }

  lemma {:induction false} UntilMoves(s: Schedule, cap: nat, q: Queue, d: byte)
    requires |q.data| <= cap
    ensures var r := Until(s, cap, q, d); Moved(q, Removed(UntilDelimiter(d), r.result), r.queue)
    decreases cap - |q.data|
  {
    hide Fill, Moved, IndexOf;
    if |q.data| >= cap {
      UntilFull(s, cap, q, d);
      NothingMoved(q);
    } else {
      UntilStep(s, cap, q, d);
      hide Until;
      var f := Fill(s, cap, q);
      if f.result.Ok? {
        var r := Until(s, cap, q, d);
        if IndexOf(f.queue.data, d) < |f.queue.data| {
          SegmentMoves(f.queue, d);
        } else {
          UntilMoves(s, cap, f.queue, d);
        }
        MovedThen(q, f.queue, Removed(UntilDelimiter(d), r.result), r.queue);
      }
    }
  }

  lemma {:induction false} NothingMoved(q: Queue)
    ensures Moved(q, [], q)
  {
    assert q.net.taken[|q.net.taken|..] == [];
    assert q.data + [] == [] + q.data;
  }

  lemma {:induction false} SegmentMoves(q: Queue, d: byte)
    requires IndexOf(q.data, d) < |q.data|
    ensures var at := IndexOf(q.data, d);
            Moved(q, q.data[..at] + [d], Queue(q.net, q.data[at + 1..]))
  {
    var at := IndexOf(q.data, d);
    NothingMoved(q);
    assert q.data[..at] + [d] + q.data[at + 1..] == q.data;
  }

  lemma {:induction false} MovedThen(a: Queue, b: Queue, out: Bytes, c: Queue)
    requires Moved(a, [], b) && Moved(b, out, c)
    ensures Moved(a, out, c)
  {
    MovedTwice(a, [], b, out, c);
    assert [] + out == out;
  }

  /** Every call, whether it returns or throws, takes exactly its result out of the byte queue. */
  lemma {:induction false} ApplyMoves(s: Schedule, cap: nat, q: Queue, op: Op)
    requires |q.data| <= cap
    ensures var r := Apply(s, cap, q, op); Moved(q, Removed(op, r.result), r.queue)
  {
    match op
    case UntilDelimiter(d) => UntilMoves(s, cap, q, d);
    case ReadExactly(n) =>
      if n <= cap {
        FilledThenPopped(q, FillTo(s, cap, q, n), n);
      }
    case ReadRaw(max, min) =>
      var f := FillAtLeastOnce(s, cap, q, min);
      FilledThenPopped(q, f, Min(|f.queue.data|, max));
  }

  lemma {:induction false} FilledThenPopped(q: Queue, f: Step<()>, n: nat)
    requires Moved(q, [], f.queue)
    ensures n <= |f.queue.data| ==> Moved(q, Pop(f.queue, n).result.value, Pop(f.queue, n).queue)
  {
    if n <= |f.queue.data| {
      var p := Pop(f.queue, n);
      MovedThen(q, f.queue, p.result.value, p.queue);
    }
  }

  // ---------------------------------------------------------------- runs of calls

  datatype Trace = Trace(queue: Queue, results: seq<Result<Bytes>>)

  function Run(s: Schedule, cap: nat, q: Queue, ops: seq<Op>): (t: Trace)
    requires |q.data| <= cap
    ensures |t.queue.data| <= cap && |t.results| == |ops|
  {
    if ops == [] then Trace(q, []) else
      var t := Run(s, cap, q, ops[..|ops| - 1]);
      var r := Apply(s, cap, t.queue, ops[|ops| - 1]);
      Trace(r.queue, t.results + [r.result])
  }

  /** What each call of a run removed. */
  function Outputs(ops: seq<Op>, results: seq<Result<Bytes>>): (o: seq<Bytes>)
    requires |ops| == |results|
    ensures |o| == |ops|
  {
    seq(|ops|, i requires 0 <= i < |ops| => Removed(ops[i], results[i]))
  }

  lemma {:induction false} OutputsSnoc(ops: seq<Op>, results: seq<Result<Bytes>>, op: Op, r: Result<Bytes>)
    requires |ops| == |results|
    ensures Outputs(ops + [op], results + [r]) == Outputs(ops, results) + [Removed(op, r)]
  {
  }

  /** A buffered stream is a byte queue over its socket, across any calls and any exceptions. */
  lemma {:induction false} RefinesByteQueue(s: Schedule, cap: nat, q: Queue, ops: seq<Op>)
    requires |q.data| <= cap
    ensures var t := Run(s, cap, q, ops); Moved(q, Concat(Outputs(ops, t.results)), t.queue)
  {
    hide Moved, Apply, Removed;
    if ops == [] {
      NothingMoved(q);
    } else {
      var front := ops[..|ops| - 1];
      var op := ops[|ops| - 1];
      var t := Run(s, cap, q, front);
      var r := Apply(s, cap, t.queue, op);
      RefinesByteQueue(s, cap, q, front);
      ApplyMoves(s, cap, t.queue, op);
      MovedTwice(q, Concat(Outputs(front, t.results)), t.queue, Removed(op, r.result), r.queue);
      OutputsSnoc(front, t.results, op, r.result);
      assert front + [op] == ops;
      ConcatSnoc(Outputs(front, t.results), Removed(op, r.result));
    }
  }

  // ---------------------------------------------------------------- the socket behind the queue

  lemma {:induction false} FillNet(s: Schedule, cap: nat, q: Queue)
    requires |q.data| <= cap
    ensures Fill(s, cap, q).queue.net == ReadLoop(s, q.net, cap - |q.data|, 1, []).net
  {
    hide ReadLoop, Moved;
  }

  /** A refill is one OS read: its bytes are appended, or nothing at all happened to the buffer. */
  lemma {:induction false} FillIsOneRead(s: Schedule, cap: nat, q: Queue)
    requires |q.data| <= cap
    ensures var a := Attempt(s, q.net, cap - |q.data|);
            Fill(s, cap, q)
            == match a.result
               case Ok(bytes) => Step(Queue(a.net, q.data + bytes), Ok(|bytes|))
               case Err(e) => Step(Queue(a.net, q.data), Err(e))
  {
    hide ReadLoop, Attempt, Moved;
    ReadOnce(s, q.net, cap - |q.data|);
  }

  lemma {:induction false} FillConserves(s: Schedule, cap: nat, q: Queue)
    requires |q.data| <= cap
    ensures Conserved(s, q.net, Fill(s, cap, q).queue.net)
  {
    hide *;
    FillNet(s, cap, q);
    ReadLoopConserves(s, q.net, cap - |q.data|, 1, []);
  }

  lemma {:induction false} UntilConserves(s: Schedule, cap: nat, q: Queue, d: byte)
    requires |q.data| <= cap
    ensures Conserved(s, q.net, Until(s, cap, q, d).queue.net)
    decreases cap - |q.data|
  {
    if |q.data| < cap {
      var f := Fill(s, cap, q);
      FillConserves(s, cap, q);
      if f.result.Ok? && IndexOf(f.queue.data, d) == |f.queue.data| {
        UntilConserves(s, cap, f.queue, d);
        ConservedTwice(s, q.net, f.queue.net, Until(s, cap, f.queue, d).queue.net);
      }
    }
  }

  lemma {:induction false} FillToConserves(s: Schedule, cap: nat, q: Queue, n: nat)
    requires |q.data| <= cap
    ensures Conserved(s, q.net, FillTo(s, cap, q, n).queue.net)
    decreases n - |q.data|
  {
    if |q.data| < n {
      var f := Fill(s, cap, q);
      FillConserves(s, cap, q);
      if f.result.Ok? {
        FillToConserves(s, cap, f.queue, n);
        ConservedTwice(s, q.net, f.queue.net, FillTo(s, cap, f.queue, n).queue.net);
      }
    }
  }

  lemma {:induction false} ApplyConserves(s: Schedule, cap: nat, q: Queue, op: Op)
    requires |q.data| <= cap
    ensures Conserved(s, q.net, Apply(s, cap, q, op).queue.net)
  {
    match op
    case UntilDelimiter(d) => UntilConserves(s, cap, q, d);
    case ReadExactly(n) => FillToConserves(s, cap, q, n);
    case ReadRaw(max, min) =>
      var f := Fill(s, cap, q);
      FillConserves(s, cap, q);
      FillToConserves(s, cap, f.queue, min);
      if f.result.Ok? {
        ConservedTwice(s, q.net, f.queue.net, FillTo(s, cap, f.queue, min).queue.net);
      }
  }

  /** Results, buffer and socket together hold the received stream, in order. */
  lemma {:induction false} RunConserves(s: Schedule, cap: nat, q: Queue, ops: seq<Op>)
    requires |q.data| <= cap
    ensures Conserved(s, q.net, Run(s, cap, q, ops).queue.net)
  {
    if ops != [] {
      var front := ops[..|ops| - 1];
      var t := Run(s, cap, q, front);
      RunConserves(s, cap, q, front);
      ApplyConserves(s, cap, t.queue, ops[|ops| - 1]);
      ConservedTwice(s, q.net, t.queue.net, Run(s, cap, q, ops).queue.net);
    }
  }

  // ---------------------------------------------------------------- failed reads lose nothing

  lemma {:induction false} ConcatEmpty(parts: seq<Bytes>)
    requires forall i | 0 <= i < |parts| :: parts[i] == []
    ensures Concat(parts) == []
  {
    if parts != [] {
      ConcatEmpty(parts[..|parts| - 1]);
    }
  }

  /** After calls that all threw, a `read(n)` returns the first `n` bytes of the stream as if it
      had been the first call: the buffer it started from and whatever was taken since. */
  lemma {:induction false} RetriedRead(s: Schedule, cap: nat, q: Queue, failed: seq<Op>, n: nat)
    requires |q.data| <= cap
    requires var t := Run(s, cap, q, failed + [ReadExactly(n)]);
             && (forall i | 0 <= i < |failed| :: t.results[i].Err?)
             && t.results[|failed|].Ok?
    ensures var t := Run(s, cap, q, failed + [ReadExactly(n)]);
            && q.net.taken <= t.queue.net.taken
            && n <= |q.data + t.queue.net.taken[|q.net.taken|..]|
            && t.results[|failed|].value == (q.data + t.queue.net.taken[|q.net.taken|..])[..n]
  {
    var ops := failed + [ReadExactly(n)];
    assert ops[..|ops| - 1] == failed;
    var before := Run(s, cap, q, failed);
    var r := Apply(s, cap, before.queue, ReadExactly(n));
    RefinesByteQueue(s, cap, q, failed);
    var t := Run(s, cap, q, ops);
    forall i | 0 <= i < |failed| ensures Outputs(failed, before.results)[i] == [] {
      assert t.results[i] == before.results[i];
    }
    ConcatEmpty(Outputs(failed, before.results));
    ApplyMoves(s, cap, before.queue, ReadExactly(n));
    MovedThen(q, before.queue, r.result.value, r.queue);
  }

  /** Two clients of the same byte stream: whatever timed out or failed before, both `read(n)` agree. */
  lemma {:induction false} RetriesAgree(s: Schedule, cap: nat, q: Queue, failed: seq<Op>,
                     s': Schedule, cap': nat, q': Queue, failed': seq<Op>, n: nat)
    requires |q.data| <= cap && |q'.data| <= cap'
    requires var t := Run(s, cap, q, failed + [ReadExactly(n)]);
             && (forall i | 0 <= i < |failed| :: t.results[i].Err?)
             && t.results[|failed|].Ok?
    requires var t := Run(s', cap', q', failed' + [ReadExactly(n)]);
             && (forall i | 0 <= i < |failed'| :: t.results[i].Err?)
             && t.results[|failed'|].Ok?
    requires q.data == q'.data && q.net.taken == q'.net.taken
    requires Run(s, cap, q, failed + [ReadExactly(n)]).queue.net.taken
          <= Run(s', cap', q', failed' + [ReadExactly(n)]).queue.net.taken
    ensures Run(s, cap, q, failed + [ReadExactly(n)]).results[|failed|]
         == Run(s', cap', q', failed' + [ReadExactly(n)]).results[|failed'|]
  {
    RetriedRead(s, cap, q, failed, n);
    RetriedRead(s', cap', q', failed', n);
    var taken := Run(s, cap, q, failed + [ReadExactly(n)]).queue.net.taken[|q.net.taken|..];
    var taken' := Run(s', cap', q', failed' + [ReadExactly(n)]).queue.net.taken[|q.net.taken|..];
    assert (q.data + taken)[..n] == (q.data + taken')[..n];
  }

  /** A normal return of `read(ptr, max, min)` hands over the front of the buffer: all of it or
      `max` bytes, at least `min` bytes when that fits, after at least one byte was read. */
  lemma {:induction false} RawContract(s: Schedule, cap: nat, q: Queue, max: nat, min: nat)
    requires |q.data| <= cap
    ensures var r := Raw(s, cap, q, max, min);
            r.result.Ok? ==>
              && Moved(q, r.result.value, r.queue)
              && |q.net.taken| < |r.queue.net.taken|
              && |r.result.value| == Min(|r.result.value + r.queue.data|, max)
              && (min <= max ==> min <= |r.result.value|)
  {
    ApplyMoves(s, cap, q, ReadRaw(max, min));
  }

  // ---------------------------------------------------------------- the overflow error

  /** Either there is room, or a full buffer really lacks the delimiter. */
  ghost predicate Honest(cap: nat, data: Bytes, d: byte) {
    |data| < cap || (|data| == cap && d !in data)
  }

  predicate Harmless(cap: nat, op: Op, d: byte) {
    match op
    case UntilDelimiter(e) => e == d
    case ReadExactly(_) => true
    case ReadRaw(max, min) => 0 < max && min <= cap
  }

  /** Called on an honest buffer, `readUntilDelimiter` reports "full" only truthfully; on any other
      buffer it reports "full" although the delimiter is there. */
  lemma {:induction false} OverflowIsTruthful(s: Schedule, cap: nat, q: Queue, d: byte)
    requires |q.data| <= cap
    ensures var r := Until(s, cap, q, d);
            && (Honest(cap, q.data, d) && r.result == Err(BufferFull) ==>
                  |r.queue.data| == cap && d !in r.queue.data)
            && (!Honest(cap, q.data, d) ==> r == Step(q, Err(BufferFull)) && d in q.data)
    decreases cap - |q.data|
  {
    if |q.data| < cap {
      var f := Fill(s, cap, q);
      FillErrors(s, cap, q);
      if f.result.Ok? && IndexOf(f.queue.data, d) == |f.queue.data| {
        OverflowIsTruthful(s, cap, f.queue, d);
      }
    }
  }

  lemma {:induction false} FillErrors(s: Schedule, cap: nat, q: Queue)
    requires |q.data| <= cap
    ensures var r := Fill(s, cap, q).result; r.Err? ==> SocketError(r.error)
  {
    FillIsOneRead(s, cap, q);
  }

  lemma {:induction false} UntilStaysHonest(s: Schedule, cap: nat, q: Queue, d: byte)
    requires |q.data| <= cap && Honest(cap, q.data, d)
    ensures Honest(cap, Until(s, cap, q, d).queue.data, d)
    decreases cap - |q.data|
  {
    if |q.data| < cap {
      var f := Fill(s, cap, q);
      if f.result.Ok? && IndexOf(f.queue.data, d) == |f.queue.data| {
        UntilStaysHonest(s, cap, f.queue, d);
      }
    }
  }

  /** An error in the refill loop leaves room, unless the loop wanted more than the capacity. */
  lemma {:induction false} FillToLeavesRoom(s: Schedule, cap: nat, q: Queue, n: nat)
    requires |q.data| <= cap && n <= cap
    ensures var r := FillTo(s, cap, q, n);
            && (r.result.Err? ==> |r.queue.data| < cap)
            && (r.result.Ok? && r.queue.data != q.data ==> |q.data| < n)
  {
  }

  lemma {:induction false} ApplyStaysHonest(s: Schedule, cap: nat, q: Queue, op: Op, d: byte)
    requires |q.data| <= cap && Honest(cap, q.data, d) && Harmless(cap, op, d)
    ensures Honest(cap, Apply(s, cap, q, op).queue.data, d)
  {
    hide Fill, FillTo, Until;
    match op
    case UntilDelimiter(_) => UntilStaysHonest(s, cap, q, d);
    case ReadExactly(n) =>
      if n <= cap {
        FillToLeavesRoom(s, cap, q, n);
      }
    case ReadRaw(max, min) =>
      var f := Fill(s, cap, q);
      FillToLeavesRoom(s, cap, f.queue, min);
  }

  /** Over any run of harmless calls the "buffer is full" error is thrown only when it is true. */
  lemma {:induction false} OverflowTruthfulOverRuns(s: Schedule, cap: nat, q: Queue, ops: seq<Op>, d: byte)
    requires |q.data| <= cap && Honest(cap, q.data, d)
    requires forall op | op in ops :: Harmless(cap, op, d)
    ensures var t := Run(s, cap, q, ops); Honest(cap, t.queue.data, d)
    ensures var t := Run(s, cap, q, ops);
            ops != [] && t.results[|ops| - 1] == Err(BufferFull) ==>
              |t.queue.data| == cap && d !in t.queue.data
  {
    if ops != [] {
      var front := ops[..|ops| - 1];
      var op := ops[|ops| - 1];
      var t := Run(s, cap, q, front);
      OverflowTruthfulOverRuns(s, cap, q, front, d);
      ApplyStaysHonest(s, cap, t.queue, op, d);
      if !op.UntilDelimiter? {
        OnlyUntilOverflows(s, cap, t.queue, op);
      }
      OverflowIsTruthful(s, cap, t.queue, d);
    }
  }

  lemma {:induction false} FillToErrors(s: Schedule, cap: nat, q: Queue, n: nat)
    requires |q.data| <= cap
    ensures var r := FillTo(s, cap, q, n).result; r.Err? ==> SocketError(r.error)
    decreases n - |q.data|
  {
    FillToStep(s, cap, q, n);
    if |q.data| < n {
      FillErrors(s, cap, q);
      hide Fill, FillTo;
      if Fill(s, cap, q).result.Ok? {
        FillToErrors(s, cap, Fill(s, cap, q).queue, n);
      }
    }
  }

  /** `read(n)` refuses exactly what can never fit, serves buffered bytes without touching the socket,
      and otherwise returns n bytes or a socket error. */
  lemma {:induction false} ExactlyContract(s: Schedule, cap: nat, q: Queue, n: nat)
    requires |q.data| <= cap
    ensures var r := Exactly(s, cap, q, n);
            && (n > cap <==> r.result == Err(BufferTooSmall))
            && (n > cap ==> r.queue == q)
            && (n <= |q.data| ==> r == Step(Queue(q.net, q.data[n..]), Ok(q.data[..n])))
            && (r.result.Ok? ==> |r.result.value| == n)
            && (n <= cap && r.result.Err? ==> SocketError(r.result.error))
  {
    hide FillTo, Fill;
    FillToErrors(s, cap, q, n);
    FillToStep(s, cap, q, n);
  }

  /** `readUntilDelimiter` never looks at the buffer before it has read: a delimiter that is already
      buffered is returned only by a call that takes at least one more byte, and what is returned is
      the front of the stream up to the first delimiter. */
  lemma {:induction false} UntilReadsFirst(s: Schedule, cap: nat, q: Queue, d: byte)
    requires |q.data| <= cap
    ensures var r := Until(s, cap, q, d);
            r.result.Ok? ==> |q.net.taken| < |r.queue.net.taken| && Lacks(r.result.value, d)
    decreases cap - |q.data|
  {
    hide *;
    if |q.data| >= cap {
      UntilFull(s, cap, q, d);
    } else {
      UntilStep(s, cap, q, d);
      var f := Fill(s, cap, q);
      if f.result.Ok? {
        if IndexOf(f.queue.data, d) < |f.queue.data| {
          FrontLacks(f.queue.data, d);
        } else {
          UntilReadsFirst(s, cap, f.queue, d);
        }
      }
    }
  }

  lemma {:induction false} FrontLacks(data: Bytes, d: byte)
    ensures Lacks(data[..IndexOf(data, d)], d)
  {
  }

  lemma {:induction false} OnlyUntilOverflows(s: Schedule, cap: nat, q: Queue, op: Op)
    requires |q.data| <= cap && !op.UntilDelimiter?
    ensures Apply(s, cap, q, op).result != Err(BufferFull)
  {
    hide Fill, FillTo, Until, Moved;
    match op
    case ReadExactly(n) => FillToErrors(s, cap, q, n);
    case ReadRaw(max, min) =>
      FillErrors(s, cap, q);
      FillToErrors(s, cap, Fill(s, cap, q).queue, min);
  }

  /** The call never turns an honest buffer into one on which the overflow error would lie. */
  ghost predicate KeepsHonest(cap: nat, op: Op, d: byte) {
    forall s: Schedule, q: Queue | |q.data| <= cap && Honest(cap, q.data, d) ::
      Honest(cap, Apply(s, cap, q, op).queue.data, d)
  }

  /** A refill with room for all that arrives takes all of it. */
  lemma {:induction false} FillPiece(s: Schedule, cap: nat, q: Queue, bytes: Bytes)
    requires bytes != [] && q.net.kernel == [] && |q.data| + |bytes| <= cap && s(q.net.now) == Piece(bytes)
    ensures var f := Fill(s, cap, q);
            && f.result.Ok? && f.queue.data == q.data + bytes && f.queue.net.kernel == []
            && f.queue.net.now == q.net.now + 1 && f.queue.net.taken == q.net.taken + bytes
  {
    hide Attempt, ReadLoop, Fill, Moved;
    AttemptPiece(s, q.net, cap - |q.data|, bytes);
    FillIsOneRead(s, cap, q);
  }

  /** A sender of nothing but delimiters, filling the buffer with one read. */
  function Flood(cap: nat, d: byte): Schedule {
    (t: nat) => Piece(seq(cap, _ => d))
  }

  lemma {:induction false} FloodFills(cap: nat, d: byte, q: Queue)
    requires 0 < cap && q.data == [] && q.net.kernel == []
    ensures var f := Fill(Flood(cap, d), cap, q);
            f.result == Ok(cap) && f.queue.data == seq(cap, _ => d)
  {
    hide Fill;
    FillPiece(Flood(cap, d), cap, q, seq(cap, _ => d));
  }

  lemma {:induction false} FullStaysFull(s: Schedule, cap: nat, q: Queue, op: Op, d: byte)
    requires |q.data| == cap && (forall k | 0 <= k < cap :: q.data[k] == d)
    ensures op.UntilDelimiter? ==> Apply(s, cap, q, op).queue.data == q.data
    ensures forall min :: FillTo(s, cap, q, min).queue.data == q.data
  {
    forall min: nat ensures FillTo(s, cap, q, min).queue.data == q.data {
      if cap < min {
        assert Fill(s, cap, q).result.Err?;
      }
    }
  }

  lemma {:induction false} FloodLies(cap: nat, op: Op, d: byte)
    requires 0 < cap && !Harmless(cap, op, d)
    ensures !KeepsHonest(cap, op, d)
  {
    var s := Flood(cap, d);
    var q := Queue(Net([], false, 0, 0, []), []);
    var f := Fill(s, cap, q);
    FloodFills(cap, d, q);
    assert f.queue.data[0] == d;
    FloodStays(s, cap, q, f.queue, op, d);
    assert !Honest(cap, Apply(s, cap, q, op).queue.data, d);
  }

  lemma {:induction false} FloodStays(s: Schedule, cap: nat, q: Queue, full: Queue, op: Op, d: byte)
    requires 0 < cap && !Harmless(cap, op, d) && q.data == []
    requires Fill(s, cap, q) == Step(full, Ok(cap)) && full.data == seq(cap, _ => d)
    ensures Apply(s, cap, q, op).queue.data == full.data
  {
    FullStaysFull(s, cap, full, op, d);
    match op
    case UntilDelimiter(e) =>
      UntilStep(s, cap, q, e);
      assert IndexOf(full.data, e) == cap;
    case ReadRaw(max, min) =>
      hide Fill;
      if min <= cap {
        FillToStep(s, cap, full, min);
        assert max == 0;
      } else {
        assert FillTo(s, cap, full, min).result.Err?;
      }
  }

  /** Exactly the harmless calls keep the overflow error truthful under every schedule. A buffer of
      size zero never holds a delimiter, so there every call does. */
  lemma {:induction false} HarmlessExactly(cap: nat, op: Op, d: byte)
    ensures KeepsHonest(cap, op, d) <==> cap == 0 || Harmless(cap, op, d)
  {
    if cap == 0 {
      forall s: Schedule, q: Queue | |q.data| <= cap && Honest(cap, q.data, d)
        ensures Honest(cap, Apply(s, cap, q, op).queue.data, d)
      {
        hide Apply;
        assert |Apply(s, cap, q, op).queue.data| == 0;
      }
    } else if Harmless(cap, op, d) {
      forall s: Schedule, q: Queue | |q.data| <= cap && Honest(cap, q.data, d)
        ensures Honest(cap, Apply(s, cap, q, op).queue.data, d)
      {
        ApplyStaysHonest(s, cap, q, op, d);
      }
    } else {
      FloodLies(cap, op, d);
    }
  }
}
