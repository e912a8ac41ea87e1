/** One delimiter handler under a fixed capacity: when the worker starves, when it drains, and the
    round trip of framed messages. */
module Framing {
  import opened Basics
  import opened Network
  import BQ = ByteQueue
  import opened Dispatcher
  import opened Delimiter
  import opened Worker

  // ---------------------------------------------------------------- the capacity limit

  /** The worker's next round, when it can still run, ends in "closed" exactly if poll works and either
      the unfinished segment leaves room, the peer hung up, nothing is left to read and no error is
      pending; or it fills the buffer while poll reports anything at all: then the OS read has length
      zero, and the stream may well be open. */
  lemma {:induction false} ExactCapacity(s: Schedule, cap: nat, d: byte, fd: int, w: Worker)
    requires cap <= INT_MAX && Splits(d, fd, cap, w) && w.status == Running
    ensures var m := Advance(s, w.queue.net);
            var e := s(w.queue.net.now);
            Iterate(s, cap, OneDelimiter(d, fd), w).status == Ended(Closed) <==>
              && !e.pollFails
              && (if |Tail(d, w.queue.net.taken)| < cap then m.kernel == [] && m.hungUp && !e.readFails
                  else m.kernel != [] || m.hungUp || e.readFails)
  {
    RestIsTail(d, w.queue.net.taken, BytesOf(w.pops), w.queue.data);
    assert |w.queue.data| <= cap;
    hide Splits, IsSegmentation, Tail, BytesOf, BQ.Fill, Iterate;
    ClosedByFill(s, cap, w.queue);
    IterateStatus(s, cap, OneDelimiter(d, fd), w);
  }

  /** While the worker reads a stream all of whose frames fit into the buffer and whose unfinished
      tail is shorter than it, there is always room: no OS read ever has length zero. */
  lemma {:induction false} FittingStreamNeverStarves(s: Schedule, cap: nat, d: byte, fd: int, rounds: nat,
                                  input: Bytes, frames: seq<Bytes>, rest: Bytes)
    requires cap <= INT_MAX && IsSegmentation(d, input, frames, rest)
    requires (forall f | f in frames :: |f| <= cap) && |rest| < cap
    requires Run(s, cap, OneDelimiter(d, fd), BEGIN, rounds).queue.net.taken <= input
    ensures |Run(s, cap, OneDelimiter(d, fd), BEGIN, rounds).queue.data| < cap
  {
    var w := Run(s, cap, OneDelimiter(d, fd), BEGIN, rounds);
    BeginSplits(d, fd, cap);
    WorkerSplits(s, cap, d, fd, BEGIN, rounds);
    RestIsTail(d, w.queue.net.taken, BytesOf(w.pops), w.queue.data);
    RestIsTail(d, input, frames, rest);
    StaysBelowIffFits(d, cap, input, frames, rest);
    var k := |w.queue.net.taken|;
    assert input[..k] == w.queue.net.taken;
    if k == |input| {
      assert input == w.queue.net.taken;
    }
  }

  lemma {:induction false} ClosedByFill(s: Schedule, cap: nat, q: BQ.Queue)
    requires |q.data| <= cap
    ensures var m := Advance(s, q.net);
            var e := s(q.net.now);
            BQ.Fill(s, cap, q).result == Err(Closed) <==>
              && !e.pollFails
              && (if |q.data| < cap then m.kernel == [] && m.hungUp && !e.readFails
                  else m.kernel != [] || m.hungUp || e.readFails)
  {
    ReadOnce(s, q.net, cap - |q.data|);
  }

  lemma {:induction false} IterateStatus(s: Schedule, cap: nat, hs: seq<Handler>, w: Worker)
    requires |w.queue.data| <= cap && w.status == Running
    ensures var f := BQ.Fill(s, cap, w.queue);
            var r := Iterate(s, cap, hs, w);
            if f.result.Err? then r == Worker(f.queue, w.pops, StatusOf(f.result.error))
            else r.queue.net == f.queue.net && (r.status == Running || r.status.Crashed?)
  {
  }

  // ---------------------------------------------------------------- how long a worker runs, and how it ends

  lemma {:induction false} RunConserved(s: Schedule, cap: nat, hs: seq<Handler>, w: Worker, rounds: nat)
    requires |w.queue.data| <= cap
    ensures Conserved(s, w.queue.net, Run(s, cap, hs, w, rounds).queue.net)
    decreases rounds
  {
    NothingLost(s, w.queue.net);
    if rounds == 0 {
      RunNothing(s, cap, hs, w);
    } else {
      var next := Iterate(s, cap, hs, w);
      RunStep(s, cap, hs, w, rounds);
      IterateConserved(s, cap, hs, w);
      hide Iterate, Conserved;
      RunConserved(s, cap, hs, next, rounds - 1);
      ConservedTwice(s, w.queue.net, next.queue.net, Run(s, cap, hs, w, rounds).queue.net);
    }
  }

  lemma {:induction false} NothingLost(s: Schedule, n: Net)
    ensures Conserved(s, n, n)
  {
    assert Received(n) + [] == Received(n);
  }

  lemma {:induction false} IterateConserved(s: Schedule, cap: nat, hs: seq<Handler>, w: Worker)
    requires |w.queue.data| <= cap
    ensures Conserved(s, w.queue.net, Iterate(s, cap, hs, w).queue.net)
  {
    NothingLost(s, w.queue.net);
    if w.status == Running {
      BQ.FillConserves(s, cap, w.queue);
      IterateStatus(s, cap, hs, w);
    }
    hide Iterate, Conserved, BQ.Fill;
  }

  /** What the worker makes of a last poll that gave `e` and left the socket as `n`. */
  function Verdict(e: Env, n: Net, full: bool): Status {
    if e.pollFails then Ended(PollFailed)
    else if n.kernel == [] && !n.hungUp && !e.readFails then (if n.stops > 0 then Stopped else Ended(ReadTimeout))
    else if e.readFails && !full then Ended(ReadFailed)
    else Ended(Closed)
  }

  /** The worker's last poll, and what was and was not read by then. */
  ghost predicate EndedBy(s: Schedule, cap: nat, w: Worker) {
    && 0 < w.queue.net.now
    && var e := s(w.queue.net.now - 1);
       && w.status == Verdict(e, w.queue.net, |w.queue.data| == cap)
       && (w.queue.net.kernel == [] ==> e.arrival == [])
       && (w.queue.net.kernel != [] && !e.pollFails && !e.readFails ==> |w.queue.data| == cap)
  }

  ghost predicate Drained(w: Worker) {
    w.status == Stopped && w.queue.net.kernel == []
  }

  ghost predicate Starved(cap: nat, w: Worker) {
    w.status == Ended(Closed) && w.queue.net.kernel != [] && |w.queue.data| == cap
  }

  lemma {:induction false} FillError(s: Schedule, cap: nat, q: BQ.Queue)
    requires |q.data| <= cap
    ensures var f := BQ.Fill(s, cap, q);
            f.result.Err? ==>
              && f.queue.data == q.data && f.queue.net.now == q.net.now + 1
              && StatusOf(f.result.error) == Verdict(s(q.net.now), f.queue.net, |q.data| == cap)
              && (f.queue.net.kernel == [] ==> s(q.net.now).arrival == [])
              && (f.queue.net.kernel != [] && !s(q.net.now).pollFails && !s(q.net.now).readFails ==> |q.data| == cap)
  {
    hide BQ.Fill;
    BQ.FillIsOneRead(s, cap, q);
  }

  /** What one round does to socket and status. */
  lemma {:induction false} OneRound(s: Schedule, cap: nat, hs: seq<Handler>, w: Worker)
    requires |w.queue.data| <= cap && w.status == Running
    ensures var n, r := w.queue.net, Iterate(s, cap, hs, w);
            && r.queue.net.now == n.now + 1
            && r.queue.net.stops == n.stops + s(n.now).stops && r.queue.net.hungUp == (n.hungUp || s(n.now).hangup)
            && (r.status == Running ==> |n.taken| < |r.queue.net.taken|)
            && (r.status == Running || r.status.Crashed? || EndedBy(s, cap, r))
  {
    hide Iterate, BQ.Fill, Verdict;
    IterateStatus(s, cap, hs, w);
    FillError(s, cap, w.queue);
    BQ.FillIsOneRead(s, cap, w.queue);
  }

  /** A round that leaves the worker running has made one poll and taken at least one byte. */
  lemma {:induction false} RunningTakes(s: Schedule, cap: nat, hs: seq<Handler>, w: Worker, rounds: nat)
    requires |w.queue.data| <= cap
    ensures var r := Run(s, cap, hs, w, rounds);
            && r.queue.net.now <= w.queue.net.now + rounds
            && (r.status == Running ==>
                  && w.status == Running && r.queue.net.now == w.queue.net.now + rounds
                  && |w.queue.net.taken| + rounds <= |r.queue.net.taken|)
    decreases rounds
  {
    hide *;
    if rounds == 0 {
      RunNothing(s, cap, hs, w);
    } else if w.status != Running {
      RunStays(s, cap, hs, w, rounds);
    } else {
      OneRound(s, cap, hs, w);
      RunStep(s, cap, hs, w, rounds);
      RunningTakes(s, cap, hs, Iterate(s, cap, hs, w), rounds - 1);
    }
  }

  /** Any handlers, any schedule: a worker can only go on for as many rounds as there are bytes, pending
      or arriving meanwhile. A stop request does not end it any earlier. */
  lemma {:induction false} DrainEnds(s: Schedule, cap: nat, hs: seq<Handler>, w: Worker, rounds: nat)
    requires |w.queue.data| <= cap
    ensures Run(s, cap, hs, w, rounds).status == Running ==>
              rounds <= |w.queue.net.kernel| + |Arrived(s, w.queue.net.now, w.queue.net.now + rounds)|
  {
    hide Run, Arrived;
    RunningTakes(s, cap, hs, w, rounds);
    RunConserved(s, cap, hs, w, rounds);
  }

  /** Any handlers, any schedule: a worker that has ended, other than by a crash, ended as its last poll
      says, and only a full buffer or a failing call makes it leave bytes unread. */
  lemma {:induction false} EndingExactly(s: Schedule, cap: nat, hs: seq<Handler>, w: Worker, rounds: nat)
    requires |w.queue.data| <= cap && w.status == Running
    ensures var r := Run(s, cap, hs, w, rounds);
            r.status == Running || r.status.Crashed? || (EndedBy(s, cap, r) && w.queue.net.now < r.queue.net.now)
    decreases rounds
  {
    hide *;
    if rounds == 0 {
      RunNothing(s, cap, hs, w);
    } else {
      var next := Iterate(s, cap, hs, w);
      OneRound(s, cap, hs, w);
      RunStep(s, cap, hs, w, rounds);
      if next.status == Running {
        EndingExactly(s, cap, hs, next, rounds - 1);
      } else {
        RunStays(s, cap, hs, next, rounds - 1);
      }
    }
  }

  // ---------------------------------------------------------------- one delimiter handler

  /** The last poll found nothing wrong with the socket and a stop token. */
  ghost predicate OnlyStop(s: Schedule, n: Net) {
    && 0 < n.now && !s(n.now - 1).pollFails && !s(n.now - 1).readFails
    && !n.hungUp && n.stops > 0
  }

  lemma {:induction false} UnreadOverflows(d: byte, cap: nat, n: Net)
    requires |Tail(d, n.taken)| == cap && n.kernel != []
    ensures !StaysBelow(d, cap, Received(n))
  {
    var k := |n.taken|;
    assert Received(n)[..k] == n.taken;
  }

  lemma {:induction false} AllRead(n: Net)
    requires n.kernel == []
    ensures Received(n) == n.taken
  {
  }

  /** A worker stops exactly if its last poll found nothing but the stop request, with nothing unread;
      and when it found nothing else, it left something unread only with a full buffer. */
  lemma {:induction false} EndedByStop(s: Schedule, cap: nat, w: Worker)
    requires EndedBy(s, cap, w)
    ensures w.status == Stopped <==> OnlyStop(s, w.queue.net) && w.queue.net.kernel == []
    ensures OnlyStop(s, w.queue.net) && w.queue.net.kernel != [] ==> |w.queue.data| == cap
    ensures OnlyStop(s, w.queue.net) ==> Drained(w) || Starved(cap, w)
  {
  }

  /** On any schedule, a worker with one delimiter handler that has ended saw the stop request exactly if
      its last poll found nothing else and every frame and the unfinished tail of what was received fit
      into the capacity. It has then split every byte that the socket ever received. */
  lemma {:induction false} StoppedExactly(s: Schedule, cap: nat, d: byte, fd: int, w: Worker, rounds: nat)
    requires cap <= INT_MAX && Splits(d, fd, cap, w) && w.status == Running
    requires Run(s, cap, OneDelimiter(d, fd), w, rounds).status != Running
    ensures var r := Run(s, cap, OneDelimiter(d, fd), w, rounds);
            && (r.status == Stopped <==> OnlyStop(s, r.queue.net) && StaysBelow(d, cap, Received(r.queue.net)))
            && (r.status == Stopped ==> IsSegmentation(d, Received(r.queue.net), BytesOf(r.pops), r.queue.data))
            && EndedBy(s, cap, r)
  {
    hide *;
    SplitsSays(d, fd, cap, w);
    var r := Run(s, cap, OneDelimiter(d, fd), w, rounds);
    WorkerSplits(s, cap, d, fd, w, rounds);
    SplitsSays(d, fd, cap, r);
    EndingExactly(s, cap, OneDelimiter(d, fd), w, rounds);
    EndedByStop(s, cap, r);
    if r.queue.net.kernel == [] {
      AllRead(r.queue.net);
    } else if |r.queue.data| == cap {
      UnreadOverflows(d, cap, r.queue.net);
    }
  }

  /** As long as something arrives at every poll, nothing fails, and what arrives fits, a worker with one
      delimiter handler goes on, however often a stop was requested. */
  lemma {:induction false} FedNeverStops(s: Schedule, cap: nat, d: byte, fd: int, rounds: nat)
    requires cap <= INT_MAX
    requires forall t: nat | t < rounds :: s(t).arrival != [] && !s(t).pollFails && !s(t).readFails
    requires StaysBelow(d, cap, Arrived(s, 0, rounds))
    ensures Run(s, cap, OneDelimiter(d, fd), BEGIN, rounds).status == Running
  {
    hide Run, IsSegmentation, Tail;
    var r := Run(s, cap, OneDelimiter(d, fd), BEGIN, rounds);
    BeginSplits(d, fd, cap);
    WorkerSplits(s, cap, d, fd, BEGIN, rounds);
    EndingExactly(s, cap, OneDelimiter(d, fd), BEGIN, rounds);
    RestIsTail(d, r.queue.net.taken, BytesOf(r.pops), r.queue.data);
    RunConserved(s, cap, OneDelimiter(d, fd), BEGIN, rounds);
    RunningTakes(s, cap, OneDelimiter(d, fd), BEGIN, rounds);
    if r.status != Running {
      UnreadOverflows(d, cap, r.queue.net);
      ArrivedSplit(s, 0, r.queue.net.now, rounds);
      assert [] + Arrived(s, 0, r.queue.net.now) == Received(r.queue.net);
      StaysBelowPrefix(d, cap, Received(r.queue.net), Arrived(s, 0, rounds));
    }
  }

  lemma {:induction false} StaysBelowPrefix(d: byte, cap: nat, front: Bytes, input: Bytes)
    requires front <= input && StaysBelow(d, cap, input)
    ensures StaysBelow(d, cap, front)
  {
    forall k | 0 <= k < |front| ensures |Tail(d, front[..k])| < cap {
      assert front[..k] == input[..k];
    }
  }

  // ---------------------------------------------------------------- draining after a stop request

  /** From poll `from` on nothing more arrives, and nothing fails. */
  ghost predicate Calm(s: Schedule, from: nat) {
    forall t: nat | from <= t ::
      s(t).arrival == [] && !s(t).hangup && !s(t).pollFails && !s(t).readFails
  }

  /** The socket as the worker's next poll finds it. */
  function Found(s: Schedule, w: Worker): Net {
    Advance(s, w.queue.net)
  }

  /** A running worker whose next poll finds a stop request on a healthy socket, and nothing happens
      after that: the request may find it waiting for data, or busy with what is pending. */
  ghost predicate Stopping(s: Schedule, w: Worker) {
    && w.status == Running && Found(s, w).stops > 0 && !Found(s, w).hungUp
    && !s(w.queue.net.now).pollFails && !s(w.queue.net.now).readFails
    && Calm(s, w.queue.net.now + 1)
  }

  /** The run from there on, for one round more than there are bytes to read. */
  function AfterStop(s: Schedule, cap: nat, hs: seq<Handler>, w: Worker): Worker
    requires |w.queue.data| <= cap
  {
    Run(s, cap, hs, w, |Found(s, w).kernel| + 1)
  }

  lemma {:induction false} CalmArrived(s: Schedule, from: nat, end: nat)
    requires from < end && Calm(s, from + 1)
    ensures Arrived(s, from, end) == s(from).arrival
    decreases end
  {
    if end == from + 1 {
      OneArrival(s, from);
    } else {
      CalmArrived(s, from, end - 1);
    }
  }

  lemma {:induction false} CalmNext(s: Schedule, from: nat)
    requires Calm(s, from)
    ensures !s(from).hangup && Calm(s, from + 1)
  {
  }

  lemma {:induction false} CalmFlags(s: Schedule, cap: nat, hs: seq<Handler>, w: Worker, rounds: nat)
    requires |w.queue.data| <= cap && Calm(s, w.queue.net.now)
    ensures var r := Run(s, cap, hs, w, rounds).queue.net;
            r.hungUp == w.queue.net.hungUp && w.queue.net.stops <= r.stops
    decreases rounds
  {
    hide *;
    if rounds == 0 {
      RunNothing(s, cap, hs, w);
    } else if w.status != Running {
      RunStays(s, cap, hs, w, rounds);
    } else {
      CalmNext(s, w.queue.net.now);
      OneRound(s, cap, hs, w);
      RunStep(s, cap, hs, w, rounds);
      CalmFlags(s, cap, hs, Iterate(s, cap, hs, w), rounds - 1);
    }
  }

  lemma {:induction false} StoppingSays(s: Schedule, w: Worker)
    requires Stopping(s, w)
    ensures w.status == Running && Calm(s, w.queue.net.now + 1)
    ensures w.queue.net.stops + s(w.queue.net.now).stops > 0
    ensures !w.queue.net.hungUp && !s(w.queue.net.now).hangup
  {
    hide Calm;
  }

  lemma {:induction false} StoppingFlags(s: Schedule, cap: nat, hs: seq<Handler>, w: Worker, rounds: nat)
    requires |w.queue.data| <= cap && Stopping(s, w) && 0 < rounds
    ensures var r := Run(s, cap, hs, w, rounds).queue.net; !r.hungUp && r.stops > 0
  {
    hide *;
    StoppingSays(s, w);
    OneRound(s, cap, hs, w);
    RunStep(s, cap, hs, w, rounds);
    CalmFlags(s, cap, hs, Iterate(s, cap, hs, w), rounds - 1);
  }

  lemma {:induction false} StoppingReceives(s: Schedule, cap: nat, hs: seq<Handler>, w: Worker, rounds: nat)
    requires |w.queue.data| <= cap && Stopping(s, w) && 0 < rounds
    ensures var n, r := w.queue.net, Run(s, cap, hs, w, rounds).queue.net;
            n.now < r.now ==> Received(r) == Received(Found(s, w))
  {
    hide Run;
    var n, r := w.queue.net, Run(s, cap, hs, w, rounds).queue.net;
    RunConserved(s, cap, hs, w, rounds);
    if n.now < r.now {
      CalmArrived(s, n.now, r.now);
      Assoc(n.taken, n.kernel, s(n.now).arrival);
    }
  }

  lemma {:induction false} AfterStopIs(s: Schedule, cap: nat, hs: seq<Handler>, w: Worker)
    requires |w.queue.data| <= cap
    ensures AfterStop(s, cap, hs, w) == Run(s, cap, hs, w, |Found(s, w).kernel| + 1)
  {
    hide Run;
  }

  lemma {:induction false} FoundKernel(s: Schedule, w: Worker)
    ensures |Found(s, w).kernel| == |w.queue.net.kernel| + |s(w.queue.net.now).arrival|
  {
  }

  lemma {:induction false} StoppingDrains(s: Schedule, cap: nat, hs: seq<Handler>, w: Worker)
    requires |w.queue.data| <= cap && Stopping(s, w)
    ensures Run(s, cap, hs, w, |Found(s, w).kernel| + 1).status != Running
  {
    hide *;
    var rounds := |Found(s, w).kernel| + 1;
    FoundKernel(s, w);
    StoppingSays(s, w);
    CalmArrived(s, w.queue.net.now, w.queue.net.now + rounds);
    DrainEnds(s, cap, hs, w, rounds);
  }

  lemma {:induction false} OnlyStopAtEnd(s: Schedule, w: Worker, n: Net)
    requires Stopping(s, w) && w.queue.net.now < n.now && !n.hungUp && n.stops > 0
    ensures OnlyStop(s, n)
  {
    assert n.now - 1 == w.queue.net.now || w.queue.net.now + 1 <= n.now - 1;
  }

  /** Any handlers: each round takes a pending byte, and the stop request is seen once they are gone and
      not before. So with p bytes to read the worker ends within p + 1 rounds: everything handled, or
      starved on a full buffer, or thrown out by the dispatcher. */
  lemma {:induction false} StoppingEnds(s: Schedule, cap: nat, hs: seq<Handler>, w: Worker)
    requires |w.queue.data| <= cap && Stopping(s, w)
    ensures var r := AfterStop(s, cap, hs, w);
            && r.status != Running
            && (r.status.Crashed? ||
                  (Received(r.queue.net) == Received(Found(s, w)) && (Drained(r) || Starved(cap, r))
                   && OnlyStop(s, r.queue.net)))
  {
    hide *;
    var rounds := |Found(s, w).kernel| + 1;
    var r := Run(s, cap, hs, w, rounds);
    AfterStopIs(s, cap, hs, w);
    StoppingDrains(s, cap, hs, w);
    StoppingSays(s, w);
    EndingExactly(s, cap, hs, w, rounds);
    if !r.status.Crashed? {
      StoppingFlags(s, cap, hs, w, rounds);
      StoppingReceives(s, cap, hs, w, rounds);
      OnlyStopAtEnd(s, w, r.queue.net);
      EndedByStop(s, cap, r);
    }
  }

  /** With one delimiter handler it has then handled every pending byte iff every frame and the
      unfinished tail fit into the capacity; otherwise it starved and reported "closed". */
  lemma {:induction false} DrainAfterStop(s: Schedule, cap: nat, d: byte, fd: int, w: Worker)
    requires cap <= INT_MAX && Splits(d, fd, cap, w) && Stopping(s, w)
    ensures var input := Received(Found(s, w));
            var r := AfterStop(s, cap, OneDelimiter(d, fd), w);
            && r.status != Running && OnlyStop(s, r.queue.net) && Received(r.queue.net) == input
            && (Drained(r) <==> StaysBelow(d, cap, input))
            && (Starved(cap, r) <==> !StaysBelow(d, cap, input))
            && (Drained(r) ==> IsSegmentation(d, input, BytesOf(r.pops), r.queue.data))
  {
    hide Run, Received, StaysBelow, IsSegmentation, Found, OnlyStop;
    var rounds := |Found(s, w).kernel| + 1;
    StoppingEnds(s, cap, OneDelimiter(d, fd), w);
    WorkerSplits(s, cap, d, fd, w, rounds);
    SplitsSays(d, fd, cap, Run(s, cap, OneDelimiter(d, fd), w, rounds));
    StoppedExactly(s, cap, d, fd, w, rounds);
  }

  // ---------------------------------------------------------------- framed messages

  /** Each message followed by the delimiter. */
  function Framed(d: byte, messages: seq<Bytes>): seq<Bytes> {
    seq(|messages|, i requires 0 <= i < |messages| => messages[i] + [d])
  }

  lemma {:induction false} FramedIsSegmentation(d: byte, messages: seq<Bytes>)
    requires forall m | m in messages :: Lacks(m, d)
    ensures IsSegmentation(d, Concat(Framed(d, messages)), Framed(d, messages), [])
  {
    forall f | f in Framed(d, messages) ensures IsFrame(d, f) {
      var i :| 0 <= i < |messages| && f == messages[i] + [d];
      assert messages[i] in messages;
    }
    assert Concat(Framed(d, messages)) + [] == Concat(Framed(d, messages));
  }

  /** In any reachable state with exactly the framed messages read, in whatever chunks, exactly the
      messages with their delimiters have been queued for the handler, and the buffer is empty. */
  lemma {:induction false} FramingRoundTrip(s: Schedule, cap: nat, d: byte, fd: int, rounds: nat, messages: seq<Bytes>)
    requires cap <= INT_MAX && (forall m | m in messages :: Lacks(m, d))
    requires Run(s, cap, OneDelimiter(d, fd), BEGIN, rounds).queue.net.taken == Concat(Framed(d, messages))
    ensures var r := Run(s, cap, OneDelimiter(d, fd), BEGIN, rounds);
            r.pops == DeliveredPops(fd, Framed(d, messages)) && r.queue.data == []
  {
    var r := Run(s, cap, OneDelimiter(d, fd), BEGIN, rounds);
    BeginSplits(d, fd, cap);
    WorkerSplits(s, cap, d, fd, BEGIN, rounds);
    FramedIsSegmentation(d, messages);
    UniqueSegmentation(d, r.queue.net.taken, BytesOf(r.pops), r.queue.data, Framed(d, messages), []);
    PopsFromBytes(fd, r.pops, Framed(d, messages));
  }

  lemma {:induction false} BeginSplits(d: byte, fd: int, cap: nat)
    ensures Splits(d, fd, cap, BEGIN)
  {
    assert Concat([]) + [] == [];
  }

  lemma {:induction false} PopsFromBytes(fd: int, pops: seq<Pop>, frames: seq<Bytes>)
    requires BytesOf(pops) == frames
    requires forall p | p in pops :: p.fd == fd && p.answer == |p.bytes|
    ensures pops == DeliveredPops(fd, frames)
  {
    forall i | 0 <= i < |pops| ensures pops[i] == Pop(fd, |frames[i]|, frames[i]) {
      assert pops[i] in pops && BytesOf(pops)[i] == pops[i].bytes;
    }
  }

  /** Framed messages in, stop: from any reachable state whose next poll finds the stop request and the
      rest of the input, if any, the worker queues every message and stops iff each one fits into the
      buffer with its delimiter. */
  lemma {:induction false} FramingEndToEnd(s: Schedule, cap: nat, d: byte, fd: int, rounds: nat, messages: seq<Bytes>)
    requires cap <= INT_MAX && (forall m | m in messages :: Lacks(m, d))
    requires var w := Run(s, cap, OneDelimiter(d, fd), BEGIN, rounds);
             Stopping(s, w) && Received(Found(s, w)) == Concat(Framed(d, messages))
    ensures var w := Run(s, cap, OneDelimiter(d, fd), BEGIN, rounds);
            var r := AfterStop(s, cap, OneDelimiter(d, fd), w);
            (Drained(r) && r.pops == DeliveredPops(fd, Framed(d, messages)) && r.queue.data == [])
            <==> forall m | m in messages :: |m| + 1 <= cap
  {
    var hs := OneDelimiter(d, fd);
    var w := Run(s, cap, hs, BEGIN, rounds);
    var r := AfterStop(s, cap, hs, w);
    BeginSplits(d, fd, cap);
    WorkerSplits(s, cap, d, fd, BEGIN, rounds);
    WorkerSplits(s, cap, d, fd, w, |Found(s, w).kernel| + 1);
    DrainAfterStop(s, cap, d, fd, w);
    FramedFits(d, cap, messages);
    if Drained(r) {
      FramedIsSegmentation(d, messages);
      UniqueSegmentation(d, Concat(Framed(d, messages)), BytesOf(r.pops), r.queue.data, Framed(d, messages), []);
      PopsFromBytes(fd, r.pops, Framed(d, messages));
    }
  }

  lemma {:induction false} FramedFits(d: byte, cap: nat, messages: seq<Bytes>)
    requires forall m | m in messages :: Lacks(m, d)
    ensures StaysBelow(d, cap, Concat(Framed(d, messages))) <==> forall m | m in messages :: |m| + 1 <= cap
  {
    var frames := Framed(d, messages);
    FramedIsSegmentation(d, messages);
    StaysBelowIffFits(d, cap, Concat(frames), frames, []);
    if forall f | f in frames :: |f| <= cap {
      forall m | m in messages ensures |m| + 1 <= cap {
        var i :| 0 <= i < |messages| && messages[i] == m;
        assert frames[i] in frames;
      }
    } else {
      var i :| 0 <= i < |frames| && |frames[i]| > cap;
      assert messages[i] in messages;
    }
  }
}
