/** The layers together: from bytes on the socket, in any chunks, to segments at readers, in any
    interleaving; and the two ways of splitting a stream compared. */
module EndToEnd {
  import opened Basics
  import opened Network
  import BQ = ByteQueue
  import opened Dispatcher
  import opened Delimiter
  import W = Worker
  import opened Framing
  import H = Handoff
  import opened Streams
  import opened ConditionalBufferedStreams

  // ---------------------------------------------------------------- readUntilDelimiter against the handler

  /** The successful results of `readUntilDelimiter(d)` calls, each with the delimiter it dropped. */
  function Extracted(d: byte, results: seq<Result<Bytes>>): seq<Bytes> {
    if results == [] then [] else
      var last := results[|results| - 1];
      Extracted(d, results[..|results| - 1]) + if last.Ok? then [last.value + [d]] else []
  }

  function Calls(d: byte, n: nat): seq<BQ.Op> {
    seq(n, _ => BQ.UntilDelimiter(d))
  }

  /** What the calls returned, with delimiters, and then the buffer, are the bytes taken. */
  ghost predicate Extracts(d: byte, frames: seq<Bytes>, q: BQ.Queue) {
    && (forall f | f in frames :: IsFrame(d, f))
    && Concat(frames) + q.data == q.net.taken
  }

  lemma {:induction false} AccountOneMore(before: Bytes, a: BQ.Queue, out: Bytes, b: BQ.Queue)
    requires before + a.data == a.net.taken && BQ.Moved(a, out, b)
    ensures (before + out) + b.data == b.net.taken
  {
    var more := b.net.taken[|a.net.taken|..];
    Assoc(before, a.data, more);
    Assoc(before, out, b.data);
  }

  lemma {:induction false} ExtractsNothing(d: byte, frames: seq<Bytes>, a: BQ.Queue, b: BQ.Queue)
    requires Extracts(d, frames, a) && BQ.Moved(a, [], b)
    ensures Extracts(d, frames, b)
  {
    hide BQ.Moved, Concat;
    AccountOneMore(Concat(frames), a, [], b);
    assert Concat(frames) + [] == Concat(frames);
  }

  lemma {:induction false} ExtractsFrame(d: byte, frames: seq<Bytes>, a: BQ.Queue, out: Bytes, b: BQ.Queue)
    requires Extracts(d, frames, a) && BQ.Moved(a, out, b) && IsFrame(d, out)
    ensures Extracts(d, frames + [out], b)
  {
    hide BQ.Moved, Concat;
    AccountOneMore(Concat(frames), a, out, b);
    ConcatSnoc(frames, out);
  }

  lemma {:induction false} ExtractOneMore(s: Schedule, cap: nat, d: byte, frames: seq<Bytes>, q: BQ.Queue)
    requires |q.data| <= cap && Extracts(d, frames, q)
    ensures var r := BQ.Until(s, cap, q, d);
            Extracts(d, frames + if r.result.Ok? then [r.result.value + [d]] else [], r.queue)
  {
    hide BQ.Until, BQ.Moved, Extracts;
    var r := BQ.Until(s, cap, q, d);
    BQ.UntilReadsFirst(s, cap, q, d);
    BQ.UntilMoves(s, cap, q, d);
    if r.result.Ok? {
      ExtractsFrame(d, frames, q, r.result.value + [d], r.queue);
    } else {
      ExtractsNothing(d, frames, q, r.queue);
      assert frames + [] == frames;
    }
  }

  lemma {:induction false} RunExtracts(s: Schedule, cap: nat, d: byte, n: nat)
    ensures var t := BQ.Run(s, cap, W.BEGIN.queue, Calls(d, n)); Extracts(d, Extracted(d, t.results), t.queue)
  {
    if n == 0 {
      assert Concat([]) + [] == [];
    } else {
      RunExtracts(s, cap, d, n - 1);
      var t := BQ.Run(s, cap, W.BEGIN.queue, Calls(d, n - 1));
      assert Calls(d, n)[..n - 1] == Calls(d, n - 1);
      var r := BQ.Until(s, cap, t.queue, d);
      hide Extracts, BQ.Until;
      ExtractOneMore(s, cap, d, Extracted(d, t.results), t.queue);
      assert (t.results + [r.result])[..n - 1] == t.results;
    }
  }

  /** On one byte stream, in any chunks on either side, the k-th successful `readUntilDelimiter` result
      plus its delimiter is the k-th segment queued by the delimiter handler. */
  lemma {:induction false} ExtractorsAgree(d: byte, fd: int, s: Schedule, cap: nat, calls: nat,
                        s': Schedule, cap': nat, rounds: nat, k: nat)
    requires cap' <= INT_MAX
    requires var taken := BQ.Run(s, cap, W.BEGIN.queue, Calls(d, calls)).queue.net.taken;
             var taken' := W.Run(s', cap', OneDelimiter(d, fd), W.BEGIN, rounds).queue.net.taken;
             taken <= taken' || taken' <= taken
    requires k < |Extracted(d, BQ.Run(s, cap, W.BEGIN.queue, Calls(d, calls)).results)|
    requires k < |W.Run(s', cap', OneDelimiter(d, fd), W.BEGIN, rounds).pops|
    ensures Extracted(d, BQ.Run(s, cap, W.BEGIN.queue, Calls(d, calls)).results)[k]
         == W.Run(s', cap', OneDelimiter(d, fd), W.BEGIN, rounds).pops[k].bytes
  {
    var t := BQ.Run(s, cap, W.BEGIN.queue, Calls(d, calls));
    var w := W.Run(s', cap', OneDelimiter(d, fd), W.BEGIN, rounds);
    var frames := Extracted(d, t.results);
    RunExtracts(s, cap, d, calls);
    BeginSplits(d, fd, cap');
    W.WorkerSplits(s', cap', d, fd, W.BEGIN, rounds);
    if t.queue.net.taken <= w.queue.net.taken {
      FramesAgree(d, frames, t.queue.data, BytesOf(w.pops), w.queue.data, k);
    } else {
      FramesAgree(d, BytesOf(w.pops), w.queue.data, frames, t.queue.data, k);
    }
  }

  // ---------------------------------------------------------------- from the socket to the readers

  function Fds(hs: seq<Handler>): seq<int> {
    seq(|hs|, i requires 0 <= i < |hs| => hs[i].fd)
  }

  /** What a worker that got as far as `w` does at the hand-off. */
  function PlanOf(hs: seq<Handler>, w: W.Worker): H.Plan {
    H.Plan(Fds(hs), PushesOf(w.pops), if w.status.Ended? then Some(w.status.error) else None)
  }

  /** Only handlers' fds are pushed to, and only socket errors are stored. */
  ghost predicate Tame(hs: seq<Handler>, w: W.Worker) {
    && (forall p | p in w.pops :: p.fd in Fds(hs))
    && w.status != W.Ended(NoDataPresent)
  }

  lemma {:induction false} LoopFds(hs: seq<Handler>, i: nat, data: Bytes, st: State)
    requires st.failure == None && (forall p | p in st.pops :: p.fd in Fds(hs))
    ensures forall p | p in Loop(hs, i, data, st).pops :: p.fd in Fds(hs)
    decreases |data|, |hs| - i
  {
    if data != [] && i < |hs| {
      var n := hs[i].condition(data);
      if n == 0 {
        LoopFds(hs, i + 1, data, st);
      } else {
        assert Fds(hs)[i] == hs[i].fd;
        var popped := Fire(hs[i], n, data, st);
        if popped.failure == None {
          LoopFds(hs, 0, data[Abs(n)..], popped);
          var nested := Loop(hs, 0, data[Abs(n)..], popped);
          if nested.failure == None {
            LoopFds(hs, i + 1, data, nested);
          }
        }
      }
    }
  }

  lemma {:induction false} IterateTame(s: Schedule, cap: nat, hs: seq<Handler>, w: W.Worker)
    requires |w.queue.data| <= cap && Tame(hs, w)
    ensures Tame(hs, W.Iterate(s, cap, hs, w))
  {
    if w.status == W.Running {
      var f := BQ.Fill(s, cap, w.queue);
      BQ.FillErrors(s, cap, w.queue);
      hide BQ.Fill;
      if f.result.Ok? {
        LoopFds(hs, 0, f.queue.data, State(f.queue.data, w.pops, None));
      }
    }
  }

  lemma {:induction false} RunTame(s: Schedule, cap: nat, hs: seq<Handler>, w: W.Worker, rounds: nat)
    requires |w.queue.data| <= cap && Tame(hs, w)
    ensures Tame(hs, W.Run(s, cap, hs, w, rounds))
    decreases rounds
  {
    hide *;
    if rounds == 0 {
      W.RunNothing(s, cap, hs, w);
    } else {
      IterateTame(s, cap, hs, w);
      W.RunStep(s, cap, hs, w, rounds);
      RunTame(s, cap, hs, W.Iterate(s, cap, hs, w), rounds - 1);
    }
  }

  lemma {:induction false} PushesTame(hs: seq<Handler>, pops: seq<Pop>)
    requires forall p | p in pops :: p.fd in Fds(hs)
    ensures forall x | x in PushesOf(pops) :: x.fd in Fds(hs)
  {
    if pops != [] {
      PushesTame(hs, pops[..|pops| - 1]);
    }
  }

  lemma {:induction false} TamePlan(hs: seq<Handler>, w: W.Worker)
    requires ConditionalBufferedStream.DistinctFds(hs) && Tame(hs, w)
    ensures H.ValidPlan(PlanOf(hs, w))
  {
    PushesTame(hs, w.pops);
  }

  lemma {:induction false} PlanIsValid(s: Schedule, cap: nat, hs: seq<Handler>, rounds: nat)
    requires ConditionalBufferedStream.DistinctFds(hs)
    ensures H.ValidPlan(PlanOf(hs, W.Run(s, cap, hs, W.BEGIN, rounds)))
  {
    RunTame(s, cap, hs, W.BEGIN, rounds);
    TamePlan(hs, W.Run(s, cap, hs, W.BEGIN, rounds));
  }

  /** Any handlers with distinct fds, any socket, any number of rounds, any interleaving of readers:
      the readers of an fd have got, in order, a prefix of the segments that were popped for it; no
      reader that took a token found nothing; and whoever got the error came after the last segment. */
  lemma {:induction false} SocketToReaders(s: Schedule, cap: nat, hs: seq<Handler>, rounds: nat,
                                           actions: seq<H.Action>, fd: int)
    requires ConditionalBufferedStream.DistinctFds(hs) && fd in Fds(hs)
    ensures var w := W.Run(s, cap, hs, W.BEGIN, rounds);
            && H.ValidPlan(PlanOf(hs, w))
            && var r := H.Reach(PlanOf(hs, w), actions);
               && H.Typed(PlanOf(hs, w), r) && !r.noData
               && r.delivered[fd] <= SegmentsOf(w.pops, fd)
               && (r.thrown[fd] > 0 ==>
                     w.status.Ended? && r.lastEx == Some(w.status.error) && r.delivered[fd] == SegmentsOf(w.pops, fd))
  {
    var p := PlanOf(hs, W.Run(s, cap, hs, W.BEGIN, rounds));
    PlanIsValid(s, cap, hs, rounds);
    H.TokenProtocol(p, actions, fd);
    H.ThrownIsEnding(p, actions, fd);
  }

  lemma {:induction false} SegmentsOfDelivered(fd: int, frames: seq<Bytes>)
    requires forall f | f in frames :: f != []
    ensures SegmentsOf(DeliveredPops(fd, frames), fd) == frames
  {
    if frames == [] {
      NeverPopped(DeliveredPops(fd, frames), fd);
    } else {
      var front, last := frames[..|frames| - 1], frames[|frames| - 1];
      assert last in frames && forall f | f in front :: f in frames;
      SegmentsOfDelivered(fd, front);
      assert DeliveredPops(fd, frames) == DeliveredPops(fd, front) + [Pop(fd, |last|, last)];
      SegmentsOfSnoc(DeliveredPops(fd, front), Pop(fd, |last|, last), fd);
      assert front + [last] == frames;
    }
  }

  /** Framed messages arriving in any chunks, read by any number of threads: what the readers have got
      is a prefix of the messages with their delimiters, and all of them once the error is reported. */
  lemma {:induction false} MessagesReachReaders(s: Schedule, cap: nat, d: byte, fd: int, rounds: nat,
                                                messages: seq<Bytes>, actions: seq<H.Action>)
    requires cap <= INT_MAX && (forall m | m in messages :: Lacks(m, d))
    requires W.Run(s, cap, OneDelimiter(d, fd), W.BEGIN, rounds).queue.net.taken == Concat(Framed(d, messages))
    ensures var p := PlanOf(OneDelimiter(d, fd), W.Run(s, cap, OneDelimiter(d, fd), W.BEGIN, rounds));
            && H.ValidPlan(p)
            && var r := H.Reach(p, actions);
               && H.Typed(p, r) && fd in p.fds && !r.noData
               && r.delivered[fd] <= Framed(d, messages)
               && (r.thrown[fd] > 0 ==> r.delivered[fd] == Framed(d, messages))
  {
    var hs := OneDelimiter(d, fd);
    assert Fds(hs)[0] == fd;
    FramingRoundTrip(s, cap, d, fd, rounds, messages);
    SegmentsOfDelivered(fd, Framed(d, messages));
    SocketToReaders(s, cap, hs, rounds, actions, fd);
  }

  // ---------------------------------------------------------------- what a stop request does to readers

  /** The last poll found something other than a stop request: a failing call, a hang-up, nothing at
      all, or, `overflow`, bytes that the worker had no room for. */
  ghost predicate Notifies(s: Schedule, n: Net, overflow: bool) {
    !OnlyStop(s, n) || overflow
  }

  /** After the end of a worker a reader of `fd` is served again exactly if a segment is queued, or
      closing notices were posted (`notified`) and nobody has got the one of `fd`. */
  ghost predicate ServedIff(p: H.Plan, actions: seq<H.Action>, fd: int, notified: bool) {
    && H.ValidPlan(p) && fd in p.fds
    && var r := H.Reach(p, actions);
       && H.Typed(p, r)
       && (r.pc == H.Over ==> (H.ServedAgain(p, r, fd) <==> r.queues[fd] != [] || (notified && r.thrown[fd] == 0)))
  }

  /** Any handlers, any schedule, a worker that has ended at any point of its run other than by a crash,
      any interleaving: closing notices are posted exactly if the last poll found something other than
      a stop request, or left bytes unread. So a stop request that reaches an idle worker, or one that
      can read everything pending, wakes nobody. */
  lemma {:induction false} StopServesExactly(s: Schedule, cap: nat, hs: seq<Handler>, rounds: nat,
                                             actions: seq<H.Action>, fd: int)
    requires ConditionalBufferedStream.DistinctFds(hs) && fd in Fds(hs)
    requires var w := W.Run(s, cap, hs, W.BEGIN, rounds); w.status != W.Running && !w.status.Crashed?
    ensures var w := W.Run(s, cap, hs, W.BEGIN, rounds);
            ServedIff(PlanOf(hs, w), actions, fd, Notifies(s, w.queue.net, w.queue.net.kernel != []))
  {
    hide W.Run, H.Reach;
    var w := W.Run(s, cap, hs, W.BEGIN, rounds);
    EndingExactly(s, cap, hs, W.BEGIN, rounds);
    EndedByStop(s, cap, w);
    PlanIsValid(s, cap, hs, rounds);
    if H.Reach(PlanOf(hs, w), actions).pc == H.Over {
      H.ServedAgainExactly(PlanOf(hs, w), actions, fd);
    }
  }

  /** With one delimiter handler, bytes are left unread by a healthy socket exactly if a frame or the
      unfinished tail of what was received overflows the buffer. */
  lemma {:induction false} StopWakesExactly(s: Schedule, cap: nat, d: byte, fd: int, rounds: nat,
                                            actions: seq<H.Action>)
    requires cap <= INT_MAX && W.Run(s, cap, OneDelimiter(d, fd), W.BEGIN, rounds).status != W.Running
    ensures var w := W.Run(s, cap, OneDelimiter(d, fd), W.BEGIN, rounds);
            ServedIff(PlanOf(OneDelimiter(d, fd), w), actions, fd,
                      Notifies(s, w.queue.net, !StaysBelow(d, cap, Received(w.queue.net))))
  {
    hide W.Run, StaysBelow;
    var hs := OneDelimiter(d, fd);
    assert Fds(hs)[0] == fd;
    BeginSplits(d, fd, cap);
    W.WorkerSplits(s, cap, d, fd, W.BEGIN, rounds);
    StoppedExactly(s, cap, d, fd, W.BEGIN, rounds);
    EndedByStop(s, cap, W.Run(s, cap, hs, W.BEGIN, rounds));
    StopServesExactly(s, cap, hs, rounds, actions, fd);
  }

  /** The same before the end: the next poll of a running worker finds a stop request on a healthy
      socket, and nothing happens after it. Whether the readers are woken depends on nothing but the
      bytes received by then. */
  lemma {:induction false} CalmStopWakesExactly(s: Schedule, cap: nat, d: byte, fd: int, rounds: nat,
                                                actions: seq<H.Action>)
    requires cap <= INT_MAX && Stopping(s, W.Run(s, cap, OneDelimiter(d, fd), W.BEGIN, rounds))
    ensures var hs := OneDelimiter(d, fd);
            var w := W.Run(s, cap, hs, W.BEGIN, rounds);
            ServedIff(PlanOf(hs, AfterStop(s, cap, hs, w)), actions, fd,
                      !StaysBelow(d, cap, Received(Found(s, w))))
  {
    hide *;
    W.BeginFits(cap);
    var hs := OneDelimiter(d, fd);
    var w := W.Run(s, cap, hs, W.BEGIN, rounds);
    var more := |Found(s, w).kernel| + 1;
    BeginSplits(d, fd, cap);
    W.WorkerSplits(s, cap, d, fd, W.BEGIN, rounds);
    DrainAfterStop(s, cap, d, fd, w);
    AfterStopIs(s, cap, hs, w);
    W.RunTwice(s, cap, hs, W.BEGIN, rounds, more);
    EndedWithOnlyStop(s, cap, d, fd, rounds + more, AfterStop(s, cap, hs, w), actions);
  }

  lemma {:induction false} EndedWithOnlyStop(s: Schedule, cap: nat, d: byte, fd: int, rounds: nat,
                                             r: W.Worker, actions: seq<H.Action>)
    requires cap <= INT_MAX && r == W.Run(s, cap, OneDelimiter(d, fd), W.BEGIN, rounds)
    requires r.status != W.Running && OnlyStop(s, r.queue.net)
    ensures ServedIff(PlanOf(OneDelimiter(d, fd), r), actions, fd, !StaysBelow(d, cap, Received(r.queue.net)))
  {
    hide *;
    W.BeginFits(cap);
    StopWakesExactly(s, cap, d, fd, rounds, actions);
    OnlyOverflow(s, r.queue.net, !StaysBelow(d, cap, Received(r.queue.net)));
  }

  lemma {:induction false} OnlyOverflow(s: Schedule, n: Net, overflow: bool)
    requires OnlyStop(s, n)
    ensures Notifies(s, n, overflow) == overflow
  {
  }

  /** Nobody sends anything, and `stopReads` is called before the worker's first poll. */
  function IdleStop(): Schedule {
    (t: nat) => Env([], false, if t == 0 then STOP_TOKENS else 0, 0, false, false)
  }

  /** Then the worker stops at once, and no reader ever gets a token, a segment or an error. */
  lemma {:induction false} IdleReaderWaits(cap: nat, hs: seq<Handler>, rounds: nat, actions: seq<H.Action>, fd: int)
    requires ConditionalBufferedStream.DistinctFds(hs) && fd in Fds(hs) && 0 < rounds
    ensures var w := W.Run(IdleStop(), cap, hs, W.BEGIN, rounds);
            && w.status == W.Stopped
            && H.ValidPlan(PlanOf(hs, w))
            && var r := H.Reach(PlanOf(hs, w), actions);
               && H.Typed(PlanOf(hs, w), r)
               && r.tokens[fd] == 0 && r.delivered[fd] == [] && r.thrown[fd] == 0
  {
    hide W.Run, H.Reach;
    var w := W.Run(IdleStop(), cap, hs, W.BEGIN, rounds);
    IdleWorkerStops(cap, hs, rounds);
    PlanIsValid(IdleStop(), cap, hs, rounds);
    H.TokenProtocol(PlanOf(hs, w), actions, fd);
    H.ThrownIsEnding(PlanOf(hs, w), actions, fd);
  }

  lemma {:induction false} IdleWorkerStops(cap: nat, hs: seq<Handler>, rounds: nat)
    requires 0 < rounds
    ensures var w := W.Run(IdleStop(), cap, hs, W.BEGIN, rounds); w.status == W.Stopped && w.pops == []
  {
    var s := IdleStop();
    var w := W.Iterate(s, cap, hs, W.BEGIN);
    BQ.FillIsOneRead(s, cap, W.BEGIN.queue);
    IterateStatus(s, cap, hs, W.BEGIN);
    W.RunStep(s, cap, hs, W.BEGIN, rounds);
    W.RunStays(s, cap, hs, w, rounds - 1);
  }
}
