/** `ConditionalBufferWorker`: fill, snapshot, dispatch, until an exception leaves the loop. */
module Worker {
  import opened Basics
  import opened Network
  import BQ = ByteQueue
  import opened Dispatcher
  import opened Delimiter
  import opened Chunking

  datatype Status =
    | Running
    | Stopped               // SOCKET_TERMINATION_REQUEST: no one is notified
    | Ended(error: Error)   // any other SocketException: stored, and every handler is notified
    | Crashed(error: Error) // not a SocketException: nothing catches it

  datatype Worker = Worker(queue: BQ.Queue, pops: seq<Pop>, status: Status)

  const BEGIN := Worker(BQ.Queue(Net([], false, 0, 0, []), []), [], Running)

  lemma {:induction false} BeginFits(cap: nat)
    ensures |BEGIN.queue.data| <= cap
  {
  }

  function StatusOf(e: Error): Status {
    if e == TerminationRequest then Stopped else Ended(e)
  }

  /** One round of the worker's endless loop. */
  function Iterate(s: Schedule, cap: nat, hs: seq<Handler>, w: Worker): (r: Worker)
    requires |w.queue.data| <= cap
    ensures |r.queue.data| <= cap
  {
    if w.status != Running then w else
      var f := BQ.Fill(s, cap, w.queue);
      if f.result.Err? then Worker(f.queue, w.pops, StatusOf(f.result.error)) else
        var data := f.queue.data;
        var st := Loop(hs, 0, data, State(data, w.pops, None));
        LoopShrinks(hs, 0, data, State(data, w.pops, None));
        Worker(BQ.Queue(f.queue.net, st.buffer), st.pops,
               if st.failure == None then Running else Crashed(st.failure.value))
  }

  lemma {:induction false} LoopShrinks(hs: seq<Handler>, i: nat, data: Bytes, st: State)
    requires st.failure == None
    ensures |Loop(hs, i, data, st).buffer| <= |st.buffer|
    decreases |data|, |hs| - i
  {
    if data != [] && i < |hs| {
      var n := hs[i].condition(data);
      if n == 0 {
        LoopShrinks(hs, i + 1, data, st);
      } else {
        var popped := Fire(hs[i], n, data, st);
        if popped.failure == None {
          var nested := Loop(hs, 0, data[Abs(n)..], popped);
          LoopShrinks(hs, 0, data[Abs(n)..], popped);
          if nested.failure == None {
            LoopShrinks(hs, i + 1, data, nested);
          }
        }
      }
    }
  }

  /** The first `rounds` rounds. The loop has no bound of its own: `rounds` is arbitrary everywhere. */
  function Run(s: Schedule, cap: nat, hs: seq<Handler>, w: Worker, rounds: nat): (r: Worker)
    requires |w.queue.data| <= cap
    ensures |r.queue.data| <= cap
    decreases rounds
  {
    if rounds == 0 then w else Run(s, cap, hs, Iterate(s, cap, hs, w), rounds - 1)
  }

  lemma {:induction false} RunStep(s: Schedule, cap: nat, hs: seq<Handler>, w: Worker, rounds: nat)
    requires |w.queue.data| <= cap && 0 < rounds
    ensures Run(s, cap, hs, w, rounds) == Run(s, cap, hs, Iterate(s, cap, hs, w), rounds - 1)
  {
    hide Iterate;
  }

  lemma {:induction false} RunNothing(s: Schedule, cap: nat, hs: seq<Handler>, w: Worker)
    requires |w.queue.data| <= cap
    ensures Run(s, cap, hs, w, 0) == w
  {
  }

  lemma {:induction false} RunSnoc(s: Schedule, cap: nat, hs: seq<Handler>, w: Worker, rounds: nat)
    requires |w.queue.data| <= cap
    ensures Run(s, cap, hs, w, rounds + 1) == Iterate(s, cap, hs, Run(s, cap, hs, w, rounds))
    decreases rounds
  {
    hide Iterate;
    var next := Iterate(s, cap, hs, w);
    RunStep(s, cap, hs, w, rounds + 1);
    if rounds == 0 {
      RunNothing(s, cap, hs, w);
      RunNothing(s, cap, hs, next);
    } else {
      RunStep(s, cap, hs, w, rounds);
      RunSnoc(s, cap, hs, next, rounds - 1);
    }
  }

  lemma {:induction false} RunStays(s: Schedule, cap: nat, hs: seq<Handler>, w: Worker, rounds: nat)
    requires |w.queue.data| <= cap && w.status != Running
    ensures Run(s, cap, hs, w, rounds) == w
    decreases rounds
  {
    if rounds > 0 {
      RunStays(s, cap, hs, w, rounds - 1);
    }
  }

  lemma {:induction false} RunTwice(s: Schedule, cap: nat, hs: seq<Handler>, w: Worker, rounds: nat, more: nat)
    requires |w.queue.data| <= cap
    ensures Run(s, cap, hs, w, rounds + more) == Run(s, cap, hs, Run(s, cap, hs, w, rounds), more)
    decreases rounds
  {
    hide *;
    if rounds == 0 {
      RunNothing(s, cap, hs, w);
    } else {
      RunStep(s, cap, hs, w, rounds);
      RunStep(s, cap, hs, w, rounds + more);
      RunTwice(s, cap, hs, Iterate(s, cap, hs, w), rounds - 1, more);
    }
  }

  // ---------------------------------------------------------------- any handlers

  /** Pops in time order and then the buffer are the bytes read; every pop has the length asked for. */
  ghost predicate Accounts(w: Worker) {
    Popped(w.pops) + w.queue.data == w.queue.net.taken && Sized(w.pops)
  }

  lemma {:induction false} IterateAccounts(s: Schedule, cap: nat, hs: seq<Handler>, w: Worker)
    requires |w.queue.data| <= cap && Accounts(w)
    ensures var r := Iterate(s, cap, hs, w);
            Accounts(r) && w.pops <= r.pops && Conserved(s, w.queue.net, r.queue.net)
  {
    if w.status == Running {
      var f := BQ.Fill(s, cap, w.queue);
      BQ.FillConserves(s, cap, w.queue);
      FillExtends(s, cap, w);
      if f.result.Ok? {
        Conservation(hs, 0, f.queue.data, State(f.queue.data, w.pops, None));
      }
    } else {
      assert Received(w.queue.net) + [] == Received(w.queue.net);
    }
  }

  lemma {:induction false} FillExtends(s: Schedule, cap: nat, w: Worker)
    requires |w.queue.data| <= cap && Accounts(w)
    ensures var f := BQ.Fill(s, cap, w.queue); Popped(w.pops) + f.queue.data == f.queue.net.taken
  {
    var f := BQ.Fill(s, cap, w.queue);
    var more := f.queue.data[|w.queue.data|..];
    assert f.queue.data == w.queue.data + more;
    hide *;
    Assoc(Popped(w.pops), w.queue.data, more);
  }

  /** Whatever the handlers answer and whatever they throw, no byte is lost, added or reordered. */
  lemma {:induction false} WorkerConserves(s: Schedule, cap: nat, hs: seq<Handler>, w: Worker, rounds: nat)
    requires |w.queue.data| <= cap && Accounts(w)
    ensures var r := Run(s, cap, hs, w, rounds);
            Accounts(r) && w.pops <= r.pops && Conserved(s, w.queue.net, r.queue.net)
    decreases rounds
  {
    if rounds == 0 {
      assert Received(w.queue.net) + [] == Received(w.queue.net);
    } else {
      var next := Iterate(s, cap, hs, w);
      IterateAccounts(s, cap, hs, w);
      WorkerConserves(s, cap, hs, next, rounds - 1);
      ConservedTwice(s, w.queue.net, next.queue.net, Run(s, cap, hs, w, rounds).queue.net);
    }
  }

  // ---------------------------------------------------------------- crashes

  /** What the dispatcher makes of the refilled buffer. */
  function Dispatched(s: Schedule, cap: nat, hs: seq<Handler>, w: Worker): State
    requires |w.queue.data| <= cap
  {
    var data := BQ.Fill(s, cap, w.queue).queue.data;
    Loop(hs, 0, data, State(data, w.pops, None))
  }

  /** The worker runs, its refill returns, and the dispatcher throws `e`. */
  ghost predicate Throws(s: Schedule, cap: nat, hs: seq<Handler>, w: Worker, e: Error)
    requires |w.queue.data| <= cap
  {
    w.status == Running && BQ.Fill(s, cap, w.queue).result.Ok? && Dispatched(s, cap, hs, w).failure == Some(e)
  }

  /** The worker runs, and its refill throws. */
  ghost predicate RefillFails(s: Schedule, cap: nat, w: Worker)
    requires |w.queue.data| <= cap
  {
    w.status == Running && BQ.Fill(s, cap, w.queue).result.Err?
  }

  /** A round, by what the refill and the dispatcher do. */
  lemma {:induction false} RoundExactly(s: Schedule, cap: nat, hs: seq<Handler>, w: Worker)
    requires |w.queue.data| <= cap
    ensures var r := Iterate(s, cap, hs, w);
            var f := BQ.Fill(s, cap, w.queue);
            && (forall e :: r.status == Crashed(e) <==> w.status == Crashed(e) || Throws(s, cap, hs, w, e))
            && (w.status != Running ==> r == w)
            && (w.status == Running && f.result.Err? ==> r == Worker(f.queue, w.pops, StatusOf(f.result.error)))
            && (w.status == Running && f.result.Ok? ==>
                  && (r.status == Running <==> Dispatched(s, cap, hs, w).failure == None)
                  && (r.status == Running || r.status.Crashed?)
                  && r.pops == Dispatched(s, cap, hs, w).pops
                  && r.queue == BQ.Queue(f.queue.net, Dispatched(s, cap, hs, w).buffer))
  {
    hide BQ.Fill, Loop;
  }

  /** Nothing catches an exception of the dispatcher: the worker has crashed with `e` exactly if in some
      round its refill returned and the dispatcher threw `e`, and it stays as the dispatcher left it. */
  lemma {:induction false} CrashExactly(s: Schedule, cap: nat, hs: seq<Handler>, w: Worker, rounds: nat, e: Error)
    requires |w.queue.data| <= cap && w.status == Running
    ensures var r := Run(s, cap, hs, w, rounds);
            r.status == Crashed(e) <==>
              exists k: nat :: k < rounds && Throws(s, cap, hs, Run(s, cap, hs, w, k), e)
    ensures var r := Run(s, cap, hs, w, rounds);
            forall k: nat | k < rounds && Throws(s, cap, hs, Run(s, cap, hs, w, k), e) ::
              r.pops == Dispatched(s, cap, hs, Run(s, cap, hs, w, k)).pops
              && r.queue.data == Dispatched(s, cap, hs, Run(s, cap, hs, w, k)).buffer
    decreases rounds
  {
    hide *;
    if rounds == 0 {
      RunNothing(s, cap, hs, w);
    } else {
      var before := Run(s, cap, hs, w, rounds - 1);
      RunSnoc(s, cap, hs, w, rounds - 1);
      RoundExactly(s, cap, hs, before);
      CrashExactly(s, cap, hs, w, rounds - 1, e);
      ThrowsSays(s, cap, hs, before, e);
    }
  }

  lemma {:induction false} ThrowsSays(s: Schedule, cap: nat, hs: seq<Handler>, w: Worker, e: Error)
    requires |w.queue.data| <= cap
    ensures Throws(s, cap, hs, w, e) ==> w.status == Running && BQ.Fill(s, cap, w.queue).result.Ok?
  {
    hide BQ.Fill, Dispatched;
  }

  /** The other way to end is a refill that throws: the status says how, and no other error is possible. */
  lemma {:induction false} EndsExactly(s: Schedule, cap: nat, hs: seq<Handler>, w: Worker, rounds: nat)
    requires |w.queue.data| <= cap && w.status == Running
    ensures var r := Run(s, cap, hs, w, rounds);
            r.status == Stopped || r.status.Ended? <==>
              exists k: nat :: k < rounds && RefillFails(s, cap, Run(s, cap, hs, w, k))
    ensures var r := Run(s, cap, hs, w, rounds);
            forall k: nat | k < rounds && RefillFails(s, cap, Run(s, cap, hs, w, k)) ::
              var before := Run(s, cap, hs, w, k);
              var f := BQ.Fill(s, cap, before.queue);
              f.result.Err? && r == Worker(f.queue, before.pops, StatusOf(f.result.error))
    decreases rounds
  {
    hide *;
    if rounds == 0 {
      RunNothing(s, cap, hs, w);
      StatusOfEnds();
    } else {
      var before := Run(s, cap, hs, w, rounds - 1);
      RunSnoc(s, cap, hs, w, rounds - 1);
      RoundExactly(s, cap, hs, before);
      EndsExactly(s, cap, hs, w, rounds - 1);
      RefillFailsSays(s, cap, before);
      StatusOfEnds();
    }
  }

  lemma {:induction false} RefillFailsSays(s: Schedule, cap: nat, w: Worker)
    requires |w.queue.data| <= cap
    ensures RefillFails(s, cap, w) <==> w.status == Running && BQ.Fill(s, cap, w.queue).result.Err?
  {
    hide BQ.Fill;
  }

  lemma {:induction false} StatusOfEnds()
    ensures forall e :: StatusOf(e) == if e == TerminationRequest then Stopped else Ended(e)
  {
  }

  // ---------------------------------------------------------------- well-behaved handlers

  /** The worker is where the byte-by-byte reference is after the same bytes. */
  ghost predicate OnReference(hs: seq<Handler>, w: Worker) {
    && State(w.queue.data, w.pops, None) == ByteByByte(hs, w.queue.net.taken)
    && !w.status.Crashed?
  }

  lemma {:induction false} IterateOnReference(s: Schedule, cap: nat, hs: seq<Handler>, w: Worker)
    requires |w.queue.data| <= cap && WellBehaved(hs, cap) && OnReference(hs, w)
    ensures OnReference(hs, Iterate(s, cap, hs, w))
  {
    if w.status == Running {
      var f := BQ.Fill(s, cap, w.queue);
      if f.result.Ok? {
        var chunk := f.queue.data[|w.queue.data|..];
        assert w.queue.data + chunk == f.queue.data;
        ChunkIsBytes(hs, cap, w.queue.net.taken, chunk);
        ExclusiveRefinement(hs, cap, f.queue.data, w.pops);
      }
    }
  }

  /** The state of the worker after any schedule is a function of the bytes it has read. */
  lemma {:induction false} WorkerFollowsReference(s: Schedule, cap: nat, hs: seq<Handler>, w: Worker, rounds: nat)
    requires |w.queue.data| <= cap && WellBehaved(hs, cap) && OnReference(hs, w)
    ensures OnReference(hs, Run(s, cap, hs, w, rounds))
    decreases rounds
  {
    hide Iterate, WellBehaved, OnReference;
    if rounds > 0 {
      IterateOnReference(s, cap, hs, w);
      WorkerFollowsReference(s, cap, hs, Iterate(s, cap, hs, w), rounds - 1);
    }
  }

  /** Two workers with the same handlers, on any two schedules and capacities: if one has read a prefix
      of what the other has read, its pops are a prefix of the other's; after the same bytes, pops and
      leftover are the same. */
  lemma {:induction false} ChunkingIndependence(hs: seq<Handler>, s: Schedule, cap: nat, rounds: nat,
                             s': Schedule, cap': nat, rounds': nat)
    requires WellBehaved(hs, cap) && WellBehaved(hs, cap')
    requires Run(s, cap, hs, BEGIN, rounds).queue.net.taken
          <= Run(s', cap', hs, BEGIN, rounds').queue.net.taken
    ensures var w, w' := Run(s, cap, hs, BEGIN, rounds), Run(s', cap', hs, BEGIN, rounds');
            && !w.status.Crashed? && !w'.status.Crashed?
            && w.pops <= w'.pops
            && (w.queue.net.taken == w'.queue.net.taken ==> w.pops == w'.pops && w.queue.data == w'.queue.data)
  {
    var w, w' := Run(s, cap, hs, BEGIN, rounds), Run(s', cap', hs, BEGIN, rounds');
    WorkerFollowsReference(s, cap, hs, BEGIN, rounds);
    WorkerFollowsReference(s', cap', hs, BEGIN, rounds');
    var more := w'.queue.net.taken[|w.queue.net.taken|..];
    assert w.queue.net.taken + more == w'.queue.net.taken;
    ByteByByteGrows(hs, w.queue.net.taken, more);
  }

  // ---------------------------------------------------------------- exactly the stable handlers

  /** After the same bytes, two workers have made the same pops and hold the same leftover, on any two
      schedules. */
  ghost predicate ChunkFree(hs: seq<Handler>, cap: nat) {
    forall s: Schedule, n: nat, s': Schedule, n': nat
      | Run(s, cap, hs, BEGIN, n).queue.net.taken == Run(s', cap, hs, BEGIN, n').queue.net.taken ::
      && Run(s, cap, hs, BEGIN, n).pops == Run(s', cap, hs, BEGIN, n').pops
      && Run(s, cap, hs, BEGIN, n).queue.data == Run(s', cap, hs, BEGIN, n').queue.data
  }

  /** The peer sends `a` in one piece and `b` in the next. */
  function TwoPieces(a: Bytes, b: Bytes): Schedule {
    (t: nat) => Piece(if t == 0 then a else if t == 1 then b else [])
  }

  /** A round that reads one piece, with handlers that keep the dispatcher on the simple iteration. */
  lemma {:induction false} PieceRound(s: Schedule, cap: nat, hs: seq<Handler>, w: Worker, piece: Bytes)
    requires Exclusive(hs, cap) && Bounded(hs, cap) && w.status == Running && w.queue.net.kernel == []
    requires piece != [] && |w.queue.data| + |piece| <= cap && s(w.queue.net.now) == Piece(piece)
    ensures var simple := Simple(hs, w.queue.data + piece, w.pops);
            var r := Iterate(s, cap, hs, w);
            && r.status == Running && r.pops == simple.pops && r.queue.data == simple.buffer
            && r.queue.net.now == w.queue.net.now + 1 && r.queue.net.kernel == []
            && r.queue.net.taken == w.queue.net.taken + piece
  {
    hide BQ.Fill, Simple, Loop;
    BQ.FillPiece(s, cap, w.queue, piece);
    ExclusiveRefinement(hs, cap, w.queue.data + piece, w.pops);
  }

  /** The first thing done with data that some handler fires on is that handler's pop. */
  lemma {:induction false} FirstPopIs(hs: seq<Handler>, cap: nat, i: nat, data: Bytes, pops: seq<Pop>)
    requires Exclusive(hs, cap) && Bounded(hs, cap) && |data| <= cap
    requires i < |hs| && hs[i].condition(data) != 0
    ensures var r := Simple(hs, data, pops).pops;
            |pops| < |r| && r[|pops|].fd == hs[i].fd && r[|pops|].answer == hs[i].condition(data)
  {
    var n := hs[i].condition(data);
    assert Abs(hs[i].condition(data)) <= |data|;
    assert FirstFiring(hs, 0, data) == i;
    SimpleShift(hs, data[Abs(n)..], pops + [Pop(hs[i].fd, n, data[..Abs(n)])]);
  }

  /** `a` then `b` in two reads, and `a + b` in one. */
  lemma {:induction false} InTwoReads(hs: seq<Handler>, cap: nat, a: Bytes, b: Bytes)
    requires Exclusive(hs, cap) && Bounded(hs, cap) && a != [] && b != [] && |a + b| <= cap
    ensures var r := Run(TwoPieces(a, b), cap, hs, BEGIN, 2);
            r.queue.net.taken == a + b && Simple(hs, a, []).pops <= r.pops
  {
    var s := TwoPieces(a, b);
    var w := Iterate(s, cap, hs, BEGIN);
    PieceRound(s, cap, hs, BEGIN, a);
    assert [] + a == a;
    BoundedNeverFails(hs, cap, a, []);
    PieceRound(s, cap, hs, w, b);
    SimpleShift(hs, w.queue.data + b, w.pops);
    RunStep(s, cap, hs, BEGIN, 2);
    RunStep(s, cap, hs, w, 1);
    RunNothing(s, cap, hs, Iterate(s, cap, hs, w));
  }

  lemma {:induction false} InOneRead(hs: seq<Handler>, cap: nat, a: Bytes)
    requires Exclusive(hs, cap) && Bounded(hs, cap) && a != [] && |a| <= cap
    ensures var r := Run(TwoPieces(a, []), cap, hs, BEGIN, 1);
            r.queue.net.taken == a && r.pops == Simple(hs, a, []).pops
  {
    var s := TwoPieces(a, []);
    PieceRound(s, cap, hs, BEGIN, a);
    assert [] + a == a;
    RunStep(s, cap, hs, BEGIN, 1);
    RunNothing(s, cap, hs, Iterate(s, cap, hs, BEGIN));
  }

  lemma {:induction false} SamePops(hs: seq<Handler>, cap: nat, s: Schedule, n: nat, s': Schedule, n': nat)
    requires ChunkFree(hs, cap)
    requires Run(s, cap, hs, BEGIN, n).queue.net.taken == Run(s', cap, hs, BEGIN, n').queue.net.taken
    ensures Run(s, cap, hs, BEGIN, n).pops == Run(s', cap, hs, BEGIN, n').pops
  {
    hide Run;
  }

  lemma {:induction false} AsksForSome(hs: seq<Handler>, cap: nat, a: Bytes, i: nat)
    requires Bounded(hs, cap) && i < |hs| && |a| <= cap && hs[i].condition(a) != 0
    ensures a != []
  {
    assert Abs(hs[i].condition(a)) <= |a|;
  }

  lemma {:induction false} ChunkFreeIsStable(hs: seq<Handler>, cap: nat, a: Bytes, b: Bytes, i: nat)
    requires Exclusive(hs, cap) && Bounded(hs, cap) && ChunkFree(hs, cap)
    requires forall j, k | 0 <= j < k < |hs| :: hs[j].fd != hs[k].fd
    requires i < |hs| && |a + b| <= cap && hs[i].condition(a) != 0
    ensures hs[i].condition(a + b) == hs[i].condition(a)
  {
    hide *;
    AsksForSome(hs, cap, a, i);
    if b == [] {
      assert a + b == a;
    } else {
      var split, whole := Simple(hs, a, []).pops, Simple(hs, a + b, []).pops;
      InTwoReads(hs, cap, a, b);
      InOneRead(hs, cap, a + b);
      SamePops(hs, cap, TwoPieces(a, b), 2, TwoPieces(a + b, []), 1);
      FirstPopIs(hs, cap, i, a, []);
      SomeoneFired(hs, a + b);
      var j := FirstFiring(hs, 0, a + b);
      FirstPopIs(hs, cap, j, a + b, []);
      assert split <= whole && split[0] == whole[0];
    }
  }

  lemma {:induction false} SomeoneFired(hs: seq<Handler>, data: Bytes)
    requires Simple(hs, data, []).pops != []
    ensures FirstFiring(hs, 0, data) < |hs|
  {
  }

  /** For exclusive, bounded handlers with an eventfd each, what the worker does is a function of the
      bytes received, whatever the chunks, exactly if every handler is stable. */
  lemma {:induction false} ChunkFreeExactly(hs: seq<Handler>, cap: nat)
    requires Exclusive(hs, cap) && Bounded(hs, cap)
    requires forall j, k | 0 <= j < k < |hs| :: hs[j].fd != hs[k].fd
    ensures ChunkFree(hs, cap) <==> Stable(hs, cap)
  {
    if ChunkFree(hs, cap) {
      forall a: Bytes, b: Bytes, h | |a + b| <= cap && h in hs && h.condition(a) != 0
        ensures h.condition(a + b) == h.condition(a)
      {
        var i :| 0 <= i < |hs| && hs[i] == h;
        ChunkFreeIsStable(hs, cap, a, b, i);
      }
    }
    if Stable(hs, cap) {
      forall s: Schedule, n: nat, s': Schedule, n': nat
        | Run(s, cap, hs, BEGIN, n).queue.net.taken == Run(s', cap, hs, BEGIN, n').queue.net.taken
        ensures Run(s, cap, hs, BEGIN, n).pops == Run(s', cap, hs, BEGIN, n').pops
        ensures Run(s, cap, hs, BEGIN, n).queue.data == Run(s', cap, hs, BEGIN, n').queue.data
      {
        ChunkingIndependence(hs, s, cap, n, s', cap, n');
      }
    }
  }

  // ---------------------------------------------------------------- one delimiter handler

  /** The pops are the frames of the bytes read, the buffer is the unfinished rest, and no proper
      prefix of the bytes read left a full buffer. */
  ghost predicate Splits(d: byte, fd: int, cap: nat, w: Worker) {
    && IsSegmentation(d, w.queue.net.taken, BytesOf(w.pops), w.queue.data)
    && (forall p | p in w.pops :: p.fd == fd && p.answer == |p.bytes|)
    && |w.queue.data| <= cap
    && StaysBelow(d, cap, w.queue.net.taken)
    && !w.status.Crashed?
  }

  lemma {:induction false} RestIsTail(d: byte, input: Bytes, frames: seq<Bytes>, rest: Bytes)
    requires IsSegmentation(d, input, frames, rest)
    ensures rest == Tail(d, input)
  {
    SplitIsSegmentation(d, input);
    UniqueSegmentation(d, input, frames, rest, Frames(d, input), Tail(d, input));
  }

  lemma {:induction false} SplitsChunk(d: byte, fd: int, cap: nat, w: Worker, chunk: Bytes, r: Worker)
    requires Splits(d, fd, cap, w) && |w.queue.data + chunk| <= cap <= INT_MAX
    requires r.queue.net.taken == w.queue.net.taken + chunk && r.status == Running
    requires State(r.queue.data, r.pops, None)
          == Simple(OneDelimiter(d, fd), w.queue.data + chunk, w.pops)
    ensures Splits(d, fd, cap, r)
  {
    hide IsSegmentation, StaysBelow, Frames, Tail, Simple, DeliveredPops, BytesOf;
    var data := w.queue.data + chunk;
    SimpleSplits(d, fd, data, w.pops);
    DeliveredBytes(fd, w.pops, Frames(d, data));
    TailShorter(d, data);
    ChunkSegmented(d, cap, data, r.queue.net.taken, w.queue.net.taken, BytesOf(w.pops), w.queue.data, chunk);
  }

  lemma {:induction false} DeliveredBytes(fd: int, pops: seq<Pop>, frames: seq<Bytes>)
    ensures BytesOf(pops + DeliveredPops(fd, frames)) == BytesOf(pops) + frames
    ensures forall p | p in DeliveredPops(fd, frames) :: p.fd == fd && p.answer == |p.bytes|
  {
  }

  lemma {:induction false} TailShorter(d: byte, data: Bytes)
    ensures |Tail(d, data)| <= |data|
    decreases |data|
  {
    var p := IndexOf(data, d);
    if p != |data| {
      TailShorter(d, data[p + 1..]);
    }
  }

  lemma {:induction false} PartBound(parts: seq<Bytes>, f: Bytes)
    requires f in parts
    ensures |f| <= |Concat(parts)|
  {
    if f in parts[..|parts| - 1] {
      PartBound(parts[..|parts| - 1], f);
    }
  }

  lemma {:induction false} ChunkSegmented(d: byte, cap: nat, data: Bytes, input': Bytes, input: Bytes,
                                          frames: seq<Bytes>, rest: Bytes, chunk: Bytes)
    requires IsSegmentation(d, input, frames, rest) && StaysBelow(d, cap, input)
    requires data == rest + chunk && |data| <= cap && input' == input + chunk
    ensures IsSegmentation(d, input', frames + Frames(d, data), Tail(d, data))
    ensures StaysBelow(d, cap, input')
  {
    SplitIsSegmentation(d, data);
    SegmentationContinues(d, input, frames, rest, chunk, Frames(d, data), Tail(d, data));
    StaysBelowIffFits(d, cap, input, frames, rest);
    forall f | f in Frames(d, data) ensures |f| <= cap {
      PartBound(Frames(d, data), f);
    }
    TailShorter(d, data);
    StaysBelowIffFits(d, cap, input', frames + Frames(d, data), Tail(d, data));
  }

  lemma {:induction false} IterateSplits(s: Schedule, cap: nat, d: byte, fd: int, w: Worker)
    requires cap <= INT_MAX && Splits(d, fd, cap, w)
    ensures Splits(d, fd, cap, Iterate(s, cap, OneDelimiter(d, fd), w))
  {
    var hs := OneDelimiter(d, fd);
    if w.status == Running {
      var f := BQ.Fill(s, cap, w.queue);
      if f.result.Ok? {
        var chunk := f.queue.data[|w.queue.data|..];
        assert w.queue.data + chunk == f.queue.data;
        DelimiterWellBehaved(d, fd, cap);
        ExclusiveRefinement(hs, cap, f.queue.data, w.pops);
        SplitsChunk(d, fd, cap, w, chunk, Iterate(s, cap, hs, w));
      }
    }
  }

  lemma {:induction false} SplitsSays(d: byte, fd: int, cap: nat, w: Worker)
    requires Splits(d, fd, cap, w)
    ensures |w.queue.data| <= cap && |Tail(d, w.queue.net.taken)| == |w.queue.data| && !w.status.Crashed?
    ensures StaysBelow(d, cap, w.queue.net.taken)
    ensures IsSegmentation(d, w.queue.net.taken, BytesOf(w.pops), w.queue.data)
  {
    hide Tail, IsSegmentation, BytesOf;
    RestIsTail(d, w.queue.net.taken, BytesOf(w.pops), w.queue.data);
  }

  lemma {:induction false} WorkerSplits(s: Schedule, cap: nat, d: byte, fd: int, w: Worker, rounds: nat)
    requires cap <= INT_MAX && Splits(d, fd, cap, w)
    ensures Splits(d, fd, cap, Run(s, cap, OneDelimiter(d, fd), w, rounds))
    decreases rounds
  {
    hide *;
    SplitsSays(d, fd, cap, w);
    if rounds == 0 {
      RunNothing(s, cap, OneDelimiter(d, fd), w);
    } else {
      IterateSplits(s, cap, d, fd, w);
      RunStep(s, cap, OneDelimiter(d, fd), w, rounds);
      WorkerSplits(s, cap, d, fd, Iterate(s, cap, OneDelimiter(d, fd), w), rounds - 1);
    }
  }
}
