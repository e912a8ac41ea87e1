/** `ConditionalBufferedStream`: handlers, per-fd queues and eventfds over a buffered stream. Each
    method is proved against the dispatcher, worker and hand-off functions. */
module ConditionalBufferedStreams {
  import opened Basics
  import opened Network
  import BQ = ByteQueue
  import Dispatcher
  import opened Streams
  import opened BufferedStreams
  import Worker
  import Handoff

  /** The pops that were delivered, in time order; negative answers only discard. */
  function PushesOf(pops: seq<Dispatcher.Pop>): seq<Handoff.Push> {
    if pops == [] then [] else
      var last := pops[|pops| - 1];
      PushesOf(pops[..|pops| - 1])
      + if last.answer > 0 then [Handoff.Push(last.fd, last.bytes)] else []
  }

  /** Everything ever queued for `fd`. */
  function SegmentsOf(pops: seq<Dispatcher.Pop>, fd: int): seq<Bytes> {
    Handoff.SegmentsFor(PushesOf(pops), fd)
  }

  lemma {:induction false} SegmentsOfSnoc(pops: seq<Dispatcher.Pop>, p: Dispatcher.Pop, fd: int)
    ensures SegmentsOf(pops + [p], fd)
         == SegmentsOf(pops, fd) + if p.answer > 0 && p.fd == fd then [p.bytes] else []
  {
    assert (pops + [p])[..|pops|] == pops;
    var push := Handoff.Push(p.fd, p.bytes);
    if p.answer > 0 {
      var before := PushesOf(pops);
      assert (before + [push])[..|before|] == before;
    } else {
      assert PushesOf(pops) + [] == PushesOf(pops);
    }
  }

  lemma {:induction false} NeverPopped(pops: seq<Dispatcher.Pop>, fd: int)
    requires forall p | p in pops :: p.fd != fd
    ensures SegmentsOf(pops, fd) == []
  {
    if pops != [] {
      var front, last := pops[..|pops| - 1], pops[|pops| - 1];
      NeverPopped(front, fd);
      SegmentsOfSnoc(front, last, fd);
      assert front + [last] == pops;
    }
  }

  /** A pop that is queued exactly if it was delivered keeps every fd's account. */
  lemma {:induction false} AccountForPop(pops: seq<Dispatcher.Pop>, p: Dispatcher.Pop,
                                         received: map<int, seq<Bytes>>, received': map<int, seq<Bytes>>,
                                         tokens: map<int, nat>, tokens': map<int, nat>,
                                         delivered: map<int, seq<Bytes>>)
    requires p.fd in received && received.Keys == tokens.Keys == delivered.Keys
    requires forall fd | fd in received :: delivered[fd] + received[fd] == SegmentsOf(pops, fd)
    requires received' == if p.answer > 0 then received[p.fd := received[p.fd] + [p.bytes]] else received
    requires tokens' == if p.answer > 0 then tokens[p.fd := tokens[p.fd] + 1] else tokens
    ensures forall fd | fd in received ::
              && delivered[fd] + received'[fd] == SegmentsOf(pops + [p], fd)
              && tokens'[fd] - |SegmentsOf(pops + [p], fd)| == tokens[fd] - |SegmentsOf(pops, fd)|
  {
    forall fd | fd in received
      ensures delivered[fd] + received'[fd] == SegmentsOf(pops + [p], fd)
      ensures tokens'[fd] - |SegmentsOf(pops + [p], fd)| == tokens[fd] - |SegmentsOf(pops, fd)|
    {
      SegmentsOfSnoc(pops, p, fd);
      hide SegmentsOf;
      if p.answer > 0 && fd == p.fd {
        Assoc(delivered[fd], received[fd], [p.bytes]);
      }
    }
  }

  /** `poll` on one descriptor: -1 or no POLLIN, nothing until the timeout, or POLLIN. */
  datatype PollAnswer = Fails | TimesOut | Readable

  class ConditionalBufferedStream {
    const stream: BufferedStream
    var handlers: seq<Dispatcher.Handler>
    var received: map<int, seq<Bytes>>   // received_data_per_condition
    var tokens: map<int, nat>            // value of each handler's eventfd
    var lastEx: Option<Error>            // None is SOCKET_OK
    var terminationRequested: bool
    ghost var pops: seq<Dispatcher.Pop>          // every pop so far, in time order
    ghost var delivered: map<int, seq<Bytes>>    // what `read` has returned, per fd

    ghost predicate Valid()
      reads this, stream
    {
      && stream.Valid()
      && DistinctFds(handlers)
      && (forall h | h in handlers :: h.fd in received)
      && received.Keys == tokens.Keys == delivered.Keys
      && (forall p | p in pops :: p.fd in received)
      && (forall fd | fd in received :: delivered[fd] + received[fd] == SegmentsOf(pops, fd))
    }

    static ghost predicate DistinctFds(hs: seq<Dispatcher.Handler>) {
      forall i, j | 0 <= i < j < |hs| :: hs[i].fd != hs[j].fd
    }

    /** Tokens ever posted for `fd` beyond one per queued segment, less those taken. */
    ghost function Surplus(fd: int): int
      requires fd in tokens
      reads this
    {
      tokens[fd] - |SegmentsOf(pops, fd)|
    }

    constructor (stream: BufferedStream)
      requires stream.Valid()
      ensures Valid() && this.stream == stream && handlers == [] && received == map[] && tokens == map[]
      ensures lastEx == None && !terminationRequested && pops == [] && delivered == map[]
    {
      this.stream := stream;
      handlers, received, tokens := [], map[], map[];
      lastEx, terminationRequested := None, false;
      pops, delivered := [], map[];
    }

    /** `fd` is the fresh descriptor that eventfd returned. */
    method CreateEventfdOnCondition(condition: Dispatcher.Condition, fd: int)
      requires Valid() && fd !in received
      modifies this`handlers, this`received, this`tokens, this`delivered
      ensures Valid() && handlers == old(handlers) + [Dispatcher.Handler(condition, fd)]
      ensures received == old(received)[fd := []] && tokens == old(tokens)[fd := 0]
      ensures delivered == old(delivered)[fd := []]
    {
      NeverPopped(pops, fd);
      hide SegmentsOf;
      handlers := handlers + [Dispatcher.Handler(condition, fd)];
      received, tokens, delivered := received[fd := []], tokens[fd := 0], delivered[fd := []];
    }

    /** The live buffer and the pops, as the dispatcher sees them. */
    ghost function Live(): Dispatcher.State
      requires stream.Valid()
      reads this, stream, stream.stream, stream.streamBuffer
    {
      Dispatcher.State(stream.View().data, pops, None)
    }

    /** Queues a positive answer's segment and posts its token; a negative answer's bytes are gone. */
    method Record(h: Dispatcher.Handler, n: int, bytes: Bytes)
      requires Valid() && h in handlers
      modifies this`received, this`tokens, this`pops
      ensures Valid() && pops == old(pops) + [Dispatcher.Pop(h.fd, n, bytes)]
      ensures tokens.Keys == old(tokens.Keys)
      ensures forall fd | fd in tokens :: Surplus(fd) == old(Surplus(fd))
    {
      hide SegmentsOf;
      ghost var before := pops;
      pops := pops + [Dispatcher.Pop(h.fd, n, bytes)];
      if n > 0 {
        received := received[h.fd := received[h.fd] + [bytes]];
        tokens := tokens[h.fd := tokens[h.fd] + 1];
      }
      AccountForPop(before, pops[|before|], old(received), received, old(tokens), tokens, delivered);
    }

    /** Pops for a handler that answered `n`, queues the segment and posts its token. */
    method TakeFor(h: Dispatcher.Handler, n: int, data: Bytes) returns (failure: Option<Error>)
      requires Valid() && h in handlers && n != 0
      modifies this`received, this`tokens, this`pops, stream, stream.streamBuffer
      ensures Valid()
      ensures Live().(failure := failure) == Dispatcher.Fire(h, n, data, old(Live()))
      ensures tokens.Keys == old(tokens.Keys)
      ensures forall fd | fd in tokens :: Surplus(fd) == old(Surplus(fd))
    {
      hide SegmentsOf;
      if Abs(n) > |data| {
        return Some(ConditionOverread);
      }
      var readData := stream.PopFromBuffer(Abs(n));
      if readData.Err? {
        return Some(readData.error);
      }
      Record(h, n, readData.value);
      return None;
    }

    method ProcessDataSendSignals(data: Bytes) returns (failure: Option<Error>)
      requires Valid()
      modifies this`received, this`tokens, this`pops, stream, stream.streamBuffer
      ensures Valid()
      ensures Live().(failure := failure) == Dispatcher.Loop(handlers, 0, data, old(Live()))
      ensures tokens.Keys == old(tokens.Keys)
      ensures forall fd | fd in tokens :: Surplus(fd) == old(Surplus(fd))
      decreases |data|
    {
      if data == [] {
        return None;
      }
      hide SegmentsOf;
      for i := 0 to |handlers|
        invariant Valid()
        invariant Dispatcher.Loop(handlers, i, data, Live()) == Dispatcher.Loop(handlers, 0, data, old(Live()))
        invariant tokens.Keys == old(tokens.Keys)
        invariant forall fd | fd in tokens :: Surplus(fd) == old(Surplus(fd))
      {
        var bytesReadByCondition := handlers[i].condition(data);
        if bytesReadByCondition != 0 {
          failure := TakeFor(handlers[i], bytesReadByCondition, data);
          if failure.Some? {
            return failure;
          }
          failure := ProcessDataSendSignals(data[Abs(bytesReadByCondition)..]);
          if failure.Some? {
            return failure;
          }
        }
      }
      return None;
    }

    /** Closing notices for `fd`: one if the worker ended on an error and `fd` has a handler. */
    ghost function Notice(status: Worker.Status, fd: int): nat
      reads this`handlers
    {
      if status.Ended? && (exists h :: h in handlers && h.fd == fd) then 1 else 0
    }

    /** The first `rounds` rounds of the worker's endless loop, and what follows if it is left. */
    method ConditionalBufferWorker(rounds: nat) returns (status: Worker.Status)
      requires Valid()
      modifies this`received, this`tokens, this`pops, this`lastEx, stream, stream.stream`net, stream.streamBuffer
      ensures Valid()
      ensures Worker.Worker(stream.View(), pops, status)
           == Worker.Run(stream.stream.schedule, stream.streamBuffer.Length, handlers,
                         Worker.Worker(old(stream.View()), old(pops), Worker.Running), rounds)
      ensures lastEx == if status.Ended? then Some(status.error) else old(lastEx)
      ensures tokens.Keys == old(tokens.Keys)
      ensures forall fd | fd in tokens :: Surplus(fd) == old(Surplus(fd)) + Notice(status, fd)
    {
      hide Worker.Run, Worker.Iterate, SegmentsOf, Notice;
      ghost var s, cap := stream.stream.schedule, stream.streamBuffer.Length;
      ghost var start := Worker.Worker(stream.View(), pops, Worker.Running);
      for round := 0 to rounds
        invariant Valid() && lastEx == old(lastEx)
        invariant Worker.Run(s, cap, handlers, Worker.Worker(stream.View(), pops, Worker.Running), rounds - round)
               == Worker.Run(s, cap, handlers, start, rounds)
        invariant tokens.Keys == old(tokens.Keys)
        invariant forall fd | fd in tokens :: Surplus(fd) == old(Surplus(fd))
      {
        ghost var w := Worker.Worker(stream.View(), pops, Worker.Running);
        status := OneRound();
        Worker.RunStep(s, cap, handlers, w, rounds - round);
        if status != Worker.Running {
          Worker.RunStays(s, cap, handlers, Worker.Worker(stream.View(), pops, status), rounds - round - 1);
          Catch(status);
          return status;
        }
      }
      status := Worker.Running;
      Worker.RunNothing(s, cap, handlers, Worker.Worker(stream.View(), pops, status));
      Catch(status);
    }

    /** The catch clause: store the error and notify every handler, unless it was a stop request. */
    method Catch(status: Worker.Status)
      requires Valid()
      modifies this`tokens, this`lastEx
      ensures Valid()
      ensures lastEx == if status.Ended? then Some(status.error) else old(lastEx)
      ensures tokens.Keys == old(tokens.Keys)
      ensures forall fd | fd in tokens :: Surplus(fd) == old(Surplus(fd)) + Notice(status, fd)
    {
      hide SegmentsOf;
      if status.Ended? {
        lastEx := Some(status.error);
        NotifyAll();
      }
    }

    method OneRound() returns (status: Worker.Status)
      requires Valid()
      modifies this`received, this`tokens, this`pops, stream, stream.stream`net, stream.streamBuffer
      ensures Valid()
      ensures Worker.Worker(stream.View(), pops, status)
           == Worker.Iterate(stream.stream.schedule, stream.streamBuffer.Length, handlers,
                             Worker.Worker(old(stream.View()), old(pops), Worker.Running))
      ensures tokens.Keys == old(tokens.Keys)
      ensures forall fd | fd in tokens :: Surplus(fd) == old(Surplus(fd))
    {
      var filled := stream.ReadAvailableDataIntoBuffer();
      if filled.Err? {
        return Worker.StatusOf(filled.error);
      }
      var data := stream.streamBuffer[..stream.bufferWriteOffset];
      var failure := ProcessDataSendSignals(data);
      return if failure == None then Worker.Running else Worker.Crashed(failure.value);
    }

    /** Posts one token to every handler. */
    method NotifyAll()
      requires Valid()
      modifies this`tokens
      ensures Valid() && tokens.Keys == old(tokens.Keys)
      ensures forall fd | fd in tokens ::
                tokens[fd] == old(tokens[fd]) + if exists h :: h in handlers && h.fd == fd then 1 else 0
    {
      for i := 0 to |handlers|
        invariant tokens.Keys == old(tokens.Keys)
        invariant forall fd | fd in tokens ::
                    tokens[fd] == old(tokens[fd]) + if exists h :: h in handlers[..i] && h.fd == fd then 1 else 0
      {
        var fd := handlers[i].fd;
        tokens := tokens[fd := tokens[fd] + 1];
        assert handlers[..i + 1] == handlers[..i] + [handlers[i]];
        assert forall h | h in handlers[..i] :: h.fd != fd;
      }
      assert handlers[..|handlers|] == handlers;
    }

    method Read(fd: int) returns (r: Result<Bytes>)
      requires Valid()
      modifies this`received, this`delivered
      ensures Valid() && received.Keys == old(received.Keys)
      ensures fd !in old(received) ==>
                r == Err(InvalidCondition) && received == old(received) && delivered == old(delivered)
      ensures fd in old(received) ==>
                (r, received[fd]) == Handoff.ReadFront(old(received[fd]), lastEx)
                && delivered[fd] == old(delivered[fd]) + if r.Ok? then [r.value] else []
      ensures forall other | other in received && other != fd ::
                received[other] == old(received[other]) && delivered[other] == old(delivered[other])
    {
      if fd !in received {
        return Err(InvalidCondition);
      }
      if received[fd] != [] {
        var data := received[fd][0];
        Assoc(delivered[fd], [data], received[fd][1..]);
        assert [data] + received[fd][1..] == received[fd];
        delivered := delivered[fd := delivered[fd] + [data]];
        received := received[fd := received[fd][1..]];
        return Ok(data);
      }
      assert delivered[fd] + [] == delivered[fd];
      if lastEx != None {
        return Err(lastEx.value);
      } else {
        return Err(NoDataPresent);
      }
    }

    /** `answer` is what `poll` finds, as far as the eventfds do not decide it: it may fail on any
        descriptor, and one that is no handler's eventfd may time out or be readable. An eventfd of a
        handler is readable exactly when it holds a token. */
    method ReadBlocking(fd: int, answer: PollAnswer) returns (r: Result<Bytes>)
      requires Valid()
      modifies this`received, this`delivered, this`tokens
      ensures Valid() && received.Keys == old(received.Keys)
      ensures var readable := if fd in old(tokens) then old(tokens)[fd] > 0 else answer.Readable?;
              var timesOut := if fd in old(tokens) then old(tokens)[fd] == 0 else answer.TimesOut?;
              && (answer.Fails? ==> r == Err(ReadTimeout))
              && (!answer.Fails? && timesOut ==>
                    r == Err(if terminationRequested then TerminationRequest else PollFailed))
              && (!answer.Fails? && readable && fd !in old(received) ==> r == Err(InvalidCondition))
              && (answer.Fails? || !readable || fd !in old(received) ==>
                    received == old(received) && tokens == old(tokens) && delivered == old(delivered))
      ensures !answer.Fails? && fd in old(tokens) && old(tokens)[fd] > 0 ==>
                tokens == old(tokens)[fd := old(tokens)[fd] - 1] && fd in received
                && (r, received[fd]) == Handoff.ReadFront(old(received[fd]), lastEx)
                && delivered[fd] == old(delivered[fd]) + if r.Ok? then [r.value] else []
      ensures forall other | other in received && other != fd ::
                received[other] == old(received[other]) && delivered[other] == old(delivered[other])
    {
      if answer.Fails? {
        return Err(ReadTimeout);
      }
      if if fd in tokens then tokens[fd] == 0 else answer.TimesOut? {
        return Err(if terminationRequested then TerminationRequest else PollFailed);
      }
      if fd in tokens {
        tokens := tokens[fd := tokens[fd] - 1];
      }
      r := Read(fd);
    }

    /** Wakes the worker, not the readers: no eventfd of a handler is posted. */
    method StopReads()
      requires Valid()
      modifies this`terminationRequested, stream.stream`net
      ensures Valid() && terminationRequested
      ensures stream.stream.net == old(stream.stream.net).(stops := old(stream.stream.net.stops) + STOP_TOKENS)
    {
      terminationRequested := true;
      stream.stream.StopReads();
    }
  }
}
