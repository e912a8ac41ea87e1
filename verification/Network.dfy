/** The operating system as the stream sees it, and the loop of `Stream::read` as a function.

    A schedule says, for every `poll`, what happened until that `poll` returned. It is an arbitrary
    function, so a statement about all schedules covers every split of the incoming bytes and every
    pattern of faults, timeouts, stop requests and hang-ups. */
module Network {
  import opened Basics

  datatype Env = Env(
    arrival: Bytes,   // bytes that reached the socket before this poll returned
    hangup: bool,     // the peer closed its side
    stops: nat,       // tokens posted to the stop eventfd
    chunk: nat,       // how much the operating system would like to hand out at once
    pollFails: bool,  // poll returns -1
    readFails: bool   // the socket is in an error state: poll reports it, read returns -1
  )

  type Schedule = nat -> Env

  /** `bytes` arrive and are handed out in one piece. */
  function Piece(bytes: Bytes): Env {
    Env(bytes, false, 0, |bytes|, false, false)
  }

  datatype Net = Net(
    kernel: Bytes,  // received by the socket, not yet read
    hungUp: bool,
    stops: nat,     // value of the stop eventfd
    now: nat,       // polls made so far
    taken: Bytes    // everything ever read from the socket, in order
  )

  /** Everything the socket has received: read already, and not yet read. */
  function Received(n: Net): Bytes {
    n.taken + n.kernel
  }

  /** The socket at the moment the next `poll` returns. */
  function Advance(s: Schedule, n: Net): Net {
    var e := s(n.now);
    n.(kernel := n.kernel + e.arrival,
       hungUp := n.hungUp || e.hangup,
       stops := n.stops + e.stops,
       now := n.now + 1)
  }

  predicate SocketError(e: Error) {
    e in {PollFailed, ReadFailed, Closed, TerminationRequest, ReadTimeout}
  }

  datatype OsRead = OsRead(net: Net, result: Result<Bytes>)

  /** A short read hands out at least one byte if it can hand out any. */
  function Granted(chunk: nat, limit: nat): (k: nat)
    ensures k <= limit && (k == 0 <==> limit == 0)
  {
    if limit == 0 then 0 else if chunk == 0 then 1 else Min(chunk, limit)
  }

  /** One round of `Stream::read`: poll both descriptors, data before stop before timeout. A read of
      length zero returns 0 whatever the state of the socket, and the code takes that for "closed". */
  function Attempt(s: Schedule, n: Net, room: nat): (r: OsRead)
    ensures r.net.now == n.now + 1
    ensures r.net.stops == n.stops + s(n.now).stops
    ensures r.net.hungUp == (n.hungUp || s(n.now).hangup)
    ensures r.result.Ok? ==>
              1 <= |r.result.value| <= room && r.net.taken == n.taken + r.result.value
              && r.result.value + r.net.kernel == n.kernel + s(n.now).arrival
    ensures r.result.Err? ==>
              r.net.taken == n.taken && r.net.kernel == n.kernel + s(n.now).arrival
  {
    var e := s(n.now);
    var m := Advance(s, n);
    if e.pollFails then
      OsRead(m, Err(PollFailed))
    else if m.kernel != [] || m.hungUp || e.readFails then
      var k := Granted(e.chunk, Min(room, |m.kernel|));
      if room > 0 && e.readFails then OsRead(m, Err(ReadFailed))
      else if k == 0 then OsRead(m, Err(Closed))
      else OsRead(m.(kernel := m.kernel[k..], taken := m.taken + m.kernel[..k]), Ok(m.kernel[..k]))
    else if m.stops > 0 then
      OsRead(m, Err(TerminationRequest))
    else
      OsRead(m, Err(ReadTimeout))
  }

  /** `filled` is what has been written to the caller's buffer, whatever the result. */
  datatype Transfer = Transfer(net: Net, filled: Bytes, result: Result<nat>)

  /** The loop of `Stream::read`, entered with `filled` already in the caller's buffer. */
  function ReadLoop(s: Schedule, n: Net, max: nat, min: nat, filled: Bytes): (t: Transfer)
    requires |filled| <= max
    ensures filled <= t.filled && |t.filled| <= max
    ensures t.net.taken == n.taken + t.filled[|filled|..]
    ensures t.result.Ok? ==> t.result.value == |t.filled| && min <= |t.filled|
    ensures t.result.Err? ==> |t.filled| < min
    decreases min - |filled|
  {
    if |filled| >= min then
      Transfer(n, filled, Ok(|filled|))
    else
      var a := Attempt(s, n, max - |filled|);
      match a.result
      case Err(e) => Transfer(a.net, filled, Err(e))
      case Ok(bytes) =>
        assert (filled + bytes)[|filled|..] == bytes;
        var t := ReadLoop(s, a.net, max, min, filled + bytes);
        assert t.filled[|filled|..] == bytes + t.filled[|filled + bytes|..];
        t
  }

  lemma {:induction false} ReadLoopStep(s: Schedule, n: Net, max: nat, min: nat, filled: Bytes)
    requires |filled| <= max && |filled| < min
    ensures var a := Attempt(s, n, max - |filled|);
            ReadLoop(s, n, max, min, filled)
            == match a.result
               case Err(e) => Transfer(a.net, filled, Err(e))
               case Ok(bytes) => ReadLoop(s, a.net, max, min, filled + bytes)
  {
  }

  lemma {:induction false} ReadLoopDone(s: Schedule, n: Net, max: nat, min: nat, filled: Bytes)
    requires min <= |filled| <= max
    ensures ReadLoop(s, n, max, min, filled) == Transfer(n, filled, Ok(|filled|))
  {
  }

  /** The bytes that reached the socket during polls `from` to `to`. */
  function Arrived(s: Schedule, from: nat, to: nat): Bytes
    decreases to
  {
    if to <= from then [] else Arrived(s, from, to - 1) + s(to - 1).arrival
  }

  /** Between `n` and `m` the socket neither lost, invented nor reordered a byte. */
  ghost predicate Conserved(s: Schedule, n: Net, m: Net) {
    && n.now <= m.now
    && Received(n) + Arrived(s, n.now, m.now) == Received(m)
  }

  lemma {:induction false} ArrivedSplit(s: Schedule, a: nat, b: nat, c: nat)
    requires a <= b <= c
    ensures Arrived(s, a, c) == Arrived(s, a, b) + Arrived(s, b, c)
    decreases c
  {
    if b < c {
      ArrivedSplit(s, a, b, c - 1);
    }
  }

  lemma {:induction false} ConservedTwice(s: Schedule, a: Net, b: Net, c: Net)
    requires Conserved(s, a, b) && Conserved(s, b, c)
    ensures Conserved(s, a, c)
  {
    ArrivedSplit(s, a.now, b.now, c.now);
    Assoc(Received(a), Arrived(s, a.now, b.now), Arrived(s, b.now, c.now));
  }

  lemma {:induction false} AttemptConserves(s: Schedule, n: Net, room: nat)
    ensures Conserved(s, n, Attempt(s, n, room).net)
  {
    var a := Attempt(s, n, room);
    var arrival := s(n.now).arrival;
    OneArrival(s, n.now);
    hide Attempt, Arrived;
    Assoc(n.taken, n.kernel, arrival);
    if a.result.Ok? {
      Assoc(n.taken, a.result.value, a.net.kernel);
    }
  }

  /** What arrives in one piece and fits is read in one piece. */
  lemma {:induction false} AttemptPiece(s: Schedule, n: Net, room: nat, bytes: Bytes)
    requires bytes != [] && n.kernel == [] && |bytes| <= room && s(n.now) == Piece(bytes)
    ensures var a := Attempt(s, n, room);
            && a.result == Ok(bytes) && a.net.kernel == []
            && a.net.now == n.now + 1 && a.net.taken == n.taken + bytes
  {
    assert n.kernel + bytes == bytes;
    assert bytes[..|bytes|] == bytes && bytes[|bytes|..] == [];
  }

  lemma {:induction false} OneArrival(s: Schedule, t: nat)
    ensures Arrived(s, t, t + 1) == s(t).arrival
  {
    assert [] + s(t).arrival == s(t).arrival;
  }

  lemma {:induction false} ReadLoopConserves(s: Schedule, n: Net, max: nat, min: nat, filled: Bytes)
    requires |filled| <= max
    ensures Conserved(s, n, ReadLoop(s, n, max, min, filled).net)
    decreases min - |filled|
  {
    if |filled| < min {
      var a := Attempt(s, n, max - |filled|);
      AttemptConserves(s, n, max - |filled|);
      if a.result.Ok? {
        ReadLoopConserves(s, a.net, max, min, filled + a.result.value);
        ConservedTwice(s, n, a.net, ReadLoop(s, n, max, min, filled).net);
      }
    }
  }

  /** A read of at least one byte is one OS read: it returns that read's bytes or takes nothing. */
  lemma {:induction false} ReadOnce(s: Schedule, n: Net, max: nat)
    ensures var a := Attempt(s, n, max);
            ReadLoop(s, n, max, 1, [])
            == match a.result
               case Ok(bytes) => Transfer(a.net, bytes, Ok(|bytes|))
               case Err(e) => Transfer(a.net, [], Err(e))
  {
    var a := Attempt(s, n, max);
    if a.result.Ok? {
      assert [] + a.result.value == a.result.value;
      assert ReadLoop(s, n, max, 1, []) == ReadLoop(s, a.net, max, 1, a.result.value);
    }
  }

  /** A stop request or a timeout is reported only after every byte that has arrived was read; "closed"
      only when the peer hung up and everything was read, or when the caller's buffer has no room
      left; the other two errors only when the last poll or read failed. */
  lemma {:induction false} ReadErrors(s: Schedule, n: Net, max: nat, min: nat, filled: Bytes)
    requires |filled| <= max
    ensures var t := ReadLoop(s, n, max, min, filled);
            && (t.result == Err(TerminationRequest) ==> t.net.kernel == [] && t.net.stops > 0 && !t.net.hungUp)
            && (t.result == Err(ReadTimeout) ==> t.net.kernel == [] && t.net.stops == 0 && !t.net.hungUp)
            && (t.result == Err(Closed) ==> (t.net.kernel == [] && t.net.hungUp) || |t.filled| == max)
            && (t.result.Err? ==> SocketError(t.result.error) && n.now < t.net.now)
            && (t.result == Err(PollFailed) ==> s(t.net.now - 1).pollFails)
            && (t.result == Err(ReadFailed) ==> s(t.net.now - 1).readFails)
    decreases min - |filled|
  {
    if |filled| < min {
      var a := Attempt(s, n, max - |filled|);
      ReadLoopStep(s, n, max, min, filled);
      hide ReadLoop;
      if a.result.Ok? {
        ReadErrors(s, a.net, max, min, filled + a.result.value);
      }
    }
  }

  /** What poll and read must have found for a read of at most `room` bytes to end in this error. No two
      errors have a cause in common. */
  predicate Causes(e: Env, m: Net, room: nat, error: Error) {
    var nothing := m.kernel == [] && !m.hungUp && !e.readFails;
    match error
    case PollFailed => e.pollFails
    case ReadFailed => !e.pollFails && e.readFails && room > 0
    case Closed => !e.pollFails && if room == 0 then !nothing else m.kernel == [] && m.hungUp && !e.readFails
    case TerminationRequest => !e.pollFails && nothing && m.stops > 0
    case ReadTimeout => !e.pollFails && nothing && m.stops == 0
    case _ => false
  }

  /** A call for at least one byte, by what its poll finds: exactly when it throws which error, and
      otherwise how much it returns. */
  lemma {:induction false} OneReadExactly(s: Schedule, n: Net, max: nat)
    ensures var t := ReadLoop(s, n, max, 1, []);
            var e, m := s(n.now), Advance(s, n);
            && (forall error :: t.result == Err(error) <==> Causes(e, m, max, error))
            && (t.result.Ok? <==> !e.pollFails && !e.readFails && m.kernel != [] && max > 0)
            && (t.result.Ok? ==>
                  && t.filled <= m.kernel
                  && |t.filled| == if e.chunk == 0 then 1 else Min(e.chunk, Min(max, |m.kernel|)))
            && (t.result.Err? ==> t.filled == [] && t.net == m)
  {
    ReadOnce(s, n, max);
    hide ReadLoop;
  }

  /** A call for any number of bytes that throws, throws what its last poll causes. */
  lemma {:induction false} LastPollCauses(s: Schedule, n: Net, max: nat, min: nat, filled: Bytes)
    requires |filled| <= max
    ensures var t := ReadLoop(s, n, max, min, filled);
            t.result.Err? ==>
              n.now < t.net.now && Causes(s(t.net.now - 1), t.net, max - |t.filled|, t.result.error)
    decreases min - |filled|
  {
    hide ReadLoop;
    if |filled| >= min {
      ReadLoopDone(s, n, max, min, filled);
    } else {
      var a := Attempt(s, n, max - |filled|);
      ReadLoopStep(s, n, max, min, filled);
      if a.result.Ok? {
        LastPollCauses(s, a.net, max, min, filled + a.result.value);
      }
    }
  }

  /** Whatever a call asks for: if it returns, none of its polls and reads failed, and if it throws, none
      before the last. */
  lemma {:induction false} ReturnsWithoutFailure(s: Schedule, n: Net, max: nat, min: nat, filled: Bytes)
    requires |filled| <= max
    ensures var t := ReadLoop(s, n, max, min, filled);
            && n.now <= t.net.now
            && forall j | n.now <= j < (if t.result.Ok? then t.net.now else t.net.now - 1) ::
                 !s(j).pollFails && !s(j).readFails
    decreases min - |filled|
  {
    hide ReadLoop;
    if |filled| >= min {
      ReadLoopDone(s, n, max, min, filled);
    } else {
      var a := Attempt(s, n, max - |filled|);
      ReadLoopStep(s, n, max, min, filled);
      if a.result.Ok? {
        ReturnsWithoutFailure(s, a.net, max, min, filled + a.result.value);
      }
    }
  }

  // ---------------------------------------------------------------- a call, attempt by attempt

  /** The socket and what the caller has got, between two attempts. */
  datatype Point = Point(net: Net, filled: Bytes)

  /** After `k` attempts, each for all the room that is left. */
  function Attempts(s: Schedule, p: Point, max: nat, k: nat): (r: Point)
    requires |p.filled| <= max
    ensures |r.filled| <= max
  {
    if k == 0 then p else
      var before := Attempts(s, p, max, k - 1);
      var a := Attempt(s, before.net, max - |before.filled|);
      Point(a.net, if a.result.Ok? then before.filled + a.result.value else before.filled)
  }

  lemma {:induction false} AttemptsStep(s: Schedule, p: Point, max: nat, k: nat)
    requires |p.filled| <= max
    ensures Attempts(s, p, max, 0) == p
    ensures Attempts(s, p, max, k + 1) == Attempts(s, Attempts(s, p, max, 1), max, k)
    decreases k
  {
    hide Attempt;
    if k > 0 {
      AttemptsStep(s, p, max, k - 1);
    }
  }

  /** The call makes exactly `k` attempts that hand out bytes, each with less than `min` bytes so far; then
      it returns because `min` bytes are there, or throws what the next attempt throws. */
  ghost predicate EndsAfter(s: Schedule, p: Point, max: nat, min: nat, k: nat, t: Transfer)
    requires |p.filled| <= max
  {
    var last := Attempts(s, p, max, k);
    && (forall j: nat | j < k ::
          var before := Attempts(s, p, max, j);
          |before.filled| < min && Attempt(s, before.net, max - |before.filled|).result.Ok?)
    && if |last.filled| >= min then t == Transfer(last.net, last.filled, Ok(|last.filled|)) else
         var a := Attempt(s, last.net, max - |last.filled|);
         a.result.Err? && t == Transfer(a.net, last.filled, Err(a.result.error))
  }

  lemma {:induction false} ReadLoopExactly(s: Schedule, n: Net, max: nat, min: nat, filled: Bytes) returns (k: nat)
    requires |filled| <= max
    ensures EndsAfter(s, Point(n, filled), max, min, k, ReadLoop(s, n, max, min, filled))
    decreases min - |filled|
  {
    hide Attempt, ReadLoop, Attempts;
    var p := Point(n, filled);
    AttemptsStep(s, p, max, 0);
    if |filled| >= min {
      ReadLoopDone(s, n, max, min, filled);
      k := 0;
    } else {
      ReadLoopStep(s, n, max, min, filled);
      var a := Attempt(s, n, max - |filled|);
      if a.result.Err? {
        k := 0;
      } else {
        OneAttempt(s, p, max);
        var more := ReadLoopExactly(s, a.net, max, min, filled + a.result.value);
        k := more + 1;
        AttemptsStep(s, p, max, more);
        forall j: nat | j < k
          ensures var before := Attempts(s, p, max, j);
                  |before.filled| < min && Attempt(s, before.net, max - |before.filled|).result.Ok?
        {
          if j > 0 {
            AttemptsStep(s, p, max, j - 1);
          }
        }
      }
    }
  }

  lemma {:induction false} OneAttempt(s: Schedule, p: Point, max: nat)
    requires |p.filled| <= max
    ensures var a := Attempt(s, p.net, max - |p.filled|);
            Attempts(s, p, max, 1)
            == Point(a.net, if a.result.Ok? then p.filled + a.result.value else p.filled)
  {
    hide Attempt;
    assert Attempts(s, p, max, 0) == p;
  }

  /** A call that throws has taken nothing from the socket, whatever the schedule. */
  ghost predicate FailuresTakeNothing(max: nat, min: nat) {
    forall s: Schedule, n: Net | ReadLoop(s, n, max, min, []).result.Err? ::
      ReadLoop(s, n, max, min, []).net.taken == n.taken
  }

  /** `Stream::read` can lose bytes in an exception exactly if more than one byte is asked for. */
  lemma {:induction false} FailuresTakeNothingIff(max: nat, min: nat)
    ensures FailuresTakeNothing(max, min) <==> min <= 1 || max == 0
  {
    if min <= 1 || max == 0 {
      forall s: Schedule, n: Net | ReadLoop(s, n, max, min, []).result.Err?
        ensures ReadLoop(s, n, max, min, []).net.taken == n.taken
      {
        assert ReadLoop(s, n, max, min, []).filled == [];
      }
    } else {
      var s: Schedule := (t: nat) => Env(if t == 0 then [0] else [], false, 0, 1, false, false);
      var n := Net([], false, 0, 0, []);
      var first := Attempt(s, n, max);
      var one: Bytes := [0];
      assert Advance(s, n).kernel == one && one[..1] == one && one[1..] == [];
      assert first.net.kernel == [] && first.result == Ok([0]);
      var second := Attempt(s, first.net, max - 1);
      assert second.result == Err(ReadTimeout);
      ReadLoopStep(s, n, max, min, []);
      ReadLoopStep(s, first.net, max, min, [0]);
      assert ReadLoop(s, n, max, min, []) == Transfer(second.net, [0], Err(ReadTimeout));
    }
  }
}
