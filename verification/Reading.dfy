/** Calls of `Stream::read` whose attempts interleave: the read lock is released after every attempt, so
    several threads may take turns at one socket. */
module Reading {
  import opened Basics
  import opened Network
  import opened Shares

  /** A call of `Stream::read`: its arguments, what it has put into its caller's buffer, and how it
      ended, if it has. */
  datatype Reader = Reader(max: nat, min: nat, filled: Bytes, outcome: Option<Result<nat>>)

  /** The loop head is tested first: a call that asks for nothing returns at once. */
  function Start(max: nat, min: nat): Reader {
    Reader(max, min, [], if min == 0 then Some(Ok(0)) else None)
  }

  /** A return means at least `min` bytes and counts them; a throw or a call still running, fewer. */
  ghost predicate Truthful(r: Reader) {
    && |r.filled| <= r.max
    && match r.outcome
       case None => |r.filled| < r.min
       case Some(Ok(k)) => k == |r.filled| && r.min <= k
       case Some(Err(e)) => |r.filled| < r.min && SocketError(e)
  }

  /** One attempt, made while the read lock is held. */
  function Round(r: Reader, a: OsRead): Reader {
    match a.result
    case Err(e) => r.(outcome := Some(Err(e)))
    case Ok(bytes) =>
      var filled := r.filled + bytes;
      r.(filled := filled, outcome := if |filled| >= r.min then Some(Ok(|filled|)) else None)
  }

  lemma {:induction false} RoundStaysTruthful(s: Schedule, n: Net, r: Reader)
    requires Truthful(r) && r.outcome == None
    ensures var a := Attempt(s, n, r.max - |r.filled|); Truthful(Round(r, a))
  {
  }

  /** A round is one unfolding of `ReadLoop`. */
  lemma {:induction false} RoundUnfolds(s: Schedule, n: Net, r: Reader)
    requires Truthful(r) && r.outcome == None
    ensures var a := Attempt(s, n, r.max - |r.filled|);
            var next := Round(r, a);
            ReadLoop(s, n, r.max, r.min, r.filled)
            == if next.outcome.Some? then Transfer(a.net, next.filled, next.outcome.value)
               else ReadLoop(s, a.net, next.max, next.min, next.filled)
  {
    hide ReadLoop, Attempt;
    var a := Attempt(s, n, r.max - |r.filled|);
    ReadLoopStep(s, n, r.max, r.min, r.filled);
    if a.result.Ok? && |r.filled + a.result.value| >= r.min {
      ReadLoopDone(s, a.net, r.max, r.min, r.filled + a.result.value);
    }
  }

  // ---------------------------------------------------------------- interleaved calls

  /** `owner[i]` is the call that took the i-th byte ever read from the socket. */
  datatype Shared = Shared(net: Net, owner: seq<nat>, readers: map<nat, Reader>)

  datatype Action =
    | Call(id: nat, max: nat, min: nat)  // a thread enters `Stream::read`
    | Turn(id: nat)                      // it gets the lock for one attempt

  function Step(s: Schedule, x: Shared, a: Action): Shared
    requires Merged(x)
  {
    match a
    case Call(id, max, min) =>
      if id in x.readers then x else x.(readers := x.readers[id := Start(max, min)])
    case Turn(id) =>
      if id !in x.readers || x.readers[id].outcome != None then x else
        var r := x.readers[id];
        var read := Attempt(s, x.net, r.max - |r.filled|);
        Shared(read.net, x.owner + seq(|read.net.taken| - |x.net.taken|, _ => id), x.readers[id := Round(r, read)])
  }

  /** Each call holds, in order, exactly the bytes that it took off the socket. */
  ghost predicate Merged(x: Shared) {
    && |x.net.taken| == |x.owner|
    && (forall i | 0 <= i < |x.owner| :: x.owner[i] in x.readers)
    && (forall id | id in x.readers :: Accounted(x.net.taken, x.owner, id, x.readers[id]))
  }

  ghost predicate Accounted(taken: Bytes, owner: seq<nat>, id: nat, r: Reader)
    requires |taken| == |owner|
  {
    Truthful(r) && Share(taken, owner, id) == r.filled
  }

  lemma {:induction false} CallKeepsMerged(x: Shared, id: nat, max: nat, min: nat)
    requires Merged(x) && id !in x.readers
    ensures Merged(x.(readers := x.readers[id := Start(max, min)]))
  {
    NotAnOwner(x.net.taken, x.owner, id);
    assert Accounted(x.net.taken, x.owner, id, Start(max, min));
    hide Accounted;
  }

  lemma {:induction false} AccountAfterTurn(x: Shared, id: nat, more: Bytes, after: Reader, other: nat)
    requires Merged(x) && id in x.readers && other in x.readers
    requires Truthful(after) && after.filled == x.readers[id].filled + more
    ensures Accounted(x.net.taken + more, x.owner + seq(|more|, _ => id), other,
                      if other == id then after else x.readers[other])
  {
    hide Share;
    ShareGrows(x.net.taken, x.owner, more, id, other);
    assert Accounted(x.net.taken, x.owner, other, x.readers[other]);
    assert x.readers[other].filled + [] == x.readers[other].filled;
  }

  /** What the attempt of call `id` takes. */
  function Gain(s: Schedule, x: Shared, id: nat): Bytes
    requires Merged(x) && id in x.readers
  {
    var r := x.readers[id];
    var read := Attempt(s, x.net, r.max - |r.filled|);
    if read.result.Ok? then read.result.value else []
  }

  lemma {:induction false} MergedSays(x: Shared, id: nat)
    requires Merged(x) && id in x.readers
    ensures Truthful(x.readers[id]) && |x.readers[id].filled| <= x.readers[id].max
  {
    hide Share;
    assert Accounted(x.net.taken, x.owner, id, x.readers[id]);
  }

  lemma {:induction false} TurnStep(s: Schedule, x: Shared, id: nat)
    requires Merged(x) && id in x.readers && x.readers[id].outcome == None
    requires |x.readers[id].filled| <= x.readers[id].max
    ensures var r := x.readers[id];
            var read := Attempt(s, x.net, r.max - |r.filled|);
            Step(s, x, Turn(id))
            == Shared(read.net, x.owner + seq(|read.net.taken| - |x.net.taken|, _ => id),
                      x.readers[id := Round(r, read)])
  {
    hide Merged, Attempt, Round;
  }

  lemma {:induction false} RoundFills(s: Schedule, n: Net, r: Reader)
    requires |r.filled| <= r.max
    ensures var a := Attempt(s, n, r.max - |r.filled|);
            var more := if a.result.Ok? then a.result.value else [];
            a.net.taken == n.taken + more && Round(r, a).filled == r.filled + more
  {
  }

  lemma {:induction false} TurnIs(s: Schedule, x: Shared, id: nat)
    requires Merged(x) && id in x.readers && x.readers[id].outcome == None
    ensures var after := Step(s, x, Turn(id));
            var more := Gain(s, x, id);
            && after.net.taken == x.net.taken + more && after.owner == x.owner + seq(|more|, _ => id)
            && after.readers == x.readers[id := after.readers[id]]
            && Truthful(after.readers[id]) && after.readers[id].filled == x.readers[id].filled + more
  {
    hide Merged, Step, Attempt, Round, Truthful;
    MergedSays(x, id);
    TurnStep(s, x, id);
    RoundStaysTruthful(s, x.net, x.readers[id]);
    RoundFills(s, x.net, x.readers[id]);
  }

  lemma {:induction false} TurnKeepsMerged(s: Schedule, x: Shared, id: nat)
    requires Merged(x) && id in x.readers && x.readers[id].outcome == None
    ensures Merged(Step(s, x, Turn(id)))
  {
    hide Step, Gain, Truthful, Accounted;
    var after, more := Step(s, x, Turn(id)), Gain(s, x, id);
    TurnIs(s, x, id);
    forall other | other in after.readers
      ensures Accounted(after.net.taken, after.owner, other, after.readers[other])
    {
      AccountAfterTurn(x, id, more, after.readers[id], other);
    }
  }

  lemma {:induction false} StepKeepsMerged(s: Schedule, x: Shared, a: Action)
    requires Merged(x)
    ensures Merged(Step(s, x, a)) && Conserved(s, x.net, Step(s, x, a).net)
  {
    match a
    case Call(id, max, min) =>
      assert Received(x.net) + [] == Received(x.net);
      if id !in x.readers {
        CallKeepsMerged(x, id, max, min);
      }
    case Turn(id) =>
      if id in x.readers && x.readers[id].outcome == None {
        TurnKeepsMerged(s, x, id);
        AttemptConserves(s, x.net, x.readers[id].max - |x.readers[id].filled|);
        hide *;
      } else {
        assert Received(x.net) + [] == Received(x.net);
      }
  }

  /** The socket and the calls after any interleaving of entries and attempts. */
  function Run(s: Schedule, actions: seq<Action>): (x: Shared)
    ensures Merged(x)
  {
    if actions == [] then Shared(Net([], false, 0, 0, []), [], map[]) else
      var before := Run(s, actions[..|actions| - 1]);
      StepKeepsMerged(s, before, actions[|actions| - 1]);
      Step(s, before, actions[|actions| - 1])
  }

  lemma {:induction false} RunConserves(s: Schedule, actions: seq<Action>)
    ensures Received(Run(s, actions).net) == Arrived(s, 0, Run(s, actions).net.now)
  {
    if actions != [] {
      var front := actions[..|actions| - 1];
      var before := Run(s, front);
      RunConserves(s, front);
      StepKeepsMerged(s, before, actions[|actions| - 1]);
      ArrivedSplit(s, 0, before.net.now, Run(s, actions).net.now);
    }
  }

  /** The bytes that arrived are an order-preserving merge of what the calls got, followed by what is
      unread; a return reports at least `min` bytes and counts them, a throwing call got fewer. */
  lemma {:induction false} ConcurrentReaders(s: Schedule, actions: seq<Action>, id: nat)
    requires id in Run(s, actions).readers
    ensures var x := Run(s, actions);
            var r := x.readers[id];
            && x.net.taken + x.net.kernel == Arrived(s, 0, x.net.now)
            && |x.net.taken| == |x.owner| && (forall i | 0 <= i < |x.owner| :: x.owner[i] in x.readers)
            && Share(x.net.taken, x.owner, id) == r.filled
            && |r.filled| <= r.max
            && (r.outcome == None ==> |r.filled| < r.min)
            && (r.outcome.Some? && r.outcome.value.Ok? ==> r.min <= |r.filled| == r.outcome.value.value)
            && (r.outcome.Some? && r.outcome.value.Err? ==> |r.filled| < r.min)
  {
    RunConserves(s, actions);
    assert Accounted(Run(s, actions).net.taken, Run(s, actions).owner, id, Run(s, actions).readers[id]);
  }

  // ---------------------------------------------------------------- a call that nobody interrupts

  /** `n` turns of call `id` in a row. */
  function Turns(s: Schedule, x: Shared, id: nat, n: nat): (y: Shared)
    requires Merged(x)
    ensures Merged(y)
    decreases n
  {
    if n == 0 then x else
      StepKeepsMerged(s, x, Turn(id));
      Turns(s, Step(s, x, Turn(id)), id, n - 1)
  }

  lemma {:induction false} TurnsSnoc(s: Schedule, x: Shared, id: nat, n: nat)
    requires Merged(x)
    ensures Turns(s, x, id, n + 1) == Step(s, Turns(s, x, id, n), Turn(id))
    decreases n
  {
    hide Merged, Step;
    StepKeepsMerged(s, x, Turn(id));
    if n > 0 {
      TurnsSnoc(s, Step(s, x, Turn(id)), id, n - 1);
    }
  }

  lemma {:induction false} RunSnoc(s: Schedule, actions: seq<Action>, a: Action)
    ensures Run(s, actions + [a]) == Step(s, Run(s, actions), a)
  {
    hide Step, Merged;
    assert (actions + [a])[..|actions|] == actions;
  }

  lemma {:induction false} RunTurns(s: Schedule, actions: seq<Action>, id: nat, n: nat)
    ensures Run(s, actions + seq(n, _ => Turn(id))) == Turns(s, Run(s, actions), id, n)
    decreases n
  {
    hide Run, Step, Merged;
    if n == 0 {
      assert actions + seq(n, _ => Turn(id)) == actions;
    } else {
      var front := actions + seq(n - 1, _ => Turn(id));
      assert actions + seq(n, _ => Turn(id)) == front + [Turn(id)];
      RunSnoc(s, front, Turn(id));
      hide Turns;
      RunTurns(s, actions, id, n - 1);
      TurnsSnoc(s, Run(s, actions), id, n - 1);
    }
  }

  lemma {:induction false} EndedStays(s: Schedule, x: Shared, id: nat, n: nat)
    requires Merged(x) && id in x.readers && x.readers[id].outcome.Some?
    ensures Turns(s, x, id, n) == x
    decreases n
  {
    if n > 0 {
      EndedStays(s, x, id, n - 1);
    }
  }

  /** Where `ReadLoop`, entered with what the call has got so far, leaves the caller. */
  function LoopEnd(s: Schedule, n: Net, r: Reader): Reader
    requires |r.filled| <= r.max
  {
    var t := ReadLoop(s, n, r.max, r.min, r.filled);
    Reader(r.max, r.min, t.filled, Some(t.result))
  }

  ghost predicate EndsAs(s: Schedule, x: Shared, id: nat, y: Shared)
    requires id in x.readers && |x.readers[id].filled| <= x.readers[id].max
  {
    var r := x.readers[id];
    && y.net == ReadLoop(s, x.net, r.max, r.min, r.filled).net
    && y.readers == x.readers[id := LoopEnd(s, x.net, r)]
  }

  lemma {:induction false} UpdatedTwice(m: map<nat, Reader>, id: nat, a: Reader, b: Reader)
    ensures m[id := a][id := b] == m[id := b]
  {
  }

  lemma {:induction false} RoundGains(s: Schedule, n: Net, r: Reader)
    requires |r.filled| <= r.max
    ensures var next := Round(r, Attempt(s, n, r.max - |r.filled|));
            next.outcome == None ==> |r.filled| < |next.filled|
  {
  }

  lemma {:induction false} OneTurn(s: Schedule, x: Shared, id: nat)
    requires Merged(x) && id in x.readers && x.readers[id].outcome == None
    ensures var r := x.readers[id];
            var y := Step(s, x, Turn(id));
            && Truthful(r) && |r.filled| <= r.max && Merged(y)
            && var a := Attempt(s, x.net, r.max - |r.filled|);
               && y.net == a.net && y.readers == x.readers[id := Round(r, a)]
               && Truthful(Round(r, a)) && (Round(r, a).outcome == None ==> |r.filled| < |Round(r, a).filled|)
  {
    hide *;
    StepKeepsMerged(s, x, Turn(id));
    MergedSays(x, id);
    TurnStep(s, x, id);
    RoundStaysTruthful(s, x.net, x.readers[id]);
    RoundGains(s, x.net, x.readers[id]);
  }

  lemma {:induction false} EndsAfterTurn(s: Schedule, x: Shared, id: nat, next: Shared, y: Shared)
    requires id in x.readers && Truthful(x.readers[id]) && x.readers[id].outcome == None
    requires var r := x.readers[id];
             var a := Attempt(s, x.net, r.max - |r.filled|);
             next.net == a.net && next.readers == x.readers[id := Round(r, a)] && Truthful(next.readers[id])
    requires next.readers[id].outcome.Some? ==> y == next
    requires next.readers[id].outcome == None ==> EndsAs(s, next, id, y)
    ensures EndsAs(s, x, id, y)
  {
    hide Attempt, ReadLoop, Round;
    RoundUnfolds(s, x.net, x.readers[id]);
    RoundKeepsArguments(x.readers[id], Attempt(s, x.net, x.readers[id].max - |x.readers[id].filled|));
    UpdatedTwice(x.readers, id, next.readers[id], LoopEnd(s, x.net, x.readers[id]));
  }

  lemma {:induction false} StillAsks(r: Reader)
    requires Truthful(r) && r.outcome == None
    ensures |r.filled| < r.min && |r.filled| <= r.max
  {
  }

  lemma {:induction false} RoundKeepsArguments(r: Reader, a: OsRead)
    ensures Round(r, a).max == r.max && Round(r, a).min == r.min
  {
  }

  lemma {:induction false} TurnsStep(s: Schedule, x: Shared, id: nat, n: nat)
    requires Merged(x) && 0 < n
    ensures Merged(Step(s, x, Turn(id))) && Turns(s, x, id, n) == Turns(s, Step(s, x, Turn(id)), id, n - 1)
  {
    hide Merged, Step;
    StepKeepsMerged(s, x, Turn(id));
  }

  lemma {:induction false} TurnsAreReadLoop(s: Schedule, x: Shared, id: nat, n: nat)
    requires Merged(x) && id in x.readers && x.readers[id].outcome == None && Truthful(x.readers[id])
    requires x.readers[id].min - |x.readers[id].filled| <= n
    ensures EndsAs(s, x, id, Turns(s, x, id, n))
    decreases n
  {
    hide *;
    var y := Step(s, x, Turn(id));
    StillAsks(x.readers[id]);
    OneTurn(s, x, id);
    TurnsStep(s, x, id, n);
    RoundKeepsArguments(x.readers[id], Attempt(s, x.net, x.readers[id].max - |x.readers[id].filled|));
    if y.readers[id].outcome.Some? {
      EndedStays(s, y, id, n - 1);
    } else {
      TurnsAreReadLoop(s, y, id, n - 1);
    }
    EndsAfterTurn(s, x, id, y, Turns(s, x, id, n));
  }

  /** After any interleaving, a call that has just entered or is still running and that nobody
      interrupts from then on is `ReadLoop`: as many turns as it asks for bytes end it with the bytes,
      the result and the socket that the loop gives. */
  lemma {:induction false} AloneIsReadLoop(s: Schedule, actions: seq<Action>, id: nat, n: nat)
    requires id in Run(s, actions).readers && Run(s, actions).readers[id].outcome == None
    requires Run(s, actions).readers[id].min - |Run(s, actions).readers[id].filled| <= n
    ensures var x, y := Run(s, actions), Run(s, actions + seq(n, _ => Turn(id)));
            var r := x.readers[id];
            && |r.filled| <= r.max
            && var t := ReadLoop(s, x.net, r.max, r.min, r.filled);
               && y.net == t.net
               && y.readers == x.readers[id := Reader(r.max, r.min, t.filled, Some(t.result))]
  {
    hide Run, Turns, Share, ReadLoop;
    var x := Run(s, actions);
    assert Accounted(x.net.taken, x.owner, id, x.readers[id]);
    RunTurns(s, actions, id, n);
    TurnsAreReadLoop(s, x, id, n);
  }

  // ---------------------------------------------------------------- calls from their start

  lemma {:induction false} EnteredIs(s: Schedule, x: Shared, id: nat, max: nat, min: nat)
    requires Merged(x) && id !in x.readers
    ensures Merged(Step(s, x, Call(id, max, min)))
    ensures Step(s, x, Call(id, max, min)).net == x.net
    ensures Step(s, x, Call(id, max, min)).readers == x.readers[id := Start(max, min)]
  {
    StepKeepsMerged(s, x, Call(id, max, min));
    hide Merged;
  }

  lemma {:induction false} StartAsks(max: nat, min: nat)
    ensures Start(max, min).filled == [] && Start(max, min).max == max && Start(max, min).min == min
    ensures Truthful(Start(max, min)) && (Start(max, min).outcome == None <==> 0 < min)
    ensures min == 0 ==> Start(max, min).outcome == Some(Ok(0))
  {
  }

  /** After any interleaving, a call that is entered and that nobody interrupts from then on is `ReadLoop`
      with an empty buffer, whatever it asks for. */
  lemma {:induction false} CallIsReadLoop(s: Schedule, actions: seq<Action>, id: nat, max: nat, min: nat, n: nat)
    requires id !in Run(s, actions).readers && min <= n
    ensures var x, y := Run(s, actions), Run(s, actions + [Call(id, max, min)] + seq(n, _ => Turn(id)));
            var t := ReadLoop(s, x.net, max, min, []);
            && y.net == t.net
            && y.readers == x.readers[id := Reader(max, min, t.filled, Some(t.result))]
  {
    hide *;
    var x := Run(s, actions);
    var entered := Run(s, actions + [Call(id, max, min)]);
    RunSnoc(s, actions, Call(id, max, min));
    EnteredIs(s, x, id, max, min);
    StartAsks(max, min);
    UpdatedTwice(x.readers, id, Start(max, min), LoopEnd(s, x.net, Start(max, min)));
    if min == 0 {
      RunTurns(s, actions + [Call(id, max, min)], id, n);
      EndedStays(s, entered, id, n);
      ReadLoopDone(s, x.net, max, min, []);
      StartDone(max);
    } else {
      AloneIsReadLoop(s, actions + [Call(id, max, min)], id, n);
      LoopEndIs(s, x.net, Start(max, min));
    }
  }

  lemma {:induction false} StartDone(max: nat)
    ensures Start(max, 0) == Reader(max, 0, [], Some(Ok(0)))
  {
  }

  lemma {:induction false} LoopEndIs(s: Schedule, n: Net, r: Reader)
    requires |r.filled| <= r.max
    ensures var t := ReadLoop(s, n, r.max, r.min, r.filled);
            LoopEnd(s, n, r) == Reader(r.max, r.min, t.filled, Some(t.result))
  {
    hide ReadLoop;
  }

  /** The arguments with which call `id` was entered, if it was. */
  function Entered(actions: seq<Action>, id: nat): Option<(nat, nat)> {
    if actions == [] then None else
      var last := actions[|actions| - 1];
      var before := Entered(actions[..|actions| - 1], id);
      if before == None && last.Call? && last.id == id then Some((last.max, last.min)) else before
  }

  lemma {:induction false} TurnKeepsArguments(s: Schedule, x: Shared, a: Action, id: nat)
    requires Merged(x)
    ensures var y := Step(s, x, a);
            && (id in x.readers ==> id in y.readers && y.readers[id].max == x.readers[id].max
                                    && y.readers[id].min == x.readers[id].min)
            && (id !in x.readers ==>
                  if a.Call? && a.id == id then id in y.readers && y.readers[id] == Start(a.max, a.min)
                  else id !in y.readers)
  {
    hide Share;
    if a.Turn? && a.id in x.readers {
      MergedSays(x, a.id);
      RoundKeepsArguments(x.readers[a.id], Attempt(s, x.net, x.readers[a.id].max - |x.readers[a.id].filled|));
    }
    hide Round, Attempt, Start;
  }

  /** In every interleaving each call works on the arguments it was entered with. */
  lemma {:induction false} ArgumentsStay(s: Schedule, actions: seq<Action>, id: nat)
    ensures var readers, entered := Run(s, actions).readers, Entered(actions, id);
            && (id in readers <==> entered.Some?)
            && (id in readers ==> (readers[id].max, readers[id].min) == entered.value)
  {
    if actions != [] {
      var front, last := actions[..|actions| - 1], actions[|actions| - 1];
      ArgumentsStay(s, front, id);
      TurnKeepsArguments(s, Run(s, front), last, id);
      hide Merged, Step;
    }
  }
}
