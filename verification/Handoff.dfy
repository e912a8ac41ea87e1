/** The hand-off between the worker and any number of readers, one lock-protected region or one
    eventfd operation per step, in every interleaving. */
module Handoff {
  import opened Basics

  /** `read(fd)` on a known fd: the front of the queue, else the stored error, else "no data". */
  function ReadFront(queue: seq<Bytes>, lastEx: Option<Error>): (r: (Result<Bytes>, seq<Bytes>))
    ensures r.0.Ok? <==> queue != []
    ensures r.0.Ok? ==> [r.0.value] + r.1 == queue
    ensures r.0.Err? ==> r.1 == queue
    ensures r.0.Err? && lastEx.Some? ==> r.0.error == lastEx.value
    ensures r.0 == Err(NoDataPresent) <==> queue == [] && (lastEx == None || lastEx == Some(NoDataPresent))
  {
    if queue != [] then (Ok(queue[0]), queue[1..])
    else if lastEx.Some? then (Err(lastEx.value), queue)
    else (Err(NoDataPresent), queue)
  }

  datatype Push = Push(fd: int, segment: Bytes)

  /** What the worker will do: push and post each segment in turn; then, if it ended on an error other
      than a termination request, store the error and post one closing notice per handler. Readers
      never influence the worker, so an arbitrary plan stands for an arbitrary worker. */
  datatype Plan = Plan(fds: seq<int>, pushes: seq<Push>, ending: Option<Error>)

  ghost predicate ValidPlan(p: Plan) {
    && (forall i, j | 0 <= i < j < |p.fds| :: p.fds[i] != p.fds[j])
    && (forall x | x in p.pushes :: x.fd in p.fds)
    && p.ending != Some(NoDataPresent)
  }

  datatype Pc =
    | Pushing(k: nat)  // about to push segment k, or done with all of them
    | Posting(k: nat)  // segment k is in its queue, its token is not posted yet
    | Closing(i: nat)  // the error is stored, the first i notices are posted
    | Over

  datatype System = System(
    pc: Pc,
    queues: map<int, seq<Bytes>>,
    tokens: map<int, nat>,       // eventfd values
    lastEx: Option<Error>,
    holding: map<nat, int>,      // readers that took a token of an fd and have not read yet
    delivered: map<int, seq<Bytes>>,
    thrown: map<int, nat>,       // how often a reader of this fd got the stored error
    noData: bool                 // some reader got "no data present yet"
  )

  datatype Action =
    | Work                        // the worker's next step
    | Take(reader: nat, fd: int)  // poll says readable, then one token is read
    | Finish(reader: nat)         // the reader's `read(fd)`

  function Initially(p: Plan): System {
    var empty := map fd | fd in p.fds :: [];
    var zero := map fd | fd in p.fds :: 0;
    System(Pushing(0), empty, zero, None, map[], empty, zero, false)
  }

  ghost predicate PcFits(p: Plan, pc: Pc) {
    match pc
    case Pushing(k) => k <= |p.pushes|
    case Posting(k) => k < |p.pushes|
    case Closing(i) => i <= |p.fds|
    case Over => true
  }

  ghost predicate Typed(p: Plan, s: System) {
    && (forall fd | fd in p.fds :: fd in s.queues && fd in s.tokens && fd in s.delivered && fd in s.thrown)
    && (forall r | r in s.holding :: s.holding[r] in p.fds)
    && PcFits(p, s.pc)
  }

  function WorkStep(p: Plan, s: System): System
    requires ValidPlan(p) && Typed(p, s)
  {
    match s.pc
    case Pushing(k) =>
      if k < |p.pushes| then
        var x := p.pushes[k];
        s.(pc := Posting(k), queues := s.queues[x.fd := s.queues[x.fd] + [x.segment]])
      else if p.ending == None then s.(pc := Over)
      else s.(pc := Closing(0), lastEx := p.ending)
    case Posting(k) =>
      var fd := p.pushes[k].fd;
      s.(pc := Pushing(k + 1), tokens := s.tokens[fd := s.tokens[fd] + 1])
    case Closing(i) =>
      if i < |p.fds| then
        var fd := p.fds[i];
        s.(pc := Closing(i + 1), tokens := s.tokens[fd := s.tokens[fd] + 1])
      else s.(pc := Over)
    case Over => s
  }

  function TakeStep(p: Plan, s: System, reader: nat, fd: int): System
    requires Typed(p, s)
  {
    if reader in s.holding || fd !in p.fds || s.tokens[fd] == 0 then s
    else s.(tokens := s.tokens[fd := s.tokens[fd] - 1], holding := s.holding[reader := fd])
  }

  function FinishStep(p: Plan, s: System, reader: nat): System
    requires Typed(p, s)
  {
    if reader !in s.holding then s else
      var fd := s.holding[reader];
      var r := ReadFront(s.queues[fd], s.lastEx);
      var t := s.(holding := s.holding - {reader}, queues := s.queues[fd := r.1]);
      match r.0
      case Ok(segment) => t.(delivered := t.delivered[fd := t.delivered[fd] + [segment]])
      case Err(NoDataPresent) => t.(noData := true)
      case Err(_) => t.(thrown := t.thrown[fd := t.thrown[fd] + 1])
  }

  /** An action that is not enabled changes nothing, so every list of actions is a run. */
  function Step(p: Plan, s: System, a: Action): System
    requires ValidPlan(p) && Typed(p, s)
  {
    match a
    case Work => WorkStep(p, s)
    case Take(reader, fd) => TakeStep(p, s, reader, fd)
    case Finish(reader) => FinishStep(p, s, reader)
  }

  // ---------------------------------------------------------------- the invariant

  /** The segments pushed for one fd, in order. */
  function SegmentsFor(pushes: seq<Push>, fd: int): seq<Bytes> {
    if pushes == [] then [] else
      var last := pushes[|pushes| - 1];
      SegmentsFor(pushes[..|pushes| - 1], fd) + if last.fd == fd then [last.segment] else []
  }

  /** How many segments have been pushed so far. */
  function Pushed(p: Plan, pc: Pc): (k: nat)
    requires match pc case Pushing(k) => k <= |p.pushes| case Posting(k) => k < |p.pushes| case _ => true
    ensures k <= |p.pushes|
  {
    match pc
    case Pushing(k) => k
    case Posting(k) => k + 1
    case _ => |p.pushes|
  }

  function Unposted(p: Plan, pc: Pc, fd: int): nat
    requires pc.Posting? ==> pc.k < |p.pushes|
  {
    if pc.Posting? && p.pushes[pc.k].fd == fd then 1 else 0
  }

  /** Closing notices posted for `fd`. */
  function Notices(p: Plan, pc: Pc, fd: int): nat
    requires pc.Closing? ==> pc.i <= |p.fds|
  {
    match pc
    case Closing(i) => if fd in p.fds[..i] then 1 else 0
    case Over => if p.ending.Some? && fd in p.fds then 1 else 0
    case _ => 0
  }

  function Holders(holding: map<nat, int>, fd: int): set<nat> {
    set r | r in holding && holding[r] == fd
  }

  /** Queued segments and undelivered notices are matched by tokens, tokens about to be posted, and
      readers that hold one. */
  ghost predicate Balanced(p: Plan, s: System, fd: int)
    requires Typed(p, s) && fd in p.fds
  {
    && s.thrown[fd] <= Notices(p, s.pc, fd)
    && |s.queues[fd]| + (Notices(p, s.pc, fd) - s.thrown[fd])
       == s.tokens[fd] + Unposted(p, s.pc, fd) + |Holders(s.holding, fd)|
    && s.delivered[fd] + s.queues[fd] == SegmentsFor(p.pushes[..Pushed(p, s.pc)], fd)
    && (s.thrown[fd] > 0 ==> s.queues[fd] == [])
  }

  ghost predicate ErrorStored(p: Plan, s: System) {
    match s.pc
    case Closing(_) => p.ending.Some? && s.lastEx == p.ending
    case Over => s.lastEx == p.ending
    case _ => s.lastEx == None
  }

  ghost predicate Inv(p: Plan, s: System) {
    && ValidPlan(p) && Typed(p, s) && ErrorStored(p, s) && !s.noData
    && (forall fd | fd in p.fds :: Balanced(p, s, fd))
  }

  lemma {:induction false} InitiallyInv(p: Plan)
    requires ValidPlan(p)
    ensures Inv(p, Initially(p))
  {
    forall fd | fd in p.fds ensures Balanced(p, Initially(p), fd) {
      assert Holders(map[], fd) == {};
      assert p.pushes[..0] == [];
    }
  }

  lemma {:induction false} SegmentsSnoc(pushes: seq<Push>, k: nat, fd: int)
    requires k < |pushes|
    ensures SegmentsFor(pushes[..k + 1], fd)
         == SegmentsFor(pushes[..k], fd) + if pushes[k].fd == fd then [pushes[k].segment] else []
  {
    assert pushes[..k + 1][..k] == pushes[..k];
  }

  lemma {:induction false} PushBalanced(p: Plan, s: System, fd: int)
    requires Inv(p, s) && fd in p.fds && s.pc.Pushing? && s.pc.k < |p.pushes|
    ensures Typed(p, WorkStep(p, s)) && Balanced(p, WorkStep(p, s), fd)
  {
    hide SegmentsFor, Holders, ErrorStored;
    assert Balanced(p, s, fd);
    var k := s.pc.k;
    var more := if p.pushes[k].fd == fd then [p.pushes[k].segment] else [];
    SegmentsSnoc(p.pushes, k, fd);
    assert WorkStep(p, s).queues[fd] == s.queues[fd] + more by { assert s.queues[fd] + [] == s.queues[fd]; }
    Assoc(s.delivered[fd], s.queues[fd], more);
  }

  lemma {:induction false} DonePushing(p: Plan, s: System, fd: int)
    requires Inv(p, s) && fd in p.fds && s.pc == Pushing(|p.pushes|)
    ensures Typed(p, WorkStep(p, s)) && Balanced(p, WorkStep(p, s), fd)
  {
    hide SegmentsFor, Holders;
    assert Balanced(p, s, fd);
  }

  lemma {:induction false} PostBalanced(p: Plan, s: System, fd: int)
    requires Inv(p, s) && fd in p.fds && (s.pc.Posting? || s.pc.Over?)
    ensures Typed(p, WorkStep(p, s)) && Balanced(p, WorkStep(p, s), fd)
  {
    hide SegmentsFor, Holders, ErrorStored;
    assert Balanced(p, s, fd);
  }

  lemma {:induction false} CloseBalanced(p: Plan, s: System, fd: int)
    requires Inv(p, s) && fd in p.fds && s.pc.Closing?
    ensures Typed(p, WorkStep(p, s)) && Balanced(p, WorkStep(p, s), fd)
  {
    hide SegmentsFor, Holders;
    assert Balanced(p, s, fd);
    var i := s.pc.i;
    if i < |p.fds| {
      assert p.fds[..i + 1] == p.fds[..i] + [p.fds[i]];
    } else {
      assert p.fds[..i] == p.fds;
    }
  }

  lemma {:induction false} WorkTyped(p: Plan, s: System)
    requires Inv(p, s)
    ensures var t := WorkStep(p, s); Typed(p, t) && ErrorStored(p, t) && !t.noData
  {
    hide Balanced;
    assert ValidPlan(p) && Typed(p, s) && ErrorStored(p, s);
    match s.pc
    case Pushing(_) => assert PcFits(p, WorkStep(p, s).pc);
    case Posting(_) => assert PcFits(p, WorkStep(p, s).pc);
    case Closing(_) => assert PcFits(p, WorkStep(p, s).pc);
    case Over =>
  }

  lemma {:induction false} WorkBalanced(p: Plan, s: System, fd: int)
    requires Inv(p, s) && fd in p.fds
    ensures Typed(p, WorkStep(p, s)) && Balanced(p, WorkStep(p, s), fd)
  {
    assert s.pc.Pushing? ==> s.pc.k <= |p.pushes|;
    hide *;
    match s.pc
    case Pushing(k) =>
      if k < |p.pushes| {
        PushBalanced(p, s, fd);
      } else {
        DonePushing(p, s, fd);
      }
    case Closing(_) => CloseBalanced(p, s, fd);
    case _ => PostBalanced(p, s, fd);
  }

  lemma {:induction false} WorkKeepsInv(p: Plan, s: System)
    requires Inv(p, s)
    ensures Inv(p, WorkStep(p, s))
  {
    hide WorkStep, Typed, Balanced, ErrorStored, ValidPlan;
    WorkTyped(p, s);
    forall fd | fd in p.fds ensures Balanced(p, WorkStep(p, s), fd) {
      WorkBalanced(p, s, fd);
    }
  }

  lemma {:induction false} HoldersTake(holding: map<nat, int>, reader: nat, fd: int, other: int)
    requires reader !in holding
    ensures |Holders(holding[reader := fd], other)| == |Holders(holding, other)| + if other == fd then 1 else 0
  {
    var after := Holders(holding[reader := fd], other);
    if other == fd {
      assert after == Holders(holding, other) + {reader};
    } else {
      assert after == Holders(holding, other);
    }
  }

  lemma {:induction false} HoldersFinish(holding: map<nat, int>, reader: nat, other: int)
    requires reader in holding
    ensures |Holders(holding, other)|
         == |Holders(holding - {reader}, other)| + if other == holding[reader] then 1 else 0
  {
    var after := Holders(holding - {reader}, other);
    if other == holding[reader] {
      assert Holders(holding, other) == after + {reader};
    } else {
      assert after == Holders(holding, other);
    }
  }

  lemma {:induction false} TakeBalanced(p: Plan, s: System, reader: nat, fd: int, other: int)
    requires Inv(p, s) && other in p.fds
    ensures Typed(p, TakeStep(p, s, reader, fd)) && Balanced(p, TakeStep(p, s, reader, fd), other)
  {
    hide SegmentsFor, Holders, Notices, Unposted, Pushed;
    assert Balanced(p, s, other);
    if reader !in s.holding {
      HoldersTake(s.holding, reader, fd, other);
    }
  }

  lemma {:induction false} TakeKeepsInv(p: Plan, s: System, reader: nat, fd: int)
    requires Inv(p, s)
    ensures Inv(p, TakeStep(p, s, reader, fd))
  {
    var t := TakeStep(p, s, reader, fd);
    assert Typed(p, t) && ErrorStored(p, t) && !t.noData;
    forall other | other in p.fds ensures Balanced(p, t, other) {
      TakeBalanced(p, s, reader, fd, other);
    }
    hide TakeStep, Typed, Balanced;
  }

  /** A reader that holds a token finds a segment or the stored error. */
  lemma {:induction false} HolderFindsSomething(p: Plan, s: System, reader: nat)
    requires Inv(p, s) && reader in s.holding
    ensures var fd := s.holding[reader];
            fd in p.fds && (s.queues[fd] == [] ==>
              s.lastEx == p.ending && p.ending.Some? && s.thrown[fd] == 0 && Notices(p, s.pc, fd) == 1)
  {
    var fd := s.holding[reader];
    assert Balanced(p, s, fd);
    assert reader in Holders(s.holding, fd);
    assert Holders(s.holding, fd) != {};
  }

  lemma {:induction false} FinishBalanced(p: Plan, s: System, reader: nat, other: int)
    requires Inv(p, s) && other in p.fds && reader in s.holding
    requires Typed(p, FinishStep(p, s, reader))
    ensures Balanced(p, FinishStep(p, s, reader), other)
  {
    hide SegmentsFor, Holders, Notices, Unposted, Pushed;
    var fd := s.holding[reader];
    assert Balanced(p, s, other);
    HolderFindsSomething(p, s, reader);
    HoldersFinish(s.holding, reader, other);
    if s.queues[fd] != [] {
      Assoc(s.delivered[fd], [s.queues[fd][0]], s.queues[fd][1..]);
      assert [s.queues[fd][0]] + s.queues[fd][1..] == s.queues[fd];
    }
  }

  lemma {:induction false} FinishKeepsInv(p: Plan, s: System, reader: nat)
    requires Inv(p, s)
    ensures Inv(p, FinishStep(p, s, reader))
  {
    if reader in s.holding {
      var t := FinishStep(p, s, reader);
      HolderFindsSomething(p, s, reader);
      assert Typed(p, t) && ErrorStored(p, t) && !t.noData;
      forall other | other in p.fds ensures Balanced(p, t, other) {
        FinishBalanced(p, s, reader, other);
      }
      hide FinishStep, Typed, Balanced;
    }
  }

  lemma {:induction false} StepKeepsInv(p: Plan, s: System, a: Action)
    requires Inv(p, s)
    ensures Inv(p, Step(p, s, a))
  {
    hide Inv, WorkStep, TakeStep, FinishStep;
    match a
    case Work => WorkKeepsInv(p, s);
    case Take(reader, fd) => TakeKeepsInv(p, s, reader, fd);
    case Finish(reader) => FinishKeepsInv(p, s, reader);
  }

  /** Any run from any state that satisfies the invariant. */
  function Run(p: Plan, s: System, actions: seq<Action>): (r: System)
    requires Inv(p, s)
    ensures Inv(p, r)
    decreases |actions|
  {
    if actions == [] then s else
      StepKeepsInv(p, s, actions[0]);
      Run(p, Step(p, s, actions[0]), actions[1..])
  }

  // ---------------------------------------------------------------- what readers see

  /** The system after any interleaving. */
  function Reach(p: Plan, actions: seq<Action>): (r: System)
    requires ValidPlan(p)
    ensures Inv(p, r)
  {
    InitiallyInv(p);
    Run(p, Initially(p), actions)
  }

  /** Every reachable state: tokens, queues, notices and readers balance; what readers of an fd got is
      a prefix of what was pushed for it, in order; nobody ever found "no data present yet"; and the
      stored error reaches a reader at most once, after everything else. */
  lemma {:induction false} TokenProtocol(p: Plan, actions: seq<Action>, fd: int)
    requires ValidPlan(p) && fd in p.fds
    ensures var s := Reach(p, actions);
            && Typed(p, s) && !s.noData
            && (forall r | r in s.holding && s.holding[r] == fd ::
                  ReadFront(s.queues[fd], s.lastEx).0 != Err(NoDataPresent))
            && |s.queues[fd]| + (Notices(p, s.pc, fd) - s.thrown[fd])
               == s.tokens[fd] + Unposted(p, s.pc, fd) + |Holders(s.holding, fd)|
            && s.delivered[fd] <= SegmentsFor(p.pushes, fd)
            && s.thrown[fd] <= 1
            && (s.thrown[fd] == 1 ==> s.delivered[fd] == SegmentsFor(p.pushes, fd) && s.lastEx == p.ending)
  {
    var s := Reach(p, actions);
    assert Balanced(p, s, fd);
    var k := Pushed(p, s.pc);
    forall r | r in s.holding && s.holding[r] == fd
      ensures ReadFront(s.queues[fd], s.lastEx).0 != Err(NoDataPresent)
    {
      HolderFindsSomething(p, s, r);
    }
    SegmentsPrefix(p.pushes, k, fd);
    assert p.pushes[..|p.pushes|] == p.pushes;
    if s.thrown[fd] > 0 {
      assert s.delivered[fd] + [] == s.delivered[fd];
    }
  }

  lemma {:induction false} ThrownIsEnding(p: Plan, actions: seq<Action>, fd: int)
    requires ValidPlan(p) && fd in p.fds
    ensures var s := Reach(p, actions);
            Typed(p, s) && (s.thrown[fd] > 0 ==> p.ending.Some? && s.lastEx == p.ending)
  {
    assert Balanced(p, Reach(p, actions), fd);
  }

  lemma {:induction false} SegmentsPrefix(pushes: seq<Push>, k: nat, fd: int)
    requires k <= |pushes|
    ensures SegmentsFor(pushes[..k], fd) <= SegmentsFor(pushes, fd)
    decreases |pushes| - k
  {
    if k < |pushes| {
      SegmentsSnoc(pushes, k, fd);
      SegmentsPrefix(pushes, k + 1, fd);
    } else {
      assert pushes[..k] == pushes;
    }
  }

  /** The worker is over, and there is nothing and nobody at `fd`. */
  ghost predicate Silent(p: Plan, s: System, fd: int) {
    && Typed(p, s) && fd in p.fds && s.pc == Over
    && s.queues[fd] == [] && s.tokens[fd] == 0 && (forall r | r in s.holding :: s.holding[r] != fd)
  }

  lemma {:induction false} StaysSilent(p: Plan, s: System, actions: seq<Action>, fd: int)
    requires Inv(p, s) && Silent(p, s, fd)
    ensures Silent(p, Run(p, s, actions), fd)
    ensures Run(p, s, actions).delivered[fd] == s.delivered[fd]
    ensures Run(p, s, actions).thrown[fd] == s.thrown[fd]
    decreases |actions|
  {
    if actions != [] {
      StaysSilentOnce(p, s, actions[0], fd);
      StepKeepsInv(p, s, actions[0]);
      hide Inv, Step;
      StaysSilent(p, Step(p, s, actions[0]), actions[1..], fd);
    }
  }

  lemma {:induction false} StaysSilentOnce(p: Plan, s: System, a: Action, fd: int)
    requires Inv(p, s) && Silent(p, s, fd)
    ensures var t := Step(p, s, a);
            Silent(p, t, fd) && t.delivered[fd] == s.delivered[fd] && t.thrown[fd] == s.thrown[fd]
  {
    hide Inv;
    match a
    case Work =>
    case Take(reader, other) => SilentTake(p, s, reader, other, fd);
    case Finish(reader) => SilentFinish(p, s, reader, fd);
  }

  lemma {:induction false} SilentTake(p: Plan, s: System, reader: nat, other: int, fd: int)
    requires Silent(p, s, fd)
    ensures var t := TakeStep(p, s, reader, other);
            Silent(p, t, fd) && t.delivered[fd] == s.delivered[fd] && t.thrown[fd] == s.thrown[fd]
  {
  }

  lemma {:induction false} SilentFinish(p: Plan, s: System, reader: nat, fd: int)
    requires Silent(p, s, fd)
    ensures var t := FinishStep(p, s, reader);
            Silent(p, t, fd) && t.delivered[fd] == s.delivered[fd] && t.thrown[fd] == s.thrown[fd]
  {
    if reader in s.holding {
      assert s.holding[reader] != fd;
    }
  }

  /** Something is left for the readers of `fd`: a segment, or the error that nobody got yet. */
  ghost predicate Owed(p: Plan, s: System, fd: int)
    requires Typed(p, s) && fd in p.fds
  {
    s.queues[fd] != [] || (p.ending.Some? && s.thrown[fd] == 0)
  }

  /** In some continuation a reader of `fd` gets a segment or the error. */
  ghost predicate ServedAgain(p: Plan, s: System, fd: int)
    requires Inv(p, s) && fd in p.fds
  {
    exists after ::
      && Typed(p, Run(p, s, after))
      && (Run(p, s, after).delivered[fd] != s.delivered[fd] || Run(p, s, after).thrown[fd] != s.thrown[fd])
  }

  /** When nothing is owed, nobody holds a token of `fd` and none is posted. */
  lemma {:induction false} NothingOwed(p: Plan, s: System, fd: int)
    requires Inv(p, s) && fd in p.fds && s.pc == Over && !Owed(p, s, fd)
    ensures Silent(p, s, fd)
  {
    assert Balanced(p, s, fd);
    assert Holders(s.holding, fd) == {};
    forall r | r in s.holding ensures s.holding[r] != fd {
      assert r !in Holders(s.holding, fd);
    }
  }

  /** Something owed is matched by a token in the eventfd or in a reader's hand. */
  lemma {:induction false} OwedHasToken(p: Plan, s: System, fd: int)
    requires Inv(p, s) && fd in p.fds && s.pc == Over && Owed(p, s, fd)
    ensures s.tokens[fd] > 0 || exists r :: r in s.holding && s.holding[r] == fd
  {
    assert Balanced(p, s, fd);
    if s.tokens[fd] == 0 {
      assert |Holders(s.holding, fd)| > 0;
      var r :| r in Holders(s.holding, fd);
    }
  }

  /** A reader with a token gets a segment or the error. */
  lemma {:induction false} HolderServed(p: Plan, s: System, reader: nat)
    requires Inv(p, s) && reader in s.holding
    ensures var fd := s.holding[reader];
            var t := FinishStep(p, s, reader);
            fd in p.fds && Typed(p, t) && (t.delivered[fd] != s.delivered[fd] || t.thrown[fd] != s.thrown[fd])
  {
    HolderFindsSomething(p, s, reader);
  }

  lemma {:induction false} RunOne(p: Plan, s: System, a: Action)
    requires Inv(p, s)
    ensures Run(p, s, [a]) == Step(p, s, a)
  {
    StepKeepsInv(p, s, a);
    hide Inv, Step;
    assert [a][1..] == [];
    assert Run(p, Step(p, s, a), []) == Step(p, s, a);
  }

  lemma {:induction false} RunTwo(p: Plan, s: System, a: Action, b: Action)
    requires Inv(p, s)
    ensures Inv(p, Step(p, s, a)) && Run(p, s, [a, b]) == Step(p, Step(p, s, a), b)
  {
    StepKeepsInv(p, s, a);
    RunOne(p, Step(p, s, a), b);
    hide Inv, Step;
    assert [a, b][1..] == [b];
  }

  /** A reader that has not come yet. */
  lemma {:induction false} NewReader(readers: set<nat>) returns (reader: nat)
    ensures forall r | r in readers :: r < reader
  {
    if readers == {} {
      reader := 0;
    } else {
      var r :| r in readers;
      reader := NewReader(readers - {r});
      assert forall x | x in readers :: x == r || x in readers - {r};
      if reader <= r {
        reader := r + 1;
      }
    }
  }

  lemma {:induction false} TokenTaken(p: Plan, s: System, reader: nat, fd: int)
    requires Inv(p, s) && fd in p.fds && s.tokens[fd] > 0 && reader !in s.holding
    ensures var t := TakeStep(p, s, reader, fd);
            && Inv(p, t) && reader in t.holding && t.holding[reader] == fd
            && t.delivered == s.delivered && t.thrown == s.thrown
  {
    TakeKeepsInv(p, s, reader, fd);
  }

  lemma {:induction false} HolderIsServed(p: Plan, s: System, reader: nat)
    requires Inv(p, s) && reader in s.holding
    ensures s.holding[reader] in p.fds && ServedAgain(p, s, s.holding[reader])
  {
    hide Inv, FinishStep, Run, Typed;
    HolderServed(p, s, reader);
    RunOne(p, s, Finish(reader));
    assert Typed(p, Run(p, s, [Finish(reader)]));
  }

  lemma {:induction false} TakerIsServed(p: Plan, s: System, reader: nat, fd: int)
    requires Inv(p, s) && fd in p.fds && s.tokens[fd] > 0 && reader !in s.holding
    ensures ServedAgain(p, s, fd)
  {
    TokenTaken(p, s, reader, fd);
    HolderServed(p, TakeStep(p, s, reader, fd), reader);
    RunTwo(p, s, Take(reader, fd), Finish(reader));
    hide Inv, TakeStep, FinishStep, Run, Typed;
    assert Typed(p, Run(p, s, [Take(reader, fd), Finish(reader)]));
  }

  lemma {:induction false} OwedIsServed(p: Plan, s: System, fd: int)
    requires Inv(p, s) && fd in p.fds && s.pc == Over && Owed(p, s, fd)
    ensures ServedAgain(p, s, fd)
  {
    hide *;
    OwedHasToken(p, s, fd);
    if r :| r in s.holding && s.holding[r] == fd {
      HolderIsServed(p, s, r);
    } else {
      var r := NewReader(s.holding.Keys);
      TakerIsServed(p, s, r, fd);
    }
  }

  /** Once the worker is over and nothing is owed, as after an end by termination request with an
      empty queue, no reader of that fd ever gets a token, a segment or an error again. */
  lemma {:induction false} NeverServed(p: Plan, s: System, after: seq<Action>, fd: int)
    requires Inv(p, s) && fd in p.fds && s.pc == Over && !Owed(p, s, fd)
    ensures var t := Run(p, s, after);
            && Typed(p, t) && t.tokens[fd] == 0
            && t.delivered[fd] == s.delivered[fd] && t.thrown[fd] == s.thrown[fd]
  {
    NothingOwed(p, s, fd);
    StaysSilent(p, s, after, fd);
  }

  /** In every state that an interleaving reaches after the worker is over, a reader of `fd` can still
      be served exactly if something is owed: a worker that ended on a termination request wakes
      nobody whose queue is empty, one that ended on any other error wakes one reader of every fd. */
  lemma {:induction false} ServedAgainExactly(p: Plan, before: seq<Action>, fd: int)
    requires ValidPlan(p) && fd in p.fds && Reach(p, before).pc == Over
    ensures var s := Reach(p, before); Typed(p, s) && (ServedAgain(p, s, fd) <==> Owed(p, s, fd))
  {
    var s := Reach(p, before);
    if Owed(p, s, fd) {
      OwedIsServed(p, s, fd);
    } else {
      forall after: seq<Action>
        ensures var t := Run(p, s, after);
                Typed(p, t) && t.delivered[fd] == s.delivered[fd] && t.thrown[fd] == s.thrown[fd]
      {
        NeverServed(p, s, after, fd);
      }
    }
  }

  // ---------------------------------------------------------------- progress of the worker

  /** How many steps the worker has left: two per segment, and then the way out. */
  ghost function StepsLeft(p: Plan, pc: Pc): nat
    requires PcFits(p, pc)
  {
    var wayOut := if p.ending == None then 1 else |p.fds| + 2;
    match pc
    case Pushing(k) => 2 * (|p.pushes| - k) + wayOut
    case Posting(k) => 2 * (|p.pushes| - k) - 1 + wayOut
    case Closing(i) => |p.fds| - i + 1
    case Over => 0
  }

  function Works(actions: seq<Action>): nat {
    if actions == [] then 0 else (if actions[0].Work? then 1 else 0) + Works(actions[1..])
  }

  lemma {:induction false} InvSays(p: Plan, s: System)
    requires Inv(p, s)
    ensures ValidPlan(p) && Typed(p, s) && PcFits(p, s.pc)
  {
    hide Balanced, ErrorStored;
  }

  /** Where the worker goes next: it pushes and posts each segment, and then notifies or just leaves. */
  ghost function NextPc(p: Plan, pc: Pc): Pc {
    match pc
    case Pushing(k) =>
      if k < |p.pushes| then Posting(k) else if p.ending == None then Over else Closing(0)
    case Posting(k) => Pushing(k + 1)
    case Closing(i) => if i < |p.fds| then Closing(i + 1) else Over
    case Over => Over
  }

  lemma {:induction false} WorkMoves(p: Plan, s: System)
    requires ValidPlan(p) && Typed(p, s)
    ensures WorkStep(p, s).pc == NextPc(p, s.pc)
  {
    hide ValidPlan;
    match s.pc
    case Pushing(k) =>
      if k < |p.pushes| {
        assert WorkStep(p, s).pc == Posting(k);
      } else {
        assert WorkStep(p, s).pc == if p.ending == None then Over else Closing(0);
      }
    case Posting(k) => assert WorkStep(p, s).pc == Pushing(k + 1);
    case Closing(i) => assert WorkStep(p, s).pc == if i < |p.fds| then Closing(i + 1) else Over;
    case Over =>
  }

  lemma {:induction false} NextIsOneLess(p: Plan, pc: Pc)
    requires PcFits(p, pc)
    ensures PcFits(p, NextPc(p, pc))
    ensures StepsLeft(p, NextPc(p, pc)) == if StepsLeft(p, pc) > 0 then StepsLeft(p, pc) - 1 else 0
  {
  }

  lemma {:induction false} ReadersKeepPc(p: Plan, s: System, a: Action)
    requires ValidPlan(p) && Typed(p, s) && !a.Work?
    ensures Step(p, s, a).pc == s.pc
  {
    hide WorkStep, ReadFront, Typed;
  }

  lemma {:induction false} WorkIsStep(p: Plan, s: System)
    requires ValidPlan(p) && Typed(p, s)
    ensures Step(p, s, Work) == WorkStep(p, s)
  {
    hide WorkStep, Typed;
  }

  lemma {:induction false} StepProgress(p: Plan, s: System, a: Action)
    requires Inv(p, s)
    ensures ValidPlan(p) && Typed(p, s) && PcFits(p, s.pc)
    ensures var t := Step(p, s, a);
            && Inv(p, t) && PcFits(p, t.pc)
            && StepsLeft(p, t.pc) == if a.Work? && StepsLeft(p, s.pc) > 0 then StepsLeft(p, s.pc) - 1
                                     else StepsLeft(p, s.pc)
  {
    hide *;
    InvSays(p, s);
    StepKeepsInv(p, s, a);
    if a.Work? {
      WorkIsStep(p, s);
      WorkMoves(p, s);
      NextIsOneLess(p, s.pc);
    } else {
      ReadersKeepPc(p, s, a);
    }
  }

  lemma {:induction false} NoneLeft(p: Plan, pc: Pc)
    requires PcFits(p, pc)
    ensures StepsLeft(p, pc) == 0 <==> pc == Over
  {
  }

  /** Readers cannot hold the worker up: in every interleaving it is over exactly if it has made as many
      steps as it had left. */
  lemma {:induction false} WorkerFinishes(p: Plan, s: System, actions: seq<Action>)
    requires Inv(p, s)
    ensures PcFits(p, s.pc) && (Run(p, s, actions).pc == Over <==> StepsLeft(p, s.pc) <= Works(actions))
    decreases |actions|
  {
    hide Inv, Step, Typed, PcFits, StepsLeft;
    InvSays(p, s);
    NoneLeft(p, s.pc);
    if actions != [] {
      StepProgress(p, s, actions[0]);
      WorkerFinishes(p, Step(p, s, actions[0]), actions[1..]);
    }
  }

  lemma {:induction false} WorksOnly(n: nat)
    ensures Works(seq(n, _ => Work)) == n
  {
    if n > 0 {
      assert seq(n, _ => Work)[1..] == seq(n - 1, _ => Work);
      WorksOnly(n - 1);
    }
  }

  /** No reader has come yet. */
  ghost predicate Untouched(p: Plan, s: System) {
    && Typed(p, s) && s.holding == map[]
    && forall fd | fd in p.fds :: s.delivered[fd] == [] && s.thrown[fd] == 0
  }

  lemma {:induction false} WorksLeaveUntouched(p: Plan, s: System, n: nat)
    requires Inv(p, s) && Untouched(p, s)
    ensures Untouched(p, Run(p, s, seq(n, _ => Work)))
    decreases n
  {
    if n > 0 {
      assert seq(n, _ => Work)[1..] == seq(n - 1, _ => Work);
      WorkUntouched(p, s);
      hide Inv, Step, Untouched;
      WorksLeaveUntouched(p, Step(p, s, Work), n - 1);
    }
  }

  lemma {:induction false} WorkUntouched(p: Plan, s: System)
    requires Inv(p, s) && Untouched(p, s)
    ensures Inv(p, Step(p, s, Work)) && Untouched(p, Step(p, s, Work))
  {
    StepKeepsInv(p, s, Work);
    hide Balanced;
  }

  /** What readers find when they come after the worker's whole plan: every segment of their fd in order,
      one token for each, and one more, with the stored error, if it ended on one. */
  lemma {:induction false} WholePlan(p: Plan, n: nat, fd: int)
    requires ValidPlan(p) && fd in p.fds && StepsLeft(p, Pushing(0)) <= n
    ensures var s := Reach(p, seq(n, _ => Work));
            && Typed(p, s) && s.pc == Over && s.lastEx == p.ending
            && s.queues[fd] == SegmentsFor(p.pushes, fd)
            && s.tokens[fd] == |s.queues[fd]| + (if p.ending.Some? then 1 else 0)
            && s.delivered[fd] == [] && s.thrown[fd] == 0
  {
    InitiallyInv(p);
    WorksOnly(n);
    WorkerFinishes(p, Initially(p), seq(n, _ => Work));
    WorksLeaveUntouched(p, Initially(p), n);
    var s := Reach(p, seq(n, _ => Work));
    assert Balanced(p, s, fd);
    assert Holders(map[], fd) == {};
    assert p.pushes[..|p.pushes|] == p.pushes;
    hide Run;
  }

  // ---------------------------------------------------------------- delivery, then closure

  /** One blocking read of `fd`: take a token if there is one, then `read(fd)`. */
  function OneRead(p: Plan, s: System, reader: nat, fd: int): (r: System)
    requires Inv(p, s)
    ensures Inv(p, r)
  {
    StepKeepsInv(p, s, Take(reader, fd));
    StepKeepsInv(p, TakeStep(p, s, reader, fd), Finish(reader));
    FinishStep(p, TakeStep(p, s, reader, fd), reader)
  }

  /** `calls` successive blocking reads of `fd` by one reader. */
  function ReadBlocking(p: Plan, s: System, reader: nat, fd: int, calls: nat): (r: System)
    requires Inv(p, s)
    ensures Inv(p, r)
    decreases calls
  {
    if calls == 0 then s else OneRead(p, ReadBlocking(p, s, reader, fd, calls - 1), reader, fd)
  }

  /** The worker is over with a stored error, and nobody is reading `fd`. */
  ghost predicate ReadyToDrain(p: Plan, s: System, reader: nat, fd: int) {
    && Inv(p, s) && fd in p.fds && s.pc == Over && p.ending.Some?
    && reader !in s.holding && Holders(s.holding, fd) == {}
  }

  /** One blocking read of a queue that is not empty returns its front and uses one token. */
  lemma {:induction false} OneDelivery(p: Plan, s: System, reader: nat, fd: int)
    requires ReadyToDrain(p, s, reader, fd) && s.queues[fd] != []
    ensures var t := OneRead(p, s, reader, fd);
            && ReadyToDrain(p, t, reader, fd)
            && t.queues[fd] == s.queues[fd][1..]
            && t.delivered[fd] == s.delivered[fd] + [s.queues[fd][0]]
            && t.thrown[fd] == s.thrown[fd]
  {
    assert Balanced(p, s, fd);
    ReadKeepsReady(p, s, reader, fd);
    hide Holders, SegmentsFor, Balanced, ReadyToDrain;
  }

  lemma {:induction false} ReadKeepsReady(p: Plan, s: System, reader: nat, fd: int)
    requires ReadyToDrain(p, s, reader, fd)
    ensures ReadyToDrain(p, OneRead(p, s, reader, fd), reader, fd)
  {
    assert OneRead(p, s, reader, fd).holding == s.holding;
    hide Inv;
  }

  /** The read after that throws the stored error and leaves no token behind. */
  lemma {:induction false} OneError(p: Plan, s: System, reader: nat, fd: int)
    requires ReadyToDrain(p, s, reader, fd) && s.queues[fd] == [] && s.thrown[fd] == 0
    ensures var t := OneRead(p, s, reader, fd);
            && ReadyToDrain(p, t, reader, fd)
            && t.queues[fd] == [] && t.tokens[fd] == 0 && t.thrown[fd] == 1
            && t.delivered[fd] == s.delivered[fd]
  {
    assert Balanced(p, s, fd);
    ReadKeepsReady(p, s, reader, fd);
    hide Holders, SegmentsFor, Balanced, ReadyToDrain;
  }

  /** From `s` to `t` the readers of `fd` got the first `n` queued segments, and nothing else. */
  ghost predicate Got(p: Plan, s: System, t: System, fd: int, n: nat)
    requires Typed(p, s) && fd in p.fds && n <= |s.queues[fd]|
  {
    && Typed(p, t)
    && t.queues[fd] == s.queues[fd][n..]
    && t.delivered[fd] == s.delivered[fd] + s.queues[fd][..n]
    && t.thrown[fd] == s.thrown[fd]
  }

  lemma {:induction false} GotOneMore(p: Plan, s: System, t: System, reader: nat, fd: int, n: nat)
    requires Typed(p, s) && fd in p.fds && n < |s.queues[fd]| && Got(p, s, t, fd, n)
    requires ReadyToDrain(p, t, reader, fd)
    ensures ReadyToDrain(p, OneRead(p, t, reader, fd), reader, fd)
    ensures Got(p, s, OneRead(p, t, reader, fd), fd, n + 1)
  {
    hide OneRead, ReadyToDrain;
    var q := s.queues[fd];
    OneDelivery(p, t, reader, fd);
    assert q[n..][1..] == q[n + 1..] && q[n..][0] == q[n];
    Assoc(s.delivered[fd], q[..n], [q[n]]);
    assert q[..n] + [q[n]] == q[..n + 1];
  }

  lemma {:induction false} GotNothing(p: Plan, s: System, fd: int)
    requires Typed(p, s) && fd in p.fds
    ensures Got(p, s, s, fd, 0)
  {
    assert s.delivered[fd] + s.queues[fd][..0] == s.delivered[fd];
  }

  lemma {:induction false} ReadBlockingSnoc(p: Plan, s: System, reader: nat, fd: int, calls: nat)
    requires Inv(p, s)
    ensures ReadBlocking(p, s, reader, fd, 0) == s
    ensures ReadBlocking(p, s, reader, fd, calls + 1) == OneRead(p, ReadBlocking(p, s, reader, fd, calls), reader, fd)
  {
    hide Inv, OneRead;
  }

  /** The first reads return the segments that are queued, in order. */
  lemma {:induction false} AfterReads(p: Plan, s: System, reader: nat, fd: int, calls: nat)
    requires Inv(p, s) && Typed(p, s) && fd in p.fds && calls <= |s.queues[fd]|
    requires ReadyToDrain(p, s, reader, fd)
    ensures ReadyToDrain(p, ReadBlocking(p, s, reader, fd, calls), reader, fd)
    ensures Got(p, s, ReadBlocking(p, s, reader, fd, calls), fd, calls)
    decreases calls
  {
    hide *;
    if calls == 0 {
      ReadBlockingSnoc(p, s, reader, fd, 0);
      GotNothing(p, s, fd);
    } else {
      ReadBlockingSnoc(p, s, reader, fd, calls - 1);
      AfterReads(p, s, reader, fd, calls - 1);
      GotOneMore(p, s, ReadBlocking(p, s, reader, fd, calls - 1), reader, fd, calls - 1);
    }
  }

  /** After the worker has ended on an error, successive blocking reads return every remaining segment
      in order; the next one throws the stored error, once, and then every token is used up. */
  lemma {:induction false} DeliveryBeforeClosure(p: Plan, s: System, reader: nat, fd: int)
    requires ReadyToDrain(p, s, reader, fd) && s.thrown[fd] == 0
    ensures var n := |s.queues[fd]|;
            var t, u := ReadBlocking(p, s, reader, fd, n), ReadBlocking(p, s, reader, fd, n + 1);
            && Typed(p, t) && t.delivered[fd] == s.delivered[fd] + s.queues[fd] && t.thrown[fd] == 0
            && Typed(p, u) && u.delivered[fd] == SegmentsFor(p.pushes, fd) && u.thrown[fd] == 1
            && u.tokens[fd] == 0
  {
    var n := |s.queues[fd]|;
    var t := ReadBlocking(p, s, reader, fd, n);
    AfterReads(p, s, reader, fd, n);
    assert s.queues[fd][..n] == s.queues[fd] && s.queues[fd][n..] == [];
    OneError(p, t, reader, fd);
    AllDelivered(p, OneRead(p, t, reader, fd), fd);
  }

  /** The same for any number of readers in any interleaving: after an end on an error, the tokens of
      `fd` are used up exactly when its readers have got every segment and one of them the error. */
  lemma {:induction false} ClosureForAnyReaders(p: Plan, actions: seq<Action>, fd: int)
    requires ValidPlan(p) && fd in p.fds && p.ending.Some? && Reach(p, actions).pc == Over
    ensures var s := Reach(p, actions);
            && Typed(p, s)
            && (s.tokens[fd] == 0 && Holders(s.holding, fd) == {}
                <==> s.delivered[fd] == SegmentsFor(p.pushes, fd) && s.thrown[fd] == 1)
  {
    var s := Reach(p, actions);
    assert Balanced(p, s, fd);
    assert p.pushes[..|p.pushes|] == p.pushes;
    assert s.delivered[fd] == SegmentsFor(p.pushes, fd) <==> s.queues[fd] == [];
  }

  lemma {:induction false} AllDelivered(p: Plan, s: System, fd: int)
    requires Inv(p, s) && fd in p.fds && s.pc == Over && s.queues[fd] == []
    ensures s.delivered[fd] == SegmentsFor(p.pushes, fd)
  {
    assert Balanced(p, s, fd);
    assert s.delivered[fd] + [] == s.delivered[fd];
    assert p.pushes[..|p.pushes|] == p.pushes;
  }
}
