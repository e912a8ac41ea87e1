/** `processDataSendSignals`: a loop over the handlers with a recursive call in its body, compared
    with the simple iteration "first firing handler, pop, repeat". */
module Dispatcher {
  import opened Basics

  /** 0 for no action, n > 0 to deliver n bytes, n < 0 to discard -n bytes. */
  type Condition = Bytes -> int

  datatype Handler = Handler(condition: Condition, fd: int)

  /** One successful PopFromBuffer, made because handler `fd` answered `answer`. */
  datatype Pop = Pop(fd: int, answer: int, bytes: Bytes)

  /** The live buffer, the pops in time order, and the exception that ended the run, if any. */
  datatype State = State(buffer: Bytes, pops: seq<Pop>, failure: Option<Error>)

  /** `abs(n) > data.size()` and PopFromBuffer, for a handler that fired. */
  function Fire(h: Handler, n: int, data: Bytes, st: State): (r: State)
    requires st.failure == None
    ensures st.pops <= r.pops && |st.pops| <= |r.pops| <= |st.pops| + 1
    ensures r.failure == None <==> Abs(n) <= |data| && Abs(n) <= |st.buffer|
    ensures r.failure == None ==> |r.pops| == |st.pops| + 1
    ensures r.failure != None ==> r.pops == st.pops
  {
    if Abs(n) > |data| then
      st.(failure := Some(ConditionOverread))
    else if Abs(n) > |st.buffer| then
      st.(failure := Some(OutOfRange))
    else
      State(st.buffer[Abs(n)..], st.pops + [Pop(h.fd, n, st.buffer[..Abs(n)])], None)
  }

  /** The loop from handler `i` on. A handler sees `data`, the snapshot of this call, even after the
      recursive call made for an earlier handler has changed the buffer. */
  function Loop(hs: seq<Handler>, i: nat, data: Bytes, st: State): (r: State)
    requires st.failure == None
    ensures |st.pops| <= |r.pops|
    decreases |data|, |hs| - i
  {
    if data == [] || i >= |hs| then st else
      var n := hs[i].condition(data);
      if n == 0 then Loop(hs, i + 1, data, st) else
        var popped := Fire(hs[i], n, data, st);
        if popped.failure != None then popped else
          var nested := Loop(hs, 0, data[Abs(n)..], popped);
          if nested.failure != None then nested else Loop(hs, i + 1, data, nested)
  }

  lemma {:induction false} LoopThrows(hs: seq<Handler>, i: nat, data: Bytes, st: State)
    requires i < |hs| && data != [] && st.failure == None && hs[i].condition(data) != 0
    requires Fire(hs[i], hs[i].condition(data), data, st).failure != None
    ensures Loop(hs, i, data, st) == Fire(hs[i], hs[i].condition(data), data, st)
  {
  }

  lemma {:induction false} LoopResumes(hs: seq<Handler>, i: nat, data: Bytes, st: State)
    requires i < |hs| && data != [] && st.failure == None && hs[i].condition(data) != 0
    requires Fire(hs[i], hs[i].condition(data), data, st).failure == None
    ensures var n := hs[i].condition(data);
            var nested := Loop(hs, 0, data[Abs(n)..], Fire(hs[i], n, data, st));
            Loop(hs, i, data, st) == if nested.failure != None then nested else Loop(hs, i + 1, data, nested)
  {
  }

  /** The first handler from `i` on that answers non-zero, or the number of handlers. */
  function FirstFiring(hs: seq<Handler>, i: nat, data: Bytes): (r: nat)
    requires i <= |hs|
    ensures i <= r <= |hs|
    ensures forall j | i <= j < r :: hs[j].condition(data) == 0
    ensures r < |hs| ==> hs[r].condition(data) != 0
    decreases |hs| - i
  {
    if i == |hs| || hs[i].condition(data) != 0 then i else FirstFiring(hs, i + 1, data)
  }

  /** The intended meaning: no stale snapshots, no resumed loops. */
  function Simple(hs: seq<Handler>, data: Bytes, pops: seq<Pop>): (r: State)
    decreases |data|
  {
    var i := FirstFiring(hs, 0, data);
    if data == [] || i == |hs| then State(data, pops, None) else
      var n := hs[i].condition(data);
      if Abs(n) > |data| then State(data, pops, Some(ConditionOverread))
      else Simple(hs, data[Abs(n)..], pops + [Pop(hs[i].fd, n, data[..Abs(n)])])
  }

  /** No handler answers 0 to `data`, or there is nothing to answer to. */
  ghost predicate Quiet(hs: seq<Handler>, data: Bytes) {
    data == [] || forall h | h in hs :: h.condition(data) == 0
  }

  // ---------------------------------------------------------------- when the two agree

  /** Whenever the iteration reaches a snapshot on which handler `i` fires first and everything
      after it is handled without an exception, no later handler fires on that same snapshot. */
  predicate NoStaleAnswer(hs: seq<Handler>, data: Bytes)
    decreases |data|
  {
    var i := FirstFiring(hs, 0, data);
    if data == [] || i == |hs| then true else
      var n := hs[i].condition(data);
      Abs(n) > |data|
      || (NoStaleAnswer(hs, data[Abs(n)..])
          && (Simple(hs, data[Abs(n)..], []).failure == None ==> FirstFiring(hs, i + 1, data) == |hs|))
  }

  lemma {:induction false} LoopSkips(hs: seq<Handler>, i: nat, data: Bytes, st: State)
    requires i <= |hs| && st.failure == None
    ensures Loop(hs, i, data, st) == Loop(hs, FirstFiring(hs, i, data), data, st)
    decreases |hs| - i
  {
    if data != [] && i < |hs| && hs[i].condition(data) == 0 {
      LoopSkips(hs, i + 1, data, st);
    }
  }

  /** A stale answer always shows: it pops once more or throws. */
  lemma {:induction false} StaleAnswerShows(hs: seq<Handler>, i: nat, data: Bytes, st: State)
    requires i <= |hs| && st.failure == None && data != [] && FirstFiring(hs, i, data) < |hs|
    ensures var r := Loop(hs, i, data, st); r.failure != None || |r.pops| > |st.pops|
  {
    LoopSkips(hs, i, data, st);
  }

  /** Earlier pops are only carried along. */
  lemma {:induction false} SimpleShift(hs: seq<Handler>, data: Bytes, pops: seq<Pop>)
    ensures var r, r0 := Simple(hs, data, pops), Simple(hs, data, []);
            r.buffer == r0.buffer && r.failure == r0.failure && r.pops == pops + r0.pops
    decreases |data|
  {
    var i := FirstFiring(hs, 0, data);
    if data != [] && i < |hs| {
      var n := hs[i].condition(data);
      if Abs(n) <= |data| {
        var p := Pop(hs[i].fd, n, data[..Abs(n)]);
        SimpleShift(hs, data[Abs(n)..], pops + [p]);
        SimpleShift(hs, data[Abs(n)..], [p]);
        assert [] + [p] == [p];
      }
    }
  }

  /** Either the loop computes the simple iteration, or it visibly departs from it. */
  lemma {:induction false} AgreesOrDeparts(hs: seq<Handler>, data: Bytes, pops: seq<Pop>)
    ensures var r, simple := Loop(hs, 0, data, State(data, pops, None)), Simple(hs, data, pops);
            if NoStaleAnswer(hs, data) then r == simple
            else simple.failure == None && (r.failure != None || |r.pops| > |simple.pops|)
    decreases |data|
  {
    var st := State(data, pops, None);
    var i := FirstFiring(hs, 0, data);
    LoopSkips(hs, 0, data, st);
    if data != [] && i < |hs| && Abs(hs[i].condition(data)) <= |data| {
      var n := hs[i].condition(data);
      var rest := data[Abs(n)..];
      var pops' := pops + [Pop(hs[i].fd, n, data[..Abs(n)])];
      var nested := Loop(hs, 0, rest, State(rest, pops', None));
      AgreesOrDeparts(hs, rest, pops');
      SimpleShift(hs, rest, pops');
      if nested.failure == None {
        assert Loop(hs, i, data, st) == Loop(hs, i + 1, data, nested);
        if FirstFiring(hs, i + 1, data) == |hs| {
          LoopSkips(hs, i + 1, data, nested);
        } else {
          StaleAnswerShows(hs, i + 1, data, nested);
        }
      }
    }
  }

  /** For any handlers: called on its live buffer, the recursive loop does what the simple iteration
      does exactly when no handler answers on a snapshot that an earlier handler already used. */
  lemma {:induction false} DispatcherRefinement(hs: seq<Handler>, data: Bytes, pops: seq<Pop>)
    ensures Loop(hs, 0, data, State(data, pops, None)) == Simple(hs, data, pops)
            <==> NoStaleAnswer(hs, data)
  {
    AgreesOrDeparts(hs, data, pops);
  }

  /** On no data of at most `cap` bytes do two handlers answer non-zero. */
  ghost predicate Exclusive(hs: seq<Handler>, cap: nat) {
    forall data: Bytes, i, j | |data| <= cap && 0 <= i < j < |hs| ::
      hs[i].condition(data) == 0 || hs[j].condition(data) == 0
  }

  /** No handler asks for more than it was shown. */
  ghost predicate Bounded(hs: seq<Handler>, cap: nat) {
    forall data: Bytes, h | |data| <= cap && h in hs :: Abs(h.condition(data)) <= |data|
  }

  lemma {:induction false} ExclusiveNeverStale(hs: seq<Handler>, cap: nat, data: Bytes)
    requires Exclusive(hs, cap) && |data| <= cap
    ensures NoStaleAnswer(hs, data)
    decreases |data|
  {
    var i := FirstFiring(hs, 0, data);
    if data != [] && i < |hs| {
      var n := hs[i].condition(data);
      if Abs(n) <= |data| {
        ExclusiveNeverStale(hs, cap, data[Abs(n)..]);
      }
      OthersAnswerZero(hs, cap, data);
    }
  }

  lemma {:induction false} OthersAnswerZero(hs: seq<Handler>, cap: nat, data: Bytes)
    requires Exclusive(hs, cap) && |data| <= cap && FirstFiring(hs, 0, data) < |hs|
    ensures FirstFiring(hs, FirstFiring(hs, 0, data) + 1, data) == |hs|
  {
  }

  lemma {:induction false} SimpleEndsQuiet(hs: seq<Handler>, data: Bytes, pops: seq<Pop>)
    ensures var r := Simple(hs, data, pops); r.failure == None ==> Quiet(hs, r.buffer)
    ensures var r := Simple(hs, data, pops); r.failure in {None, Some(ConditionOverread)}
    decreases |data|
  {
    var i := FirstFiring(hs, 0, data);
    if data != [] && i < |hs| {
      var n := hs[i].condition(data);
      if Abs(n) <= |data| {
        SimpleEndsQuiet(hs, data[Abs(n)..], pops + [Pop(hs[i].fd, n, data[..Abs(n)])]);
      }
    }
  }

  lemma {:induction false} BoundedNeverFails(hs: seq<Handler>, cap: nat, data: Bytes, pops: seq<Pop>)
    requires Bounded(hs, cap) && |data| <= cap
    ensures Simple(hs, data, pops).failure == None
    ensures |Simple(hs, data, pops).buffer| <= |data|
    decreases |data|
  {
    var i := FirstFiring(hs, 0, data);
    if data != [] && i < |hs| {
      var n := hs[i].condition(data);
      assert Abs(hs[i].condition(data)) <= |data|;
      BoundedNeverFails(hs, cap, data[Abs(n)..], pops + [Pop(hs[i].fd, n, data[..Abs(n)])]);
    }
  }

  /** Exclusive, bounded handlers: the dispatcher is the simple iteration, it never throws, and it
      leaves a buffer on which every handler answers 0. */
  lemma {:induction false} ExclusiveRefinement(hs: seq<Handler>, cap: nat, data: Bytes, pops: seq<Pop>)
    requires Exclusive(hs, cap) && Bounded(hs, cap) && |data| <= cap
    ensures var r := Loop(hs, 0, data, State(data, pops, None));
            r == Simple(hs, data, pops) && r.failure == None && Quiet(hs, r.buffer)
  {
    ExclusiveNeverStale(hs, cap, data);
    DispatcherRefinement(hs, data, pops);
    SimpleEndsQuiet(hs, data, pops);
    BoundedNeverFails(hs, cap, data, pops);
  }

  // ---------------------------------------------------------------- conservation, any handlers

  function BytesOf(pops: seq<Pop>): seq<Bytes> {
    seq(|pops|, i requires 0 <= i < |pops| => pops[i].bytes)
  }

  function Popped(pops: seq<Pop>): Bytes {
    Concat(BytesOf(pops))
  }

  lemma {:induction false} PoppedSnoc(pops: seq<Pop>, p: Pop)
    ensures Popped(pops + [p]) == Popped(pops) + p.bytes
  {
    assert BytesOf(pops + [p]) == BytesOf(pops) + [p.bytes];
    ConcatSnoc(BytesOf(pops), p.bytes);
  }

  /** Each pop holds as many bytes as the handler asked for. */
  ghost predicate Sized(pops: seq<Pop>) {
    forall p | p in pops :: p.answer != 0 && |p.bytes| == Abs(p.answer)
  }

  lemma {:induction false} FireConserves(h: Handler, n: int, data: Bytes, st: State)
    requires st.failure == None && n != 0
    ensures var r := Fire(h, n, data, st);
            Popped(r.pops) + r.buffer == Popped(st.pops) + st.buffer
            && (Sized(st.pops) ==> Sized(r.pops))
  {
    var r := Fire(h, n, data, st);
    if r.failure == None {
      PoppedSnoc(st.pops, r.pops[|st.pops|]);
    }
  }

  /** Any handlers, any data, live or stale, thrown or not: pops in time order, then the buffer,
      are what the buffer held. */
  lemma {:induction false} Conservation(hs: seq<Handler>, i: nat, data: Bytes, st: State)
    requires st.failure == None
    ensures var r := Loop(hs, i, data, st);
            && Popped(r.pops) + r.buffer == Popped(st.pops) + st.buffer
            && st.pops <= r.pops
            && (Sized(st.pops) ==> Sized(r.pops))
    decreases |data|, |hs| - i
  {
    if data != [] && i < |hs| {
      var n := hs[i].condition(data);
      if n == 0 {
        Conservation(hs, i + 1, data, st);
      } else {
        var popped := Fire(hs[i], n, data, st);
        FireConserves(hs[i], n, data, st);
        if popped.failure == None {
          var nested := Loop(hs, 0, data[Abs(n)..], popped);
          Conservation(hs, 0, data[Abs(n)..], popped);
          if nested.failure == None {
            Conservation(hs, i + 1, data, nested);
          }
        }
      }
    }
  }

  // ---------------------------------------------------------------- whose answers, any handlers

  /** Handler `h` gave `answer` when it was shown what is left of `data` from `k` on. */
  ghost predicate Asked(h: Handler, data: Bytes, k: nat, answer: int) {
    k <= |data| && h.condition(data[k..]) == answer
  }

  /** A pop for `fd` is what a handler of that fd asked for, shown some rest of `data`. */
  ghost predicate IsAnswer(hs: seq<Handler>, data: Bytes, p: Pop) {
    exists i, k: nat :: 0 <= i < |hs| && hs[i].fd == p.fd && Asked(hs[i], data, k, p.answer)
  }

  /** Some handler asked for more than it was shown. */
  ghost predicate Overread(hs: seq<Handler>, data: Bytes) {
    exists i, k: nat, n: int :: 0 <= i < |hs| && Asked(hs[i], data, k, n) && Abs(n) > |data| - k
  }

  /** Some handler asked for no more than it was shown, but for more than `live` bytes. */
  ghost predicate Overpop(hs: seq<Handler>, data: Bytes, live: nat) {
    exists i, k: nat, n: int :: 0 <= i < |hs| && Asked(hs[i], data, k, n) && live < Abs(n) <= |data| - k
  }

  /** What a run of the loop says about the handlers' answers. */
  ghost predicate Faithful(hs: seq<Handler>, data: Bytes, st: State, r: State) {
    && |st.pops| <= |r.pops|
    && (forall j | |st.pops| <= j < |r.pops| :: IsAnswer(hs, data, r.pops[j]))
    && match r.failure
       case None => true
       case Some(ConditionOverread) => Overread(hs, data)
       case Some(OutOfRange) => Overpop(hs, data, |r.buffer|)
       case Some(_) => false
  }

  lemma {:induction false} FireFaithful(hs: seq<Handler>, i: nat, data: Bytes, st: State)
    requires i < |hs| && st.failure == None
    ensures Faithful(hs, data, st, Fire(hs[i], hs[i].condition(data), data, st))
  {
    assert data[0..] == data;
    assert Asked(hs[i], data, 0, hs[i].condition(data));
  }

  lemma {:induction false} AskedInRest(h: Handler, data: Bytes, n: nat, k: nat, answer: int)
    requires n <= |data| && Asked(h, data[n..], k, answer)
    ensures Asked(h, data, n + k, answer)
  {
    assert data[n..][k..] == data[n + k..];
  }

  lemma {:induction false} FaithfulInRest(hs: seq<Handler>, data: Bytes, n: nat, st: State, r: State)
    requires n <= |data| && Faithful(hs, data[n..], st, r)
    ensures Faithful(hs, data, st, r)
  {
    forall i: nat, k: nat, answer | i < |hs| && Asked(hs[i], data[n..], k, answer)
      ensures Asked(hs[i], data, n + k, answer)
    {
      AskedInRest(hs[i], data, n, k, answer);
    }
    hide Asked;
    forall j | |st.pops| <= j < |r.pops| ensures IsAnswer(hs, data, r.pops[j]) {
      var p := r.pops[j];
      assert IsAnswer(hs, data[n..], p);
      var i: nat, k: nat :| i < |hs| && hs[i].fd == p.fd && Asked(hs[i], data[n..], k, p.answer);
      assert Asked(hs[i], data, n + k, p.answer);
    }
    if r.failure == Some(ConditionOverread) {
      var i: nat, k: nat, a: int :| i < |hs| && Asked(hs[i], data[n..], k, a) && Abs(a) > |data[n..]| - k;
      assert Asked(hs[i], data, n + k, a);
    }
    if r.failure == Some(OutOfRange) {
      var i: nat, k: nat, a: int :|
        i < |hs| && Asked(hs[i], data[n..], k, a) && |r.buffer| < Abs(a) <= |data[n..]| - k;
      assert Asked(hs[i], data, n + k, a);
    }
  }

  lemma {:induction false} FaithfulTwice(hs: seq<Handler>, data: Bytes, a: State, b: State, c: State)
    requires Faithful(hs, data, a, b) && Faithful(hs, data, b, c) && b.pops <= c.pops
    ensures Faithful(hs, data, a, c)
  {
    hide IsAnswer, Overread, Overpop;
  }

  /** Any handlers, live or stale, returning or throwing: every pop is the answer of a handler of its fd to
      some rest of the snapshot; and what a throw says is true of such an answer. */
  lemma {:induction false} PopsAreAnswers(hs: seq<Handler>, i: nat, data: Bytes, st: State)
    requires st.failure == None
    ensures Faithful(hs, data, st, Loop(hs, i, data, st))
    decreases |data|, |hs| - i
  {
    hide *;
    if data == [] || i >= |hs| {
      NothingToDo(hs, i, data, st);
      FaithfulNothing(hs, data, st);
    } else {
      var n := hs[i].condition(data);
      CostUnfolds(hs, i, data, st);
      if n == 0 {
        PopsAreAnswers(hs, i + 1, data, st);
      } else {
        var popped := Fire(hs[i], n, data, st);
        FireFaithful(hs, i, data, st);
        if popped.failure == None {
          var nested := Loop(hs, 0, data[Abs(n)..], popped);
          PopsAreAnswers(hs, 0, data[Abs(n)..], popped);
          FaithfulInRest(hs, data, Abs(n), popped, nested);
          Conservation(hs, 0, data[Abs(n)..], popped);
          FaithfulTwice(hs, data, st, popped, nested);
          if nested.failure == None {
            PopsAreAnswers(hs, i + 1, data, nested);
            Conservation(hs, i + 1, data, nested);
            FaithfulTwice(hs, data, st, nested, Loop(hs, i + 1, data, nested));
          }
        }
      }
    }
  }

  lemma {:induction false} FaithfulNothing(hs: seq<Handler>, data: Bytes, st: State)
    requires st.failure == None
    ensures Faithful(hs, data, st, st)
  {
  }

  // ---------------------------------------------------------------- work

  datatype Work = Work(evaluations: nat, depth: nat)

  /** Condition evaluations of the loop from `i` on, and how deep its calls nest (1: no recursion). */
  function Cost(hs: seq<Handler>, i: nat, data: Bytes, st: State): (w: Work)
    requires st.failure == None
    ensures 1 <= w.depth
    decreases |data|, |hs| - i
  {
    if data == [] || i >= |hs| then Work(0, 1) else
      var n := hs[i].condition(data);
      var popped := if n == 0 then st else Fire(hs[i], n, data, st);
      if n == 0 then
        var w := Cost(hs, i + 1, data, st);
        w.(evaluations := w.evaluations + 1)
      else if popped.failure != None then Work(1, 1)
      else
        var nested := Loop(hs, 0, data[Abs(n)..], popped);
        var inner := Cost(hs, 0, data[Abs(n)..], popped);
        if nested.failure != None then Work(1 + inner.evaluations, 1 + inner.depth)
        else
          var later := Cost(hs, i + 1, data, nested);
          Work(1 + inner.evaluations + later.evaluations,
               if inner.depth + 1 > later.depth then inner.depth + 1 else later.depth)
  }

  lemma {:induction false} QuietCost(hs: seq<Handler>, i: nat, data: Bytes, st: State)
    requires i <= |hs| && st.failure == None && FirstFiring(hs, i, data) == |hs|
    ensures Cost(hs, i, data, st).depth == 1
    decreases |hs| - i
  {
    if data != [] && i < |hs| {
      QuietCost(hs, i + 1, data, st);
    }
  }

  lemma {:induction false} SkipCost(hs: seq<Handler>, i: nat, data: Bytes, st: State)
    requires i <= |hs| && st.failure == None && data != []
    ensures Cost(hs, i, data, st).depth == Cost(hs, FirstFiring(hs, i, data), data, st).depth
    decreases |hs| - i
  {
    if i < |hs| && hs[i].condition(data) == 0 {
      SkipCost(hs, i + 1, data, st);
    }
  }

  lemma {:induction false} PopsTakeBytes(hs: seq<Handler>, i: nat, data: Bytes, st: State)
    requires st.failure == None
    ensures var r := Loop(hs, i, data, st); |r.pops| - |st.pops| <= |st.buffer| - |r.buffer|
    decreases |data|, |hs| - i
  {
    if data != [] && i < |hs| {
      var n := hs[i].condition(data);
      if n == 0 {
        PopsTakeBytes(hs, i + 1, data, st);
      } else {
        var popped := Fire(hs[i], n, data, st);
        if popped.failure == None {
          var nested := Loop(hs, 0, data[Abs(n)..], popped);
          PopsTakeBytes(hs, 0, data[Abs(n)..], popped);
          if nested.failure == None {
            PopsTakeBytes(hs, i + 1, data, nested);
          }
        }
      }
    }
  }

  /** What asking all `handlers` once in each of `calls` calls costs. */
  function Rounds(handlers: nat, calls: nat): nat {
    handlers * calls
  }

  lemma {:induction false} RoundsAdd(handlers: nat, a: nat, b: nat)
    ensures Rounds(handlers, a + 1 + b) == handlers + Rounds(handlers, a) + Rounds(handlers, b)
    ensures Rounds(handlers, 0) == 0
  {
  }

  lemma {:induction false} RoundsTotal(handlers: nat, calls: nat)
    ensures handlers + Rounds(handlers, calls) == handlers * (calls + 1)
  {
  }

  /** The loop and its cost, one handler further. */
  lemma {:induction false} CostUnfolds(hs: seq<Handler>, i: nat, data: Bytes, st: State)
    requires i < |hs| && data != [] && st.failure == None
    ensures var n := hs[i].condition(data);
            var r, w := Loop(hs, i, data, st), Cost(hs, i, data, st);
            if n == 0 then
              var later := Cost(hs, i + 1, data, st);
              r == Loop(hs, i + 1, data, st) && w == Work(later.evaluations + 1, later.depth)
            else
              var popped := Fire(hs[i], n, data, st);
              if popped.failure != None then r == popped && w == Work(1, 1) else
                && Abs(n) <= |data| && 0 < Abs(n)
                && var nested, inner := Loop(hs, 0, data[Abs(n)..], popped), Cost(hs, 0, data[Abs(n)..], popped);
                   if nested.failure != None then r == nested && w == Work(1 + inner.evaluations, 1 + inner.depth) else
                     var later := Cost(hs, i + 1, data, nested);
                     && r == Loop(hs, i + 1, data, nested)
                     && w.evaluations == 1 + inner.evaluations + later.evaluations
                     && w.depth == if 1 + inner.depth > later.depth then 1 + inner.depth else later.depth
  {
    hide Fire;
  }

  lemma {:induction false} NothingToDo(hs: seq<Handler>, i: nat, data: Bytes, st: State)
    requires st.failure == None && (data == [] || i >= |hs|)
    ensures Loop(hs, i, data, st) == st && Cost(hs, i, data, st) == Work(0, 1)
  {
  }

  lemma {:induction false} EvaluationBound(hs: seq<Handler>, i: nat, data: Bytes, st: State)
    requires i <= |hs| && st.failure == None
    ensures var r := Loop(hs, i, data, st);
            var w := Cost(hs, i, data, st);
            && w.depth <= |r.pops| - |st.pops| + 1
            && w.evaluations <= (|hs| - i) + Rounds(|hs|, |r.pops| - |st.pops|)
    decreases |data|, |hs| - i
  {
    hide *;
    RoundsAdd(|hs|, 0, 0);
    if data == [] || i == |hs| {
      NothingToDo(hs, i, data, st);
    } else {
      CostUnfolds(hs, i, data, st);
      var n := hs[i].condition(data);
      if n == 0 {
        EvaluationBound(hs, i + 1, data, st);
      } else {
        var popped := Fire(hs[i], n, data, st);
        if popped.failure == None {
          var nested := Loop(hs, 0, data[Abs(n)..], popped);
          EvaluationBound(hs, 0, data[Abs(n)..], popped);
          if nested.failure == None {
            EvaluationBound(hs, i + 1, data, nested);
            RoundsAdd(|hs|, |nested.pops| - |popped.pops|, |Loop(hs, i + 1, data, nested).pops| - |nested.pops|);
          } else {
            RoundsAdd(|hs|, |nested.pops| - |popped.pops|, 0);
          }
        }
      }
    }
  }

  /** Any handlers, live or stale, returning or throwing: the recursion nests at most once per pop, every
      call asks each handler at most once, and every pop takes at least one byte. */
  lemma {:induction false} WorkBound(hs: seq<Handler>, data: Bytes, st: State)
    requires st.failure == None
    ensures var r := Loop(hs, 0, data, st);
            var w := Cost(hs, 0, data, st);
            var pops := |r.pops| - |st.pops|;
            && w.depth <= pops + 1
            && w.evaluations <= |hs| * (pops + 1)
            && pops <= |st.buffer| - |r.buffer|
  {
    hide *;
    EvaluationBound(hs, 0, data, st);
    PopsTakeBytes(hs, 0, data, st);
    RoundsTotal(|hs|, |Loop(hs, 0, data, st).pops| - |st.pops|);
  }

  /** Exclusive handlers: the recursion nests exactly once per pop. */
  lemma {:induction false} ExclusiveDepth(hs: seq<Handler>, cap: nat, data: Bytes, pops: seq<Pop>)
    requires Exclusive(hs, cap) && Bounded(hs, cap) && |data| <= cap
    ensures Cost(hs, 0, data, State(data, pops, None)).depth
         == |Loop(hs, 0, data, State(data, pops, None)).pops| - |pops| + 1
    decreases |data|
  {
    var st := State(data, pops, None);
    var i := FirstFiring(hs, 0, data);
    if data != [] && i < |hs| {
      FirstPop(hs, cap, data, pops);
      hide *;
      var n := hs[i].condition(data);
      var rest := data[Abs(n)..];
      var popped := Fire(hs[i], n, data, st);
      ExclusiveRefinement(hs, cap, rest, popped.pops);
      ExclusiveDepth(hs, cap, rest, popped.pops);
      OneMoreCallFromStart(hs, cap, data, st);
    } else {
      NoWork(hs, data, st);
    }
  }

  lemma {:induction false} FirstPop(hs: seq<Handler>, cap: nat, data: Bytes, pops: seq<Pop>)
    requires Bounded(hs, cap) && |data| <= cap && FirstFiring(hs, 0, data) < |hs|
    ensures var h := hs[FirstFiring(hs, 0, data)];
            var n := h.condition(data);
            && 0 < Abs(n) <= |data|
            && Fire(h, n, data, State(data, pops, None))
               == State(data[Abs(n)..], pops + [Pop(h.fd, n, data[..Abs(n)])], None)
  {
    assert Abs(hs[FirstFiring(hs, 0, data)].condition(data)) <= |data|;
  }

  lemma {:induction false} NoWork(hs: seq<Handler>, data: Bytes, st: State)
    requires st.failure == None && (data == [] || FirstFiring(hs, 0, data) == |hs|)
    ensures Loop(hs, 0, data, st) == st
    ensures Cost(hs, 0, data, st).depth == 1
  {
    if data != [] {
      QuietCost(hs, 0, data, st);
      LoopSkips(hs, 0, data, st);
    }
  }

  lemma {:induction false} OneMoreCallFromStart(hs: seq<Handler>, cap: nat, data: Bytes, st: State)
    requires Exclusive(hs, cap) && |data| <= cap && data != [] && st.failure == None
    requires FirstFiring(hs, 0, data) < |hs|
    requires var i := FirstFiring(hs, 0, data);
             var n := hs[i].condition(data);
             && Fire(hs[i], n, data, st).failure == None
             && Loop(hs, 0, data[Abs(n)..], Fire(hs[i], n, data, st)).failure == None
    ensures var i := FirstFiring(hs, 0, data);
            var n := hs[i].condition(data);
            var popped := Fire(hs[i], n, data, st);
            var inner := Cost(hs, 0, data[Abs(n)..], popped);
            && Cost(hs, 0, data, st).depth == inner.depth + 1
            && Loop(hs, 0, data, st) == Loop(hs, 0, data[Abs(n)..], popped)
  {
    var i := FirstFiring(hs, 0, data);
    OthersAnswerZero(hs, cap, data);
    SkipCost(hs, 0, data, st);
    LoopSkips(hs, 0, data, st);
    OneMoreCall(hs, i, data, st);
  }

  /** A call whose handler `i` is the only one to fire costs one call more than the nested one. */
  lemma {:induction false} OneMoreCall(hs: seq<Handler>, i: nat, data: Bytes, st: State)
    requires i < |hs| && data != [] && st.failure == None && FirstFiring(hs, i + 1, data) == |hs|
    requires var n := hs[i].condition(data); n != 0 && Fire(hs[i], n, data, st).failure == None
    requires var n := hs[i].condition(data);
             Loop(hs, 0, data[Abs(n)..], Fire(hs[i], n, data, st)).failure == None
    ensures var n := hs[i].condition(data);
            var popped := Fire(hs[i], n, data, st);
            var inner := Cost(hs, 0, data[Abs(n)..], popped);
            && Cost(hs, i, data, st).depth == inner.depth + 1
            && Loop(hs, i, data, st) == Loop(hs, 0, data[Abs(n)..], popped)
  {
    var n := hs[i].condition(data);
    var nested := Loop(hs, 0, data[Abs(n)..], Fire(hs[i], n, data, st));
    QuietCost(hs, i + 1, data, nested);
    LoopSkips(hs, i + 1, data, nested);
  }

  /** At every entry of the recursion from here on, the snapshot is the live buffer. */
  ghost predicate SnapshotsLive(hs: seq<Handler>, i: nat, data: Bytes, st: State)
    requires st.failure == None
    decreases |data|, |hs| - i
  {
    if data == [] || i >= |hs| then true else
      var n := hs[i].condition(data);
      if n == 0 then SnapshotsLive(hs, i + 1, data, st) else
        var popped := Fire(hs[i], n, data, st);
        popped.failure == None ==>
          var nested := Loop(hs, 0, data[Abs(n)..], popped);
          && data[Abs(n)..] == popped.buffer
          && SnapshotsLive(hs, 0, data[Abs(n)..], popped)
          && (nested.failure == None ==> SnapshotsLive(hs, i + 1, data, nested))
  }

  lemma {:induction false} QuietIsLive(hs: seq<Handler>, i: nat, data: Bytes, st: State)
    requires i <= |hs| && st.failure == None
    ensures SnapshotsLive(hs, FirstFiring(hs, i, data), data, st) ==> SnapshotsLive(hs, i, data, st)
    decreases |hs| - i
  {
    if data != [] && i < |hs| && hs[i].condition(data) == 0 {
      QuietIsLive(hs, i + 1, data, st);
    }
  }

  /** Without stale answers every recursive call is made on exactly what the buffer holds. */
  lemma {:induction false} NoStaleAnswerKeepsLive(hs: seq<Handler>, data: Bytes, pops: seq<Pop>)
    requires NoStaleAnswer(hs, data)
    ensures SnapshotsLive(hs, 0, data, State(data, pops, None))
    decreases |data|
  {
    var st := State(data, pops, None);
    var i := FirstFiring(hs, 0, data);
    if data != [] && i < |hs| && Abs(hs[i].condition(data)) <= |data| {
      var n := hs[i].condition(data);
      var popped := Fire(hs[i], n, data, st);
      NoStaleAnswerKeepsLive(hs, data[Abs(n)..], popped.pops);
      AgreesOrDeparts(hs, data[Abs(n)..], popped.pops);
      SimpleShift(hs, data[Abs(n)..], popped.pops);
      var nested := Loop(hs, 0, data[Abs(n)..], popped);
      if nested.failure == None {
        QuietIsLive(hs, i + 1, data, nested);
      }
    }
    QuietIsLive(hs, 0, data, st);
  }
}
