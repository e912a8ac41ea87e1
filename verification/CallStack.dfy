/** The recursion of `processDataSendSignals` without recursion: one step per question to a handler, with
    the calls that are still open on an explicit stack. */
module CallStack {
  import opened Basics
  import opened Dispatcher

  /** An open call: its snapshot, and the handler that it will ask next. */
  datatype Frame = Frame(next: nat, data: Bytes)

  /** `asked` counts the questions, `deepest` is the greatest number of calls open at once. */
  datatype Machine = Machine(stack: seq<Frame>, state: State, asked: nat, deepest: nat)

  /** All calls have returned, or an exception leaves them. */
  predicate Halted(m: Machine) {
    m.stack == [] || m.state.failure != None
  }

  function Step(hs: seq<Handler>, m: Machine): Machine {
    if Halted(m) then m else
      var below, top := m.stack[..|m.stack| - 1], m.stack[|m.stack| - 1];
      if top.data == [] || top.next >= |hs| then
        m.(stack := below)
      else
        var h := hs[top.next];
        var n := h.condition(top.data);
        var buffer := m.state.buffer;
        var open := below + [Frame(top.next + 1, top.data)];
        if n == 0 then
          Machine(open, m.state, m.asked + 1, m.deepest)
        else if Abs(n) > |top.data| then
          Machine(open, m.state.(failure := Some(ConditionOverread)), m.asked + 1, m.deepest)
        else if Abs(n) > |buffer| then
          Machine(open, m.state.(failure := Some(OutOfRange)), m.asked + 1, m.deepest)
        else
          var nested := open + [Frame(0, top.data[Abs(n)..])];
          Machine(nested,
                  State(buffer[Abs(n)..], m.state.pops + [Pop(h.fd, n, buffer[..Abs(n)])], None),
                  m.asked + 1,
                  if |nested| > m.deepest then |nested| else m.deepest)
  }

  function Steps(hs: seq<Handler>, m: Machine, k: nat): Machine
    decreases k
  {
    if k == 0 then m else Steps(hs, Step(hs, m), k - 1)
  }

  lemma {:induction false} StepsAdd(hs: seq<Handler>, m: Machine, a: nat, b: nat)
    ensures Steps(hs, m, a + b) == Steps(hs, Steps(hs, m, a), b)
    decreases a
  {
    hide Step;
    if a > 0 {
      StepsAdd(hs, Step(hs, m), a - 1, b);
    }
  }

  /** A call of the loop from handler `i` on, above the calls `below`, and how it comes out. */
  ghost predicate ComesOut(hs: seq<Handler>, below: seq<Frame>, i: nat, data: Bytes, m: Machine, e: Machine)
    requires m.state.failure == None
  {
    var r, w := Loop(hs, i, data, m.state), Cost(hs, i, data, m.state);
    && e.state == r && e.asked == m.asked + w.evaluations
    && e.deepest == (if |below| + w.depth > m.deepest then |below| + w.depth else m.deepest)
    && (r.failure == None ==> e.stack == below)
  }

  /** The machine is about to run that call. */
  ghost predicate Runs(below: seq<Frame>, i: nat, data: Bytes, m: Machine) {
    m.stack == below + [Frame(i, data)] && m.state.failure == None && |m.stack| <= m.deepest
  }

  lemma {:induction false} OneStep(hs: seq<Handler>, m: Machine)
    ensures Steps(hs, m, 1) == Step(hs, m)
  {
    assert Steps(hs, Step(hs, m), 0) == Step(hs, m);
  }

  lemma {:induction false} CallReturns(hs: seq<Handler>, below: seq<Frame>, i: nat, data: Bytes, m: Machine)
    requires Runs(below, i, data, m) && (data == [] || i >= |hs|)
    ensures ComesOut(hs, below, i, data, m, Step(hs, m))
  {
    NothingToDo(hs, i, data, m.state);
    hide Loop, Cost;
    assert m.stack[..|m.stack| - 1] == below;
  }

  /** What one question leads to, in terms of the loop. */
  lemma {:induction false} CallAsks(hs: seq<Handler>, below: seq<Frame>, i: nat, data: Bytes, m: Machine)
    requires Runs(below, i, data, m) && data != [] && i < |hs|
    ensures var n := hs[i].condition(data);
            var e := Step(hs, m);
            if n == 0 then
              Runs(below, i + 1, data, e) && e == Machine(below + [Frame(i + 1, data)], m.state, m.asked + 1, m.deepest)
            else
              var popped := Fire(hs[i], n, data, m.state);
              && e.state == popped && e.asked == m.asked + 1
              && (popped.failure != None ==> e.deepest == m.deepest)
              && (popped.failure == None ==>
                    && Abs(n) <= |data| && Runs(below + [Frame(i + 1, data)], 0, data[Abs(n)..], e)
                    && e.deepest == if |below| + 2 > m.deepest then |below| + 2 else m.deepest)
  {
    assert m.stack[..|m.stack| - 1] == below && m.stack[|m.stack| - 1] == Frame(i, data);
  }

  lemma {:induction false} CostPositive(hs: seq<Handler>, i: nat, data: Bytes, st: State)
    requires st.failure == None
    ensures 1 <= Cost(hs, i, data, st).depth
  {
    hide Loop;
  }

  /** Every call of the loop is what the machine does from there, until it is back at `below`. */
  lemma {:induction false} CallRuns(hs: seq<Handler>, below: seq<Frame>, i: nat, data: Bytes, m: Machine)
    returns (k: nat)
    requires Runs(below, i, data, m)
    ensures m.state.failure == None && ComesOut(hs, below, i, data, m, Steps(hs, m, k))
    decreases |data|, |hs| - i
  {
    hide Step, Steps, Loop, Cost, Fire;
    var e := Step(hs, m);
    OneStep(hs, m);
    if data == [] || i >= |hs| {
      CallReturns(hs, below, i, data, m);
      k := 1;
    } else {
      CallAsks(hs, below, i, data, m);
      CostUnfolds(hs, i, data, m.state);
      var n := hs[i].condition(data);
      if n == 0 {
        var later := CallRuns(hs, below, i + 1, data, e);
        StepsAdd(hs, m, 1, later);
        k := 1 + later;
      } else if e.state.failure != None {
        k := 1;
      } else {
        var open := below + [Frame(i + 1, data)];
        var inner := CallRuns(hs, open, 0, data[Abs(n)..], e);
        StepsAdd(hs, m, 1, inner);
        k := 1 + inner;
        var back := Steps(hs, m, k);
        if back.state.failure == None {
          var later := CallRuns(hs, below, i + 1, data, back);
          StepsAdd(hs, m, k, later);
          k := k + later;
        }
      }
    }
  }

  /** Any handlers, live or stale, returning or throwing: the recursive loop ends, and it ends where the
      machine halts: the same pops in the same order, the same buffer, the same exception, with as many
      questions asked and calls open at once as `Cost` counts. */
  lemma {:induction false} RecursionIsStack(hs: seq<Handler>, data: Bytes, st: State)
    requires st.failure == None
    ensures exists k: nat :: var e := Steps(hs, Machine([Frame(0, data)], st, 0, 1), k);
              && Halted(e) && e.state == Loop(hs, 0, data, st)
              && Work(e.asked, e.deepest) == Cost(hs, 0, data, st)
  {
    var m := Machine([Frame(0, data)], st, 0, 1);
    assert [] + [Frame(0, data)] == m.stack;
    var k := CallRuns(hs, [], 0, data, m);
    CostPositive(hs, 0, data, st);
    hide Step, Steps, Loop, Cost;
    assert Halted(Steps(hs, m, k));
  }
}
