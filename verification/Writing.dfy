/** The retry loop of `Stream::write`, one round at a time, alone and with other writers in between. */
module Writing {
  import opened Basics
  import opened Shares

  /** What the operating system answers to one `::write`. */
  datatype Answer = Refused | Accepted(most: nat)

  datatype Progress = Trying | Returned | Threw(error: Error)

  /** A call of `Stream::write`: its locals, and whether it is still in the loop. */
  datatype Writer = Writer(message: Bytes, budget: nat, sent: nat, attempts: nat, progress: Progress)

  /** Where the loop goes when `sent` bytes are out and `attempts` rounds are left. */
  function Settle(message: Bytes, sent: nat, attempts: nat): Progress {
    if sent == |message| then Returned
    else if attempts == 0 then Threw(WritePartial(sent))
    else Trying
  }

  /** The loop head is tested first: even an empty message needs an attempt to be left by `break`. */
  function Start(message: Bytes, attempts: nat): Writer {
    Writer(message, attempts, 0, attempts, if attempts == 0 then Settle(message, 0, 0) else Trying)
  }

  ghost predicate Live(w: Writer) {
    w.sent <= |w.message| && w.attempts <= w.budget && (w.progress == Trying ==> w.attempts > 0)
  }

  /** A normal return means everything is out, a partial-write error counts exactly what is out. */
  ghost predicate Truthful(w: Writer) {
    && (w.progress == Returned ==> w.sent == |w.message|)
    && (w.sent == |w.message| && w.message != [] ==> w.progress == Returned)
    && (w.progress.Threw? && w.progress.error != WriteFailed ==>
          w.progress.error == WritePartial(w.sent) && w.sent < |w.message| && w.attempts == 0)
  }

  /** How much of the unsent rest one `::write` takes. */
  function Sendable(w: Writer, answer: Answer): (k: nat)
    requires w.sent <= |w.message|
    ensures w.sent + k <= |w.message|
  {
    match answer
    case Refused => 0
    case Accepted(most) => Min(most, |w.message| - w.sent)
  }

  /** One round of the loop, made while the write lock is held. */
  function Round(w: Writer, answer: Answer): (r: Writer)
    requires Live(w) && Truthful(w) && w.progress == Trying
    ensures Live(r) && Truthful(r) && r.message == w.message && r.budget == w.budget && r.attempts == w.attempts - 1
    ensures r.sent == w.sent + Sendable(w, answer)
  {
    match answer
    case Refused => w.(attempts := w.attempts - 1, progress := Threw(WriteFailed))
    case Accepted(_) =>
      var sent := w.sent + Sendable(w, answer);
      Writer(w.message, w.budget, sent, w.attempts - 1, Settle(w.message, sent, w.attempts - 1))
  }

  /** The whole call when nobody interferes; `clock` counts the OS writes of the stream. */
  function Finish(answers: nat -> Answer, clock: nat, w: Writer): (r: Writer)
    requires Live(w) && Truthful(w)
    ensures Live(r) && Truthful(r) && r.progress != Trying
    ensures r.message == w.message && w.sent <= r.sent && r.attempts <= w.attempts
    decreases w.attempts
  {
    if w.progress != Trying then w else Finish(answers, clock + 1, Round(w, answers(clock)))
  }

  lemma {:induction false} StartIsTruthful(message: Bytes, attempts: nat)
    ensures Live(Start(message, attempts)) && Truthful(Start(message, attempts))
  {
  }

  lemma {:induction false} FinishStep(answers: nat -> Answer, clock: nat, w: Writer)
    requires Live(w) && Truthful(w)
    ensures Finish(answers, clock, w)
         == if w.progress != Trying then w else Finish(answers, clock + 1, Round(w, answers(clock)))
  {
  }

  // ---------------------------------------------------------------- a call, by the answers it got

  /** How much of a long enough message these answers take together. */
  function Total(answers: seq<Answer>): nat {
    if answers == [] then 0 else
      var last := answers[|answers| - 1];
      Total(answers[..|answers| - 1]) + if last.Accepted? then last.most else 0
  }

  /** Where a call for `message` with `budget` attempts is after exactly these answers. */
  function Outcome(message: Bytes, budget: nat, answers: seq<Answer>): Progress {
    if answers == [] then
      if budget > 0 then Trying else if message == [] then Returned else Threw(WritePartial(0))
    else if answers[|answers| - 1].Refused? then Threw(WriteFailed)
    else if Total(answers) >= |message| then Returned
    else if |answers| == budget then Threw(WritePartial(Total(answers)))
    else Trying
  }

  /** The call took these answers one by one, each while it was still trying, and stands accordingly. */
  ghost predicate After(w: Writer, message: Bytes, budget: nat, answers: seq<Answer>) {
    && |answers| <= budget
    && (forall j | 0 <= j < |answers| :: Outcome(message, budget, answers[..j]) == Trying)
    && w == Writer(message, budget, Min(|message|, Total(answers)), budget - |answers|,
                   Outcome(message, budget, answers))
  }

  lemma {:induction false} StartAfter(message: Bytes, budget: nat)
    ensures After(Start(message, budget), message, budget, [])
  {
  }

  lemma {:induction false} RoundAfter(w: Writer, message: Bytes, budget: nat, answers: seq<Answer>, answer: Answer)
    requires After(w, message, budget, answers) && w.progress == Trying && Live(w) && Truthful(w)
    ensures After(Round(w, answer), message, budget, answers + [answer])
  {
    var all := answers + [answer];
    assert all[..|answers|] == answers;
    assert forall j | 0 <= j < |answers| :: all[..j] == answers[..j];
  }

  /** An uninterrupted call is exactly what its answers make of it: it stops at the first refusal, or
      when everything is out, or when the attempts are used up, and at nothing else. */
  lemma {:induction false} FinishExactly(answers: nat -> Answer, clock: nat, message: Bytes, budget: nat)
    ensures var r := Finish(answers, clock, Start(message, budget));
            && r.progress != Trying && r.attempts <= budget
            && After(r, message, budget, seq(budget - r.attempts, j requires 0 <= j => answers(clock + j)))
  {
    StartAfter(message, budget);
    FinishAfter(answers, clock, message, budget, Start(message, budget), []);
    var r := Finish(answers, clock, Start(message, budget));
    assert [] + seq(budget - r.attempts, j requires 0 <= j => answers(clock + j))
        == seq(budget - r.attempts, j requires 0 <= j => answers(clock + j));
  }

  lemma {:induction false} FinishAfter(answers: nat -> Answer, clock: nat, message: Bytes, budget: nat,
                                       w: Writer, got: seq<Answer>)
    requires After(w, message, budget, got) && Live(w) && Truthful(w)
    ensures var r := Finish(answers, clock, w);
            && r.attempts <= w.attempts
            && After(r, message, budget, got + seq(w.attempts - r.attempts, j requires 0 <= j => answers(clock + j)))
    decreases w.attempts
  {
    hide After, Finish, Round, Truthful;
    var r := Finish(answers, clock, w);
    FinishStep(answers, clock, w);
    if w.progress != Trying {
      assert got + seq(w.attempts - r.attempts, j requires 0 <= j => answers(clock + j)) == got;
    } else {
      var next := Round(w, answers(clock));
      RoundAfter(w, message, budget, got, answers(clock));
      FinishAfter(answers, clock + 1, message, budget, next, got + [answers(clock)]);
      assert got + seq(w.attempts - r.attempts, j requires 0 <= j => answers(clock + j))
          == got + [answers(clock)] + seq(next.attempts - r.attempts, j requires 0 <= j => answers(clock + 1 + j));
    }
  }

  // ---------------------------------------------------------------- interleaved calls

  /** `owner[i]` is the call that put `wire[i]` on the wire. */
  datatype Wire = Wire(bytes: Bytes, owner: seq<nat>, writers: map<nat, Writer>)

  datatype Action =
    | Call(id: nat, message: Bytes, attempts: nat)  // a thread enters `Stream::write`
    | Write(id: nat, answer: Answer)                // it gets the lock for one round

  function Step(w: Wire, a: Action): Wire
    requires Shuffle(w)
  {
    match a
    case Call(id, message, attempts) =>
      if id in w.writers then w else w.(writers := w.writers[id := Start(message, attempts)])
    case Write(id, answer) =>
      if id !in w.writers || w.writers[id].progress != Trying then w else
        var before := w.writers[id];
        var k := Sendable(before, answer);
        Wire(w.bytes + before.message[before.sent..before.sent + k],
             w.owner + seq(k, _ => id),
             w.writers[id := Round(before, answer)])
  }

  /** Every call's bytes on the wire are a prefix of its message, and its result says how much. */
  ghost predicate Shuffle(w: Wire) {
    && |w.bytes| == |w.owner|
    && (forall i | 0 <= i < |w.owner| :: w.owner[i] in w.writers)
    && (forall id | id in w.writers :: Accounted(w.bytes, w.owner, id, w.writers[id]))
  }

  ghost predicate Accounted(bytes: Bytes, owner: seq<nat>, id: nat, w: Writer)
    requires |bytes| == |owner|
  {
    Live(w) && Truthful(w) && Share(bytes, owner, id) == w.message[..w.sent]
  }

  lemma {:induction false} RoundKeepsAccount(bytes: Bytes, owner: seq<nat>, id: nat, before: Writer, answer: Answer)
    requires |bytes| == |owner|
    requires Accounted(bytes, owner, id, before) && before.progress == Trying
    ensures var k := Sendable(before, answer);
            var out := before.message[before.sent..before.sent + k];
            Accounted(bytes + out, owner + seq(k, _ => id), id, Round(before, answer))
  {
    var k := Sendable(before, answer);
    var out := before.message[before.sent..before.sent + k];
    assert |out| == k;
    ShareGrows(bytes, owner, out, id, id);
    PrefixGrows(before.message, before.sent, k);
  }

  lemma {:induction false} PrefixGrows(message: Bytes, sent: nat, k: nat)
    requires sent + k <= |message|
    ensures message[..sent] + message[sent..sent + k] == message[..sent + k]
  {
  }

  lemma {:induction false} OthersKeepAccount(bytes: Bytes, owner: seq<nat>, id: nat, w: Writer, out: Bytes, other: nat)
    requires |bytes| == |owner| && other != id
    requires Accounted(bytes, owner, id, w)
    ensures Accounted(bytes + out, owner + seq(|out|, _ => other), id, w)
  {
    ShareGrows(bytes, owner, out, other, id);
  }

  lemma {:induction false} CallKeepsShuffle(w: Wire, id: nat, message: Bytes, attempts: nat)
    requires Shuffle(w) && id !in w.writers
    ensures Shuffle(w.(writers := w.writers[id := Start(message, attempts)]))
  {
    NotAnOwner(w.bytes, w.owner, id);
    assert Accounted(w.bytes, w.owner, id, Start(message, attempts));
    hide Accounted;
  }

  lemma {:induction false} WriteKeepsShuffle(w: Wire, id: nat, answer: Answer)
    requires Shuffle(w) && id in w.writers && w.writers[id].progress == Trying
    ensures Shuffle(Step(w, Write(id, answer)))
  {
    var before := w.writers[id];
    var k := Sendable(before, answer);
    var out := before.message[before.sent..before.sent + k];
    var after := Step(w, Write(id, answer));
    RoundKeepsAccount(w.bytes, w.owner, id, before, answer);
    hide Accounted;
    forall other | other in after.writers
      ensures Accounted(after.bytes, after.owner, other, after.writers[other])
    {
      if other != id {
        OthersKeepAccount(w.bytes, w.owner, other, w.writers[other], out, id);
      }
    }
  }

  lemma {:induction false} StepKeepsShuffle(w: Wire, a: Action)
    requires Shuffle(w)
    ensures Shuffle(Step(w, a))
  {
    match a
    case Call(id, message, attempts) =>
      if id !in w.writers {
        CallKeepsShuffle(w, id, message, attempts);
      }
    case Write(id, answer) =>
      if id in w.writers && w.writers[id].progress == Trying {
        WriteKeepsShuffle(w, id, answer);
      }
  }

  /** The wire after any interleaving of calls and rounds. */
  function Run(actions: seq<Action>): (w: Wire)
    ensures Shuffle(w)
  {
    if actions == [] then Wire([], [], map[]) else
      var before := Run(actions[..|actions| - 1]);
      StepKeepsShuffle(before, actions[|actions| - 1]);
      Step(before, actions[|actions| - 1])
  }

  /** The `::write` calls that call `id` has made in a run. */
  function OsWrites(actions: seq<Action>, id: nat): nat {
    if actions == [] then 0 else
      var front := actions[..|actions| - 1];
      var last := actions[|actions| - 1];
      var before := Run(front).writers;
      OsWrites(front, id)
      + if last.Write? && last.id == id && id in before && before[id].progress == Trying then 1 else 0
  }

  lemma {:induction false} OneWrite(w: Wire, a: Action, id: nat)
    requires Shuffle(w)
    ensures var r := Step(w, a).writers;
            var hit := a.Write? && a.id == id && id in w.writers && w.writers[id].progress == Trying;
            && (id in w.writers ==>
                  && id in r && r[id].budget == w.writers[id].budget
                  && r[id].attempts == w.writers[id].attempts - if hit then 1 else 0)
            && (id !in w.writers && id in r ==> r[id].attempts == r[id].budget)
    ensures forall i | i in Step(w, a).writers :: Live(Step(w, a).writers[i])
  {
    hide Share;
    StepKeepsShuffle(w, a);
  }

  /** However the calls interleave, each one makes exactly as many OS writes as it used attempts. */
  lemma {:induction false} AttemptsBoundWrites(actions: seq<Action>, id: nat)
    ensures var w := Run(actions).writers;
            if id in w then OsWrites(actions, id) == w[id].budget - w[id].attempts <= w[id].budget
            else OsWrites(actions, id) == 0
  {
    if actions != [] {
      var front := actions[..|actions| - 1];
      AttemptsBoundWrites(front, id);
      OneWrite(Run(front), actions[|actions| - 1], id);
      assert Run(actions) == Step(Run(front), actions[|actions| - 1]);
      hide Run, Shuffle, Step;
    }
  }

  /** The arguments with which call `id` was entered, if it was. */
  function Entered(actions: seq<Action>, id: nat): Option<(Bytes, nat)> {
    if actions == [] then None else
      var last := actions[|actions| - 1];
      var before := Entered(actions[..|actions| - 1], id);
      if before == None && last.Call? && last.id == id then Some((last.message, last.attempts)) else before
  }

  /** What the operating system answered to the `::write` calls of `id`, in order. */
  function AnswersTo(actions: seq<Action>, id: nat): seq<Answer> {
    if actions == [] then [] else
      var front := actions[..|actions| - 1];
      var last := actions[|actions| - 1];
      var before := Run(front).writers;
      AnswersTo(front, id)
      + if last.Write? && last.id == id && id in before && before[id].progress == Trying then [last.answer] else []
  }

  /** `w` is where a call with these arguments is after these answers; None: the call was not entered. */
  ghost predicate Stands(writers: map<nat, Writer>, id: nat, entered: Option<(Bytes, nat)>, answers: seq<Answer>) {
    && (id in writers <==> entered.Some?)
    && (id in writers ==> After(writers[id], entered.value.0, entered.value.1, answers))
    && (id !in writers ==> answers == [])
  }

  lemma {:induction false} StepStands(w: Wire, a: Action, id: nat, entered: Option<(Bytes, nat)>, answers: seq<Answer>)
    requires Shuffle(w) && Stands(w.writers, id, entered, answers)
    ensures var hit := a.Write? && a.id == id && id in w.writers && w.writers[id].progress == Trying;
            Stands(Step(w, a).writers, id,
                   if entered == None && a.Call? && a.id == id then Some((a.message, a.attempts)) else entered,
                   answers + if hit then [a.answer] else [])
  {
    hide After, Share, Round, Truthful, Start;
    assert answers + [] == answers;
    if a.Call? && a.id == id {
      StartAfter(a.message, a.attempts);
    }
    if a.Write? && a.id == id && id in w.writers && w.writers[id].progress == Trying {
      assert Accounted(w.bytes, w.owner, id, w.writers[id]);
      RoundAfter(w.writers[id], entered.value.0, entered.value.1, answers, a.answer);
    }
  }

  lemma {:induction false} RunStands(actions: seq<Action>, id: nat)
    ensures Stands(Run(actions).writers, id, Entered(actions, id), AnswersTo(actions, id))
  {
    if actions != [] {
      var front := actions[..|actions| - 1];
      RunStands(front, id);
      StepStands(Run(front), actions[|actions| - 1], id, Entered(front, id), AnswersTo(front, id));
      hide Shuffle, Step, Stands;
    }
  }

  /** The other calls do not matter: in every interleaving, a call is exactly where its own arguments and
      the answers to its own OS writes put it, as if it were alone. */
  lemma {:induction false} AsIfAlone(actions: seq<Action>, id: nat)
    ensures var w := Run(actions).writers;
            var entered := Entered(actions, id);
            && (id in w <==> entered.Some?)
            && (id in w ==> After(w[id], entered.value.0, entered.value.1, AnswersTo(actions, id)))
  {
    RunStands(actions, id);
    hide After, Run, Entered, AnswersTo;
  }

  lemma {:induction false} RefusalEnds(w: Writer, message: Bytes, budget: nat, answers: seq<Answer>)
    requires After(w, message, budget, answers)
    ensures w.progress == Threw(WriteFailed) <==> Refused in answers
  {
    forall j | 0 <= j < |answers| - 1 ensures answers[j] != Refused {
      var front := answers[..j + 1];
      assert Outcome(message, budget, front) == Trying && front[|front| - 1] == answers[j];
    }
  }

  /** The wire is an order-preserving merge of one prefix per call; results report the prefix exactly, and
      a call fails exactly if one of its OS writes was refused. */
  lemma {:induction false} ConcurrentWriters(actions: seq<Action>, id: nat)
    requires id in Run(actions).writers
    ensures var r := Run(actions);
            var w := r.writers[id];
            && Share(r.bytes, r.owner, id) <= w.message
            && (w.progress == Returned ==> Share(r.bytes, r.owner, id) == w.message)
            && (w.progress.Threw? && w.progress.error.WritePartial? ==>
                  |Share(r.bytes, r.owner, id)| == w.progress.error.processed < |w.message|
                  && OsWrites(actions, id) == w.budget)
            && (w.progress == Threw(WriteFailed) <==> Refused in AnswersTo(actions, id))
            && OsWrites(actions, id) <= w.budget
  {
    AttemptsBoundWrites(actions, id);
    RunStands(actions, id);
    RefusalEnds(Run(actions).writers[id], Entered(actions, id).value.0, Entered(actions, id).value.1,
                AnswersTo(actions, id));
    hide Run, AnswersTo, Entered, Outcome;
  }
}
