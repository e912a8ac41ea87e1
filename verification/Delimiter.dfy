/** `getDelimiterCondition`, and what splitting at a delimiter means. */
module Delimiter {
  import opened Basics
  import opened Dispatcher

  /** Conversion of a 64-bit distance to `int`: the only value in range that is congruent to it. */
  function ToInt32(x: int): (r: int)
    ensures -0x8000_0000 <= r <= INT_MAX && (x - r) % 0x1_0000_0000 == 0
  {
    (x + 0x8000_0000) % 0x1_0000_0000 - 0x8000_0000
  }

  /** `find_if`, then `distance + 1` narrowed to the `int` that a condition returns. */
  function DelimiterAnswer(d: byte, data: Bytes): int {
    var pos := IndexOf(data, d);
    ToInt32(if pos != |data| then pos + 1 else 0)
  }

  function DelimiterHandler(d: byte, fd: int): Handler {
    Handler(data => DelimiterAnswer(d, data), fd)
  }

  function OneDelimiter(d: byte, fd: int): seq<Handler> {
    [DelimiterHandler(d, fd)]
  }

  lemma {:induction false} AnswerUpToIntMax(d: byte, data: Bytes)
    requires |data| <= INT_MAX
    ensures DelimiterAnswer(d, data) == if IndexOf(data, d) == |data| then 0 else IndexOf(data, d) + 1
  {
  }

  /** The answer is a length for every buffer a capacity allows iff the capacity fits an `int`. */
  lemma {:induction false} NarrowingBound(cap: nat, d: byte)
    ensures (forall data: Bytes | |data| <= cap && d in data :: DelimiterAnswer(d, data) == IndexOf(data, d) + 1)
            <==> cap <= INT_MAX
  {
    if cap <= INT_MAX {
      forall data: Bytes | |data| <= cap && d in data
        ensures DelimiterAnswer(d, data) == IndexOf(data, d) + 1
      {
        AnswerUpToIntMax(d, data);
      }
    } else {
      var data := DelimiterTooFar(d);
      hide DelimiterAnswer, IndexOf;
    }
  }

  /** A delimiter that answers a negative length. */
  lemma {:induction false} DelimiterTooFar(d: byte) returns (data: Bytes)
    ensures |data| == INT_MAX + 1 && d in data && DelimiterAnswer(d, data) < 0
  {
    hide IndexOf;
    var other: byte := if d == 0 then 1 else 0;
    data := seq(INT_MAX, _ => other) + [d];
    assert data[INT_MAX] == d;
    IndexOfIs(data, d, INT_MAX);
  }

  // ---------------------------------------------------------------- segmentation

  /** Ends with the delimiter and holds no other one. */
  ghost predicate IsFrame(d: byte, f: Bytes) {
    f != [] && f[|f| - 1] == d && forall k | 0 <= k < |f| - 1 :: f[k] != d
  }

  /** `frames` and then `rest` are a split of `input` at every delimiter. */
  ghost predicate IsSegmentation(d: byte, input: Bytes, frames: seq<Bytes>, rest: Bytes) {
    && Concat(frames) + rest == input
    && (forall f | f in frames :: IsFrame(d, f))
    && Lacks(rest, d)
  }

  lemma {:induction false} FirstDelimiter(d: byte, frames: seq<Bytes>, more: Bytes)
    requires frames != [] && IsFrame(d, frames[0])
    ensures Concat(frames) + more == frames[0] + (Concat(frames[1..]) + more)
    ensures IndexOf(Concat(frames) + more, d) == |frames[0]| - 1
  {
    assert frames == [frames[0]] + frames[1..];
    ConcatCons(frames[0], frames[1..]);
    IndexOfIs(frames[0] + (Concat(frames[1..]) + more), d, |frames[0]| - 1);
  }

  /** Frames cut from two readings of one byte stream agree wherever both exist. */
  lemma {:induction false} FramesAgree(d: byte, a: seq<Bytes>, x: Bytes, b: seq<Bytes>, y: Bytes, k: nat)
    requires forall f | f in a :: IsFrame(d, f)
    requires forall f | f in b :: IsFrame(d, f)
    requires Concat(a) + x <= Concat(b) + y
    requires k < |a| && k < |b|
    ensures a[k] == b[k]
    decreases k
  {
    FirstDelimiter(d, a, x);
    FirstDelimiter(d, b, y);
    var p := |a[0]| - 1;
    SameFirstDelimiter(d, Concat(a) + x, Concat(b) + y);
    assert (Concat(a) + x)[..p + 1] == a[0];
    assert (Concat(b) + y)[..p + 1] == b[0];
    if k > 0 {
      assert (Concat(a) + x)[p + 1..] == Concat(a[1..]) + x;
      assert (Concat(b) + y)[p + 1..] == Concat(b[1..]) + y;
      FramesAgree(d, a[1..], x, b[1..], y, k - 1);
    }
  }

  lemma {:induction false} SameFirstDelimiter(d: byte, u: Bytes, v: Bytes)
    requires u <= v && IndexOf(u, d) < |u|
    ensures IndexOf(v, d) == IndexOf(u, d)
  {
    IndexOfIs(v, d, IndexOf(u, d));
  }

  lemma {:induction false} FramesHoldDelimiter(d: byte, frames: seq<Bytes>, rest: Bytes)
    requires forall f | f in frames :: IsFrame(d, f)
    requires Lacks(Concat(frames) + rest, d)
    ensures frames == [] && Concat(frames) + rest == rest
  {
    if frames != [] {
      FirstDelimiter(d, frames, rest);
    }
  }

  /** There is only one way to split an input. */
  lemma {:induction false} UniqueSegmentation(d: byte, input: Bytes, a: seq<Bytes>, x: Bytes,
                                                b: seq<Bytes>, y: Bytes)
    requires IsSegmentation(d, input, a, x) && IsSegmentation(d, input, b, y)
    ensures a == b && x == y
    decreases |a|
  {
    if a == [] {
      assert input == x;
      FramesHoldDelimiter(d, b, y);
    } else if b == [] {
      assert input == y;
      FramesHoldDelimiter(d, a, x);
    } else {
      FirstDelimiter(d, a, x);
      FirstDelimiter(d, b, y);
      var p := |a[0]|;
      assert input[..p] == a[0] && input[..p] == b[0];
      assert input[p..] == Concat(a[1..]) + x && input[p..] == Concat(b[1..]) + y;
      UniqueSegmentation(d, input[p..], a[1..], x, b[1..], y);
      assert a == [a[0]] + a[1..] && b == [b[0]] + b[1..];
    }
  }

  /** Cutting the unfinished rest of one split, with more bytes, continues the split. */
  lemma {:induction false} SegmentationContinues(d: byte, input: Bytes, a: seq<Bytes>, x: Bytes,
                                                 more: Bytes, b: seq<Bytes>, y: Bytes)
    requires IsSegmentation(d, input, a, x) && IsSegmentation(d, x + more, b, y)
    ensures IsSegmentation(d, input + more, a + b, y)
  {
    ConcatAppend(a, b);
    calc {
      Concat(a + b) + y;
      Concat(a) + (Concat(b) + y);
      Concat(a) + (x + more);
      (Concat(a) + x) + more;
      input + more;
    }
  }

  // ---------------------------------------------------------------- the split as a function

  function Frames(d: byte, data: Bytes): seq<Bytes>
    decreases |data|
  {
    var p := IndexOf(data, d);
    if p == |data| then [] else [data[..p + 1]] + Frames(d, data[p + 1..])
  }

  function Tail(d: byte, data: Bytes): Bytes
    decreases |data|
  {
    var p := IndexOf(data, d);
    if p == |data| then data else Tail(d, data[p + 1..])
  }

  lemma {:induction false} PrependFrame(d: byte, first: Bytes, input: Bytes, frames: seq<Bytes>, rest: Bytes)
    requires IsFrame(d, first) && IsSegmentation(d, input, frames, rest)
    ensures IsSegmentation(d, first + input, [first] + frames, rest)
  {
    ConcatCons(first, frames);
    assert first + (Concat(frames) + rest) == (first + Concat(frames)) + rest;
  }

  lemma {:induction false} SplitIsSegmentation(d: byte, data: Bytes)
    ensures IsSegmentation(d, data, Frames(d, data), Tail(d, data))
    decreases |data|
  {
    var p := IndexOf(data, d);
    if p != |data| {
      var first, rest := data[..p + 1], data[p + 1..];
      assert first + rest == data && IsFrame(d, first);
      hide IndexOf, IsFrame, IsSegmentation;
      SplitIsSegmentation(d, rest);
      PrependFrame(d, first, rest, Frames(d, rest), Tail(d, rest));
    }
  }

  /** Every proper prefix leaves less than `cap` bytes unfinished. */
  ghost predicate StaysBelow(d: byte, cap: nat, input: Bytes) {
    forall k | 0 <= k < |input| :: |Tail(d, input[..k])| < cap
  }

  lemma {:induction false} TailAfterFrame(d: byte, frame: Bytes, more: Bytes)
    requires IsFrame(d, frame)
    ensures Tail(d, frame + more) == Tail(d, more)
  {
    IndexOfIs(frame + more, d, |frame| - 1);
    assert (frame + more)[|frame|..] == more;
  }

  lemma {:induction false} TailOfLacking(d: byte, data: Bytes)
    requires Lacks(data, d)
    ensures Tail(d, data) == data
  {
    IndexOfIs(data, d, |data|);
  }

  /** In terms of the split: every frame fits into the capacity, and so does the unfinished tail. */
  lemma {:induction false} StaysBelowIffFits(d: byte, cap: nat, input: Bytes, frames: seq<Bytes>, rest: Bytes)
    requires IsSegmentation(d, input, frames, rest)
    ensures StaysBelow(d, cap, input) <==> (forall f | f in frames :: |f| <= cap) && |rest| <= cap
    decreases |frames|
  {
    if frames == [] {
      assert input == rest;
      forall k | 0 <= k < |input| ensures Tail(d, input[..k]) == input[..k] {
        TailOfLacking(d, input[..k]);
      }
      if |rest| > cap {
        assert |Tail(d, input[..cap])| == cap;
      }
    } else {
      FirstDelimiter(d, frames, rest);
      StaysBelowStep(d, cap, frames[0], Concat(frames[1..]) + rest);
      StaysBelowIffFits(d, cap, Concat(frames[1..]) + rest, frames[1..], rest);
      assert frames == [frames[0]] + frames[1..];
    }
  }

  lemma {:induction false} StaysBelowStep(d: byte, cap: nat, frame: Bytes, more: Bytes)
    requires IsFrame(d, frame)
    ensures StaysBelow(d, cap, frame + more) <==> |frame| <= cap && StaysBelow(d, cap, more)
  {
    var input := frame + more;
    forall k | 0 <= k < |input|
      ensures |Tail(d, input[..k])| == if k < |frame| then k else |Tail(d, more[..k - |frame|])|
    {
      if k < |frame| {
        TailOfLacking(d, input[..k]);
      } else {
        assert input[..k] == frame + more[..k - |frame|];
        TailAfterFrame(d, frame, more[..k - |frame|]);
      }
    }
    if StaysBelow(d, cap, input) {
      assert |Tail(d, input[..|frame| - 1])| == |frame| - 1;
      forall k | 0 <= k < |more| ensures |Tail(d, more[..k])| < cap {
        assert |Tail(d, input[..k + |frame|])| < cap;
      }
    }
  }

  // ---------------------------------------------------------------- one delimiter handler

  lemma {:induction false} IndexOfAppend(data: Bytes, more: Bytes, d: byte)
    requires IndexOf(data, d) < |data|
    ensures IndexOf(data + more, d) == IndexOf(data, d)
  {
    IndexOfIs(data + more, d, IndexOf(data, d));
  }

  function DeliveredPops(fd: int, frames: seq<Bytes>): seq<Pop> {
    seq(|frames|, i requires 0 <= i < |frames| => Pop(fd, |frames[i]|, frames[i]))
  }

  /** One step: the iteration cuts off the first frame, or leaves data without a delimiter alone. */
  lemma {:induction false} SimpleCuts(d: byte, fd: int, data: Bytes, pops: seq<Pop>)
    requires |data| <= INT_MAX
    ensures var hs, p := OneDelimiter(d, fd), IndexOf(data, d);
            Simple(hs, data, pops)
            == if p == |data| then State(data, pops, None)
               else Simple(hs, data[p + 1..], pops + [Pop(fd, p + 1, data[..p + 1])])
  {
    var hs, p := OneDelimiter(d, fd), IndexOf(data, d);
    AnswerUpToIntMax(d, data);
    assert FirstFiring(hs, 0, data) == if p == |data| then 1 else 0;
  }

  /** The simple iteration with one delimiter handler cuts the data at every delimiter. */
  lemma {:induction false} SimpleSplits(d: byte, fd: int, data: Bytes, pops: seq<Pop>)
    requires |data| <= INT_MAX
    ensures Simple(OneDelimiter(d, fd), data, pops)
         == State(Tail(d, data), pops + DeliveredPops(fd, Frames(d, data)), None)
    decreases |data|
  {
    hide *;
    var p := IndexOf(data, d);
    SplitCuts(d, data);
    SimpleCuts(d, fd, data, pops);
    if p == |data| {
      NothingDelivered(fd, pops);
    } else {
      var first, rest := data[..p + 1], data[p + 1..];
      SimpleSplits(d, fd, rest, pops + [Pop(fd, p + 1, first)]);
      DeliveredCons(fd, pops, first, Frames(d, rest));
    }
  }

  lemma {:induction false} SplitCuts(d: byte, data: Bytes)
    ensures var p := IndexOf(data, d);
            if p == |data| then Frames(d, data) == [] && Tail(d, data) == data
            else && p < |data|
                 && Frames(d, data) == [data[..p + 1]] + Frames(d, data[p + 1..])
                 && Tail(d, data) == Tail(d, data[p + 1..])
  {
  }

  lemma {:induction false} NothingDelivered(fd: int, pops: seq<Pop>)
    ensures pops + DeliveredPops(fd, []) == pops
  {
  }

  lemma {:induction false} DeliveredCons(fd: int, pops: seq<Pop>, first: Bytes, frames: seq<Bytes>)
    ensures pops + [Pop(fd, |first|, first)] + DeliveredPops(fd, frames)
         == pops + DeliveredPops(fd, [first] + frames)
  {
    assert [Pop(fd, |first|, first)] + DeliveredPops(fd, frames) == DeliveredPops(fd, [first] + frames);
    Assoc(pops, [Pop(fd, |first|, first)], DeliveredPops(fd, frames));
  }

  // ---------------------------------------------------------------- several delimiter handlers

  function DelimiterHandlers(ds: seq<byte>, fds: seq<int>): seq<Handler>
    requires |ds| == |fds|
  {
    seq(|ds|, i requires 0 <= i < |ds| => DelimiterHandler(ds[i], fds[i]))
  }

  /** Two handlers find their delimiters in the same data. */
  ghost predicate Together(ds: seq<byte>, data: Bytes) {
    exists i, j :: 0 <= i < j < |ds| && ds[i] in data && ds[j] in data
  }

  /** The first handler that fires is the first whose delimiter is there. */
  lemma {:induction false} FirstThere(ds: seq<byte>, fds: seq<int>, i: nat, data: Bytes)
    requires |ds| == |fds| && i <= |ds| && |data| <= INT_MAX
    ensures var hs := DelimiterHandlers(ds, fds);
            var r := FirstFiring(hs, i, data);
            && (forall k | i <= k < r :: ds[k] !in data)
            && (r < |ds| ==> ds[r] in data && hs[r].condition(data) == IndexOf(data, ds[r]) + 1)
  {
    var hs := DelimiterHandlers(ds, fds);
    forall k | 0 <= k < |ds|
      ensures hs[k].condition(data) == if ds[k] in data then IndexOf(data, ds[k]) + 1 else 0
    {
      AnswerUpToIntMax(ds[k], data);
      assert ds[k] in data <==> IndexOf(data, ds[k]) < |data|;
    }
  }

  lemma {:induction false} DelimitersBounded(ds: seq<byte>, fds: seq<int>)
    requires |ds| == |fds|
    ensures Bounded(DelimiterHandlers(ds, fds), INT_MAX)
  {
    forall data: Bytes, h | |data| <= INT_MAX && h in DelimiterHandlers(ds, fds)
      ensures Abs(h.condition(data)) <= |data|
    {
      var i :| 0 <= i < |ds| && h == DelimiterHandler(ds[i], fds[i]);
      AnswerUpToIntMax(ds[i], data);
    }
  }

  lemma {:induction false} DelimitersNeverFail(ds: seq<byte>, fds: seq<int>, data: Bytes, pops: seq<Pop>)
    requires |ds| == |fds| && |data| <= INT_MAX
    ensures Simple(DelimiterHandlers(ds, fds), data, pops).failure == None
  {
    DelimitersBounded(ds, fds);
    BoundedNeverFails(DelimiterHandlers(ds, fds), INT_MAX, data, pops);
  }

  /** Once handler `r` is the first to find its delimiter, another finds one if a later one does. */
  lemma {:induction false} TogetherLater(ds: seq<byte>, data: Bytes, r: nat, next: nat)
    requires r < next <= |ds| && ds[r] in data && (forall k | 0 <= k < r :: ds[k] !in data)
    requires (forall k | r < k < next :: ds[k] !in data) && (next < |ds| ==> ds[next] in data)
    ensures Together(ds, data) <==> next < |ds|
  {
  }

  lemma {:induction false} TogetherInRest(ds: seq<byte>, data: Bytes, n: nat)
    requires n <= |data| && Together(ds, data[n..])
    ensures Together(ds, data)
  {
    assert forall x | x in data[n..] :: x in data;
  }

  lemma {:induction false} DelimitersStale(ds: seq<byte>, fds: seq<int>, data: Bytes)
    requires |ds| == |fds| && |data| <= INT_MAX
    ensures NoStaleAnswer(DelimiterHandlers(ds, fds), data) <==> !Together(ds, data)
    decreases |data|
  {
    var hs := DelimiterHandlers(ds, fds);
    var r := FirstFiring(hs, 0, data);
    FirstThere(ds, fds, 0, data);
    if r < |ds| {
      var n := IndexOf(data, ds[r]) + 1;
      FirstThere(ds, fds, r + 1, data);
      TogetherLater(ds, data, r, FirstFiring(hs, r + 1, data));
      DelimitersStale(ds, fds, data[n..]);
      DelimitersNeverFail(ds, fds, data[n..], []);
      hide FirstFiring, IndexOf, Simple;
      if Together(ds, data[n..]) {
        TogetherInRest(ds, data, n);
      }
    }
  }

  /** Any number of delimiter handlers: the dispatcher handles a buffer as intended iff no two of them
      find their delimiters in it. */
  lemma {:induction false} DelimitersExactly(ds: seq<byte>, fds: seq<int>, data: Bytes, pops: seq<Pop>)
    requires |ds| == |fds| && |data| <= INT_MAX
    ensures var hs := DelimiterHandlers(ds, fds);
            Loop(hs, 0, data, State(data, pops, None)) == Simple(hs, data, pops) <==> !Together(ds, data)
  {
    DelimitersStale(ds, fds, data);
    DispatcherRefinement(DelimiterHandlers(ds, fds), data, pops);
  }

  function NewlineSemicolon(fd: int, fd': int): seq<Handler> {
    DelimiterHandlers([10, 59], [fd, fd'])
  }

  /** Newline and semicolon handlers on "a\n;": the resumed loop asks the semicolon handler about the
      old snapshot and pops from a buffer that is already empty. */
  lemma {:induction false} TwoDelimitersThrow(fd: int, fd': int)
    ensures var data: Bytes := [97, 10, 59];
            Loop(NewlineSemicolon(fd, fd'), 0, data, State(data, [], None))
            == State([], [Pop(fd, 2, [97, 10]), Pop(fd', 1, [59])], Some(OutOfRange))
  {
    var data: Bytes := [97, 10, 59];
    var hs := NewlineSemicolon(fd, fd');
    var st := State(data, [], None);
    var first := State([59], [Pop(fd, 2, [97, 10])], None);
    var second := State([], [Pop(fd, 2, [97, 10]), Pop(fd', 1, [59])], None);
    AnswersOnNewlineSemicolon(fd, fd');
    AnswersOnSemicolon(fd, fd');
    assert Fire(hs[0], 2, data, st) == first by {
      assert data[2..] == [59] && data[..2] == [97, 10];
    }
    assert data[2..] == [59];
    SemicolonAlone(fd, fd', first, second);
    var thrown := Fire(hs[1], 3, data, second);
    assert thrown == State([], [Pop(fd, 2, [97, 10]), Pop(fd', 1, [59])], Some(OutOfRange));
    LoopThrows(hs, 1, data, second);
    LoopResumes(hs, 0, data, st);
  }

  lemma {:induction false} AnswersOnNewlineSemicolon(fd: int, fd': int)
    ensures var hs := NewlineSemicolon(fd, fd');
            hs[0].condition([97, 10, 59]) == 2 && hs[1].condition([97, 10, 59]) == 3
  {
    IndexOfIs([97, 10, 59], 10, 1);
    IndexOfIs([97, 10, 59], 59, 2);
  }

  lemma {:induction false} AnswersOnSemicolon(fd: int, fd': int)
    ensures var hs := NewlineSemicolon(fd, fd');
            hs[0].condition([59]) == 0 && hs[1].condition([59]) == 1
  {
    IndexOfIs([59], 10, 1);
    IndexOfIs([59], 59, 0);
  }

  lemma {:induction false} SemicolonAlone(fd: int, fd': int, st: State, r: State)
    requires st.failure == None && st.buffer == [59]
    requires r == State([], st.pops + [Pop(fd', 1, [59])], None)
    ensures Loop(NewlineSemicolon(fd, fd'), 0, [59], st) == r
  {
    var hs := NewlineSemicolon(fd, fd');
    AnswersOnSemicolon(fd, fd');
    assert st.buffer[..1] == [59];
    assert Fire(hs[1], 1, [59], st) == r;
    LoopResumes(hs, 1, [59], st);
    var rest: Bytes := [59][Abs(1)..];
    assert rest == [];
    assert Loop(hs, 0, rest, r) == r;
    assert Loop(hs, 2, [59], r) == r;
    assert Loop(hs, 0, [59], st) == Loop(hs, 1, [59], st);
  }
}
