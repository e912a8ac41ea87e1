/** Why the split of the input into reads does not matter to the dispatcher. */
module Chunking {
  import opened Basics
  import opened Dispatcher
  import opened Delimiter

  /** A non-zero answer does not change when more data arrives. */
  ghost predicate Stable(hs: seq<Handler>, cap: nat) {
    forall data: Bytes, more: Bytes, h | |data + more| <= cap && h in hs ::
      h.condition(data) != 0 ==> h.condition(data + more) == h.condition(data)
  }

  /** What a handler list must promise, for every buffer that the capacity allows. */
  ghost predicate WellBehaved(hs: seq<Handler>, cap: nat) {
    Exclusive(hs, cap) && Bounded(hs, cap) && Stable(hs, cap)
  }

  lemma {:induction false} StableFirst(hs: seq<Handler>, cap: nat, data: Bytes, more: Bytes)
    requires WellBehaved(hs, cap) && |data + more| <= cap
    requires FirstFiring(hs, 0, data) < |hs|
    ensures var i := FirstFiring(hs, 0, data);
            FirstFiring(hs, 0, data + more) == i
            && hs[i].condition(data + more) == hs[i].condition(data)
            && Abs(hs[i].condition(data)) <= |data|
  {
    var i := FirstFiring(hs, 0, data);
    assert hs[i] in hs;
    assert hs[i].condition(data + more) == hs[i].condition(data);
  }

  /** Handling `a`, then `b` behind what `a` left over, is handling `a + b`. */
  lemma {:induction false} SimpleAppend(hs: seq<Handler>, cap: nat, a: Bytes, b: Bytes, pops: seq<Pop>)
    requires WellBehaved(hs, cap) && |a + b| <= cap
    ensures var r := Simple(hs, a, pops); Simple(hs, a + b, pops) == Simple(hs, r.buffer + b, r.pops)
    decreases |a|
  {
    var i := FirstFiring(hs, 0, a);
    if a != [] && i < |hs| {
      StableFirst(hs, cap, a, b);
      var n := Abs(hs[i].condition(a));
      assert (a + b)[n..] == a[n..] + b && (a + b)[..n] == a[..n];
      SimpleAppend(hs, cap, a[n..], b, pops + [Pop(hs[i].fd, hs[i].condition(a), a[..n])]);
    }
  }

  /** The reference: every byte arrives alone. */
  function ByteByByte(hs: seq<Handler>, input: Bytes): State {
    if input == [] then State([], [], None) else
      var before := ByteByByte(hs, input[..|input| - 1]);
      Simple(hs, before.buffer + [input[|input| - 1]], before.pops)
  }

  lemma {:induction false} ChunkIsBytes(hs: seq<Handler>, cap: nat, input: Bytes, chunk: Bytes)
    requires WellBehaved(hs, cap) && chunk != []
    requires |ByteByByte(hs, input).buffer + chunk| <= cap
    ensures ByteByByte(hs, input + chunk)
         == Simple(hs, ByteByByte(hs, input).buffer + chunk, ByteByByte(hs, input).pops)
    decreases |chunk|
  {
    hide ByteByByte, WellBehaved, Simple;
    var front, last := chunk[..|chunk| - 1], chunk[|chunk| - 1..];
    var st := ByteByByte(hs, input);
    LastByte(hs, input, front, last);
    assert front + last == chunk;
    if front == [] {
      assert input + front == input && chunk == last;
    } else {
      ChunkIsBytes(hs, cap, input, front);
      Assoc(st.buffer, front, last);
      SimpleAppend(hs, cap, st.buffer + front, last, st.pops);
    }
  }

  lemma {:induction false} LastByte(hs: seq<Handler>, input: Bytes, front: Bytes, last: Bytes)
    requires |last| == 1
    ensures var before := ByteByByte(hs, input + front);
            ByteByByte(hs, input + (front + last)) == Simple(hs, before.buffer + last, before.pops)
  {
    var all := input + (front + last);
    assert all[..|all| - 1] == input + front;
    assert [all[|all| - 1]] == last;
  }

  /** More input only adds pops. */
  lemma {:induction false} ByteByByteGrows(hs: seq<Handler>, input: Bytes, more: Bytes)
    ensures ByteByByte(hs, input).pops <= ByteByByte(hs, input + more).pops
    decreases |more|
  {
    if more == [] {
      assert input + more == input;
    } else {
      var front := more[..|more| - 1];
      ByteByByteGrows(hs, input, front);
      assert (input + more)[..|input + more| - 1] == input + front;
      var before := ByteByByte(hs, input + front);
      SimpleShift(hs, before.buffer + [(input + more)[|input + more| - 1]], before.pops);
    }
  }

  /** One delimiter handler keeps all three promises, as long as the capacity fits an `int`. */
  lemma {:induction false} DelimiterWellBehaved(d: byte, fd: int, cap: nat)
    requires cap <= INT_MAX
    ensures WellBehaved(OneDelimiter(d, fd), cap)
  {
    var hs := OneDelimiter(d, fd);
    forall data: Bytes, h | |data| <= cap && h in hs ensures Abs(h.condition(data)) <= |data| {
      AnswerUpToIntMax(d, data);
    }
    forall data: Bytes, more: Bytes, h | |data + more| <= cap && h in hs && h.condition(data) != 0
      ensures h.condition(data + more) == h.condition(data)
    {
      AnswerUpToIntMax(d, data);
      AnswerUpToIntMax(d, data + more);
      IndexOfAppend(data, more, d);
    }
  }

  /** A handler that delivers whatever is there. */
  function Greedy(fd: int): seq<Handler> {
    [Handler((data: Bytes) => |data|, fd)]
  }

  lemma {:induction false} GreedyPromises(fd: int, cap: nat)
    ensures Exclusive(Greedy(fd), cap) && Bounded(Greedy(fd), cap)
    ensures forall data: Bytes :: Greedy(fd)[0].condition(data) == |data|
  {
  }

  /** It is exclusive and bounded, but not stable, and then the chunks do matter: two bytes arriving
      together make one segment, one by one they make two. */
  lemma {:induction false} StabilityMatters(fd: int, a: byte, b: byte, cap: nat)
    ensures Exclusive(Greedy(fd), cap) && Bounded(Greedy(fd), cap)
    ensures Simple(Greedy(fd), [a, b], []).pops == [Pop(fd, 2, [a, b])]
    ensures ByteByByte(Greedy(fd), [a, b]).pops == [Pop(fd, 1, [a]), Pop(fd, 1, [b])]
  {
    GreedyPromises(fd, cap);
    var both := [a, b];
    TakesAll(Greedy(fd), fd, both, []);
    assert [] + [Pop(fd, 2, both)] == [Pop(fd, 2, both)];
    OneByOne(Greedy(fd), fd, a, b);
    hide *;
  }

  lemma {:induction false} OneByOne(hs: seq<Handler>, fd: int, a: byte, b: byte)
    requires |hs| == 1 && hs[0].fd == fd && (forall x: Bytes :: hs[0].condition(x) == |x|)
    ensures ByteByByte(hs, [a, b]).pops == [Pop(fd, 1, [a]), Pop(fd, 1, [b])]
  {
    hide Simple;
    var first, both := [a], [a, b];
    var pops := [Pop(fd, 1, first)];
    TakesAll(hs, fd, first, []);
    TakesAll(hs, fd, [b], pops);
    assert ByteByByte(hs, first) == State([], pops, None) by {
      assert first[..0] == [] && [] + [first[0]] == first && [] + pops == pops;
    }
    assert both[..1] == first && [] + [both[1]] == [b];
    assert pops + [Pop(fd, 1, [b])] == [Pop(fd, 1, [a]), Pop(fd, 1, [b])];
  }

  lemma {:induction false} TakesAll(hs: seq<Handler>, fd: int, data: Bytes, pops: seq<Pop>)
    requires |hs| == 1 && hs[0].fd == fd && (forall x: Bytes :: hs[0].condition(x) == |x|) && data != []
    ensures Simple(hs, data, pops) == State([], pops + [Pop(fd, |data|, data)], None)
  {
    assert FirstFiring(hs, 0, data) == 0;
    assert data[|data|..] == [] && data[..|data|] == data;
    assert Simple(hs, [], pops + [Pop(fd, |data|, data)]) == State([], pops + [Pop(fd, |data|, data)], None);
  }
}
