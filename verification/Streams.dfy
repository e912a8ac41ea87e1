/** `Stream`: partial-transfer loops over a socket whose behaviour is an arbitrary schedule. */
module Streams {
  import opened Basics
  import opened Network
  import W = Writing

  /** What `stopReads` adds to the stop eventfd: the largest uint16_t. */
  const STOP_TOKENS: nat := 65535

  const INT_MIN: int := -0x8000_0000

  /** How often `while (attempts--)` enters its body if nothing leaves it: a negative count runs down
      through the smallest `int` to the largest and from there to 0. */
  function Rounds(attempts: int): nat
    requires INT_MIN <= attempts <= INT_MAX
  {
    if attempts >= 0 then attempts else attempts + 0x1_0000_0000
  }

  /** `--` on an `int`, with wrap-around. */
  function Decremented(n: int): (r: int)
    requires INT_MIN <= n <= INT_MAX
    ensures INT_MIN <= r <= INT_MAX
    ensures n != 0 ==> Rounds(r) == Rounds(n) - 1
  {
    if n == INT_MIN then INT_MAX else n - 1
  }

  lemma {:induction false} NoRoundsLeft(n: int)
    requires INT_MIN <= n <= INT_MAX
    ensures Rounds(n) == 0 <==> n == 0
  {
  }

  /** `before` with `bytes` stored at `at`. */
  function Overlay(before: Bytes, at: nat, bytes: Bytes): (r: Bytes)
    requires at + |bytes| <= |before|
    ensures |r| == |before|
    ensures forall k | 0 <= k < |before| ::
              r[k] == if at <= k < at + |bytes| then bytes[k - at] else before[k]
  {
    before[..at] + bytes + before[at + |bytes|..]
  }

  lemma {:induction false} OverlayTwice(before: Bytes, at: nat, a: Bytes, b: Bytes)
    requires at + |a| + |b| <= |before|
    ensures Overlay(Overlay(before, at, a), at + |a|, b) == Overlay(before, at, a + b)
  {
    var now := Overlay(before, at, a);
    assert now[..at + |a|] == before[..at] + a;
    assert now[at + |a| + |b|..] == before[at + |a + b|..];
  }

  lemma {:induction false} OverlayNothing(before: Bytes, at: nat)
    requires at <= |before|
    ensures Overlay(before, at, []) == before
  {
  }

  lemma {:induction false} OverlayFront(before: Bytes, at: nat, bytes: Bytes)
    requires at + |bytes| <= |before|
    ensures Overlay(before, at, bytes)[..at + |bytes|] == before[..at] + bytes
    ensures Overlay(before, at, bytes)[..at] == before[..at]
  {
  }

  class Stream {
    const schedule: Schedule
    const answers: nat -> W.Answer
    var net: Net
    var wire: Bytes    // everything written to the socket
    var writes: nat    // OS writes made so far

    constructor (schedule: Schedule, answers: nat -> W.Answer)
      ensures this.schedule == schedule && this.answers == answers
      ensures net == Net([], false, 0, 0, []) && wire == [] && writes == 0
    {
      this.schedule := schedule;
      this.answers := answers;
      net := Net([], false, 0, 0, []);
      wire := [];
      writes := 0;
    }

    /** `::read`: the operating system stores `bytes` at `buffer + at`. */
    static method Store(buffer: array<byte>, at: nat, bytes: Bytes)
      requires at + |bytes| <= buffer.Length
      modifies buffer
      ensures buffer[..] == Overlay(old(buffer[..]), at, bytes)
    {
      forall i | 0 <= i < |bytes| {
        buffer[at + i] := bytes[i];
      }
    }

    /** Fills `buffer[at..]` with at least `min` and at most `max` bytes, or throws. */
    method Read(buffer: array<byte>, at: nat, max: nat, min: nat) returns (r: Result<nat>)
      requires at + max <= buffer.Length
      modifies this`net, buffer
      ensures var t := ReadLoop(schedule, old(net), max, min, []);
              && net == t.net && r == t.result
              && buffer[..] == Overlay(old(buffer[..]), at, t.filled)
    {
      hide ReadLoop, Attempt, Overlay;
      ghost var filled: Bytes := [];
      ghost var before := buffer[..];
      OverlayNothing(before, at);
      var readBytes := 0;
      while readBytes < min
        invariant readBytes == |filled| <= max
        invariant buffer[..] == Overlay(before, at, filled)
        invariant ReadLoop(schedule, net, max, min, filled) == ReadLoop(schedule, old(net), max, min, [])
        decreases min - readBytes
      {
        ReadLoopStep(schedule, net, max, min, filled);
        var a := Attempt(schedule, net, max - readBytes);
        net := a.net;
        match a.result {
          case Err(e) =>
            return Err(e);
          case Ok(bytes) =>
            OverlayTwice(before, at, filled, bytes);
            Store(buffer, at + readBytes, bytes);
            readBytes := readBytes + |bytes|;
            filled := filled + bytes;
        }
      }
      assert ReadLoop(schedule, net, max, min, filled) == Transfer(net, filled, Ok(readBytes)) by {
        ReadLoopDone(schedule, net, max, min, filled);
      }
      return Ok(readBytes);
    }

    /** `::write` of `buffer[from..size]`; None stands for -1. */
    method OsWrite(buffer: array<byte>, from: nat, size: nat) returns (written: Option<nat>)
      requires from <= size <= buffer.Length
      modifies this`wire, this`writes
      ensures writes == old(writes) + 1
      ensures answers(old(writes)).Refused? ==> written == None && wire == old(wire)
      ensures answers(old(writes)).Accepted? ==>
                written == Some(Min(answers(old(writes)).most, size - from))
                && wire == old(wire) + buffer[..size][from..from + written.value]
    {
      var answer := answers(writes);
      writes := writes + 1;
      if answer.Refused? {
        return None;
      }
      var k := Min(answer.most, size - from);
      wire := wire + buffer[from..from + k];
      assert buffer[from..from + k] == buffer[..size][from..from + k];
      return Some(k);
    }

    /** Writes `buffer[..size]` in at most `attempts` OS writes; `int` arithmetic wraps around. */
    method Write(buffer: array<byte>, size: nat, attempts: int) returns (outcome: W.Progress)
      requires size <= buffer.Length && INT_MIN <= attempts <= INT_MAX
      modifies this`wire, this`writes
      ensures var w := W.Finish(answers, old(writes), W.Start(buffer[..size], Rounds(attempts)));
              && outcome == w.progress
              && wire == old(wire) + buffer[..w.sent]
              && writes == old(writes) + (Rounds(attempts) - w.attempts)
    {
      hide W.Finish, W.Truthful, Rounds, Decremented;
      NoRoundsLeft(attempts);
      W.StartIsTruthful(buffer[..size], Rounds(attempts));
      ghost var message := buffer[..size];
      ghost var budget := Rounds(attempts);
      ghost var start := W.Start(message, budget);
      ghost var w := start;
      var totalWritten: nat, left := 0, attempts;
      while left != 0
        invariant totalWritten <= size && buffer[..size] == message
        invariant INT_MIN <= left <= INT_MAX
        invariant w == W.Writer(message, budget, totalWritten, Rounds(left),
                                if left == 0 then W.Settle(message, totalWritten, 0) else W.Trying)
        invariant W.Live(w) && W.Truthful(w)
        invariant wire == old(wire) + message[..totalWritten]
        invariant writes == old(writes) + (budget - Rounds(left))
        invariant W.Finish(answers, writes, w) == W.Finish(answers, old(writes), start)
        decreases Rounds(left)
      {
        NoRoundsLeft(left);
        left := Decremented(left);
        NoRoundsLeft(left);
        W.FinishStep(answers, writes, w);
        w := W.Round(w, answers(writes));
        var writeResult := OsWrite(buffer, totalWritten, size);
        if writeResult == None {
          W.FinishStep(answers, writes, w);
          return W.Threw(WriteFailed);
        }
        Assoc(old(wire), message[..totalWritten], message[totalWritten..totalWritten + writeResult.value]);
        W.PrefixGrows(message, totalWritten, writeResult.value);
        totalWritten := totalWritten + writeResult.value;
        if totalWritten == size {
          break;
        }
      }
      W.FinishStep(answers, writes, w);
      if totalWritten != size {
        return W.Threw(WritePartial(totalWritten));
      }
      return W.Returned;
    }

    method StopReads()
      modifies this`net
      ensures net == old(net).(stops := old(net).stops + STOP_TOKENS)
    {
      net := net.(stops := net.stops + STOP_TOKENS);
    }
  }
}
