/** Delimiter handlers on a whole stream: for which inputs no schedule ever shows the dispatcher two
    different delimiters at once. */
module MixedDelimiters {
  import opened Basics
  import opened Network
  import BQ = ByteQueue
  import opened Dispatcher
  import opened Delimiter
  import opened Worker

  /** How many bytes follow the last delimiter of any kind. */
  function Since(ds: seq<byte>, input: Bytes): (n: nat)
    ensures n <= |input|
    ensures forall k | |input| - n <= k < |input| :: input[k] !in ds
    ensures n < |input| ==> input[|input| - n - 1] in ds
  {
    if input == [] || input[|input| - 1] in ds then 0 else 1 + Since(ds, input[..|input| - 1])
  }

  lemma {:induction false} SinceIs(ds: seq<byte>, input: Bytes, n: nat)
    requires n <= |input| && (forall k | |input| - n <= k < |input| :: input[k] !in ds)
    requires n < |input| ==> input[|input| - n - 1] in ds
    ensures Since(ds, input) == n
  {
    assert n <= Since(ds, input);
  }

  /** What ends before a delimiter-free stretch does not matter, if it ends in a delimiter. */
  lemma {:induction false} SinceOfSuffix(ds: seq<byte>, before: Bytes, data: Bytes)
    requires before == [] || before[|before| - 1] in ds
    ensures Since(ds, before + data) == Since(ds, data)
  {
    var n := Since(ds, data);
    hide Since;
    SinceIs(ds, before + data, n);
  }

  // ---------------------------------------------------------------- staying on the simple iteration

  /** The worker's next round dispatches as the simple iteration would. */
  ghost predicate RoundIsSimple(s: Schedule, cap: nat, hs: seq<Handler>, w: Worker)
    requires |w.queue.data| <= cap
  {
    var f := BQ.Fill(s, cap, w.queue);
    w.status == Running && f.result.Ok? ==>
      Loop(hs, 0, f.queue.data, State(f.queue.data, w.pops, None)) == Simple(hs, f.queue.data, w.pops)
  }

  ghost predicate OnSimple(s: Schedule, cap: nat, hs: seq<Handler>, rounds: nat) {
    forall k: nat | k < rounds :: RoundIsSimple(s, cap, hs, Run(s, cap, hs, BEGIN, k))
  }

  ghost predicate Distinct(ds: seq<byte>) {
    forall i, j | 0 <= i < j < |ds| :: ds[i] != ds[j]
  }

  /** The delimiter at `p` is followed by a different one at `q`, with none in between. */
  ghost predicate Followed(ds: seq<byte>, input: Bytes, p: nat, q: nat) {
    && p < q < |input| && input[p] != input[q]
    && input[p] in ds && input[q] in ds
    && forall k | p < k < q :: input[k] !in ds
  }

  /** No unfinished segment fills the buffer before the first `p` bytes are read. */
  ghost predicate Reached(ds: seq<byte>, cap: nat, input: Bytes, p: nat)
    requires p <= |input|
  {
    forall k: nat | k <= p :: Since(ds, input[..k]) < cap
  }

  /** Wherever one delimiter is followed by another, the two segments that they end do not fit into
      the buffer together, unless the worker starves before it gets there. */
  ghost predicate Apart(ds: seq<byte>, cap: nat, input: Bytes) {
    forall p: nat, q: nat | Followed(ds, input, p, q) && Reached(ds, cap, input, p) ::
      cap < Since(ds, input[..p]) + 1 + (q - p)
  }

  // ---------------------------------------------------------------- where the worker is

  /** The buffer is the unfinished segment of the bytes read, and nothing before filled it. */
  ghost predicate At(ds: seq<byte>, cap: nat, input: Bytes, w: Worker) {
    && w.queue.net.taken <= input && |w.queue.data| <= cap && !w.status.Crashed?
    && |w.queue.data| == Since(ds, w.queue.net.taken)
    && w.queue.data == w.queue.net.taken[|w.queue.net.taken| - |w.queue.data|..]
    && forall k: nat | k < |w.queue.net.taken| :: Since(ds, input[..k]) < cap
  }

  /** Some delimiter is in the data. */
  ghost predicate AnyThere(ds: seq<byte>, data: Bytes) {
    exists i :: 0 <= i < |ds| && ds[i] in data
  }

  /** The iteration cuts off the first segment. */
  lemma {:induction false} SimpleCuts(ds: seq<byte>, fds: seq<int>, data: Bytes, pops: seq<Pop>)
    returns (pop: Pop, cut: nat)
    requires |ds| == |fds| && |data| <= INT_MAX && AnyThere(ds, data)
    ensures 0 < cut <= |data| && data[cut - 1] in ds
    ensures var hs := DelimiterHandlers(ds, fds);
            Simple(hs, data, pops) == Simple(hs, data[cut..], pops + [pop])
  {
    var hs := DelimiterHandlers(ds, fds);
    FirstThere(ds, fds, 0, data);
    var i := FirstFiring(hs, 0, data);
    cut := IndexOf(data, ds[i]) + 1;
    pop := Pop(hs[i].fd, cut, data[..cut]);
  }

  lemma {:induction false} SimpleRests(ds: seq<byte>, fds: seq<int>, data: Bytes, pops: seq<Pop>)
    requires |ds| == |fds| && |data| <= INT_MAX && !AnyThere(ds, data)
    ensures Simple(DelimiterHandlers(ds, fds), data, pops) == State(data, pops, None)
    ensures Since(ds, data) == |data|
  {
    FirstThere(ds, fds, 0, data);
    SinceIs(ds, data, |data|);
  }

  /** The iteration leaves what follows the last delimiter. */
  lemma {:induction false} SimpleLeaves(ds: seq<byte>, fds: seq<int>, data: Bytes, pops: seq<Pop>)
    requires |ds| == |fds| && |data| <= INT_MAX
    ensures var r := Simple(DelimiterHandlers(ds, fds), data, pops);
            r.failure == None && r.buffer == data[|data| - Since(ds, data)..]
    decreases |data|
  {
    hide *;
    if AnyThere(ds, data) {
      var pop, cut := SimpleCuts(ds, fds, data, pops);
      var first, rest := data[..cut], data[cut..];
      assert first + rest == data;
      SimpleLeaves(ds, fds, rest, pops + [pop]);
      SinceOfSuffix(ds, first, rest);
    } else {
      SimpleRests(ds, fds, data, pops);
    }
  }

  /** Prefixes of a buffer that starts a segment: the unfinished part is never longer than the prefix. */
  lemma {:induction false} SinceWithin(ds: seq<byte>, before: Bytes, data: Bytes, k: nat)
    requires before == [] || before[|before| - 1] in ds
    requires |before| <= k <= |before + data|
    ensures Since(ds, (before + data)[..k]) == Since(ds, data[..k - |before|]) <= k - |before|
  {
    assert (before + data)[..k] == before + data[..k - |before|];
    SinceOfSuffix(ds, before, data[..k - |before|]);
  }

  /** Two different delimiters in one buffer: somewhere one is followed by another. */
  lemma {:induction false} PairInside(ds: seq<byte>, data: Bytes, x: byte, y: byte) returns (p: nat, q: nat)
    requires x != y && x in ds && y in ds && x in data && y in data
    ensures Followed(ds, data, p, q)
  {
    var n := |data| - 1;
    var front := data[..n];
    if x in front && y in front {
      p, q := PairInside(ds, front, x, y);
    } else {
      var since := Since(ds, front);
      assert data[n] in ds;
      assert x in front || y in front;
      p, q := n - since - 1, n;
    }
  }

  /** Everything that one refill puts into the buffer is read before the buffer is full. */
  lemma {:induction false} ReachedWithin(ds: seq<byte>, cap: nat, input: Bytes, before: Bytes, data: Bytes)
    requires before == [] || before[|before| - 1] in ds
    requires before + data <= input && |data| <= cap
    requires forall k: nat | k < |before| :: Since(ds, input[..k]) < cap
    ensures forall k: nat | k < |before + data| :: Since(ds, input[..k]) < cap
  {
    forall k: nat | k < |before + data| ensures Since(ds, input[..k]) < cap {
      if |before| <= k {
        assert input[..k] == (before + data)[..k];
        SinceWithin(ds, before, data, k);
      }
    }
  }

  /** A buffer that holds two different delimiters shows two segments that fit into it together. */
  lemma {:induction false} BothInBuffer(ds: seq<byte>, cap: nat, input: Bytes, before: Bytes, data: Bytes)
    requires Distinct(ds) && Together(ds, data)
    requires before == [] || before[|before| - 1] in ds
    requires before + data <= input && |data| <= cap
    requires forall k: nat | k < |before| :: Since(ds, input[..k]) < cap
    ensures !Apart(ds, cap, input)
  {
    hide Since;
    var i, j :| 0 <= i < j < |ds| && ds[i] in data && ds[j] in data;
    var p, q := PairInside(ds, data, ds[i], ds[j]);
    assert p < q < |data|;
    hide Followed;
    FollowedWithin(ds, input, before, data, p, q);
    ReachedWithin(ds, cap, input, before, data);
    SinceWithin(ds, before, data, |before| + p);
    assert input[..|before| + p] == (before + data)[..|before| + p];
    assert Reached(ds, cap, input, |before| + p);
  }

  lemma {:induction false} FollowedWithin(ds: seq<byte>, input: Bytes, before: Bytes, data: Bytes, p: nat, q: nat)
    requires before + data <= input && Followed(ds, data, p, q)
    ensures Followed(ds, input, |before| + p, |before| + q)
  {
    assert forall k | 0 <= k < |data| :: input[|before| + k] == data[k];
  }

  // ---------------------------------------------------------------- inputs that stay simple

  /** The bytes read before the unfinished segment. */
  function Finished(w: Worker): Bytes
    requires |w.queue.data| <= |w.queue.net.taken|
  {
    w.queue.net.taken[..|w.queue.net.taken| - |w.queue.data|]
  }

  lemma {:induction false} AtSplits(ds: seq<byte>, cap: nat, input: Bytes, w: Worker)
    requires At(ds, cap, input, w)
    ensures var before := Finished(w);
            && w.queue.net.taken == before + w.queue.data
            && (before == [] || before[|before| - 1] in ds)
            && !AnyThere(ds, w.queue.data)
            && forall k: nat | k < |before| :: Since(ds, input[..k]) < cap
  {
  }

  lemma {:induction false} AtAfter(ds: seq<byte>, cap: nat, input: Bytes, before: Bytes, data: Bytes, r: Worker)
    requires before == [] || before[|before| - 1] in ds
    requires before + data <= input && |data| <= cap && r.queue.net.taken == before + data
    requires r.queue.data == data[|data| - Since(ds, data)..] && r.status == Running
    requires forall k: nat | k < |before| :: Since(ds, input[..k]) < cap
    ensures At(ds, cap, input, r)
  {
    hide Since;
    SinceOfSuffix(ds, before, data);
    ReachedWithin(ds, cap, input, before, data);
  }

  lemma {:induction false} AtFailed(s: Schedule, cap: nat, ds: seq<byte>, hs: seq<Handler>, input: Bytes, w: Worker)
    requires |w.queue.data| <= cap && At(ds, cap, input, w)
    requires w.status != Running || BQ.Fill(s, cap, w.queue).result.Err?
    ensures RoundIsSimple(s, cap, hs, w) && At(ds, cap, input, Iterate(s, cap, hs, w))
  {
    hide BQ.Fill, Loop, Simple;
  }

  lemma {:induction false} SimpleIterate(s: Schedule, cap: nat, hs: seq<Handler>, w: Worker)
    requires |w.queue.data| <= cap && w.status == Running && BQ.Fill(s, cap, w.queue).result.Ok?
    requires RoundIsSimple(s, cap, hs, w)
    ensures var f := BQ.Fill(s, cap, w.queue).queue;
            var st := Simple(hs, f.data, w.pops);
            var r := Iterate(s, cap, hs, w);
            && r.queue.net == f.net
            && (st.failure == None ==> r.queue.data == st.buffer && r.status == Running)
  {
    hide BQ.Fill, Loop, Simple;
  }

  /** A round that shows the dispatcher one kind of delimiter is simple, and leaves the worker at the
      unfinished segment again. */
  lemma {:induction false} SimpleRound(s: Schedule, cap: nat, ds: seq<byte>, fds: seq<int>,
                                       input: Bytes, w: Worker)
    requires |ds| == |fds|
    requires cap <= INT_MAX && |w.queue.data| <= cap && At(ds, cap, input, w)
    requires var f := BQ.Fill(s, cap, w.queue);
             w.status == Running && f.result.Ok? ==>
               f.queue.net.taken <= input && !Together(ds, f.queue.data)
    ensures var hs := DelimiterHandlers(ds, fds);
            RoundIsSimple(s, cap, hs, w) && At(ds, cap, input, Iterate(s, cap, hs, w))
  {
    hide *;
    var hs := DelimiterHandlers(ds, fds);
    var f := BQ.Fill(s, cap, w.queue);
    if w.status == Running && f.result.Ok? {
      AtSplits(ds, cap, input, w);
      Extended(Finished(w), w.queue, f.queue);
      RoundIsSimpleIff(s, cap, ds, fds, w);
      SimpleLeaves(ds, fds, f.queue.data, w.pops);
      SimpleIterate(s, cap, hs, w);
      AtAfter(ds, cap, input, Finished(w), f.queue.data, Iterate(s, cap, hs, w));
    } else {
      AtFailed(s, cap, ds, hs, input, w);
    }
  }

  lemma {:induction false} RoundIsSimpleIff(s: Schedule, cap: nat, ds: seq<byte>, fds: seq<int>, w: Worker)
    requires |ds| == |fds|
    requires cap <= INT_MAX && |w.queue.data| <= cap && w.status == Running && BQ.Fill(s, cap, w.queue).result.Ok?
    ensures var data := BQ.Fill(s, cap, w.queue).queue.data;
            RoundIsSimple(s, cap, DelimiterHandlers(ds, fds), w) <==> !Together(ds, data)
  {
    hide BQ.Fill, Loop, Simple;
    DelimitersExactly(ds, fds, BQ.Fill(s, cap, w.queue).queue.data, w.pops);
  }

  lemma {:induction false} Extended(before: Bytes, q: BQ.Queue, r: BQ.Queue)
    requires q.net.taken == before + q.data
    requires q.data <= r.data && r.net.taken == q.net.taken + r.data[|q.data|..]
    ensures r.net.taken == before + r.data
  {
    Assoc(before, q.data, r.data[|q.data|..]);
  }

  lemma {:induction false} IterateTakes(s: Schedule, cap: nat, hs: seq<Handler>, w: Worker)
    requires |w.queue.data| <= cap
    ensures var r := Iterate(s, cap, hs, w);
            && w.queue.net.taken <= r.queue.net.taken
            && (w.status == Running ==> r.queue.net == BQ.Fill(s, cap, w.queue).queue.net)
  {
    hide BQ.Fill, Loop;
  }

  lemma {:induction false} BeginAt(ds: seq<byte>, cap: nat, input: Bytes)
    ensures |BEGIN.queue.data| <= cap && At(ds, cap, input, BEGIN) && HasRead(ds, cap, input, BEGIN, 0)
  {
  }

  lemma {:induction false} NoRounds(s: Schedule, cap: nat, hs: seq<Handler>)
    ensures OnSimple(s, cap, hs, 0)
  {
  }

  lemma {:induction false} OneMoreSimple(s: Schedule, cap: nat, hs: seq<Handler>, rounds: nat)
    requires OnSimple(s, cap, hs, rounds) && RoundIsSimple(s, cap, hs, Run(s, cap, hs, BEGIN, rounds))
    ensures OnSimple(s, cap, hs, rounds + 1)
  {
    hide RoundIsSimple, Run;
  }

  /** One round of a worker that has only read bytes of such an input. */
  lemma {:induction false} ApartRound(s: Schedule, cap: nat, ds: seq<byte>, fds: seq<int>,
                                      input: Bytes, w: Worker)
    requires |ds| == |fds| && Distinct(ds) && cap <= INT_MAX && Apart(ds, cap, input)
    requires |w.queue.data| <= cap && At(ds, cap, input, w)
    requires Iterate(s, cap, DelimiterHandlers(ds, fds), w).queue.net.taken <= input
    ensures var hs := DelimiterHandlers(ds, fds);
            RoundIsSimple(s, cap, hs, w) && At(ds, cap, input, Iterate(s, cap, hs, w))
  {
    hide *;
    var f := BQ.Fill(s, cap, w.queue);
    IterateTakes(s, cap, DelimiterHandlers(ds, fds), w);
    if w.status == Running && f.result.Ok? {
      AtSplits(ds, cap, input, w);
      Extended(Finished(w), w.queue, f.queue);
      if Together(ds, f.queue.data) {
        BothInBuffer(ds, cap, input, Finished(w), f.queue.data);
      }
    }
    SimpleRound(s, cap, ds, fds, input, w);
  }

  lemma {:induction false} ApartIsSimple(s: Schedule, cap: nat, ds: seq<byte>, fds: seq<int>,
                                         input: Bytes, rounds: nat)
    requires |ds| == |fds| && Distinct(ds) && cap <= INT_MAX && Apart(ds, cap, input)
    requires Run(s, cap, DelimiterHandlers(ds, fds), BEGIN, rounds).queue.net.taken <= input
    ensures var hs := DelimiterHandlers(ds, fds);
            OnSimple(s, cap, hs, rounds) && At(ds, cap, input, Run(s, cap, hs, BEGIN, rounds))
    decreases rounds
  {
    hide *;
    var hs := DelimiterHandlers(ds, fds);
    BeginAt(ds, cap, input);
    if rounds == 0 {
      NoRounds(s, cap, hs);
      RunNothing(s, cap, hs, BEGIN);
    } else {
      var before := Run(s, cap, hs, BEGIN, rounds - 1);
      RunSnoc(s, cap, hs, BEGIN, rounds - 1);
      IterateTakes(s, cap, hs, before);
      ApartIsSimple(s, cap, ds, fds, input, rounds - 1);
      ApartRound(s, cap, ds, fds, input, before);
      OneMoreSimple(s, cap, hs, rounds - 1);
    }
  }

  // ---------------------------------------------------------------- inputs that do not

  /** The first `p` bytes come one by one, and then everything up to and including position `q`. */
  function ByteThenPiece(input: Bytes, p: nat, q: nat): Schedule
    requires p <= q < |input|
  {
    (t: nat) => Piece(if t < p then [input[t]] else if t == p then input[p..q + 1] else [])
  }

  /** After `k` rounds the worker has read `k` bytes and waits for more. */
  ghost predicate HasRead(ds: seq<byte>, cap: nat, input: Bytes, w: Worker, k: nat) {
    && At(ds, cap, input, w) && w.status == Running && w.queue.net.kernel == []
    && w.queue.net.now == k && k <= |input| && w.queue.net.taken == input[..k]
  }

  lemma {:induction false} HasReadSays(ds: seq<byte>, cap: nat, input: Bytes, w: Worker, k: nat)
    requires HasRead(ds, cap, input, w, k)
    ensures w.queue.net.kernel == [] && w.queue.net.now == k <= |input| && w.queue.net.taken == input[..k]
    ensures |w.queue.data| == Since(ds, input[..k]) && !AnyThere(ds, w.queue.data)
    ensures w.status == Running && At(ds, cap, input, w)
  {
    AtSplits(ds, cap, input, w);
    hide Since;
  }

  lemma {:induction false} OneByteOneKind(ds: seq<byte>, data: Bytes, x: byte)
    requires Distinct(ds) && !AnyThere(ds, data)
    ensures !Together(ds, data + [x])
  {
  }

  lemma {:induction false} NextByte(input: Bytes, k: nat)
    requires k < |input|
    ensures input[..k] + [input[k]] == input[..k + 1] <= input
  {
  }

  lemma {:induction false} FillsOneByte(s: Schedule, cap: nat, ds: seq<byte>, input: Bytes, w: Worker, k: nat)
    requires Distinct(ds) && k < |input| && |w.queue.data| <= cap && s(k) == Piece([input[k]])
    requires HasRead(ds, cap, input, w, k) && Since(ds, input[..k]) < cap
    ensures var f := BQ.Fill(s, cap, w.queue);
            && f.result.Ok? && f.queue.net.kernel == [] && f.queue.net.now == k + 1
            && f.queue.net.taken == input[..k + 1] <= input && !Together(ds, f.queue.data)
  {
    hide *;
    HasReadSays(ds, cap, input, w, k);
    BQ.FillPiece(s, cap, w.queue, [input[k]]);
    OneByteOneKind(ds, w.queue.data, input[k]);
    NextByte(input, k);
  }

  lemma {:induction false} HasReadOneMore(s: Schedule, cap: nat, ds: seq<byte>, fds: seq<int>,
                                          input: Bytes, w: Worker, k: nat)
    requires |ds| == |fds| && Distinct(ds) && cap <= INT_MAX && |w.queue.data| <= cap
    requires k < |input| && s(k) == Piece([input[k]])
    requires HasRead(ds, cap, input, w, k) && Since(ds, input[..k]) < cap
    ensures HasRead(ds, cap, input, Iterate(s, cap, DelimiterHandlers(ds, fds), w), k + 1)
  {
    hide BQ.Fill, Loop, Since, Iterate, At, RoundIsSimple, Simple;
    FillsOneByte(s, cap, ds, input, w, k);
    SimpleRound(s, cap, ds, fds, input, w);
    StillRunning(s, cap, ds, fds, w);
    IterateTakes(s, cap, DelimiterHandlers(ds, fds), w);
  }

  lemma {:induction false} StillRunning(s: Schedule, cap: nat, ds: seq<byte>, fds: seq<int>, w: Worker)
    requires |ds| == |fds|
    requires cap <= INT_MAX && |w.queue.data| <= cap && w.status == Running && BQ.Fill(s, cap, w.queue).result.Ok?
    requires RoundIsSimple(s, cap, DelimiterHandlers(ds, fds), w)
    ensures Iterate(s, cap, DelimiterHandlers(ds, fds), w).status == Running
  {
    hide BQ.Fill, Loop, Simple, Iterate;
    SimpleIterate(s, cap, DelimiterHandlers(ds, fds), w);
    DelimitersNeverFail(ds, fds, BQ.Fill(s, cap, w.queue).queue.data, w.pops);
  }

  lemma {:induction false} RoomForByte(ds: seq<byte>, cap: nat, input: Bytes, p: nat, q: nat, k: nat)
    requires k < p <= q < |input| && Reached(ds, cap, input, p)
    ensures Since(ds, input[..k]) < cap && ByteThenPiece(input, p, q)(k) == Piece([input[k]])
  {
  }

  lemma {:induction false} ReadsByteByByte(cap: nat, ds: seq<byte>, fds: seq<int>,
                                           input: Bytes, p: nat, q: nat, k: nat)
    requires |ds| == |fds| && Distinct(ds) && cap <= INT_MAX && k <= p <= q < |input| && Reached(ds, cap, input, p)
    ensures HasRead(ds, cap, input, Run(ByteThenPiece(input, p, q), cap, DelimiterHandlers(ds, fds), BEGIN, k), k)
    decreases k
  {
    hide *;
    var s, hs := ByteThenPiece(input, p, q), DelimiterHandlers(ds, fds);
    BeginAt(ds, cap, input);
    if k == 0 {
      RunNothing(s, cap, hs, BEGIN);
    } else {
      RunSnoc(s, cap, hs, BEGIN, k - 1);
      ReadsByteByByte(cap, ds, fds, input, p, q, k - 1);
      RoomForByte(ds, cap, input, p, q, k - 1);
      HasReadOneMore(s, cap, ds, fds, input, Run(s, cap, hs, BEGIN, k - 1), k - 1);
    }
  }

  lemma {:induction false} FollowedPiece(ds: seq<byte>, input: Bytes, p: nat, q: nat)
    requires Followed(ds, input, p, q)
    ensures p < q < |input|
    ensures var piece := input[p..q + 1];
            && |piece| == q + 1 - p && piece[0] != piece[q - p]
            && piece[0] in ds && piece[q - p] in ds
            && input[..p] + piece == input[..q + 1] <= input
  {
  }

  /** The round that then reads the piece sees two delimiters. */
  lemma {:induction false} PieceShowsBoth(s: Schedule, cap: nat, ds: seq<byte>, fds: seq<int>, input: Bytes,
                                          w: Worker, p: nat, q: nat)
    requires |ds| == |fds| && Distinct(ds) && cap <= INT_MAX && Followed(ds, input, p, q) && |w.queue.data| <= cap
    requires HasRead(ds, cap, input, w, p) && s(p) == Piece(input[p..q + 1])
    requires Since(ds, input[..p]) + 1 + (q - p) <= cap
    ensures var hs := DelimiterHandlers(ds, fds);
            !RoundIsSimple(s, cap, hs, w) && Iterate(s, cap, hs, w).queue.net.taken <= input
  {
    hide *;
    FollowedPiece(ds, input, p, q);
    var piece := input[p..q + 1];
    HasReadSays(ds, cap, input, w, p);
    BQ.FillPiece(s, cap, w.queue, piece);
    BothIn(ds, w.queue.data, piece, q - p);
    RoundIsSimpleIff(s, cap, ds, fds, w);
    IterateTakes(s, cap, DelimiterHandlers(ds, fds), w);
  }

  /** Two different segments that fit into the buffer together can be shown to the dispatcher at once. */
  lemma {:induction false} TogetherDeparts(cap: nat, ds: seq<byte>, fds: seq<int>, input: Bytes, p: nat, q: nat)
    requires |ds| == |fds| && Distinct(ds) && cap <= INT_MAX && Followed(ds, input, p, q) && Reached(ds, cap, input, p)
    requires Since(ds, input[..p]) + 1 + (q - p) <= cap
    ensures var s, hs := ByteThenPiece(input, p, q), DelimiterHandlers(ds, fds);
            && Run(s, cap, hs, BEGIN, p + 1).queue.net.taken <= input
            && !OnSimple(s, cap, hs, p + 1)
  {
    hide BQ.Fill, Loop, Since, Iterate, Run, HasRead, RoundIsSimple, At, Reached;
    var s, hs := ByteThenPiece(input, p, q), DelimiterHandlers(ds, fds);
    BeginAt(ds, cap, input);
    RunSnoc(s, cap, hs, BEGIN, p);
    ReadsByteByByte(cap, ds, fds, input, p, q, p);
    PieceShowsBoth(s, cap, ds, fds, input, Run(s, cap, hs, BEGIN, p), p, q);
  }

  lemma {:induction false} BothIn(ds: seq<byte>, data: Bytes, piece: Bytes, last: nat)
    requires last < |piece| && piece[0] != piece[last] && piece[0] in ds && piece[last] in ds
    ensures Together(ds, data + piece)
  {
    assert piece[0] in data + piece && piece[last] in data + piece;
  }

  /** Any number of handlers for different delimiters on a stream: every schedule on which the worker has
      read only bytes of `input` keeps every round on the simple iteration, exactly if wherever one
      delimiter is followed by another the two segments do not fit into the buffer together, as far as
      the worker gets. */
  lemma {:induction false} DelimitersOnStreams(ds: seq<byte>, fds: seq<int>, cap: nat, input: Bytes)
    requires |ds| == |fds| && Distinct(ds) && cap <= INT_MAX
    ensures var hs := DelimiterHandlers(ds, fds);
            (forall s: Schedule, rounds: nat | Run(s, cap, hs, BEGIN, rounds).queue.net.taken <= input ::
               OnSimple(s, cap, hs, rounds))
            <==> Apart(ds, cap, input)
  {
    var hs := DelimiterHandlers(ds, fds);
    if Apart(ds, cap, input) {
      forall s: Schedule, rounds: nat | Run(s, cap, hs, BEGIN, rounds).queue.net.taken <= input
        ensures OnSimple(s, cap, hs, rounds)
      {
        ApartIsSimple(s, cap, ds, fds, input, rounds);
      }
    } else {
      var p: nat, q: nat :| Followed(ds, input, p, q) && Reached(ds, cap, input, p)
                            && Since(ds, input[..p]) + 1 + (q - p) <= cap;
      TogetherDeparts(cap, ds, fds, input, p, q);
    }
  }
}
