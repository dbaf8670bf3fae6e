/** The messages one client queues for one peer until its data channel is open. */
module DirectQueue {
  const CAPACITY := 1000

  /**
   * The queue, with its history since signaling was last lost: what was submitted, what was sent, which
   * submissions those were, and how many had been submitted at the last flush.
   */
  datatype Line = Line(queue: seq<string>, submitted: seq<string>, sent: seq<string>, picks: seq<nat>, flushed: nat)

  const EMPTY := Line([], [], [], [], 0)

  datatype Op =
    | Submit(message: string, open: bool)
    | ChannelOpened(open: bool)
    | SignalingLost

  /** At capacity the oldest message gives way. */
  function Push(queue: seq<string>, message: string): seq<string> {
    (if |queue| >= CAPACITY then queue[1..] else queue) + [message]
  }

  function Flush(l: Line, open: bool): Line {
    if !open || l.queue == [] then l
    else
      var n := |l.submitted|;
      l.(queue := [],
         sent := l.sent + l.queue,
         picks := l.picks + seq(|l.queue|, i => if n >= |l.queue| then n - |l.queue| + i else i),
         flushed := n)
  }

  function Step(l: Line, op: Op): Line {
    match op
    case Submit(message, open) =>
      Flush(l.(queue := Push(l.queue, message), submitted := l.submitted + [message]), open)
    case ChannelOpened(open) => Flush(l, open)
    case SignalingLost => EMPTY
  }

  function Last(s: seq<string>, n: nat): seq<string> {
    if |s| <= n then s else s[|s| - n..]
  }

  /** The queue is the last thousand messages since the last flush; what was sent kept its order. */
  ghost predicate Faithful(l: Line) {
    && l.flushed <= |l.submitted|
    && l.queue == Last(l.submitted[l.flushed..], CAPACITY)
    && |l.picks| == |l.sent|
    && (forall i :: 0 <= i < |l.picks| ==> l.picks[i] < l.flushed && l.sent[i] == l.submitted[l.picks[i]])
    && (forall i, j :: 0 <= i < j < |l.picks| ==> l.picks[i] < l.picks[j])
    && (|l.sent| == l.flushed <==> l.sent == l.submitted[..l.flushed])
    && |l.sent| <= l.flushed
  }

  lemma PushKeepsLast(all: seq<string>, message: string)
    ensures Push(Last(all, CAPACITY), message) == Last(all + [message], CAPACITY)
  {
  }

  /** Sending a suffix of the submissions extends the picks in order. */
  lemma PicksExtend(l: Line, next: Line)
    requires Faithful(l) && l.queue != [] && next == Flush(l, true)
    ensures |next.picks| == |next.sent|
    ensures forall i :: 0 <= i < |next.picks| ==>
      next.picks[i] < |l.submitted| && next.sent[i] == l.submitted[next.picks[i]]
    ensures forall i, j :: 0 <= i < j < |next.picks| ==> next.picks[i] < next.picks[j]
  {
    var n, m, k := |l.submitted|, |l.queue|, |l.sent|;
    QueueIsSuffix(l);
    forall i | 0 <= i < k + m
      ensures next.picks[i] == (if i < k then l.picks[i] else n - m + (i - k))
      ensures next.sent[i] == (if i < k then l.sent[i] else l.queue[i - k])
    {
    }
  }

  lemma FlushKeepsFaithful(l: Line, open: bool)
    requires Faithful(l)
    ensures Faithful(Flush(l, open))
  {
    if open && l.queue != [] {
      var next := Flush(l, open);
      PicksExtend(l, next);
      QueueIsSuffix(l);
      FaithfulIsComplete(l);
      assert next.submitted[..next.flushed] == l.submitted;
      assert next.submitted[next.flushed..] == [];
    }
  }

  lemma StepKeepsFaithful(l: Line, op: Op)
    requires Faithful(l)
    ensures Faithful(Step(l, op))
  {
    match op
    case Submit(message, open) =>
      var next := l.(queue := Push(l.queue, message), submitted := l.submitted + [message]);
      PushKeepsLast(l.submitted[l.flushed..], message);
      assert next.submitted[l.flushed..] == l.submitted[l.flushed..] + [message];
      assert next.submitted[..l.flushed] == l.submitted[..l.flushed];
      FlushKeepsFaithful(next, open);
    case ChannelOpened(open) => FlushKeepsFaithful(l, open);
    case SignalingLost =>
  }

  /** A message joins the end of its queue, from which it pushes the oldest of a thousand; over an open channel all goes out at once. */
  lemma SubmitMeans(l: Line, message: string, open: bool)
    ensures var next := Step(l, Submit(message, open));
            var queue := (if |l.queue| < 1000 then l.queue else l.queue[1..]) + [message];
            && next.submitted == l.submitted + [message]
            && next.queue == (if open then [] else queue)
            && next.sent == (if open then l.sent + queue else l.sent)
  {
  }

  /** When a channel opens its whole queue goes out; the event alone, without a channel, sends nothing. */
  lemma OpenMeans(l: Line, open: bool)
    ensures var next := Step(l, ChannelOpened(open));
            && next.submitted == l.submitted
            && next.queue == (if open then [] else l.queue)
            && next.sent == (if open then l.sent + l.queue else l.sent)
  {
  }

  function Run(ops: seq<Op>): Line {
    if ops == [] then EMPTY else Step(Run(ops[..|ops| - 1]), ops[|ops| - 1])
  }

  lemma {:induction false} RunIsFaithful(ops: seq<Op>)
    ensures Faithful(Run(ops))
  {
    if ops != [] {
      RunIsFaithful(ops[..|ops| - 1]);
      StepKeepsFaithful(Run(ops[..|ops| - 1]), ops[|ops| - 1]);
    }
  }

  /** Whatever happened before, after a submission or an opening over an open channel nothing waits. */
  lemma NothingWaitsWhenOpen(ops: seq<Op>)
    requires ops != [] && !ops[|ops| - 1].SignalingLost? && ops[|ops| - 1].open
    ensures Run(ops).queue == []
    ensures var before := Run(ops[..|ops| - 1]);
            |Run(ops).sent| >= |before.sent| && Run(ops).sent[..|before.sent|] == before.sent
            && (ops[|ops| - 1].Submit? ==> Run(ops).sent != [] && Run(ops).sent[|Run(ops).sent| - 1] == ops[|ops| - 1].message)
  {
    var before, op := Run(ops[..|ops| - 1]), ops[|ops| - 1];
    if op.Submit? {
      SubmitMeans(before, op.message, true);
    } else {
      OpenMeans(before, true);
    }
  }

  /** Positions of a subsequence: strictly increasing, each naming an equal element. */
  ghost predicate SelectedBy(s: seq<string>, all: seq<string>, picks: seq<nat>) {
    && |picks| == |s|
    && (forall i :: 0 <= i < |picks| ==> picks[i] < |all| && s[i] == all[picks[i]])
    && (forall i, j :: 0 <= i < j < |picks| ==> picks[i] < picks[j])
  }

  /**
   * Whatever is submitted, however often the channel opens: the queue never exceeds its capacity and holds the
   * last messages since the last flush; sent messages followed by the queue are submissions in order, none
   * twice; and they are all of them exactly when as many are accounted for as were submitted.
   */
  lemma NothingIsReordered(ops: seq<Op>)
    ensures var l := Run(ops);
            && |l.queue| <= CAPACITY && l.flushed <= |l.submitted|
            && l.queue == Last(l.submitted[l.flushed..], CAPACITY)
            && (exists picks :: SelectedBy(l.sent + l.queue, l.submitted, picks))
            && (l.sent + l.queue == l.submitted <==> |l.sent| + |l.queue| == |l.submitted|)
  {
    RunIsFaithful(ops);
    FaithfulIsSelected(Run(ops));
    FaithfulIsComplete(Run(ops));
  }

  /** The queue is the end of what was submitted. */
  lemma QueueIsSuffix(l: Line)
    requires Faithful(l)
    ensures |l.queue| <= |l.submitted| - l.flushed
    ensures l.queue == l.submitted[|l.submitted| - |l.queue|..]
  {
  }

  lemma FaithfulIsSelected(l: Line)
    requires Faithful(l)
    ensures exists picks :: SelectedBy(l.sent + l.queue, l.submitted, picks)
  {
    QueueIsSuffix(l);
    var n, m, k := |l.submitted|, |l.queue|, |l.sent|;
    var tail := seq(m, i requires 0 <= i < m => n - m + i);
    var all, picks := l.sent + l.queue, l.picks + tail;
    assert forall i :: 0 <= i < k ==> picks[i] == l.picks[i] && all[i] == l.sent[i];
    assert forall i :: k <= i < k + m ==> picks[i] == n - m + (i - k) && all[i] == l.queue[i - k];
    assert SelectedBy(all, l.submitted, picks);
  }

  lemma FaithfulIsComplete(l: Line)
    requires Faithful(l)
    ensures l.sent + l.queue == l.submitted <==> |l.sent| + |l.queue| == |l.submitted|
  {
    QueueIsSuffix(l);
    if |l.sent| + |l.queue| == |l.submitted| {
      assert |l.sent| == l.flushed;
      assert l.submitted == l.submitted[..l.flushed] + l.submitted[l.flushed..];
    }
  }

  /** The k-th operation, if it is a submission since signaling was last lost, met a queue with room. */
  ghost predicate Fits(ops: seq<Op>, k: nat)
    requires k < |ops|
  {
    ops[k].Submit? && SignalingLost !in ops[k..] ==> |Run(ops[..k]).queue| < CAPACITY
  }

  /** No submission since signaling was last lost met a full queue. */
  ghost predicate NeverFull(ops: seq<Op>) {
    forall k :: 0 <= k < |ops| ==> Fits(ops, k)
  }

  lemma FitsStep(ops: seq<Op>, k: nat)
    requires k < |ops| - 1
    ensures Fits(ops, k) <==> ops[|ops| - 1].SignalingLost? || Fits(ops[..|ops| - 1], k)
  {
    var n := |ops| - 1;
    assert ops[..n][..k] == ops[..k];
    assert ops[k..] == ops[..n][k..] + [ops[n]];
  }

  lemma NeverFullStep(ops: seq<Op>)
    requires ops != []
    ensures var init, op := ops[..|ops| - 1], ops[|ops| - 1];
            NeverFull(ops) <==> op.SignalingLost? || (NeverFull(init) && (op.Submit? ==> |Run(init).queue| < CAPACITY))
  {
    var n := |ops| - 1;
    assert ops[n..] == [ops[n]];
    forall k: nat | k < n {
      FitsStep(ops, k);
    }
    if NeverFull(ops) && !ops[n].SignalingLost? {
      assert Fits(ops, n);
      forall k: nat | k < n ensures Fits(ops[..n], k) {
        assert Fits(ops, k);
      }
    }
  }

  /** Everything submitted is accounted for exactly if no submission since signaling was last lost met a full queue. */
  lemma {:induction false} NothingIsDroppedIff(ops: seq<Op>)
    ensures Run(ops).sent + Run(ops).queue == Run(ops).submitted <==> NeverFull(ops)
  {
    RunIsFaithful(ops);
    FaithfulIsComplete(Run(ops));
    if ops != [] {
      var init := ops[..|ops| - 1];
      NothingIsDroppedIff(init);
      RunIsFaithful(init);
      FaithfulIsComplete(Run(init));
      QueueIsSuffix(Run(init));
      NeverFullStep(ops);
    }
  }
}
