/** The write queue of one websocket session: at most one write at a time, in order. */
module Outbox {
  import opened Domain

  /**
   * The session's queue and flag, whether the stream is busy with a write, and the history: payloads accepted
   * for sending, what each successful write carried, and how often the disconnect handler ran.
   *
   * The stream does not copy what it writes: a running write refers to the front of the queue. A write that
   * completes when the front is gone had its bytes freed under it; nothing vouches for what it carried, which is None.
   */
  datatype Line = Line(
    outbox: seq<string>,
    closed: bool,
    writing: bool,
    accepted: seq<string>,
    written: seq<Option<string>>,
    disconnects: nat)

  const FRESH := Line([], false, false, [], [], 0)

  /** What the session's strand runs, one at a time. */
  datatype Callback =
    | Send(payload: string)
    | Written(failed: bool)
    | ReadFailed

  /** A write completes only while one is outstanding. */
  ghost predicate Due(l: Line, c: Callback) {
    c.Written? ==> l.writing
  }

  /** What the running write's buffer holds. */
  function Front(outbox: seq<string>): Option<string> {
    if outbox == [] then None else Some(outbox[0])
  }

  ghost function Closed(l: Line): Line {
    if l.closed then l else l.(closed := true, outbox := [], disconnects := l.disconnects + 1)
  }

  ghost function Run(l: Line, c: Callback): Line
    requires Due(l, c)
  {
    match c
    case Send(payload) =>
      if l.closed then l
      else l.(outbox := l.outbox + [payload], accepted := l.accepted + [payload], writing := l.writing || l.outbox == [])
    case Written(failed) =>
      var done := l.(writing := false, written := if failed then l.written else l.written + [Front(l.outbox)]);
      if failed then Closed(done)
      else if l.closed || l.outbox == [] then done
      else done.(outbox := l.outbox[1..], writing := |l.outbox| > 1)
    case ReadFailed => Closed(l)
  }

  /** The first n writes carried the first n accepted payloads. */
  ghost predicate Carried(l: Line, n: nat) {
    n <= |l.written| && n <= |l.accepted| && forall i :: 0 <= i < n ==> l.written[i] == Some(l.accepted[i])
  }

  /** The last write carried bytes that were freed under it. */
  ghost predicate Dangled(l: Line) {
    l.closed && !l.writing && |l.written| > 0 && l.written[|l.written| - 1] == None
  }

  /**
   * While open, one write is outstanding exactly when something is queued, and nothing is lost or reordered.
   * After closing at most one more write ends, and only that one may have carried freed bytes.
   */
  ghost predicate Orderly(l: Line) {
    if !l.closed then
      && (l.writing <==> l.outbox != [])
      && Carried(l, |l.written|)
      && l.outbox == l.accepted[|l.written|..]
      && l.disconnects == 0
    else
      && l.outbox == []
      && |l.written| + (if l.writing then 1 else 0) <= |l.accepted|
      && Carried(l, if Dangled(l) then |l.written| - 1 else |l.written|)
      && l.disconnects == 1
  }

  lemma RunKeepsOrderly(l: Line, c: Callback)
    requires Orderly(l) && Due(l, c)
    ensures Orderly(Run(l, c))
  {
  }

  ghost predicate IsHistory(ls: seq<Line>, cs: seq<Callback>) {
    && |ls| == |cs| + 1 && ls[0] == FRESH
    && forall k :: 0 <= k < |cs| ==> Due(ls[k], cs[k]) && ls[k + 1] == Run(ls[k], cs[k])
  }

  lemma {:induction false} HistoryIsOrderly(ls: seq<Line>, cs: seq<Callback>, n: nat)
    requires IsHistory(ls, cs) && n < |ls|
    ensures Orderly(ls[n])
  {
    if n > 0 {
      HistoryIsOrderly(ls, cs, n - 1);
      RunKeepsOrderly(ls[n - 1], cs[n - 1]);
    }
  }

  /**
   * At every moment of a session's life the writes, except a last one that lost its buffer, carried a prefix of
   * what was accepted; while the session is open the rest is exactly the queue; once it is closed no write
   * starts and the disconnect handler has run exactly once.
   */
  lemma WritesFollowAcceptance(ls: seq<Line>, cs: seq<Callback>, n: nat)
    requires IsHistory(ls, cs) && n < |ls|
    ensures Carried(ls[n], if Dangled(ls[n]) then |ls[n].written| - 1 else |ls[n].written|)
    ensures !ls[n].closed ==> ls[n].outbox == ls[n].accepted[|ls[n].written|..] && (ls[n].writing <==> ls[n].outbox != [])
    ensures ls[n].disconnects == if ls[n].closed then 1 else 0
    ensures n > 0 && ls[n - 1].closed ==> ls[n].closed && (ls[n].writing ==> ls[n - 1].writing)
  {
    HistoryIsOrderly(ls, cs, n);
  }

  /** What callers handed over while the session was open, in order. */
  ghost function Offered(ls: seq<Line>, cs: seq<Callback>, n: nat): seq<string>
    requires n <= |cs| && n <= |ls|
  {
    if n == 0 then []
    else Offered(ls, cs, n - 1) + if cs[n - 1].Send? && !ls[n - 1].closed then [cs[n - 1].payload] else []
  }

  /** Every payload handed to an open session is accepted, whatever is being written, and no other. */
  lemma {:induction false} AcceptsWhatIsOffered(ls: seq<Line>, cs: seq<Callback>, n: nat)
    requires IsHistory(ls, cs) && n < |ls|
    ensures ls[n].accepted == Offered(ls, cs, n)
  {
    if n > 0 {
      AcceptsWhatIsOffered(ls, cs, n - 1);
    }
  }

  /** A session is closed exactly once a read or a write has failed. */
  lemma {:induction false} ClosedIff(ls: seq<Line>, cs: seq<Callback>, n: nat)
    requires IsHistory(ls, cs) && n < |ls|
    ensures ls[n].closed <==> exists j :: 0 <= j < n && (cs[j] == ReadFailed || cs[j] == Written(true))
  {
    if n > 0 {
      ClosedIff(ls, cs, n - 1);
      assert cs[n - 1] == ReadFailed || cs[n - 1] == Written(true) ==> ls[n].closed;
    }
  }

  /** A successful write of an open session takes the front off the queue and lets the next begin. */
  lemma WriteTakesOne(l: Line)
    requires Orderly(l) && !l.closed && l.outbox != []
    ensures Due(l, Written(false))
    ensures var next := Run(l, Written(false));
            && !next.closed && next.accepted == l.accepted && next.outbox == l.outbox[1..]
            && next.written == l.written + [Some(l.outbox[0])]
  {
  }

  /** While a write is outstanding the session is closed exactly if a read failed; a failed write leaves none. */
  lemma {:induction false} ClosedByRead(ls: seq<Line>, cs: seq<Callback>, n: nat)
    requires IsHistory(ls, cs) && n < |ls|
    ensures ls[n].writing && ls[n].closed ==> exists j :: 0 <= j < n && cs[j].ReadFailed?
    ensures !ls[n].closed ==> forall j :: 0 <= j < n ==> !cs[j].ReadFailed?
  {
    if n > 0 {
      ClosedByRead(ls, cs, n - 1);
      HistoryIsOrderly(ls, cs, n - 1);
      assert cs[n - 1].ReadFailed? || !ls[n].closed || ls[n - 1].closed || !ls[n].writing;
    }
  }

  /** A successful write carries the next accepted payload exactly if no read failed before it ended. */
  lemma WriteCarriesPayloadIff(ls: seq<Line>, cs: seq<Callback>, n: nat)
    requires IsHistory(ls, cs) && n < |cs| && cs[n] == Written(false)
    ensures var k := |ls[n].written|;
            && k < |ls[n].accepted| && ls[n + 1].written == ls[n].written + [ls[n + 1].written[k]]
            && (ls[n + 1].written[k] == Some(ls[n].accepted[k]) <==> forall j :: 0 <= j < n ==> !cs[j].ReadFailed?)
  {
    HistoryIsOrderly(ls, cs, n);
    ClosedByRead(ls, cs, n);
  }

  /** A read that fails during a write frees the bytes being written. */
  lemma WriteCanDangle(payload: string) returns (ls: seq<Line>, cs: seq<Callback>)
    ensures IsHistory(ls, cs) && ls[|cs|].accepted == [payload] && ls[|cs|].written == [None]
  {
    cs := [Send(payload), ReadFailed, Written(false)];
    var l1 := Run(FRESH, Send(payload));
    var l2 := Run(l1, ReadFailed);
    ls := [FRESH, l1, l2, Run(l2, Written(false))];
  }

  /** The session as its strand runs it. */
  class WsSession {
    var outbox: seq<string>
    var closed: bool
    ghost var writing: bool
    ghost var accepted: seq<string>
    ghost var written: seq<Option<string>>
    ghost var disconnects: nat

    ghost function History(): Line
      reads this
    {
      Line(outbox, closed, writing, accepted, written, disconnects)
    }

    ghost predicate Valid()
      reads this
    {
      Orderly(History())
    }

    constructor ()
      ensures Valid() && History() == FRESH
    {
      outbox, closed, writing, accepted, written, disconnects := [], false, false, [], [], 0;
    }

    /** Queues a payload and starts writing if nothing is being written. */
    method SendText(payload: string)
      requires Valid()
      modifies this
      ensures Valid() && History() == Run(old(History()), Send(payload))
      ensures !old(closed) ==> accepted == old(accepted) + [payload] && outbox == old(outbox) + [payload] && writing && !closed
      ensures old(closed) ==> closed && accepted == old(accepted) && outbox == old(outbox) && writing == old(writing)
      ensures written == old(written) && disconnects == old(disconnects)
    {
      RunKeepsOrderly(History(), Send(payload));
      if closed {
        return;
      }
      var busy := outbox != [];
      outbox, accepted := outbox + [payload], accepted + [payload];
      if !busy {
        DoWrite();
      }
    }

    /** Starts writing the front of the queue, in place. */
    method DoWrite()
      requires outbox != [] && !writing
      modifies this`writing
      ensures writing == !closed
    {
      if closed {
        return;
      }
      writing := true;
    }

    /** The outstanding write ended. */
    method OnWrite(failed: bool)
      requires Valid() && writing
      modifies this
      ensures Valid() && History() == Run(old(History()), Written(failed))
      ensures !failed && !old(closed) ==>
        && !closed && old(outbox) != [] && outbox == old(outbox)[1..] && written == old(written) + [Some(old(outbox)[0])]
        && writing == (|old(outbox)| > 1)
      ensures failed ==> closed && outbox == [] && written == old(written) && !writing
      ensures disconnects == old(disconnects) + (if failed && !old(closed) then 1 else 0) && accepted == old(accepted)
    {
      RunKeepsOrderly(History(), Written(failed));
      writing := false;
      if !failed {
        written := written + [Front(outbox)];
      }
      if failed || closed {
        if !closed {
          Cleanup();
        }
        return;
      }
      outbox := outbox[1..];
      if outbox != [] {
        DoWrite();
      }
    }

    method OnReadFailed()
      requires Valid()
      modifies this
      ensures Valid() && History() == Run(old(History()), ReadFailed)
      ensures closed && outbox == [] && disconnects == old(disconnects) + (if old(closed) then 0 else 1)
      ensures accepted == old(accepted) && written == old(written) && writing == old(writing)
    {
      RunKeepsOrderly(History(), ReadFailed);
      Cleanup();
    }

    /** Closes once: drops the queue, even the front that may be being written, and reports the disconnect. */
    method Cleanup()
      modifies this`closed, this`outbox, this`disconnects
      ensures History() == Closed(old(History()))
      ensures closed && (!old(closed) ==> outbox == []) && disconnects == old(disconnects) + (if old(closed) then 0 else 1)
    {
      if closed {
        return;
      }
      closed := true;
      outbox := [];
      disconnects := disconnects + 1;
    }
  }
}
