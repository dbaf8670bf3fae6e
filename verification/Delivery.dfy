/** Group delivery with handlers of different sessions interleaved between their locked steps. */
module Delivery {
  import opened Domain
  import opened Registry
  import opened RegistryInvariant
  import opened Runs

  /** What is left of a handler after a locked step. A session runs one handler at a time. */
  datatype Duty =
    | FetchBuffered(room: RoomId, peer: PeerId)
    | SendLive(room: RoomId, seqNo: int, remaining: seq<Session>)

  /** A session while it speaks for a peer. */
  datatype Ear = Ear(s: Session, p: PeerId)

  /** One live text written to one session. */
  datatype Copy = Copy(seqNo: int, to: Session)

  /**
   * The registry and the unfinished handlers, with their history: which numbers were handed to a session as
   * which peer, every live text written, and the highest acknowledgement of every peer.
   */
  datatype System = System(
    w: World,
    duties: map<Session, Duty>,
    handed: map<Ear, set<int>>,
    live: multiset<Copy>,
    highest: map<PeerId, int>)

  const START := System(World(INITIAL, {}), map[], map[], multiset{}, map[])

  datatype Action =
    | Call(e: Event, recipients: seq<Session>)
    | Fetch(s: Session)
    | SendNext(s: Session)

  function Handed(sys: System, s: Session, p: PeerId): set<int> {
    if Ear(s, p) in sys.handed then sys.handed[Ear(s, p)] else {}
  }

  /** The peer an alive session speaks for in a room. */
  function SpokenFor(sys: System, t: Session, r: RoomId): Option<PeerId> {
    var i := Find(Entries(sys.w.reg, t), r);
    if t in sys.w.dead || i.None? then None else Some(i.value.peer)
  }

  function Highest(sys: System, p: PeerId): int {
    if p in sys.highest && sys.highest[p] > 0 then sys.highest[p] else 0
  }

  /** Calls come from sessions with no handler running; a broadcast goes on with the list the registry returned. */
  ghost predicate Possible(sys: System, a: Action) {
    match a
    case Call(e, recipients) =>
      && Enabled(sys.w, e) && !e.PendingEvent? && e.s !in sys.duties
      && (e.BroadcastEvent? ==> Enumerates(recipients, Audience(sys.w.reg, sys.w.dead, e.room) - {e.s}))
    case Fetch(s) => s in sys.duties && sys.duties[s].FetchBuffered?
    case SendNext(s) => s in sys.duties && sys.duties[s].SendLive?
  }

  /** What the handler of a call still has to do after its first locked step. */
  ghost function DutyAfter(w: World, e: Event, recipients: seq<Session>): Option<Duty> {
    if e.JoinEvent? && JoinError(w.reg, w.dead, e.s, e.room, e.username, e.requested).None?
       && TypeFor(w.reg, e.room, e.requested) == Group
    then Some(FetchBuffered(e.room, JoinPeer(w.reg, e.room, e.username)))
    else if e.BroadcastEvent? && BroadcastError(w.reg, e.s, e.room).None?
    then Some(SendLive(e.room, w.reg.store.nextSeq + 1, [e.s] + recipients))
    else None
  }

  ghost function HighestAfter(sys: System, e: Event): map<PeerId, int> {
    if e.AckEvent? && Find(Entries(sys.w.reg, e.s), e.room).Some? then
      var p := Find(Entries(sys.w.reg, e.s), e.room).value.peer;
      sys.highest[p := Max(Highest(sys, p), e.upTo)]
    else sys.highest
  }

  ghost function Act(sys: System, a: Action): System
    requires Possible(sys, a)
  {
    match a
    case Call(e, recipients) =>
      var duty := DutyAfter(sys.w, e, recipients);
      System(Apply(sys.w, e),
             if duty.Some? then sys.duties[e.s := duty.value] else sys.duties,
             sys.handed,
             sys.live,
             HighestAfter(sys, e))
    case Fetch(s) =>
      var p := sys.duties[s].peer;
      sys.(duties := sys.duties - {s}, handed := sys.handed[Ear(s, p) := Handed(sys, s, p) + Pending(sys.w.reg, p)])
    case SendNext(s) =>
      var duty := sys.duties[s];
      if duty.remaining == [] then sys.(duties := sys.duties - {s})
      else
        var t := duty.remaining[0];
        var p := SpokenFor(sys, t, duty.room);
        sys.(duties := sys.duties[s := duty.(remaining := duty.remaining[1..])],
             live := sys.live + multiset{Copy(duty.seqNo, t)},
             handed := if p.None? then sys.handed
                       else sys.handed[Ear(t, p.value) := Handed(sys, t, p.value) + {duty.seqNo}])
  }

  /** The message is in some broadcaster's unfinished send loop, with the session still to come. */
  ghost predicate OnTheWay(sys: System, t: Session, q: int) {
    exists s :: s in sys.duties && sys.duties[s].SendLive? && sys.duties[s].seqNo == q && t in sys.duties[s].remaining
  }

  ghost predicate Reached(sys: System, t: Session, p: PeerId, q: int) {
    q in Handed(sys, t, p) || OnTheWay(sys, t, q)
  }

  /** The join handler of this entry has not fetched the buffered messages yet. */
  ghost predicate Fetching(sys: System, t: Session, i: ClientInfo) {
    t in sys.duties && sys.duties[t] == FetchBuffered(i.room, i.peer)
  }

  /** A stored message of the entry's room above everything its peer acknowledged. */
  ghost predicate Owed(sys: System, i: ClientInfo, q: int) {
    && q in sys.w.reg.store.messages && sys.w.reg.store.messages[q].room == i.room
    && q > Highest(sys, i.peer)
  }

  ghost predicate Joined(sys: System, t: Session, i: ClientInfo) {
    t !in sys.w.dead && i in Entries(sys.w.reg, t) && i.roomType == Group
  }

  ghost predicate Covered(sys: System) {
    forall t, i, q {:trigger Reached(sys, t, i.peer, q), Owed(sys, i, q)} ::
      Joined(sys, t, i) && !Fetching(sys, t, i) && Owed(sys, i, q) ==> Reached(sys, t, i.peer, q)
  }

  ghost predicate CursorsBelow(sys: System) {
    forall p {:trigger Highest(sys, p)} :: Present(sys.w, p) ==> MemberAt(sys.w, p).acked <= Highest(sys, p)
  }

  /** Send loops, live texts and all that was handed out carry assigned numbers; a loop belongs to its message's room. */
  ghost predicate Numbered(sys: System) {
    && (forall s :: s in sys.duties && sys.duties[s].SendLive? ==>
          && sys.duties[s].seqNo <= sys.w.reg.store.nextSeq
          && (sys.duties[s].seqNo in sys.w.reg.store.messages ==>
                sys.w.reg.store.messages[sys.duties[s].seqNo].room == sys.duties[s].room))
    && (forall c :: c in sys.live ==> c.seqNo <= sys.w.reg.store.nextSeq)
    && (forall e, q :: e in sys.handed && q in sys.handed[e] ==> q <= sys.w.reg.store.nextSeq)
  }

  ghost predicate Sound(sys: System) {
    Good(sys.w) && GroupOnly(sys.w.reg.store) && Numbered(sys) && CursorsBelow(sys) && Covered(sys)
  }

  // ---- every action keeps the bookkeeping sound ----

  lemma CallKeepsCursors(sys: System, e: Event, recipients: seq<Session>)
    requires Sound(sys) && Possible(sys, Call(e, recipients))
    ensures CursorsBelow(Act(sys, Call(e, recipients)))
  {
    var next := Act(sys, Call(e, recipients));
    forall p | Present(next.w, p) ensures MemberAt(next.w, p).acked <= Highest(next, p) {
      if Present(sys.w, p) {
        MemberStep(sys.w, e, p);
        assert MemberAt(sys.w, p).acked <= Highest(sys, p);
      } else {
        FirstCursor(sys.w, e, p);
      }
    }
  }

  /** Entries after a call were there before, except the joining one, which is still fetching. */
  lemma EntriesAfterCall(sys: System, e: Event, recipients: seq<Session>, t: Session, i: ClientInfo)
    requires Sound(sys) && Possible(sys, Call(e, recipients))
    requires var next := Act(sys, Call(e, recipients)); Joined(next, t, i) && !Fetching(next, t, i)
    ensures Joined(sys, t, i) && !Fetching(sys, t, i)
  {
    var next := Act(sys, Call(e, recipients));
    match e
    case JoinEvent(s, r, u, ty) =>
      assert t != s || i in Entries(sys.w.reg, s) || i == ClientInfo(r, JoinPeer(sys.w.reg, r, u), u, TypeFor(sys.w.reg, r, ty));
    case LeaveEvent(s, room, peer) =>
      if t == s && MatchIndex(Entries(sys.w.reg, s), room, peer) < |Entries(sys.w.reg, s)| {
        assert OneEntryPerRoom(sys.w.reg.clients[s]);
        WithoutEntry(Entries(sys.w.reg, s), MatchIndex(Entries(sys.w.reg, s), room, peer));
      }
    case _ =>
  }

  lemma CallKeepsReached(sys: System, e: Event, recipients: seq<Session>, t: Session, p: PeerId, q: int)
    requires Possible(sys, Call(e, recipients)) && Reached(sys, t, p, q)
    ensures Reached(Act(sys, Call(e, recipients)), t, p, q)
  {
    var next := Act(sys, Call(e, recipients));
    if OnTheWay(sys, t, q) {
      var s :| s in sys.duties && sys.duties[s].SendLive? && sys.duties[s].seqNo == q && t in sys.duties[s].remaining;
      assert s in next.duties && next.duties[s] == sys.duties[s];
    }
  }

  lemma CallKeepsNumbered(sys: System, e: Event, recipients: seq<Session>)
    requires Sound(sys) && Possible(sys, Call(e, recipients))
    ensures Numbered(Act(sys, Call(e, recipients)))
  {
    var next := Act(sys, Call(e, recipients));
    SeqStep(sys.w, e);
    forall s | s in next.duties && next.duties[s].SendLive? && next.duties[s].seqNo in next.w.reg.store.messages
      ensures next.w.reg.store.messages[next.duties[s].seqNo].room == next.duties[s].room
    {
      MessagesAfter(sys.w, e, next.duties[s].seqNo);
    }
  }

  lemma CallKeepsCovered(sys: System, e: Event, recipients: seq<Session>)
    requires Sound(sys) && Possible(sys, Call(e, recipients))
    ensures Covered(Act(sys, Call(e, recipients)))
  {
    var next := Act(sys, Call(e, recipients));
    forall t, i, q | Joined(next, t, i) && !Fetching(next, t, i) && Owed(next, i, q) ensures Reached(next, t, i.peer, q) {
      EntriesAfterCall(sys, e, recipients, t, i);
      MessagesAfter(sys.w, e, q);
      if q in sys.w.reg.store.messages && next.w.reg.store.messages[q] == sys.w.reg.store.messages[q] {
        assert Highest(next, i.peer) >= Highest(sys, i.peer);
        assert Owed(sys, i, q);
        assert Reached(sys, t, i.peer, q);
        CallKeepsReached(sys, e, recipients, t, i.peer, q);
      } else {
        assert Find(Entries(sys.w.reg, t), e.room).Some?;
        assert t in Audience(sys.w.reg, sys.w.dead, e.room);
        assert t in [e.s] + recipients;
        assert next.duties[e.s] == SendLive(e.room, q, [e.s] + recipients);
      }
    }
  }

  /** Fetching hands over every message above the cursor, hence every one above the highest acknowledgement. */
  lemma FetchKeepsCovered(sys: System, s: Session)
    requires Sound(sys) && Possible(sys, Fetch(s))
    ensures Covered(Act(sys, Fetch(s)))
  {
    var next := Act(sys, Fetch(s));
    forall t, i, q | Joined(next, t, i) && !Fetching(next, t, i) && Owed(next, i, q) ensures Reached(next, t, i.peer, q) {
      assert Agrees(sys.w.reg, t, i);
      if Fetching(sys, t, i) {
        assert MemberAt(sys.w, i.peer).acked <= Highest(sys, i.peer);
        assert q in Pending(sys.w.reg, i.peer);
      } else {
        assert Owed(sys, i, q);
        assert Reached(sys, t, i.peer, q);
        if OnTheWay(sys, t, q) {
          var b :| b in sys.duties && sys.duties[b].SendLive? && sys.duties[b].seqNo == q && t in sys.duties[b].remaining;
          assert b in next.duties && next.duties[b] == sys.duties[b];
        }
      }
    }
  }

  /** The head of the list is handed the message as the peer it speaks for in the message's room. */
  lemma SendKeepsReached(sys: System, s: Session, t: Session, i: ClientInfo, q: int)
    requires Sound(sys) && Possible(sys, SendNext(s)) && Reached(sys, t, i.peer, q)
    requires t !in sys.w.dead && i in Entries(sys.w.reg, t)
    requires q in sys.w.reg.store.messages && sys.w.reg.store.messages[q].room == i.room
    ensures Reached(Act(sys, SendNext(s)), t, i.peer, q)
  {
    var next := Act(sys, SendNext(s));
    if OnTheWay(sys, t, q) {
      var b :| b in sys.duties && sys.duties[b].SendLive? && sys.duties[b].seqNo == q && t in sys.duties[b].remaining;
      if b == s && t == sys.duties[s].remaining[0] {
        assert OneEntryPerRoom(sys.w.reg.clients[t]);
        assert SpokenFor(sys, t, sys.duties[s].room) == Some(i.peer);
        assert q in Handed(next, t, i.peer);
      } else if b == s {
        var rest := sys.duties[s].remaining;
        assert rest == [rest[0]] + rest[1..];
        assert t in next.duties[s].remaining;
      } else {
        assert b in next.duties && next.duties[b] == sys.duties[b];
      }
    }
  }

  lemma SendKeepsCovered(sys: System, s: Session)
    requires Sound(sys) && Possible(sys, SendNext(s))
    ensures Covered(Act(sys, SendNext(s)))
  {
    var next := Act(sys, SendNext(s));
    forall t, i, q | Joined(next, t, i) && !Fetching(next, t, i) && Owed(next, i, q) ensures Reached(next, t, i.peer, q) {
      assert Owed(sys, i, q);
      assert Reached(sys, t, i.peer, q);
      SendKeepsReached(sys, s, t, i, q);
    }
  }

  lemma ActKeepsSound(sys: System, a: Action)
    requires Sound(sys) && Possible(sys, a)
    ensures Sound(Act(sys, a))
  {
    match a
    case Call(e, recipients) =>
      StepKeepsGood(sys.w, e);
      GroupOnlyStep(sys.w, e);
      CallKeepsNumbered(sys, e, recipients);
      CallKeepsCursors(sys, e, recipients);
      CallKeepsCovered(sys, e, recipients);
    case Fetch(s) =>
      SameCursors(sys, Act(sys, a));
      FetchKeepsCovered(sys, s);
    case SendNext(s) =>
      SameCursors(sys, Act(sys, a));
      SendKeepsCovered(sys, s);
  }

  lemma SameCursors(sys: System, next: System)
    requires CursorsBelow(sys) && next.w == sys.w && next.highest == sys.highest
    ensures CursorsBelow(next)
  {
    forall p ensures Highest(next, p) == Highest(sys, p) {
    }
  }

  ghost predicate IsExecution(states: seq<System>, actions: seq<Action>) {
    && |states| == |actions| + 1 && states[0] == START
    && forall k {:trigger Leads(states, actions, k)} :: 0 <= k < |actions| ==> Leads(states, actions, k)
  }

  /** The k-th action leads from the k-th state to the next. */
  ghost predicate Leads(states: seq<System>, actions: seq<Action>, k: nat)
    requires k < |actions| < |states|
  {
    Possible(states[k], actions[k]) && states[k + 1] == Act(states[k], actions[k])
  }

  lemma {:induction false} ExecutionStaysSound(states: seq<System>, actions: seq<Action>, n: nat)
    requires IsExecution(states, actions) && n < |states|
    ensures Sound(states[n])
  {
    if n == 0 {
      InitialInv({});
    } else {
      ExecutionStaysSound(states, actions, n - 1);
      assert Leads(states, actions, n - 1);
      ActKeepsSound(states[n - 1], actions[n - 1]);
    }
  }

  /**
   * However handlers interleave: once the join handler of an alive session's group entry has returned, every
   * retained message of the room above everything its peer acknowledged was handed to that session as that peer,
   * buffered or live, or is still ahead of it in a broadcaster's send loop.
   */
  lemma AtLeastOnce(states: seq<System>, actions: seq<Action>, n: nat, t: Session, r: RoomId, q: int)
    requires IsExecution(states, actions) && n < |states|
    requires t in Audience(states[n].w.reg, states[n].w.dead, r)
    requires !Fetching(states[n], t, Find(states[n].w.reg.clients[t], r).value)
    requires q in states[n].w.reg.store.messages && states[n].w.reg.store.messages[q].room == r
    requires q > Highest(states[n], Find(states[n].w.reg.clients[t], r).value.peer)
    ensures q in Handed(states[n], t, Find(states[n].w.reg.clients[t], r).value.peer) || OnTheWay(states[n], t, q)
  {
    var sys := states[n];
    ExecutionStaysSound(states, actions, n);
    var i := Find(sys.w.reg.clients[t], r).value;
    assert Agrees(sys.w.reg, t, i);
    assert Joined(sys, t, i) && Owed(sys, i, q);
    assert Reached(sys, t, i.peer, q);
  }

  // ---- how many live copies there are ----

  /** How often a session still comes up in a broadcaster's send loop of a message. */
  ghost function StillToCome(sys: System, b: Session, q: int, t: Session): nat {
    if b in sys.duties && sys.duties[b].SendLive? && sys.duties[b].seqNo == q then multiset(sys.duties[b].remaining)[t] else 0
  }

  /** Written or still to be written, each session of the audience has one live copy and nobody else any. */
  ghost predicate Fanning(sys: System, b: Session, q: int, audience: set<Session>) {
    && q <= sys.w.reg.store.nextSeq
    && (forall s :: s in sys.duties && sys.duties[s].SendLive? && sys.duties[s].seqNo == q ==> s == b)
    && forall t :: sys.live[Copy(q, t)] + StillToCome(sys, b, q, t) == if t in audience then 1 else 0
  }

  lemma {:induction false} CountOfDistinct(list: seq<Session>, t: Session)
    requires Distinct(list)
    ensures multiset(list)[t] == if t in list then 1 else 0
  {
    if list != [] {
      var init := list[..|list| - 1];
      assert list == init + [list[|list| - 1]];
      CountOfDistinct(init, t);
    }
  }

  lemma BroadcastFans(sys: System, e: Event, recipients: seq<Session>)
    requires Sound(sys) && Possible(sys, Call(e, recipients))
    requires e.BroadcastEvent? && BroadcastError(sys.w.reg, e.s, e.room).None?
    ensures Fanning(Act(sys, Call(e, recipients)), e.s, sys.w.reg.store.nextSeq + 1, Audience(sys.w.reg, sys.w.dead, e.room))
  {
    var next, q := Act(sys, Call(e, recipients)), sys.w.reg.store.nextSeq + 1;
    forall t ensures next.live[Copy(q, t)] + StillToCome(next, e.s, q, t)
                  == if t in Audience(sys.w.reg, sys.w.dead, e.room) then 1 else 0
    {
      assert Copy(q, t) !in sys.live;
      assert Distinct([e.s] + recipients);
      CountOfDistinct([e.s] + recipients, t);
    }
  }

  /** A send loop's step writes what it takes off the list. */
  lemma SendMovesOne(sys: System, s: Session, b: Session, q: int, t: Session)
    requires Possible(sys, SendNext(s)) && (sys.duties[s].seqNo == q ==> s == b)
    ensures var next := Act(sys, SendNext(s));
            next.live[Copy(q, t)] + StillToCome(next, b, q, t) == sys.live[Copy(q, t)] + StillToCome(sys, b, q, t)
  {
    var rest := sys.duties[s].remaining;
    if rest != [] {
      assert rest == [rest[0]] + rest[1..];
      assert multiset(rest)[t] == multiset(rest[1..])[t] + if t == rest[0] then 1 else 0;
    }
  }

  lemma SendKeepsFanning(sys: System, s: Session, b: Session, q: int, audience: set<Session>)
    requires Fanning(sys, b, q, audience) && Possible(sys, SendNext(s))
    ensures Fanning(Act(sys, SendNext(s)), b, q, audience)
  {
    forall t {
      SendMovesOne(sys, s, b, q, t);
    }
  }

  lemma FanningStep(sys: System, a: Action, b: Session, q: int, audience: set<Session>)
    requires Fanning(sys, b, q, audience) && Possible(sys, a)
    ensures Fanning(Act(sys, a), b, q, audience)
  {
    match a
    case Call(e, recipients) =>
      var next := Act(sys, a);
      SeqStep(sys.w, e);
      assert forall t :: StillToCome(next, b, q, t) == StillToCome(sys, b, q, t);
    case Fetch(s) =>
      var next := Act(sys, a);
      assert forall t :: StillToCome(next, b, q, t) == StillToCome(sys, b, q, t);
    case SendNext(s) => SendKeepsFanning(sys, s, b, q, audience);
  }

  /** The registry accepts a broadcast. */
  ghost predicate Accepts(sys: System, a: Action) {
    a.Call? && a.e.BroadcastEvent? && BroadcastError(sys.w.reg, a.e.s, a.e.room).None?
  }

  lemma {:induction false} FanningLasts(states: seq<System>, actions: seq<Action>, m: nat, n: nat, b: Session, q: int,
                                         audience: set<Session>)
    requires IsExecution(states, actions) && m <= n < |states| && Fanning(states[m], b, q, audience)
    ensures Fanning(states[n], b, q, audience)
  {
    if m < n {
      FanningLasts(states, actions, m, n - 1, b, q, audience);
      assert Leads(states, actions, n - 1);
      FanningStep(states[n - 1], actions[n - 1], b, q, audience);
    }
  }

  /**
   * Whatever happens after an accepted broadcast: counting the sender's echo, each session that was alive and in
   * the room when it was accepted is written exactly one live copy, unless it is still ahead in the sender's loop,
   * and no other session is ever written one.
   */
  lemma OneLiveCopyEach(states: seq<System>, actions: seq<Action>, k: nat, n: nat, t: Session)
    requires IsExecution(states, actions) && k < n < |states| && Accepts(states[k], actions[k])
    ensures var w, e, q := states[k].w, actions[k].e, states[k].w.reg.store.nextSeq + 1;
            && states[n].live[Copy(q, t)] <= 1
            && (t !in Audience(w.reg, w.dead, e.room) ==> states[n].live[Copy(q, t)] == 0)
            && (t in Audience(w.reg, w.dead, e.room) ==>
                  (states[n].live[Copy(q, t)] == 1 <==> !OnTheWay(states[n], t, q)))
  {
    var w, e, q := states[k].w, actions[k].e, states[k].w.reg.store.nextSeq + 1;
    ExecutionStaysSound(states, actions, k);
    assert Leads(states, actions, k);
    BroadcastFans(states[k], e, actions[k].recipients);
    FanningLasts(states, actions, k + 1, n, e.s, q, Audience(w.reg, w.dead, e.room));
    FanningCounts(states[n], e.s, q, Audience(w.reg, w.dead, e.room), t);
  }

  lemma FanningCounts(sys: System, b: Session, q: int, audience: set<Session>, t: Session)
    requires Fanning(sys, b, q, audience)
    ensures sys.live[Copy(q, t)] <= 1
    ensures t !in audience ==> sys.live[Copy(q, t)] == 0
    ensures t in audience ==> (sys.live[Copy(q, t)] == 1 <==> !OnTheWay(sys, t, q))
  {
    if OnTheWay(sys, t, q) {
      assert StillToCome(sys, b, q, t) > 0;
    }
  }
}
