/** Which messages a member can miss although it acknowledges only what it was handed, and exactly when. */
module Gaps {
  import opened Domain
  import opened PeerIds
  import opened RoomStore
  import opened Registry
  import opened RegistryInvariant
  import opened Runs
  import opened Delivery

  ghost predicate WasHanded(sys: System, p: PeerId, q: int) {
    exists t :: q in Handed(sys, t, p)
  }

  /** A broadcaster's send loop still has the peer's alive session ahead. */
  ghost predicate Coming(sys: System, p: PeerId, q: int) {
    Online(sys.w.reg, sys.w.dead, p) && OnTheWay(sys, sys.w.reg.connections[p], q)
  }

  /** The peer is online and its join handler has returned. */
  ghost predicate Listening(sys: System, p: PeerId) {
    && Online(sys.w.reg, sys.w.dead, p)
    && var t := sys.w.reg.connections[p];
    !(t in sys.duties && sys.duties[t].FetchBuffered? && sys.duties[t].peer == p)
  }

  /** A member and a message stored for its room. */
  ghost predicate Concerns(sys: System, p: PeerId, q: int) {
    && Present(sys.w, p) && q in sys.w.reg.store.messages
    && sys.w.reg.store.messages[q].room == MemberAt(sys.w, p).room
  }

  /** The member has acknowledged past a stored message of its room that it never got and that is not on its way. */
  ghost predicate PassedOver(sys: System, p: PeerId, q: int) {
    Concerns(sys, p, q) && q <= MemberAt(sys.w, p).acked && !WasHanded(sys, p, q) && !Coming(sys, p, q)
  }

  /** A listening member got every message or has it coming; any other member got it, has it coming, or will have it buffered. */
  ghost predicate Supplied(sys: System, p: PeerId, q: int)
    requires Present(sys.w, p)
  {
    WasHanded(sys, p, q) || Coming(sys, p, q) || (q > MemberAt(sys.w, p).acked && !Listening(sys, p))
  }

  ghost predicate Complete(sys: System) {
    forall p, q {:trigger Concerns(sys, p, q)} :: Concerns(sys, p, q) ==> Supplied(sys, p, q)
  }

  /** The action ends a session. */
  ghost predicate Ends(a: Action, s: Session) {
    a.Call? && (a.e.DisconnectEvent? || a.e.ExpireEvent?) && a.e.s == s
  }

  /** A session ends before it got a message at or below the acknowledgements of a member it speaks for. */
  ghost predicate Gapped(sys: System, a: Action) {
    exists p, q :: Overtaken(sys, p, q) && Ends(a, sys.w.reg.connections[p])
  }

  ghost predicate Overtaken(sys: System, p: PeerId, q: int) {
    && Concerns(sys, p, q) && q <= MemberAt(sys.w, p).acked && !WasHanded(sys, p, q)
    && Online(sys.w.reg, sys.w.dead, p)
  }

  ghost predicate AcksAssigned(sys: System, a: Action) {
    a.Call? && a.e.AckEvent? ==> a.e.upTo <= sys.w.reg.store.nextSeq
  }

  // ---- one action ----

  lemma OnlineAfterLeave(w: World, e: Event, p: PeerId)
    requires Good(w) && Enabled(w, e) && e.LeaveEvent? && Online(w.reg, w.dead, p) && Present(Apply(w, e), p)
    ensures var next := Apply(w, e); Online(next.reg, next.dead, p) && next.reg.connections[p] == w.reg.connections[p]
  {
    var entries := Entries(w.reg, e.s);
    var k := MatchIndex(entries, e.roomCheck, e.peerCheck);
    if k < |entries| {
      assert Agrees(w.reg, e.s, entries[k]);
      LeaveMembers(w.reg.store, entries[k].peer, entries[k].room, "");
    }
  }

  /** A member stays connected unless its session ends or it leaves. */
  lemma OnlineStep(w: World, e: Event, p: PeerId)
    requires Good(w) && Enabled(w, e) && Online(w.reg, w.dead, p) && Present(Apply(w, e), p)
    requires (e.DisconnectEvent? || e.ExpireEvent?) ==> e.s != w.reg.connections[p]
    ensures var next := Apply(w, e); Online(next.reg, next.dead, p) && next.reg.connections[p] == w.reg.connections[p]
  {
    match e
    case JoinEvent(s, r, u, t) =>
      NextIsFresh(w.reg);
      HolderHolds(w.reg, r, u);
    case LeaveEvent(s, room, peer) => OnlineAfterLeave(w, e, p);
    case DisconnectEvent(s) =>
      forall i | i in Entries(w.reg, s) ensures i.peer != p {
        assert Agrees(w.reg, s, i);
      }
    case _ =>
  }

  /** A member comes online only by joining. */
  lemma OnlineBefore(w: World, e: Event, p: PeerId)
    requires Good(w) && Enabled(w, e)
    requires var next := Apply(w, e); Online(next.reg, next.dead, p)
    ensures (Online(w.reg, w.dead, p) && Apply(w, e).reg.connections[p] == w.reg.connections[p])
         || (e.JoinEvent? && JoinError(w.reg, w.dead, e.s, e.room, e.username, e.requested).None?
             && p == JoinPeer(w.reg, e.room, e.username) && Apply(w, e).reg.connections[p] == e.s)
  {
  }

  /** Whoever joins a room that holds a message has not fetched yet. */
  lemma JoinerFetches(sys: System, e: Event, recipients: seq<Session>, p: PeerId, q: int)
    requires Sound(sys) && Possible(sys, Call(e, recipients)) && e.JoinEvent? && p == JoinPeer(sys.w.reg, e.room, e.username)
    requires JoinError(sys.w.reg, sys.w.dead, e.s, e.room, e.username, e.requested).None?
    requires Concerns(Act(sys, Call(e, recipients)), p, q)
    ensures !Listening(Act(sys, Call(e, recipients)), p)
  {
    var next := Act(sys, Call(e, recipients));
    GroupOnlyStep(sys.w, e);
    HolderHolds(sys.w.reg, e.room, e.username);
    assert MemberAt(next.w, p).room == e.room;
    assert next.w.reg.store.rooms[e.room] == TypeFor(sys.w.reg, e.room, e.requested);
    assert next.duties[e.s] == FetchBuffered(e.room, p);
  }

  /** While its room holds a message, no call makes a member listen. */
  lemma NobodyStartsListening(sys: System, e: Event, recipients: seq<Session>, p: PeerId, q: int)
    requires Sound(sys) && Possible(sys, Call(e, recipients)) && !Listening(sys, p)
    requires Concerns(Act(sys, Call(e, recipients)), p, q)
    ensures !Listening(Act(sys, Call(e, recipients)), p)
  {
    var next := Act(sys, Call(e, recipients));
    if Online(next.w.reg, next.w.dead, p) {
      OnlineBefore(sys.w, e, p);
      if !(Online(sys.w.reg, sys.w.dead, p) && next.w.reg.connections[p] == sys.w.reg.connections[p]) {
        JoinerFetches(sys, e, recipients, p, q);
      }
    }
  }

  lemma AckerListens(sys: System, e: Event, recipients: seq<Session>, p: PeerId)
    requires Sound(sys) && Possible(sys, Call(e, recipients)) && AcksAs(sys.w, e, p)
    ensures Listening(sys, p)
  {
    assert Agrees(sys.w.reg, e.s, Find(Entries(sys.w.reg, e.s), e.room).value);
  }

  lemma ComingStays(sys: System, e: Event, recipients: seq<Session>, p: PeerId, q: int)
    requires Sound(sys) && Possible(sys, Call(e, recipients)) && Coming(sys, p, q)
    requires Present(Act(sys, Call(e, recipients)).w, p)
    requires !Ends(Call(e, recipients), sys.w.reg.connections[p])
    ensures Coming(Act(sys, Call(e, recipients)), p, q)
  {
    OnlineStep(sys.w, e, p);
    CallKeepsReached(sys, e, recipients, sys.w.reg.connections[p], p, q);
    var t := sys.w.reg.connections[p];
    var s :| s in sys.duties && sys.duties[s].SendLive? && sys.duties[s].seqNo == q && t in sys.duties[s].remaining;
    var next := Act(sys, Call(e, recipients));
    assert s in next.duties && next.duties[s] == sys.duties[s];
  }

  /** A new message is on its way to every member online, and will be buffered for the others. */
  lemma BroadcastSupplies(sys: System, e: Event, recipients: seq<Session>, p: PeerId)
    requires Sound(sys) && CursorsAssigned(sys.w.reg.store) && Possible(sys, Call(e, recipients))
    requires e.BroadcastEvent? && BroadcastError(sys.w.reg, e.s, e.room).None?
    requires Present(sys.w, p) && MemberAt(sys.w, p).room == e.room
    ensures var next := Act(sys, Call(e, recipients));
            Present(next.w, p) && Supplied(next, p, sys.w.reg.store.nextSeq + 1)
  {
    var next, q := Act(sys, Call(e, recipients)), sys.w.reg.store.nextSeq + 1;
    if Online(sys.w.reg, sys.w.dead, p) {
      var t := sys.w.reg.connections[p];
      assert SpeaksFor(sys.w.reg, t, p);
      var i :| i in sys.w.reg.clients[t] && i.peer == p;
      assert Agrees(sys.w.reg, t, i);
      assert t in Audience(sys.w.reg, sys.w.dead, e.room);
      OnlineStep(sys.w, e, p);
      assert next.duties[e.s] == SendLive(e.room, q, [e.s] + recipients);
      assert t in next.duties[e.s].remaining;
      assert Coming(next, p, q);
    } else {
      assert !Listening(next, p);
    }
  }

  lemma CallSupplies(sys: System, e: Event, recipients: seq<Session>, p: PeerId, q: int)
    requires Sound(sys) && Complete(sys) && CursorsAssigned(sys.w.reg.store) && Possible(sys, Call(e, recipients))
    requires !Gapped(sys, Call(e, recipients))
    requires Concerns(Act(sys, Call(e, recipients)), p, q)
    ensures Supplied(Act(sys, Call(e, recipients)), p, q)
  {
    var next := Act(sys, Call(e, recipients));
    MessagesAfter(sys.w, e, q);
    if !Present(sys.w, p) {
      FirstCursor(sys.w, e, p);
      StepKeepsGood(sys.w, e);
      assert p !in sys.w.reg.connections;
      NobodyStartsListening(sys, e, recipients, p, q);
    } else if q !in sys.w.reg.store.messages {
      MemberStep(sys.w, e, p);
      BroadcastSupplies(sys, e, recipients, p);
    } else {
      MemberStep(sys.w, e, p);
      SeqStep(sys.w, e);
      assert Concerns(sys, p, q);
      OldIsSupplied(sys, e, recipients, p, q);
    }
  }

  lemma OldIsSupplied(sys: System, e: Event, recipients: seq<Session>, p: PeerId, q: int)
    requires Sound(sys) && Complete(sys) && Possible(sys, Call(e, recipients))
    requires !Gapped(sys, Call(e, recipients))
    requires Concerns(sys, p, q) && Concerns(Act(sys, Call(e, recipients)), p, q)
    ensures Supplied(Act(sys, Call(e, recipients)), p, q)
  {
    var next := Act(sys, Call(e, recipients));
    MemberStep(sys.w, e, p);
    assert Supplied(sys, p, q);
    if AcksAs(sys.w, e, p) {
      AckerListens(sys, e, recipients, p);
    }
    if t :| q in Handed(sys, t, p) {
      assert q in Handed(next, t, p);
    } else if Online(sys.w.reg, sys.w.dead, p) && Ends(Call(e, recipients), sys.w.reg.connections[p]) {
      assert !Overtaken(sys, p, q);
      EndedIsOffline(sys.w, e, p);
    } else if Coming(sys, p, q) {
      ComingStays(sys, e, recipients, p, q);
    } else {
      NobodyStartsListening(sys, e, recipients, p, q);
    }
  }

  lemma EndedIsOffline(w: World, e: Event, p: PeerId)
    requires Good(w) && Online(w.reg, w.dead, p) && (e.DisconnectEvent? || e.ExpireEvent?) && e.s == w.reg.connections[p]
    ensures var next := Apply(w, e); !Online(next.reg, next.dead, p) && next.reg.store == w.reg.store
  {
    assert SpeaksFor(w.reg, e.s, p);
    if e.DisconnectEvent? {
      assert Severed(w.reg, w.dead, Entries(w.reg, e.s), p);
    }
  }

  lemma FetchSupplies(sys: System, s: Session, p: PeerId, q: int)
    requires Sound(sys) && Complete(sys) && Possible(sys, Fetch(s)) && Concerns(Act(sys, Fetch(s)), p, q)
    ensures Supplied(Act(sys, Fetch(s)), p, q)
  {
    var next := Act(sys, Fetch(s));
    assert Concerns(sys, p, q) && Supplied(sys, p, q);
    if t :| q in Handed(sys, t, p) {
      assert q in Handed(next, t, p);
    } else if Coming(sys, p, q) {
      var t := sys.w.reg.connections[p];
      var b :| b in sys.duties && sys.duties[b].SendLive? && sys.duties[b].seqNo == q && t in sys.duties[b].remaining;
      assert b in next.duties && next.duties[b] == sys.duties[b];
    } else if p == sys.duties[s].peer {
      assert q in Pending(sys.w.reg, p);
      assert q in Handed(next, s, p);
    }
  }

  lemma SendSupplies(sys: System, s: Session, p: PeerId, q: int)
    requires Sound(sys) && Complete(sys) && Possible(sys, SendNext(s)) && Concerns(Act(sys, SendNext(s)), p, q)
    ensures Supplied(Act(sys, SendNext(s)), p, q)
  {
    var next := Act(sys, SendNext(s));
    assert Concerns(sys, p, q) && Supplied(sys, p, q);
    if t :| q in Handed(sys, t, p) {
      assert q in Handed(next, t, p);
    } else if Coming(sys, p, q) {
      var t := sys.w.reg.connections[p];
      assert SpeaksFor(sys.w.reg, t, p);
      var i :| i in sys.w.reg.clients[t] && i.peer == p;
      assert Agrees(sys.w.reg, t, i);
      SendKeepsReached(sys, s, t, i, q);
    }
  }

  lemma GapPassesOver(sys: System, a: Action) returns (p: PeerId, q: int)
    requires Sound(sys) && Possible(sys, a) && Gapped(sys, a)
    ensures PassedOver(Act(sys, a), p, q)
  {
    p, q :| Overtaken(sys, p, q) && Ends(a, sys.w.reg.connections[p]);
    EndedIsOffline(sys.w, a.e, p);
    forall t ensures Handed(Act(sys, a), t, p) == Handed(sys, t, p) {
    }
  }

  /** An action keeps everybody supplied exactly unless it ends a session that was overtaken. */
  lemma CompleteStepIff(sys: System, a: Action)
    requires Sound(sys) && Complete(sys) && CursorsAssigned(sys.w.reg.store) && Possible(sys, a)
    ensures Complete(Act(sys, a)) <==> !Gapped(sys, a)
  {
    var next := Act(sys, a);
    if Gapped(sys, a) {
      var p, q := GapPassesOver(sys, a);
      assert Concerns(next, p, q) && !Supplied(next, p, q);
    } else {
      forall p, q | Concerns(next, p, q) ensures Supplied(next, p, q) {
        match a
        case Call(e, recipients) => CallSupplies(sys, e, recipients, p, q);
        case Fetch(s) => FetchSupplies(sys, s, p, q);
        case SendNext(s) => SendSupplies(sys, s, p, q);
      }
    }
  }

  // ---- whole executions ----

  lemma CursorsStayAssigned(sys: System, a: Action)
    requires Sound(sys) && Possible(sys, a) && AcksAssigned(sys, a) && CursorsAssigned(sys.w.reg.store)
    ensures CursorsAssigned(Act(sys, a).w.reg.store)
  {
    if a.Call? {
      CursorStep(sys.w, a.e);
    }
  }

  ghost predicate AcksAreAssigned(states: seq<System>, actions: seq<Action>, n: nat)
    requires n <= |actions| < |states|
  {
    forall k :: 0 <= k < n ==> AcksAssigned(states[k], actions[k])
  }

  ghost predicate NoGaps(states: seq<System>, actions: seq<Action>, n: nat)
    requires n <= |actions| < |states|
  {
    forall k :: 0 <= k < n ==> !Gapped(states[k], actions[k])
  }

  lemma {:induction false} CursorsAlwaysAssigned(states: seq<System>, actions: seq<Action>, n: nat)
    requires IsExecution(states, actions) && n < |states| && AcksAreAssigned(states, actions, n)
    ensures CursorsAssigned(states[n].w.reg.store)
  {
    if n > 0 {
      CursorsAlwaysAssigned(states, actions, n - 1);
      ExecutionStaysSound(states, actions, n - 1);
      assert Leads(states, actions, n - 1);
      CursorsStayAssigned(states[n - 1], actions[n - 1]);
    }
  }

  lemma {:induction false} CompleteUntilGap(states: seq<System>, actions: seq<Action>, n: nat)
    requires IsExecution(states, actions) && n < |states| && AcksAreAssigned(states, actions, n)
    requires NoGaps(states, actions, n)
    ensures Complete(states[n])
  {
    if n > 0 {
      CompleteUntilGap(states, actions, n - 1);
      CursorsAlwaysAssigned(states, actions, n - 1);
      ExecutionStaysSound(states, actions, n - 1);
      assert Leads(states, actions, n - 1);
      CompleteStepIff(states[n - 1], actions[n - 1]);
    }
  }

  // ---- messages that were cleaned up ----

  /** The loop's session still speaks, in the loop's room, for a member that has not acknowledged the loop's message. */
  ghost predicate LoopLive(sys: System, b: Session)
    requires b in sys.duties && sys.duties[b].SendLive?
  {
    var i := Find(Entries(sys.w.reg, b), sys.duties[b].room);
    && b !in sys.w.dead && i.Some? && Present(sys.w, i.value.peer)
    && MemberAt(sys.w, i.value.peer).room == sys.duties[b].room
    && MemberAt(sys.w, i.value.peer).acked < sys.duties[b].seqNo
  }

  ghost predicate LoopsLive(sys: System) {
    forall b {:trigger LoopLive(sys, b)} :: b in sys.duties && sys.duties[b].SendLive? ==> LoopLive(sys, b)
  }

  /** Nobody else can acknowledge for the peer of an alive session. */
  lemma OthersDoNotAck(w: World, e: Event, b: Session, i: ClientInfo)
    requires Good(w) && Enabled(w, e) && Agrees(w.reg, b, i) && (e.AckEvent? ==> e.s != b)
    ensures !AcksAs(w, e, i.peer)
  {
    if e.AckEvent? && Find(Entries(w.reg, e.s), e.room).Some? {
      assert Agrees(w.reg, e.s, Find(Entries(w.reg, e.s), e.room).value);
    }
  }

  /** The session of an open loop keeps its entry and its member through the calls of others. */
  lemma LoopStaysLive(sys: System, e: Event, recipients: seq<Session>, b: Session)
    requires Sound(sys) && Possible(sys, Call(e, recipients))
    requires b in sys.duties && sys.duties[b].SendLive? && LoopLive(sys, b)
    ensures LoopLive(Act(sys, Call(e, recipients)), b)
    ensures var p := Find(Entries(sys.w.reg, b), sys.duties[b].room).value.peer;
            Present(Apply(sys.w, e), p) && !AcksAs(sys.w, e, p)
  {
    var next := Act(sys, Call(e, recipients));
    var i := Find(Entries(sys.w.reg, b), sys.duties[b].room).value;
    assert Entries(next.w.reg, b) == Entries(sys.w.reg, b) && i in sys.w.reg.clients[b];
    StepKeepsGood(sys.w, e);
    assert Agrees(sys.w.reg, b, i) && Agrees(next.w.reg, b, i);
    OthersDoNotAck(sys.w, e, b, i);
    MemberStep(sys.w, e, i.peer);
  }

  lemma NewLoopIsLive(sys: System, e: Event, recipients: seq<Session>)
    requires Sound(sys) && CursorsAssigned(sys.w.reg.store) && Possible(sys, Call(e, recipients))
    requires e.BroadcastEvent? && BroadcastError(sys.w.reg, e.s, e.room).None?
    ensures LoopLive(Act(sys, Call(e, recipients)), e.s)
  {
    var i := Find(Entries(sys.w.reg, e.s), e.room).value;
    assert Agrees(sys.w.reg, e.s, i);
  }

  lemma LoopsStayLive(sys: System, a: Action)
    requires Sound(sys) && LoopsLive(sys) && CursorsAssigned(sys.w.reg.store) && Possible(sys, a)
    ensures LoopsLive(Act(sys, a))
  {
    var next := Act(sys, a);
    forall b | b in next.duties && next.duties[b].SendLive? ensures LoopLive(next, b) {
      if a.Call? && b == a.e.s {
        NewLoopIsLive(sys, a.e, a.recipients);
      } else {
        assert LoopLive(sys, b);
        if a.Call? {
          LoopStaysLive(sys, a.e, a.recipients, b);
        }
      }
    }
  }

  /** What is still on its way to somebody is not cleaned up: its broadcaster needs it. */
  lemma ComingIsKept(sys: System, e: Event, recipients: seq<Session>, p: PeerId, q: int)
    requires Sound(sys) && LoopsLive(sys) && Possible(sys, Call(e, recipients)) && Concerns(sys, p, q) && Coming(sys, p, q)
    ensures q in Act(sys, Call(e, recipients)).w.reg.store.messages
  {
    var b :| b in sys.duties && sys.duties[b].SendLive? && sys.duties[b].seqNo == q
      && sys.w.reg.connections[p] in sys.duties[b].remaining;
    assert LoopLive(sys, b);
    LoopStaysLive(sys, e, recipients, b);
    var o := Find(Entries(sys.w.reg, b), sys.duties[b].room).value.peer;
    assert Awaits(sys.w.reg.store, o, q);
    GoodIsCalm(sys.w, e);
    CalmMessageStep(sys.w, e, o, q);
  }

  /** A message is cleaned up only after every remaining member of its room was handed it. */
  lemma RemovedWasHanded(sys: System, e: Event, recipients: seq<Session>, p: PeerId, q: int)
    requires Sound(sys) && Complete(sys) && LoopsLive(sys) && Possible(sys, Call(e, recipients))
    requires Concerns(sys, p, q) && Present(Act(sys, Call(e, recipients)).w, p)
    requires q !in Act(sys, Call(e, recipients)).w.reg.store.messages
    ensures WasHanded(sys, p, q)
  {
    assert Supplied(sys, p, q);
    if Coming(sys, p, q) {
      ComingIsKept(sys, e, recipients, p, q);
    }
    if AcksAs(sys.w, e, p) {
      AckerListens(sys, e, recipients, p);
    } else if q > MemberAt(sys.w, p).acked {
      assert Awaits(sys.w.reg.store, p, q);
      GoodIsCalm(sys.w, e);
      CalmMessageStep(sys.w, e, p, q);
    }
  }

  lemma HandedGrows(sys: System, a: Action, p: PeerId, q: int)
    requires Possible(sys, a) && WasHanded(sys, p, q)
    ensures WasHanded(Act(sys, a), p, q)
  {
    var t :| q in Handed(sys, t, p);
    assert q in Handed(Act(sys, a), t, p);
  }

  /** A message that concerns a member concerns it still after an action, or the member was handed it. */
  lemma ConcernStep(sys: System, a: Action, p: PeerId, q: int)
    requires Sound(sys) && Complete(sys) && LoopsLive(sys) && Possible(sys, a)
    requires Concerns(sys, p, q) && Present(Act(sys, a).w, p)
    ensures Concerns(Act(sys, a), p, q) || WasHanded(Act(sys, a), p, q)
  {
    if a.Call? {
      MemberStep(sys.w, a.e, p);
      if q in Act(sys, a).w.reg.store.messages {
        MessagesAfter(sys.w, a.e, q);
      } else {
        RemovedWasHanded(sys, a.e, a.recipients, p, q);
        HandedGrows(sys, a, p, q);
      }
    }
  }

  lemma {:induction false} LoopsAlwaysLive(states: seq<System>, actions: seq<Action>, n: nat)
    requires IsExecution(states, actions) && n < |states| && AcksAreAssigned(states, actions, n)
    ensures LoopsLive(states[n])
  {
    if n > 0 {
      LoopsAlwaysLive(states, actions, n - 1);
      CursorsAlwaysAssigned(states, actions, n - 1);
      ExecutionStaysSound(states, actions, n - 1);
      assert Leads(states, actions, n - 1);
      LoopsStayLive(states[n - 1], actions[n - 1]);
    }
  }

  /** The member stays a member from one moment to another. */
  ghost predicate Stays(states: seq<System>, k: nat, n: nat, p: PeerId)
    requires n < |states|
  {
    forall j :: k <= j <= n ==> Present(states[j].w, p)
  }

  /** Without gaps, a message stored at some moment for a member's room was handed to the member or is stored still. */
  lemma {:induction false} HandedOrStored(states: seq<System>, actions: seq<Action>, k: nat, n: nat, p: PeerId, q: int)
    requires IsExecution(states, actions) && k <= n < |states| && AcksAreAssigned(states, actions, n)
    requires NoGaps(states, actions, n) && Concerns(states[k], p, q) && Stays(states, k, n, p)
    ensures WasHanded(states[n], p, q) || Concerns(states[n], p, q)
  {
    if n > k {
      HandedOrStored(states, actions, k, n - 1, p, q);
      CompleteUntilGap(states, actions, n - 1);
      LoopsAlwaysLive(states, actions, n - 1);
      ExecutionStaysSound(states, actions, n - 1);
      assert Leads(states, actions, n - 1);
      if WasHanded(states[n - 1], p, q) {
        HandedGrows(states[n - 1], actions[n - 1], p, q);
      } else {
        ConcernStep(states[n - 1], actions[n - 1], p, q);
      }
    }
  }

  // ---- nobody misses anything ----

  /** The message was stored for the member's room at some moment since which it has been a member. */
  ghost predicate Entitled(states: seq<System>, n: nat, p: PeerId, q: int)
    requires n < |states|
  {
    exists k: nat {:trigger Stays(states, k, n, p)} :: k <= n && Concerns(states[k], p, q) && Stays(states, k, n, p)
  }

  /** A member was entitled to a message that it never got, that is not on its way, and that it will not have buffered. */
  ghost predicate Missed(states: seq<System>, n: nat, p: PeerId, q: int)
    requires n < |states|
  {
    && Entitled(states, n, p, q) && !WasHanded(states[n], p, q) && !Coming(states[n], p, q)
    && !(Concerns(states[n], p, q) && q > MemberAt(states[n].w, p).acked)
  }

  ghost predicate NothingMissed(states: seq<System>, n: nat)
    requires n < |states|
  {
    forall p, q :: !Missed(states, n, p, q)
  }

  lemma PassedOverIsMissed(states: seq<System>, n: nat, p: PeerId, q: int)
    requires n < |states| && PassedOver(states[n], p, q)
    ensures Missed(states, n, p, q)
  {
    assert Stays(states, n, n, p);
  }

  lemma NoGapsMissNothing(states: seq<System>, actions: seq<Action>, n: nat)
    requires IsExecution(states, actions) && n < |states| && AcksAreAssigned(states, actions, n)
    requires NoGaps(states, actions, n)
    ensures NothingMissed(states, n)
  {
    CompleteUntilGap(states, actions, n);
    forall p, q ensures !Missed(states, n, p, q) {
      if Entitled(states, n, p, q) {
        var k: nat :| k <= n && Concerns(states[k], p, q) && Stays(states, k, n, p);
        HandedOrStored(states, actions, k, n, p, q);
        assert Concerns(states[n], p, q) ==> Supplied(states[n], p, q);
      }
    }
  }

  /**
   * However handlers interleave, as long as only assigned numbers are acknowledged: nobody ever misses a message,
   * stored or cleaned up, exactly if no session ends before it got a message at or below its member's acknowledgements.
   */
  lemma {:induction false} NothingMissedIff(states: seq<System>, actions: seq<Action>, n: nat)
    requires IsExecution(states, actions) && n < |states| && AcksAreAssigned(states, actions, n)
    ensures (forall k :: 0 <= k <= n ==> NothingMissed(states, k)) <==> NoGaps(states, actions, n)
  {
    if n > 0 {
      NothingMissedIff(states, actions, n - 1);
      ExecutionStaysSound(states, actions, n - 1);
      assert Leads(states, actions, n - 1);
      if Gapped(states[n - 1], actions[n - 1]) {
        var p, q := GapPassesOver(states[n - 1], actions[n - 1]);
        PassedOverIsMissed(states, n, p, q);
        assert !NothingMissed(states, n);
      }
    }
    if NoGaps(states, actions, n) {
      NoGapsMissNothing(states, actions, n);
    }
  }

  // ---- one handler at a time ----

  /** While no handler is unfinished, no session that ends has been overtaken. */
  lemma IdleGapsNothing(sys: System, a: Action)
    requires Complete(sys) && sys.duties == map[]
    ensures !Gapped(sys, a)
  {
    forall p, q ensures !Overtaken(sys, p, q) {
      if Concerns(sys, p, q) {
        assert Supplied(sys, p, q);
      }
    }
  }

  /** Calls start only when every earlier handler has returned, as with a single worker thread. */
  ghost predicate OneAtATime(states: seq<System>, actions: seq<Action>, n: nat)
    requires n <= |actions| < |states|
  {
    forall k :: 0 <= k < n && actions[k].Call? ==> states[k].duties == map[]
  }

  /** A server that runs one handler at a time loses nothing, whatever sessions end and whatever assigned numbers are acknowledged. */
  lemma {:induction false} OneAtATimeMissesNothing(states: seq<System>, actions: seq<Action>, n: nat)
    requires IsExecution(states, actions) && n < |states| && AcksAreAssigned(states, actions, n)
    requires OneAtATime(states, actions, n)
    ensures NoGaps(states, actions, n) && NothingMissed(states, n)
  {
    if n > 0 {
      OneAtATimeMissesNothing(states, actions, n - 1);
      CompleteUntilGap(states, actions, n - 1);
      if actions[n - 1].Call? {
        IdleGapsNothing(states[n - 1], actions[n - 1]);
      }
      assert !Gapped(states[n - 1], actions[n - 1]);
    }
    NoGapsMissNothing(states, actions, n);
  }

  // ---- a message missed by a member that acknowledged only what it was handed ----

  ghost predicate AcksHanded(sys: System, a: Action) {
    a.Call? && a.e.AckEvent? ==>
      var i := Find(Entries(sys.w.reg, a.e.s), a.e.room);
      i.Some? && a.e.upTo in Handed(sys, a.e.s, i.value.peer)
  }

  /** What was handed to somebody was assigned. */
  lemma HandedIsAssigned(sys: System, a: Action)
    requires Sound(sys) && AcksHanded(sys, a)
    ensures AcksAssigned(sys, a)
  {
  }

  /** An execution in which everybody acknowledges only numbers it was handed. */
  ghost predicate Honest(states: seq<System>, actions: seq<Action>) {
    IsExecution(states, actions) && forall k :: 0 <= k < |actions| ==> AcksHanded(states[k], actions[k])
  }

  /** So the exact condition applies to every execution in which members acknowledge only what they were handed. */
  lemma HonestMissNothingIff(states: seq<System>, actions: seq<Action>)
    requires Honest(states, actions)
    ensures AcksAreAssigned(states, actions, |actions|)
    ensures (forall k :: 0 <= k <= |actions| ==> NothingMissed(states, k)) <==> NoGaps(states, actions, |actions|)
  {
    forall k | 0 <= k < |actions| ensures AcksAssigned(states[k], actions[k]) {
      ExecutionStaysSound(states, actions, k);
      HandedIsAssigned(states[k], actions[k]);
    }
    NothingMissedIff(states, actions, |actions|);
  }

  lemma Extend(states: seq<System>, actions: seq<Action>, a: Action) returns (longer: seq<System>, all: seq<Action>)
    requires Honest(states, actions) && Possible(states[|actions|], a) && AcksHanded(states[|actions|], a)
    ensures Honest(longer, all) && |all| == |actions| + 1 && longer[|all|] == Act(states[|actions|], a)
  {
    longer, all := states + [Act(states[|actions|], a)], actions + [a];
    forall k | 0 <= k < |all| ensures Leads(longer, all, k) {
      if k < |actions| {
        assert Leads(states, actions, k);
      }
    }
  }

  const G := "g"
  const MESSAGES := map[1 := GroupMessage("g", PeerName(1), "x"), 2 := GroupMessage("g", PeerName(2), "y")]

  /** Ann and bob in one group, each having spoken once, bob with a cursor. */
  ghost function Spoken(acked: Int64): State {
    var st := Pair(G, Group);
    st.(store := st.store.(members := st.store.members[PeerName(2) := Member("bob", G, acked)], messages := MESSAGES, nextSeq := 2))
  }

  lemma PairEntries()
    ensures Find(Entries(Pair(G, Group), ANN), G) == Some(ClientInfo(G, PeerName(1), "ann", Group))
    ensures Find(Entries(Pair(G, Group), BOB), G) == Some(ClientInfo(G, PeerName(2), "bob", Group))
    ensures Audience(Pair(G, Group), {}, G) == {ANN, BOB}
    ensures Pair(G, Group).store.members[PeerName(2)] == Member("bob", G, 0) && PeerName(1) != PeerName(2)
  {
    PeerNameInjective(1, 2);
  }

  /** Bob's acknowledgement removes nothing, because ann still needs both messages. */
  lemma BobAcknowledges()
    ensures Acknowledge(Spoken(0), BOB, G, 2) == Spoken(2)
  {
    PairEntries();
    var acked := SetAcked(Spoken(0).store, PeerName(2), 2);
    assert PeerName(1) in MembersOf(acked, G) && acked.members[PeerName(1)].acked == 0;
    NeededBy(acked, G, 1, PeerName(1));
    NeededBy(acked, G, 2, PeerName(1));
    assert Cleanup(acked, G).messages == MESSAGES;
  }

  lemma BothSpeak()
    ensures var st := Broadcast(Pair(G, Group), {}, ANN, G, "x");
            && Find(Entries(st, BOB), G) == Some(ClientInfo(G, PeerName(2), "bob", Group))
            && Audience(st, {}, G) == {ANN, BOB} && st.store.nextSeq == 1
            && Broadcast(st, {}, BOB, G, "y") == Spoken(0)
  {
    PairEntries();
    var st := Pair(G, Group);
    assert Prune(st, {}, G, PeerName(1)) == st.connections;
    var next := Broadcast(st, {}, ANN, G, "x");
    assert next == st.(store := SaveMessage(st.store, GroupMessage(G, PeerName(1), "x")));
    assert Prune(next, {}, G, PeerName(2)) == st.connections;
    assert st.store.members == st.store.members[PeerName(2) := Member("bob", G, 0)];
    assert Broadcast(next, {}, BOB, G, "y").store.messages == MESSAGES;
  }

  /** Both have joined and fetched; nothing was said. */
  ghost predicate Seated(sys: System) {
    sys.w == World(Pair(G, Group), {}) && sys.duties == map[] && forall t, p :: Handed(sys, t, p) == {}
  }

  lemma BothJoin() returns (states: seq<System>, actions: seq<Action>)
    ensures Honest(states, actions) && Seated(states[|actions|])
  {
    PairJoins(G, Group);
    states, actions := [START], [];
    states, actions := Extend(states, actions, Call(JoinEvent(ANN, G, "ann", Some(Group)), []));
    states, actions := Extend(states, actions, Fetch(ANN));
    states, actions := Extend(states, actions, Call(JoinEvent(BOB, G, "bob", Some(Group)), []));
    states, actions := Extend(states, actions, Fetch(BOB));
  }

  /** Both spoke and neither loop has started. */
  ghost predicate Speaking(sys: System) {
    && sys.w == World(Spoken(0), {})
    && sys.duties == map[ANN := SendLive(G, 1, [ANN, BOB]), BOB := SendLive(G, 2, [BOB, ANN])]
    && forall t, p :: Handed(sys, t, p) == {}
  }

  lemma SeatedSpeak(sys: System)
    requires Seated(sys)
    ensures var a, b := Call(BroadcastEvent(ANN, G, "x"), [BOB]), Call(BroadcastEvent(BOB, G, "y"), [ANN]);
            Possible(sys, a) && Possible(Act(sys, a), b) && Speaking(Act(Act(sys, a), b))
  {
    PairEntries();
    BothSpeak();
    var a, b := Call(BroadcastEvent(ANN, G, "x"), [BOB]), Call(BroadcastEvent(BOB, G, "y"), [ANN]);
    assert [ANN] + [BOB] == [ANN, BOB] && [BOB] + [ANN] == [BOB, ANN];
    var next := Act(sys, a);
    assert next.duties == map[ANN := SendLive(G, 1, [ANN, BOB])];
    var last := Act(next, b);
    forall t, p ensures Handed(last, t, p) == Handed(sys, t, p) {
    }
  }

  /** Ann's loop has not started; bob's loop is over, and he was handed his own message. */
  ghost predicate Overtaking(sys: System, acked: Int64) {
    && sys.w == World(Spoken(acked), {}) && sys.duties == map[ANN := SendLive(G, 1, [ANN, BOB])]
    && 2 in Handed(sys, BOB, PeerName(2)) && forall t :: 1 !in Handed(sys, t, PeerName(2))
  }

  /** Bob's loop has handed him his own message and goes on with the rest. */
  ghost predicate BobSending(sys: System, rest: seq<Session>) {
    && sys.w == World(Spoken(0), {})
    && sys.duties == map[ANN := SendLive(G, 1, [ANN, BOB]), BOB := SendLive(G, 2, rest)]
    && 2 in Handed(sys, BOB, PeerName(2)) && forall t :: 1 !in Handed(sys, t, PeerName(2))
  }

  lemma FirstSend(sys: System)
    requires Speaking(sys)
    ensures Possible(sys, SendNext(BOB)) && BobSending(Act(sys, SendNext(BOB)), [ANN])
  {
    PairEntries();
    assert Entries(Spoken(0), BOB) == Entries(Pair(G, Group), BOB);
    var next := Act(sys, SendNext(BOB));
    assert [BOB, ANN][1..] == [ANN];
    forall t ensures 1 !in Handed(next, t, PeerName(2)) {
      assert Handed(sys, t, PeerName(2)) == {};
    }
  }

  lemma SecondSend(sys: System)
    requires BobSending(sys, [ANN])
    ensures Possible(sys, SendNext(BOB)) && BobSending(Act(sys, SendNext(BOB)), [])
  {
    PairEntries();
    assert Entries(Spoken(0), ANN) == Entries(Pair(G, Group), ANN);
    var next := Act(sys, SendNext(BOB));
    assert [ANN][1..] == [];
    forall t ensures Handed(next, t, PeerName(2)) == Handed(sys, t, PeerName(2)) {
    }
  }

  lemma LastSend(sys: System)
    requires BobSending(sys, [])
    ensures Possible(sys, SendNext(BOB)) && Overtaking(Act(sys, SendNext(BOB)), 0)
  {
    var next := Act(sys, SendNext(BOB));
    assert next.duties == map[ANN := SendLive(G, 1, [ANN, BOB])];
    forall t ensures Handed(next, t, PeerName(2)) == Handed(sys, t, PeerName(2)) {
    }
  }

  lemma BobOvertakes(states: seq<System>, actions: seq<Action>) returns (longer: seq<System>, all: seq<Action>)
    requires Honest(states, actions) && Seated(states[|actions|])
    ensures Honest(longer, all) && Overtaking(longer[|all|], 0)
  {
    SeatedSpeak(states[|actions|]);
    longer, all := Extend(states, actions, Call(BroadcastEvent(ANN, G, "x"), [BOB]));
    longer, all := Extend(longer, all, Call(BroadcastEvent(BOB, G, "y"), [ANN]));
    FirstSend(longer[|all|]);
    longer, all := Extend(longer, all, SendNext(BOB));
    SecondSend(longer[|all|]);
    longer, all := Extend(longer, all, SendNext(BOB));
    LastSend(longer[|all|]);
    longer, all := Extend(longer, all, SendNext(BOB));
  }

  lemma BobAcks(sys: System)
    requires Overtaking(sys, 0)
    ensures var a := Call(AckEvent(BOB, G, 2), []); Possible(sys, a) && AcksHanded(sys, a) && Overtaking(Act(sys, a), 2)
  {
    PairEntries();
    BobAcknowledges();
    assert Entries(Spoken(0), BOB) == Entries(Pair(G, Group), BOB);
    var next := Act(sys, Call(AckEvent(BOB, G, 2), []));
    forall t ensures Handed(next, t, PeerName(2)) == Handed(sys, t, PeerName(2)) {
    }
  }

  lemma BobDropsOut(sys: System)
    requires Overtaking(sys, 2)
    ensures var a := Call(DisconnectEvent(BOB), []); Possible(sys, a) && PassedOver(Act(sys, a), PeerName(2), 1)
  {
    PairEntries();
    var bob := ClientInfo(G, PeerName(2), "bob", Group);
    assert Entries(Spoken(2), BOB) == Entries(Pair(G, Group), BOB) && bob in Entries(Spoken(2), BOB);
    assert Severed(Spoken(2), {}, Entries(Spoken(2), BOB), PeerName(2));
    var last := Act(sys, Call(DisconnectEvent(BOB), []));
    forall t ensures Handed(last, t, PeerName(2)) == Handed(sys, t, PeerName(2)) {
    }
  }

  /**
   * Two send loops can hand a later number to a session first. If it acknowledges that number and its connection
   * is lost, the earlier message is neither on its way nor buffered for it any more.
   */
  lemma MessagesCanBeMissed() returns (states: seq<System>, actions: seq<Action>)
    ensures Honest(states, actions) && Missed(states, |actions|, PeerName(2), 1)
  {
    states, actions := BothJoin();
    states, actions := BobOvertakes(states, actions);
    BobAcks(states[|actions|]);
    states, actions := Extend(states, actions, Call(AckEvent(BOB, G, 2), []));
    BobDropsOut(states[|actions|]);
    states, actions := Extend(states, actions, Call(DisconnectEvent(BOB), []));
    PassedOverIsMissed(states, |actions|, PeerName(2), 1);
  }
}
