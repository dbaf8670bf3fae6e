/** Whole runs of the registry from an empty store: what is never lost, never kept too long, never reused. */
module Runs {
  import opened Domain
  import opened PeerIds
  import opened RoomStore
  import opened Registry
  import opened RegistryInvariant
  import opened Operations

  /** One locked registry operation, or the expiry of a connection handle. */
  datatype Event =
    | JoinEvent(s: Session, room: RoomId, username: string, requested: Option<RoomType>)
    | RouteEvent(s: Session, room: RoomId, to: PeerId)
    | BroadcastEvent(s: Session, room: RoomId, payload: string)
    | PendingEvent(peer: PeerId)
    | AckEvent(s: Session, room: RoomId, upTo: Int64)
    | LeaveEvent(s: Session, roomCheck: Option<RoomId>, peerCheck: Option<PeerId>)
    | DisconnectEvent(s: Session)
    | ExpireEvent(s: Session)

  datatype World = World(reg: State, dead: set<Session>)

  /** Expired handles make no calls. */
  ghost predicate Enabled(w: World, e: Event) {
    e.PendingEvent? || e.s !in w.dead
  }

  ghost function Apply(w: World, e: Event): World {
    match e
    case JoinEvent(s, r, u, t) => w.(reg := Join(w.reg, w.dead, s, r, u, t))
    case RouteEvent(s, r, to) => w.(reg := Route(w.reg, w.dead, s, r, to))
    case BroadcastEvent(s, r, payload) => w.(reg := Broadcast(w.reg, w.dead, s, r, payload))
    case PendingEvent(p) => w
    case AckEvent(s, r, upTo) => w.(reg := Acknowledge(w.reg, s, r, upTo))
    case LeaveEvent(s, room, peer) => w.(reg := Leave(w.reg, w.dead, s, room, peer))
    case DisconnectEvent(s) => w.(reg := Disconnect(w.reg, w.dead, s))
    case ExpireEvent(s) => w.(dead := w.dead + {s})
  }

  ghost predicate Steps(ws: seq<World>, es: seq<Event>) {
    && |ws| == |es| + 1
    && forall i {:trigger Follows(ws, es, i)} :: 0 <= i < |es| ==> Follows(ws, es, i)
  }

  /** The i-th event leads from the i-th state to the next. */
  ghost predicate Follows(ws: seq<World>, es: seq<Event>, i: nat)
    requires i < |es| && |ws| == |es| + 1
  {
    Enabled(ws[i], es[i]) && ws[i + 1] == Apply(ws[i], es[i])
  }

  lemma StepsExtend(ws: seq<World>, es: seq<Event>, e: Event)
    requires Steps(ws, es) && Enabled(ws[|es|], e)
    ensures Steps(ws + [Apply(ws[|es|], e)], es + [e])
  {
    var longer, events := ws + [Apply(ws[|es|], e)], es + [e];
    forall i | 0 <= i < |events| ensures Follows(longer, events, i) {
      if i < |es| {
        assert Follows(ws, es, i);
      }
    }
  }

  lemma ThreeSteps(w0: World, w1: World, w2: World, w3: World, es: seq<Event>) returns (ws: seq<World>)
    requires |es| == 3 && Enabled(w0, es[0]) && Enabled(w1, es[1]) && Enabled(w2, es[2])
    requires w1 == Apply(w0, es[0]) && w2 == Apply(w1, es[1]) && w3 == Apply(w2, es[2])
    ensures ws == [w0, w1, w2, w3] && Steps(ws, es)
  {
    ws := [w0, w1, w2, w3];
    forall i | 0 <= i < 3 ensures Follows(ws, es, i) {
      assert i == 0 || i == 1 || i == 2;
    }
  }

  /** A run starts from an empty store. */
  ghost predicate IsRun(ws: seq<World>, es: seq<Event>) {
    Steps(ws, es) && ws[0] == World(INITIAL, {})
  }

  ghost predicate Good(w: World) {
    Inv(w.reg, w.dead)
  }

  /** The step hands out no identifier that is stored. */
  ghost predicate GivesFreeId(w: World, e: Event) {
    e.JoinEvent? && JoinError(w.reg, w.dead, e.s, e.room, e.username, e.requested).None? ==> IdIsFree(w.reg, e.room, e.username)
  }

  ghost predicate Calm(w: World, e: Event) {
    Indexed(w.reg, w.dead) && GivesFreeId(w, e)
  }

  lemma GoodIsCalm(w: World, e: Event)
    requires Good(w)
    ensures Calm(w, e)
  {
    NextIsFresh(w.reg);
  }

  lemma CalmStep(w: World, e: Event)
    requires Calm(w, e) && Enabled(w, e)
    ensures Indexed(Apply(w, e).reg, Apply(w, e).dead)
    ensures IdsIssued(w.reg) ==> IdsIssued(Apply(w, e).reg)
  {
    match e
    case JoinEvent(s, r, u, t) =>
      if JoinError(w.reg, w.dead, s, r, u, t).None? {
        JoinKeepsInv(w.reg, w.dead, s, r, u, t);
      }
    case RouteEvent(s, r, to) => RouteKeepsInv(w.reg, w.dead, s, r, to);
    case BroadcastEvent(s, r, payload) => BroadcastKeepsInv(w.reg, w.dead, s, r, payload);
    case PendingEvent(p) =>
    case AckEvent(s, r, upTo) => AcknowledgeKeepsInv(w.reg, w.dead, s, r, upTo);
    case LeaveEvent(s, room, peer) => LeaveKeepsInv(w.reg, w.dead, s, room, peer);
    case DisconnectEvent(s) => DisconnectKeepsInv(w.reg, w.dead, s);
    case ExpireEvent(s) => DieKeepsInv(w.reg, w.dead, s);
  }

  lemma StepKeepsGood(w: World, e: Event)
    requires Good(w) && Enabled(w, e)
    ensures Good(Apply(w, e))
  {
    GoodIsCalm(w, e);
    CalmStep(w, e);
  }

  /** Indexes, store and counters agree in every state of every run. */
  lemma {:induction false} RunStaysGood(ws: seq<World>, es: seq<Event>, n: nat)
    requires IsRun(ws, es) && n < |ws|
    ensures Good(ws[n])
  {
    if n == 0 {
      InitialInv({});
    } else {
      RunStaysGood(ws, es, n - 1);
      assert Follows(ws, es, n - 1);
      StepKeepsGood(ws[n - 1], es[n - 1]);
    }
  }

  // ---- one step seen from one member ----

  ghost predicate Present(w: World, p: PeerId) {
    p in w.reg.store.members
  }

  ghost function MemberAt(w: World, p: PeerId): Member
    requires Present(w, p)
  {
    w.reg.store.members[p]
  }

  /** The event is an acknowledgement that the registry books on this peer. */
  ghost predicate AcksAs(w: World, e: Event, p: PeerId) {
    e.AckEvent? && Find(Entries(w.reg, e.s), e.room).Some? && Find(Entries(w.reg, e.s), e.room).value.peer == p
  }

  /** Members keep their room and name, and their cursor unless they acknowledge. */
  lemma CalmMemberStep(w: World, e: Event, p: PeerId)
    requires Calm(w, e) && Enabled(w, e) && Present(w, p) && Present(Apply(w, e), p)
    ensures MemberAt(Apply(w, e), p)
         == if AcksAs(w, e, p) then MemberAt(w, p).(acked := e.upTo) else MemberAt(w, p)
  {
    match e
    case JoinEvent(s, r, u, t) =>
      HolderHolds(w.reg, r, u);
    case LeaveEvent(s, room, peer) =>
      var entries := Entries(w.reg, s);
      var k := MatchIndex(entries, room, peer);
      if k < |entries| {
        assert Agrees(w.reg, s, entries[k]);
        LeaveMembers(w.reg.store, entries[k].peer, entries[k].room, "");
      }
    case AckEvent(s, r, upTo) =>
      if Find(Entries(w.reg, s), r).Some? {
        assert Agrees(w.reg, s, Find(Entries(w.reg, s), r).value);
      }
    case _ =>
  }

  lemma MemberStep(w: World, e: Event, p: PeerId)
    requires Good(w) && Enabled(w, e) && Present(w, p) && Present(Apply(w, e), p)
    ensures MemberAt(Apply(w, e), p)
         == if AcksAs(w, e, p) then MemberAt(w, p).(acked := e.upTo) else MemberAt(w, p)
  {
    GoodIsCalm(w, e);
    CalmMemberStep(w, e, p);
  }

  lemma MemberStepInRun(ws: seq<World>, es: seq<Event>, j: nat, p: PeerId)
    requires IsRun(ws, es) && j < |es| && Present(ws[j], p) && Present(ws[j + 1], p)
    ensures MemberAt(ws[j + 1], p)
         == if AcksAs(ws[j], es[j], p) then MemberAt(ws[j], p).(acked := es[j].upTo) else MemberAt(ws[j], p)
  {
    RunStaysGood(ws, es, j);
    assert Follows(ws, es, j);
    MemberStep(ws[j], es[j], p);
  }

  /** Identifiers already issued are not handed out again. */
  lemma IssuedStep(w: World, e: Event, p: PeerId)
    requires Good(w) && Enabled(w, e) && Issued(p, w.reg.nextPeer)
    ensures Issued(p, Apply(w, e).reg.nextPeer)
    ensures Present(Apply(w, e), p) ==> Present(w, p)
  {
    IssuedGrows(p, w.reg.nextPeer, Apply(w, e).reg.nextPeer);
    match e
    case JoinEvent(s, r, u, t) =>
      var k: nat :| 1 <= k < w.reg.nextPeer && p == PeerName(k);
      PeerNameInjective(k, w.reg.nextPeer);
      HolderHolds(w.reg, r, u);
    case LeaveEvent(s, room, peer) =>
      var entries := Entries(w.reg, s);
      var k := MatchIndex(entries, room, peer);
      if k < |entries| {
        assert Agrees(w.reg, s, entries[k]);
        LeaveMembers(w.reg.store, entries[k].peer, entries[k].room, "");
      }
    case _ =>
  }

  // ---- identity ----

  /** A peer identifier that left its room is never given to anyone again. */
  lemma {:induction false} NeverReissued(ws: seq<World>, es: seq<Event>, i: nat, n: nat, p: PeerId)
    requires IsRun(ws, es) && i <= n < |ws|
    requires Issued(p, ws[i].reg.nextPeer) && !Present(ws[i], p)
    ensures Issued(p, ws[n].reg.nextPeer) && !Present(ws[n], p)
  {
    if n > i {
      NeverReissued(ws, es, i, n - 1, p);
      RunStaysGood(ws, es, n - 1);
      assert Follows(ws, es, n - 1);
      IssuedStep(ws[n - 1], es[n - 1], p);
    }
  }

  /** A member at two moments was a member throughout. */
  lemma PresentBetween(ws: seq<World>, es: seq<Event>, i: nat, j: nat, n: nat, p: PeerId)
    requires IsRun(ws, es) && i <= j <= n < |ws|
    requires Present(ws[i], p) && Present(ws[n], p)
    ensures Present(ws[j], p)
  {
    RunStaysGood(ws, es, i);
    assert Issued(p, ws[i].reg.nextPeer);
    IssuedBetween(ws, es, i, j, p);
    if !Present(ws[j], p) {
      NeverReissued(ws, es, j, n, p);
    }
  }

  lemma {:induction false} IssuedBetween(ws: seq<World>, es: seq<Event>, i: nat, n: nat, p: PeerId)
    requires IsRun(ws, es) && i <= n < |ws| && Issued(p, ws[i].reg.nextPeer)
    ensures Issued(p, ws[n].reg.nextPeer)
  {
    if n > i {
      IssuedBetween(ws, es, i, n - 1, p);
      RunStaysGood(ws, es, n - 1);
      assert Follows(ws, es, n - 1);
      IssuedStep(ws[n - 1], es[n - 1], p);
    }
  }

  /**
   * Between two moments at which it is a member, a peer keeps its room and username whatever disconnects
   * and rejoins happen, and its cursor too if it acknowledges nothing.
   */
  lemma {:induction false} IdentityStable(ws: seq<World>, es: seq<Event>, i: nat, n: nat, p: PeerId)
    requires IsRun(ws, es) && i <= n < |ws|
    requires Present(ws[i], p) && Present(ws[n], p)
    ensures MemberAt(ws[n], p).room == MemberAt(ws[i], p).room
    ensures MemberAt(ws[n], p).username == MemberAt(ws[i], p).username
    ensures (forall j :: i <= j < n ==> !AcksAs(ws[j], es[j], p)) ==> MemberAt(ws[n], p) == MemberAt(ws[i], p)
  {
    if n > i {
      PresentBetween(ws, es, i, n - 1, n, p);
      IdentityStable(ws, es, i, n - 1, p);
      MemberStepInRun(ws, es, n - 1, p);
    }
  }

  /** Whoever joins under a member's room and name while it is offline gets that member's identifier back. */
  lemma RejoinReturnsPeer(ws: seq<World>, es: seq<Event>, i: nat, n: nat, p: PeerId)
    requires IsRun(ws, es) && i <= n < |es|
    requires Present(ws[i], p) && Present(ws[n], p)
    requires es[n].JoinEvent? && es[n].room == MemberAt(ws[i], p).room && es[n].username == MemberAt(ws[i], p).username
    requires JoinError(ws[n].reg, ws[n].dead, es[n].s, es[n].room, es[n].username, es[n].requested).None?
    ensures JoinPeer(ws[n].reg, es[n].room, es[n].username) == p
    ensures Present(ws[n + 1], p) && MemberAt(ws[n + 1], p) == MemberAt(ws[n], p)
  {
    IdentityStable(ws, es, i, n, p);
    RunStaysGood(ws, es, n);
    assert Holds(ws[n].reg, p, es[n].room, es[n].username);
    HolderUnique(ws[n].reg, p, es[n].room, es[n].username);
    assert Follows(ws, es, n);
    MemberStep(ws[n], es[n], p);
  }

  // ---- who is let in, heard and forwarded ----

  /** Members have names, and rooms have ids. */
  ghost predicate NamesGiven(store: Store) {
    forall p :: p in store.members ==> store.members[p].username != "" && store.members[p].room != ""
  }

  lemma NamesStep(w: World, e: Event)
    requires Good(w) && Enabled(w, e) && NamesGiven(w.reg.store)
    ensures NamesGiven(Apply(w, e).reg.store)
  {
    forall p | Present(Apply(w, e), p) ensures MemberAt(Apply(w, e), p).username != "" && MemberAt(Apply(w, e), p).room != "" {
      if Present(w, p) {
        MemberStep(w, e, p);
      } else {
        FirstCursor(w, e, p);
      }
    }
  }

  lemma {:induction false} RunGivesNames(ws: seq<World>, es: seq<Event>, n: nat)
    requires IsRun(ws, es) && n < |ws|
    ensures NamesGiven(ws[n].reg.store)
  {
    if n > 0 {
      RunGivesNames(ws, es, n - 1);
      RunStaysGood(ws, es, n - 1);
      assert Follows(ws, es, n - 1);
      NamesStep(ws[n - 1], es[n - 1]);
    }
  }

  /**
   * In every run a stored member that is offline can always come back: any alive session without an entry for the room
   * that joins under its name, with the stored type or none, is accepted and speaks for it again.
   */
  lemma RejoinSucceeds(ws: seq<World>, es: seq<Event>, n: nat, p: PeerId, s: Session, requested: Option<RoomType>)
    requires IsRun(ws, es) && n < |ws| && p in ws[n].reg.store.members && s !in ws[n].dead
    requires p in ws[n].reg.connections ==> ws[n].reg.connections[p] in ws[n].dead
    requires s in ws[n].reg.clients ==> forall i :: i in ws[n].reg.clients[s] ==> i.room != ws[n].reg.store.members[p].room
    requires requested.Some? ==> ws[n].reg.store.members[p].room in ws[n].reg.store.rooms
                                 && requested.value == ws[n].reg.store.rooms[ws[n].reg.store.members[p].room]
    ensures var was, m := ws[n].reg, ws[n].reg.store.members[p];
            var next := Join(was, ws[n].dead, s, m.room, m.username, requested);
            && JoinError(was, ws[n].dead, s, m.room, m.username, requested).None?
            && p in next.connections && next.connections[p] == s && JoinPeer(was, m.room, m.username) == p
            && next.store.members == was.store.members && next.nextPeer == was.nextPeer
            && s in next.clients && exists i :: i in next.clients[s] && i.room == m.room && i.peer == p
  {
    RunStaysGood(ws, es, n);
    RunGivesNames(ws, es, n);
    var was, m := ws[n].reg, ws[n].reg.store.members[p];
    JoinAcceptedIff(was, ws[n].dead, s, m.room, m.username, requested);
    HolderExists(was, m.room, m.username);
    JoinEffect(was, ws[n].dead, s, m.room, m.username, requested);
    var next := Join(was, ws[n].dead, s, m.room, m.username, requested);
    assert next.clients[s][|next.clients[s]| - 1].peer == p;
  }

  /** Two sessions that are alive in one direct room can always signal each other. */
  lemma SignalIsDelivered(ws: seq<World>, es: seq<Event>, n: nat, s: Session, t: Session, i: ClientInfo, j: ClientInfo)
    requires IsRun(ws, es) && n < |ws| && s !in ws[n].dead && t !in ws[n].dead
    requires s in ws[n].reg.clients && i in ws[n].reg.clients[s] && t in ws[n].reg.clients && j in ws[n].reg.clients[t]
    requires i.room == j.room && i.room in ws[n].reg.store.rooms && ws[n].reg.store.rooms[i.room] == Direct
    ensures RouteError(ws[n].reg, ws[n].dead, s, i.room, j.peer).None?
    ensures j.peer in ws[n].reg.connections && ws[n].reg.connections[j.peer] == t
    ensures Find(Entries(ws[n].reg, s), i.room) == Some(i)
  {
    RunStaysGood(ws, es, n);
    assert Agrees(ws[n].reg, s, i) && Agrees(ws[n].reg, t, j);
    RouteDeliveredIff(ws[n].reg, ws[n].dead, s, i.room, j.peer);
    EntryOfRoom(ws[n].reg, s, i.room);
  }

  /** A session that is alive in a group room can always speak there, whatever other rooms it is in, and under its own id. */
  lemma SpeakerIsHeard(ws: seq<World>, es: seq<Event>, n: nat, s: Session, i: ClientInfo, payload: string)
    requires IsRun(ws, es) && n < |ws| && s !in ws[n].dead && s in ws[n].reg.clients && i in ws[n].reg.clients[s]
    requires i.room in ws[n].reg.store.rooms && ws[n].reg.store.rooms[i.room] == Group
    ensures BroadcastError(ws[n].reg, s, i.room).None?
    ensures var next, q := Broadcast(ws[n].reg, ws[n].dead, s, i.room, payload).store, ws[n].reg.store.nextSeq + 1;
            q in next.messages && next.messages[q] == GroupMessage(i.room, i.peer, payload)
  {
    RunStaysGood(ws, es, n);
    assert Agrees(ws[n].reg, s, i);
    BroadcastAcceptedIff(ws[n].reg, s, i.room);
    BroadcastEffect(ws[n].reg, ws[n].dead, s, i.room, payload, i);
  }

  // ---- no unacknowledged message is lost ----

  /** An acknowledgement by anybody leaves alone what a member still waits for afterwards. */
  lemma AckSpares(w: World, e: Event, p: PeerId, q: int)
    requires Calm(w, e) && Enabled(w, e) && e.AckEvent? && Awaits(w.reg.store, p, q)
    requires AcksAs(w, e, p) ==> e.upTo < q
    ensures q in Apply(w, e).reg.store.messages && Apply(w, e).reg.store.messages[q] == w.reg.store.messages[q]
  {
    if Find(Entries(w.reg, e.s), e.room).Some? {
      CleanupSpares(SetAcked(w.reg.store, Find(Entries(w.reg, e.s), e.room).value.peer, e.upTo), e.room, p, q);
    }
  }

  lemma LeavingSpares(w: World, e: Event, p: PeerId, q: int)
    requires Calm(w, e) && Enabled(w, e) && e.LeaveEvent? && Awaits(w.reg.store, p, q) && Present(Apply(w, e), p)
    ensures q in Apply(w, e).reg.store.messages && Apply(w, e).reg.store.messages[q] == w.reg.store.messages[q]
  {
    var entries := Entries(w.reg, e.s);
    var k := MatchIndex(entries, e.roomCheck, e.peerCheck);
    if k < |entries| {
      assert Agrees(w.reg, e.s, entries[k]);
      LeaveMembers(w.reg.store, entries[k].peer, entries[k].room, "");
      LeaveSpares(w.reg.store, entries[k].peer, entries[k].room, p, q);
    }
  }

  /** Messages a member waits for are still there after any step but its own acknowledgement or departure. */
  lemma CalmMessageStep(w: World, e: Event, p: PeerId, q: int)
    requires Calm(w, e) && Enabled(w, e) && Awaits(w.reg.store, p, q) && Present(Apply(w, e), p)
    requires AcksAs(w, e, p) ==> e.upTo < q
    ensures q in Apply(w, e).reg.store.messages && Apply(w, e).reg.store.messages[q] == w.reg.store.messages[q]
  {
    match e
    case AckEvent(s, room, upTo) => AckSpares(w, e, p, q);
    case LeaveEvent(s, room, peer) => LeavingSpares(w, e, p, q);
    case BroadcastEvent(s, room, payload) => assert q <= w.reg.store.nextSeq;
    case _ =>
  }

  /** A pending message stays pending until the member acknowledges up to it or leaves. */
  lemma CalmPendingStep(w: World, e: Event, p: PeerId, q: int)
    requires Calm(w, e) && Enabled(w, e) && Present(w, p) && Present(Apply(w, e), p)
    requires q in Pending(w.reg, p)
    requires AcksAs(w, e, p) ==> e.upTo < q
    ensures q in Pending(Apply(w, e).reg, p)
    ensures Apply(w, e).reg.store.messages[q] == w.reg.store.messages[q]
  {
    CalmMemberStep(w, e, p);
    CalmMessageStep(w, e, p, q);
  }

  lemma PendingStep(w: World, e: Event, p: PeerId, q: int)
    requires Good(w) && Enabled(w, e) && Present(w, p) && Present(Apply(w, e), p)
    requires q in Pending(w.reg, p)
    requires AcksAs(w, e, p) ==> e.upTo < q
    ensures q in Pending(Apply(w, e).reg, p)
    ensures Apply(w, e).reg.store.messages[q] == w.reg.store.messages[q]
  {
    GoodIsCalm(w, e);
    CalmPendingStep(w, e, p, q);
  }

  ghost predicate Awaits(store: Store, p: PeerId, q: int) {
    p in store.members && q in After(store, store.members[p].room, store.members[p].acked)
  }

  /** Cleanup leaves alone what some member still waits for. */
  lemma CleanupSpares(store: Store, r: RoomId, p: PeerId, q: int)
    requires Awaits(store, p, q)
    ensures Cleanup(store, r).members == store.members
    ensures q in Cleanup(store, r).messages && Cleanup(store, r).messages[q] == store.messages[q]
  {
    assert p in MembersOf(store, store.members[p].room);
  }

  /** So does the departure of another member. */
  lemma LeaveSpares(store: Store, o: PeerId, r: RoomId, p: PeerId, q: int)
    requires Awaits(store, p, q) && p != o
    ensures q in LeaveStore(store, o, r).messages && LeaveStore(store, o, r).messages[q] == store.messages[q]
  {
    var left := store.(members := store.members - {o});
    assert p in MembersOf(left, store.members[p].room);
    CleanupSpares(left, r, p, q);
  }

  lemma PendingStepInRun(ws: seq<World>, es: seq<Event>, j: nat, p: PeerId, q: int)
    requires IsRun(ws, es) && j < |es| && Present(ws[j], p) && Present(ws[j + 1], p)
    requires q in Pending(ws[j].reg, p)
    requires AcksAs(ws[j], es[j], p) ==> es[j].upTo < q
    ensures q in Pending(ws[j + 1].reg, p)
    ensures ws[j + 1].reg.store.messages[q] == ws[j].reg.store.messages[q]
  {
    RunStaysGood(ws, es, j);
    assert Follows(ws, es, j);
    PendingStep(ws[j], es[j], p, q);
  }

  /**
   * In every run, for every member p from the step it first joins: each message seen stored for its room
   * at some moment b since then, whose number exceeds everything p ever acknowledged, is still stored
   * unchanged and still pending for p, whatever the other members do.
   */
  lemma {:induction false} NothingUnacknowledgedIsLost(ws: seq<World>, es: seq<Event>, i: nat, b: nat, n: nat, p: PeerId, q: int)
    requires IsRun(ws, es) && i < b <= n < |ws|
    requires !Present(ws[i], p) && Present(ws[i + 1], p) && Present(ws[n], p)
    requires q in ws[b].reg.store.messages && ws[b].reg.store.messages[q].room == MemberAt(ws[n], p).room
    requires forall j :: i < j < n && AcksAs(ws[j], es[j], p) ==> es[j].upTo < q
    ensures q in Pending(ws[n].reg, p)
    ensures ws[n].reg.store.messages[q] == ws[b].reg.store.messages[q]
  {
    if n == b {
      RunStaysGood(ws, es, n);
      CursorBelow(ws, es, i, n, p, q);
    } else {
      PresentBetween(ws, es, i + 1, n - 1, n, p);
      MemberStepInRun(ws, es, n - 1, p);
      NothingUnacknowledgedIsLost(ws, es, i, b, n - 1, p, q);
      PendingStepInRun(ws, es, n - 1, p, q);
    }
  }

  /** A member's cursor is below every number above its acknowledgements. */
  lemma {:induction false} CursorBelow(ws: seq<World>, es: seq<Event>, i: nat, n: nat, p: PeerId, q: int)
    requires IsRun(ws, es) && i < n < |ws|
    requires !Present(ws[i], p) && Present(ws[i + 1], p) && Present(ws[n], p)
    requires q >= 1
    requires forall j :: i < j < n && AcksAs(ws[j], es[j], p) ==> es[j].upTo < q
    ensures MemberAt(ws[n], p).acked < q
  {
    if n == i + 1 {
      RunStaysGood(ws, es, i);
      assert Follows(ws, es, i);
      FirstCursor(ws[i], es[i], p);
    } else {
      PresentBetween(ws, es, i + 1, n - 1, n, p);
      CursorBelow(ws, es, i, n - 1, p, q);
      MemberStepInRun(ws, es, n - 1, p);
    }
  }

  /** A member appears only by joining, and starts with nothing acknowledged. */
  lemma FirstCursor(w: World, e: Event, p: PeerId)
    requires Good(w) && Enabled(w, e) && !Present(w, p) && Present(Apply(w, e), p)
    ensures e.JoinEvent? && MemberAt(Apply(w, e), p) == Member(e.username, e.room, 0)
  {
    match e
    case JoinEvent(s, r, u, t) =>
      HolderHolds(w.reg, r, u);
    case LeaveEvent(s, room, peer) =>
      var entries := Entries(w.reg, s);
      var k := MatchIndex(entries, room, peer);
      if k < |entries| {
        assert Agrees(w.reg, s, entries[k]);
        LeaveMembers(w.reg.store, entries[k].peer, entries[k].room, "");
      }
    case _ =>
  }

  lemma BroadcastStores(w: World, e: Event)
    requires e.BroadcastEvent? && BroadcastError(w.reg, e.s, e.room).None?
    ensures var q, messages := w.reg.store.nextSeq + 1, Apply(w, e).reg.store.messages;
            && messages.Keys == w.reg.store.messages.Keys + {q}
            && messages[q] == GroupMessage(e.room, Find(Entries(w.reg, e.s), e.room).value.peer, e.payload)
  {
  }

  /** In particular an accepted broadcast reaches every member of its room that has not acknowledged past it. */
  lemma BroadcastIsNotLost(ws: seq<World>, es: seq<Event>, i: nat, b: nat, n: nat, p: PeerId)
    requires IsRun(ws, es) && i < b < n < |ws|
    requires !Present(ws[i], p) && Present(ws[i + 1], p) && Present(ws[n], p)
    requires es[b].BroadcastEvent? && BroadcastError(ws[b].reg, es[b].s, es[b].room).None?
    requires es[b].room == MemberAt(ws[n], p).room
    requires forall j :: i < j < n && AcksAs(ws[j], es[j], p) ==> es[j].upTo <= ws[b].reg.store.nextSeq
    ensures var q := ws[b].reg.store.nextSeq + 1;
            && q in Pending(ws[n].reg, p)
            && ws[n].reg.store.messages[q].room == es[b].room
            && ws[n].reg.store.messages[q].payload == es[b].payload
  {
    assert Follows(ws, es, b);
    BroadcastStores(ws[b], es[b]);
    NothingUnacknowledgedIsLost(ws, es, i, b + 1, n, p, ws[b].reg.store.nextSeq + 1);
  }

  // ---- sequence numbers ----

  lemma SeqStep(w: World, e: Event)
    ensures Apply(w, e).reg.store.nextSeq >= w.reg.store.nextSeq
  {
  }

  lemma {:induction false} SeqGrows(ws: seq<World>, es: seq<Event>, i: nat, n: nat)
    requires Steps(ws, es) && i <= n < |ws|
    ensures ws[n].reg.store.nextSeq >= ws[i].reg.store.nextSeq
  {
    if n > i {
      SeqGrows(ws, es, i, n - 1);
      assert Follows(ws, es, n - 1);
      SeqStep(ws[n - 1], es[n - 1]);
    }
  }

  /** Assigned numbers strictly increase across all rooms and never overwrite a stored message. */
  lemma SeqsIncrease(ws: seq<World>, es: seq<Event>, i: nat, j: nat)
    requires IsRun(ws, es) && i < j < |es|
    requires es[i].BroadcastEvent? && BroadcastError(ws[i].reg, es[i].s, es[i].room).None?
    requires es[j].BroadcastEvent? && BroadcastError(ws[j].reg, es[j].s, es[j].room).None?
    ensures var q, q' := ws[i].reg.store.nextSeq + 1, ws[j].reg.store.nextSeq + 1;
            && q < q' && q' !in ws[j].reg.store.messages
            && ws[j + 1].reg.store.messages.Keys == ws[j].reg.store.messages.Keys + {q'}
  {
    assert Follows(ws, es, i) && Follows(ws, es, j);
    SeqGrows(ws, es, i + 1, j);
    RunStaysGood(ws, es, j);
  }

  // ---- nothing is kept too long ----

  /** Every stored message is still needed by some member of its room. */
  ghost predicate Tidy(store: Store) {
    forall q :: q in store.messages ==> Needed(store, store.messages[q].room, q)
  }

  /** A broadcast whose number every member of the room has already acknowledged. */
  ghost predicate Overshot(w: World, e: Event) {
    && e.BroadcastEvent? && BroadcastError(w.reg, e.s, e.room).None?
    && forall p :: p in MembersOf(w.reg.store, e.room) ==> w.reg.store.members[p].acked > w.reg.store.nextSeq
  }

  /** A message stays needed while the member that needs it keeps its cursor. */
  lemma NeededBy(store: Store, r: RoomId, q: int, p: PeerId)
    requires p in MembersOf(store, r) && store.members[p].acked < q
    ensures Needed(store, r, q)
  {
  }

  lemma CleanupTidies(store: Store, r: RoomId)
    requires MembersOf(store, r) != {}
    requires forall q :: q in store.messages && store.messages[q].room != r ==> Needed(store, store.messages[q].room, q)
    ensures Tidy(Cleanup(store, r))
  {
    var next := Cleanup(store, r);
    forall q | q in next.messages ensures Needed(next, next.messages[q].room, q) {
      assert Needed(store, store.messages[q].room, q);
      var p :| p in MembersOf(store, store.messages[q].room) && store.members[p].acked < q;
      NeededBy(next, next.messages[q].room, q, p);
    }
  }

  /** Needs of other rooms do not change when the members of one room do. */
  lemma NeededElsewhere(store: Store, next: Store, r: RoomId, x: RoomId, q: int)
    requires Needed(store, x, q) && x != r
    requires forall p :: p in store.members && store.members[p].room != r ==> p in next.members && next.members[p] == store.members[p]
    ensures Needed(next, x, q)
  {
    var p :| p in MembersOf(store, x) && store.members[p].acked < q;
    NeededBy(next, x, q, p);
  }

  lemma LeaveTidies(store: Store, p: PeerId, r: RoomId)
    requires StoreInv(store) && Tidy(store) && p in store.members && store.members[p].room == r
    ensures Tidy(LeaveStore(store, p, r))
  {
    var left := store.(members := store.members - {p});
    forall q | q in store.messages && store.messages[q].room != r ensures Needed(left, store.messages[q].room, q) {
      NeededElsewhere(store, left, r, store.messages[q].room, q);
    }
    if MembersOf(left, r) != {} {
      CleanupTidies(left, r);
    } else {
      var next := DropRoom(left, r);
      forall q | q in next.messages ensures Needed(next, next.messages[q].room, q) {
        NeededElsewhere(left, next, r, store.messages[q].room, q);
      }
    }
  }

  lemma JoinTidies(w: World, s: Session, r: RoomId, u: string, t: Option<RoomType>)
    requires Good(w) && Tidy(w.reg.store) && s !in w.dead
    ensures Tidy(Join(w.reg, w.dead, s, r, u, t).store)
  {
    var e := JoinEvent(s, r, u, t);
    if JoinError(w.reg, w.dead, s, r, u, t).None? {
      var next := Join(w.reg, w.dead, s, r, u, t).store;
      forall q | q in next.messages ensures Needed(next, next.messages[q].room, q) {
        var p :| p in MembersOf(w.reg.store, w.reg.store.messages[q].room) && w.reg.store.members[p].acked < q;
        MemberStep(w, e, p);
        NeededBy(next, next.messages[q].room, q, p);
      }
    }
  }

  /** One step keeps the store tidy exactly unless it broadcasts a number that everyone acknowledged in advance. */
  lemma TidyStep(w: World, e: Event)
    requires Good(w) && Enabled(w, e) && Tidy(w.reg.store)
    ensures Tidy(Apply(w, e).reg.store) <==> !Overshot(w, e)
  {
    match e
    case JoinEvent(s, r, u, t) => JoinTidies(w, s, r, u, t);
    case BroadcastEvent(s, r, payload) =>
      if BroadcastError(w.reg, s, r).None? {
        BroadcastTidies(w, e);
      }
    case AckEvent(s, r, upTo) =>
      var info := Find(Entries(w.reg, s), r);
      if info.Some? {
        assert Agrees(w.reg, s, info.value);
        var acked := SetAcked(w.reg.store, info.value.peer, upTo);
        assert info.value.peer in MembersOf(acked, r);
        forall q | q in acked.messages && acked.messages[q].room != r ensures Needed(acked, acked.messages[q].room, q) {
          NeededElsewhere(w.reg.store, acked, r, acked.messages[q].room, q);
        }
        CleanupTidies(acked, r);
      }
    case LeaveEvent(s, room, peer) =>
      var entries := Entries(w.reg, s);
      var k := MatchIndex(entries, room, peer);
      if k < |entries| {
        assert Agrees(w.reg, s, entries[k]);
        LeaveTidies(w.reg.store, entries[k].peer, entries[k].room);
      }
    case _ =>
  }

  lemma BroadcastTidies(w: World, e: Event)
    requires Good(w) && Tidy(w.reg.store)
    requires e.BroadcastEvent? && BroadcastError(w.reg, e.s, e.room).None?
    ensures Tidy(Apply(w, e).reg.store) <==> !Overshot(w, e)
  {
    var store := w.reg.store;
    var next := Apply(w, e).reg.store;
    var q := store.nextSeq + 1;
    forall x ensures MembersOf(next, x) == MembersOf(store, x) {
    }
    forall x, k ensures Needed(next, x, k) <==> Needed(store, x, k) {
    }
    assert next.messages[q].room == e.room;
    if !Overshot(w, e) {
      var p :| p in MembersOf(store, e.room) && store.members[p].acked <= store.nextSeq;
      NeededBy(store, e.room, q, p);
    }
  }

  ghost predicate CursorsAssigned(store: Store) {
    forall p :: p in store.members ==> store.members[p].acked <= store.nextSeq
  }

  lemma CursorStep(w: World, e: Event)
    requires Good(w) && Enabled(w, e) && CursorsAssigned(w.reg.store)
    requires e.AckEvent? ==> e.upTo <= w.reg.store.nextSeq
    ensures CursorsAssigned(Apply(w, e).reg.store)
  {
    var next := Apply(w, e);
    forall p | Present(next, p) ensures MemberAt(next, p).acked <= next.reg.store.nextSeq {
      SeqStep(w, e);
      if Present(w, p) {
        MemberStep(w, e, p);
      } else {
        FirstCursor(w, e, p);
      }
    }
  }

  /** If members acknowledge only numbers already assigned, no message outlives its readers. */
  lemma {:induction false} NoGarbage(ws: seq<World>, es: seq<Event>, n: nat)
    requires IsRun(ws, es) && n < |ws|
    requires forall j :: 0 <= j < n && es[j].AckEvent? ==> es[j].upTo <= ws[j].reg.store.nextSeq
    ensures Tidy(ws[n].reg.store) && CursorsAssigned(ws[n].reg.store)
  {
    if n > 0 {
      NoGarbage(ws, es, n - 1);
      assert Follows(ws, es, n - 1);
      RunStaysGood(ws, es, n - 1);
      var w, e := ws[n - 1], es[n - 1];
      if e.BroadcastEvent? && BroadcastError(w.reg, e.s, e.room).None? {
        var info := Find(Entries(w.reg, e.s), e.room).value;
        assert Agrees(w.reg, e.s, info);
        assert info.peer in MembersOf(w.reg.store, e.room);
      }
      TidyStep(w, e);
      CursorStep(w, e);
    }
  }

  /** Every state so far is tidy exactly if no step so far broadcast a number that everyone acknowledged in advance. */
  lemma {:induction false} TidyRunIff(ws: seq<World>, es: seq<Event>, n: nat)
    requires IsRun(ws, es) && n < |ws|
    ensures (forall k :: 0 <= k <= n ==> Tidy(ws[k].reg.store)) <==> (forall k :: 0 <= k < n ==> !Overshot(ws[k], es[k]))
  {
    if n > 0 {
      TidyRunIff(ws, es, n - 1);
      assert Follows(ws, es, n - 1);
      RunStaysGood(ws, es, n - 1);
      if Tidy(ws[n - 1].reg.store) {
        TidyStep(ws[n - 1], es[n - 1]);
      }
    }
  }

  // ---- rooms ----

  /** Messages are stored for group rooms only. */
  ghost predicate GroupOnly(store: Store) {
    forall q :: q in store.messages ==>
      store.messages[q].room in store.rooms && store.rooms[store.messages[q].room] == Group
  }

  lemma GroupOnlyStep(w: World, e: Event)
    requires Good(w) && Enabled(w, e) && GroupOnly(w.reg.store)
    ensures GroupOnly(Apply(w, e).reg.store)
  {
    StepKeepsGood(w, e);
    var next := Apply(w, e).reg.store;
    forall q | q in next.messages ensures next.rooms[next.messages[q].room] == Group {
      MessagesAfter(w, e, q);
      var r := next.messages[q].room;
      if e.BroadcastEvent? && BroadcastError(w.reg, e.s, e.room).None? && r == e.room {
        assert Agrees(w.reg, e.s, Find(Entries(w.reg, e.s), r).value);
      }
      RoomTypeStep(w, e, r);
    }
  }

  /** Messages after a step were stored before, except the one a broadcast stores. */
  lemma MessagesAfter(w: World, e: Event, q: int)
    requires q in Apply(w, e).reg.store.messages
    ensures (q in w.reg.store.messages && Apply(w, e).reg.store.messages[q] == w.reg.store.messages[q])
         || (e.BroadcastEvent? && BroadcastError(w.reg, e.s, e.room).None? && q == w.reg.store.nextSeq + 1
             && Apply(w, e).reg.store.messages[q].room == e.room)
  {
  }

  /** A room keeps its type as long as it exists. */
  lemma RoomTypeStep(w: World, e: Event, r: RoomId)
    requires Good(w) && Enabled(w, e)
    requires r in w.reg.store.rooms && r in Apply(w, e).reg.store.rooms
    ensures Apply(w, e).reg.store.rooms[r] == w.reg.store.rooms[r]
  {
  }

  /** A room is gone exactly when its last member left. */
  lemma RoomLifetime(ws: seq<World>, es: seq<Event>, n: nat, r: RoomId)
    requires IsRun(ws, es) && n < |ws|
    ensures r in ws[n].reg.store.rooms <==> MembersOf(ws[n].reg.store, r) != {}
    ensures forall q :: q in ws[n].reg.store.messages && ws[n].reg.store.messages[q].room == r ==> r in ws[n].reg.store.rooms
    ensures r in ws[n].reg.store.rooms && ws[n].reg.store.rooms[r] == Direct ==> |MembersOf(ws[n].reg.store, r)| <= 2
  {
    RunStaysGood(ws, es, n);
  }

  /** A signal in a direct room goes to the sender itself or to the only other member. */
  lemma RouteStaysInDirectRoom(ws: seq<World>, es: seq<Event>, n: nat, s: Session, r: RoomId, to: PeerId)
    requires IsRun(ws, es) && n < |ws| && s !in ws[n].dead
    requires RouteError(ws[n].reg, ws[n].dead, s, r, to).None?
    ensures var st := ws[n].reg;
            var t := st.connections[to];
            var from := Find(Entries(st, s), r).value.peer;
            && t in Audience(st, ws[n].dead, r)
            && var reached := Find(Entries(st, t), r).value.peer;
            && (t == s || (reached != from && MembersOf(st.store, r) == {from, reached}))
            && (reached == to <==> to in MembersOf(st.store, r))
  {
    RunStaysGood(ws, es, n);
    var st := ws[n].reg;
    var t := st.connections[to];
    var i, j := Find(Entries(st, s), r).value, Find(Entries(st, t), r).value;
    assert Agrees(st, s, i) && Agrees(st, t, j);
    assert i.peer in MembersOf(st.store, r) && j.peer in MembersOf(st.store, r);
    if t != s {
      PairIsAll(MembersOf(st.store, r), i.peer, j.peer);
    }
    if to in MembersOf(st.store, r) {
      SamePeer(st, ws[n].dead, to, j.peer, r);
    }
  }

  lemma PairIsAll(ids: set<PeerId>, a: PeerId, b: PeerId)
    requires |ids| <= 2 && a in ids && b in ids && a != b
    ensures ids == {a, b}
  {
    assert |ids - {a} - {b}| == 0;
  }

  const ANN := Session(1)
  const BOB := Session(2)

  /** Ann and then bob joined a new room. */
  ghost function Pair(r: RoomId, t: RoomType): State {
    Newcomer(Newcomer(INITIAL, ANN, r, "ann", t), BOB, r, "bob", t)
  }

  lemma PairJoins(r: RoomId, t: RoomType)
    requires r != ""
    ensures JoinError(INITIAL, {}, ANN, r, "ann", Some(t)).None? && JoinPeer(INITIAL, r, "ann") == PeerName(1)
    ensures var st := Newcomer(INITIAL, ANN, r, "ann", t);
            && Join(INITIAL, {}, ANN, r, "ann", Some(t)) == st
            && JoinError(st, {}, BOB, r, "bob", Some(t)).None? && JoinPeer(st, r, "bob") == PeerName(2)
            && Join(st, {}, BOB, r, "bob", Some(t)) == Pair(r, t)
    ensures MembersOf(Pair(r, t).store, r) == {PeerName(1), PeerName(2)} && PeerName(1) != PeerName(2)
  {
    NewcomerJoins(INITIAL, ANN, r, "ann", Some(t));
    var st := Newcomer(INITIAL, ANN, r, "ann", t);
    assert MembersOf(st.store, r) == {PeerName(1)};
    NewcomerJoins(st, BOB, r, "bob", Some(t));
    PeerNameInjective(1, 2);
  }

  /** Bob joins a second room; ann's signal in the first may then name his identifier in the second. */
  lemma BobIsElsewhere()
    ensures var st, next := Pair("d", Direct), Newcomer(Pair("d", Direct), BOB, "e", "bob", Direct);
            && Join(st, {}, BOB, "e", "bob", None) == next
            && RouteError(next, {}, ANN, "d", PeerName(3)).None? && next.connections[PeerName(3)] == BOB
            && PeerName(3) !in MembersOf(next.store, "d")
  {
    assert MembersOf(Pair("d", Direct).store, "e") == {};
    NewcomerJoins(Pair("d", Direct), BOB, "e", "bob", None);
    PeerNameInjective(1, 3);
    PeerNameInjective(2, 3);
  }

  /** A signal may name an identifier that its receiver holds in another room, and is routed all the same. */
  lemma SignalCanNameAnotherRoom() returns (ws: seq<World>, es: seq<Event>)
    ensures IsRun(ws, es)
    ensures var st := ws[|es|].reg;
            && RouteError(st, {}, ANN, "d", PeerName(3)).None? && st.connections[PeerName(3)] == BOB
            && PeerName(3) !in MembersOf(st.store, "d")
  {
    PairJoins("d", Direct);
    BobIsElsewhere();
    var st1 := Newcomer(INITIAL, ANN, "d", "ann", Direct);
    var st3 := Newcomer(Pair("d", Direct), BOB, "e", "bob", Direct);
    es := [JoinEvent(ANN, "d", "ann", Some(Direct)), JoinEvent(BOB, "d", "bob", Some(Direct)), JoinEvent(BOB, "e", "bob", None)];
    ws := ThreeSteps(World(INITIAL, {}), World(st1, {}), World(Pair("d", Direct), {}), World(st3, {}), es);
  }

  /** After a disconnect no entry and no connection of the session remains, and the store is as it was. */
  lemma DepartureLeavesNoTrace(ws: seq<World>, es: seq<Event>, n: nat)
    requires IsRun(ws, es) && n < |es| && es[n].DisconnectEvent?
    ensures var s, next := es[n].s, ws[n + 1].reg;
            && s !in next.clients
            && (forall p :: p in next.connections ==> next.connections[p] != s)
            && next.store == ws[n].reg.store && next.nextPeer == ws[n].reg.nextPeer
            && (forall r :: Audience(next, ws[n].dead, r) == Audience(ws[n].reg, ws[n].dead, r) - {s})
  {
    RunStaysGood(ws, es, n);
    assert Follows(ws, es, n);
    var st, s := ws[n].reg, es[n].s;
    forall p | p in st.connections && st.connections[p] == s ensures Severed(st, ws[n].dead, Entries(st, s), p) {
      assert SpeaksFor(st, st.connections[p], p);
    }
  }
}
