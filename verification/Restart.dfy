/** Opening an existing database again: what survives a restart, and exactly when. */
module Restart {
  import opened Domain
  import opened PeerIds
  import opened RoomStore
  import opened Registry
  import opened RegistryInvariant
  import opened Runs

  /** A new process on the old file: the tables survive, both indexes are empty, both counters restart. */
  ghost function Restarted(st: State): State {
    State(Reopen(st.store), map[], map[], 1)
  }

  /** After a restart the next number still exceeds every stored one. */
  lemma ReopenedSeqIsFresh(st: State)
    requires SeqsAssigned(st.store)
    ensures SeqsAssigned(Reopen(st.store))
    ensures Reopen(st.store).nextSeq <= st.store.nextSeq
  {
  }

  /** The counter resumes where it stopped exactly when the last assigned message is still stored. */
  lemma CounterSurvivesIff(store: Store)
    requires SeqsAssigned(store)
    ensures Reopen(store).nextSeq == store.nextSeq <==> store.nextSeq == 0 || store.nextSeq in store.messages
  {
  }

  /** A member gets a new broadcast buffered exactly when its cursor is not ahead of the counter. */
  lemma BroadcastIsPendingIff(w: World, e: Event, p: PeerId)
    requires SeqsAssigned(w.reg.store)
    requires e.BroadcastEvent? && BroadcastError(w.reg, e.s, e.room).None?
    requires p in MembersOf(w.reg.store, e.room)
    ensures w.reg.store.nextSeq + 1 in Pending(Apply(w, e).reg, p)
       <==> w.reg.store.members[p].acked <= w.reg.store.nextSeq
  {
    BroadcastStores(w, e);
  }

  /** A first join keeps every stored membership exactly when the generated identifier is not already stored. */
  lemma JoinKeepsMembersIff(w: World, e: Event)
    requires e.JoinEvent? && Holder(w.reg, e.room, e.username).None?
    requires JoinError(w.reg, w.dead, e.s, e.room, e.username, e.requested).None?
    ensures (forall p :: Present(w, p) ==> Present(Apply(w, e), p) && MemberAt(Apply(w, e), p) == MemberAt(w, p))
       <==> !Present(w, PeerName(w.reg.nextPeer))
  {
    var p := PeerName(w.reg.nextPeer);
    if Present(w, p) && MemberAt(Apply(w, e), p) == MemberAt(w, p) {
      assert Holds(w.reg, p, e.room, e.username);
    }
  }

  // ---- whole runs after a restart ----

  /** In a run after a restart, a stored member's identifier has become somebody else's. */
  ghost predicate TakenOver(st: State, ws: seq<World>, es: seq<Event>, p: PeerId) {
    && Steps(ws, es) && ws[0] == World(Restarted(st), {})
    && Present(ws[0], p) && Present(ws[|es|], p)
    && MemberAt(ws[|es|], p).room != MemberAt(ws[0], p).room
  }

  /** After j newcomers joined a new room, they hold the first j identifiers and nobody else's changed. */
  ghost predicate Newcomers(w0: World, w: World, room: RoomId, j: nat) {
    && w.reg.nextPeer == j + 1 && w.dead == {}
    && (forall s :: s in w.reg.clients ==> s.id <= j)
    && (room in w.reg.store.rooms ==> w.reg.store.rooms[room] == Group)
    && (forall p {:trigger Named(w, p, j)} :: Present(w, p) && MemberAt(w, p).room == room ==> Named(w, p, j))
    && (forall p {:trigger Present(w0, p)} :: Present(w0, p) ==> Present(w, p))
    && (forall i: nat {:trigger Present(w, PeerName(i))} :: 1 <= i <= j ==> Present(w, PeerName(i)) && MemberAt(w, PeerName(i)).room == room)
  }

  /** The member's name is one of the first j. */
  ghost predicate Named(w: World, p: PeerId, j: nat)
    requires Present(w, p)
  {
    exists i: nat :: 1 <= i <= j && MemberAt(w, p).username == PeerName(i)
  }

  lemma OneMoreNewcomer(w0: World, w: World, room: RoomId, j: nat)
    requires Newcomers(w0, w, room, j) && room != ""
    ensures var e := JoinEvent(Session(j + 1), room, PeerName(j + 1), Some(Group));
            Enabled(w, e) && Newcomers(w0, Apply(w, e), room, j + 1)
  {
    var s, name := Session(j + 1), PeerName(j + 1);
    var next := Apply(w, JoinEvent(s, room, name, Some(Group)));
    assert Find(Entries(w.reg, s), room).None?;
    forall p ensures !Holds(w.reg, p, room, name) {
      if Present(w, p) && MemberAt(w, p).room == room {
        assert Named(w, p, j);
        var i: nat :| 1 <= i <= j && MemberAt(w, p).username == PeerName(i);
        PeerNameInjective(i, j + 1);
      }
    }
    assert JoinError(w.reg, {}, s, room, name, Some(Group)).None?;
    assert MemberAt(next, name) == Member(name, room, 0);
    forall p | Present(next, p) && MemberAt(next, p).room == room ensures Named(next, p, j + 1) {
      if p != name {
        assert Present(w, p) && MemberAt(next, p) == MemberAt(w, p);
        assert Named(w, p, j);
        var i: nat :| 1 <= i <= j && MemberAt(w, p).username == PeerName(i);
        assert 1 <= i <= j + 1 && MemberAt(next, p).username == PeerName(i);
      }
    }
    forall i: nat | 1 <= i <= j + 1 ensures Present(next, PeerName(i)) && MemberAt(next, PeerName(i)).room == room {
      if i <= j {
        assert Present(w, PeerName(i));
      }
    }
    forall p | Present(w0, p) ensures Present(next, p) {
      assert Present(w, p);
    }
  }

  lemma {:induction false} NewcomersJoin(w0: World, room: RoomId, j: nat) returns (ws: seq<World>, es: seq<Event>)
    requires Newcomers(w0, w0, room, 0) && room != ""
    ensures Steps(ws, es) && |es| == j && ws[0] == w0 && Newcomers(w0, ws[j], room, j)
  {
    if j == 0 {
      ws, es := [w0], [];
    } else {
      var before, events := NewcomersJoin(w0, room, j - 1);
      var e := JoinEvent(Session(j), room, PeerName(j), Some(Group));
      OneMoreNewcomer(w0, before[j - 1], room, j - 1);
      StepsExtend(before, events, e);
      ws, es := before + [Apply(before[j - 1], e)], events + [e];
    }
  }

  lemma {:induction false} LongerThanAll(rooms: set<RoomId>) returns (n: nat)
    ensures forall r :: r in rooms ==> |r| <= n
  {
    if rooms == {} {
      n := 0;
    } else {
      var x :| x in rooms;
      n := LongerThanAll(rooms - {x});
      n := n + |x|;
    }
  }

  /**
   * A restart can hand a stored member's identifier to somebody else exactly when the store holds a member at all;
   * otherwise the restarted server is in its initial state.
   */
  lemma RestartIsSafeIff(w: World)
    requires Good(w)
    ensures (exists ws, es, p :: TakenOver(w.reg, ws, es, p)) <==> w.reg.store.members != map[]
    ensures w.reg.store.members == map[] ==> Restarted(w.reg) == INITIAL
  {
    if w.reg.store.members == map[] {
      RestartOfNobody(w);
    } else {
      var ws, es, p := RestartOfSomebody(w);
    }
  }

  lemma RestartOfNobody(w: World)
    requires Good(w) && w.reg.store.members == map[]
    ensures Restarted(w.reg) == INITIAL
  {
    var store := w.reg.store;
    forall r ensures r !in store.rooms {
      assert MembersOf(store, r) == {};
    }
    assert forall q :: q !in store.messages;
    assert store.rooms == map[] && store.messages == map[];
  }

  lemma RestartOfSomebody(w: World) returns (ws: seq<World>, es: seq<Event>, p: PeerId)
    requires Good(w) && w.reg.store.members != map[]
    ensures TakenOver(w.reg, ws, es, p)
  {
    var st := w.reg;
    p :| p in st.store.members;
    assert Issued(p, st.nextPeer);
    var k: nat :| 1 <= k < st.nextPeer && p == PeerName(k);
    var room := UnusedRoom(st);
    var w0 := World(Restarted(st), {});
    NewcomersStart(st, room);
    ws, es := NewcomersJoin(w0, room, k);
    assert Present(w0, p) && Present(ws[k], PeerName(k));
    assert MemberAt(w0, p).room in st.store.rooms;
  }

  lemma UnusedRoom(st: State) returns (room: RoomId)
    ensures room != "" && room !in st.store.rooms
  {
    var n := LongerThanAll(st.store.rooms.Keys);
    room := seq(n + 1, _ => 'x');
    assert forall r :: r in st.store.rooms ==> r in st.store.rooms.Keys;
  }

  lemma NewcomersStart(st: State, room: RoomId)
    requires RoomsLive(st.store) && room !in st.store.rooms
    ensures var w0 := World(Restarted(st), {}); Newcomers(w0, w0, room, 0)
  {
  }

  // ---- what survives a restart ----

  /** Any step on any state keeps the tables sound, and every session at one entry for a room. */
  lemma StepKeepsTables(w: World, e: Event)
    requires TablesSound(w.reg.store) && EntriesSingle(w.reg)
    ensures TablesSound(Apply(w, e).reg.store) && EntriesSingle(Apply(w, e).reg)
  {
    match e
    case JoinEvent(s, r, u, t) =>
      JoinKeepsTables(w.reg, w.dead, s, r, u, t);
      JoinKeepsSingle(w.reg, w.dead, s, r, u, t);
    case AckEvent(s, r, upTo) => AcknowledgeKeepsTables(w.reg, s, r, upTo);
    case LeaveEvent(s, room, peer) =>
      var entries := Entries(w.reg, s);
      var k := MatchIndex(entries, room, peer);
      if k < |entries| {
        LeaveKeepsTables(w.reg.store, entries[k].peer, entries[k].room);
        WithoutEntry(entries, k);
      }
    case _ =>
  }

  /** However often the database is reopened, its tables are sound in every state of every run. */
  lemma {:induction false} TablesStaySound(st: State, ws: seq<World>, es: seq<Event>, n: nat)
    requires TablesSound(st.store) && Steps(ws, es) && ws[0] == World(Restarted(st), {}) && n < |ws|
    ensures TablesSound(ws[n].reg.store) && EntriesSingle(ws[n].reg)
  {
    if n > 0 {
      TablesStaySound(st, ws, es, n - 1);
      assert Follows(ws, es, n - 1);
      StepKeepsTables(ws[n - 1], es[n - 1]);
    }
  }

  lemma RestartIsIndexed(st: State)
    requires StoreInv(st.store)
    ensures Indexed(Restarted(st), {})
  {
    forall r ensures MembersOf(Reopen(st.store), r) == MembersOf(st.store, r) {
    }
  }

  /** No join up to some point of a run is given an identifier that is stored. */
  ghost predicate GiveFreeIds(ws: seq<World>, es: seq<Event>, n: nat)
    requires n <= |es| < |ws|
  {
    forall j :: 0 <= j < n ==> GivesFreeId(ws[j], es[j])
  }

  /** While no stored identifier is handed out, the indexes agree after a restart as they do before one. */
  lemma {:induction false} FreeIdsKeepIndexed(st: State, ws: seq<World>, es: seq<Event>, n: nat)
    requires StoreInv(st.store) && Steps(ws, es) && ws[0] == World(Restarted(st), {}) && n < |ws|
    requires GiveFreeIds(ws, es, n)
    ensures Indexed(ws[n].reg, ws[n].dead)
  {
    if n == 0 {
      RestartIsIndexed(st);
    } else {
      FreeIdsKeepIndexed(st, ws, es, n - 1);
      assert Follows(ws, es, n - 1);
      CalmStep(ws[n - 1], es[n - 1]);
    }
  }

  /**
   * After a restart a message that is pending for a member stays stored unchanged and pending until the member
   * acknowledges up to it or leaves, as long as no join is given an identifier that is stored.
   */
  lemma {:induction false} PendingSurvivesRestart(st: State, ws: seq<World>, es: seq<Event>, i: nat, n: nat, p: PeerId, q: int)
    requires StoreInv(st.store) && Steps(ws, es) && ws[0] == World(Restarted(st), {}) && i <= n < |ws|
    requires GiveFreeIds(ws, es, n) && q in Pending(ws[i].reg, p)
    requires forall j :: i <= j <= n ==> Present(ws[j], p)
    requires forall j :: i <= j < n && AcksAs(ws[j], es[j], p) ==> es[j].upTo < q
    ensures q in Pending(ws[n].reg, p) && ws[n].reg.store.messages[q] == ws[i].reg.store.messages[q]
  {
    if n > i {
      PendingSurvivesRestart(st, ws, es, i, n - 1, p, q);
      FreeIdsKeepIndexed(st, ws, es, n - 1);
      assert Follows(ws, es, n - 1);
      CalmPendingStep(ws[n - 1], es[n - 1], p, q);
    }
  }

  // ---- broadcasts hidden by a restart ----

  /**
   * A run after a restart ends with an accepted broadcast to the room of a member that acknowledged nothing in
   * that run, and the broadcast is not among what the member gets buffered.
   */
  ghost predicate Hidden(st: State, ws: seq<World>, es: seq<Event>, p: PeerId) {
    && Steps(ws, es) && ws[0] == World(Restarted(st), {}) && es != []
    && (forall j :: 0 <= j < |es| ==> !AcksAs(ws[j], es[j], p))
    && HidesFrom(ws[|es| - 1], es[|es| - 1], p)
  }

  ghost predicate HidesFrom(w: World, e: Event, p: PeerId) {
    && e.BroadcastEvent? && BroadcastError(w.reg, e.s, e.room).None?
    && p in MembersOf(w.reg.store, e.room)
    && w.reg.store.nextSeq + 1 in Apply(w, e).reg.store.messages
    && w.reg.store.nextSeq + 1 !in Pending(Apply(w, e).reg, p)
  }

  /** A member of a group room whose cursor is above the largest stored key. */
  ghost predicate AheadOfKeys(store: Store, p: PeerId) {
    && p in store.members && store.members[p].room in store.rooms && store.rooms[store.members[p].room] == Group
    && store.members[p].acked > MaxKey(store.messages.Keys)
  }

  /** The member's record and its room's type are as at the start, and all sessions in the room know that type. */
  ghost predicate Kept(w0: World, w: World, p: PeerId) {
    && Present(w0, p) && Present(w, p) && MemberAt(w, p) == MemberAt(w0, p)
    && var r := MemberAt(w0, p).room;
    && r in w0.reg.store.rooms && r in w.reg.store.rooms && w.reg.store.rooms[r] == w0.reg.store.rooms[r]
    && forall s, i :: s in w.reg.clients && i in w.reg.clients[s] && i.room == r ==> i.roomType == w0.reg.store.rooms[r]
  }

  /** Without acknowledgements a positive cursor can only be an old one. */
  ghost predicate OldCursor(w0: World, w: World, p: PeerId) {
    Present(w, p) && MemberAt(w, p).acked > 0 ==> Kept(w0, w, p)
  }

  lemma OldCursorStep(w0: World, w: World, e: Event, p: PeerId)
    requires OldCursor(w0, w, p) && !AcksAs(w, e, p)
    ensures OldCursor(w0, Apply(w, e), p)
  {
    match e
    case JoinEvent(s, r, u, t) => OldCursorJoin(w0, w, e, p);
    case LeaveEvent(s, room, peer) => OldCursorLeave(w0, w, e, p);
    case _ =>
  }

  lemma OldCursorJoin(w0: World, w: World, e: Event, p: PeerId)
    requires OldCursor(w0, w, p) && e.JoinEvent?
    ensures OldCursor(w0, Apply(w, e), p)
  {
    HolderHolds(w.reg, e.room, e.username);
  }

  lemma OldCursorLeave(w0: World, w: World, e: Event, p: PeerId)
    requires OldCursor(w0, w, p) && e.LeaveEvent?
    ensures OldCursor(w0, Apply(w, e), p)
  {
    var entries := Entries(w.reg, e.s);
    var k := MatchIndex(entries, e.roomCheck, e.peerCheck);
    if k < |entries| {
      assert forall i :: i in entries[..k] + entries[k + 1..] ==> i in entries;
      if Present(w, p) && p != entries[k].peer {
        assert p in MembersOf(w.reg.store.(members := w.reg.store.members - {entries[k].peer}), MemberAt(w, p).room);
      }
    }
  }

  lemma {:induction false} CursorsAreOld(ws: seq<World>, es: seq<Event>, n: nat, p: PeerId)
    requires Steps(ws, es) && n < |ws| && ws[0].reg.clients == map[] && RoomsLive(ws[0].reg.store)
    requires forall j :: 0 <= j < n ==> !AcksAs(ws[j], es[j], p)
    ensures OldCursor(ws[0], ws[n], p)
  {
    if n > 0 {
      CursorsAreOld(ws, es, n - 1, p);
      assert Follows(ws, es, n - 1);
      OldCursorStep(ws[0], ws[n - 1], es[n - 1], p);
    }
  }

  lemma HiddenIsAhead(st: State, ws: seq<World>, es: seq<Event>, p: PeerId)
    requires RoomsLive(st.store) && Hidden(st, ws, es, p)
    ensures AheadOfKeys(st.store, p)
  {
    var n := |es| - 1;
    var w, e := ws[n], es[n];
    forall r ensures MembersOf(Reopen(st.store), r) == MembersOf(st.store, r) {
    }
    CursorsAreOld(ws, es, n, p);
    SeqGrows(ws, es, 0, n);
    assert MemberAt(w, p).acked > w.reg.store.nextSeq;
    var info := Find(Entries(w.reg, e.s), e.room).value;
    assert info in w.reg.clients[e.s] && info.room == MemberAt(w, p).room && info.roomType == Group;
  }

  /** A stored member of a group room rejoins under its name and gets its identifier and cursor back. */
  lemma RejoinsAfterRestart(st: State, p: PeerId)
    requires StoreInv(st.store) && NamesGiven(st.store) && AheadOfKeys(st.store, p)
    ensures var m := st.store.members[p];
            var w0, e := World(Restarted(st), {}), JoinEvent(ANN, st.store.members[p].room, st.store.members[p].username, None);
            var next := Apply(w0, e).reg;
            && JoinPeer(w0.reg, m.room, m.username) == p && Online(next, {}, p)
            && p in next.store.members && next.store.members[p] == m && next.store.nextSeq == w0.reg.store.nextSeq
            && Find(Entries(next, ANN), m.room) == Some(ClientInfo(m.room, p, m.username, Group))
  {
    var m := st.store.members[p];
    var w0 := World(Restarted(st), {});
    assert Holds(w0.reg, p, m.room, m.username);
    HolderUnique(w0.reg, p, m.room, m.username);
    var next := Apply(w0, JoinEvent(ANN, m.room, m.username, None)).reg;
    assert next.clients[ANN] == [ClientInfo(m.room, p, m.username, Group)];
  }

  /** A member whose cursor is ahead misses the first broadcast even if it rejoins and speaks itself. */
  lemma AheadIsHidden(st: State, p: PeerId) returns (ws: seq<World>, es: seq<Event>)
    requires StoreInv(st.store) && NamesGiven(st.store) && AheadOfKeys(st.store, p)
    ensures Hidden(st, ws, es, p)
    ensures es[0].JoinEvent? && JoinPeer(ws[0].reg, es[0].room, es[0].username) == p && Online(ws[1].reg, {}, p)
  {
    var m := st.store.members[p];
    RejoinsAfterRestart(st, p);
    var w0 := World(Restarted(st), {});
    var e0, e1 := JoinEvent(ANN, m.room, m.username, None), BroadcastEvent(ANN, m.room, "hi");
    var w1 := Apply(w0, e0);
    OvertakenHides(w1, e1, p);
    ws, es := [w0, w1, Apply(w1, e1)], [e0, e1];
    assert Follows(ws, es, 0) && Follows(ws, es, 1);
  }

  lemma OvertakenHides(w: World, e: Event, p: PeerId)
    requires e.BroadcastEvent? && BroadcastError(w.reg, e.s, e.room).None? && p in MembersOf(w.reg.store, e.room)
    requires MemberAt(w, p).acked > w.reg.store.nextSeq
    ensures HidesFrom(w, e, p)
  {
    BroadcastStores(w, e);
  }

  /**
   * Some run after a restart hides a broadcast from a member that acknowledged nothing since exactly if some
   * member of a group room had a cursor above the largest stored key.
   */
  lemma RestartHidesIff(ws: seq<World>, es: seq<Event>, n: nat)
    requires IsRun(ws, es) && n < |ws|
    ensures (exists later, events, p :: Hidden(ws[n].reg, later, events, p)) <==> exists p :: AheadOfKeys(ws[n].reg.store, p)
  {
    var st := ws[n].reg;
    RunStaysGood(ws, es, n);
    RunGivesNames(ws, es, n);
    if later, events, p :| Hidden(st, later, events, p) {
      HiddenIsAhead(st, later, events, p);
    }
    if p :| AheadOfKeys(st.store, p) {
      var later, events := AheadIsHidden(st, p);
    }
  }

  // ---- concrete runs ----

  /** One member alone in a group room "g". */
  ghost function Alone(acked: Int64, messages: map<int, GroupMessage>, nextSeq: nat): State {
    State(Store(map["g" := Group], map[PeerName(1) := Member("ann", "g", acked)], messages, nextSeq),
          map[ANN := [ClientInfo("g", PeerName(1), "ann", Group)]],
          map[PeerName(1) := ANN],
          2)
  }

  lemma FirstJoin()
    ensures Apply(World(INITIAL, {}), JoinEvent(ANN, "g", "ann", Some(Group))) == World(Alone(0, map[], 0), {})
  {
    assert Holder(INITIAL, "g", "ann").None?;
    var next := Join(INITIAL, {}, ANN, "g", "ann", Some(Group));
    assert Prune(INITIAL, {}, "g", PeerName(1)) == map[];
    assert next.store.members == Alone(0, map[], 0).store.members;
    assert Entries(INITIAL, ANN) + [ClientInfo("g", PeerName(1), "ann", Group)] == [ClientInfo("g", PeerName(1), "ann", Group)];
    assert next.clients == Alone(0, map[], 0).clients;
    assert next == Alone(0, map[], 0);
  }

  lemma AnnSpeaks(acked: Int64, messages: map<int, GroupMessage>, nextSeq: nat)
    ensures Find(Entries(Alone(acked, messages, nextSeq), ANN), "g") == Some(ClientInfo("g", PeerName(1), "ann", Group))
    ensures MembersOf(Alone(acked, messages, nextSeq).store, "g") == {PeerName(1)}
  {
  }

  /** An acknowledgement may run ahead of the counter, and then a broadcast is kept although nobody needs it. */
  lemma GarbageIsPossible() returns (ws: seq<World>, es: seq<Event>)
    ensures IsRun(ws, es) && !Tidy(ws[|es|].reg.store)
  {
    var e0, e1, e2 := JoinEvent(ANN, "g", "ann", Some(Group)), AckEvent(ANN, "g", 5), BroadcastEvent(ANN, "g", "hi");
    var w0 := World(INITIAL, {});
    var w1, w2 := World(Alone(0, map[], 0), {}), World(Alone(5, map[], 0), {});
    FirstJoin();
    AnnSpeaks(0, map[], 0);
    AnnSpeaks(5, map[], 0);
    var acked := SetAcked(w1.reg.store, PeerName(1), 5);
    assert Cleanup(acked, "g").messages == map[];
    assert w2 == Apply(w1, e1);
    es := [e0, e1, e2];
    ws := ThreeSteps(w0, w1, w2, Apply(w2, e2), es);
    RunStaysGood(ws, es, 2);
    TidyStep(w2, e2);
    assert Overshot(w2, e2);
  }

  /** Ann receives and acknowledges a message, which is then cleaned up. */
  lemma AnnAcknowledges()
    ensures var stored := map[1 := GroupMessage("g", PeerName(1), "hi")];
            && Broadcast(Alone(0, map[], 0), {}, ANN, "g", "hi") == Alone(0, stored, 1)
            && Acknowledge(Alone(0, stored, 1), ANN, "g", 1) == Alone(1, map[], 1)
  {
    var stored := map[1 := GroupMessage("g", PeerName(1), "hi")];
    AnnSpeaks(0, map[], 0);
    AnnSpeaks(0, stored, 1);
    var acked := SetAcked(Alone(0, stored, 1).store, PeerName(1), 1);
    assert MembersOf(acked, "g") == {PeerName(1)};
    assert !Needed(acked, "g", 1);
    assert Cleanup(acked, "g").messages == map[];
  }

  /** Ann has acknowledged the one message there was. */
  lemma AnnIsAhead() returns (ws: seq<World>, es: seq<Event>)
    ensures IsRun(ws, es) && |es| == 3 && ws[3] == World(Alone(1, map[], 1), {})
    ensures forall j :: 0 <= j < |es| && es[j].AckEvent? ==> es[j].upTo <= ws[j].reg.store.nextSeq
  {
    es := [JoinEvent(ANN, "g", "ann", Some(Group)), BroadcastEvent(ANN, "g", "hi"), AckEvent(ANN, "g", 1)];
    var w1, w2 := World(Alone(0, map[], 0), {}), World(Alone(0, map[1 := GroupMessage("g", PeerName(1), "hi")], 1), {});
    FirstJoin();
    AnnAcknowledges();
    ws := ThreeSteps(World(INITIAL, {}), w1, w2, World(Alone(1, map[], 1), {}), es);
  }

  /**
   * A member that acknowledged only what it received can miss a message after a restart: its last message was
   * cleaned up, so the counter restarts below its cursor, and the next message is not buffered for it.
   */
  lemma RestartCanHideMessages() returns (ws: seq<World>, es: seq<Event>, later: seq<World>, events: seq<Event>)
    ensures IsRun(ws, es)
    ensures forall j :: 0 <= j < |es| && es[j].AckEvent? ==> es[j].upTo <= ws[j].reg.store.nextSeq
    ensures Hidden(ws[|es|].reg, later, events, PeerName(1))
  {
    ws, es := AnnIsAhead();
    var n := |es|;
    RunStaysGood(ws, es, n);
    RunGivesNames(ws, es, n);
    assert AheadOfKeys(ws[n].reg.store, PeerName(1));
    later, events := AheadIsHidden(ws[n].reg, PeerName(1));
  }

  /** After a restart the first newcomer to another room takes over a stored member's identifier. */
  lemma RestartCanReplaceMembers() returns (ws: seq<World>, es: seq<Event>, e: Event, p: PeerId)
    ensures IsRun(ws, es) && e.JoinEvent?
    ensures var w := World(Restarted(ws[|es|].reg), {});
            && JoinError(w.reg, {}, e.s, e.room, e.username, e.requested).None?
            && Present(w, p) && Present(Apply(w, e), p) && MemberAt(Apply(w, e), p).room != MemberAt(w, p).room
  {
    var e0 := JoinEvent(ANN, "g", "ann", Some(Group));
    e, p := JoinEvent(BOB, "h", "bob", Some(Group)), PeerName(1);
    var w0, w1 := World(INITIAL, {}), World(Alone(0, map[], 0), {});
    FirstJoin();
    ws, es := [w0, w1], [e0];
    assert Follows(ws, es, 0);
    var w := World(Restarted(w1.reg), {});
    assert "h" != "g";
    assert MembersOf(w.reg.store, "h") == {};
    assert Holder(w.reg, "h", "bob").None?;
    assert Present(w, p) && MemberAt(Apply(w, e), p).room == "h";
  }
}
