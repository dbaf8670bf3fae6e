/** Every registry operation keeps the registry invariant. */
module RegistryInvariant {
  import opened Domain
  import opened RoomStore
  import opened Registry

  // ---- joining ----

  ghost function SaveInRoom(store: Store, p: PeerId, m: Member, t: RoomType): Store {
    store.(rooms := store.rooms[m.room := t], members := store.members[p := m])
  }

  /** A saved member is the same pair as before, or a new pair that the room admits. */
  ghost predicate Admissible(store: Store, p: PeerId, m: Member, t: RoomType) {
    && (m.room in store.rooms ==> store.rooms[m.room] == t)
    && (p in store.members ==> store.members[p].room == m.room && store.members[p].username == m.username)
    && (p !in store.members ==>
      && (t == Direct ==> |MembersOf(store, m.room)| < 2)
      && forall o :: o in MembersOf(store, m.room) ==> store.members[o].username != m.username)
  }

  lemma SavedMembers(store: Store, p: PeerId, m: Member, t: RoomType, r: RoomId)
    requires Admissible(store, p, m, t)
    ensures MembersOf(SaveInRoom(store, p, m, t), r)
         == if r == m.room then MembersOf(store, r) + {p} else MembersOf(store, r)
  {
  }

  lemma SaveKeepsRooms(store: Store, p: PeerId, m: Member, t: RoomType)
    requires RoomsLive(store) && Admissible(store, p, m, t)
    ensures RoomsLive(SaveInRoom(store, p, m, t))
  {
    var next := SaveInRoom(store, p, m, t);
    forall x | x in next.rooms ensures MembersOf(next, x) != {} {
      SavedMembers(store, p, m, t, x);
    }
  }

  lemma SaveKeepsNames(store: Store, p: PeerId, m: Member, t: RoomType)
    requires NamesUnique(store) && Admissible(store, p, m, t)
    ensures NamesUnique(SaveInRoom(store, p, m, t))
  {
    var next := SaveInRoom(store, p, m, t);
    assert p !in store.members ==> forall o :: o in store.members && store.members[o].room == m.room
                                     ==> o in MembersOf(store, m.room);
  }

  lemma SaveKeepsCap(store: Store, p: PeerId, m: Member, t: RoomType)
    requires DirectCapped(store) && RoomsLive(store) && Admissible(store, p, m, t)
    ensures DirectCapped(SaveInRoom(store, p, m, t))
  {
    var next := SaveInRoom(store, p, m, t);
    forall x | x in next.rooms && next.rooms[x] == Direct ensures |MembersOf(next, x)| <= 2 {
      SavedMembers(store, p, m, t, x);
      if x == m.room {
        if p in store.members {
          assert MembersOf(next, x) == MembersOf(store, x);
        } else {
          assert |MembersOf(store, x) + {p}| <= |MembersOf(store, x)| + 1;
        }
      }
    }
  }

  lemma JoinKeepsStoreInv(st: State, dead: set<Session>, s: Session, r: RoomId, username: string,
                          requested: Option<RoomType>)
    requires Indexed(st, dead) && IdIsFree(st, r, username) && JoinError(st, dead, s, r, username, requested).None?
    ensures StoreInv(Join(st, dead, s, r, username, requested).store)
  {
    var p := JoinPeer(st, r, username);
    var t := TypeFor(st, r, requested);
    var store := Join(st, dead, s, r, username, requested).store;
    var m := store.members[p];
    JoinIsAdmissible(st, dead, s, r, username, requested);
    SaveKeepsRooms(st.store, p, m, t);
    SaveKeepsNames(st.store, p, m, t);
    SaveKeepsCap(st.store, p, m, t);
  }

  lemma JoinIsAdmissible(st: State, dead: set<Session>, s: Session, r: RoomId, username: string,
                         requested: Option<RoomType>)
    requires Indexed(st, dead) && IdIsFree(st, r, username) && JoinError(st, dead, s, r, username, requested).None?
    ensures var p := JoinPeer(st, r, username);
            var store := Join(st, dead, s, r, username, requested).store;
            Admissible(st.store, p, store.members[p], TypeFor(st, r, requested))
  {
    if Holder(st, r, username).None? {
      forall o | o in MembersOf(st.store, r) ensures st.store.members[o].username != username {
        assert Holds(st, o, r, username) == (st.store.members[o].username == username);
      }
    }
  }

  lemma JoinKeepsIds(st: State, dead: set<Session>, s: Session, r: RoomId, username: string,
                     requested: Option<RoomType>)
    requires IdsIssued(st) && JoinError(st, dead, s, r, username, requested).None?
    ensures IdsIssued(Join(st, dead, s, r, username, requested))
  {
    var next := Join(st, dead, s, r, username, requested);
    var p := JoinPeer(st, r, username);
    if Holder(st, r, username).None? {
      assert Issued(p, next.nextPeer);
    }
    forall o | o in next.store.members ensures Issued(o, next.nextPeer) {
      if o in st.store.members {
        IssuedGrows(o, st.nextPeer, next.nextPeer);
      }
    }
  }

  /** An entry that agreed before a join still agrees: the joining peer was not online. */
  lemma JoinKeepsEntry(st: State, dead: set<Session>, s: Session, r: RoomId, username: string,
                       requested: Option<RoomType>, t: Session, i: ClientInfo)
    requires JoinError(st, dead, s, r, username, requested).None? && IdIsFree(st, r, username)
    requires t !in dead && Agrees(st, t, i)
    requires Admissible(st.store, JoinPeer(st, r, username), Join(st, dead, s, r, username, requested).store.members[JoinPeer(st, r, username)],
                        TypeFor(st, r, requested))
    ensures Agrees(Join(st, dead, s, r, username, requested), t, i)
  {
    assert Online(st, dead, i.peer);
    assert i.peer != JoinPeer(st, r, username);
  }

  lemma JoinKeepsEntries(st: State, dead: set<Session>, s: Session, r: RoomId, username: string,
                         requested: Option<RoomType>)
    requires Indexed(st, dead) && s !in dead && IdIsFree(st, r, username) && JoinError(st, dead, s, r, username, requested).None?
    ensures EntriesAgree(Join(st, dead, s, r, username, requested), dead)
    ensures EntriesSingle(Join(st, dead, s, r, username, requested))
  {
    var next := Join(st, dead, s, r, username, requested);
    var p := JoinPeer(st, r, username);
    var info := ClientInfo(r, p, username, TypeFor(st, r, requested));
    assert next.clients == st.clients[s := Entries(st, s) + [info]];
    assert Agrees(next, s, info);
    JoinIsAdmissible(st, dead, s, r, username, requested);
    forall t, i | t in next.clients && t !in dead && i in next.clients[t] ensures Agrees(next, t, i) {
      if !(t == s && i == info) {
        assert i in Entries(st, t);
        assert Agrees(st, t, i);
        JoinKeepsEntry(st, dead, s, r, username, requested, t, i);
      }
    }
    AddedEntry(Entries(st, s), info);
  }

  lemma AddedEntry(entries: seq<ClientInfo>, info: ClientInfo)
    requires OneEntryPerRoom(entries) && Find(entries, info.room).None?
    ensures OneEntryPerRoom(entries + [info])
  {
  }

  lemma JoinKeepsConnections(st: State, dead: set<Session>, s: Session, r: RoomId, username: string,
                             requested: Option<RoomType>)
    requires Indexed(st, dead) && s !in dead && JoinError(st, dead, s, r, username, requested).None?
    ensures ConnectionsBacked(Join(st, dead, s, r, username, requested), dead)
  {
    var next := Join(st, dead, s, r, username, requested);
    var p := JoinPeer(st, r, username);
    var info := ClientInfo(r, p, username, TypeFor(st, r, requested));
    assert next.clients[s] == Entries(st, s) + [info];
    forall o | o in next.connections && next.connections[o] !in dead ensures SpeaksFor(next, next.connections[o], o) {
      if o == p {
        assert info in next.clients[s];
      } else {
        var t := st.connections[o];
        assert SpeaksFor(st, t, o);
        var i :| i in st.clients[t] && i.peer == o;
        assert i in next.clients[t];
      }
    }
  }

  lemma JoinKeepsInv(st: State, dead: set<Session>, s: Session, r: RoomId, username: string,
                     requested: Option<RoomType>)
    requires Indexed(st, dead) && s !in dead && IdIsFree(st, r, username)
    ensures Indexed(Join(st, dead, s, r, username, requested), dead)
    ensures IdsIssued(st) ==> IdsIssued(Join(st, dead, s, r, username, requested))
  {
    if JoinError(st, dead, s, r, username, requested).None? {
      JoinKeepsStoreInv(st, dead, s, r, username, requested);
      if IdsIssued(st) {
        JoinKeepsIds(st, dead, s, r, username, requested);
      }
      JoinKeepsEntries(st, dead, s, r, username, requested);
      JoinKeepsConnections(st, dead, s, r, username, requested);
    }
  }

  // ---- routing, broadcasting, acknowledging ----

  /** Removing members takes nothing away from the identifiers issued. */
  lemma FewerMembers(st: State, next: State)
    requires next.store.members.Keys <= st.store.members.Keys && next.nextPeer == st.nextPeer
    ensures IdsIssued(st) ==> IdsIssued(next)
  {
    if IdsIssued(st) {
      forall p | p in next.store.members ensures Issued(p, next.nextPeer) {
        assert p in st.store.members;
      }
    }
  }

  /** Dropping expired handles harms nothing. */
  lemma DropKeepsIndexed(st: State, dead: set<Session>, connections: map<PeerId, Session>)
    requires Indexed(st, dead)
    requires forall p :: p in connections ==> p in st.connections && connections[p] == st.connections[p]
    requires forall p :: p in st.connections && st.connections[p] !in dead ==> p in connections
    ensures Indexed(st.(connections := connections), dead)
  {
    var next := st.(connections := connections);
    forall s, i | s in next.clients && s !in dead && i in next.clients[s] ensures Agrees(next, s, i) {
      assert Agrees(st, s, i);
    }
    forall o | o in connections && connections[o] !in dead ensures SpeaksFor(next, connections[o], o) {
      assert SpeaksFor(st, connections[o], o);
    }
  }

  lemma RouteKeepsInv(st: State, dead: set<Session>, s: Session, r: RoomId, to: PeerId)
    requires Indexed(st, dead)
    ensures Indexed(Route(st, dead, s, r, to), dead)
    ensures IdsIssued(st) ==> IdsIssued(Route(st, dead, s, r, to))
  {
    FewerMembers(st, Route(st, dead, s, r, to));
    DropKeepsIndexed(st, dead, Route(st, dead, s, r, to).connections);
  }

  /** Changing only the messages of existing rooms, and raising the counter, harms nothing. */
  lemma MessagesKeepIndexed(st: State, dead: set<Session>, store: Store)
    requires Indexed(st, dead)
    requires store.members == st.store.members && store.rooms == st.store.rooms && SeqsAssigned(store)
    requires forall q :: q in store.messages ==> store.messages[q].room in st.store.rooms
    ensures Indexed(st.(store := store), dead)
  {
    forall r ensures MembersOf(store, r) == MembersOf(st.store, r) {
    }
    var next := st.(store := store);
    forall s, i | s in next.clients && s !in dead && i in next.clients[s] ensures Agrees(next, s, i) {
      assert Agrees(st, s, i);
    }
    forall p | p in next.connections && next.connections[p] !in dead ensures SpeaksFor(next, next.connections[p], p) {
      assert SpeaksFor(st, next.connections[p], p);
    }
  }

  lemma BroadcastKeepsInv(st: State, dead: set<Session>, s: Session, r: RoomId, payload: string)
    requires Indexed(st, dead) && s !in dead
    ensures Indexed(Broadcast(st, dead, s, r, payload), dead)
    ensures IdsIssued(st) ==> IdsIssued(Broadcast(st, dead, s, r, payload))
  {
    FewerMembers(st, Broadcast(st, dead, s, r, payload));
    if BroadcastError(st, s, r).None? {
      var info := Find(Entries(st, s), r).value;
      assert Agrees(st, s, info);
      DropKeepsIndexed(st, dead, Prune(st, dead, r, info.peer));
      var pruned := st.(connections := Prune(st, dead, r, info.peer));
      MessagesKeepIndexed(pruned, dead, SaveMessage(st.store, GroupMessage(r, info.peer, payload)));
    }
  }

  lemma SetAckedKeepsIndexed(st: State, dead: set<Session>, p: PeerId, upTo: Int64)
    requires Indexed(st, dead)
    ensures Indexed(st.(store := SetAcked(st.store, p, upTo)), dead)
  {
    var store := SetAcked(st.store, p, upTo);
    var next := st.(store := store);
    SetAckedKeepsStoreInv(st.store, p, upTo);
    forall t, i | t in next.clients && t !in dead && i in next.clients[t] ensures Agrees(next, t, i) {
      assert Agrees(st, t, i);
    }
    forall o | o in next.connections && next.connections[o] !in dead ensures SpeaksFor(next, next.connections[o], o) {
      assert SpeaksFor(st, next.connections[o], o);
    }
  }

  lemma AckedMembers(store: Store, p: PeerId, upTo: Int64, x: RoomId)
    ensures MembersOf(SetAcked(store, p, upTo), x) == MembersOf(store, x)
  {
  }

  lemma SetAckedKeepsStoreInv(store: Store, p: PeerId, upTo: Int64)
    requires StoreInv(store)
    ensures StoreInv(SetAcked(store, p, upTo))
  {
    var next := SetAcked(store, p, upTo);
    forall x | x in next.rooms ensures MembersOf(next, x) != {} && (next.rooms[x] == Direct ==> |MembersOf(next, x)| <= 2) {
      AckedMembers(store, p, upTo, x);
    }
  }

  lemma AcknowledgeKeepsInv(st: State, dead: set<Session>, s: Session, r: RoomId, upTo: Int64)
    requires Indexed(st, dead)
    ensures Indexed(Acknowledge(st, s, r, upTo), dead)
    ensures IdsIssued(st) ==> IdsIssued(Acknowledge(st, s, r, upTo))
  {
    FewerMembers(st, Acknowledge(st, s, r, upTo));
    var info := Find(Entries(st, s), r);
    if info.Some? {
      SetAckedKeepsIndexed(st, dead, info.value.peer, upTo);
      var acked := st.(store := SetAcked(st.store, info.value.peer, upTo));
      MessagesKeepIndexed(acked, dead, Cleanup(acked.store, r));
    }
  }

  // ---- leaving and disconnecting ----

  lemma LeaveMembers(store: Store, p: PeerId, r: RoomId, x: RoomId)
    requires p in store.members && store.members[p].room == r
    ensures LeaveStore(store, p, r).members == store.members - {p}
    ensures MembersOf(LeaveStore(store, p, r), x) == MembersOf(store, x) - {p}
  {
    var left := store.(members := store.members - {p});
    assert MembersOf(left, r) == {} ==> DropRoom(left, r).members == left.members;
  }

  lemma LeaveKeepsRooms(store: Store, p: PeerId, r: RoomId)
    requires RoomsLive(store) && p in store.members && store.members[p].room == r
    ensures RoomsLive(LeaveStore(store, p, r))
    ensures forall o :: o in store.members && o != p ==> store.members[o].room in LeaveStore(store, p, r).rooms
  {
    var left := store.(members := store.members - {p});
    var next := LeaveStore(store, p, r);
    LeaveMembers(store, p, r, r);
    forall o | o in store.members && o != p ensures store.members[o].room in next.rooms {
      if store.members[o].room == r {
        assert o in MembersOf(left, r);
      }
    }
    forall x | x in next.rooms ensures MembersOf(next, x) != {} {
      LeaveMembers(store, p, r, x);
      assert MembersOf(left, r) == MembersOf(next, r);
      if x != r {
        assert p !in MembersOf(store, x);
      }
    }
    forall q | q in next.messages ensures next.messages[q].room in next.rooms {
      assert q in store.messages && next.messages[q] == store.messages[q];
    }
  }

  lemma LeaveKeepsCap(store: Store, p: PeerId, r: RoomId)
    requires DirectCapped(store) && p in store.members && store.members[p].room == r
    ensures DirectCapped(LeaveStore(store, p, r))
  {
    var next := LeaveStore(store, p, r);
    forall x | x in next.rooms && next.rooms[x] == Direct ensures |MembersOf(next, x)| <= 2 {
      LeaveMembers(store, p, r, x);
      assert |MembersOf(store, x) - {p}| <= |MembersOf(store, x)|;
    }
  }

  lemma LeaveKeepsStoreInv(store: Store, p: PeerId, r: RoomId)
    requires StoreInv(store) && p in store.members && store.members[p].room == r
    ensures StoreInv(LeaveStore(store, p, r))
  {
    LeaveKeepsRooms(store, p, r);
    LeaveKeepsCap(store, p, r);
    LeaveMembers(store, p, r, r);
    assert NamesUnique(LeaveStore(store, p, r));
    assert SeqsAssigned(LeaveStore(store, p, r));
  }

  lemma LeaveKeepsInv(st: State, dead: set<Session>, s: Session, room: Option<RoomId>, peer: Option<PeerId>)
    requires Indexed(st, dead) && s !in dead
    ensures Indexed(Leave(st, dead, s, room, peer), dead)
    ensures IdsIssued(st) ==> IdsIssued(Leave(st, dead, s, room, peer))
  {
    FewerMembers(st, Leave(st, dead, s, room, peer));
    var entries := Entries(st, s);
    var k := MatchIndex(entries, room, peer);
    if k < |entries| {
      var info := entries[k];
      assert Agrees(st, s, info);
      LeaveKeepsStoreInv(st.store, info.peer, info.room);
      LeaveMembers(st.store, info.peer, info.room, info.room);
      LeaveKeepsIndexes(st, dead, s, k, Leave(st, dead, s, room, peer));
    }
  }

  /** What remains after one entry is removed. */
  lemma WithoutEntry(entries: seq<ClientInfo>, k: nat)
    requires k < |entries| && OneEntryPerRoom(entries)
    ensures var rest := entries[..k] + entries[k + 1..];
            OneEntryPerRoom(rest)
            && forall i :: i in rest <==> i in entries && i.room != entries[k].room
  {
    var rest := entries[..k] + entries[k + 1..];
    forall i | i in entries && i.room != entries[k].room ensures i in rest {
      var j :| 0 <= j < |entries| && entries[j] == i;
      assert i == if j < k then rest[j] else rest[j - 1];
    }
  }

  /** An entry of another peer still agrees after a member and its connection are removed. */
  lemma LeaveKeepsEntry(st: State, dead: set<Session>, p: PeerId, r: RoomId, next: State, t: Session, i: ClientInfo)
    requires RoomsLive(st.store) && p in st.store.members && st.store.members[p].room == r
    requires next.store == LeaveStore(st.store, p, r) && next.connections == Prune(st, dead, r, p) - {p}
    requires t !in dead && Agrees(st, t, i) && i.peer != p
    ensures Agrees(next, t, i)
  {
    LeaveMembers(st.store, p, r, r);
    LeaveKeepsRooms(st.store, p, r);
  }

  /** Removing one entry, its member and its connection leaves the indexes in agreement. */
  lemma LeaveKeepsIndexes(st: State, dead: set<Session>, s: Session, k: nat, next: State)
    requires Indexed(st, dead) && s !in dead && s in st.clients && k < |st.clients[s]|
    requires next == State(LeaveStore(st.store, st.clients[s][k].peer, st.clients[s][k].room),
                           st.clients[s := st.clients[s][..k] + st.clients[s][k + 1..]],
                           Prune(st, dead, st.clients[s][k].room, st.clients[s][k].peer) - {st.clients[s][k].peer},
                           st.nextPeer)
    ensures EntriesAgree(next, dead) && EntriesSingle(next) && ConnectionsBacked(next, dead)
  {
    var info := st.clients[s][k];
    assert Agrees(st, s, info);
    LeaveMembers(st.store, info.peer, info.room, info.room);
    WithoutEntry(st.clients[s], k);
    forall t, i | t in next.clients && t !in dead && i in next.clients[t] ensures Agrees(next, t, i) {
      assert i in st.clients[t];
      assert Agrees(st, t, i);
      assert i.peer != info.peer;
      LeaveKeepsEntry(st, dead, info.peer, info.room, next, t, i);
    }
    LeaveKeepsConnections(st, dead, s, k, next);
  }

  lemma LeaveKeepsConnections(st: State, dead: set<Session>, s: Session, k: nat, next: State)
    requires EntriesAgree(st, dead) && EntriesSingle(st) && ConnectionsBacked(st, dead)
    requires s !in dead && s in st.clients && k < |st.clients[s]|
    requires next.store.members == st.store.members - {st.clients[s][k].peer}
    requires next.clients == st.clients[s := st.clients[s][..k] + st.clients[s][k + 1..]]
    requires next.connections == Prune(st, dead, st.clients[s][k].room, st.clients[s][k].peer) - {st.clients[s][k].peer}
    ensures ConnectionsBacked(next, dead)
  {
    WithoutEntry(st.clients[s], k);
    var info := st.clients[s][k];
    assert Agrees(st, s, info);
    forall o | o in next.connections && next.connections[o] !in dead ensures SpeaksFor(next, next.connections[o], o) {
      var t := next.connections[o];
      assert SpeaksFor(st, t, o);
      var i :| i in st.clients[t] && i.peer == o;
      assert Agrees(st, t, i);
      if t == s {
        var j :| 0 <= j < |st.clients[s]| && st.clients[s][j] == i;
        assert j != k;
      }
      assert i in next.clients[t];
    }
  }

  lemma DisconnectKeepsInv(st: State, dead: set<Session>, s: Session)
    requires Indexed(st, dead) && s !in dead
    ensures Indexed(Disconnect(st, dead, s), dead)
    ensures IdsIssued(st) ==> IdsIssued(Disconnect(st, dead, s))
  {
    FewerMembers(st, Disconnect(st, dead, s));
    var next := Disconnect(st, dead, s);
    var entries := Entries(st, s);
    forall t, i | t in next.clients && t !in dead && i in next.clients[t] ensures Agrees(next, t, i) {
      assert Agrees(st, t, i);
      forall e | e in entries ensures e.peer != i.peer {
        assert Agrees(st, s, e);
      }
    }
    forall o | o in next.connections && next.connections[o] !in dead ensures SpeaksFor(next, next.connections[o], o) {
      var t := next.connections[o];
      assert SpeaksFor(st, t, o);
      var i :| i in st.clients[t] && i.peer == o;
      assert t == s ==> Severed(st, dead, entries, o);
    }
  }

  // ---- what survives restarts ----

  /** Tables are sound in every state of a server, whatever ids were handed out twice and whoever is connected. */
  lemma JoinKeepsTables(st: State, dead: set<Session>, s: Session, r: RoomId, username: string, requested: Option<RoomType>)
    requires TablesSound(st.store)
    ensures TablesSound(Join(st, dead, s, r, username, requested).store)
  {
    if JoinError(st, dead, s, r, username, requested).None? {
      HolderHolds(st, r, username);
      var next := Join(st, dead, s, r, username, requested).store;
      var p := JoinPeer(st, r, username);
      forall o | o in next.members && o != p && next.members[o].room == r ensures next.members[o].username != username {
        if Holder(st, r, username).None? {
          assert !Holds(st, o, r, username);
        } else {
          assert Holds(st, p, r, username);
        }
      }
    }
  }

  /** No session ever has two entries for one room. */
  lemma JoinKeepsSingle(st: State, dead: set<Session>, s: Session, r: RoomId, username: string, requested: Option<RoomType>)
    requires EntriesSingle(st)
    ensures EntriesSingle(Join(st, dead, s, r, username, requested))
  {
    if JoinError(st, dead, s, r, username, requested).None? {
      AddedEntry(Entries(st, s), ClientInfo(r, JoinPeer(st, r, username), username, TypeFor(st, r, requested)));
    }
  }

  lemma AcknowledgeKeepsTables(st: State, s: Session, r: RoomId, upTo: Int64)
    requires TablesSound(st.store)
    ensures TablesSound(Acknowledge(st, s, r, upTo).store)
  {
  }

  lemma LeaveKeepsTables(store: Store, p: PeerId, r: RoomId)
    requires TablesSound(store)
    ensures TablesSound(LeaveStore(store, p, r))
  {
    var left := store.(members := store.members - {p});
    forall o | o in left.members && MembersOf(left, r) == {} ensures left.members[o].room != r {
      assert o !in MembersOf(left, r);
    }
  }
}
