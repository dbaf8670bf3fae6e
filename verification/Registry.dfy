/** What the room registry's operations mean, and the invariant they keep. */
module Registry {
  import opened Domain
  import opened PeerIds
  import opened RoomStore

  /** The store together with the two in-memory indexes and the peer counter. */
  datatype State = State(
    store: Store,
    clients: map<Session, seq<ClientInfo>>,
    connections: map<PeerId, Session>,
    nextPeer: nat)

  const INITIAL := State(EMPTY_STORE, map[], map[], 1)

  const ERR_EMPTY := "roomId and username must be non-empty"
  const ERR_REJOIN := "session already joined this room"
  const ERR_TYPE := "room type mismatch"
  const ERR_NAME := "username already in use in this room"
  const ERR_FULL := "direct room supports at most 2 participants"
  const ERR_NOT_JOINED := "join room before signaling"
  const ERR_NOT_DIRECT := "offer/answer/ice-candidate are allowed only in direct rooms"
  const ERR_OFFLINE := "target peer is offline"
  const ERR_ELSEWHERE := "target peer is not in this room"
  const ERR_NOT_GROUP := "group message allowed only in group chats"
  const ERR_NO_ENTRY := "session is not in this room"
  const ERR_NO_ROOM := "session is not in any room"
  const ERR_NO_MATCH := "roomId/peerId does not match any active session room"

  // ---- reading the state ----

  function Entries(st: State, s: Session): seq<ClientInfo> {
    if s in st.clients then st.clients[s] else []
  }

  /** The first entry for a room. */
  function Find(entries: seq<ClientInfo>, r: RoomId): (info: Option<ClientInfo>)
    ensures info.Some? ==> info.value in entries && info.value.room == r
    ensures info.None? ==> forall i :: i in entries ==> i.room != r
  {
    if entries == [] then None
    else if entries[0].room == r then Some(entries[0])
    else Find(entries[1..], r)
  }

  ghost predicate Online(st: State, dead: set<Session>, p: PeerId) {
    p in st.connections && st.connections[p] !in dead
  }

  /** The members of a room, possibly without one, whose connection is alive. */
  ghost function OnlinePeers(st: State, dead: set<Session>, r: RoomId, except: Option<PeerId>): set<PeerId> {
    set p | p in MembersOf(st.store, r) && Some(p) != except && Online(st, dead, p)
  }

  /** Sessions listed in step with peers: the connections of exactly the room's online members, each member once. */
  ghost predicate Reaches(st: State, dead: set<Session>, r: RoomId, except: Option<PeerId>, ids: seq<PeerId>, list: seq<Session>) {
    && |ids| == |list| && Distinct(ids)
    && (forall p :: p in ids <==> p in OnlinePeers(st, dead, r, except))
    && (forall k :: 0 <= k < |ids| ==> ids[k] in st.connections && list[k] == st.connections[ids[k]])
  }

  ghost predicate Notifies(st: State, dead: set<Session>, r: RoomId, except: Option<PeerId>, list: seq<Session>) {
    exists ids :: Reaches(st, dead, r, except, ids, list)
  }

  /** The alive sessions that joined a room. */
  ghost function Audience(st: State, dead: set<Session>, r: RoomId): set<Session> {
    set s | s in st.clients && s !in dead && Find(st.clients[s], r).Some?
  }

  ghost predicate Holds(st: State, p: PeerId, r: RoomId, username: string) {
    p in MembersOf(st.store, r) && st.store.members[p].username == username
  }

  /** The member that owns a username in a room. */
  ghost function Holder(st: State, r: RoomId, username: string): Option<PeerId> {
    if exists p :: Holds(st, p, r, username) then
      var p :| Holds(st, p, r, username);
      Some(p)
    else None
  }

  // ---- what each operation does ----

  /** Looking up the peers of a room drops the handles found expired. */
  ghost function Prune(st: State, dead: set<Session>, r: RoomId, except: PeerId): map<PeerId, Session> {
    map p | p in st.connections && (p in MembersOf(st.store, r) && p != except ==> st.connections[p] !in dead)
      :: st.connections[p]
  }

  ghost function TypeFor(st: State, r: RoomId, requested: Option<RoomType>): RoomType {
    if r in st.store.rooms then st.store.rooms[r]
    else if requested.Some? then requested.value else Direct
  }

  ghost function JoinError(st: State, dead: set<Session>, s: Session, r: RoomId, username: string,
                           requested: Option<RoomType>): Option<string>
  {
    var holder := Holder(st, r, username);
    if r == "" || username == "" then Some(ERR_EMPTY)
    else if Find(Entries(st, s), r).Some? then Some(ERR_REJOIN)
    else if r in st.store.rooms && requested.Some? && requested.value != st.store.rooms[r] then Some(ERR_TYPE)
    else if holder.Some? && Online(st, dead, holder.value) then Some(ERR_NAME)
    else if holder.None? && TypeFor(st, r, requested) == Direct && |MembersOf(st.store, r)| >= 2 then Some(ERR_FULL)
    else None
  }

  ghost function JoinPeer(st: State, r: RoomId, username: string): PeerId {
    var holder := Holder(st, r, username);
    if holder.Some? then holder.value else PeerName(st.nextPeer)
  }

  ghost function Join(st: State, dead: set<Session>, s: Session, r: RoomId, username: string,
                      requested: Option<RoomType>): State
  {
    if JoinError(st, dead, s, r, username, requested).Some? then st
    else
      var roomType := TypeFor(st, r, requested);
      var holder := Holder(st, r, username);
      var p := JoinPeer(st, r, username);
      var acked: Int64 := if holder.Some? then st.store.members[p].acked else 0;
      State(
        st.store.(rooms := st.store.rooms[r := roomType], members := st.store.members[p := Member(username, r, acked)]),
        st.clients[s := Entries(st, s) + [ClientInfo(r, p, username, roomType)]],
        Prune(st, dead, r, p)[p := s],
        if holder.Some? then st.nextPeer else st.nextPeer + 1)
  }

  ghost function RouteError(st: State, dead: set<Session>, s: Session, r: RoomId, to: PeerId): Option<string> {
    var info := Find(Entries(st, s), r);
    if info.None? then Some(ERR_NOT_JOINED)
    else if info.value.roomType != Direct then Some(ERR_NOT_DIRECT)
    else if !Online(st, dead, to) then Some(ERR_OFFLINE)
    else if Find(Entries(st, st.connections[to]), r).None? then Some(ERR_ELSEWHERE)
    else None
  }

  ghost function Route(st: State, dead: set<Session>, s: Session, r: RoomId, to: PeerId): State {
    if RouteError(st, dead, s, r, to) == Some(ERR_OFFLINE) then st.(connections := st.connections - {to}) else st
  }

  ghost function BroadcastError(st: State, s: Session, r: RoomId): Option<string> {
    var info := Find(Entries(st, s), r);
    if info.None? then Some(ERR_NOT_JOINED)
    else if info.value.roomType != Group then Some(ERR_NOT_GROUP)
    else None
  }

  ghost function Broadcast(st: State, dead: set<Session>, s: Session, r: RoomId, payload: string): State {
    if BroadcastError(st, s, r).Some? then st
    else
      var from := Find(Entries(st, s), r).value.peer;
      st.(store := SaveMessage(st.store, GroupMessage(r, from, payload)), connections := Prune(st, dead, r, from))
  }

  ghost function Pending(st: State, p: PeerId): set<int> {
    if p in st.store.members then After(st.store, st.store.members[p].room, st.store.members[p].acked) else {}
  }

  ghost function Acknowledge(st: State, s: Session, r: RoomId, upTo: Int64): State {
    var info := Find(Entries(st, s), r);
    if info.None? then st
    else st.(store := Cleanup(SetAcked(st.store, info.value.peer, upTo), r))
  }

  /** The position of the first entry that passes the two optional checks, or the number of entries. */
  function MatchIndex(entries: seq<ClientInfo>, room: Option<RoomId>, peer: Option<PeerId>): (k: nat)
    ensures k <= |entries|
    ensures k < |entries| ==> Matches(entries[k], room, peer)
    ensures forall j :: 0 <= j < k ==> !Matches(entries[j], room, peer)
  {
    if entries == [] then 0
    else if Matches(entries[0], room, peer) then 0
    else 1 + MatchIndex(entries[1..], room, peer)
  }

  predicate Matches(i: ClientInfo, room: Option<RoomId>, peer: Option<PeerId>) {
    (room.Some? ==> room.value == i.room) && (peer.Some? ==> peer.value == i.peer)
  }

  ghost function LeaveStore(store: Store, p: PeerId, r: RoomId): Store {
    var left := store.(members := store.members - {p});
    if MembersOf(left, r) == {} then DropRoom(left, r) else Cleanup(left, r)
  }

  ghost function Leave(st: State, dead: set<Session>, s: Session, room: Option<RoomId>, peer: Option<PeerId>): State {
    var entries := Entries(st, s);
    var k := MatchIndex(entries, room, peer);
    if k == |entries| then st
    else
      var i := entries[k];
      State(LeaveStore(st.store, i.peer, i.room),
            st.clients[s := entries[..k] + entries[k + 1..]],
            Prune(st, dead, i.room, i.peer) - {i.peer},
            st.nextPeer)
  }

  /** Peers a disconnecting session spoke for, and expired handles met while notifying their rooms. */
  ghost predicate Severed(st: State, dead: set<Session>, entries: seq<ClientInfo>, p: PeerId) {
    exists i :: i in entries && (p == i.peer || (p in MembersOf(st.store, i.room) && p in st.connections && st.connections[p] in dead))
  }

  ghost function Disconnect(st: State, dead: set<Session>, s: Session): State {
    var entries := Entries(st, s);
    st.(clients := st.clients - {s},
        connections := map p | p in st.connections && !Severed(st, dead, entries, p) :: st.connections[p])
  }

  // ---- the invariant ----

  ghost predicate Issued(p: PeerId, n: nat) {
    exists k: nat :: 1 <= k < n && p == PeerName(k)
  }

  ghost predicate IdsIssued(st: State) {
    st.nextPeer >= 1 && forall p {:trigger Issued(p, st.nextPeer)} :: p in st.store.members ==> Issued(p, st.nextPeer)
  }

  /** Rooms exist exactly while they have members, and hold all stored messages. */
  ghost predicate RoomsLive(store: Store) {
    && (forall p :: p in store.members ==> store.members[p].room in store.rooms)
    && (forall r {:trigger MembersOf(store, r)} :: r in store.rooms ==> MembersOf(store, r) != {})
    && (forall q :: q in store.messages ==> store.messages[q].room in store.rooms)
  }

  ghost predicate NamesUnique(store: Store) {
    forall p, o {:trigger store.members[p].username, store.members[o].username} | p in store.members && o in store.members ::
      store.members[p].room == store.members[o].room && store.members[p].username == store.members[o].username
      ==> p == o
  }

  ghost predicate DirectCapped(store: Store) {
    forall r {:trigger MembersOf(store, r)} :: r in store.rooms && store.rooms[r] == Direct ==> |MembersOf(store, r)| <= 2
  }

  ghost predicate Agrees(st: State, s: Session, i: ClientInfo) {
    && i.peer in st.connections && st.connections[i.peer] == s
    && i.peer in st.store.members
    && st.store.members[i.peer].room == i.room
    && st.store.members[i.peer].username == i.username
    && i.room in st.store.rooms && st.store.rooms[i.room] == i.roomType
  }

  /** Every entry of an alive session agrees with the connection index and the store. */
  ghost predicate EntriesAgree(st: State, dead: set<Session>) {
    forall s, i {:trigger Agrees(st, s, i)} :: s in st.clients && s !in dead && i in st.clients[s] ==> Agrees(st, s, i)
  }

  ghost predicate OneEntryPerRoom(entries: seq<ClientInfo>) {
    forall j, k :: 0 <= j < k < |entries| ==> entries[j].room != entries[k].room
  }

  ghost predicate EntriesSingle(st: State) {
    forall s {:trigger OneEntryPerRoom(st.clients[s])} :: s in st.clients ==> OneEntryPerRoom(st.clients[s])
  }

  ghost predicate SpeaksFor(st: State, s: Session, p: PeerId) {
    s in st.clients && exists i :: i in st.clients[s] && i.peer == p
  }

  /** Every connection is a member's, and if alive some entry of that session speaks for it. */
  ghost predicate ConnectionsBacked(st: State, dead: set<Session>) {
    && (forall p :: p in st.connections ==> p in st.store.members)
    && (forall p {:trigger SpeaksFor(st, st.connections[p], p)} ::
          p in st.connections && st.connections[p] !in dead ==> SpeaksFor(st, st.connections[p], p))
  }

  ghost predicate StoreInv(store: Store) {
    RoomsLive(store) && NamesUnique(store) && DirectCapped(store) && SeqsAssigned(store)
  }

  /** What the tables alone promise, whoever was connected and whichever ids were given out: this survives restarts. */
  ghost predicate TablesSound(store: Store) {
    && (forall p :: p in store.members ==> store.members[p].room in store.rooms)
    && NamesUnique(store) && SeqsAssigned(store)
  }

  /** Store and both indexes agree. */
  ghost predicate Indexed(st: State, dead: set<Session>) {
    StoreInv(st.store) && EntriesAgree(st, dead) && EntriesSingle(st) && ConnectionsBacked(st, dead)
  }

  ghost predicate Inv(st: State, dead: set<Session>) {
    Indexed(st, dead) && IdsIssued(st)
  }

  /** The identifier a join would generate, if it needs one, is not stored yet. */
  ghost predicate IdIsFree(st: State, r: RoomId, username: string) {
    Holder(st, r, username).None? ==> PeerName(st.nextPeer) !in st.store.members
  }

  // ---- consequences ----

  /** In a valid state the owner of a username in a room is unique. */
  lemma HolderUnique(st: State, p: PeerId, r: RoomId, username: string)
    requires NamesUnique(st.store)
    requires Holds(st, p, r, username)
    ensures Holder(st, r, username) == Some(p)
  {
  }

  lemma HolderHolds(st: State, r: RoomId, username: string)
    ensures Holder(st, r, username).Some? ==> Holds(st, Holder(st, r, username).value, r, username)
  {
  }

  /** The k-th entry speaks for a peer, and no other entry does. */
  ghost predicate OnlyEntry(entries: seq<ClientInfo>, p: PeerId, k: int) {
    0 <= k < |entries| && entries[k].peer == p && forall j :: 0 <= j < |entries| && entries[j].peer == p ==> j == k
  }

  /** An alive connection is accounted for by exactly one entry of its session, which agrees with the store. */
  lemma ConnectionIsOneEntry(st: State, dead: set<Session>, p: PeerId)
    requires Indexed(st, dead) && Online(st, dead, p)
    ensures var s := st.connections[p];
            exists k :: OnlyEntry(Entries(st, s), p, k) && Agrees(st, s, Entries(st, s)[k])
  {
    var s := st.connections[p];
    assert SpeaksFor(st, s, p);
    var i :| i in st.clients[s] && i.peer == p;
    var k :| 0 <= k < |st.clients[s]| && st.clients[s][k] == i;
    forall j | 0 <= j < |st.clients[s]| && st.clients[s][j].peer == p ensures j == k {
      assert Agrees(st, s, st.clients[s][j]) && Agrees(st, s, i);
      assert OneEntryPerRoom(st.clients[s]);
    }
    assert OnlyEntry(Entries(st, s), p, k) && Agrees(st, s, Entries(st, s)[k]);
  }

  /** An alive session's peers in one room are one peer. */
  lemma SamePeer(st: State, dead: set<Session>, p: PeerId, o: PeerId, r: RoomId)
    requires Indexed(st, dead)
    requires p in MembersOf(st.store, r) && o in MembersOf(st.store, r)
    requires Online(st, dead, p) && Online(st, dead, o)
    requires st.connections[p] == st.connections[o]
    ensures p == o
  {
    var s := st.connections[p];
    assert SpeaksFor(st, s, p) && SpeaksFor(st, s, o);
    var i :| i in st.clients[s] && i.peer == p;
    var j :| j in st.clients[s] && j.peer == o;
    assert Agrees(st, s, i) && Agrees(st, s, j);
    assert OneEntryPerRoom(st.clients[s]);
  }

  /** The audience of a room, minus one peer's session, is what the other online members of that room connect to. */
  lemma AudienceIsOnline(st: State, dead: set<Session>, r: RoomId, except: Option<PeerId>, t: Session)
    requires Indexed(st, dead)
    ensures (exists p :: p in OnlinePeers(st, dead, r, except) && st.connections[p] == t)
       <==> t in Audience(st, dead, r) && Some(Find(st.clients[t], r).value.peer) != except
  {
    if p :| p in OnlinePeers(st, dead, r, except) && st.connections[p] == t {
      assert SpeaksFor(st, t, p);
      var i :| i in st.clients[t] && i.peer == p;
      assert Agrees(st, t, i);
      var f := Find(st.clients[t], r);
      assert f.Some?;
      assert Agrees(st, t, f.value);
      SamePeer(st, dead, p, f.value.peer, r);
    }
    if t in Audience(st, dead, r) && Some(Find(st.clients[t], r).value.peer) != except {
      var i := Find(st.clients[t], r).value;
      assert Agrees(st, t, i);
      assert i.peer in OnlinePeers(st, dead, r, except);
    }
  }

  /** A list of sessions that holds exactly a set, each session once. */
  ghost predicate Enumerates(list: seq<Session>, sessions: set<Session>) {
    Distinct(list) && forall t :: t in list <==> t in sessions
  }

  /** Whoever is reached through the online members of a room is the room's audience, each session once. */
  lemma FanoutIsAudience(st: State, dead: set<Session>, r: RoomId, except: Option<PeerId>, list: seq<Session>, audience: set<Session>)
    requires Indexed(st, dead) && Notifies(st, dead, r, except, list)
    requires forall t :: t in audience <==> t in Audience(st, dead, r) && Some(Find(st.clients[t], r).value.peer) != except
    ensures Enumerates(list, audience)
  {
    var ids :| Reaches(st, dead, r, except, ids, list);
    forall j, k | 0 <= j < k < |list| ensures list[j] != list[k] {
      assert ids[j] in ids && ids[k] in ids;
      if list[j] == list[k] {
        SamePeer(st, dead, ids[j], ids[k], r);
      }
    }
    forall t ensures t in list <==> t in audience {
      AudienceIsOnline(st, dead, r, except, t);
      if t in list {
        var k :| 0 <= k < |list| && list[k] == t;
        assert ids[k] in ids;
      }
      if t in audience {
        var p :| p in OnlinePeers(st, dead, r, except) && st.connections[p] == t;
        var k :| 0 <= k < |ids| && ids[k] == p;
        assert list[k] == t;
      }
    }
  }

  /** The room's audience without an actor is the audience without the actor's peer. */
  lemma AudienceWithoutActor(st: State, dead: set<Session>, r: RoomId, s: Session, t: Session)
    requires Indexed(st, dead) && s in Audience(st, dead, r)
    ensures t in Audience(st, dead, r) - {s}
       <==> t in Audience(st, dead, r) && Find(st.clients[t], r).value.peer != Find(st.clients[s], r).value.peer
  {
    if t in Audience(st, dead, r) {
      assert Agrees(st, s, Find(st.clients[s], r).value);
      assert Agrees(st, t, Find(st.clients[t], r).value);
    }
  }

  /** What an actor's room lookup reaches is the room's audience without the actor. */
  lemma ActorFanout(st: State, dead: set<Session>, r: RoomId, s: Session, list: seq<Session>)
    requires Indexed(st, dead) && s in Audience(st, dead, r)
    requires Notifies(st, dead, r, Some(Find(st.clients[s], r).value.peer), list)
    ensures Enumerates(list, Audience(st, dead, r) - {s})
  {
    forall t {
      AudienceWithoutActor(st, dead, r, s, t);
    }
    FanoutIsAudience(st, dead, r, Some(Find(st.clients[s], r).value.peer), list, Audience(st, dead, r) - {s});
  }

  /** What a lookup reaches that leaves out at most a peer that is offline is the room's whole audience. */
  lemma GreetingFanout(st: State, dead: set<Session>, r: RoomId, except: Option<PeerId>, list: seq<Session>)
    requires Indexed(st, dead) && Notifies(st, dead, r, except, list)
    requires except.Some? ==> !Online(st, dead, except.value)
    ensures Enumerates(list, Audience(st, dead, r))
  {
    forall t | t in Audience(st, dead, r) ensures Some(Find(st.clients[t], r).value.peer) != except {
      assert Agrees(st, t, Find(st.clients[t], r).value);
    }
    FanoutIsAudience(st, dead, r, except, list, Audience(st, dead, r));
  }

  /** The state after somebody new joined. */
  ghost function Newcomer(st: State, s: Session, r: RoomId, username: string, roomType: RoomType): State {
    var p := PeerName(st.nextPeer);
    State(st.store.(rooms := st.store.rooms[r := roomType], members := st.store.members[p := Member(username, r, 0)]),
          st.clients[s := Entries(st, s) + [ClientInfo(r, p, username, roomType)]],
          st.connections[p := s],
          st.nextPeer + 1)
  }

  /** While no handle is expired, an accepted join under a name nobody owns does just that. */
  lemma NewcomerJoins(st: State, s: Session, r: RoomId, username: string, requested: Option<RoomType>)
    requires Holder(st, r, username).None? && JoinError(st, {}, s, r, username, requested).None?
    ensures Join(st, {}, s, r, username, requested) == Newcomer(st, s, r, username, TypeFor(st, r, requested))
  {
    assert Prune(st, {}, r, PeerName(st.nextPeer)) == st.connections;
  }

  // ---- every operation keeps the invariant ----

  lemma InitialInv(dead: set<Session>)
    ensures Inv(INITIAL, dead)
  {
  }

  /** A handle may expire at any time. */
  lemma DieKeepsInv(st: State, dead: set<Session>, s: Session)
    requires Indexed(st, dead)
    ensures Indexed(st, dead + {s})
  {
  }

  lemma IssuedGrows(p: PeerId, m: nat, n: nat)
    requires Issued(p, m) && m <= n
    ensures Issued(p, n)
  {
  }

  /** The next generated identifier was never issued. */
  lemma NextIsFresh(st: State)
    requires IdsIssued(st)
    ensures PeerName(st.nextPeer) !in st.store.members
  {
    if PeerName(st.nextPeer) in st.store.members {
      assert Issued(PeerName(st.nextPeer), st.nextPeer);
      var k: nat :| 1 <= k < st.nextPeer && PeerName(st.nextPeer) == PeerName(k);
      PeerNameInjective(k, st.nextPeer);
    }
  }
}
