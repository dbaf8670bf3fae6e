/**
 * What the registry accepts and what it then changes, said of the tables and the two indexes themselves.
 * The texts, the limits and the conditions are written out here as clients meet them.
 */
module Operations {
  import opened Domain
  import opened PeerIds
  import opened RoomStore
  import opened Registry

  // ---- joining ----

  /** Somebody stored in the room has the name. */
  lemma HolderExists(st: State, r: RoomId, username: string)
    requires NamesUnique(st.store)
    ensures Holder(st, r, username).Some? <==>
      exists p :: p in st.store.members && st.store.members[p].room == r && st.store.members[p].username == username
    ensures forall p ::
      p in st.store.members && st.store.members[p].room == r && st.store.members[p].username == username ==> Holder(st, r, username) == Some(p)
    ensures Holder(st, r, username).Some? ==>
      var p := Holder(st, r, username).value;
      p in st.store.members && st.store.members[p].room == r && st.store.members[p].username == username
  {
    HolderHolds(st, r, username);
    forall p | p in st.store.members && st.store.members[p].room == r && st.store.members[p].username == username
      ensures Holder(st, r, username) == Some(p)
    {
      assert Holds(st, p, r, username);
    }
  }

  /**
   * A join is accepted exactly if room and name are given, the session has no entry for the room, the type fits, nobody
   * online has the name, and the name is stored already or the room is a group or has fewer than two members.
   */
  lemma JoinAcceptedIff(st: State, dead: set<Session>, s: Session, r: RoomId, username: string, requested: Option<RoomType>)
    requires NamesUnique(st.store)
    ensures JoinError(st, dead, s, r, username, requested).None? <==>
      && r != "" && username != ""
      && (s in st.clients ==> forall i :: i in st.clients[s] ==> i.room != r)
      && (r in st.store.rooms && requested.Some? ==> requested.value == st.store.rooms[r])
      && (forall p :: p in st.store.members && st.store.members[p].room == r && st.store.members[p].username == username
            ==> p !in st.connections || st.connections[p] in dead)
      && (|| (exists p :: p in st.store.members && st.store.members[p].room == r && st.store.members[p].username == username)
          || (if r in st.store.rooms then st.store.rooms[r] == Group else requested == Some(Group))
          || |set p | p in st.store.members && st.store.members[p].room == r| < 2)
  {
    HolderExists(st, r, username);
    assert MembersOf(st.store, r) == set p | p in st.store.members && st.store.members[p].room == r;
  }

  /** The first reason that applies is the one that is told. */
  lemma JoinRefusals(st: State, dead: set<Session>, s: Session, r: RoomId, username: string, requested: Option<RoomType>)
    requires NamesUnique(st.store)
    ensures var given := r != "" && username != "";
            var joined := s in st.clients && exists i :: i in st.clients[s] && i.room == r;
            var misfit := r in st.store.rooms && requested.Some? && requested.value != st.store.rooms[r];
            var error := JoinError(st, dead, s, r, username, requested);
            && (!given <==> error == Some("roomId and username must be non-empty"))
            && (given && joined <==> error == Some("session already joined this room"))
            && (given && !joined && misfit <==> error == Some("room type mismatch"))
            && (error.None? || error.value in {"roomId and username must be non-empty", "session already joined this room", "room type mismatch",
                  "username already in use in this room", "direct room supports at most 2 participants"})
    ensures JoinError(st, dead, s, r, username, requested) == Some("username already in use in this room") ==>
      exists p :: p in st.store.members && st.store.members[p].room == r && st.store.members[p].username == username
                  && p in st.connections && st.connections[p] !in dead
    ensures JoinError(st, dead, s, r, username, requested) == Some("direct room supports at most 2 participants") ==>
      forall p :: p in st.store.members && st.store.members[p].room == r ==> st.store.members[p].username != username
  {
    HolderExists(st, r, username);
  }

  /** What an accepted join changes, and that a refused one changes nothing. */
  lemma JoinEffect(st: State, dead: set<Session>, s: Session, r: RoomId, username: string, requested: Option<RoomType>)
    requires NamesUnique(st.store)
    ensures JoinError(st, dead, s, r, username, requested).Some? ==> Join(st, dead, s, r, username, requested) == st
    ensures JoinError(st, dead, s, r, username, requested).None? ==>
      var next, p := Join(st, dead, s, r, username, requested), JoinPeer(st, r, username);
      && p in next.store.members && next.store.members[p].username == username && next.store.members[p].room == r
      && (if exists o :: o in st.store.members && st.store.members[o].room == r && st.store.members[o].username == username
          then p in st.store.members && next.store.members[p] == st.store.members[p] && next.nextPeer == st.nextPeer
          else p == "peer" + Decimal(st.nextPeer) && next.store.members[p].acked == 0 && next.nextPeer == st.nextPeer + 1)
      && next.store.members == st.store.members[p := next.store.members[p]]
      && r in next.store.rooms && next.store.rooms == st.store.rooms[r := next.store.rooms[r]]
      && next.store.rooms[r] == (if r in st.store.rooms then st.store.rooms[r] else if requested == Some(Group) then Group else Direct)
      && next.store.messages == st.store.messages && next.store.nextSeq == st.store.nextSeq
      && next.clients == st.clients[s := (if s in st.clients then st.clients[s] else [])
                                           + [ClientInfo(r, p, username, next.store.rooms[r])]]
      && p in next.connections && next.connections[p] == s
      && (forall o :: o != p ==>
            (o in next.connections <==>
               o in st.connections && !(st.connections[o] in dead && o in st.store.members && st.store.members[o].room == r)))
      && (forall o :: o != p && o in next.connections ==> next.connections[o] == st.connections[o])
  {
    HolderExists(st, r, username);
  }

  // ---- routing ----

  /** A signal is delivered exactly if the sender is in the direct room and the named peer is connected to a session of that room. */
  lemma RouteDeliveredIff(st: State, dead: set<Session>, s: Session, r: RoomId, to: PeerId)
    requires s in st.clients ==> OneEntryPerRoom(st.clients[s])
    ensures RouteError(st, dead, s, r, to).None? <==>
      && s in st.clients && (exists i :: i in st.clients[s] && i.room == r && i.roomType == Direct)
      && to in st.connections && st.connections[to] !in dead
      && st.connections[to] in st.clients && (exists i :: i in st.clients[st.connections[to]] && i.room == r)
  {
    EntryOfRoom(st, s, r);
  }

  /** The entry found for a room is the only one there is. */
  lemma EntryOfRoom(st: State, s: Session, r: RoomId)
    requires s in st.clients ==> OneEntryPerRoom(st.clients[s])
    ensures forall i :: i in Entries(st, s) && i.room == r ==> Find(Entries(st, s), r) == Some(i)
  {
    forall i | i in Entries(st, s) && i.room == r ensures Find(Entries(st, s), r) == Some(i) {
      var f := Find(Entries(st, s), r).value;
      var j, k :| 0 <= j < |st.clients[s]| && 0 <= k < |st.clients[s]| && st.clients[s][j] == i && st.clients[s][k] == f;
    }
  }

  lemma RouteRefusals(st: State, dead: set<Session>, s: Session, r: RoomId, to: PeerId)
    ensures var joined := s in st.clients && exists i :: i in st.clients[s] && i.room == r;
            var online := to in st.connections && st.connections[to] !in dead;
            var error := RouteError(st, dead, s, r, to);
            && (!joined <==> error == Some("join room before signaling"))
            && (error == Some("offer/answer/ice-candidate are allowed only in direct rooms") ==>
                  s in st.clients && exists i :: i in st.clients[s] && i.room == r && i.roomType == Group)
            && (error == Some("target peer is offline") ==> !online)
            && (error == Some("target peer is not in this room") ==>
                  online && (st.connections[to] in st.clients ==> forall i :: i in st.clients[st.connections[to]] ==> i.room != r))
            && (error.None? || error.value in {"join room before signaling", "offer/answer/ice-candidate are allowed only in direct rooms",
                  "target peer is offline", "target peer is not in this room"})
  {
  }

  /** Routing changes nothing but that an expired handle it meets is forgotten. */
  lemma RouteEffect(st: State, dead: set<Session>, s: Session, r: RoomId, to: PeerId)
    ensures var next := Route(st, dead, s, r, to);
            && next.store == st.store && next.clients == st.clients && next.nextPeer == st.nextPeer
            && (next.connections == st.connections || (to in st.connections && st.connections[to] in dead && next.connections == st.connections - {to}))
    ensures RouteError(st, dead, s, r, to) == Some("target peer is offline") ==> to !in Route(st, dead, s, r, to).connections
  {
  }

  // ---- group messages ----

  lemma BroadcastAcceptedIff(st: State, s: Session, r: RoomId)
    requires s in st.clients ==> OneEntryPerRoom(st.clients[s])
    ensures BroadcastError(st, s, r).None? <==> s in st.clients && exists i :: i in st.clients[s] && i.room == r && i.roomType == Group
    ensures BroadcastError(st, s, r).Some? ==>
      BroadcastError(st, s, r).value ==
        if s in st.clients && exists i :: i in st.clients[s] && i.room == r then "group message allowed only in group chats"
        else "join room before signaling"
  {
    EntryOfRoom(st, s, r);
  }

  /** An accepted message is stored under the next number with its sender and payload, and nothing else is touched. */
  lemma BroadcastEffect(st: State, dead: set<Session>, s: Session, r: RoomId, payload: string, i: ClientInfo)
    requires s in st.clients && i in st.clients[s] && i.room == r && i.roomType == Group && OneEntryPerRoom(st.clients[s])
    ensures var next := Broadcast(st, dead, s, r, payload);
            && next.store == st.store.(messages := st.store.messages[st.store.nextSeq + 1 := GroupMessage(r, i.peer, payload)],
                                       nextSeq := st.store.nextSeq + 1)
            && next.clients == st.clients && next.nextPeer == st.nextPeer
            && (forall o :: o in next.connections <==>
                  o in st.connections
                  && !(o != i.peer && st.connections[o] in dead && o in st.store.members && st.store.members[o].room == r))
            && (forall o :: o in next.connections ==> next.connections[o] == st.connections[o])
  {
    EntryOfRoom(st, s, r);
  }

  /** What is buffered for a member: the messages of its room above its cursor. */
  lemma PendingMeans(st: State, p: PeerId, q: int)
    ensures q in Pending(st, p) <==>
      && p in st.store.members && q in st.store.messages
      && st.store.messages[q].room == st.store.members[p].room && q > st.store.members[p].acked
  {
  }

  /** An acknowledgement sets the cursor of the session's peer and drops the room's messages that no member is behind. */
  lemma AcknowledgeEffect(st: State, s: Session, r: RoomId, upTo: Int64, i: ClientInfo)
    requires s in st.clients && i in st.clients[s] && i.room == r && OneEntryPerRoom(st.clients[s])
    requires i.peer in st.store.members && st.store.members[i.peer].room == r
    ensures var next := Acknowledge(st, s, r, upTo);
            && next.clients == st.clients && next.connections == st.connections && next.nextPeer == st.nextPeer
            && next.store.rooms == st.store.rooms && next.store.nextSeq == st.store.nextSeq
            && next.store.members == st.store.members[i.peer := st.store.members[i.peer].(acked := upTo)]
            && (forall q :: q in next.store.messages <==>
                  q in st.store.messages
                  && (st.store.messages[q].room == r ==>
                        exists p :: p in next.store.members && next.store.members[p].room == r && next.store.members[p].acked < q))
            && (forall q :: q in next.store.messages ==> next.store.messages[q] == st.store.messages[q])
  {
    EntryOfRoom(st, s, r);
    var acked := SetAcked(st.store, i.peer, upTo);
    assert i.peer in MembersOf(acked, r);
    forall q ensures Needed(acked, r, q) <==> exists p :: p in acked.members && acked.members[p].room == r && acked.members[p].acked < q {
      if p :| p in acked.members && acked.members[p].room == r && acked.members[p].acked < q {
        assert p in MembersOf(acked, r);
      }
    }
  }

  lemma AcknowledgeRefused(st: State, s: Session, r: RoomId, upTo: Int64)
    requires s in st.clients ==> forall i :: i in st.clients[s] ==> i.room != r
    ensures Acknowledge(st, s, r, upTo) == st
  {
  }

  // ---- leaving and disconnecting ----

  /** A departure applies to the session's first entry that has the given room and peer, or to none. */
  lemma LeaveAcceptedIff(entries: seq<ClientInfo>, room: Option<RoomId>, peer: Option<PeerId>)
    ensures var k := MatchIndex(entries, room, peer);
            && (k < |entries| ==> (room.None? || entries[k].room == room.value) && (peer.None? || entries[k].peer == peer.value))
            && (k == |entries| ==> forall i :: i in entries ==> (room.Some? && i.room != room.value) || (peer.Some? && i.peer != peer.value))
            && (forall j :: 0 <= j < k ==> (room.Some? && entries[j].room != room.value) || (peer.Some? && entries[j].peer != peer.value))
  {
    var k := MatchIndex(entries, room, peer);
    forall j | 0 <= j < k ensures (room.Some? && entries[j].room != room.value) || (peer.Some? && entries[j].peer != peer.value) {
      assert !Matches(entries[j], room, peer);
    }
    if k < |entries| {
      assert Matches(entries[k], room, peer);
    }
  }

  /** A departed member is gone, its room with the last member, and of the room's messages those that nobody is behind. */
  lemma LeaveStoreEffect(store: Store, p: PeerId, r: RoomId)
    ensures var next := LeaveStore(store, p, r);
            var others := exists o :: o in store.members && o != p && store.members[o].room == r;
            && next.members == store.members - {p} && next.nextSeq == store.nextSeq
            && next.rooms == (if others then store.rooms else store.rooms - {r})
            && (forall q :: q in next.messages <==>
                  q in store.messages
                  && (store.messages[q].room == r ==>
                        exists o :: o in next.members && next.members[o].room == r && next.members[o].acked < q))
            && (forall q :: q in next.messages ==> next.messages[q] == store.messages[q])
  {
    var left := store.(members := store.members - {p});
    if o :| o in store.members && o != p && store.members[o].room == r {
      assert o in MembersOf(left, r);
    } else {
      assert MembersOf(left, r) == {};
      assert left.members - MembersOf(left, r) == left.members;
    }
    forall q ensures Needed(left, r, q) <==> exists o :: o in left.members && left.members[o].room == r && left.members[o].acked < q {
      if o :| o in left.members && left.members[o].room == r && left.members[o].acked < q {
        assert o in MembersOf(left, r);
      }
    }
  }

  /** A departure removes the entry and the connection; what it does to the tables is LeaveStoreEffect. */
  lemma LeaveEffect(st: State, dead: set<Session>, s: Session, room: Option<RoomId>, peer: Option<PeerId>, k: nat)
    requires s in st.clients && k < |st.clients[s]| && k == MatchIndex(st.clients[s], room, peer)
    ensures var next, i := Leave(st, dead, s, room, peer), st.clients[s][k];
            && next.store == LeaveStore(st.store, i.peer, i.room)
            && next.clients == st.clients[s := st.clients[s][..k] + st.clients[s][k + 1..]] && next.nextPeer == st.nextPeer
            && (forall o :: o in next.connections <==>
                  o in st.connections && o != i.peer
                  && !(st.connections[o] in dead && o in st.store.members && st.store.members[o].room == i.room))
            && (forall o :: o in next.connections ==> next.connections[o] == st.connections[o])
  {
  }

  /** A session that is gone leaves its memberships stored; its entries and connections go, and expired handles of its rooms. */
  lemma DisconnectEffect(st: State, dead: set<Session>, s: Session)
    ensures var next := Disconnect(st, dead, s);
            && next.store == st.store && next.nextPeer == st.nextPeer && next.clients == st.clients - {s}
            && (forall o :: o in next.connections ==> o in st.connections && next.connections[o] == st.connections[o])
            && (forall o :: o in st.connections ==>
                  (o !in next.connections <==>
                     s in st.clients
                     && exists i :: i in st.clients[s]
                                    && (i.peer == o || (st.connections[o] in dead && o in st.store.members && st.store.members[o].room == i.room))))
  {
    var next := Disconnect(st, dead, s);
    forall o | o in st.connections
      ensures o !in next.connections <==>
        s in st.clients
        && exists i :: i in st.clients[s]
                       && (i.peer == o || (st.connections[o] in dead && o in st.store.members && st.store.members[o].room == i.room))
    {
      assert o !in next.connections <==> Severed(st, dead, Entries(st, s), o);
    }
  }
}
