/** The room registry as the server runs it: indexes updated in place, one operation at a time. */
module RoomRegistry {
  import opened Domain
  import opened PeerIds
  import opened RoomStore
  import opened Registry
  import opened RegistryInvariant
  import opened Operations

  datatype JoinResult = JoinResult(
    ok: bool,
    error: string,
    roomId: RoomId,
    peerId: PeerId,
    roomType: RoomType,
    participants: seq<Participant>,
    peersToNotify: seq<Session>)

  datatype SignalRoute = SignalRoute(target: Session, fromPeerId: PeerId, roomId: RoomId)

  datatype BroadcastResult = BroadcastResult(recipients: seq<Session>, fromPeerId: PeerId, roomId: RoomId, messageSeq: int)

  /** What leave and disconnect report about one room. */
  datatype Departure = Departure(hadMembership: bool, roomId: RoomId, peerId: PeerId, peersToNotify: seq<Session>)

  datatype Outcome<+T> = Ok(value: T) | Err(error: string)

  const NO_JOIN := JoinResult(false, "", "", "", Direct, [], [])

  /**
   * Every method holds the registry's lock for its whole body. The parameter dead says which handles
   * have expired when the call runs: locking a weak handle fails exactly for those.
   */
  class RoomRegistry {
    const store: SqliteRoomStore
    var clients: map<Session, seq<ClientInfo>>
    var connections: map<PeerId, Session>
    var nextPeerSeq: nat

    ghost function Contents(): State
      reads this, store
    {
      State(store.Contents(), clients, connections, nextPeerSeq)
    }

    /** This holds from the moment a database is opened, also when it was written by an earlier run. */
    ghost predicate Valid()
      reads this, store
    {
      TablesSound(store.Contents()) && EntriesSingle(Contents())
    }

    constructor (store: SqliteRoomStore)
      ensures this.store == store && Contents() == State(store.Contents(), map[], map[], 1)
      ensures StoreInv(store.Contents()) ==> forall dead :: Indexed(Contents(), dead)
      ensures StoreInv(store.Contents()) ==> forall dead :: Inv(Contents(), dead) <==> store.Contents().members == map[]
    {
      this.store := store;
      clients, connections, nextPeerSeq := map[], map[], 1;
      new;
      if StoreInv(store.Contents()) && store.members != map[] {
        var p :| p in store.members;
        assert !Issued(p, 1);
      }
    }

    method GeneratePeerId() returns (id: PeerId)
      modifies this`nextPeerSeq
      ensures id == PeerName(old(nextPeerSeq)) && nextPeerSeq == old(nextPeerSeq) + 1
    {
      id := PeerName(nextPeerSeq);
      nextPeerSeq := nextPeerSeq + 1;
    }

    /** The position of the first entry that passes the checks, or the number of entries. */
    method FindEntry(entries: seq<ClientInfo>, room: Option<RoomId>, peer: Option<PeerId>) returns (k: nat)
      ensures k == MatchIndex(entries, room, peer)
    {
      k := 0;
      while k < |entries| && !Matches(entries[k], room, peer)
        invariant k <= |entries|
        invariant MatchIndex(entries, room, peer) == k + MatchIndex(entries[k..], room, peer)
      {
        k := k + 1;
      }
    }

    /** The session's entry for a room. */
    method FindClient(session: Session, roomId: RoomId) returns (info: Option<ClientInfo>)
      ensures info == Find(Entries(Contents(), session), roomId)
    {
      info := None;
      var entries := if session in clients then clients[session] else [];
      var k := 0;
      while k < |entries|
        invariant k <= |entries|
        invariant Find(entries, roomId) == Find(entries[k..], roomId)
      {
        if entries[k].room == roomId {
          return Some(entries[k]);
        }
        k := k + 1;
      }
    }

    /** The alive connections of a room's other members; expired handles are erased on the way. */
    method CollectOnlinePeers(dead: set<Session>, roomId: RoomId, excludePeerId: PeerId)
      returns (result: seq<Session>, ghost ids: seq<PeerId>)
      modifies this`connections
      ensures connections == Prune(old(Contents()), dead, roomId, excludePeerId)
      ensures Reaches(old(Contents()), dead, roomId, Some(excludePeerId), ids, result)
    {
      ghost var was := Contents();
      var members := store.FindMembersByRoom(roomId);
      result, ids := LookUp(dead, members, excludePeerId);
      GatheredIsReached(was, dead, roomId, Some(excludePeerId), members, ids, result, connections);
    }

    /** Looks up the connections of some members. */
    method LookUp(dead: set<Session>, members: seq<MemberRow>, excludePeerId: PeerId)
      returns (result: seq<Session>, ghost ids: seq<PeerId>)
      requires forall i, k :: 0 <= i < k < |members| ==> members[i].id != members[k].id
      modifies this`connections
      ensures Gathered(old(Contents()), dead, Some(excludePeerId), members, ids, result, connections)
    {
      result, ids := [], [];
      ghost var was := Contents();
      for j := 0 to |members|
        invariant Gathered(was, dead, Some(excludePeerId), members[..j], ids, result, connections)
      {
        var m := members[j].id;
        GatherNext(was, dead, Some(excludePeerId), members, j, ids, result, connections);
        if m == excludePeerId {
          continue;
        }
        if m in connections {
          if connections[m] !in dead {
            result, ids := result + [connections[m]], ids + [m];
          } else {
            connections := connections - {m};
          }
        }
      }
      assert members[..|members|] == members;
    }

    /** The type of an existing room, which must be the requested one, or a new room of that type. */
    method ResolveRoom(roomId: RoomId, requested: Option<RoomType>) returns (roomType: Option<RoomType>)
      modifies store
      ensures var was := old(Contents());
              if roomId in was.store.rooms && requested.Some? && requested.value != was.store.rooms[roomId]
              then roomType == None && Contents() == was
              else && roomType == Some(TypeFor(was, roomId, requested))
                   && Contents() == was.(store := was.store.(rooms := was.store.rooms[roomId := roomType.value]))
    {
      var roomOpt := store.FindRoom(roomId);
      if roomOpt.Some? {
        if requested.Some? && roomOpt.value != requested.value {
          return None;
        }
        assert Contents().store.rooms == Contents().store.rooms[roomId := roomOpt.value];
        return roomOpt;
      }
      var t := if requested.Some? then requested.value else Direct;
      store.SaveRoom(roomId, t);
      return Some(t);
    }

    /** The first member row with a username, if any. */
    method FindReturning(members: seq<MemberRow>, username: string) returns (existing: Option<MemberRow>)
      ensures existing.Some? ==> existing.value in members && existing.value.member.username == username
      ensures existing.None? ==> forall i :: 0 <= i < |members| ==> members[i].member.username != username
    {
      for j := 0 to |members|
        invariant forall i :: 0 <= i < j ==> members[i].member.username != username
      {
        if members[j].member.username == username {
          return Some(members[j]);
        }
      }
      return None;
    }

    /** Lists the online members of a room other than a returning one, with their connections. */
    method Greet(dead: set<Session>, members: seq<MemberRow>, returning: Option<PeerId>)
      returns (participants: seq<Participant>, peers: seq<Session>, ghost ids: seq<PeerId>)
      requires forall i, k :: 0 <= i < k < |members| ==> members[i].id != members[k].id
      modifies this`connections
      ensures Gathered(old(Contents()), dead, returning, members, ids, peers, connections)
      ensures |participants| == |ids| && forall k :: 0 <= k < |ids| ==> Introduces(members, ids[k], participants[k])
    {
      participants, peers, ids := [], [], [];
      ghost var was := Contents();
      for j := 0 to |members|
        invariant Gathered(was, dead, returning, members[..j], ids, peers, connections)
        invariant |participants| == |ids| && forall k :: 0 <= k < |ids| ==> Introduces(members, ids[k], participants[k])
      {
        var m := members[j].id;
        GatherNext(was, dead, returning, members, j, ids, peers, connections);
        if Some(m) == returning {
          continue;
        }
        if m in connections {
          if connections[m] !in dead {
            participants := participants + [Participant(m, members[j].member.username)];
            peers, ids := peers + [connections[m]], ids + [m];
          } else {
            connections := connections - {m};
          }
        }
      }
      assert members[..|members|] == members;
    }

    /** Joins a session to a room, creating the room, or taking back an offline member's place in it. */
    method Join(dead: set<Session>, session: Session, roomId: RoomId, username: string, requested: Option<RoomType>)
      returns (out: JoinResult)
      requires Valid() && session !in dead
      modifies this, store
      ensures Valid()
      ensures Contents() == Registry.Join(old(Contents()), dead, session, roomId, username, requested)
      ensures var error := JoinError(old(Contents()), dead, session, roomId, username, requested);
              out.ok == error.None? && (error.Some? ==> out.error == error.value && Contents() == old(Contents()))
      ensures out.ok ==> Welcomes(old(Contents()), dead, roomId, username, requested, out)
      ensures out.ok && old(Indexed(Contents(), dead)) ==> Enumerates(out.peersToNotify, Audience(old(Contents()), dead, roomId))
      ensures var members, rooms, online := old(store.members), old(store.rooms), old(connections);
              out.ok <==>
                && roomId != "" && username != ""
                && (session in old(clients) ==> forall i :: i in old(clients)[session] ==> i.room != roomId)
                && (roomId in rooms && requested.Some? ==> requested.value == rooms[roomId])
                && (forall p :: p in members && members[p].room == roomId && members[p].username == username
                      ==> p !in online || online[p] in dead)
                && (|| (exists p :: p in members && members[p].room == roomId && members[p].username == username)
                    || (if roomId in rooms then rooms[roomId] == Group else requested == Some(Group))
                    || |set p | p in members && members[p].room == roomId| < 2)
      ensures out.ok ==>
        && out.roomId == roomId && roomId in store.rooms && store.rooms[roomId] == out.roomType
        && out.roomType == (if roomId in old(store.rooms) then old(store.rooms)[roomId] else if requested == Some(Group) then Group else Direct)
        && out.peerId in connections && connections[out.peerId] == session
        && out.peerId in store.members && store.members[out.peerId].room == roomId && store.members[out.peerId].username == username
        && clients == old(clients)[session := (if session in old(clients) then old(clients)[session] else [])
                                                + [ClientInfo(roomId, out.peerId, username, out.roomType)]]
      ensures forall p :: out.ok && p in old(store.members) && old(store.members)[p].room == roomId && old(store.members)[p].username == username
                ==> out.peerId == p && store.members == old(store.members)
    {
      ghost var was := Contents();
      JoinKeepsTables(was, dead, session, roomId, username, requested);
      JoinKeepsSingle(was, dead, session, roomId, username, requested);
      JoinAcceptedIff(was, dead, session, roomId, username, requested);
      JoinEffect(was, dead, session, roomId, username, requested);
      out := Attempt(dead, session, roomId, username, requested);
      WelcomeFanout(was, dead, session, roomId, username, requested, out);
    }

    /** Checks in order what a join needs, and enters the room. */
    method Attempt(dead: set<Session>, session: Session, roomId: RoomId, username: string, requested: Option<RoomType>)
      returns (out: JoinResult)
      requires TablesSound(store.Contents())
      modifies this, store
      ensures Contents() == Registry.Join(old(Contents()), dead, session, roomId, username, requested)
      ensures var error := JoinError(old(Contents()), dead, session, roomId, username, requested);
              out.ok == error.None? && (error.Some? ==> out.error == error.value && Contents() == old(Contents()))
      ensures out.ok ==> Welcomes(old(Contents()), dead, roomId, username, requested, out)
    {
      ghost var was := Contents();
      if roomId == "" || username == "" {
        return NO_JOIN.(error := ERR_EMPTY);
      }
      var already := FindClient(session, roomId);
      if already.Some? {
        return NO_JOIN.(error := ERR_REJOIN);
      }
      var roomType := ResolveRoom(roomId, requested);
      if roomType.None? {
        return NO_JOIN.(error := ERR_TYPE);
      }

      out := Enter(dead, session, roomId, username, requested, roomType.value, was);
    }

    /** Looks for a place in the resolved room and, if there is one, takes it. */
    method Enter(dead: set<Session>, session: Session, roomId: RoomId, username: string, ghost requested: Option<RoomType>,
                 roomType: RoomType, ghost was: State)
      returns (out: JoinResult)
      requires TablesSound(was.store) && roomId != "" && username != "" && Find(Entries(was, session), roomId).None?
      requires roomId in was.store.rooms && requested.Some? ==> requested.value == was.store.rooms[roomId]
      requires roomType == TypeFor(was, roomId, requested)
      requires Contents() == was.(store := was.store.(rooms := was.store.rooms[roomId := roomType]))
      modifies this, store
      ensures Contents() == Registry.Join(was, dead, session, roomId, username, requested)
      ensures var error := JoinError(was, dead, session, roomId, username, requested);
              out.ok == error.None? && (error.Some? ==> out.error == error.value)
      ensures out.ok ==> Welcomes(was, dead, roomId, username, requested, out)
    {
      var error, members, existing := FindPlace(dead, roomId, username, roomType, was);
      assert error == JoinError(was, dead, session, roomId, username, requested);
      if error.Some? {
        assert roomId in was.store.rooms;
        return NO_JOIN.(error := error.value);
      }
      out := Admit(dead, session, roomId, username, roomType, members, existing, was);
    }

    /** The username's own place, if it is offline, or a new one, if the room has one left. */
    method FindPlace(dead: set<Session>, roomId: RoomId, username: string, roomType: RoomType, ghost was: State)
      returns (error: Option<string>, members: seq<MemberRow>, existing: Option<MemberRow>)
      requires TablesSound(was.store) && (roomId in was.store.rooms ==> was.store.rooms[roomId] == roomType)
      requires Contents() == was.(store := was.store.(rooms := was.store.rooms[roomId := roomType]))
      ensures ListsMembers(was.store, roomId, members)
      ensures Holder(was, roomId, username) == if existing.Some? then Some(existing.value.id) else None
      ensures existing.Some? ==> existing.value in members
      ensures error ==
        if existing.Some? && Online(was, dead, existing.value.id) then Some(ERR_NAME)
        else if existing.None? && roomType == Direct && |MembersOf(was.store, roomId)| >= 2 then Some(ERR_FULL)
        else None
      ensures error.Some? ==> roomId in was.store.rooms
    {
      members := store.FindMembersByRoom(roomId);
      SameRows(store.Contents(), was.store, roomId, members);
      RowCount(MembersOf(was.store, roomId), members);
      NewRoomIsEmpty(was.store, roomId, roomType);
      existing := FindReturning(members, username);
      HolderFound(was, roomId, username, members, existing);
      if existing.Some? && existing.value.id in connections && connections[existing.value.id] !in dead {
        return Some(ERR_NAME), members, existing;
      }
      if existing.None? && roomType == Direct && |members| >= 2 {
        return Some(ERR_FULL), members, existing;
      }
      return None, members, existing;
    }

    /** Greets the room, saves the member and registers the session. */
    method Admit(dead: set<Session>, session: Session, roomId: RoomId, username: string, roomType: RoomType,
                 members: seq<MemberRow>, existing: Option<MemberRow>, ghost was: State)
      returns (out: JoinResult)
      requires ListsMembers(was.store, roomId, members)
      requires Contents() == was.(store := was.store.(rooms := was.store.rooms[roomId := roomType]))
      requires Holder(was, roomId, username) == if existing.Some? then Some(existing.value.id) else None
      requires existing.Some? ==> existing.value in members
      modifies this, store
      ensures out.ok && out.roomId == roomId && out.roomType == roomType
      ensures out.peerId == JoinPeer(was, roomId, username)
      ensures Notifies(was, dead, roomId, Holder(was, roomId, username), out.peersToNotify)
      ensures |out.participants| == |out.peersToNotify|
      ensures forall k :: 0 <= k < |out.participants| ==> Names(was, roomId, out.participants[k], out.peersToNotify[k])
      ensures store.Contents() == was.store.(rooms := was.store.rooms[roomId := roomType],
                members := was.store.members[out.peerId := Member(username, roomId, if existing.Some? then existing.value.member.acked else 0)])
      ensures clients == was.clients[session := Entries(was, session) + [ClientInfo(roomId, out.peerId, username, roomType)]]
      ensures connections == Prune(was, dead, roomId, out.peerId)[out.peerId := session]
      ensures nextPeerSeq == if existing.Some? then was.nextPeer else was.nextPeer + 1
    {
      var returning := if existing.Some? then Some(existing.value.id) else None;
      var participants, peers;
      ghost var ids;
      participants, peers, ids := Greet(dead, members, returning);
      GatheredIsReached(was, dead, roomId, returning, members, ids, peers, connections);
      IntroducedByName(was, roomId, members, ids, participants, peers);

      var peerId;
      if existing.Some? {
        peerId := existing.value.id;
        store.SaveMember(peerId, Member(username, roomId, existing.value.member.acked));
      } else {
        peerId := GeneratePeerId();
        store.SaveMember(peerId, Member(username, roomId, 0));
      }
      var entries := if session in clients then clients[session] else [];
      clients := clients[session := entries + [ClientInfo(roomId, peerId, username, roomType)]];
      GreetingPrunes(was, dead, roomId, username, members, connections, session);
      connections := connections[peerId := session];
      out := JoinResult(true, "", roomId, peerId, roomType, participants, peers);
    }

    /** Finds the session a signal must be forwarded to. */
    method Route(dead: set<Session>, sender: Session, roomId: RoomId, toPeerId: PeerId) returns (out: Outcome<SignalRoute>)
      requires Valid() && sender !in dead
      modifies this`connections
      ensures Valid()
      ensures Contents() == Registry.Route(old(Contents()), dead, sender, roomId, toPeerId)
      ensures var was := old(Contents());
              match RouteError(was, dead, sender, roomId, toPeerId)
              case Some(e) => out == Err(e)
              case None => out == Ok(SignalRoute(was.connections[toPeerId], Find(Entries(was, sender), roomId).value.peer, roomId))
      ensures out.Ok? <==>
        && sender in clients && (exists i :: i in clients[sender] && i.room == roomId && i.roomType == Direct)
        && toPeerId in old(connections) && old(connections)[toPeerId] !in dead
        && old(connections)[toPeerId] in clients && (exists i :: i in clients[old(connections)[toPeerId]] && i.room == roomId)
      ensures out.Ok? ==>
        && out.value.target == old(connections)[toPeerId] && out.value.roomId == roomId && connections == old(connections)
        && forall i :: i in clients[sender] && i.room == roomId ==> out.value.fromPeerId == i.peer
    {
      ghost var was := Contents();
      RouteDeliveredIff(was, dead, sender, roomId, toPeerId);
      EntryOfRoom(was, sender, roomId);
      var info := FindClient(sender, roomId);
      if info.None? {
        return Err(ERR_NOT_JOINED);
      }
      if info.value.roomType != Direct {
        return Err(ERR_NOT_DIRECT);
      }
      if toPeerId !in connections {
        assert connections - {toPeerId} == connections;
        return Err(ERR_OFFLINE);
      }
      var target := connections[toPeerId];
      if target in dead {
        connections := connections - {toPeerId};
        return Err(ERR_OFFLINE);
      }
      var targetInfo := FindClient(target, roomId);
      if targetInfo.None? {
        return Err(ERR_ELSEWHERE);
      }
      return Ok(SignalRoute(target, info.value.peer, roomId));
    }

    /** Stores a group message and names the sessions that must receive it live. */
    method Broadcast(dead: set<Session>, sender: Session, roomId: RoomId, payload: string)
      returns (out: Outcome<BroadcastResult>)
      requires Valid() && sender !in dead
      modifies this`connections, store
      ensures Valid()
      ensures Contents() == Registry.Broadcast(old(Contents()), dead, sender, roomId, payload)
      ensures var was := old(Contents());
              match BroadcastError(was, sender, roomId)
              case Some(e) => out == Err(e)
              case None =>
                && out.Ok? && out.value.roomId == roomId
                && out.value.fromPeerId == Find(Entries(was, sender), roomId).value.peer
                && out.value.messageSeq == was.store.nextSeq + 1
                && Notifies(was, dead, roomId, Some(out.value.fromPeerId), out.value.recipients)
                && (Indexed(was, dead) ==> Enumerates(out.value.recipients, Audience(was, dead, roomId) - {sender}))
      ensures out.Ok? <==> sender in clients && exists i :: i in clients[sender] && i.room == roomId && i.roomType == Group
      ensures out.Ok? ==> forall i :: i in clients[sender] && i.room == roomId ==>
        && out.value.fromPeerId == i.peer && out.value.messageSeq == old(store.nextSeq) + 1
        && store.Contents() == old(store.Contents()).(messages := old(store.messages)[old(store.nextSeq) + 1 := GroupMessage(roomId, i.peer, payload)],
                                                      nextSeq := old(store.nextSeq) + 1)
    {
      ghost var was := Contents();
      BroadcastAcceptedIff(was, sender, roomId);
      EntryOfRoom(was, sender, roomId);
      var info := FindClient(sender, roomId);
      if info.None? {
        return Err(ERR_NOT_JOINED);
      }
      if info.value.roomType != Group {
        return Err(ERR_NOT_GROUP);
      }
      var from := info.value.peer;
      var recipients, seqNo := Publish(dead, sender, roomId, from, payload);
      return Ok(BroadcastResult(recipients, from, roomId, seqNo));
    }

    /** Stores a message of a peer and looks up whom to send it to. */
    method Publish(dead: set<Session>, ghost sender: Session, roomId: RoomId, from: PeerId, payload: string)
      returns (recipients: seq<Session>, seqNo: int)
      modifies this`connections, store
      ensures store.Contents() == SaveMessage(old(store.Contents()), GroupMessage(roomId, from, payload))
      ensures seqNo == old(store.nextSeq) + 1 && connections == Prune(old(Contents()), dead, roomId, from)
      ensures Notifies(old(Contents()), dead, roomId, Some(from), recipients)
      ensures var was := old(Contents());
              Indexed(was, dead) && sender in Audience(was, dead, roomId) && Find(was.clients[sender], roomId).value.peer == from
              ==> Enumerates(recipients, Audience(was, dead, roomId) - {sender})
    {
      ghost var was := Contents();
      seqNo := store.SaveGroupMessage(GroupMessage(roomId, from, payload));
      ghost var saved := Contents();
      SameMembersSameLookup(was, saved, dead, roomId, from);
      ghost var ids;
      recipients, ids := CollectOnlinePeers(dead, roomId, from);
      assert Reaches(was, dead, roomId, Some(from), ids, recipients);
      if Indexed(was, dead) && sender in Audience(was, dead, roomId) && Find(was.clients[sender], roomId).value.peer == from {
        ActorFanout(was, dead, roomId, sender, recipients);
      }
    }

    /** The stored messages of a member's room above its cursor, in ascending order. */
    method GetPendingMessages(memberId: PeerId) returns (result: seq<MessageRow>)
      ensures forall i :: 0 <= i < |result| ==>
        result[i].seqNo in Pending(Contents(), memberId) && result[i].message == store.messages[result[i].seqNo]
      ensures forall i :: 0 <= i < |result| ==>
        && memberId in store.members
        && result[i].message.room == store.members[memberId].room && result[i].seqNo > store.members[memberId].acked
      ensures forall q :: q in Pending(Contents(), memberId) ==> exists i :: 0 <= i < |result| && result[i].seqNo == q
      ensures forall i, j :: 0 <= i < j < |result| ==> result[i].seqNo < result[j].seqNo
    {
      var member := store.FindMember(memberId);
      if member.None? {
        return [];
      }
      result := store.GetMessagesAfter(member.value.room, member.value.acked);
    }

    /** Moves the session's cursor in a room to wherever it says, then drops what nobody needs. */
    method AcknowledgeMessages(ghost dead: set<Session>, session: Session, roomId: RoomId, upToSeq: Int64)
      returns (error: Option<string>)
      requires Valid() && session !in dead
      modifies store
      ensures Valid()
      ensures Contents() == Acknowledge(old(Contents()), session, roomId, upToSeq)
      ensures error == if session in Audience(old(Contents()), dead, roomId) then None else Some(ERR_NO_ENTRY)
      ensures error.None? <==> session in clients && exists i :: i in clients[session] && i.room == roomId
      ensures error.Some? ==> error.value == "session is not in this room" && store.Contents() == old(store.Contents())
      ensures forall i ::
        (session in clients && i in clients[session] && i.room == roomId && i.peer in old(store.members) && old(store.members)[i.peer].room == roomId) ==>
        && store.members == old(store.members)[i.peer := old(store.members)[i.peer].(acked := upToSeq)]
        && forall q :: q in store.messages <==>
             q in old(store.messages)
             && (old(store.messages)[q].room == roomId ==>
                   exists p :: p in store.members && store.members[p].room == roomId && store.members[p].acked < q)
    {
      ghost var was := Contents();
      forall i | session in clients && i in clients[session] && i.room == roomId && i.peer in store.members
                 && store.members[i.peer].room == roomId {
        AcknowledgeEffect(was, session, roomId, upToSeq, i);
      }
      AcknowledgeKeepsTables(was, session, roomId, upToSeq);
      var info := FindClient(session, roomId);
      if info.None? {
        return Some(ERR_NO_ENTRY);
      }
      store.UpdateLastAckedSeq(info.value.peer, upToSeq);
      store.CleanupMessages(roomId);
      return None;
    }

    /** Ends a membership: the member, its connection and its entry go, and the room with the last member. */
    method Leave(dead: set<Session>, session: Session, roomIdCheck: Option<RoomId>, peerIdCheck: Option<PeerId>)
      returns (out: Outcome<Departure>)
      requires Valid() && session !in dead
      modifies this, store
      ensures Valid()
      ensures Contents() == Registry.Leave(old(Contents()), dead, session, roomIdCheck, peerIdCheck)
      ensures var was := old(Contents());
              var entries := Entries(was, session);
              var k := MatchIndex(entries, roomIdCheck, peerIdCheck);
              if k == |entries| then out == Err(if entries == [] then ERR_NO_ROOM else ERR_NO_MATCH)
              else
                && out.Ok? && Parts(was, dead, entries[k], out.value)
                && (Indexed(was, dead) ==> Enumerates(out.value.peersToNotify, Audience(was, dead, entries[k].room) - {session}))
      ensures out.Ok? <==>
        && session in old(clients)
        && exists i ::
             i in old(clients)[session] && (roomIdCheck.None? || i.room == roomIdCheck.value) && (peerIdCheck.None? || i.peer == peerIdCheck.value)
      ensures out.Err? ==>
        && Contents() == old(Contents())
        && out.error == if session !in old(clients) || old(clients)[session] == [] then "session is not in any room"
                        else "roomId/peerId does not match any active session room"
      ensures out.Ok? ==>
        && (roomIdCheck.None? || out.value.roomId == roomIdCheck.value) && (peerIdCheck.None? || out.value.peerId == peerIdCheck.value)
        && out.value.peerId !in connections && store.members == old(store.members) - {out.value.peerId}
        && session in clients && (forall i :: i in clients[session] <==> i in old(clients)[session] && i.room != out.value.roomId)
    {
      ghost var was := Contents();
      LeaveAcceptedIff(Entries(was, session), roomIdCheck, peerIdCheck);
      var entries := if session in clients then clients[session] else [];
      var k := FindEntry(entries, roomIdCheck, peerIdCheck);
      if k == |entries| {
        return Err(if entries == [] then ERR_NO_ROOM else ERR_NO_MATCH);
      }
      WithoutEntry(entries, k);
      LeaveStoreEffect(was.store, entries[k].peer, entries[k].room);
      var departure := Depart(dead, session, entries, k, was);
      PartingFanout(was, dead, session, k, was.connections, departure);
      return Ok(departure);
    }

    /** Ends the membership that one of a session's entries stands for. */
    method Depart(dead: set<Session>, session: Session, entries: seq<ClientInfo>, k: nat, ghost was: State)
      returns (out: Departure)
      requires Valid() && entries == Entries(was, session) && k < |entries|
      requires Contents() == was
      modifies this, store
      ensures store.Contents() == LeaveStore(was.store, entries[k].peer, entries[k].room)
      ensures clients == was.clients[session := entries[..k] + entries[k + 1..]]
      ensures connections == Prune(was, dead, entries[k].room, entries[k].peer) - {entries[k].peer}
      ensures nextPeerSeq == was.nextPeer && Valid()
      ensures Parts(was, dead, entries[k], out)
    {
      var info := entries[k];
      LeaveKeepsTables(was.store, info.peer, info.room);
      WithoutEntry(entries, k);
      var peers;
      ghost var ids;
      peers, ids := CollectOnlinePeers(dead, info.room, info.peer);
      RemoveFromStore(info.peer, info.room);
      connections := connections - {info.peer};
      clients := clients[session := entries[..k] + entries[k + 1..]];
      out := Departure(true, info.room, info.peer, peers);
    }

    method RemoveFromStore(p: PeerId, r: RoomId)
      requires SeqsAssigned(store.Contents())
      modifies store
      ensures store.Contents() == LeaveStore(old(store.Contents()), p, r)
    {
      store.RemoveMember(p);
      ghost var left := store.Contents();
      var remaining := store.FindMembersByRoom(r);
      if |remaining| == 0 {
        assert MembersOf(left, r) == {};
        store.RemoveGroupMessagesByRoom(r);
        store.RemoveRoom(r);
        assert store.Contents() == DropRoom(left, r);
      } else {
        assert remaining[0].id in MembersOf(left, r);
        store.CleanupMessages(r);
      }
    }

    /** Reports one of a session's rooms and drops the connection held there. */
    method Sever(dead: set<Session>, entries: seq<ClientInfo>, k: nat, ghost was: State)
      returns (out: Departure)
      requires k < |entries|
      requires Contents() == was.(connections := Spared(was, dead, entries[..k]))
      modifies this`connections
      ensures connections == Spared(was, dead, entries[..k + 1])
      ensures Parts(was.(connections := Spared(was, dead, entries[..k])), dead, entries[k], out)
    {
      var info := entries[k];
      ghost var before := connections;
      var peers;
      ghost var ids;
      peers, ids := CollectOnlinePeers(dead, info.room, info.peer);
      connections := connections - {info.peer};
      SeveredNext(was, dead, entries, k, before, connections);
      out := Departure(true, info.room, info.peer, peers);
    }

    /** A connection is gone: its memberships stay, its entries and connections go. */
    method Disconnect(dead: set<Session>, session: Session) returns (results: seq<Departure>)
      requires Valid() && session !in dead
      modifies this`clients, this`connections
      ensures Valid()
      ensures Contents() == Registry.Disconnect(old(Contents()), dead, session)
      ensures |results| == |Entries(old(Contents()), session)|
      ensures forall k :: 0 <= k < |results| ==> Reported(old(Contents()), dead, session, k, results[k])
      ensures session !in clients
      ensures forall k :: 0 <= k < |results| ==>
        && results[k].roomId == old(clients)[session][k].room && results[k].peerId == old(clients)[session][k].peer
        && results[k].peerId !in connections
    {
      ghost var was := Contents();
      DisconnectEffect(was, dead, session);
      var entries := if session in clients then clients[session] else [];
      results := ReportAll(dead, session, entries, was);
      clients := clients - {session};
    }

    /** Reports a session's rooms one after the other. */
    method ReportAll(dead: set<Session>, session: Session, entries: seq<ClientInfo>, ghost was: State)
      returns (results: seq<Departure>)
      requires Contents() == was && entries == Entries(was, session) && session !in dead
      modifies this`connections
      ensures connections == Spared(was, dead, entries) && |results| == |entries|
      ensures forall k :: 0 <= k < |results| ==> Reported(was, dead, session, k, results[k])
    {
      results := [];
      for k := 0 to |entries|
        invariant Contents() == was.(connections := connections)
        invariant connections == Spared(was, dead, entries[..k])
        invariant |results| == k
        invariant forall j :: 0 <= j < k ==> Reported(was, dead, session, j, results[j])
      {
        ghost var now := connections;
        var departure := Sever(dead, entries, k, was);
        SeveredFanout(was, dead, session, k, now, departure);
        results := results + [departure];
      }
      assert entries[..|entries|] == entries;
    }
  }

  /** What is reported about one room a session drops out of, as things stand when it is reported. */
  ghost predicate Parts(at: State, dead: set<Session>, i: ClientInfo, out: Departure) {
    && out.hadMembership && out.roomId == i.room && out.peerId == i.peer
    && Notifies(at, dead, i.room, Some(i.peer), out.peersToNotify)
  }

  /** The k-th report of a disconnecting session, made after the connections of its earlier rooms were dropped. */
  ghost predicate Reported(was: State, dead: set<Session>, s: Session, k: nat, out: Departure) {
    var entries := Entries(was, s);
    && k < |entries|
    && Parts(was.(connections := Spared(was, dead, entries[..k])), dead, entries[k], out)
    && (Indexed(was, dead) ==> Enumerates(out.peersToNotify, Audience(was, dead, entries[k].room) - {s}))
  }

  /** A departing session's room is notified without it. */
  lemma PartingFanout(was: State, dead: set<Session>, s: Session, k: nat, now: map<PeerId, Session>, out: Departure)
    requires s !in dead && k < |Entries(was, s)|
    requires Parts(was.(connections := now), dead, Entries(was, s)[k], out)
    requires Indexed(was, dead) ==>
      var i := Entries(was, s)[k];
      OnlinePeers(was.(connections := now), dead, i.room, Some(i.peer)) == OnlinePeers(was, dead, i.room, Some(i.peer))
    requires forall p :: p in now ==> p in was.connections && now[p] == was.connections[p]
    ensures Indexed(was, dead) ==> Enumerates(out.peersToNotify, Audience(was, dead, Entries(was, s)[k].room) - {s})
  {
    if Indexed(was, dead) {
      var i := Entries(was, s)[k];
      EntryIsFound(was, dead, s, k);
      var ids :| Reaches(was.(connections := now), dead, i.room, Some(i.peer), ids, out.peersToNotify);
      assert Reaches(was, dead, i.room, Some(i.peer), ids, out.peersToNotify);
      ActorFanout(was, dead, i.room, s, out.peersToNotify);
    }
  }

  lemma SeveredFanout(was: State, dead: set<Session>, s: Session, k: nat, now: map<PeerId, Session>, out: Departure)
    requires s !in dead && k < |Entries(was, s)| && now == Spared(was, dead, Entries(was, s)[..k])
    requires Parts(was.(connections := now), dead, Entries(was, s)[k], out)
    ensures Reported(was, dead, s, k, out)
  {
    if Indexed(was, dead) {
      SeveredElsewhere(was, dead, s, k, now);
    }
    PartingFanout(was, dead, s, k, now, out);
  }

  /** The entries of a session are the ones found by room. */
  lemma EntryIsFound(st: State, dead: set<Session>, s: Session, k: nat)
    requires Indexed(st, dead) && s !in dead && k < |Entries(st, s)|
    ensures Find(st.clients[s], Entries(st, s)[k].room) == Some(Entries(st, s)[k])
    ensures s in Audience(st, dead, Entries(st, s)[k].room)
    ensures Agrees(st, s, Entries(st, s)[k])
  {
    var entries := st.clients[s];
    assert OneEntryPerRoom(entries) && Agrees(st, s, entries[k]);
    var f := Find(entries, entries[k].room);
    assert entries[k] in entries;
    var j :| 0 <= j < |entries| && entries[j] == f.value;
    assert j == k;
  }

  lemma SameMembersSameLookup(st: State, other: State, dead: set<Session>, r: RoomId, except: PeerId)
    requires st.store.members == other.store.members && st.connections == other.connections
    ensures OnlinePeers(st, dead, r, Some(except)) == OnlinePeers(other, dead, r, Some(except))
    ensures Prune(st, dead, r, except) == Prune(other, dead, r, except)
  {
    assert MembersOf(st.store, r) == MembersOf(other.store, r);
  }

  /** What was severed for a session's other rooms does not show in the lookup of its next room. */
  lemma SeveredElsewhere(st: State, dead: set<Session>, s: Session, k: nat, now: map<PeerId, Session>)
    requires Indexed(st, dead) && s !in dead && k < |Entries(st, s)|
    requires now == Spared(st, dead, Entries(st, s)[..k])
    ensures var i := Entries(st, s)[k];
            OnlinePeers(st.(connections := now), dead, i.room, Some(i.peer)) == OnlinePeers(st, dead, i.room, Some(i.peer))
  {
    var entries := Entries(st, s);
    var i := entries[k];
    forall p | p in MembersOf(st.store, i.room) ensures !Severed(st, dead, entries[..k], p) {
      forall e | e in entries[..k] ensures !(p == e.peer || p in MembersOf(st.store, e.room)) {
        var j :| 0 <= j < k && entries[j] == e;
        assert OneEntryPerRoom(entries) && Agrees(st, s, entries[j]) && Agrees(st, s, i);
      }
    }
  }

  ghost function Spared(st: State, dead: set<Session>, entries: seq<ClientInfo>): map<PeerId, Session> {
    map p | p in st.connections && !Severed(st, dead, entries, p) :: st.connections[p]
  }

  /** Handling one more entry severs what that entry speaks for and the expired handles of its room. */
  lemma SeveredNext(st: State, dead: set<Session>, entries: seq<ClientInfo>, k: nat,
                    now: map<PeerId, Session>, next: map<PeerId, Session>)
    requires k < |entries|
    requires now == Spared(st, dead, entries[..k])
    requires next == Prune(st.(connections := now), dead, entries[k].room, entries[k].peer) - {entries[k].peer}
    ensures next == Spared(st, dead, entries[..k + 1])
  {
    var i := entries[k];
    assert entries[..k + 1] == entries[..k] + [i];
    forall p ensures Severed(st, dead, entries[..k + 1], p) <==>
      Severed(st, dead, entries[..k], p) || p == i.peer
      || (p in MembersOf(st.store, i.room) && p in st.connections && st.connections[p] in dead)
    {
      assert i in entries[..k + 1];
    }
  }

  /** What a successful join tells the session, and whom the server will notify. */
  ghost predicate Welcomes(was: State, dead: set<Session>, r: RoomId, username: string, requested: Option<RoomType>,
                           out: JoinResult)
  {
    && out.roomId == r
    && out.roomType == TypeFor(was, r, requested)
    && out.peerId == JoinPeer(was, r, username)
    && Notifies(was, dead, r, Holder(was, r, username), out.peersToNotify)
    && |out.participants| == |out.peersToNotify|
    && forall k :: 0 <= k < |out.participants| ==> Names(was, r, out.participants[k], out.peersToNotify[k])
  }

  /** A participant is the member of the room that a session speaks for. */
  ghost predicate Names(was: State, r: RoomId, who: Participant, t: Session) {
    && who.peerId in MembersOf(was.store, r) && was.store.members[who.peerId].username == who.username
    && who.peerId in was.connections && was.connections[who.peerId] == t
  }

  ghost predicate Introduces(rows: seq<MemberRow>, p: PeerId, who: Participant) {
    exists i :: 0 <= i < |rows| && rows[i].id == p && who == Participant(p, rows[i].member.username)
  }

  /** A room about to be created has no members, so a later refusal cannot strand it. */
  lemma NewRoomIsEmpty(store: Store, r: RoomId, t: RoomType)
    requires TablesSound(store)
    ensures r !in store.rooms ==> MembersOf(store, r) == {}
    ensures r in store.rooms && store.rooms[r] == t ==> store.(rooms := store.rooms[r := t]) == store
  {
  }

  lemma IntroducedByName(st: State, r: RoomId, rows: seq<MemberRow>, ids: seq<PeerId>, who: seq<Participant>,
                         peers: seq<Session>)
    requires ListsMembers(st.store, r, rows)
    requires |ids| == |peers| == |who|
    requires forall k :: 0 <= k < |ids| ==> ids[k] in st.connections && peers[k] == st.connections[ids[k]]
    requires forall k :: 0 <= k < |ids| ==> Introduces(rows, ids[k], who[k])
    ensures forall k :: 0 <= k < |who| ==> Names(st, r, who[k], peers[k])
  {
  }

  /** A successful join notifies the room's whole audience, because a returning peer was offline. */
  lemma WelcomeFanout(was: State, dead: set<Session>, s: Session, r: RoomId, username: string, requested: Option<RoomType>,
                      out: JoinResult)
    requires JoinError(was, dead, s, r, username, requested).None? ==> Welcomes(was, dead, r, username, requested, out)
    ensures JoinError(was, dead, s, r, username, requested).None? && Indexed(was, dead) ==>
      Enumerates(out.peersToNotify, Audience(was, dead, r))
  {
    if JoinError(was, dead, s, r, username, requested).None? && Indexed(was, dead) {
      GreetingFanout(was, dead, r, Holder(was, r, username), out.peersToNotify);
    }
  }

  /** The connections left after greeting, with the joining peer's set, are those the join is meant to leave. */
  lemma GreetingPrunes(st: State, dead: set<Session>, r: RoomId, username: string, rows: seq<MemberRow>,
                       now: map<PeerId, Session>, s: Session)
    requires ListsMembers(st.store, r, rows) && Pruned(st, dead, Holder(st, r, username), rows, now)
    ensures var p := JoinPeer(st, r, username); now[p := s] == Prune(st, dead, r, p)[p := s]
  {
    ListedAreMembers(st, r, rows);
    var p := JoinPeer(st, r, username);
    forall o | o != p ensures o in now <==> o in Prune(st, dead, r, p) {
    }
  }

  lemma SameRows(store: Store, other: Store, r: RoomId, rows: seq<MemberRow>)
    requires store.members == other.members && ListsMembers(store, r, rows)
    ensures ListsMembers(other, r, rows)
  {
    assert MembersOf(store, r) == MembersOf(other, r);
  }

  lemma ListedAreMembers(st: State, r: RoomId, rows: seq<MemberRow>)
    requires ListsMembers(st.store, r, rows)
    ensures forall p :: Listed(rows, p) <==> p in MembersOf(st.store, r)
  {
  }

  ghost predicate Listed(rows: seq<MemberRow>, p: PeerId) {
    exists i :: 0 <= i < |rows| && rows[i].id == p
  }

  /** The connections that are left after looking up some rows. */
  ghost predicate Pruned(was: State, dead: set<Session>, except: Option<PeerId>, rows: seq<MemberRow>,
                         now: map<PeerId, Session>)
  {
    && (forall p :: p in now <==>
          (p in was.connections && (Listed(rows, p) && Some(p) != except ==> was.connections[p] !in dead)))
    && (forall p :: p in now ==> now[p] == was.connections[p])
  }

  /** Sessions and connections after looking up some rows: the alive connections of the rows' members but one. */
  ghost predicate Gathered(was: State, dead: set<Session>, except: Option<PeerId>, rows: seq<MemberRow>, ids: seq<PeerId>,
                           peers: seq<Session>, now: map<PeerId, Session>)
  {
    && Pruned(was, dead, except, rows, now)
    && |ids| == |peers| && Distinct(ids)
    && (forall p :: p in ids <==> Online(was, dead, p) && Some(p) != except && Listed(rows, p))
    && (forall k :: 0 <= k < |ids| ==> ids[k] in was.connections && peers[k] == was.connections[ids[k]])
  }

  /** Looking up one more row finds its alive connection, forgets its expired one, or changes nothing. */
  lemma GatherNext(was: State, dead: set<Session>, except: Option<PeerId>, rows: seq<MemberRow>, j: nat, ids: seq<PeerId>,
                   peers: seq<Session>, now: map<PeerId, Session>)
    requires j < |rows| && forall i, k :: 0 <= i < k < |rows| ==> rows[i].id != rows[k].id
    requires Gathered(was, dead, except, rows[..j], ids, peers, now)
    ensures var m, next := rows[j].id, rows[..j + 1];
            if Some(m) == except || m !in now then Gathered(was, dead, except, next, ids, peers, now)
            else if now[m] !in dead then Gathered(was, dead, except, next, ids + [m], peers + [now[m]], now)
            else Gathered(was, dead, except, next, ids, peers, now - {m})
  {
    ListedNext(rows, j);
    assert rows[j].id !in ids;
  }

  lemma GatheredIsReached(was: State, dead: set<Session>, r: RoomId, except: Option<PeerId>, rows: seq<MemberRow>,
                          ids: seq<PeerId>, peers: seq<Session>, now: map<PeerId, Session>)
    requires ListsMembers(was.store, r, rows) && Gathered(was, dead, except, rows, ids, peers, now)
    ensures Reaches(was, dead, r, except, ids, peers)
    ensures except.Some? ==> now == Prune(was, dead, r, except.value)
  {
    ListedAreMembers(was, r, rows);
  }

  lemma ListedNext(rows: seq<MemberRow>, j: nat)
    requires j < |rows|
    requires forall i, k :: 0 <= i < k < |rows| ==> rows[i].id != rows[k].id
    ensures !Listed(rows[..j], rows[j].id)
    ensures forall p :: Listed(rows[..j + 1], p) <==> Listed(rows[..j], p) || p == rows[j].id
  {
    assert rows[..j + 1] == rows[..j] + [rows[j]];
    assert Listed(rows[..j + 1], rows[j].id) by {
      assert rows[..j + 1][j].id == rows[j].id;
    }
    forall p | Listed(rows[..j], p) ensures Listed(rows[..j + 1], p) {
      var i :| 0 <= i < j && rows[..j][i].id == p;
      assert rows[..j + 1][i].id == p;
    }
  }

  /** The search over the member rows finds the owner of the username, or that there is none. */
  lemma HolderFound(st: State, r: RoomId, username: string, rows: seq<MemberRow>, existing: Option<MemberRow>)
    requires NamesUnique(st.store)
    requires ListsMembers(st.store, r, rows)
    requires existing.None? ==> forall i :: 0 <= i < |rows| ==> rows[i].member.username != username
    requires existing.Some? ==> existing.value in rows && existing.value.member.username == username
    ensures Holder(st, r, username) == if existing.Some? then Some(existing.value.id) else None
  {
    if existing.Some? {
      assert Holds(st, existing.value.id, r, username);
      HolderUnique(st, existing.value.id, r, username);
    } else {
      forall p ensures !Holds(st, p, r, username) {
        if p in MembersOf(st.store, r) {
          var i :| 0 <= i < |rows| && rows[i].id == p;
        }
      }
    }
  }
}
