/** What each client message makes the server do and whom it makes the server write to. */
module MessageHandler {
  import opened Domain
  import opened RoomStore
  import opened Registry
  import opened Operations
  import opened RoomRegistry

  datatype SignalKind = Offer | Answer | IceCandidate

  /** Parsed client messages; a field that is missing or of the wrong type is None. */
  datatype Request =
    | JoinRequest(room: Option<RoomId>, username: Option<string>, roomType: Option<string>)
    | SignalRequest(kind: SignalKind, room: Option<RoomId>, to: Option<PeerId>, body: Option<string>)
    | LeaveRequest(room: Option<RoomId>, peer: Option<PeerId>)
    | GroupRequest(room: Option<RoomId>, payload: Option<string>)
    | AckRequest(room: Option<RoomId>, upTo: Option<Int64>)
    | Unsupported

  datatype Reply =
    | ErrorReply(message: string)
    | JoinedReply(room: RoomId, roomType: RoomType, peer: PeerId, participants: seq<Participant>)
    | BufferedReply(room: RoomId, messages: seq<MessageRow>)
    | PeerJoinedReply(room: RoomId, peer: PeerId, username: string)
    | PeerLeftReply(room: RoomId, peer: PeerId)
    | SignalReply(kind: SignalKind, room: RoomId, from: PeerId, to: PeerId, body: string)
    | GroupReply(room: RoomId, from: PeerId, seqNo: int, payload: string)
    | AckReply(room: RoomId, upTo: Int64)

  /** One text handed to one session. */
  datatype Sent = Sent(to: Session, reply: Reply)

  const ERR_JOIN_FIELDS := "join requires string fields: roomId, username"
  const ERR_JOIN_TYPE := "roomType must be 'direct' or 'group'"
  const ERR_LEAVE_FIELDS := "leave requires fields: roomId, peerId"
  const ERR_GROUP_FIELDS := "group-message requires fields: roomId, payload"
  const ERR_ACK_FIELDS := "ack requires fields: roomId, upToSeq(int)"
  const ERR_UNSUPPORTED := "unsupported message type"

  function SignalFields(kind: SignalKind): string {
    match kind
    case Offer => "offer requires fields: roomId(string), toPeerId(string), sdp(any)"
    case Answer => "answer requires fields: roomId(string), toPeerId(string), sdp(any)"
    case IceCandidate => "ice-candidate requires fields: roomId(string), toPeerId(string), candidate(any)"
  }

  /** The texts an incomplete message is refused with. */
  lemma RefusalTexts()
    ensures ERR_JOIN_FIELDS == "join requires string fields: roomId, username"
    ensures ERR_JOIN_TYPE == "roomType must be 'direct' or 'group'"
    ensures ERR_LEAVE_FIELDS == "leave requires fields: roomId, peerId"
    ensures ERR_GROUP_FIELDS == "group-message requires fields: roomId, payload"
    ensures ERR_ACK_FIELDS == "ack requires fields: roomId, upToSeq(int)"
    ensures ERR_UNSUPPORTED == "unsupported message type"
  {
  }

  lemma SignalRefusalTexts()
    ensures SignalFields(Offer) == "offer requires fields: roomId(string), toPeerId(string), sdp(any)"
    ensures SignalFields(Answer) == "answer requires fields: roomId(string), toPeerId(string), sdp(any)"
    ensures SignalFields(IceCandidate) == "ice-candidate requires fields: roomId(string), toPeerId(string), candidate(any)"
  {
  }

  function ParseRoomType(raw: string): Option<RoomType> {
    if raw == "direct" then Some(Direct) else if raw == "group" then Some(Group) else None
  }

  /** The same text to each session of a list, in order. */
  function ToEach(list: seq<Session>, reply: Reply): (log: seq<Sent>)
    ensures |log| == |list|
    ensures forall k :: 0 <= k < |list| ==> log[k] == Sent(list[k], reply)
  {
    if list == [] then [] else ToEach(list[..|list| - 1], reply) + [Sent(list[|list| - 1], reply)]
  }

  /** How often a text was handed to a session. */
  function Copies(log: seq<Sent>, entry: Sent): nat {
    if log == [] then 0 else Copies(log[..|log| - 1], entry) + if log[|log| - 1] == entry then 1 else 0
  }

  /** Writing to each of a set's sessions gives each exactly one copy and nobody else any. */
  lemma {:induction false} OneCopyEach(list: seq<Session>, sessions: set<Session>, reply: Reply, t: Session)
    requires Enumerates(list, sessions)
    ensures Copies(ToEach(list, reply), Sent(t, reply)) == if t in sessions then 1 else 0
  {
    if list != [] {
      var last := list[|list| - 1];
      var init := list[..|list| - 1];
      assert list == init + [last];
      assert last !in init;
      OneCopyEach(init, sessions - {last}, reply, t);
      assert ToEach(list, reply)[..|list| - 1] == ToEach(init, reply);
    }
  }

  /** The log grew by one text to the connection of each online member of a room, possibly without one member. */
  ghost predicate Told(before: seq<Sent>, after: seq<Sent>, at: State, dead: set<Session>, r: RoomId, except: Option<PeerId>,
                       reply: Reply)
  {
    exists list :: Notifies(at, dead, r, except, list) && after == before + ToEach(list, reply)
  }

  /** The log grew by one text to each session of a set. */
  ghost predicate ToldAll(before: seq<Sent>, after: seq<Sent>, sessions: set<Session>, reply: Reply) {
    exists list :: Enumerates(list, sessions) && after == before + ToEach(list, reply)
  }

  /** While the indexes agree, telling the online members but one tells the room's other alive sessions. */
  lemma ToldIsToldAll(before: seq<Sent>, after: seq<Sent>, was: State, dead: set<Session>, s: Session, r: RoomId, reply: Reply)
    requires Indexed(was, dead) && s in Audience(was, dead, r)
    requires Told(before, after, was, dead, r, Some(Find(was.clients[s], r).value.peer), reply)
    ensures ToldAll(before, after, Audience(was, dead, r) - {s}, reply)
  {
    var list :| Notifies(was, dead, r, Some(Find(was.clients[s], r).value.peer), list) && after == before + ToEach(list, reply);
    ActorFanout(was, dead, r, s, list);
  }

  lemma {:induction false} CopiesAppend(a: seq<Sent>, b: seq<Sent>, entry: Sent)
    ensures Copies(a + b, entry) == Copies(a, entry) + Copies(b, entry)
  {
    if b == [] {
      assert a + b == a;
    } else {
      CopiesAppend(a, b[..|b| - 1], entry);
      assert (a + b)[..|a + b| - 1] == a + b[..|b| - 1];
    }
  }

  /** Counting the echo, a broadcast adds exactly one copy for each session of the room and none for others. */
  lemma LiveCopies(before: seq<Sent>, after: seq<Sent>, was: State, dead: set<Session>, s: Session, r: RoomId,
                   payload: string, t: Session)
    requires Indexed(was, dead) && s !in dead && BroadcastError(was, s, r).None?
    requires GroupReplies(before, after, was, dead, s, r, payload)
    ensures var entry := Sent(t, GroupReply(r, Find(Entries(was, s), r).value.peer, was.store.nextSeq + 1, payload));
            Copies(after, entry) == Copies(before, entry) + if t in Audience(was, dead, r) then 1 else 0
  {
    var reply := GroupReply(r, Find(Entries(was, s), r).value.peer, was.store.nextSeq + 1, payload);
    var echo, others := [Sent(s, reply)], Audience(was, dead, r) - {s};
    ToldIsToldAll(before + echo, after, was, dead, s, r, reply);
    var list :| Enumerates(list, others) && after == before + echo + ToEach(list, reply);
    CopiesAppend(before + echo, ToEach(list, reply), Sent(t, reply));
    CopiesAppend(before, echo, Sent(t, reply));
    assert echo[..0] == [];
    OneCopyEach(list, others, reply, t);
  }

  // ---- what each message is answered with ----

  ghost predicate JoinReplies(before: seq<Sent>, after: seq<Sent>, was: State, now: State, dead: set<Session>, s: Session,
                              r: RoomId, username: string, requested: Option<RoomType>)
  {
    match JoinError(was, dead, s, r, username, requested)
    case Some(e) => after == before + [Sent(s, ErrorReply(e))]
    case None =>
      var peer := JoinPeer(was, r, username);
      exists mid, participants, list ::
        && Presented(was, dead, r, username, participants, list)
        && after == mid + ToEach(list, PeerJoinedReply(r, peer, username))
        && Welcomed(before, mid, s, now, r, TypeFor(was, r, requested), peer, participants)
  }

  /** Those the joining session is told of, in step with those that are told of it. */
  ghost predicate Presented(was: State, dead: set<Session>, r: RoomId, username: string, participants: seq<Participant>,
                            list: seq<Session>)
  {
    && Notifies(was, dead, r, Holder(was, r, username), list)
    && |participants| == |list| && forall k :: 0 <= k < |list| ==> Names(was, r, participants[k], list[k])
  }

  ghost predicate SignalReplies(before: seq<Sent>, after: seq<Sent>, was: State, dead: set<Session>, s: Session,
                                kind: SignalKind, r: RoomId, to: PeerId, body: string)
  {
    match RouteError(was, dead, s, r, to)
    case Some(e) => after == before + [Sent(s, ErrorReply(e))]
    case None => after == before + [Sent(was.connections[to], SignalReply(kind, r, Find(Entries(was, s), r).value.peer, to, body))]
  }

  ghost predicate GroupReplies(before: seq<Sent>, after: seq<Sent>, was: State, dead: set<Session>, s: Session,
                               r: RoomId, payload: string)
  {
    match BroadcastError(was, s, r)
    case Some(e) => after == before + [Sent(s, ErrorReply(e))]
    case None =>
      var from := Find(Entries(was, s), r).value.peer;
      var reply := GroupReply(r, from, was.store.nextSeq + 1, payload);
      Told(before + [Sent(s, reply)], after, was, dead, r, Some(from), reply)
  }

  ghost predicate AckReplies(before: seq<Sent>, after: seq<Sent>, was: State, dead: set<Session>, s: Session,
                             r: RoomId, upTo: Int64)
  {
    after == before + [Sent(s, if s in Audience(was, dead, r) then AckReply(r, upTo) else ErrorReply(ERR_NO_ENTRY))]
  }

  ghost predicate LeaveReplies(before: seq<Sent>, after: seq<Sent>, was: State, dead: set<Session>, s: Session,
                               r: RoomId, p: PeerId)
  {
    var entries := Entries(was, s);
    if MatchIndex(entries, Some(r), Some(p)) == |entries|
    then after == before + [Sent(s, ErrorReply(if entries == [] then ERR_NO_ROOM else ERR_NO_MATCH))]
    else Told(before, after, was, dead, r, Some(p), PeerLeftReply(r, p))
  }

  /**
   * An accepted join is answered, in this order, by what the session joined with the others online by id and name, in a
   * group room by everything stored above the member's cursor if there is anything, and by telling those others.
   */
  lemma JoinAnswers(before: seq<Sent>, after: seq<Sent>, was: State, now: State, dead: set<Session>, s: Session,
                    r: RoomId, username: string, requested: Option<RoomType>)
    returns (participants: seq<Participant>, rows: seq<MessageRow>, list: seq<Session>)
    requires JoinReplies(before, after, was, now, dead, s, r, username, requested)
    requires JoinError(was, dead, s, r, username, requested).None?
    ensures var p := JoinPeer(was, r, username);
            var t := if r in was.store.rooms then was.store.rooms[r] else if requested == Some(Group) then Group else Direct;
            && after == before + [Sent(s, JoinedReply(r, t, p, participants))]
                        + (if rows == [] then [] else [Sent(s, BufferedReply(r, rows))])
                        + ToEach(list, PeerJoinedReply(r, p, username))
            && (t == Direct ==> rows == [])
            && (t == Group ==> forall q :: (exists k :: 0 <= k < |rows| && rows[k].seqNo == q) <==>
                  && p in now.store.members && q in now.store.messages
                  && now.store.messages[q].room == now.store.members[p].room && q > now.store.members[p].acked)
    ensures forall k :: 0 <= k < |rows| ==> rows[k].seqNo in now.store.messages && rows[k].message == now.store.messages[rows[k].seqNo]
    ensures forall j, k :: 0 <= j < k < |rows| ==> rows[j].seqNo < rows[k].seqNo
    ensures Notifies(was, dead, r, Holder(was, r, username), list) && |participants| == |list|
    ensures forall k {:trigger list[k]} :: 0 <= k < |list| ==>
      && participants[k].peerId in was.store.members && was.store.members[participants[k].peerId].room == r
      && was.store.members[participants[k].peerId].username == participants[k].username
      && participants[k].peerId in was.connections && was.connections[participants[k].peerId] == list[k]
  {
    var p := JoinPeer(was, r, username);
    var mid;
    mid, participants, list :|
      && Presented(was, dead, r, username, participants, list)
      && after == mid + ToEach(list, PeerJoinedReply(r, p, username))
      && Welcomed(before, mid, s, now, r, TypeFor(was, r, requested), p, participants);
    rows := WelcomeRows(before, mid, s, now, r, TypeFor(was, r, requested), p, participants);
    forall k | 0 <= k < |list|
      ensures participants[k].peerId in was.store.members && was.store.members[participants[k].peerId].room == r
    {
      assert Names(was, r, participants[k], list[k]);
    }
  }

  lemma WelcomeRows(before: seq<Sent>, mid: seq<Sent>, s: Session, now: State, r: RoomId, t: RoomType, p: PeerId,
                    participants: seq<Participant>)
    returns (rows: seq<MessageRow>)
    requires Welcomed(before, mid, s, now, r, t, p, participants)
    ensures mid == before + [Sent(s, JoinedReply(r, t, p, participants))] + (if rows == [] then [] else [Sent(s, BufferedReply(r, rows))])
    ensures t == Direct ==> rows == []
    ensures t == Group ==> forall q :: (exists k :: 0 <= k < |rows| && rows[k].seqNo == q) <==>
      && p in now.store.members && q in now.store.messages
      && now.store.messages[q].room == now.store.members[p].room && q > now.store.members[p].acked
    ensures forall k :: 0 <= k < |rows| ==> rows[k].seqNo in now.store.messages && rows[k].message == now.store.messages[rows[k].seqNo]
    ensures forall j, k :: 0 <= j < k < |rows| ==> rows[j].seqNo < rows[k].seqNo
  {
    rows := [];
    if t == Group && Pending(now, p) != {} {
      rows :| Buffers(now, p, rows) && mid == before + [Sent(s, JoinedReply(r, t, p, participants))] + [Sent(s, BufferedReply(r, rows))];
      var q :| q in Pending(now, p);
      assert rows != [];
      BuffersMean(now, p, rows);
    } else if t == Group {
      BuffersMean(now, p, rows);
    }
  }

  /** A refused join is answered with the reason, and nobody else hears of it. */
  lemma JoinRefusalAnswers(before: seq<Sent>, after: seq<Sent>, was: State, now: State, dead: set<Session>, s: Session,
                           r: RoomId, username: string, requested: Option<RoomType>)
    requires JoinReplies(before, after, was, now, dead, s, r, username, requested)
    requires JoinError(was, dead, s, r, username, requested).Some?
    ensures after == before + [Sent(s, ErrorReply(JoinError(was, dead, s, r, username, requested).value))]
  {
  }

  lemma BuffersMean(st: State, p: PeerId, rows: seq<MessageRow>)
    requires Buffers(st, p, rows)
    ensures forall q :: (exists k :: 0 <= k < |rows| && rows[k].seqNo == q) <==>
      && p in st.store.members && q in st.store.messages
      && st.store.messages[q].room == st.store.members[p].room && q > st.store.members[p].acked
    ensures forall k :: 0 <= k < |rows| ==> rows[k].seqNo in st.store.messages && rows[k].message == st.store.messages[rows[k].seqNo]
    ensures forall j, k :: 0 <= j < k < |rows| ==> rows[j].seqNo < rows[k].seqNo
  {
    forall q {
      PendingMeans(st, p, q);
    }
  }

  /** While the indexes agree, an accepted join is announced to every alive session of the room. */
  lemma JoinTellsAudience(before: seq<Sent>, after: seq<Sent>, was: State, now: State, dead: set<Session>, s: Session,
                          r: RoomId, username: string, requested: Option<RoomType>)
    requires Indexed(was, dead) && JoinError(was, dead, s, r, username, requested).None?
    requires JoinReplies(before, after, was, now, dead, s, r, username, requested)
    ensures var peer := JoinPeer(was, r, username);
            exists mid, participants ::
              && ToldAll(mid, after, Audience(was, dead, r), PeerJoinedReply(r, peer, username))
              && Welcomed(before, mid, s, now, r, TypeFor(was, r, requested), peer, participants)
  {
    var peer := JoinPeer(was, r, username);
    var mid, participants, list :|
      && Presented(was, dead, r, username, participants, list)
      && after == mid + ToEach(list, PeerJoinedReply(r, peer, username))
      && Welcomed(before, mid, s, now, r, TypeFor(was, r, requested), peer, participants);
    GreetingFanout(was, dead, r, Holder(was, r, username), list);
    assert ToldAll(mid, after, Audience(was, dead, r), PeerJoinedReply(r, peer, username));
  }

  /** While the indexes agree, a departure is announced to the rest of the room. */
  lemma LeaveTellsAudience(before: seq<Sent>, after: seq<Sent>, was: State, dead: set<Session>, s: Session, r: RoomId, p: PeerId)
    requires Indexed(was, dead) && s !in dead
    requires MatchIndex(Entries(was, s), Some(r), Some(p)) < |Entries(was, s)|
    requires LeaveReplies(before, after, was, dead, s, r, p)
    ensures ToldAll(before, after, Audience(was, dead, r) - {s}, PeerLeftReply(r, p))
  {
    EntryIsFound(was, dead, s, MatchIndex(Entries(was, s), Some(r), Some(p)));
    ToldIsToldAll(before, after, was, dead, s, r, PeerLeftReply(r, p));
  }

  /** An accepted message is echoed first, with its number, the sender's id in the room and the payload, then sent on unchanged. */
  lemma GroupAnswers(before: seq<Sent>, after: seq<Sent>, was: State, dead: set<Session>, s: Session, r: RoomId,
                     payload: string, i: ClientInfo)
    requires s in was.clients && i in was.clients[s] && i.room == r && i.roomType == Group && OneEntryPerRoom(was.clients[s])
    requires GroupReplies(before, after, was, dead, s, r, payload)
    ensures var reply := GroupReply(r, i.peer, was.store.nextSeq + 1, payload);
            exists list :: Notifies(was, dead, r, Some(i.peer), list) && after == before + [Sent(s, reply)] + ToEach(list, reply)
  {
    EntryOfRoom(was, s, r);
    BroadcastAcceptedIff(was, s, r);
  }

  /** A signal is forwarded with its kind, room and body, from the sender's id in the room to the id it named. */
  lemma SignalAnswers(before: seq<Sent>, after: seq<Sent>, was: State, dead: set<Session>, s: Session,
                      kind: SignalKind, r: RoomId, to: PeerId, body: string, i: ClientInfo)
    requires s in was.clients && i in was.clients[s] && i.room == r && OneEntryPerRoom(was.clients[s])
    requires SignalReplies(before, after, was, dead, s, kind, r, to, body)
    ensures RouteError(was, dead, s, r, to).None? ==>
      to in was.connections && after == before + [Sent(was.connections[to], SignalReply(kind, r, i.peer, to, body))]
    ensures RouteError(was, dead, s, r, to).Some? ==>
      after == before + [Sent(s, ErrorReply(RouteError(was, dead, s, r, to).value))]
  {
    EntryOfRoom(was, s, r);
  }

  /** An acknowledgement is confirmed with its room and number, a departure is told with room and id; else the sender gets the reason. */
  lemma OtherAnswers(before: seq<Sent>, after: seq<Sent>, was: State, dead: set<Session>, s: Session, r: RoomId, upTo: Int64, p: PeerId)
    requires s !in dead
    ensures AckReplies(before, after, was, dead, s, r, upTo) <==>
      after == before + [Sent(s, if s in was.clients && exists i :: i in was.clients[s] && i.room == r then AckReply(r, upTo)
                                 else ErrorReply("session is not in this room"))]
    ensures LeaveReplies(before, after, was, dead, s, r, p) <==>
      if s in was.clients && exists i :: i in was.clients[s] && i.room == r && i.peer == p
      then exists list :: Notifies(was, dead, r, Some(p), list) && after == before + ToEach(list, PeerLeftReply(r, p))
      else after == before + [Sent(s, ErrorReply(if s !in was.clients || was.clients[s] == [] then "session is not in any room"
                                                 else "roomId/peerId does not match any active session room"))]
  {
    LeaveAcceptedIff(Entries(was, s), Some(r), Some(p));
  }

  class MessageHandler {
    const registry: RoomRegistry
    var log: seq<Sent>

    ghost predicate Valid()
      reads this, registry, registry.store
    {
      registry.Valid()
    }

    constructor (registry: RoomRegistry)
      ensures this.registry == registry && log == []
    {
      this.registry := registry;
      log := [];
    }

    method SendText(to: Session, reply: Reply)
      modifies this`log
      ensures log == old(log) + [Sent(to, reply)]
    {
      log := log + [Sent(to, reply)];
    }

    method SendToAll(peers: seq<Session>, reply: Reply)
      modifies this`log
      ensures log == old(log) + ToEach(peers, reply)
    {
      for k := 0 to |peers|
        invariant log == old(log) + ToEach(peers[..k], reply)
      {
        assert peers[..k + 1][..k] == peers[..k];
        SendText(peers[k], reply);
      }
      assert peers[..|peers|] == peers;
    }

    /** Joins, tells the session, delivers what it missed, then tells the room. */
    method HandleJoin(dead: set<Session>, session: Session, roomId: RoomId, username: string, requested: Option<RoomType>)
      requires Valid() && session !in dead
      modifies this`log, registry, registry.store
      ensures Valid()
      ensures registry.Contents() == Registry.Join(old(registry.Contents()), dead, session, roomId, username, requested)
      ensures JoinReplies(old(log), log, old(registry.Contents()), registry.Contents(), dead, session, roomId, username, requested)
      ensures roomId !in old(registry.store.rooms) && roomId in registry.store.rooms ==>
        && registry.store.rooms[roomId] == (if requested == Some(Group) then Group else Direct)
        && JoinedAs(old(log), log, session, roomId, registry.store.rooms[roomId])
    {
      var result := registry.Join(dead, session, roomId, username, requested);
      if !result.ok {
        SendText(session, ErrorReply(result.error));
        return;
      }
      SendText(session, JoinedReply(result.roomId, result.roomType, result.peerId, result.participants));
      ghost var greeted := log;
      if result.roomType == Group {
        var pending := registry.GetPendingMessages(result.peerId);
        if pending != [] {
          SendText(session, BufferedReply(result.roomId, pending));
          assert Buffers(registry.Contents(), result.peerId, pending);
          assert pending[0].seqNo in Pending(registry.Contents(), result.peerId);
        } else {
          assert Pending(registry.Contents(), result.peerId) == {};
        }
      }
      ghost var mid := log;
      assert Welcomed(old(log), mid, session, registry.Contents(), roomId, result.roomType, result.peerId, result.participants);
      SendToAll(result.peersToNotify, PeerJoinedReply(result.roomId, result.peerId, username));
      assert Presented(old(registry.Contents()), dead, roomId, username, result.participants, result.peersToNotify);
    }

    method HandleSignal(dead: set<Session>, session: Session, kind: SignalKind, roomId: RoomId, toPeerId: PeerId, body: string)
      requires Valid() && session !in dead
      modifies this`log, registry
      ensures Valid()
      ensures registry.Contents() == Registry.Route(old(registry.Contents()), dead, session, roomId, toPeerId)
      ensures SignalReplies(old(log), log, old(registry.Contents()), dead, session, kind, roomId, toPeerId, body)
    {
      var route := registry.Route(dead, session, roomId, toPeerId);
      if route.Err? {
        SendText(session, ErrorReply(route.error));
        return;
      }
      SendText(route.value.target, SignalReply(kind, route.value.roomId, route.value.fromPeerId, toPeerId, body));
    }

    /** Stores a group message, echoes it with its number, and sends it to the rest of the room. */
    method HandleGroupMessage(dead: set<Session>, session: Session, roomId: RoomId, payload: string)
      requires Valid() && session !in dead
      modifies this`log, registry, registry.store
      ensures Valid()
      ensures registry.Contents() == Registry.Broadcast(old(registry.Contents()), dead, session, roomId, payload)
      ensures GroupReplies(old(log), log, old(registry.Contents()), dead, session, roomId, payload)
    {
      var result := registry.Broadcast(dead, session, roomId, payload);
      if result.Err? {
        SendText(session, ErrorReply(result.error));
        return;
      }
      var message := GroupReply(result.value.roomId, result.value.fromPeerId, result.value.messageSeq, payload);
      SendText(session, message);
      ghost var echoed := log;
      SendToAll(result.value.recipients, message);
      assert Told(echoed, log, old(registry.Contents()), dead, roomId, Some(result.value.fromPeerId), message);
    }

    method HandleAck(dead: set<Session>, session: Session, roomId: RoomId, upTo: Int64)
      requires Valid() && session !in dead
      modifies this`log, registry, registry.store
      ensures Valid()
      ensures registry.Contents() == Acknowledge(old(registry.Contents()), session, roomId, upTo)
      ensures AckReplies(old(log), log, old(registry.Contents()), dead, session, roomId, upTo)
    {
      var error := registry.AcknowledgeMessages(dead, session, roomId, upTo);
      if error.Some? {
        SendText(session, ErrorReply(error.value));
        return;
      }
      SendText(session, AckReply(roomId, upTo));
    }

    method HandleLeave(dead: set<Session>, session: Session, roomId: RoomId, peerId: PeerId)
      requires Valid() && session !in dead
      modifies this`log, registry, registry.store
      ensures Valid()
      ensures registry.Contents() == Registry.Leave(old(registry.Contents()), dead, session, Some(roomId), Some(peerId))
      ensures LeaveReplies(old(log), log, old(registry.Contents()), dead, session, roomId, peerId)
    {
      var result := registry.Leave(dead, session, Some(roomId), Some(peerId));
      if result.Err? {
        SendText(session, ErrorReply(result.error));
        return;
      }
      if result.value.hadMembership {
        SendToAll(result.value.peersToNotify, PeerLeftReply(result.value.roomId, result.value.peerId));
      }
    }

    /** Tells each room the session was in that its peer left. */
    method HandleDisconnect(dead: set<Session>, session: Session)
      requires Valid() && session !in dead
      modifies this`log, registry
      ensures Valid()
      ensures registry.Contents() == Registry.Disconnect(old(registry.Contents()), dead, session)
      ensures exists logs: seq<seq<Sent>> ::
        && |logs| == |Entries(old(registry.Contents()), session)| + 1 && logs[0] == old(log) && logs[|logs| - 1] == log
        && forall k :: 0 <= k < |logs| - 1 ==> DepartureTold(old(registry.Contents()), dead, session, k, logs[k], logs[k + 1])
    {
      ghost var was := registry.Contents();
      var results := registry.Disconnect(dead, session);
      ghost var logs := [log];
      for k := 0 to |results|
        invariant |logs| == k + 1 && logs[0] == old(log) && logs[k] == log
        invariant registry.Contents() == Registry.Disconnect(was, dead, session) && Valid()
        invariant forall j :: 0 <= j < k ==> DepartureTold(was, dead, session, j, logs[j], logs[j + 1])
      {
        assert Reported(was, dead, session, k, results[k]);
        SendToAll(results[k].peersToNotify, PeerLeftReply(results[k].roomId, results[k].peerId));
        assert DepartureTold(was, dead, session, k, logs[k], log);
        logs := logs + [log];
      }
    }

    /** The text is refused for a reason, and the registry is not touched. */
    ghost predicate Refuses(before: seq<Sent>, after: seq<Sent>, was: State, session: Session, message: string)
      reads registry, registry.store
    {
      after == before + [Sent(session, ErrorReply(message))] && registry.Contents() == was
    }

    /** The first answer says that the session joined a room of some type. */
    ghost predicate JoinedAs(before: seq<Sent>, after: seq<Sent>, session: Session, r: RoomId, t: RoomType) {
      && |before| < |after| && after[|before|].to == session
      && after[|before|].reply.JoinedReply? && after[|before|].reply.room == r && after[|before|].reply.roomType == t
    }

    /** A join request names the room type as text, or not at all. */
    method OnJoin(dead: set<Session>, session: Session, room: Option<RoomId>, username: Option<string>, roomType: Option<string>)
      requires Valid() && session !in dead
      modifies this`log, registry, registry.store
      ensures Valid()
      ensures room.None? || username.None? ==>
        Refuses(old(log), log, old(registry.Contents()), session, ERR_JOIN_FIELDS)
      ensures room.Some? && username.Some? && roomType.Some? && roomType.value !in {"direct", "group"} ==>
        Refuses(old(log), log, old(registry.Contents()), session, ERR_JOIN_TYPE)
      ensures room.Some? && username.Some? && (roomType == None || roomType == Some("direct") || roomType == Some("group")) ==>
        var requested := if roomType == Some("group") then Some(Group) else if roomType == Some("direct") then Some(Direct) else None;
        && registry.Contents() == Registry.Join(old(registry.Contents()), dead, session, room.value, username.value, requested)
        && JoinReplies(old(log), log, old(registry.Contents()), registry.Contents(), dead, session, room.value, username.value, requested)
      ensures room.Some? && room.value !in old(registry.store.rooms) && room.value in registry.store.rooms ==>
        && registry.store.rooms[room.value] == (if roomType == Some("group") then Group else Direct)
        && JoinedAs(old(log), log, session, room.value, if roomType == Some("group") then Group else Direct)
    {
      if room.None? || username.None? {
        SendText(session, ErrorReply(ERR_JOIN_FIELDS));
        return;
      }
      var requested: Option<RoomType> := None;
      if roomType.Some? {
        requested := ParseRoomType(roomType.value);
        if requested.None? {
          SendText(session, ErrorReply(ERR_JOIN_TYPE));
          return;
        }
      }
      HandleJoin(dead, session, room.value, username.value, requested);
    }

    /** Dispatches one parsed message; an incomplete one is refused without touching the registry. */
    method HandleMessage(dead: set<Session>, session: Session, request: Request)
      requires Valid() && session !in dead
      modifies this`log, registry, registry.store
      ensures Valid()
      ensures match request
              case JoinRequest(room, username, roomType) =>
                if room.None? || username.None? then
                  Refuses(old(log), log, old(registry.Contents()), session, ERR_JOIN_FIELDS)
                else if roomType.Some? && roomType.value !in {"direct", "group"} then
                  Refuses(old(log), log, old(registry.Contents()), session, ERR_JOIN_TYPE)
                else
                  var requested := if roomType == Some("group") then Some(Group) else if roomType == Some("direct") then Some(Direct) else None;
                  && registry.Contents() == Registry.Join(old(registry.Contents()), dead, session, room.value, username.value, requested)
                  && JoinReplies(old(log), log, old(registry.Contents()), registry.Contents(), dead, session, room.value, username.value, requested)
              case SignalRequest(kind, room, to, body) =>
                if room.None? || to.None? || body.None? then
                  Refuses(old(log), log, old(registry.Contents()), session, SignalFields(kind))
                else
                  && registry.Contents() == Registry.Route(old(registry.Contents()), dead, session, room.value, to.value)
                  && SignalReplies(old(log), log, old(registry.Contents()), dead, session, kind, room.value, to.value, body.value)
              case LeaveRequest(room, peer) =>
                if room.None? || peer.None? then
                  Refuses(old(log), log, old(registry.Contents()), session, ERR_LEAVE_FIELDS)
                else
                  && registry.Contents() == Registry.Leave(old(registry.Contents()), dead, session, room, peer)
                  && LeaveReplies(old(log), log, old(registry.Contents()), dead, session, room.value, peer.value)
              case GroupRequest(room, payload) =>
                if room.None? || payload.None? then
                  Refuses(old(log), log, old(registry.Contents()), session, ERR_GROUP_FIELDS)
                else
                  && registry.Contents() == Registry.Broadcast(old(registry.Contents()), dead, session, room.value, payload.value)
                  && GroupReplies(old(log), log, old(registry.Contents()), dead, session, room.value, payload.value)
              case AckRequest(room, upTo) =>
                if room.None? || upTo.None? then
                  Refuses(old(log), log, old(registry.Contents()), session, ERR_ACK_FIELDS)
                else
                  && registry.Contents() == Acknowledge(old(registry.Contents()), session, room.value, upTo.value)
                  && AckReplies(old(log), log, old(registry.Contents()), dead, session, room.value, upTo.value)
              case Unsupported =>
                Refuses(old(log), log, old(registry.Contents()), session, ERR_UNSUPPORTED)
      ensures request.JoinRequest? && request.room.Some? && request.room.value !in old(registry.store.rooms)
              && request.room.value in registry.store.rooms ==>
        && registry.store.rooms[request.room.value] == (if request.roomType == Some("group") then Group else Direct)
        && JoinedAs(old(log), log, session, request.room.value, if request.roomType == Some("group") then Group else Direct)
    {
      match request
      case JoinRequest(room, username, roomType) =>
        OnJoin(dead, session, room, username, roomType);
      case SignalRequest(kind, room, to, body) =>
        if room.None? || to.None? || body.None? {
          SendText(session, ErrorReply(SignalFields(kind)));
          return;
        }
        HandleSignal(dead, session, kind, room.value, to.value, body.value);
      case LeaveRequest(room, peer) =>
        if room.None? || peer.None? {
          SendText(session, ErrorReply(ERR_LEAVE_FIELDS));
          return;
        }
        HandleLeave(dead, session, room.value, peer.value);
      case GroupRequest(room, payload) =>
        if room.None? || payload.None? {
          SendText(session, ErrorReply(ERR_GROUP_FIELDS));
          return;
        }
        HandleGroupMessage(dead, session, room.value, payload.value);
      case AckRequest(room, upTo) =>
        if room.None? || upTo.None? {
          SendText(session, ErrorReply(ERR_ACK_FIELDS));
          return;
        }
        HandleAck(dead, session, room.value, upTo.value);
      case Unsupported =>
        SendText(session, ErrorReply(ERR_UNSUPPORTED));
    }
  }

  /** The k-th room of a disconnected session was told, and while the indexes agree that is every other alive session of it. */
  ghost predicate DepartureTold(was: State, dead: set<Session>, s: Session, k: nat, before: seq<Sent>, after: seq<Sent>) {
    var entries := Entries(was, s);
    && k < |entries|
    && var i := entries[k];
    && Told(before, after, was.(connections := Spared(was, dead, entries[..k])), dead, i.room, Some(i.peer), PeerLeftReply(i.room, i.peer))
    && (Indexed(was, dead) ==> ToldAll(before, after, Audience(was, dead, i.room) - {s}, PeerLeftReply(i.room, i.peer)))
  }

  /** Each room of a disconnected session is told that the session's peer in that room left. */
  lemma DisconnectAnswers(was: State, dead: set<Session>, s: Session, k: nat, before: seq<Sent>, after: seq<Sent>)
    requires DepartureTold(was, dead, s, k, before, after)
    ensures s in was.clients && k < |was.clients[s]|
    ensures var i := was.clients[s][k];
            && (exists list :: after == before + ToEach(list, PeerLeftReply(i.room, i.peer))
                  && Notifies(was.(connections := Spared(was, dead, was.clients[s][..k])), dead, i.room, Some(i.peer), list))
            && (Indexed(was, dead) ==>
                  exists list :: Enumerates(list, Audience(was, dead, i.room) - {s}) && after == before + ToEach(list, PeerLeftReply(i.room, i.peer)))
  {
  }

  /** The list of buffered messages is exactly what the peer waits for, in ascending order. */
  ghost predicate Buffers(st: State, p: PeerId, rows: seq<MessageRow>) {
    && (forall i :: 0 <= i < |rows| ==> rows[i].seqNo in Pending(st, p) && rows[i].message == st.store.messages[rows[i].seqNo])
    && (forall q :: q in Pending(st, p) ==> exists i :: 0 <= i < |rows| && rows[i].seqNo == q)
    && (forall i, j :: 0 <= i < j < |rows| ==> rows[i].seqNo < rows[j].seqNo)
  }

  /** The joining session was told it joined and, in a group room, given everything it waits for, if anything. */
  ghost predicate Welcomed(before: seq<Sent>, after: seq<Sent>, s: Session, st: State, r: RoomId, roomType: RoomType,
                           peer: PeerId, participants: seq<Participant>)
  {
    var greeted := before + [Sent(s, JoinedReply(r, roomType, peer, participants))];
    if roomType == Group && Pending(st, peer) != {}
    then exists rows :: Buffers(st, peer, rows) && after == greeted + [Sent(s, BufferedReply(r, rows))]
    else after == greeted
  }
}
