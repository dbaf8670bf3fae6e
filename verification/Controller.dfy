/** The client's room bookkeeping and its queues of direct messages. */
module Controller {
  import opened Domain
  import opened DirectQueue
  import opened WebRtc

  datatype RoomState = RoomState(
    roomType: string,
    myPeerId: PeerId,
    username: string,
    participants: map<PeerId, string>)

  /** The rooms the client is in, and which room each known peer belongs to. */
  datatype Book = Book(rooms: map<RoomId, RoomState>, peerToRoom: map<PeerId, RoomId>)

  const BLANK := Book(map[], map[])

  /** What the user does and what the signaling server reports. */
  datatype Notice =
    | Joining(room: RoomId, roomType: string, username: string)
    | Leaving(room: RoomId)
    | SignalingDisconnected
    | Joined(room: RoomId, roomType: string, peerId: PeerId, participants: seq<Participant>)
    | PeerJoined(room: RoomId, peerId: PeerId, username: string)
    | PeerLeft(room: RoomId, peerId: PeerId)

  /** What the client asks the signaling server for. */
  datatype Request =
    | JoinRoom(room: RoomId, username: string, roomType: string)
    | LeaveRoom(room: RoomId, peerId: PeerId)

  datatype Delivery = UnknownRoom | NoPeer | Queued(target: PeerId)

  // ---- bookkeeping ----

  ghost function Ids(participants: seq<Participant>): set<PeerId> {
    set p | p in participants :: p.peerId
  }

  /** Everybody known from some of the rooms. */
  ghost function Known(rooms: map<RoomId, RoomState>, which: set<RoomId>): set<PeerId> {
    set r, p | r in which && r in rooms && p in rooms[r].participants :: p
  }

  /** Participants with listed ones added, later entries winning. */
  function WithAll(known: map<PeerId, string>, participants: seq<Participant>): map<PeerId, string> {
    if participants == [] then known
    else
      var last := participants[|participants| - 1];
      WithAll(known, participants[..|participants| - 1])[last.peerId := last.username]
  }

  /** A mapping with listed participants pointing to one room. */
  function Mapped(mapped: map<PeerId, RoomId>, participants: seq<Participant>, roomId: RoomId): map<PeerId, RoomId> {
    if participants == [] then mapped
    else Mapped(mapped, participants[..|participants| - 1], roomId)[participants[|participants| - 1].peerId := roomId]
  }

  /** The ids added are those that occur in the list, and all of them point to the room. */
  lemma {:induction false} AddedIds(known: map<PeerId, string>, mapped: map<PeerId, RoomId>, participants: seq<Participant>, roomId: RoomId)
    ensures forall p :: p in WithAll(known, participants) <==> p in known || p in Ids(participants)
    ensures forall p :: p in Mapped(mapped, participants, roomId) <==> p in mapped || p in Ids(participants)
    ensures forall p :: p in Ids(participants) ==> Mapped(mapped, participants, roomId)[p] == roomId
    ensures forall p :: p in mapped && p !in Ids(participants) ==> Mapped(mapped, participants, roomId)[p] == mapped[p]
  {
    if participants != [] {
      AddedIds(known, mapped, participants[..|participants| - 1], roomId);
      IdsOfLast(participants);
    }
  }

  /** A participant has the name it was last listed with. */
  lemma {:induction false} ListedName(known: map<PeerId, string>, participants: seq<Participant>, j: nat)
    requires j < |participants| && forall k :: j < k < |participants| ==> participants[k].peerId != participants[j].peerId
    ensures participants[j].peerId in WithAll(known, participants)
    ensures WithAll(known, participants)[participants[j].peerId] == participants[j].username
  {
    if j < |participants| - 1 {
      ListedName(known, participants[..|participants| - 1], j);
    }
  }

  /** Who is not listed keeps its name. */
  lemma {:induction false} UnlistedName(known: map<PeerId, string>, participants: seq<Participant>, p: PeerId)
    requires p in known && forall j :: 0 <= j < |participants| ==> participants[j].peerId != p
    ensures p in WithAll(known, participants) && WithAll(known, participants)[p] == known[p]
  {
    if participants != [] {
      UnlistedName(known, participants[..|participants| - 1], p);
    }
  }

  lemma IdsOfLast(participants: seq<Participant>)
    requires participants != []
    ensures Ids(participants) == Ids(participants[..|participants| - 1]) + {participants[|participants| - 1].peerId}
  {
    var init, last := participants[..|participants| - 1], participants[|participants| - 1];
    assert participants == init + [last];
    forall x ensures x in participants <==> x in init || x == last {
    }
  }

  function Emptied(state: RoomState): RoomState {
    state.(participants := map[], myPeerId := "")
  }

  /** The books after a notice; reports about a room the client is not in are ignored. */
  ghost function After(b: Book, e: Notice): Book {
    match e
    case Joining(r, roomType, username) => b.(rooms := b.rooms[r := RoomState(roomType, "", username, map[])])
    case SignalingDisconnected => Book(map r | r in b.rooms :: Emptied(b.rooms[r]), map[])
    case _ =>
      if e.room !in b.rooms then b
      else
        var state := b.rooms[e.room];
        match e
        case Leaving(r) => Book(b.rooms - {r}, b.peerToRoom - state.participants.Keys)
        case Joined(r, roomType, id, participants) =>
          Book(b.rooms[r := state.(myPeerId := id, roomType := roomType, participants := WithAll(state.participants, participants))],
               Mapped(b.peerToRoom, participants, r))
        case PeerJoined(r, p, username) =>
          Book(b.rooms[r := state.(participants := state.participants[p := username])], b.peerToRoom[p := r])
        case PeerLeft(r, p) =>
          Book(b.rooms[r := state.(participants := state.participants - {p})], b.peerToRoom - {p})
        case _ => b
  }

  // ---- when participants and mapping agree ----

  /** Every participant of every room is mapped to that room. */
  ghost predicate MapsAgree(b: Book) {
    forall r, p :: r in b.rooms && p in b.rooms[r].participants ==> p in b.peerToRoom && b.peerToRoom[p] == r
  }

  /** Every mapped peer is a participant of the room it is mapped to. */
  ghost predicate MapsExact(b: Book) {
    forall p :: p in b.peerToRoom ==> b.peerToRoom[p] in b.rooms && p in b.rooms[b.peerToRoom[p]].participants
  }

  /** The peers that a report names for its room. */
  ghost function Named(e: Notice): set<PeerId> {
    match e
    case Joined(_, _, _, participants) => Ids(participants)
    case PeerJoined(_, p, _) => {p}
    case PeerLeft(_, p) => {p}
    case _ => {}
  }

  ghost predicate Elsewhere(b: Book, p: PeerId, r: RoomId) {
    exists o :: o in b.rooms && o != r && p in b.rooms[o].participants
  }

  /** The server reports about a peer in one of our rooms that we know from another one. */
  ghost predicate Clashes(b: Book, e: Notice) {
    Named(e) != {} && e.room in b.rooms && exists p :: p in Named(e) && Elsewhere(b, p, e.room)
  }

  /** The user joins a room again to which some participant of it is mapped. */
  ghost predicate Forgets(b: Book, e: Notice) {
    && e.Joining? && e.room in b.rooms
    && exists p :: p in b.rooms[e.room].participants && p in b.peerToRoom && b.peerToRoom[p] == e.room
  }

  lemma ClashBreaksMaps(b: Book, e: Notice)
    requires Clashes(b, e)
    ensures !MapsAgree(After(b, e))
  {
    if e.Joined? {
      AddedIds(b.rooms[e.room].participants, b.peerToRoom, e.participants, e.room);
    }
    var next := After(b, e);
    var p :| p in Named(e) && Elsewhere(b, p, e.room);
    var o :| o in b.rooms && o != e.room && p in b.rooms[o].participants;
    assert next.rooms[o] == b.rooms[o];
    assert p in next.peerToRoom ==> next.peerToRoom[p] == e.room;
  }

  /** Participants stay mapped to their room exactly unless the server names a peer for a second room. */
  lemma AgreeStepIff(b: Book, e: Notice)
    requires MapsAgree(b)
    ensures MapsAgree(After(b, e)) <==> !Clashes(b, e)
  {
    if Clashes(b, e) {
      ClashBreaksMaps(b, e);
      return;
    }
    if e.Joined? && e.room in b.rooms {
      AddedIds(b.rooms[e.room].participants, b.peerToRoom, e.participants, e.room);
    }
    if e.Leaving? && e.room in b.rooms {
      forall o, p | o in b.rooms && o != e.room && p in b.rooms[o].participants ensures p !in b.rooms[e.room].participants {
        assert b.peerToRoom[p] == o;
      }
    }
    var next := After(b, e);
    forall r, p | r in next.rooms && p in next.rooms[r].participants ensures p in next.peerToRoom && next.peerToRoom[p] == r {
      if !e.SignalingDisconnected? && r != e.room {
        assert p in b.rooms[r].participants;
        assert p in Named(e) && e.room in b.rooms ==> Elsewhere(b, p, e.room);
      }
    }
  }

  /** Nobody stays mapped without being a participant exactly unless the user joins a room with mapped participants again. */
  lemma ExactStepIff(b: Book, e: Notice)
    requires MapsExact(b)
    ensures MapsExact(After(b, e)) <==> !Forgets(b, e)
  {
    if e.Joined? && e.room in b.rooms {
      AddedIds(b.rooms[e.room].participants, b.peerToRoom, e.participants, e.room);
    }
    if Forgets(b, e) {
      var p :| p in b.rooms[e.room].participants && p in b.peerToRoom && b.peerToRoom[p] == e.room;
      assert p in After(b, e).peerToRoom;
    }
  }

  /** While participants are mapped to their room, that is any room that has participants. */
  lemma ForgetsIfKnown(b: Book, e: Notice)
    requires MapsAgree(b)
    ensures Forgets(b, e) <==> e.Joining? && e.room in b.rooms && b.rooms[e.room].participants != map[]
  {
    if e.Joining? && e.room in b.rooms && b.rooms[e.room].participants != map[] {
      var p :| p in b.rooms[e.room].participants;
      assert p in b.peerToRoom && b.peerToRoom[p] == e.room;
    }
  }

  /** Losing signaling puts the books in order whatever they were. */
  lemma DisconnectRestores(b: Book)
    ensures var next := After(b, SignalingDisconnected);
            && MapsAgree(next) && MapsExact(next) && next.peerToRoom == map[] && next.rooms.Keys == b.rooms.Keys
            && forall r :: r in next.rooms ==>
                 && next.rooms[r].participants == map[] && next.rooms[r].myPeerId == ""
                 && next.rooms[r].username == b.rooms[r].username && next.rooms[r].roomType == b.rooms[r].roomType
  {
  }

  ghost predicate IsLife(bs: seq<Book>, es: seq<Notice>) {
    && |bs| == |es| + 1 && bs[0] == BLANK
    && forall k :: 0 <= k < |es| ==> bs[k + 1] == After(bs[k], es[k])
  }

  /** The server uses every peer id for one room only. */
  ghost predicate HasHome(es: seq<Notice>, home: PeerId -> RoomId) {
    forall k, p :: 0 <= k < |es| && p in Named(es[k]) ==> home(p) == es[k].room
  }

  ghost predicate AtHome(b: Book, home: PeerId -> RoomId) {
    forall r, p :: r in b.rooms && p in b.rooms[r].participants ==> home(p) == r
  }

  lemma HomeStep(b: Book, e: Notice, home: PeerId -> RoomId)
    requires AtHome(b, home) && forall p :: p in Named(e) ==> home(p) == e.room
    ensures AtHome(After(b, e), home) && !Clashes(b, e)
  {
    if e.Joined? && e.room in b.rooms {
      AddedIds(b.rooms[e.room].participants, b.peerToRoom, e.participants, e.room);
    }
  }

  /**
   * If the server names every peer for one room only, participants are mapped to their room in every state, and
   * nobody else is mapped as long as no room with participants was joined again.
   */
  lemma {:induction false} BooksAgree(bs: seq<Book>, es: seq<Notice>, home: PeerId -> RoomId, n: nat)
    requires IsLife(bs, es) && HasHome(es, home) && n < |bs|
    ensures MapsAgree(bs[n]) && AtHome(bs[n], home)
    ensures (forall k :: 0 <= k < n ==> !Forgets(bs[k], es[k])) ==> MapsExact(bs[n])
  {
    if n > 0 {
      BooksAgree(bs, es, home, n - 1);
      HomeStep(bs[n - 1], es[n - 1], home);
      AgreeStepIff(bs[n - 1], es[n - 1]);
      if MapsExact(bs[n - 1]) {
        ExactStepIff(bs[n - 1], es[n - 1]);
      }
    }
  }

  /** Joining a room again forgets its participants but not their mapping. */
  lemma RejoinLeavesMapping() returns (bs: seq<Book>, es: seq<Notice>, p: PeerId)
    ensures IsLife(bs, es) && HasHome(es, _ => "r") && MapsAgree(bs[|es|])
    ensures p in bs[|es|].peerToRoom && "r" in bs[|es|].rooms && p !in bs[|es|].rooms["r"].participants
  {
    p := "peer1";
    es := [Joining("r", "group", "ann"), PeerJoined("r", p, "bob"), Joining("r", "group", "ann")];
    var b1 := After(BLANK, es[0]);
    var b2 := After(b1, es[1]);
    bs := [BLANK, b1, b2, After(b2, es[2])];
    assert p in b2.rooms["r"].participants;
  }

  /** A server that names one peer for two rooms breaks the mapping. */
  lemma SecondRoomBreaksMapping() returns (bs: seq<Book>, es: seq<Notice>, p: PeerId)
    ensures IsLife(bs, es) && !MapsAgree(bs[|es|])
    ensures var b := bs[|es|];
            "r" in b.rooms && p in b.rooms["r"].participants && p in b.peerToRoom && b.peerToRoom[p] == "s"
  {
    p := "peer1";
    es := [Joining("r", "group", "ann"), Joining("s", "group", "ann"), PeerJoined("r", p, "bob"), PeerJoined("s", p, "eve")];
    var b1 := After(BLANK, es[0]);
    var b2 := After(b1, es[1]);
    var b3 := After(b2, es[2]);
    var b4 := After(b3, es[3]);
    bs := [BLANK, b1, b2, b3, b4];
    assert "r" != "s";
    assert b3.rooms.Keys == {"r", "s"} && p in b3.rooms["r"].participants;
    assert b4.rooms["r"] == b3.rooms["r"] && b4.peerToRoom[p] == "s";
    forall k | 0 <= k < |es| ensures bs[k + 1] == After(bs[k], es[k]) {
      assert k == 0 || k == 1 || k == 2 || k == 3;
    }
  }

  // ---- the controller ----

  /** The log grew by some messages, all to one peer, in order. */
  ghost predicate Handed(before: seq<Packet>, after: seq<Packet>, p: PeerId, messages: seq<string>) {
    && |after| == |before| + |messages| && after[..|before|] == before
    && forall k :: 0 <= k < |messages| ==> after[|before| + k] == Packet(p, messages[k])
  }

  /** A peer's queue with one more message at its end; of a thousand the oldest gives way. */
  function Queue(pending: map<PeerId, seq<string>>, p: PeerId, message: string): seq<string> {
    Push(if p in pending then pending[p] else [], message)
  }

  /** What was handed over, seen from the receivers. */
  lemma {:induction false} HandedIsSentTo(before: seq<Packet>, after: seq<Packet>, p: PeerId, messages: seq<string>)
    requires Handed(before, after, p, messages)
    ensures SentTo(after, p) == SentTo(before, p) + messages
    ensures forall q :: q != p ==> SentTo(after, q) == SentTo(before, q)
  {
    if messages != [] {
      var init := after[..|after| - 1];
      HandedIsSentTo(before, init, p, messages[..|messages| - 1]);
      assert messages == messages[..|messages| - 1] + [messages[|messages| - 1]];
    } else {
      assert after == before;
    }
  }

  class CommunicationController {
    const webRTC: WebRtcService
    var rooms: map<RoomId, RoomState>
    var peerToRoom: map<PeerId, RoomId>
    var pending: map<PeerId, seq<string>>
    var requests: seq<Request>
    /** The history of each peer's queue, and where the service's log stood when signaling was last lost. */
    ghost var lines: map<PeerId, Line>
    ghost var since: nat

    ghost function Contents(): Book
      reads this
    {
      Book(rooms, peerToRoom)
    }

    /** Every queue is where its history says, and what its history calls sent went to the peer's channels. */
    ghost predicate Valid()
      reads this, webRTC
    {
      && lines.Keys == pending.Keys
      && since <= |webRTC.sent|
      && (forall p :: p in pending ==> pending[p] == lines[p].queue)
      && (forall p {:trigger Faithful(lines[p])} :: p in pending ==> Faithful(lines[p]))
      && (forall p {:trigger SentTo(webRTC.sent[since..], p)} :: SentTo(webRTC.sent[since..], p) == LineOf(p).sent)
    }

    ghost function LineOf(p: PeerId): Line
      reads this
    {
      if p in lines then lines[p] else EMPTY
    }

    constructor (webRTC: WebRtcService)
      ensures Valid() && this.webRTC == webRTC && Contents() == BLANK
      ensures pending == map[] && lines == map[] && requests == []
    {
      this.webRTC := webRTC;
      rooms, peerToRoom, pending, requests, lines, since := map[], map[], map[], [], map[], |webRTC.sent|;
    }

    method JoinChat(roomId: RoomId, roomType: string, username: string)
      requires Valid()
      modifies this`requests, this`rooms
      ensures Valid()
      ensures requests == old(requests) + [JoinRoom(roomId, username, roomType)]
      ensures Contents() == After(old(Contents()), Joining(roomId, roomType, username))
      ensures rooms == old(rooms)[roomId := RoomState(roomType, "", username, map[])] && peerToRoom == old(peerToRoom)
      ensures old(MapsExact(Contents())) ==>
        (MapsExact(Contents()) <==> !Forgets(old(Contents()), Joining(roomId, roomType, username)))
      ensures old(MapsAgree(Contents()) && MapsExact(Contents())) ==>
        (MapsExact(Contents()) <==> roomId !in old(rooms) || old(rooms)[roomId].participants == map[])
    {
      ExactOrNot(Joining(roomId, roomType, username));
      requests := requests + [JoinRoom(roomId, username, roomType)];
      rooms := rooms[roomId := RoomState(roomType, "", username, map[])];
    }

    lemma ExactOrNot(e: Notice)
      ensures MapsExact(Contents()) ==> (MapsExact(After(Contents(), e)) <==> !Forgets(Contents(), e))
      ensures MapsAgree(Contents()) ==>
        (Forgets(Contents(), e) <==> e.Joining? && e.room in rooms && rooms[e.room].participants != map[])
    {
      if MapsExact(Contents()) {
        ExactStepIff(Contents(), e);
      }
      if MapsAgree(Contents()) {
        ForgetsIfKnown(Contents(), e);
      }
    }

    method LeaveChat(roomId: RoomId)
      requires Valid()
      modifies this`requests, this`rooms, this`peerToRoom, webRTC`connections
      ensures Valid()
      ensures requests == old(requests) + if roomId in old(rooms) then [LeaveRoom(roomId, old(rooms)[roomId].myPeerId)] else []
      ensures Contents() == After(old(Contents()), Leaving(roomId))
      ensures rooms == old(rooms) - {roomId}
      ensures peerToRoom == old(peerToRoom) - if roomId in old(rooms) then old(rooms)[roomId].participants.Keys else {}
      ensures old(MapsExact(Contents())) ==> MapsExact(Contents())
      ensures webRTC.connections == old(webRTC.connections) - if roomId in old(rooms) then old(rooms)[roomId].participants.Keys else {}
    {
      ExactOrNot(Leaving(roomId));
      if roomId !in rooms {
        return;
      }
      requests := requests + [LeaveRoom(roomId, rooms[roomId].myPeerId)];
      var left := rooms[roomId].participants.Keys;
      CloseAll(left);
      peerToRoom := peerToRoom - left;
      rooms := rooms - {roomId};
    }

    /** Closes the connections to some peers. */
    method CloseAll(peers: set<PeerId>)
      modifies webRTC`connections
      ensures webRTC.connections == old(webRTC.connections) - peers
    {
      var left := peers;
      while left != {}
        invariant left <= peers
        invariant webRTC.connections == old(webRTC.connections) - (peers - left)
        decreases left
      {
        var p :| p in left;
        webRTC.ClosePeerConnection(p);
        left := left - {p};
      }
      assert peers - {} == peers;
    }

    /** Signaling is back: asks to join every room again under its remembered name. */
    method OnSignalingConnected()
      requires Valid()
      modifies this`requests
      ensures Valid()
      ensures old(requests) <= requests
      ensures forall r :: r in rooms && rooms[r].username != "" ==>
        JoinRoom(r, rooms[r].username, rooms[r].roomType) in requests[|old(requests)|..]
      ensures forall j :: j in requests[|old(requests)|..] ==>
        j.JoinRoom? && j.room in rooms && j.username != "" && j == JoinRoom(j.room, rooms[j.room].username, rooms[j.room].roomType)
      ensures forall j, k :: |old(requests)| <= j < k < |requests| ==> requests[j].room != requests[k].room
    {
      var left := rooms.Keys;
      var asked: seq<Request> := [];
      while left != {}
        invariant left <= rooms.Keys
        invariant forall r :: r in rooms && r !in left && rooms[r].username != "" ==>
          JoinRoom(r, rooms[r].username, rooms[r].roomType) in asked
        invariant forall j :: j in asked ==>
          j.JoinRoom? && j.room in rooms && j.room !in left && j.username != "" && j == JoinRoom(j.room, rooms[j.room].username, rooms[j.room].roomType)
        invariant forall j, k :: 0 <= j < k < |asked| ==> asked[j].room != asked[k].room
        decreases left
      {
        var r :| r in left;
        left := left - {r};
        if rooms[r].username != "" {
          asked := asked + [JoinRoom(r, rooms[r].username, rooms[r].roomType)];
        }
      }
      requests := requests + asked;
      assert requests[|old(requests)|..] == asked;
      forall j, k | |old(requests)| <= j < k < |requests| ensures requests[j].room != requests[k].room {
        assert requests[j] == asked[j - |old(requests)|] && requests[k] == asked[k - |old(requests)|];
      }
    }

    /** Signaling is lost: nobody is known and nothing is queued any more, but the rooms are remembered. */
    method OnSignalingDisconnected()
      requires Valid()
      modifies this`rooms, this`peerToRoom, this`pending, this`lines, this`since, webRTC`connections
      ensures Valid()
      ensures Contents() == After(old(Contents()), SignalingDisconnected)
      ensures old(MapsExact(Contents())) ==> MapsExact(Contents())
      ensures pending == map[] && lines == map[] && peerToRoom == map[] && rooms.Keys == old(rooms).Keys
      ensures forall r :: r in rooms ==> rooms[r] == RoomState(old(rooms)[r].roomType, "", old(rooms)[r].username, map[])
      ensures forall r, p :: r in old(rooms) && p in old(rooms)[r].participants ==> p !in webRTC.connections
      ensures webRTC.connections == old(webRTC.connections) - Known(old(rooms), old(rooms).Keys)
    {
      ExactOrNot(SignalingDisconnected);
      EmptyRooms();
      peerToRoom, pending, lines, since := map[], map[], map[], |webRTC.sent|;
    }

    /** Closes the connection to everybody known and forgets them, but not the rooms. */
    method EmptyRooms()
      modifies this`rooms, webRTC`connections
      ensures rooms == map r | r in old(rooms) :: Emptied(old(rooms)[r])
      ensures webRTC.connections == old(webRTC.connections) - Known(old(rooms), old(rooms).Keys)
    {
      var left := rooms.Keys;
      while left != {}
        invariant left <= rooms.Keys == old(rooms).Keys
        invariant forall r :: r in left ==> rooms[r] == old(rooms)[r]
        invariant forall r :: r in rooms && r !in left ==> rooms[r] == Emptied(old(rooms)[r])
        invariant webRTC.connections == old(webRTC.connections) - Known(old(rooms), old(rooms).Keys - left)
        decreases left
      {
        var r :| r in left;
        assert Known(old(rooms), old(rooms).Keys - (left - {r})) ==
               Known(old(rooms), old(rooms).Keys - left) + old(rooms)[r].participants.Keys;
        CloseAll(rooms[r].participants.Keys);
        rooms := rooms[r := Emptied(rooms[r])];
        left := left - {r};
      }
      assert old(rooms).Keys - {} == old(rooms).Keys;
    }

    /** Adds each listed participant to a room and maps it there. */
    static method AddParticipants(known: map<PeerId, string>, mapped: map<PeerId, RoomId>, roomId: RoomId,
                                  participants: seq<Participant>)
      returns (known': map<PeerId, string>, mapped': map<PeerId, RoomId>)
      ensures known' == WithAll(known, participants) && mapped' == Mapped(mapped, participants, roomId)
    {
      known', mapped' := known, mapped;
      for j := 0 to |participants|
        invariant known' == WithAll(known, participants[..j]) && mapped' == Mapped(mapped, participants[..j], roomId)
      {
        assert participants[..j + 1][..j] == participants[..j];
        known' := known'[participants[j].peerId := participants[j].username];
        mapped' := mapped'[participants[j].peerId := roomId];
      }
      assert participants[..|participants|] == participants;
    }

    method OnSignalingJoined(roomId: RoomId, roomType: string, peerId: PeerId, participants: seq<Participant>)
      requires Valid()
      modifies this`rooms, this`peerToRoom, webRTC`localPeerId
      ensures Valid()
      ensures Contents() == After(old(Contents()), Joined(roomId, roomType, peerId, participants))
      ensures old(MapsExact(Contents())) ==> MapsExact(Contents())
      ensures webRTC.localPeerId == if roomId in old(rooms) then peerId else old(webRTC.localPeerId)
      ensures roomId !in old(rooms) ==> rooms == old(rooms) && peerToRoom == old(peerToRoom)
      ensures roomId in old(rooms) ==>
        && rooms == old(rooms)[roomId := RoomState(roomType, peerId, old(rooms)[roomId].username, rooms[roomId].participants)]
        && (forall p :: p in rooms[roomId].participants <==> p in old(rooms)[roomId].participants || exists q :: q in participants && q.peerId == p)
        && (forall p :: p in peerToRoom <==> p in old(peerToRoom) || exists q :: q in participants && q.peerId == p)
        && (forall q :: q in participants ==> peerToRoom[q.peerId] == roomId)
        && (forall j :: 0 <= j < |participants| && (forall k :: j < k < |participants| ==> participants[k].peerId != participants[j].peerId)
              ==> rooms[roomId].participants[participants[j].peerId] == participants[j].username)
    {
      ExactOrNot(Joined(roomId, roomType, peerId, participants));
      if roomId !in rooms {
        return;
      }
      webRTC.SetLocalPeerId(peerId);
      AddedIds(rooms[roomId].participants, peerToRoom, participants, roomId);
      forall j: nat | j < |participants| && forall k :: j < k < |participants| ==> participants[k].peerId != participants[j].peerId {
        ListedName(rooms[roomId].participants, participants, j);
      }
      var known, mapped := AddParticipants(rooms[roomId].participants, peerToRoom, roomId, participants);
      rooms := rooms[roomId := rooms[roomId].(myPeerId := peerId, roomType := roomType, participants := known)];
      peerToRoom := mapped;
    }

    /** In a direct room we have joined, a newly joined other peer is called. */
    method OnSignalingPeerJoined(roomId: RoomId, peerId: PeerId, username: string)
      requires Valid()
      modifies this`rooms, this`peerToRoom, webRTC`connections, webRTC`created
      ensures Valid()
      ensures Contents() == After(old(Contents()), PeerJoined(roomId, peerId, username))
      ensures roomId !in old(rooms) ==> rooms == old(rooms) && peerToRoom == old(peerToRoom)
      ensures roomId in old(rooms) ==>
        && rooms == old(rooms)[roomId := old(rooms)[roomId].(participants := old(rooms)[roomId].participants[peerId := username])]
        && peerToRoom == old(peerToRoom)[peerId := roomId]
      ensures old(MapsExact(Contents())) ==> MapsExact(Contents())
      ensures webRTC.Contents() ==
        if roomId in old(rooms) && old(rooms)[roomId].roomType == "direct"
           && old(rooms)[roomId].myPeerId != "" && peerId != old(rooms)[roomId].myPeerId
        then Initiate(old(webRTC.Contents()), peerId) else old(webRTC.Contents())
    {
      ExactOrNot(PeerJoined(roomId, peerId, username));
      if roomId !in rooms {
        return;
      }
      var state := rooms[roomId];
      rooms := rooms[roomId := state.(participants := state.participants[peerId := username])];
      peerToRoom := peerToRoom[peerId := roomId];
      if state.roomType == "direct" && state.myPeerId != "" && peerId != state.myPeerId {
        webRTC.InitiateConnection(peerId);
      }
    }

    method OnSignalingPeerLeft(roomId: RoomId, peerId: PeerId)
      requires Valid()
      modifies this`rooms, this`peerToRoom, webRTC`connections
      ensures Valid()
      ensures Contents() == After(old(Contents()), PeerLeft(roomId, peerId))
      ensures roomId !in old(rooms) ==> rooms == old(rooms) && peerToRoom == old(peerToRoom)
      ensures roomId in old(rooms) ==>
        && rooms == old(rooms)[roomId := old(rooms)[roomId].(participants := old(rooms)[roomId].participants - {peerId})]
        && peerToRoom == old(peerToRoom) - {peerId}
      ensures old(MapsExact(Contents())) ==> MapsExact(Contents())
      ensures webRTC.Contents() == if roomId in old(rooms) then Close(old(webRTC.Contents()), peerId) else old(webRTC.Contents())
    {
      ExactOrNot(PeerLeft(roomId, peerId));
      if roomId !in rooms {
        return;
      }
      var state := rooms[roomId];
      rooms := rooms[roomId := state.(participants := state.participants - {peerId})];
      peerToRoom := peerToRoom - {peerId};
      webRTC.ClosePeerConnection(peerId);
    }

    /** A crossing offer may replace our connection, but what was queued for the peer stays queued. */
    method OnSignalingOfferReceived(fromPeerId: PeerId, offer: nat)
      requires Valid()
      modifies webRTC`connections, webRTC`created
      ensures Valid() && pending == old(pending) && lines == old(lines)
      ensures webRTC.Contents() == Accept(old(webRTC.Contents()), fromPeerId, offer)
    {
      webRTC.AcceptConnection(fromPeerId, offer);
    }

    method OnWebRtcConnectionOpened(peerId: PeerId, open: set<PeerId>)
      requires Valid()
      modifies this`pending, this`lines, webRTC`sent
      ensures Valid()
      ensures LineOf(peerId) == Step(old(LineOf(peerId)), ChannelOpened(webRTC.IsDataChannelOpen(peerId, open)))
      ensures forall p :: p != peerId ==> LineOf(p) == old(LineOf(p))
      ensures peerId in webRTC.connections && peerId in open ==>
        && (peerId in pending ==> pending[peerId] == [])
        && Handed(old(webRTC.sent), webRTC.sent, peerId, if peerId in old(pending) then old(pending)[peerId] else [])
      ensures !(peerId in webRTC.connections && peerId in open) ==> webRTC.sent == old(webRTC.sent) && pending == old(pending)
      ensures forall p :: p != peerId ==> (p in pending <==> p in old(pending)) && (p in pending ==> pending[p] == old(pending)[p])
    {
      FlushPendingMessages(peerId, open);
    }

    /** Hands what is queued for a peer to its channel, oldest first, if that is open. */
    method FlushPendingMessages(peerId: PeerId, open: set<PeerId>)
      requires Valid()
      modifies this`pending, this`lines, webRTC`sent
      ensures Valid()
      ensures LineOf(peerId) == Flush(old(LineOf(peerId)), webRTC.IsDataChannelOpen(peerId, open))
      ensures forall p :: p != peerId ==> LineOf(p) == old(LineOf(p))
      ensures peerId in webRTC.connections && peerId in open ==>
        && (peerId in pending ==> pending[peerId] == [])
        && Handed(old(webRTC.sent), webRTC.sent, peerId, if peerId in old(pending) then old(pending)[peerId] else [])
      ensures !(peerId in webRTC.connections && peerId in open) ==> webRTC.sent == old(webRTC.sent) && pending == old(pending)
      ensures forall p :: p != peerId ==> (p in pending <==> p in old(pending)) && (p in pending ==> pending[p] == old(pending)[p])
    {
      if peerId !in pending || pending[peerId] == [] {
        return;
      }
      if !webRTC.IsDataChannelOpen(peerId, open) {
        return;
      }
      ghost var l := lines[peerId];
      FlushKeepsFaithful(l, true);
      SendAll(peerId, pending[peerId], open);
      pending := pending[peerId := []];
      lines := lines[peerId := Flush(l, true)];
    }

    /** Hands messages to a peer's open channel in order. */
    method SendAll(peerId: PeerId, messages: seq<string>, open: set<PeerId>)
      requires webRTC.IsDataChannelOpen(peerId, open)
      modifies webRTC`sent
      ensures Handed(old(webRTC.sent), webRTC.sent, peerId, messages)
      ensures forall i, p :: 0 <= i <= |old(webRTC.sent)| ==>
        SentTo(webRTC.sent[i..], p) == SentTo(old(webRTC.sent)[i..], p) + if p == peerId then messages else []
    {
      for k := 0 to |messages|
        invariant Handed(old(webRTC.sent), webRTC.sent, peerId, messages[..k])
        invariant forall i, p :: 0 <= i <= |old(webRTC.sent)| ==>
          SentTo(webRTC.sent[i..], p) == SentTo(old(webRTC.sent)[i..], p) + if p == peerId then messages[..k] else []
      {
        ghost var before := webRTC.sent;
        webRTC.SendMessage(peerId, messages[k], open);
        forall i, p | 0 <= i <= |before|
          ensures SentTo(webRTC.sent[i..], p) == SentTo(before[i..], p) + if p == peerId then [messages[k]] else [] {
          assert webRTC.sent[i..] == before[i..] + [Packet(peerId, messages[k])];
          assert webRTC.sent[i..][..|before| - i] == before[i..];
        }
        assert messages[..k + 1] == messages[..k] + [messages[k]];
      }
      assert messages[..|messages|] == messages;
    }

    /** Puts a message behind a peer's queue; a full queue first drops its oldest message. */
    method Enqueue(target: PeerId, content: string)
      requires Valid()
      modifies this`pending, this`lines
      ensures Valid()
      ensures LineOf(target) == Step(old(LineOf(target)), Submit(content, false))
      ensures forall p :: p != target ==> LineOf(p) == old(LineOf(p))
      ensures target in pending && pending[target] == Queue(old(pending), target, content)
      ensures forall p :: p != target ==> (p in pending <==> p in old(pending)) && (p in pending ==> pending[p] == old(pending)[p])
    {
      ghost var l := LineOf(target);
      var queue := if target in pending then pending[target] else [];
      if |queue| >= 1000 {
        queue := queue[1..];
      }
      queue := queue + [content];
      StepKeepsFaithful(l, Submit(content, false));
      ghost var next := Step(l, Submit(content, false));
      Record(target, queue, next);
    }

    /** Replaces a peer's queue; nothing is sent. */
    method Record(target: PeerId, queue: seq<string>, ghost next: Line)
      requires Valid() && Faithful(next) && next.queue == queue && next.sent == LineOf(target).sent
      modifies this`pending, this`lines
      ensures Valid()
      ensures LineOf(target) == next && forall p :: p != target ==> LineOf(p) == old(LineOf(p))
      ensures pending == old(pending)[target := queue]
    {
      pending := pending[target := queue];
      lines := lines[target := next];
    }

    /** Queues a message for the other participant of a direct room and sends at once if possible. */
    method HandleDirectMessage(roomId: RoomId, content: string, open: set<PeerId>) returns (out: Delivery)
      requires Valid()
      modifies this`pending, this`lines, webRTC`connections, webRTC`created, webRTC`sent
      ensures Valid()
      ensures !out.Queued? ==> pending == old(pending) && lines == old(lines) && webRTC.Contents() == old(webRTC.Contents()) && webRTC.sent == old(webRTC.sent)
      ensures roomId !in rooms <==> out == UnknownRoom
      ensures roomId in rooms && rooms[roomId].participants.Keys <= {rooms[roomId].myPeerId} ==> out == NoPeer
      ensures roomId in rooms && !(rooms[roomId].participants.Keys <= {rooms[roomId].myPeerId}) && "" !in rooms[roomId].participants
        ==> out.Queued?
      ensures out.Queued? ==>
        && out.target in rooms[roomId].participants && out.target != rooms[roomId].myPeerId && out.target != ""
        && webRTC.Contents() == Initiate(old(webRTC.Contents()), out.target)
        && LineOf(out.target) == Step(old(LineOf(out.target)), Submit(content, webRTC.IsDataChannelOpen(out.target, open)))
        && (forall p :: p != out.target ==> LineOf(p) == old(LineOf(p)))
        && (forall p :: p != out.target ==> (p in pending <==> p in old(pending)) && (p in pending ==> pending[p] == old(pending)[p]))
        && out.target in pending && out.target in webRTC.connections
        && var queue := (if out.target !in old(pending) then [] else if |old(pending)[out.target]| < 1000 then old(pending)[out.target]
                         else old(pending)[out.target][1..]) + [content];
           if out.target in open then pending[out.target] == [] && Handed(old(webRTC.sent), webRTC.sent, out.target, queue)
           else pending[out.target] == queue && webRTC.sent == old(webRTC.sent)
    {
      if roomId !in rooms {
        return UnknownRoom;
      }
      var others := rooms[roomId].participants.Keys - {rooms[roomId].myPeerId};
      if others == {} {
        assert rooms[roomId].participants.Keys <= {rooms[roomId].myPeerId};
        return NoPeer;
      }
      var target :| target in others;
      if target == "" {
        return NoPeer;
      }
      webRTC.InitiateConnection(target);
      Enqueue(target, content);
      FlushPendingMessages(target, open);
      return Queued(target);
    }
  }
}
