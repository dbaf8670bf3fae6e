/** One client's peer connections and how it settles crossing offers. */
module WebRtc {
  import opened Domain

  /**
   * The connection held for a peer: which connection object it is, whether we opened it, whether its local
   * description was sent, and the offer its remote description belongs to.
   */
  datatype Connection = Connection(pc: nat, initiator: bool, announced: bool, remote: Option<nat>)

  /** The client's own id, its connections by peer, and how many connection objects it created. */
  datatype Service = Service(localId: PeerId, connections: map<PeerId, Connection>, created: nat)

  /** Local descriptions on their way through the signaling server. An answer names the offer it answers. */
  datatype Signal =
    | Offer(from: PeerId, to: PeerId, pc: nat)
    | Answer(from: PeerId, to: PeerId, pc: nat)

  /** Lexicographic order of ids. */
  predicate Less(a: string, b: string) {
    if b == "" then false
    else if a == "" then true
    else if a[0] != b[0] then a[0] < b[0]
    else Less(a[1..], b[1..])
  }

  /** Of two different ids exactly one is the smaller. */
  lemma {:induction false} LessIsStrictOrder(a: string, b: string)
    ensures !(Less(a, b) && Less(b, a))
    ensures a != b ==> Less(a, b) || Less(b, a)
    ensures a == b ==> !Less(a, b)
  {
    if a != "" && b != "" && a[0] == b[0] {
      LessIsStrictOrder(a[1..], b[1..]);
      assert a == [a[0]] + a[1..] && b == [b[0]] + b[1..];
    }
  }

  /** Where two texts first differ, the one that ends there, or has the smaller character there, is the smaller. */
  lemma {:induction false} FirstDifferenceDecides(a: string, b: string, k: nat)
    requires k <= |a| && k < |b| && a[..k] == b[..k] && (k < |a| ==> a[k] < b[k])
    ensures Less(a, b) && !Less(b, a)
  {
    if k > 0 {
      assert a[0] == a[..k][0] && b[0] == b[..k][0];
      assert a[1..][..k - 1] == a[..k][1..] && b[1..][..k - 1] == b[..k][1..];
      FirstDifferenceDecides(a[1..], b[1..], k - 1);
    }
  }

  predicate Polite(s: Service, peer: PeerId) {
    s.localId != "" && Less(s.localId, peer)
  }

  function Setup(s: Service, peer: PeerId, initiator: bool): Service {
    s.(connections := s.connections[peer := Connection(s.created, initiator, false, None)], created := s.created + 1)
  }

  function Initiate(s: Service, peer: PeerId): Service {
    if peer in s.connections then s else Setup(s, peer, true)
  }

  function Close(s: Service, peer: PeerId): Service {
    s.(connections := s.connections - {peer})
  }

  /** A crossing offer is taken only by the polite side that still waits on its own. */
  predicate Ignores(s: Service, peer: PeerId) {
    peer in s.connections && !(s.connections[peer].initiator && Polite(s, peer))
  }

  function Accept(s: Service, peer: PeerId, offer: nat): Service {
    if Ignores(s, peer) then s
    else
      var next := Setup(Close(s, peer), peer, false);
      next.(connections := next.connections[peer := next.connections[peer].(remote := Some(offer))])
  }

  function TakeAnswer(s: Service, peer: PeerId, offer: nat): Service {
    if peer !in s.connections then s
    else s.(connections := s.connections[peer := s.connections[peer].(remote := Some(offer))])
  }

  /** The connection's local description becomes ready: an offer, or the answer to the offer taken. */
  predicate Ready(s: Service, peer: PeerId) {
    peer in s.connections && !s.connections[peer].announced
    && (s.connections[peer].initiator || s.connections[peer].remote.Some?)
  }

  function Announcement(s: Service, peer: PeerId): Signal
    requires Ready(s, peer)
  {
    var c := s.connections[peer];
    if c.initiator then Offer(s.localId, peer, c.pc) else Answer(s.localId, peer, c.remote.value)
  }

  function Announce(s: Service, peer: PeerId): Service
    requires Ready(s, peer)
  {
    s.(connections := s.connections[peer := s.connections[peer].(announced := true)])
  }

  /** At most one peer's connection is different. */
  ghost predicate OthersKept(before: map<PeerId, Connection>, after: map<PeerId, Connection>, peer: PeerId) {
    forall q :: q != peer ==> (q in after <==> q in before) && (q in after ==> after[q] == before[q])
  }

  /** A message handed to the data channel of a peer. */
  datatype Packet = Packet(to: PeerId, data: string)

  /** The messages handed to one peer's channels, in order. */
  function SentTo(log: seq<Packet>, p: PeerId): seq<string> {
    if log == [] then []
    else
      var last := log[|log| - 1];
      SentTo(log[..|log| - 1], p) + if last.to == p then [last.data] else []
  }

  /** The service as the client runs it. The parameter open says for which peers a data channel is open. */
  class WebRtcService {
    var localPeerId: PeerId
    var connections: map<PeerId, Connection>
    var created: nat
    var sent: seq<Packet>

    function Contents(): Service
      reads this
    {
      Service(localPeerId, connections, created)
    }

    constructor ()
      ensures Contents() == Service("", map[], 0) && sent == []
    {
      localPeerId, connections, created, sent := "", map[], 0, [];
    }

    method SetLocalPeerId(peerId: PeerId)
      modifies this`localPeerId
      ensures localPeerId == peerId
    {
      localPeerId := peerId;
    }

    /** Afterwards there is a connection; a new one is our own call, still unanswered. */
    method InitiateConnection(peerId: PeerId)
      modifies this`connections, this`created
      ensures Contents() == Initiate(old(Contents()), peerId)
      ensures peerId in connections && OthersKept(old(connections), connections, peerId)
      ensures peerId in old(connections) ==> connections == old(connections)
      ensures peerId !in old(connections) ==> connections[peerId] == Connection(old(created), true, false, None)
    {
      if peerId in connections {
        return;
      }
      SetupPeerConnection(peerId, true);
    }

    /** We end up bound to the offer unless we hold a connection that is not our own polite call. */
    method AcceptConnection(peerId: PeerId, offer: nat)
      modifies this`connections, this`created
      ensures Contents() == Accept(old(Contents()), peerId, offer)
      ensures peerId in connections && OthersKept(old(connections), connections, peerId)
      ensures if peerId in old(connections) && !(old(connections)[peerId].initiator && localPeerId != "" && Less(localPeerId, peerId))
              then connections == old(connections)
              else connections[peerId] == Connection(old(created), false, false, Some(offer))
    {
      if peerId in connections {
        var polite := localPeerId != "" && Less(localPeerId, peerId);
        if connections[peerId].initiator && polite {
          ClosePeerConnection(peerId);
        } else {
          return;
        }
      }
      assert connections == old(connections) - {peerId};
      SetupPeerConnection(peerId, false);
      connections := connections[peerId := connections[peerId].(remote := Some(offer))];
    }

    /** The peer's connection, whoever opened it, is bound to the answered offer; none is made. */
    method OnAnswerReceived(fromPeerId: PeerId, offer: nat)
      modifies this`connections
      ensures Contents() == TakeAnswer(old(Contents()), fromPeerId, offer)
      ensures connections.Keys == old(connections).Keys && OthersKept(old(connections), connections, fromPeerId)
      ensures fromPeerId in connections ==> connections[fromPeerId] == old(connections)[fromPeerId].(remote := Some(offer))
    {
      if fromPeerId !in connections {
        return;
      }
      connections := connections[fromPeerId := connections[fromPeerId].(remote := Some(offer))];
    }

    method SetupPeerConnection(peerId: PeerId, isInitiator: bool)
      modifies this`connections, this`created
      ensures Contents() == Setup(old(Contents()), peerId, isInitiator)
    {
      connections := connections[peerId := Connection(created, isInitiator, false, None)];
      created := created + 1;
    }

    method ClosePeerConnection(peerId: PeerId)
      modifies this`connections
      ensures Contents() == Close(old(Contents()), peerId)
      ensures peerId !in connections && OthersKept(old(connections), connections, peerId)
    {
      if peerId in connections {
        connections := connections - {peerId};
      }
    }

    predicate IsDataChannelOpen(peerId: PeerId, open: set<PeerId>)
      reads this`connections
    {
      peerId in connections && peerId in open
    }

    /** Hands a message to the peer's channel, or drops it with an error if there is no open one. */
    method SendMessage(peerId: PeerId, data: string, open: set<PeerId>)
      modifies this`sent
      ensures sent == old(sent) + if peerId in connections && peerId in open then [Packet(peerId, data)] else []
    {
      if !IsDataChannelOpen(peerId, open) {
        return;
      }
      sent := sent + [Packet(peerId, data)];
    }
  }
}
