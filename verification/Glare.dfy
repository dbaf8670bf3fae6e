/** Two clients that may call each other at the same moment always end up on one connection. */
module Glare {
  import opened Domain
  import opened WebRtc

  /** The client with the smaller id, the other client, and the signals under way, in no order. */
  datatype Pair = Pair(polite: Service, other: Service, wire: multiset<Signal>)

  /** Two distinct non-empty ids, each client knowing its own, nothing begun between the two. */
  ghost predicate Initial(n: Pair) {
    && n.polite.localId != "" && n.other.localId != "" && Less(n.polite.localId, n.other.localId)
    && n.other.localId !in n.polite.connections && n.polite.localId !in n.other.connections && n.wire == multiset{}
  }

  datatype Action =
    | StartPolite
    | StartOther
    | SpeakPolite
    | SpeakOther
    | Deliver(signal: Signal)

  ghost predicate Possible(n: Pair, a: Action) {
    match a
    case SpeakPolite => Ready(n.polite, n.other.localId)
    case SpeakOther => Ready(n.other, n.polite.localId)
    case Deliver(signal) => signal in n.wire
    case _ => true
  }

  function Receive(s: Service, signal: Signal): Service {
    match signal
    case Offer(from, to, pc) => Accept(s, from, pc)
    case Answer(from, to, pc) => TakeAnswer(s, from, pc)
  }

  ghost function Act(n: Pair, a: Action): Pair
    requires Possible(n, a)
  {
    match a
    case StartPolite => n.(polite := Initiate(n.polite, n.other.localId))
    case StartOther => n.(other := Initiate(n.other, n.polite.localId))
    case SpeakPolite =>
      n.(polite := Announce(n.polite, n.other.localId),
         wire := n.wire + multiset{Announcement(n.polite, n.other.localId)})
    case SpeakOther =>
      n.(other := Announce(n.other, n.polite.localId),
         wire := n.wire + multiset{Announcement(n.other, n.polite.localId)})
    case Deliver(signal) =>
      var rest := n.(wire := n.wire - multiset{signal});
      if signal.to == n.polite.localId then rest.(polite := Receive(n.polite, signal))
      else if signal.to == n.other.localId then rest.(other := Receive(n.other, signal))
      else rest
  }

  // ---- the state of the exchange ----

  function Conn(s: Service, peer: PeerId): Option<Connection> {
    if peer in s.connections then Some(s.connections[peer]) else None
  }

  /** The polite side's view of the connection, and the other side's. */
  function Mine(n: Pair): Option<Connection> {
    Conn(n.polite, n.other.localId)
  }

  function Theirs(n: Pair): Option<Connection> {
    Conn(n.other, n.polite.localId)
  }

  ghost predicate Called(c: Option<Connection>) {
    c.Some? && c.value.initiator
  }

  ghost predicate Received(c: Option<Connection>) {
    c.Some? && !c.value.initiator
  }

  function One(b: bool): nat {
    if b then 1 else 0
  }

  /** A receiver bound to the caller's offer, whose answer is unsent, under way, or applied. */
  ghost predicate Bound(receiver: Connection, caller: Connection, answer: Signal, wire: multiset<Signal>) {
    && receiver.remote == Some(caller.pc) && caller.announced
    && (caller.remote == None || (caller.remote == Some(caller.pc) && receiver.announced))
    && wire[answer] == One(receiver.announced && caller.remote == None)
  }

  /** The other side called: the polite side took that offer, or still will; its own offers are in vain. */
  ghost predicate OtherCalled(n: Pair)
    requires Called(Theirs(n))
  {
    var p, o, c := n.polite.localId, n.other.localId, Theirs(n).value.pc;
    && (forall x :: x in n.wire ==> x == Offer(o, p, c) || x == Answer(p, o, c) || (x.Offer? && x.from == p && x.to == o))
    && (if Received(Mine(n)) then
          n.wire[Offer(o, p, c)] == 0 && Bound(Mine(n).value, Theirs(n).value, Answer(p, o, c), n.wire)
        else
          && Theirs(n).value.remote == None && (Mine(n).Some? ==> Mine(n).value.remote == None)
          && n.wire[Offer(o, p, c)] == One(Theirs(n).value.announced) && n.wire[Answer(p, o, c)] == 0)
  }

  /** The other side took the polite side's offer. */
  ghost predicate OtherReceived(n: Pair)
    requires Received(Theirs(n))
  {
    var p, o := n.polite.localId, n.other.localId;
    && Called(Mine(n))
    && (forall x :: x in n.wire ==> x == Answer(o, p, Mine(n).value.pc))
    && Bound(Theirs(n).value, Mine(n).value, Answer(o, p, Mine(n).value.pc), n.wire)
  }

  /** The other side has nothing yet: the polite side is idle or calling. */
  ghost predicate OtherIdle(n: Pair) {
    if Mine(n).None? then n.wire == multiset{}
    else
      var offer := Offer(n.polite.localId, n.other.localId, Mine(n).value.pc);
      && Called(Mine(n)) && Mine(n).value.remote == None
      && (forall x :: x in n.wire ==> x == offer)
      && n.wire[offer] == One(Mine(n).value.announced)
  }

  /** What holds of every state two clients can reach. */
  ghost predicate Coherent(n: Pair) {
    && n.polite.localId != "" && n.other.localId != "" && Less(n.polite.localId, n.other.localId)
    && (Called(Theirs(n)) ==> OtherCalled(n))
    && (Received(Theirs(n)) ==> OtherReceived(n))
    && (Theirs(n).None? ==> OtherIdle(n))
  }

  // ---- every step keeps it, and makes progress ----

  lemma StartKeepsCoherent(n: Pair, a: Action)
    requires Coherent(n) && (a.StartPolite? || a.StartOther?)
    ensures Coherent(Act(n, a))
  {
    LessIsStrictOrder(n.polite.localId, n.other.localId);
  }

  /** The polite side sends its offer, or its answer to the call it took. */
  lemma SpeakPoliteKeepsCoherent(n: Pair)
    requires Coherent(n) && Possible(n, SpeakPolite)
    ensures Coherent(Act(n, SpeakPolite))
  {
    LessIsStrictOrder(n.polite.localId, n.other.localId);
    var next := Act(n, SpeakPolite);
    assert Mine(next) == Some(Mine(n).value.(announced := true)) && Theirs(next) == Theirs(n);
  }

  /** The other side sends its offer, or its answer to the call it took. */
  lemma SpeakOtherKeepsCoherent(n: Pair)
    requires Coherent(n) && Possible(n, SpeakOther)
    ensures Coherent(Act(n, SpeakOther))
  {
    LessIsStrictOrder(n.polite.localId, n.other.localId);
    var next := Act(n, SpeakOther);
    assert Theirs(next) == Some(Theirs(n).value.(announced := true)) && Mine(next) == Mine(n);
  }

  /** Both sides hold nothing but their own call, if that. */
  lemma DeliverWhileIdle(n: Pair, x: Signal)
    requires Coherent(n) && x in n.wire && Theirs(n).None?
    ensures Coherent(Act(n, Deliver(x)))
  {
    LessIsStrictOrder(n.polite.localId, n.other.localId);
    var next := Act(n, Deliver(x));
    assert x == Offer(n.polite.localId, n.other.localId, Mine(n).value.pc);
    assert Received(Theirs(next)) && Mine(next) == Mine(n);
    assert forall y :: y in next.wire ==> y in n.wire && (y == x ==> n.wire[x] > 1);
  }

  lemma DeliverWhileReceived(n: Pair, x: Signal)
    requires Coherent(n) && x in n.wire && Received(Theirs(n))
    ensures Coherent(Act(n, Deliver(x)))
  {
    LessIsStrictOrder(n.polite.localId, n.other.localId);
    var next := Act(n, Deliver(x));
    assert x == Answer(n.other.localId, n.polite.localId, Mine(n).value.pc);
    assert Theirs(next) == Theirs(n) && Mine(next) == Some(Mine(n).value.(remote := Some(x.pc)));
  }

  /** The other side ignores offers; the polite side takes the one that counts. */
  lemma DeliverWhileCalled(n: Pair, x: Signal)
    requires Coherent(n) && x in n.wire && Called(Theirs(n))
    ensures Coherent(Act(n, Deliver(x)))
  {
    LessIsStrictOrder(n.polite.localId, n.other.localId);
    var next := Act(n, Deliver(x));
    var p, o, c := n.polite.localId, n.other.localId, Theirs(n).value.pc;
    assert Polite(n.polite, o) && !Polite(n.other, p);
    if x == Offer(o, p, c) {
      assert !Received(Mine(n));
      assert Theirs(next) == Theirs(n) && Received(Mine(next));
    } else if x == Answer(p, o, c) {
      assert Mine(next) == Mine(n) && Theirs(next) == Some(Theirs(n).value.(remote := Some(c)));
    } else {
      assert Mine(next) == Mine(n) && Theirs(next) == Theirs(n);
    }
  }

  lemma DeliverKeepsCoherent(n: Pair, x: Signal)
    requires Coherent(n) && x in n.wire
    ensures Coherent(Act(n, Deliver(x)))
  {
    if Theirs(n).None? {
      DeliverWhileIdle(n, x);
    } else if Called(Theirs(n)) {
      DeliverWhileCalled(n, x);
    } else {
      DeliverWhileReceived(n, x);
    }
  }

  lemma ActKeepsCoherent(n: Pair, a: Action)
    requires Coherent(n) && Possible(n, a)
    ensures Coherent(Act(n, a))
  {
    match a
    case Deliver(x) => DeliverKeepsCoherent(n, x);
    case StartPolite => StartKeepsCoherent(n, a);
    case StartOther => StartKeepsCoherent(n, a);
    case SpeakPolite => SpeakPoliteKeepsCoherent(n);
    case SpeakOther => SpeakOtherKeepsCoherent(n);
  }

  function Weight(c: Option<Connection>): nat {
    match c
    case None => 6
    case Some(c) => if c.initiator then (if c.announced then 3 else 5) else (if c.announced then 0 else 2)
  }

  /** What is left to do. */
  ghost function Work(n: Pair): nat {
    Weight(Mine(n)) + Weight(Theirs(n)) + |n.wire|
  }

  /** Receiving a signal never adds work on a connection. */
  lemma ReceiveIsLight(s: Service, x: Signal, peer: PeerId)
    ensures Weight(Conn(Receive(s, x), peer)) <= Weight(Conn(s, peer))
  {
  }

  /** Every step either changes nothing or leaves less to do. */
  lemma StepsMakeProgress(n: Pair, a: Action)
    requires Coherent(n) && Possible(n, a)
    ensures Act(n, a) == n || Work(Act(n, a)) < Work(n)
  {
    LessIsStrictOrder(n.polite.localId, n.other.localId);
    if a.Deliver? {
      DeliverMakesProgress(n, a.signal);
    }
  }

  lemma DeliverMakesProgress(n: Pair, x: Signal)
    requires x in n.wire
    ensures Work(Act(n, Deliver(x))) < Work(n)
  {
    ReceiveIsLight(n.polite, x, n.other.localId);
    ReceiveIsLight(n.other, x, n.polite.localId);
    assert |n.wire - multiset{x}| == |n.wire| - 1;
  }

  /** An answer always arrives at the caller it answers, which still waits for it. */
  lemma AnswersFitTheirOffer(n: Pair, x: Signal)
    requires Coherent(n) && x in n.wire && x.Answer?
    ensures x.to == n.polite.localId ==> Called(Mine(n)) && Mine(n).value.pc == x.pc && Mine(n).value.remote == None
    ensures x.to == n.other.localId ==> Called(Theirs(n)) && Theirs(n).value.pc == x.pc && Theirs(n).value.remote == None
    ensures x.to == n.polite.localId || x.to == n.other.localId
  {
    LessIsStrictOrder(n.polite.localId, n.other.localId);
  }

  // ---- whole exchanges ----

  ghost predicate IsPath(ns: seq<Pair>, acts: seq<Action>) {
    && |ns| == |acts| + 1
    && forall k :: 0 <= k < |acts| ==> Possible(ns[k], acts[k]) && ns[k + 1] == Act(ns[k], acts[k])
  }

  lemma PathsJoin(ns: seq<Pair>, acts: seq<Action>, rest: seq<Pair>, later: seq<Action>)
    requires IsPath(ns, acts) && IsPath(rest, later) && rest[0] == ns[|acts|]
    ensures IsPath(ns + rest[1..], acts + later) && (ns + rest[1..])[|acts + later|] == rest[|later|]
  {
    var longer, all := ns + rest[1..], acts + later;
    forall k | 0 <= k < |all| ensures Possible(longer[k], all[k]) && longer[k + 1] == Act(longer[k], all[k]) {
      if k >= |acts| {
        assert longer[k] == rest[k - |acts|] && longer[k + 1] == rest[k + 1 - |acts|] && all[k] == later[k - |acts|];
      }
    }
  }

  ghost predicate IsExchange(ns: seq<Pair>, acts: seq<Action>) {
    IsPath(ns, acts) && Initial(ns[0])
  }

  lemma {:induction false} ExchangeStaysCoherent(ns: seq<Pair>, acts: seq<Action>, k: nat)
    requires IsExchange(ns, acts) && k < |ns|
    ensures Coherent(ns[k])
  {
    if k > 0 {
      ExchangeStaysCoherent(ns, acts, k - 1);
      ActKeepsCoherent(ns[k - 1], acts[k - 1]);
    }
  }

  /** So no answer to an abandoned offer is ever applied, in any exchange. */
  lemma NoStaleAnswer(ns: seq<Pair>, acts: seq<Action>, k: nat, x: Signal)
    requires IsExchange(ns, acts) && k < |ns| && x in ns[k].wire && x.Answer?
    ensures x.to == ns[k].polite.localId ==> Called(Mine(ns[k])) && Mine(ns[k]).value.pc == x.pc && Mine(ns[k]).value.remote == None
    ensures x.to == ns[k].other.localId ==> Called(Theirs(ns[k])) && Theirs(ns[k]).value.pc == x.pc && Theirs(ns[k]).value.remote == None
    ensures x.to == ns[k].polite.localId || x.to == ns[k].other.localId
  {
    ExchangeStaysCoherent(ns, acts, k);
    AnswersFitTheirOffer(ns[k], x);
  }

  /** How many of the first steps changed anything. */
  ghost function Changes(ns: seq<Pair>, k: nat): nat
    requires k < |ns|
  {
    if k == 0 then 0 else Changes(ns, k - 1) + One(ns[k] != ns[k - 1])
  }

  /** No exchange changes anything more than twelve times. */
  lemma {:induction false} ExchangesAreShort(ns: seq<Pair>, acts: seq<Action>, k: nat)
    requires IsExchange(ns, acts) && k < |ns|
    ensures Changes(ns, k) + Work(ns[k]) <= 12
  {
    if k > 0 {
      ExchangesAreShort(ns, acts, k - 1);
      ExchangeStaysCoherent(ns, acts, k - 1);
      StepsMakeProgress(ns[k - 1], acts[k - 1]);
    }
  }

  /** Nothing under way and nothing to say. */
  ghost predicate Quiet(n: Pair) {
    n.wire == multiset{} && !Ready(n.polite, n.other.localId) && !Ready(n.other, n.polite.localId)
  }

  /** One side called, the other is bound to exactly that call, and the caller has its answer. */
  ghost predicate Linked(caller: Option<Connection>, receiver: Option<Connection>) {
    && Called(caller) && Received(receiver)
    && receiver.value.remote == Some(caller.value.pc) && caller.value.remote == Some(caller.value.pc)
  }

  ghost predicate Begun(n: Pair) {
    Mine(n).Some? || Theirs(n).Some?
  }

  lemma {:induction false} BegunStaysBegun(ns: seq<Pair>, acts: seq<Action>, j: nat, k: nat)
    requires IsExchange(ns, acts) && j < k < |ns|
    requires acts[j].StartPolite? || acts[j].StartOther?
    ensures Begun(ns[k])
  {
    if k == j + 1 {
    } else {
      BegunStaysBegun(ns, acts, j, k - 1);
      ExchangeStaysCoherent(ns, acts, k - 1);
      BegunStep(ns[k - 1], acts[k - 1]);
    }
  }

  lemma BegunStep(n: Pair, a: Action)
    requires Coherent(n) && Possible(n, a) && Begun(n)
    ensures Begun(Act(n, a))
  {
    LessIsStrictOrder(n.polite.localId, n.other.localId);
  }

  /** Unless nothing is under way and nothing is left to say, a delivery or an announcement makes progress. */
  lemma NotQuietCanMove(n: Pair) returns (a: Action)
    requires Coherent(n) && !Quiet(n)
    ensures !a.StartPolite? && !a.StartOther? && Possible(n, a)
    ensures Act(n, a) != n && Work(Act(n, a)) < Work(n)
  {
    LessIsStrictOrder(n.polite.localId, n.other.localId);
    if n.wire != multiset{} {
      var x :| x in n.wire;
      a := Deliver(x);
      DeliverMakesProgress(n, x);
    } else if Ready(n.polite, n.other.localId) {
      a := SpeakPolite;
      assert Announcement(n.polite, n.other.localId) in Act(n, a).wire;
    } else {
      a := SpeakOther;
      assert Announcement(n.other, n.polite.localId) in Act(n, a).wire;
    }
    StepsMakeProgress(n, a);
  }

  /** No step but a fresh call changes anything any more. */
  ghost predicate Stuck(n: Pair) {
    forall a: Action :: Possible(n, a) && !a.StartPolite? && !a.StartOther? ==> Act(n, a) == n
  }

  lemma QuietIsLinked(ns: seq<Pair>, acts: seq<Action>, j: nat, k: nat)
    requires IsExchange(ns, acts) && j < k < |ns|
    requires acts[j].StartPolite? || acts[j].StartOther?
    requires Quiet(ns[k])
    ensures Linked(Mine(ns[k]), Theirs(ns[k])) || Linked(Theirs(ns[k]), Mine(ns[k]))
  {
    BegunStaysBegun(ns, acts, j, k);
    ExchangeStaysCoherent(ns, acts, k);
  }

  /**
   * However the two clients' calls and the delivery of their signals interleave: once either has called, an
   * exchange that cannot go on has linked them by one connection with one caller, and an exchange in which every
   * step changes something cannot go on for more than twelve steps.
   */
  lemma GlareConverges(ns: seq<Pair>, acts: seq<Action>, j: nat, k: nat)
    requires IsExchange(ns, acts) && j < k < |ns|
    requires acts[j].StartPolite? || acts[j].StartOther?
    ensures Stuck(ns[k]) ==> Linked(Mine(ns[k]), Theirs(ns[k])) || Linked(Theirs(ns[k]), Mine(ns[k]))
    ensures (forall i :: 0 <= i < k ==> ns[i + 1] != ns[i]) ==> k <= 12
  {
    ExchangeStaysCoherent(ns, acts, k);
    if Stuck(ns[k]) {
      if !Quiet(ns[k]) {
        var a := NotQuietCanMove(ns[k]);
      }
      QuietIsLinked(ns, acts, j, k);
    }
    if forall i :: 0 <= i < k ==> ns[i + 1] != ns[i] {
      AllChange(ns, k);
      ExchangesAreShort(ns, acts, k);
    }
  }

  lemma {:induction false} AllChange(ns: seq<Pair>, k: nat)
    requires k < |ns| && forall i :: 0 <= i < k ==> ns[i + 1] != ns[i]
    ensures Changes(ns, k) == k
  {
    if k > 0 {
      AllChange(ns, k - 1);
      assert ns[k - 1 + 1] != ns[k - 1];
    }
  }

  /** From every coherent state some steps other than fresh calls lead to quiet. */
  lemma {:induction false} QuietIsReachable(n: Pair) returns (ns: seq<Pair>, acts: seq<Action>)
    requires Coherent(n)
    ensures IsPath(ns, acts) && ns[0] == n && Quiet(ns[|acts|])
    decreases Work(n)
  {
    if Quiet(n) {
      ns, acts := [n], [];
    } else {
      var a := NotQuietCanMove(n);
      ActKeepsCoherent(n, a);
      var next := Act(n, a);
      var rest, later := QuietIsReachable(next);
      assert IsPath([n, next], [a]);
      PathsJoin([n, next], [a], rest, later);
      ns, acts := [n, next] + rest[1..], [a] + later;
    }
  }

  /** So every exchange in which somebody called can be finished, and then the two are linked. */
  lemma ExchangesCanFinish(ns: seq<Pair>, acts: seq<Action>, j: nat) returns (longer: seq<Pair>, all: seq<Action>)
    requires IsExchange(ns, acts) && j < |acts|
    requires acts[j].StartPolite? || acts[j].StartOther?
    ensures IsExchange(longer, all) && ns <= longer && acts <= all
    ensures var last := longer[|all|]; Linked(Mine(last), Theirs(last)) || Linked(Theirs(last), Mine(last))
  {
    ExchangeStaysCoherent(ns, acts, |acts|);
    var rest, later := QuietIsReachable(ns[|acts|]);
    longer, all := ns + rest[1..], acts + later;
    PathsJoin(ns, acts, rest, later);
    QuietIsLinked(longer, all, j, |all|);
  }
}
