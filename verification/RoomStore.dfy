/** The persistent store of rooms, members and buffered group messages. */
module RoomStore {
  import opened Domain

  /** The three tables and the sequence counter. */
  datatype Store = Store(
    rooms: map<RoomId, RoomType>,
    members: map<PeerId, Member>,
    messages: map<int, GroupMessage>,
    nextSeq: nat)

  datatype MemberRow = MemberRow(id: PeerId, member: Member)

  datatype MessageRow = MessageRow(seqNo: int, message: GroupMessage)

  const EMPTY_STORE := Store(map[], map[], map[], 0)

  ghost function MembersOf(st: Store, r: RoomId): set<PeerId> {
    set p | p in st.members && st.members[p].room == r
  }

  /** Every stored message carries a sequence number that was assigned. */
  ghost predicate SeqsAssigned(st: Store) {
    forall q :: q in st.messages ==> 1 <= q <= st.nextSeq
  }

  /** Some current member of the room has not acknowledged message q. */
  ghost predicate Needed(st: Store, r: RoomId, q: int) {
    exists p :: p in MembersOf(st, r) && st.members[p].acked < q
  }

  // ---- what each store operation does to the tables ----

  ghost function SaveMessage(st: Store, msg: GroupMessage): Store {
    st.(messages := st.messages[st.nextSeq + 1 := msg], nextSeq := st.nextSeq + 1)
  }

  ghost function SetAcked(st: Store, p: PeerId, upTo: Int64): Store {
    if p in st.members then st.(members := st.members[p := st.members[p].(acked := upTo)]) else st
  }

  /** Cleanup keeps exactly the messages of other rooms and those some member still needs. */
  ghost function Cleanup(st: Store, r: RoomId): Store {
    if MembersOf(st, r) == {} then st
    else st.(messages := map q | q in st.messages && (st.messages[q].room == r ==> Needed(st, r, q))
                             :: st.messages[q])
  }

  ghost function DropMessages(st: Store, r: RoomId): Store {
    st.(messages := map q | q in st.messages && st.messages[q].room != r :: st.messages[q])
  }

  ghost function DropRoom(st: Store, r: RoomId): Store {
    DropMessages(st, r).(members := st.members - MembersOf(st, r), rooms := st.rooms - {r})
  }

  /** The messages of a room above a cursor. */
  ghost function After(st: Store, r: RoomId, cursor: int): set<int> {
    set q | q in st.messages && st.messages[q].room == r && q > cursor
  }

  /** Opening a database file again: the tables survive, the counter is read off the largest key. */
  ghost function Reopen(st: Store): Store {
    st.(nextSeq := MaxKey(st.messages.Keys))
  }

  ghost function MaxKey(keys: set<int>): (m: nat)
    ensures forall k :: k in keys ==> k <= m
    ensures m == 0 || m in keys
  {
    if forall k :: k in keys ==> k <= 0 then 0
    else
      var k :| k in keys && k > 0;
      MaxExists(keys, k);
      var m :| m in keys && m > 0 && forall k :: k in keys ==> k <= m;
      m
  }

  lemma {:induction false} MaxExists(keys: set<int>, k: int)
    requires k in keys
    ensures exists m :: m in keys && m >= k && forall j :: j in keys ==> j <= m
    decreases keys
  {
    if j :| j in keys && j > k {
      MaxExists(keys - {k}, j);
      var m :| m in keys - {k} && m >= j && forall i :: i in keys - {k} ==> i <= m;
      assert m in keys && m >= k;
      forall i | i in keys ensures i <= m {
        if i != k {
          assert i in keys - {k};
        }
      }
    }
  }

  // ---- rows read from a table ----

  /** Rows list the members of a room, each once, in whatever order the table gives them. */
  ghost predicate ListsMembers(st: Store, r: RoomId, rows: seq<MemberRow>) {
    && (forall i :: 0 <= i < |rows| ==> rows[i].id in MembersOf(st, r) && rows[i].member == st.members[rows[i].id])
    && (forall p :: p in MembersOf(st, r) ==> exists i :: 0 <= i < |rows| && rows[i].id == p)
    && (forall i, j :: 0 <= i < j < |rows| ==> rows[i].id != rows[j].id)
  }

  /** As many rows as members. */
  lemma {:induction false} RowCount(ids: set<PeerId>, rows: seq<MemberRow>)
    requires forall i :: 0 <= i < |rows| ==> rows[i].id in ids
    requires forall p :: p in ids ==> exists i :: 0 <= i < |rows| && rows[i].id == p
    requires forall i, j :: 0 <= i < j < |rows| ==> rows[i].id != rows[j].id
    ensures |rows| == |ids|
  {
    if |rows| == 0 {
      assert ids == {};
    } else {
      var last := |rows| - 1;
      forall p | p in ids - {rows[last].id} ensures exists i :: 0 <= i < |rows[..last]| && rows[..last][i].id == p {
        var i :| 0 <= i < |rows| && rows[i].id == p;
        assert rows[..last][i].id == p;
      }
      RowCount(ids - {rows[last].id}, rows[..last]);
    }
  }

  ghost predicate StrictlyAscending(s: seq<int>) {
    forall i, j :: 0 <= i < j < |s| ==> s[i] < s[j]
  }

  /** The elements of a set in ascending order. */
  function Ascending(s: set<int>): (r: seq<int>)
    ensures StrictlyAscending(r)
    ensures forall x :: x in r <==> x in s
  {
    if s == {} then []
    else
      MinExists(s);
      var m :| m in s && forall x :: x in s ==> m <= x;
      [m] + Ascending(s - {m})
  }

  lemma {:induction false} MinExists(s: set<int>)
    requires |s| > 0
    ensures exists m :: m in s && forall x :: x in s ==> m <= x
  {
    assert (forall y :: y !in s) ==> s == {};
    var y :| y in s;
    if |s - {y}| == 0 {
      assert s == {y};
    } else {
      MinExists(s - {y});
      var m :| m in s - {y} && forall x :: x in s - {y} ==> m <= x;
      var best := if m < y then m else y;
      assert best in s;
      forall x | x in s ensures best <= x {
        if x != y {
          assert x in s - {y};
        }
      }
    }
  }

  /** The store as the server uses it: three tables and one counter, updated in place. */
  class SqliteRoomStore {
    var rooms: map<RoomId, RoomType>
    var members: map<PeerId, Member>
    var messages: map<int, GroupMessage>
    var nextSeq: nat

    ghost function Contents(): Store
      reads this
    {
      Store(rooms, members, messages, nextSeq)
    }

    /** A new, empty database. */
    constructor ()
      ensures Contents() == EMPTY_STORE
    {
      rooms, members, messages, nextSeq := map[], map[], map[], 0;
    }

    /** An existing database file: the counter restarts from the largest stored key. */
    constructor Open(rooms: map<RoomId, RoomType>, members: map<PeerId, Member>, messages: map<int, GroupMessage>)
      ensures forall n: nat :: Contents() == Reopen(Store(rooms, members, messages, n))
    {
      var keys := Ascending(messages.Keys);
      this.rooms, this.members, this.messages := rooms, members, messages;
      nextSeq := if |keys| > 0 && keys[|keys| - 1] > 0 then keys[|keys| - 1] else 0;
      new;
      assert forall k :: k in messages.Keys <==> k in keys;
      assert forall k :: k in messages.Keys ==> k <= nextSeq;
      assert nextSeq == 0 || nextSeq in messages.Keys;
      assert nextSeq == MaxKey(messages.Keys);
    }

    method SaveRoom(r: RoomId, t: RoomType)
      modifies this
      ensures Contents() == old(Contents()).(rooms := old(rooms)[r := t])
    {
      rooms := rooms[r := t];
    }

    method FindRoom(r: RoomId) returns (t: Option<RoomType>)
      ensures t == if r in rooms then Some(rooms[r]) else None
    {
      t := if r in rooms then Some(rooms[r]) else None;
    }

    /** Removes the members of a room, its messages, and the room. */
    method RemoveRoom(r: RoomId)
      modifies this
      ensures Contents() == DropRoom(old(Contents()), r)
    {
      var rows := FindMembersByRoom(r);
      ghost var start := Contents();
      var i := 0;
      while i < |rows|
        invariant 0 <= i <= |rows|
        invariant Contents() == start.(members := members)
        invariant members == start.members - set j | 0 <= j < i :: rows[j].id
      {
        members := members - {rows[i].id};
        i := i + 1;
      }
      assert (set j | 0 <= j < |rows| :: rows[j].id) == MembersOf(start, r);
      RemoveGroupMessagesByRoom(r);
      rooms := rooms - {r};
    }

    method SaveMember(p: PeerId, m: Member)
      modifies this
      ensures Contents() == old(Contents()).(members := old(members)[p := m])
    {
      members := members[p := m];
    }

    method FindMember(p: PeerId) returns (m: Option<Member>)
      ensures m == if p in members then Some(members[p]) else None
    {
      m := if p in members then Some(members[p]) else None;
    }

    method FindMembersByRoom(r: RoomId) returns (rows: seq<MemberRow>)
      ensures ListsMembers(Contents(), r, rows)
    {
      rows := [];
      var left := set p | p in members && members[p].room == r;
      ghost var all := left;
      assert all == MembersOf(Contents(), r);
      while left != {}
        invariant left <= all
        invariant forall i :: 0 <= i < |rows| ==>
          rows[i].id in all && rows[i].id !in left && rows[i].member == members[rows[i].id]
        invariant forall p :: p in all && p !in left ==> exists i :: 0 <= i < |rows| && rows[i].id == p
        invariant forall i, j :: 0 <= i < j < |rows| ==> rows[i].id != rows[j].id
        decreases left
      {
        var p :| p in left;
        ghost var before := rows;
        rows := rows + [MemberRow(p, members[p])];
        left := left - {p};
        assert rows[|before|].id == p;
        forall o | o in all && o !in left ensures exists i :: 0 <= i < |rows| && rows[i].id == o {
          if o != p {
            var i :| 0 <= i < |before| && before[i].id == o;
            assert rows[i].id == o;
          }
        }
      }
    }

    method RemoveMember(p: PeerId)
      modifies this
      ensures Contents() == old(Contents()).(members := old(members) - {p})
    {
      members := members - {p};
    }

    /** Assigns the next sequence number and stores the message under it. */
    method SaveGroupMessage(msg: GroupMessage) returns (seqNo: int)
      modifies this
      ensures Contents() == SaveMessage(old(Contents()), msg)
      ensures seqNo == nextSeq == old(nextSeq) + 1
    {
      nextSeq := nextSeq + 1;
      messages := messages[nextSeq := msg];
      seqNo := nextSeq;
    }

    /** The messages of a room above a cursor, in ascending order of sequence number. */
    method GetMessagesAfter(r: RoomId, cursor: int) returns (rows: seq<MessageRow>)
      ensures forall i :: 0 <= i < |rows| ==>
        rows[i].seqNo in After(Contents(), r, cursor) && rows[i].message == messages[rows[i].seqNo]
      ensures forall q :: q in After(Contents(), r, cursor) ==> exists i :: 0 <= i < |rows| && rows[i].seqNo == q
      ensures forall i, j :: 0 <= i < j < |rows| ==> rows[i].seqNo < rows[j].seqNo
    {
      var keys := Ascending(set q | q in messages && messages[q].room == r && q > cursor);
      assert forall q :: q in keys <==> q in After(Contents(), r, cursor);
      assert forall i :: 0 <= i < |keys| ==> keys[i] in keys;
      var table := messages;
      rows := seq(|keys|, i requires 0 <= i < |keys| && keys[i] in table => MessageRow(keys[i], table[keys[i]]));
      forall q | q in After(Contents(), r, cursor) ensures exists i :: 0 <= i < |rows| && rows[i].seqNo == q {
        var i :| 0 <= i < |keys| && keys[i] == q;
        assert rows[i].seqNo == q;
      }
    }

    method UpdateLastAckedSeq(p: PeerId, upTo: Int64)
      modifies this
      ensures Contents() == SetAcked(old(Contents()), p, upTo)
    {
      if p in members {
        members := members[p := members[p].(acked := upTo)];
      }
    }

    /** Deletes, row by row, the messages every member of the room has acknowledged. */
    method CleanupMessages(r: RoomId)
      requires SeqsAssigned(Contents())
      modifies this
      ensures Contents() == Cleanup(old(Contents()), r)
    {
      ghost var start := Contents();
      var rows := FindMembersByRoom(r);
      if |rows| == 0 {
        return;
      }
      var minSeq: Int64 := INT64_MAX;
      for i := 0 to |rows|
        invariant forall j :: 0 <= j < i ==> minSeq <= rows[j].member.acked
        invariant minSeq == INT64_MAX || exists j :: 0 <= j < i && minSeq == rows[j].member.acked
      {
        if rows[i].member.acked < minSeq {
          minSeq := rows[i].member.acked;
        }
      }
      assert rows[0].member.acked <= INT64_MAX;
      MinimumDecides(start, r, rows, minSeq);
      if minSeq <= 0 {
        assert Cleanup(start, r).messages == start.messages;
        return;
      }
      DeleteUpTo(r, minSeq);
      assert messages == Cleanup(start, r).messages;
    }

    /** Selects the messages of a room up to a bound and removes them one by one. */
    method DeleteUpTo(r: RoomId, bound: int)
      modifies this`messages
      ensures messages == map q | q in old(messages) && !(old(messages)[q].room == r && q <= bound) :: old(messages)[q]
    {
      var toDelete := Ascending(set q | q in messages && messages[q].room == r && q <= bound);
      ghost var start := messages;
      for i := 0 to |toDelete|
        invariant messages == start - set j | 0 <= j < i :: toDelete[j]
      {
        messages := messages - {toDelete[i]};
      }
      assert (set j | 0 <= j < |toDelete| :: toDelete[j]) == set q | q in toDelete;
    }

    method RemoveGroupMessagesByRoom(r: RoomId)
      modifies this`messages
      ensures Contents() == DropMessages(old(Contents()), r)
    {
      var msgs := Ascending(set q | q in messages && messages[q].room == r);
      ghost var start := messages;
      for i := 0 to |msgs|
        invariant messages == start - set j | 0 <= j < i :: msgs[j]
      {
        messages := messages - {msgs[i]};
      }
      assert (set j | 0 <= j < |msgs| :: msgs[j]) == set q | q in msgs;
    }
  }

  /** A message is above the smallest cursor exactly when some member has not acknowledged it. */
  lemma MinimumDecides(st: Store, r: RoomId, rows: seq<MemberRow>, minSeq: int)
    requires ListsMembers(st, r, rows) && |rows| > 0
    requires forall j :: 0 <= j < |rows| ==> minSeq <= rows[j].member.acked
    requires exists j :: 0 <= j < |rows| && minSeq == rows[j].member.acked
    ensures MembersOf(st, r) != {}
    ensures forall q :: Needed(st, r, q) <==> q > minSeq
  {
    var j :| 0 <= j < |rows| && minSeq == rows[j].member.acked;
    assert rows[j].id in MembersOf(st, r);
    forall q ensures Needed(st, r, q) <==> q > minSeq {
      if Needed(st, r, q) {
        var p :| p in MembersOf(st, r) && st.members[p].acked < q;
        var i :| 0 <= i < |rows| && rows[i].id == p;
      }
    }
  }
}
