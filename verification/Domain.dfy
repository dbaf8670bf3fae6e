/** Records shared by the room store and the room registry. */
module Domain {

  datatype Option<+T> = None | Some(value: T)

  type PeerId = string
  type RoomId = string

  /** The values a stored acknowledgement cursor can take. */
  const INT64_MAX: int := 0x7fff_ffff_ffff_ffff
  type Int64 = x: int | -0x8000_0000_0000_0000 <= x <= 0x7fff_ffff_ffff_ffff

  datatype RoomType = Direct | Group

  /** A connection handle. Two handles are the same connection exactly when their ids agree. */
  datatype Session = Session(id: nat)

  datatype Member = Member(username: string, room: RoomId, acked: Int64)

  datatype GroupMessage = GroupMessage(room: RoomId, from: PeerId, payload: string)

  /** What a session knows about one room it joined. */
  datatype ClientInfo = ClientInfo(room: RoomId, peer: PeerId, username: string, roomType: RoomType)

  /** A member as others see it. */
  datatype Participant = Participant(peerId: PeerId, username: string)

  function Max(x: int, y: int): int {
    if x < y then y else x
  }

  ghost predicate Distinct<T>(s: seq<T>) {
    forall i, j :: 0 <= i < j < |s| ==> s[i] != s[j]
  }
}
