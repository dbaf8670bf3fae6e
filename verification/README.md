# Morze: verified model of the signaling server and the client's direct connections

Morze is a chat system: a C++ signaling server keeps rooms, members and buffered group messages, and clients
exchange direct messages over WebRTC. This project models the parts where state, concurrency or arithmetic make
mistakes easy, and proves what their users rely on.

Server

- `PeerIds`, `Domain`: generated identifiers and the shared records.
- `RoomStore`: the three tables with the sequence counter, as a class whose loops (minimum cursor, row-by-row
  deletion) are proved equal to declarative table operations.
- `Registry`: what every registry operation does to store and indexes, and the invariant; `RegistryInvariant`: every
  operation keeps it; `RoomRegistry`: the registry as a class with its loops, proved equal to `Registry`.
- `Operations`: when each operation is accepted, how it is refused and what it changes, on the tables and texts themselves.
- `Runs`: runs of any length from an empty store. Nothing unacknowledged is lost, nothing is kept that nobody needs,
  identities are stable and never reused, sequence numbers increase, rooms live exactly as long as their members.
- `Restart`: what survives opening the database again, with exact conditions.
- `MessageHandler`: each client message, what it changes and whom the server writes to.
- `Delivery`: the handlers of different sessions interleaved between their locked steps; at-least-once delivery and
  one live copy for each session.
- `Gaps`: which messages a member can miss when it acknowledges what it is handed, and exactly when.
- `Outbox`: one session's write queue.

Client

- `WebRtc`, `Glare`: one client's peer connections, and two clients calling each other with their signals reordered.
- `DirectQueue`, `Controller`: the bounded queue per peer and the room bookkeeping around it.
- `Stun`: decoding a STUN Binding response (RFC 5389, sections 6, 15, 15.1 and 15.2).

Metrics

- `Durations`: the time an issue spent in each status.

## How to read it

A class that updates fields in place is proved against functions on values: each method's contract says that its new
state is that function of its old state. What the program promises is then proved about those functions, for every
input and every run. Those functions do not stand alone: `Operations`, the literal clauses of `Join`, `Route`, `SendText`,
`HandleMessage` and `HandleDirectMessage`, and the lemmas on answers, queues and bytes say what each operation does without
naming them. Each registry method holds one lock for its whole body, so a run is a sequence of events
(`Runs.Event`), each applied as a whole. A connection handle may expire between any two events; the parameter `dead`
is the set of expired handles, for which locking a weak handle fails. Expired handles make no calls and are not reused.

The methods of `RoomRegistry` and `MessageHandler` require only what holds of every database the server ever wrote:
unique names, stored rooms, assigned numbers, and one entry for each session and room (kept by `Restart.TablesStaySound`). Which sessions a method
reaches is stated through the room's online members; while store and indexes agree (`Indexed`), as they do in every run
from an empty store and after a restart until a stored identifier is handed out again, these are the room's audience.

## Where the code and its documentation differ

- server/README.md says that the server keeps no message history. The code stores group messages until every member
  of the room has acknowledged them; the model follows the code.
- A comment in the join handler says that buffered messages are delivered on reconnect. The code delivers them on every
  join of a group room, so a new member receives whatever is still stored; the model follows the code.

## Results that are negative

- Acknowledgements are not checked, so a broadcast can be stored that everyone acknowledged in advance
  (`Restart.GarbageIsPossible`); `Runs.TidyStep` says exactly which step does this.
- The peer counter restarts at 1, so after a restart a stored member's identifier can be handed to somebody else. This
  is possible exactly when the store holds a member (`Restart.RestartIsSafeIff`).
- The sequence counter restarts from the largest stored number, so after a restart a member's cursor can be ahead of it
  and new messages are not buffered for it (`Restart.RestartCanHideMessages`). Some run after a restart does this exactly
  if some group member's cursor is above the largest stored key (`Restart.RestartHidesIff`).
- The client acknowledges every number it is handed, and an acknowledgement covers all smaller numbers. Two send loops
  can hand it the later of two messages first; if its connection is lost in between, it never gets the earlier one
  (`Gaps.MessagesCanBeMissed`). `Gaps.NothingMissedIff` is the exact condition, for stored and for cleaned-up messages:
  no session ends before it got a message at or below its member's acknowledgements. With one worker thread, the
  default, this cannot happen (`Gaps.OneAtATimeMissesNothing`).
- A signal may name a peer identifier that its receiver holds in another room (`Runs.SignalCanNameAnotherRoom`);
  `Runs.RouteStaysInDirectRoom` says when the receiver is the peer that was named.
- The stream writes the front of the queue in place, and closing clears the queue. A read that fails during a write
  frees the bytes being written (`Outbox.WriteCanDangle`). `Outbox.WriteCarriesPayloadIff`: a successful write carries
  the next accepted payload exactly if no read failed before it ended.
- Joining a chat again forgets its participants but not their mapping to the room (`Controller.RejoinLeavesMapping`).
  `Controller.ExactStepIff`: nothing else leaves a mapping without a participant.
- Participants stay mapped to their room exactly unless the server names one peer for two rooms
  (`Controller.AgreeStepIff`, `Controller.SecondRoomBreaksMapping`). Within one run of the server a peer keeps its room
  and its identifier is not reused (`Runs.IdentityStable`, `Runs.NeverReissued`); after a restart both can fail
  (`Restart.RestartIsSafeIff`).

## Model

| member | source | states |
|---|---|---|
| PeerIds.ValueOfDecimal | server/src/domain/room_registry.cpp:35-38 | the decimal text of a counter determines the counter |
| PeerIds.PeerNameReads | server/src/domain/room_registry.cpp:35-38 | an id is "peer" followed by digits that read as the counter; the first is "peer1" |
| PeerIds.PeerNameInjective | server/src/domain/room_registry.cpp:35-38 | two counters give the same peer id only if they are equal |
| RoomStore.SqliteRoomStore.Open | server/src/infrastructure/persistence/sqlite_room_store.cpp:47-56 | opening keeps the tables and sets the counter to the largest stored key, or 0 |
| RoomStore.SqliteRoomStore.RemoveRoom | server/src/infrastructure/persistence/sqlite_room_store.cpp:78-85 | the loop removes exactly the room's members; messages and room go with them, other rooms stay |
| RoomStore.SqliteRoomStore.FindMembersByRoom | server/src/infrastructure/persistence/sqlite_room_store.cpp:100-104 | every member of the room is listed exactly once, with its stored data |
| RoomStore.SqliteRoomStore.SaveGroupMessage | server/src/infrastructure/persistence/sqlite_room_store.cpp:112-117 | the message is stored under the next number, which is returned |
| RoomStore.Ascending | server/src/infrastructure/persistence/sqlite_room_store.cpp:119-126 | sorting keys: strictly ascending and the same elements |
| RoomStore.SqliteRoomStore.GetMessagesAfter | server/src/infrastructure/persistence/sqlite_room_store.cpp:119-126 | exactly the room's messages above the cursor, strictly ascending |
| RoomStore.SqliteRoomStore.UpdateLastAckedSeq | server/src/infrastructure/persistence/sqlite_room_store.cpp:128-135 | the cursor becomes whatever was sent; an unknown member changes nothing |
| RoomStore.MinimumDecides | server/src/infrastructure/persistence/sqlite_room_store.cpp:144-151 | a number is above the minimum cursor exactly if some member has not acknowledged it |
| RoomStore.SqliteRoomStore.CleanupMessages | server/src/infrastructure/persistence/sqlite_room_store.cpp:137-159 | minimum and deletion loops keep exactly the messages some member of the room still needs and touch no other room |
| RoomStore.SqliteRoomStore.DeleteUpTo | server/src/infrastructure/persistence/sqlite_room_store.cpp:153-158 | deleting row by row removes exactly the room's messages up to the bound |
| RoomStore.SqliteRoomStore.RemoveGroupMessagesByRoom | server/src/infrastructure/persistence/sqlite_room_store.cpp:161-168 | deleting row by row removes exactly the room's messages |
| Registry.Find | server/src/domain/room_registry.cpp:40-51 | an entry for the room is found exactly if there is one |
| Registry.MatchIndex | server/src/domain/room_registry.cpp:353-365 | the first entry that passes both optional checks, or the end |
| Registry.ConnectionIsOneEntry | server/include/domain/room_registry.hpp:130-131 | an alive connection is accounted for by exactly one entry of its session, which agrees with the store |
| Registry.SamePeer | server/src/domain/room_registry.cpp:93-98 | an alive session speaks for at most one peer of a room |
| Registry.AudienceIsOnline | server/src/domain/room_registry.cpp:53-77 | looking up online members by connection reaches exactly the sessions that joined the room |
| Registry.FanoutIsAudience | server/src/domain/room_registry.cpp:53-77 | while store and indexes agree, whoever a room lookup reaches is the room's alive sessions other than the excluded peer's, each once |
| Registry.GreetingFanout | server/src/domain/room_registry.cpp:161-180 | leaving out only a peer that is offline, the lookup reaches the whole audience |
| Registry.NextIsFresh | server/src/domain/room_registry.cpp:191 | the next generated id is not held by any stored member |
| Registry.NewcomerJoins | server/src/domain/room_registry.cpp:189-203 | while no handle is expired, an accepted join under a free name adds exactly one member, entry and connection |
| Registry.DieKeepsInv | server/include/domain/room_registry.hpp:130-131 | a weak handle may expire at any time without breaking the invariant |
| RegistryInvariant.JoinIsAdmissible | server/src/domain/room_registry.cpp:130-159 | an accepted join that generates no stored id saves the same pair again, or a new pair for which name and capacity are free |
| RegistryInvariant.JoinKeepsInv | server/src/domain/room_registry.cpp:79-204 | joining keeps store and both indexes in agreement if the id it generates is not stored, and then keeps all ids issued |
| RegistryInvariant.RouteKeepsInv | server/src/domain/room_registry.cpp:206-250 | routing keeps the invariant, even when it erases an expired handle |
| RegistryInvariant.BroadcastKeepsInv | server/src/domain/room_registry.cpp:252-278 | broadcasting keeps the invariant |
| RegistryInvariant.AcknowledgeKeepsInv | server/src/domain/room_registry.cpp:303-320 | any acknowledgement keeps the invariant |
| RegistryInvariant.LeaveKeepsStoreInv | server/src/domain/room_registry.cpp:386-399 | a room and its messages go exactly with its last member; names and capacity stay valid |
| RegistryInvariant.LeaveKeepsInv | server/src/domain/room_registry.cpp:344-405 | leaving keeps the invariant |
| RegistryInvariant.DisconnectKeepsInv | server/src/domain/room_registry.cpp:322-342 | disconnecting keeps the invariant, also for a session in many rooms |
| RegistryInvariant.JoinKeepsTables | server/src/domain/room_registry.cpp:79-204 | joining keeps names unique and every member's room stored even if it hands out a stored id |
| RegistryInvariant.LeaveKeepsTables | server/src/domain/room_registry.cpp:386-399 | so does leaving, even under a stale entry |
| RegistryInvariant.JoinKeepsSingle | server/src/domain/room_registry.cpp:93-98 | a join never gives a session a second entry for a room |
| Operations.HolderExists | server/src/domain/room_registry.cpp:130-139 | the stored name is found exactly if some member of the room has it, and it is that member |
| Operations.JoinAcceptedIff | server/src/domain/room_registry.cpp:79-159 | on the tables: a join is accepted exactly if room and name are given, the session is not in the room, the type fits, nobody online has the name, and the name is stored or there is room |
| Operations.JoinRefusals | server/src/domain/room_registry.cpp:86-159 | each refusal with its text and exactly when it applies, in the order of the checks |
| Operations.JoinEffect | server/src/domain/room_registry.cpp:161-204 | the tables, entries and connections after a join, column by column: a stored place comes back unchanged, a new one has the next id and cursor 0; a refused join changes nothing |
| Operations.RouteDeliveredIff | server/src/domain/room_registry.cpp:206-250 | a signal is delivered exactly if the sender is in the direct room and the named peer is online and connected to a session in the room |
| Operations.RouteRefusals | server/src/domain/room_registry.cpp:213-247 | each refusal of a signal with its text and when it applies |
| Operations.RouteEffect | server/src/domain/room_registry.cpp:228-240 | routing changes nothing but that an expired target is forgotten |
| Operations.BroadcastAcceptedIff | server/src/domain/room_registry.cpp:258-269 | a group message is accepted exactly if the session has an entry for that group room, whatever other rooms it is in; the refusals |
| Operations.BroadcastEffect | server/src/domain/room_registry.cpp:271-278 | the message is stored under the next number with the sender's own id and payload, and nothing else but expired handles goes |
| Operations.PendingMeans | server/src/domain/room_registry.cpp:280-301 | buffered for a member: the messages of its room above its cursor, no others |
| Operations.AcknowledgeEffect | server/src/domain/room_registry.cpp:303-320 | the cursor becomes the given number, and exactly the room's messages that no member is behind go |
| Operations.AcknowledgeRefused | server/src/domain/room_registry.cpp:307-311 | without an entry for the room nothing changes |
| Operations.LeaveAcceptedIff | server/src/domain/room_registry.cpp:353-372 | a departure applies to the first entry with the given room and peer, and to none exactly if there is none |
| Operations.LeaveStoreEffect | server/src/domain/room_registry.cpp:386-399 | the member goes, the room exactly with its last member, and the room's messages that nobody is behind |
| Operations.LeaveEffect | server/src/domain/room_registry.cpp:374-404 | exactly that entry, its connection and expired handles of its room go |
| Operations.DisconnectEffect | server/src/domain/room_registry.cpp:322-342 | all entries of the session go; a connection goes exactly if it is one of the session's peers or an expired handle of one of its rooms; the tables stay |
| RoomRegistry.RoomRegistry.constructor | server/src/domain/room_registry.cpp:10-12 | empty indexes and a fresh peer counter over any store; indexes agree with it, and all ids are issued exactly if it has no members |
| RoomRegistry.RoomRegistry.GeneratePeerId | server/src/domain/room_registry.cpp:35-38 | the id names the counter, which advances by one |
| RoomRegistry.RoomRegistry.FindClient | server/src/domain/room_registry.cpp:40-51 | the loop finds the session's entry for the room |
| RoomRegistry.RoomRegistry.CollectOnlinePeers | server/src/domain/room_registry.cpp:53-77 | the connections of exactly the online members other than one, each member once; expired handles of that room are erased |
| RoomRegistry.RoomRegistry.Greet | server/src/domain/room_registry.cpp:161-180 | participants and sessions to notify, in step, for exactly the online members other than the returning one |
| RoomRegistry.RoomRegistry.Enter | server/src/domain/room_registry.cpp:130-203 | the username's own offline place is taken back, else a new one if name and capacity allow |
| RoomRegistry.RoomRegistry.FindPlace | server/src/domain/room_registry.cpp:130-159 | the username's stored place unless it is online, or a new one unless a direct room already has two members |
| RoomRegistry.RoomRegistry.Join | server/src/domain/room_registry.cpp:79-204 | accepted exactly under the conditions of Operations.JoinAcceptedIff, stated on the tables; a stored name gets its own id back, room, type, entry and connection are as told; a refused join changes nothing; an accepted one notifies exactly the room's online members, which is its whole audience while the indexes agree |
| RoomRegistry.RoomRegistry.Route | server/src/domain/room_registry.cpp:206-250 | delivered exactly if the sender is in the direct room and the target online in a session of that room, under the sender's own id for it; else the first applicable error, and an expired target is erased |
| RoomRegistry.RoomRegistry.Broadcast | server/src/domain/room_registry.cpp:252-278 | stored under a new number; recipients are the connections of exactly the other online members, which are the other alive sessions, each once, while the indexes agree |
| RoomRegistry.RoomRegistry.GetPendingMessages | server/src/domain/room_registry.cpp:280-301 | exactly the room's messages above the member's cursor, strictly ascending |
| RoomRegistry.RoomRegistry.AcknowledgeMessages | server/src/domain/room_registry.cpp:303-320 | cursor and cleanup for a joined session, an error and no change for any other |
| RoomRegistry.RoomRegistry.Leave | server/src/domain/room_registry.cpp:344-405 | member, entry and connection go, the room with the last member; the other online members are notified, which are the other alive sessions while the indexes agree |
| RoomRegistry.RoomRegistry.Depart | server/src/domain/room_registry.cpp:374-404 | the one entry's member, connection and entry go, and exactly the other online members of its room are to be told |
| RoomRegistry.RoomRegistry.RemoveFromStore | server/src/domain/room_registry.cpp:386-399 | last member: room and messages removed; otherwise cleanup without the leaver's cursor |
| RoomRegistry.RoomRegistry.Disconnect | server/src/domain/room_registry.cpp:322-342 | one report per room the session was in, for the members online at that point, never for the session itself while the indexes agree; its entries and connections go, the store stays |
| Runs.RunStaysGood | server/include/domain/room_registry.hpp:126-132 | indexes, store and counters agree in every state of every run from an empty store |
| Runs.MemberStep | server/src/domain/room_registry.cpp:182-195 | no step changes a member's room or name, or its cursor except its own acknowledgement |
| Runs.CalmMemberStep | server/src/domain/room_registry.cpp:182-195 | the same of any step that hands out no stored id, from any state whose indexes agree |
| Runs.IssuedStep | server/src/domain/room_registry.cpp:189-195 | no step brings back an identifier that was issued before and is gone |
| Runs.NeverReissued | server/src/domain/room_registry.cpp:35-38 | an identifier whose member left is never given out again |
| Runs.IdentityStable | server/src/domain/room_registry.cpp:130-195 | a peer keeps room, name and, without own acknowledgements, cursor across any disconnects and rejoins |
| Runs.RejoinReturnsPeer | server/src/domain/room_registry.cpp:182-188 | rejoining under the same room and name returns the same identifier and cursor |
| Runs.RejoinSucceeds | server/src/domain/room_registry.cpp:130-203 | in every state of every run a stored offline member can join again, also in a full direct room: it is accepted, gets its id and connection, and no stored member changes |
| Runs.SignalIsDelivered | server/src/domain/room_registry.cpp:206-250 | in every state of every run two sessions alive in one direct room can signal each other |
| Runs.SpeakerIsHeard | server/src/domain/room_registry.cpp:252-278 | in every state of every run a session alive in a group room can speak there under its own id |
| Runs.PendingStep | server/src/infrastructure/persistence/sqlite_room_store.cpp:119-159 | a pending message stays pending through any step but the member's own acknowledgement or departure |
| Runs.CalmPendingStep | server/src/infrastructure/persistence/sqlite_room_store.cpp:119-159 | the same of any step that hands out no stored id, from any state whose indexes agree |
| Runs.NothingUnacknowledgedIsLost | server/src/infrastructure/persistence/sqlite_room_store.cpp:112-159 | every message stored for a member's room since it joined, above everything it acknowledged, is still stored unchanged and pending for it |
| Runs.BroadcastIsNotLost | server/src/domain/room_registry.cpp:271-277 | an accepted broadcast, with its payload, stays pending for every such member of its room |
| Runs.FirstCursor | server/src/domain/room_registry.cpp:191-194 | members appear only by joining and start with nothing acknowledged |
| Runs.SeqsIncrease | server/src/infrastructure/persistence/sqlite_room_store.cpp:112-117 | assigned numbers strictly increase across rooms and never overwrite a stored message |
| Runs.LeaveTidies | server/src/domain/room_registry.cpp:386-399 | a departure leaves no message that nobody needs |
| Runs.TidyStep | server/src/infrastructure/persistence/sqlite_room_store.cpp:128-159 | a step stores or keeps an unneeded message exactly if it broadcasts a number every member acknowledged in advance |
| Runs.TidyRunIff | server/src/infrastructure/persistence/sqlite_room_store.cpp:128-159 | every state so far is tidy exactly if no step so far broadcast a number everyone had acknowledged in advance |
| Runs.NoGarbage | server/src/infrastructure/persistence/sqlite_room_store.cpp:137-159 | if only assigned numbers are acknowledged, every stored message is needed by a current member in every state |
| Runs.RoomTypeStep | server/src/domain/room_registry.cpp:102-125 | a room's type does not change while the room exists |
| Runs.GroupOnlyStep | server/src/domain/room_registry.cpp:265-274 | messages are stored for group rooms only |
| Runs.RoomLifetime | server/src/domain/room_registry.cpp:386-399 | a room exists exactly while it has members, holds all stored messages, and a direct one has at most two members |
| Runs.RouteStaysInDirectRoom | server/src/domain/room_registry.cpp:220-249 | a routed signal reaches the sender or the only other member; it is the named peer exactly if that peer is in the room |
| Runs.SignalCanNameAnotherRoom | server/src/domain/room_registry.cpp:220-249 | a concrete run after which a signal naming an identifier from another room is routed |
| Runs.DepartureLeavesNoTrace | server/src/domain/room_registry.cpp:322-342 | after a disconnect no entry or connection of the session is left, the store is unchanged, every other audience member stays |
| Restart.ReopenedSeqIsFresh | server/src/infrastructure/persistence/sqlite_room_store.cpp:51-55 | after reopening the next number exceeds every stored one |
| Restart.CounterSurvivesIff | server/src/infrastructure/persistence/sqlite_room_store.cpp:51-55 | the counter resumes where it stopped exactly if the last message is still stored or none ever was |
| Restart.BroadcastIsPendingIff | server/src/infrastructure/persistence/sqlite_room_store.cpp:112-126 | a new broadcast is buffered for a member exactly if its cursor is not ahead of the counter |
| Restart.JoinKeepsMembersIff | server/src/domain/room_registry.cpp:189-195 | a first join keeps all stored memberships exactly if the generated id is not stored yet |
| Restart.TablesStaySound | server/src/infrastructure/persistence/sqlite_room_store.cpp:47-56 | after any restart names stay unique, members' rooms stored, numbers assigned and entries single, in every state of every run |
| Restart.FreeIdsKeepIndexed | server/include/domain/room_registry.hpp:126-132 | while no stored id is handed out after a restart, store and indexes agree in every state |
| Restart.PendingSurvivesRestart | server/src/infrastructure/persistence/sqlite_room_store.cpp:119-159 | while no stored id is handed out after a restart, a message pending for a member stays pending until it acknowledges up to it or leaves |
| Restart.NewcomersJoin | server/include/domain/room_registry.hpp:132 | after a restart newcomers are given the first identifiers in order, whoever holds them |
| Restart.RestartIsSafeIff | server/include/domain/room_registry.hpp:132 | some run after a restart gives a stored member's id away exactly if the store holds a member |
| Restart.GarbageIsPossible | server/src/infrastructure/persistence/sqlite_room_store.cpp:128-135 | a concrete run keeps a message that nobody needs |
| Restart.CursorsAreOld | server/src/infrastructure/persistence/sqlite_room_store.cpp:128-135 | after a restart, a positive cursor of a member that acknowledges nothing belongs to an unchanged old membership of a room of unchanged type |
| Restart.RejoinsAfterRestart | server/src/domain/room_registry.cpp:182-188 | a stored group member gets its id and cursor back by joining under its name after a restart |
| Restart.AheadIsHidden | server/src/infrastructure/persistence/sqlite_room_store.cpp:51-55 | a member whose cursor is above the largest stored key misses the buffered copy of the first broadcast, even after rejoining |
| Restart.RestartHidesIff | server/src/infrastructure/persistence/sqlite_room_store.cpp:51-55 | some run after a restart hides a broadcast from a member that acknowledged nothing in it exactly if some group member's cursor is above the largest stored key |
| Restart.RestartCanHideMessages | server/src/infrastructure/persistence/sqlite_room_store.cpp:51-55 | a concrete run of honest acknowledgements and one after the restart in which a broadcast is stored but not buffered for the present member |
| Restart.RestartCanReplaceMembers | server/include/domain/room_registry.hpp:132 | a concrete run after which a newcomer's join replaces a stored member |
| MessageHandler.OneCopyEach | server/src/application/message_handler.cpp:237-238 | writing to a set of sessions gives each exactly one copy and nobody else any |
| MessageHandler.LiveCopies | server/src/application/message_handler.cpp:230-240 | while the indexes agree, counting the echo, an accepted broadcast adds exactly one copy for each session of the room and none for any other |
| MessageHandler.JoinTellsAudience | server/src/application/message_handler.cpp:125-128 | while the indexes agree, an accepted join is announced to every alive session of the room, once each |
| MessageHandler.LeaveTellsAudience | server/src/application/message_handler.cpp:199-205 | while the indexes agree, a departure is announced to every other alive session of the room, once each |
| MessageHandler.RefusalTexts | server/src/application/message_handler.cpp:84-268 | the texts that incomplete messages are refused with |
| MessageHandler.SignalRefusalTexts | server/src/application/message_handler.cpp:139-145 | the same for the three signals |
| MessageHandler.JoinAnswers | server/src/application/message_handler.cpp:101-129 | after an accepted join the log grew by: joined with room, type, id and exactly the online members, the buffered messages of a group room if there are any, and peer-joined to each of them |
| MessageHandler.JoinRefusalAnswers | server/src/application/message_handler.cpp:101-106 | a refused join is answered with its error alone |
| MessageHandler.GroupAnswers | server/src/application/message_handler.cpp:219-240 | the echo carries number, sender and payload, and exactly the other online members get the same |
| MessageHandler.SignalAnswers | server/src/application/message_handler.cpp:146-176 | a delivered signal is one text to the target's session, with the sender's id and the body; a refused one is one error to the sender |
| MessageHandler.OtherAnswers | server/src/application/message_handler.cpp:189-265 | the answers to a departure and to an acknowledgement, text by text |
| MessageHandler.DisconnectAnswers | server/src/application/message_handler.cpp:270-288 | each room of a disconnected session is told that the session's peer in that room left |
| MessageHandler.MessageHandler.SendToAll | server/src/application/message_handler.cpp:125-128 | the loop writes the text to each session once, in order |
| MessageHandler.MessageHandler.HandleJoin | server/src/application/message_handler.cpp:101-129 | the joiner is told it joined, then in a group room everything pending for it, then the room's online members are told |
| MessageHandler.MessageHandler.HandleSignal | server/src/application/message_handler.cpp:146-176 | the signal goes to the routed session with the sender's id, or the error to the sender |
| MessageHandler.MessageHandler.HandleLeave | server/src/application/message_handler.cpp:189-205 | the other online members are told once each that the peer left, or the error goes to the sender |
| MessageHandler.MessageHandler.HandleGroupMessage | server/src/application/message_handler.cpp:219-240 | echo with the assigned number first, then one copy to the connection of every other online member |
| MessageHandler.MessageHandler.OnJoin | server/src/application/message_handler.cpp:80-130 | "direct", "group" and a missing type make a direct, a group and a direct room, any other text is refused without touching the registry, and the reply names the new room's type |
| MessageHandler.MessageHandler.HandleAck | server/src/application/message_handler.cpp:254-265 | confirmation to a joined session, error to any other |
| MessageHandler.MessageHandler.HandleDisconnect | server/src/application/message_handler.cpp:270-288 | each room the session was in is told, one after the other, and without the session itself while the indexes agree |
| MessageHandler.MessageHandler.HandleMessage | server/src/application/message_handler.cpp:61-268 | incomplete messages and unknown room types are refused with their texts without touching the registry; complete ones have exactly their registry effect and answers; a new room is a group exactly if the text is "group", and is so reported |
| Delivery.CallKeepsCovered | server/src/application/message_handler.cpp:222-240 | a broadcast by anyone at any moment is on its way to every session of the room |
| Delivery.FetchKeepsCovered | server/src/application/message_handler.cpp:113-122 | the second step of a join hands over everything owed that was stored meanwhile |
| Delivery.SendKeepsReached | server/src/application/message_handler.cpp:234-238 | the head of a send loop's list is handed the message as the peer it speaks for in the message's room |
| Delivery.SendKeepsCovered | server/src/application/message_handler.cpp:234-238 | a send loop's step hands over what it takes off the list |
| Delivery.AtLeastOnce | server/src/application/message_handler.cpp:101-129 | with handlers interleaved anywhere, once the join of its room has returned, every retained message above a peer's acknowledgements was handed to its session or is ahead of it in an unfinished send loop |
| Delivery.BroadcastFans | server/src/application/message_handler.cpp:230-240 | when a broadcast is accepted each session of the audience, the sender included, has exactly one copy to come and nobody else any |
| Delivery.OneLiveCopyEach | server/src/application/message_handler.cpp:230-240 | in every later state of every execution, each session of that audience was written exactly one live copy unless it is still ahead in the loop, and nobody else was ever written one |
| Gaps.CallSupplies | server/src/application/message_handler.cpp:61-268 | after any call but the end of an overtaken session, a member got, has coming, or will have buffered every message stored for its room |
| Gaps.CompleteStepIff | server/src/application/message_handler.cpp:222-240 | an action keeps every member supplied with what is stored exactly unless it ends a session before it got a message at or below its member's acknowledgements |
| Gaps.RemovedWasHanded | server/src/infrastructure/persistence/sqlite_room_store.cpp:137-159 | a message is cleaned up only after every remaining member of its room was handed it |
| Gaps.HandedOrStored | server/src/infrastructure/persistence/sqlite_room_store.cpp:137-159 | without such session ends, a message once stored for a member's room was handed to it or is stored still, as long as it stays a member |
| Gaps.NothingMissedIff | client/controllers/controllers/CommunicationController.cpp:205-218 | in any execution with assigned acknowledgements nobody ever misses a message, stored or cleaned up, exactly if no such session end happens |
| Gaps.HonestMissNothingIff | client/controllers/controllers/CommunicationController.cpp:205-218 | the same for every execution in which members acknowledge only what they were handed |
| Gaps.OneAtATimeMissesNothing | server/src/main.cpp:11 | a server that finishes every handler before it starts the next, as with one worker thread, makes nobody miss anything |
| Gaps.MessagesCanBeMissed | client/controllers/controllers/CommunicationController.cpp:205-218 | a concrete execution in which everybody acknowledges only what it was handed and a member misses a message |
| Outbox.RunKeepsOrderly | server/src/infrastructure/ws_session.cpp:30-98 | while open one write is outstanding exactly if the queue is not empty, and what was written and is queued is what was accepted |
| Outbox.AcceptsWhatIsOffered | server/src/infrastructure/ws_session.cpp:30-42 | accepted is what callers handed to the open session, all of it and in order, whatever was being written |
| Outbox.ClosedIff | server/src/infrastructure/ws_session.cpp:68-98 | a session is closed exactly once a read or a write has failed |
| Outbox.WriteTakesOne | server/src/infrastructure/ws_session.cpp:77-89 | a successful write takes one payload off the queue and keeps the rest |
| Outbox.WritesFollowAcceptance | server/src/infrastructure/ws_session.cpp:30-98 | the writes, except a last one whose buffer was freed, carried a prefix of what was accepted; after closing none starts and the disconnect handler ran once |
| Outbox.WriteCarriesPayloadIff | server/src/infrastructure/ws_session.cpp:68-98 | a successful write carries the next accepted payload exactly if no read failed before it ended |
| Outbox.WriteCanDangle | server/src/infrastructure/ws_session.cpp:91-98 | a concrete history in which a failed read frees the bytes being written |
| Outbox.WsSession.SendText | server/src/infrastructure/ws_session.cpp:30-42 | while open the payload joins the queue's end, also behind a running write, and a write starts only if none is running; closed, nothing happens |
| Outbox.WsSession.OnWrite | server/src/infrastructure/ws_session.cpp:77-89 | a completed write leaves the queue and the next one starts; a failed one closes |
| Outbox.WsSession.Cleanup | server/src/infrastructure/ws_session.cpp:91-98 | closing drops the queue and reports the disconnect, once |
| WebRtc.LessIsStrictOrder | client/services/services/WebRTCService.cpp:54-56 | of two different ids exactly one side is polite |
| WebRtc.FirstDifferenceDecides | client/services/services/WebRTCService.cpp:54-56 | ids are compared at their first difference; a prefix is smaller |
| WebRtc.WebRtcService.InitiateConnection | client/services/services/WebRTCService.cpp:40-47 | afterwards there is a connection; a new one is our own unanswered call, and no other peer's is touched |
| WebRtc.WebRtcService.AcceptConnection | client/services/services/WebRTCService.cpp:49-74 | we end up bound to the offer as its receiver, replacing our own polite call, unless we hold any other connection, which is then kept |
| WebRtc.WebRtcService.OnAnswerReceived | client/services/services/WebRTCService.cpp:118-129 | the answer is applied to whatever connection the peer has; none is made and no other peer's is touched |
| WebRtc.WebRtcService.ClosePeerConnection | client/services/services/WebRTCService.cpp:248-266 | exactly the peer's connection is forgotten |
| WebRtc.WebRtcService.SendMessage | client/services/services/WebRTCService.cpp:91-101 | the message reaches the peer's channel if that is open and is dropped otherwise |
| Glare.DeliverWhileCalled | client/services/services/WebRTCService.cpp:49-74 | whatever signal arrives while the other side has called, in any order, both sides stay coherent |
| Glare.StepsMakeProgress | client/services/services/WebRTCService.cpp:40-129 | every step changes nothing or leaves less to do |
| Glare.ExchangesAreShort | client/services/services/WebRTCService.cpp:40-129 | no exchange changes anything more than twelve times |
| Glare.NoStaleAnswer | client/services/services/WebRTCService.cpp:118-129 | an answer always meets the call it answers, still waiting; none to an abandoned offer is applied |
| Glare.NotQuietCanMove | client/services/services/WebRTCService.cpp:40-129 | unless nothing is under way and nothing is left to say, a delivery or an announcement makes progress |
| Glare.GlareConverges | client/services/services/WebRTCService.cpp:40-129 | once either client called, an exchange that cannot go on has one caller and the other bound to exactly its call; an exchange of changing steps ends within twelve |
| Glare.QuietIsReachable | client/services/services/WebRTCService.cpp:40-129 | from every coherent state some deliveries and announcements lead to quiet |
| Glare.ExchangesCanFinish | client/services/services/WebRTCService.cpp:40-129 | every exchange in which somebody called can be finished, and then the two are linked |
| DirectQueue.StepKeepsFaithful | client/controllers/controllers/CommunicationController.cpp:300-324 | every step keeps the queue the last thousand messages since the last flush, and what was sent in order |
| DirectQueue.SubmitMeans | client/controllers/controllers/CommunicationController.cpp:300-324 | a message joins the queue's end, the oldest of a thousand giving way; over an open channel the whole queue is sent at once |
| DirectQueue.OpenMeans | client/controllers/controllers/CommunicationController.cpp:240-242 | when a channel opens its whole queue is sent |
| DirectQueue.NothingWaitsWhenOpen | client/controllers/controllers/CommunicationController.cpp:300-324 | after any history, a submission or opening over an open channel leaves nothing waiting and the message sent last |
| DirectQueue.NothingIsReordered | client/controllers/controllers/CommunicationController.cpp:300-324 | the queue is bounded; sent plus queued are submissions in order, none twice, and all of them exactly if the counts agree |
| DirectQueue.NothingIsDroppedIff | client/controllers/controllers/CommunicationController.cpp:301-308 | sent plus queued is everything submitted exactly if no submission since signaling was last lost met a full queue |
| Controller.CommunicationController.JoinChat | client/controllers/controllers/CommunicationController.cpp:34-46 | asks to join and starts the room afresh; an exact mapping stays exact exactly if the room had no participants |
| Controller.CommunicationController.LeaveChat | client/controllers/controllers/CommunicationController.cpp:48-61 | asks to leave under our id; exactly the room's participants lose their mapping and connection |
| Controller.CommunicationController.OnSignalingConnected | client/controllers/controllers/CommunicationController.cpp:99-108 | every remembered room with a name is asked for once, under its name and type |
| Controller.CommunicationController.OnSignalingDisconnected | client/controllers/controllers/CommunicationController.cpp:110-122 | participants, mapping and queues are empty, exactly the participants' connections are closed; rooms, names and types remain |
| Controller.CommunicationController.OnSignalingJoined | client/controllers/controllers/CommunicationController.cpp:124-152 | the listed participants are added and mapped to the room and our id is set; unknown rooms change nothing |
| Controller.AddedIds | client/controllers/controllers/CommunicationController.cpp:139-146 | adding a list of participants adds exactly their ids to room and mapping, all mapped to the room |
| Controller.ListedName | client/controllers/controllers/CommunicationController.cpp:139-146 | a listed participant has the name it is last listed with |
| Controller.UnlistedName | client/controllers/controllers/CommunicationController.cpp:139-146 | a participant that is not listed keeps its name |
| Controller.CommunicationController.AddParticipants | client/controllers/controllers/CommunicationController.cpp:139-146 | the loop adds every listed participant in order, later entries winning |
| Controller.CommunicationController.OnSignalingPeerJoined | client/controllers/controllers/CommunicationController.cpp:154-174 | the peer is added and mapped, and called exactly in a joined direct room if it is not ourselves |
| Controller.CommunicationController.OnSignalingPeerLeft | client/controllers/controllers/CommunicationController.cpp:176-188 | the peer is removed and unmapped and its connection closed |
| Controller.CommunicationController.OnSignalingOfferReceived | client/controllers/controllers/CommunicationController.cpp:190-193 | settling crossing offers leaves the queued messages untouched |
| Controller.CommunicationController.OnWebRtcConnectionOpened | client/controllers/controllers/CommunicationController.cpp:240-242 | an open channel's queue is sent in order and emptied; without one nothing is sent |
| Controller.HandedIsSentTo | client/controllers/controllers/CommunicationController.cpp:312-324 | messages handed to one peer's channel are appended to what that peer was sent, and nobody else was sent anything |
| Controller.CommunicationController.HandleDirectMessage | client/controllers/controllers/CommunicationController.cpp:281-310 | with an open channel the target's queue and the message are sent at once, in order, and nothing waits; without one nothing is sent and the message waits, pushing out the oldest of a thousand; all other queues stay |
| Controller.CommunicationController.FlushPendingMessages | client/controllers/controllers/CommunicationController.cpp:312-324 | everything queued reaches the peer's channel in order if that is open, else nothing changes |
| Controller.AgreeStepIff | client/controllers/controllers/CommunicationController.cpp:34-61 | participants stay mapped to their room exactly unless the server names a peer for a second room |
| Controller.ExactStepIff | client/controllers/controllers/CommunicationController.cpp:34-46 | nobody stays mapped without being a participant exactly unless a room is joined again to which a participant of it is mapped |
| Controller.DisconnectRestores | client/controllers/controllers/CommunicationController.cpp:110-122 | losing signaling empties participants and mapping and keeps rooms, names and types, whatever the state was |
| Controller.BooksAgree | client/controllers/controllers/CommunicationController.cpp:34-188 | if the server names every peer for one room only, participants are mapped to their room in every reachable state, and nobody else is as long as no room with participants was joined again |
| Controller.RejoinLeavesMapping | client/controllers/controllers/CommunicationController.cpp:34-46 | a mapping can outlive the participant it was made for |
| Controller.SecondRoomBreaksMapping | client/controllers/controllers/CommunicationController.cpp:154-164 | a concrete life in which a peer is named for two rooms and stays a participant of one while mapped to the other |
| Stun.XorTwice | client/gui/ClientBridge.cpp:1528-1531 | masking twice with the cookie restores the value |
| Stun.RequestMappedAddress | client/gui/ClientBridge.cpp:1489-1546 | on any datagram the walk ends inside it with the first address among its whole attributes, or the right failure |
| Stun.FirstAddressFrom | client/gui/ClientBridge.cpp:1513-1543 | the search moves on attribute by attribute until an address is found |
| Stun.XorBit | client/gui/ClientBridge.cpp:1528-1531 | exclusive or, bit by bit |
| Stun.EarliestIsAnswered | client/gui/ClientBridge.cpp:1511-1546 | the answer is the earliest attribute that carries an address, or none if none does |
| Stun.AddressOnWire | client/gui/ClientBridge.cpp:1521-1536 | an attribute carries an address exactly if it is of kind 0x0001 or 0x0020 with at least eight bytes and family 0x01; the port's bytes are masked with the first two, the address's with all four cookie bytes |
| Stun.WalkOnWire | client/gui/ClientBridge.cpp:1512-1542 | one step of the walk on the bytes: two of kind, two of length, the value, padding to a multiple of four |
| Stun.MaskOnWire | client/gui/ClientBridge.cpp:1528-1531 | an encoded XOR-MAPPED-ADDRESS byte by byte, each port and address byte exclusive-ored with its cookie byte |
| Stun.ClearOnWire | client/gui/ClientBridge.cpp:1523-1526 | an encoded MAPPED-ADDRESS byte by byte |
| Stun.OneMaskedAddress | client/gui/ClientBridge.cpp:1489-1546 | a datagram with one masked address decodes to the bytes exclusive-ored with the datagram's fifth to eighth byte |
| Stun.SampleResponse | client/gui/ClientBridge.cpp:1489-1546 | the sample of RFC 5769, section 2.2, decodes to 192.0.2.1 and port 32853 |
| Stun.AddressInRaw | client/gui/ClientBridge.cpp:1521-1536 | an encoded address attribute carries exactly the address meant, masked or not; no other attribute carries one |
| Stun.AttributesOfEncoding | client/gui/ClientBridge.cpp:1512-1542 | walking an encoded, padded attribute list yields exactly the attributes |
| Stun.DecodingInvertsEncoding | client/gui/ClientBridge.cpp:1506-1546 | whatever attribute list is encoded, the first IPv4 address meant is returned, and failure exactly if there is none |
| Durations.SortSorts | metrics/collect_jira.py:127 | the transitions are in order of time |
| Durations.SortIsStable | metrics/collect_jira.py:127 | transitions with one timestamp keep their changelog order |
| Durations.RowsInOrder | metrics/collect_jira.py:119-127 | the rows of a changelog are read one after the other |
| Durations.ItemsInOrder | metrics/collect_jira.py:119-127 | so are the items of a row |
| Durations.OneItem | metrics/collect_jira.py:119-127 | an item is a transition from its old to its new value at the row's time exactly if its field is the status |
| Durations.NoneCollectedIff | metrics/collect_jira.py:119-127 | there is no transition exactly if no item is about the status |
| Durations.ComputeStatusDurations | metrics/collect_jira.py:110-159 | the loops book the span of every transition and the time before the first; without any the current status gets the whole time since creation, without a creation date nothing is booked |
| Durations.BookedIsMeasure | metrics/collect_jira.py:140-157 | after every transition each status is booked exactly the instants at which it was current |
| Durations.DurationIsMeasure | metrics/collect_jira.py:110-159 | each status gets exactly the number of instants at which it was current, and is mentioned exactly if there is one |
| Durations.TimeIsConserved | metrics/collect_jira.py:140-157 | the total telescopes; it is end minus creation exactly if the dates are in order |
| Durations.OrderDoesNotMatter | metrics/collect_jira.py:119-127 | with distinct timestamps the order of the changelog does not matter |

## Left out

- JSON parsing and building: messages are datatypes whose missing fields are `None`; an unparsable text or a missing type is answered with an error before any of this.
- SQL: tables are maps; the order in which a query without ORDER BY returns rows is left open, and exceptions from the database are not modelled.
- Integer width: the sequence counter and the peer counter are unbounded; acknowledgement cursors are 64-bit.
- Timestamps, room names and suffixes, and the textual form of the room type in the store.
- A handle that expires in the middle of one registry call: handles expire between calls.
- The order of one session's entries in the hash multimap: entries are kept in the order of joining; with both checks given, as the handler gives them, at most one entry matches.
- ICE candidates, SDP text, data channel set-up and the state callbacks of a peer connection: a connection is its role, its number, whether it spoke, and what it is bound to.
- Renegotiation over a stale connection, `closeConnection` from outside during a negotiation, and several rooms sharing one local id: convergence is not claimed there.
- WebRtc.WebRtcService.OnAnswerReceived: applies the answer unconditionally; that the library would reject it in the wrong state never matters, by Glare.NoStaleAnswer.
- Controller.CommunicationController.FlushPendingMessages: a channel that closes in the middle of one flush.
- Group messages on the client, profile switching, and everything in the user interface.
- Outbox: how much of a payload was on the wire before its bytes were freed; such a write counts as carrying nothing that is vouched for.
- Delivery: a text that reaches a session which is gone, or has left the message's room, is written but handed to nobody.
- Stun: the UDP exchange itself, and the check of the transaction id and message length, which the code does not make.
- Durations.ComputeStatusDurations: dates are already parsed and times are whole microseconds rather than fractions of days; a changelog row without a readable date is not modelled.
- Reconnect delays, the network listener, threads and start-up, client repositories and services, and the remaining metrics.
