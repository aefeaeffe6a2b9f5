# OneChat backend core in Dafny

This project models the core of the OneChat backend, a Go chat server.

- **Hub** (`hub.dfy`, `protocol.dfy`, `hub_properties.dfy`). The real-time
  fan-out hub keeps a table of live clients keyed by user id and an index of
  rooms (conversation id to a set of client handles). Each client has a
  bounded outbound queue of 256 payloads and a set of joined rooms.
  - The hub is a `Hub` class and each client a `Client` class, so that the
    aliasing of handles is kept.
  - Each case of the hub's select loop (register, unregister, broadcast) is
    one atomic method. So are room join and room leave, the reader's
    dispatch of a decoded frame, and the writer's dequeue.
  - A Go runtime panic (sending on, or closing, a closed channel) is the
    explicit outcome `Panicked`.
  - The defects of the code are stated and proved as properties: an evicted
    member stays in its room, and a superseded handle's unregister drops the
    newer handle.
- **Tables** (`tables.dfy`). The relational tables that the group and chat
  services use, held in memory in one `Database` class. Each table is a map
  from primary key to row, and keys come from per-table sequences starting
  at 1.
- **Group service** (`group_service.dfy`). Creating, updating and deleting
  groups, and adding, removing and re-roling members.
  - It keeps the admin checks, the 256-member caps, the self-removal guard
    and role validation, in the source's order of checks.
  - A transaction's failing statement is a parameter `failAt`. On a failure
    every table is rolled back.
- **Chat service** (`chat_service.dfy`). The private-chat lookup-or-create,
  message creation with the chat's last-message pointer, status updates, and
  deletion by the sender.
  - The in-place reversal of a fetched page works on an `array`.
- **Assistant service** (`ai_service.dfy`). The cleaning of a model reply:
  code fences are removed, then ASCII white space is trimmed.
  - The two-stage parse of an extracted event uses an abstract JSON parser.
  - It also models the empty-key guards and the first-candidate extraction.
- **Media service** (`media_service.dfy`). Content-Type classification into
  a resource type and a folder, and the ten-day expiry.
  - The not-configured guard comes before classification.
  - The cleanup pass's selection of expired records is modelled.
- **Shared** (`wrappers.dfy`). `Option` and `Result`.

Supplied as parameters rather than performed:
- the outcome of each HTTP exchange: Gemini and the media host;
- the current time, in nanoseconds;
- the statement a database transaction fails at;
- the JSON decoder.

## Model

| member | source | states |
|---|---|---|
| Protocol.Classify | backend/internal/websocket/hub.go:151-168 | For each frame kind taken separately:<br>- `join_chat` gives a join of the named room.<br>- `leave_chat` gives a leave of the named room.<br>- The three event kinds relay the raw frame with the sender's own id excluded.<br>- Anything else, and an undecodable frame, is dropped. |
| Hub.Client.constructor | backend/internal/handlers/websocket_handler.go:42-48 | A new connection has an empty open queue and no rooms. |
| Hub.Hub.constructor | backend/internal/websocket/hub.go:42-51 | A new hub has no clients and no rooms, and satisfies the hub invariant. |
| Hub.Hub.Register | backend/internal/websocket/hub.go:56-59 | The table entry for the id becomes the new handle, silently replacing any earlier one.<br>Rooms and queues are untouched, and the invariant is kept. |
| Hub.Hub.Unregister | backend/internal/websocket/hub.go:62-79 | An absent id changes nothing.<br>A present id is deleted, whichever handle it holds.<br>Then an already closed queue panics on the second close.<br>Otherwise the queue is closed and the client leaves every room it joined, deleting rooms left empty; afterwards it is in no room. |
| Hub.Hub.LeaveAll | backend/internal/websocket/hub.go:69-76 | The loop over the joined rooms leaves the room index equal to removing the client from each of them, deleting the emptied ones. |
| Hub.Detach | backend/internal/websocket/hub.go:69-76 | The room table after removing one client from each of the named rooms, dropping the rooms this empties; its properties are those of `Hub.DetachMeaning`. |
| Hub.DetachMeaning | backend/internal/websocket/hub.go:69-76 | Rooms not named are kept unchanged.<br>A named room loses exactly the client, and is deleted exactly when that leaves it empty.<br>No room is created, and if no room was empty, none is afterwards. |
| Hub.DetachOneMore | backend/internal/websocket/hub.go:70-75 | Removing the client from one more room extends the removal from the rooms already handled. |
| Hub.Hub.JoinChatRoom | backend/internal/websocket/hub.go:100-111 | The client is in the room, which is created if absent, and the room is in its joined-set.<br>Nothing else changes, and the invariant is kept. |
| Hub.Hub.LeaveChatRoom | backend/internal/websocket/hub.go:113-126 | The client leaves the room, which is deleted if left empty, and the room leaves its joined-set.<br>Nothing else changes. |
| Hub.Hub.Broadcast | backend/internal/websocket/hub.go:81-95 | A chat id with no room: nothing changes.<br>Otherwise nothing happens to the excluded id's members.<br>The step panics exactly when some other member's queue is already closed.<br>Without a panic, every other member either gets the payload at the tail of its queue, or, when the queue is full, has it closed and its id dropped from the table while staying in the room.<br>The room index is unchanged, and queues never exceed 256. |
| Hub.Hub.Offer | backend/internal/websocket/hub.go:86-91 | The inner non-blocking send to one member: a closed queue panics; a queue with room gets the payload; a full queue is closed and the member's id is deleted. |
| Hub.Hub.Dequeue | backend/internal/websocket/hub.go:177-182 | The writer takes the head of the queue.<br>An empty closed queue ends the writer.<br>An empty open one has nothing yet. |
| Hub.Hub.Dispatch | backend/internal/websocket/hub.go:157-168 | One frame read from a connection has exactly the effect of a join, a leave, or a broadcast excluding the sender; a dropped frame changes nothing. |
| HubProperties.FifoPerMember | backend/internal/websocket/hub.go:81-95 | Two broadcasts that both reach a member with room in its queue append both payloads in submission order. |
| HubProperties.EvictedMemberStaysInRoom | backend/internal/websocket/hub.go:86-91 | A member with a full queue is closed and dropped from the table but stays in the room.<br>Its own unregister is then a no-op, and the next broadcast to the room panics. |
| HubProperties.ReconnectAfterEvictionPanics | backend/internal/websocket/hub.go:62-66 | After an eviction, a reconnection under the same id makes the old reader's unregister close the old queue again, which panics. |
| HubProperties.ReRegisterKeepsStaleMember | backend/internal/websocket/hub.go:56-59 | A second registration of a user leaves the superseded handle in its rooms while no longer live. |
| HubProperties.SupersededUnregisterDropsNewer | backend/internal/websocket/hub.go:62-66 | A superseded handle's unregister deletes the newer handle's table entry.<br>The newer handle keeps its open queue and its rooms. |
| HubProperties.UnregisterTwice | backend/internal/websocket/hub.go:62-79 | After a first unregister that does not panic, a second one of the same handle does not panic and changes nothing: not the hub's client table or rooms, nor the handle's queue, closed flag or joined rooms. |
| HubProperties.JoinIsIdempotent | backend/internal/websocket/hub.go:100-108 | Joining a room twice has the effect of joining it once. |
| HubProperties.ExcludeZeroReachesEveryone | backend/internal/handlers/group_handler.go:104 | A broadcast excluding id 0 offers the payload to every member of the room, since no user has id 0.<br>It panics exactly when some member's queue is closed. |
| HubProperties.ScenarioExcludeSender | backend/internal/handlers/chat_handler.go:133 | With two users in a room, a message broadcast excluding the sender reaches only the other user. |
| HubProperties.ScenarioLastMemberLeaves | backend/internal/websocket/hub.go:69-76 | A room is deleted when its only member unregisters. |
| HubProperties.ScenarioLeaveOne | backend/internal/websocket/hub.go:113-126 | After joining two rooms and leaving one, the client is only in the other, and the room it left is gone. |
| HubProperties.ScenarioDuplicateRegistration | backend/internal/websocket/hub.go:56-59 | After two registrations under one id, the table holds exactly the second handle, while the room still holds the first. |
| Tables.Database.constructor | backend/internal/models/models.go:23-72 | The group, member, chat and message tables start empty, with every id sequence at 1. |
| Tables.Database.CreateGroupRow | backend/internal/services/group_service.go:31-35 | An insert stores the row under the sequence's next key, which was unused, and advances the sequence. |
| Tables.Database.CreateMemberRow | backend/internal/services/group_service.go:165-171 | An insert stores the row under the sequence's next key, which was unused, and advances the sequence. |
| Tables.Database.CreateChatRow | backend/internal/services/chat_service.go:41-49 | An insert stores the row under the sequence's next key, which was unused, and advances the sequence. |
| Tables.Database.CreateMessageRow | backend/internal/services/chat_service.go:85-87 | An insert stores the row under the sequence's next key, which was unused, and advances the sequence. |
| GroupService.RowsOf | backend/internal/services/group_service.go:145-146 | The keys of the group's membership rows, which AddMember's cap check counts; its properties are those of `GroupService.GroupQueriesAgree`. |
| GroupService.AdminRowsOf | backend/internal/services/group_service.go:184-187 | The keys of the group's admin rows, which RemoveMember's self-removal guard counts. |
| GroupService.IsAdmin | backend/internal/services/group_service.go:93-96 | The user has an admin row in the group: the check before every change to a group. |
| GroupService.IsMember | backend/internal/services/group_service.go:158-163 | The user has some row in the group: AddMember's existing-member check. |
| GroupService.GroupQueriesAgree | backend/internal/services/group_service.go:143-187 | The counted rows are rows of the table, and the admin rows are some of them.<br>There are no admin rows exactly when nobody passes the admin check.<br>Every admin is a member, and a member is exactly someone owning one of the counted rows. |
| GroupService.MemberRowsShape | backend/internal/services/group_service.go:49-61 | There is one member row per listed id other than the creator, duplicates included.<br>Each row is a "member" row of the group, for someone other than the creator. |
| GroupService.MemberRowsCount | backend/internal/services/group_service.go:49-61 | For every id other than the creator, the number of its member rows equals the number of times it is listed. |
| GroupService.MemberRowsCover | backend/internal/services/group_service.go:49-61 | Every listed id other than the creator gets a "member" row. |
| GroupService.DuplicateIdGivesTwoRows | backend/internal/services/group_service.go:49-61 | The list `[u, u]`, for a `u` other than the creator, gives exactly two identical member rows of `u`. |
| GroupService.InsertRowsContent | backend/internal/services/group_service.go:49-61 | Rows inserted in sequence sit at consecutive keys, and every existing row is kept. |
| GroupService.InsertMemberRows | backend/internal/services/group_service.go:49-61 | The loop inserts exactly the member rows at consecutive keys.<br>It fails exactly when one of its inserts is the failing statement. |
| GroupService.InsertMemberRow | backend/internal/services/group_service.go:50-60 | One turn of the loop: the creator is skipped; otherwise the next insert either is the failing statement, and the whole loop fails, or adds the entry's member row at the next key. |
| GroupService.AppendMemberRow | backend/internal/services/group_service.go:55-60 | One more insert extends the run of inserted rows by one. |
| GroupService.RunCreateGroupStatements | backend/internal/services/group_service.go:31-75 | The statements run in order: group, creator's admin row, member rows, chat, commit.<br>It fails exactly when the failing statement is one of them.<br>On success all the rows are there. |
| GroupService.CreateGroup | backend/internal/services/group_service.go:18-81 | More than 256 ids is refused before any write.<br>Otherwise it succeeds exactly when no statement fails, creating the group, the creator's admin row, the member rows and a "group" chat.<br>Any failure leaves the group, member and chat tables as they were. |
| GroupService.NewGroupRowKeys | backend/internal/services/group_service.go:31-61 | The rows of a freshly created group are exactly the inserted ones. |
| GroupService.NewGroupRows | backend/internal/services/group_service.go:31-61 | A new group has exactly one admin row, the creator's, and 1 + (listed ids other than the creator) rows. |
| GroupService.UpdateGroup | backend/internal/services/group_service.go:91-110 | A non-admin is refused, then a missing group.<br>Otherwise the given fields are overwritten, and the group row is the only change. |
| GroupService.WithoutGroup | backend/internal/services/group_service.go:122-126 | No row of the group is left, and every other row is kept. |
| GroupService.WithoutGroupChats | backend/internal/services/group_service.go:128-132 | No chat of the group is left, and every other chat is kept. |
| GroupService.DeleteGroup | backend/internal/services/group_service.go:112-141 | A non-admin is refused.<br>Otherwise it succeeds exactly when none of the four statements fails, removing the group's members, chat and row together.<br>Any failure leaves all three tables as they were. |
| GroupService.AddMember | backend/internal/services/group_service.go:143-172 | At 256 or more rows it fails, for any requester.<br>Then a non-admin is refused, then an existing member.<br>Otherwise exactly one "member" row is added. |
| GroupService.AddedRowKeepsCap | backend/internal/services/group_service.go:145-171 | A row added below the cap raises the count by one, to at most 256. |
| GroupService.WithoutUser | backend/internal/services/group_service.go:193-194 | The user has no row left in the group, and every other row is kept. |
| GroupService.RemoveMember | backend/internal/services/group_service.go:174-195 | A non-admin is refused.<br>An admin removing themself is refused while the group has at most one admin row; removing someone else is never guarded.<br>Otherwise the target's rows in the group are deleted. |
| GroupService.SelfRemovalGuardCountsRows | backend/internal/services/group_service.go:183-194 | The guard counts rows, not users: a sole admin holding two admin rows passes it and leaves the group with no admin. |
| GroupService.WithRole | backend/internal/services/group_service.go:209-211 | The target's rows in the group carry the new role, and every other row is unchanged. |
| GroupService.UpdateMemberRole | backend/internal/services/group_service.go:197-212 | A role other than admin or member is refused before the admin check, then a non-admin is refused.<br>Otherwise the target's rows get the role. |
| GroupService.SelfDemotionLeavesNoAdmin | backend/internal/services/group_service.go:197-211 | A sole admin who demotes themself leaves the group with no admin, so no admin check in it can pass again. |
| ChatService.IsPrivateBetween | backend/internal/services/chat_service.go:36-39 | A chat matches the lookup exactly when it is a private chat whose two participants, taken as a set, are the two users. |
| ChatService.FirstPrivateChat | backend/internal/services/chat_service.go:36-39 | The lookup finds the lowest key of a private chat between the two users, stored in either order, or reports that there is none. |
| ChatService.FirstPrivateChatSymmetric | backend/internal/services/chat_service.go:36-39 | The lookup does not depend on the order of the two users. |
| ChatService.GetOrCreatePrivateChat | backend/internal/services/chat_service.go:34-55 | It returns the lowest-keyed private chat of the pair if one exists, changing nothing.<br>Otherwise it creates one with user1 = a and user2 = b. |
| ChatService.GetOrCreateIsStable | backend/internal/services/chat_service.go:34-55 | A second call, with the users in either order, returns the same chat. At most one chat is created. |
| ChatService.CreateMessage | backend/internal/services/chat_service.go:74-99 | The message is stored with status "sent" under a new key.<br>If the chat exists, its last-message pointer is set to that key; if not, nothing else changes. |
| ChatService.UpdateMessageStatus | backend/internal/services/chat_service.go:101-118 | The status changes only when the message exists and the caller is not its sender.<br>A status record is appended in every case. |
| ChatService.DeleteMessage | backend/internal/services/chat_service.go:120-131 | A missing message and a caller who is not the sender are errors that change nothing.<br>Otherwise exactly that message is removed. |
| ChatService.DeleteLeavesStaleLastMessage | backend/internal/services/chat_service.go:120-131 | Deleting a chat's newest message leaves the chat's last-message pointer at a key that is no longer a message. |
| ChatService.Reversed | backend/internal/services/chat_service.go:66-69 | The reverse has the same length as the page. |
| ChatService.ReversedAt | backend/internal/services/chat_service.go:66-69 | Element k of the reverse is element n - 1 - k of the page. |
| ChatService.ReversedSameElements | backend/internal/services/chat_service.go:66-69 | Reversal keeps the same elements, each as often. |
| ChatService.ReversedTwice | backend/internal/services/chat_service.go:66-69 | Reversing twice gives the page back. |
| ChatService.NewestFirstBecomesOldestFirst | backend/internal/services/chat_service.go:57-69 | A page fetched newest first is, once reversed, ordered oldest first. |
| ChatService.ReverseMessages | backend/internal/services/chat_service.go:66-69 | The two-index swap loop leaves the array holding exactly the reverse of its old contents. |
| AiService.TrimLeftSpace | backend/internal/services/ai_service.go:160 | The suffix left after removing the longest run of leading ASCII white space. |
| AiService.TrimRightSpace | backend/internal/services/ai_service.go:160 | The prefix left after removing the longest run of trailing ASCII white space. |
| AiService.TrimSpace | backend/internal/services/ai_service.go:160 | No white space is left at either end, the text gets no longer, and a text with none at its ends is returned unchanged. |
| AiService.TrimSpaceShape | backend/internal/services/ai_service.go:160 | A trimmed text is a piece of its input, no longer, with no white space at either end. |
| AiService.TrimPrefix | backend/internal/services/ai_service.go:157-158 | A present prefix is removed once; otherwise the text is unchanged. |
| AiService.TrimSuffix | backend/internal/services/ai_service.go:159 | A present suffix is removed once; otherwise the text is unchanged. |
| AiService.CleanJSONResponse | backend/internal/services/ai_service.go:155-161 | The cleaned reply is never longer than the reply and has no white space at either end; `CleanJSONResponseShape` adds that it is a piece of the reply, and the fence lemmas say which piece. |
| AiService.CleanJSONResponseShape | backend/internal/services/ai_service.go:155-161 | The cleaned reply is a contiguous piece of the reply, never longer, with no leading or trailing white space. |
| AiService.CleanUnfenced | backend/internal/services/ai_service.go:157-160 | A reply with no fence at either end is only trimmed. |
| AiService.CleanJsonFence | backend/internal/services/ai_service.go:157-160 | A reply wrapped as a json code block cleans to its trimmed body. |
| AiService.CleanPlainFence | backend/internal/services/ai_service.go:157-160 | A reply wrapped as a plain code block cleans to its trimmed body. |
| AiService.LeadingSpaceKeepsFence | backend/internal/services/ai_service.go:157-160 | White space before a json fence stops its removal, because trimming comes last: the cleaned reply still starts with the fence. |
| AiService.FirstCandidateText | backend/internal/services/ai_service.go:148-152 | No candidates, or no parts in the first one, is "no response".<br>Otherwise the result is the text of the first part of the first candidate. |
| AiService.OnlyFirstCandidateCounts | backend/internal/services/ai_service.go:148-152 | Later candidates and later parts are never looked at. |
| AiService.CallGemini | backend/internal/services/ai_service.go:132-152 | A failed request, a status other than 200, and an undecodable body are each errors.<br>Only a decoded 200 reply with a candidate part gives a text. |
| AiService.Research | backend/internal/services/ai_service.go:55-68 | An empty API key fails before any request; otherwise the exchange's text or error is returned. |
| AiService.ParseEvent | backend/internal/services/ai_service.go:94-104 | The raw reply is parsed first, and the cleaned reply only when that fails.<br>"Failed to parse" is reported exactly when both parses fail. |
| AiService.ExtractEvent | backend/internal/services/ai_service.go:70-105 | An empty key fails first, then an exchange error is passed on.<br>Otherwise the two-stage parse decides. |
| AiService.FallbackOnlyHelpsFencedOrPadded | backend/internal/services/ai_service.go:95-102 | For a reply with no fences and no edge white space, the fallback parse cannot succeed where the raw parse failed. |
| AiService.FencedReplyIsExtracted | backend/internal/services/ai_service.go:95-102 | A json-fenced reply whose raw parse fails is extracted from its trimmed body. |
| MediaService.Classify | backend/internal/services/media_service.go:57-74 | A Content-Type shorter than five bytes is an error, where the code's slice panics. Otherwise:<br>- image gives (image, onechat/images);<br>- video gives (video, onechat/videos);<br>- audio gives (video, onechat/audio);<br>- anything else gives (raw, onechat/documents). |
| MediaService.ShortTextLongEncodingIsDocument | backend/internal/services/media_service.go:61-74 | The slice counts bytes, not characters: a four-character value whose encoding has five bytes is classified as a document, not rejected. |
| MediaService.ClassifyReadsOnlyPrefix | backend/internal/services/media_service.go:61-74 | Only the first five bytes of the Content-Type matter. |
| MediaService.ClassifyDestinations | backend/internal/services/media_service.go:61-74 | The resource type is always image, video or raw.<br>The folder tells the four classes apart, and it is the audio folder exactly for audio. |
| MediaService.ExpiresAt | backend/internal/services/media_service.go:98 | A record expires exactly 864000 seconds after the upload time. |
| MediaService.Upload | backend/internal/services/media_service.go:51-112 | Without a configured host it fails before classification; then a short Content-Type fails; then a failed upload is an error.<br>A success returns the record's URL, public id and resource type, and the record expires ten days after upload. |
| MediaService.SelectExpired | backend/internal/services/media_service.go:154 | Cleanup selects exactly the records whose expiry is strictly before now: each such record as often as it is stored, and no other. |
| MediaService.FreshUploadSurvivesTenDays | backend/internal/services/media_service.go:92-99 | An uploaded file survives every cleanup pass up to ten days after upload, and is selected by every pass after that. |

## Left out

- Goroutines, the channels used as mailboxes, the mutex and the data race of deleting under a read lock are not modelled. Each select case, and each join or leave, is one atomic step.
- WebSocket I/O is not modelled. This covers reading and writing frames, closing connections, close-error classification and the upgrader.
  - The reader's loop is the per-frame `Dispatch`, and the writer's loop is the per-item `Dequeue`.
  - Frames arrive already decoded: JSON decoding of frames is not modelled.
- SQL semantics are replaced by in-memory maps. This covers gorm, ordering, limit and offset, preloading, soft-delete columns and timestamps such as `updated_at`. Only the lookup order by primary key is kept, in `FirstPrivateChat`.
- Database errors of single statements outside a transaction are not modelled: every such read and write is taken to succeed, or to find or not find its row. The statements are:
  - `UpdateGroup`'s lookup of the group and its write of the updates;
  - the admin lookups of `UpdateGroup`, `DeleteGroup`, `AddMember`, `RemoveMember` and `UpdateMemberRole`, where any error, not only a missing row, reads as "only admins";
  - `AddMember`'s member count, whose error is ignored and leaves the count at 0, and its lookup of an existing membership, where any error reads as "not a member";
  - `RemoveMember`'s admin count, whose error is ignored;
  - the insert of `AddMember`, the deletes of `RemoveMember` and `DeleteMessage`, and the updates of `UpdateMemberRole` and `UpdateMessageStatus`;
  - the lookups of `DeleteMessage` and `GetOrCreatePrivateChat`;
  - the inserts of `CreateMessage`, `GetOrCreatePrivateChat` and the status record, and `CreateMessage`'s update of the chat's last message, whose error is ignored.
- The failure of `CreateGroup`'s and `DeleteGroup`'s own lookups is not modelled.
- UpdateGroup: the update map is limited to name, description and icon, each optional.
- GroupService.CreateGroup: after a rollback the id sequences stay advanced, as database sequences do; every table is restored.
- The item query of `GetMessages` (chat filter, newest-first order, limit and offset) is not modelled. The query is gorm; only its reversal loop and its ordering guarantee are.
- `GetUserChats`, `GetChatByID` and `GetMessageByID` are single read queries with no logic of their own.
- The Gemini and media-host HTTP calls are parameters.
  - The prompt texts are not modelled.
  - The JSON encoding of requests is not modelled.
  - The HTTP error body text is not modelled.
- `Delete`, `UploadFromBytes` and the cleanup ticker of the media service are I/O against the media host and the database, and are not modelled. The cleanup's record query is `SelectExpired`.
- MediaService.Upload: the database write of the record is not modelled, because its error is only logged and does not change the result.
- Go time arithmetic is not modelled: times are unbounded integers of nanoseconds, with no overflow or monotonic clock.
- `bytes.TrimSpace` is modelled for ASCII white space only; Unicode white space is not.
- Line 157 of ai_service.go assigns a byte slice to a string variable, which does not compile. The model follows its evident intent: the three trims and the final trim in order, on the text.
- AiService.ParseEvent: the JSON decoder is an abstract parser that either yields an event or fails. Go's partial filling of the event by a failed first decode is not modelled.
- Authentication, the event and notification services, the HTTP handlers, configuration, database setup and the server's entry point are not part of this model.
