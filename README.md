# Room membership of a shared-room backend

The backend keeps one document per room in a `rooms` collection: an ordered list of
conversations. Each conversation has a link and an ordered list of users (email, name,
avatar). The conversation whose link is the empty string is the lobby, also called the
"no-conversation" group. Four HTTP handlers move users around inside a room:

- joinRoom puts a new user into the lobby, and does nothing for a user who is already present;
- createConversation takes the user out of their conversation and opens a new conversation that holds only them;
- joinConversation takes the user out of their conversation and adds them to the conversation with the requested link, or answers 404 without writing;
- leaveConversation takes the user out of their conversation and puts them back into the lobby.

The last three remove the user from their current conversation and then run
cleanupEmptyConversations, which deletes every empty conversation except the lobby.

The model has five modules:

- `Rooms` (rooms.dfy) holds the data model and the lookups the handlers use:
  - `find` and `findIndex` as first-match positions;
  - the `allEmails` list;
  - the occurrence count of an email;
  - the room invariants. `Valid` means a lobby exists, each email occurs at most once, and no empty non-lobby conversation is kept. `UniqueLinks` means the links are pairwise distinct.
- `EmptyConversations` (cleanup.dfy) holds:
  - cleanup, as a filter on the list;
  - the list of positions the source collects;
  - the lemmas the in-place algorithm needs;
  - cleanup's algebra: concatenation, idempotence, the lobby and counts are kept.
- `Membership` (membership.dfy) holds:
  - each handler's room computation, as a function of the fetched room;
  - the lemmas stating what each handler promises.
- `Api` (api.dfy) is the imperative part:
  - `RoomDoc` is the fetched `roomData` object. Its methods change its conversation list in place, step by step, as the handlers do. `CleanupEmptyConversations` is proved equal to `EmptyConversations.Cleanup`, `RemoveFromCurrent` to `Membership.RemoveUser`, and each of the four handler methods to the matching `Membership` function.
  - `Database` is the `rooms` collection, a map from room id to stored room. Its handlers fetch the room, run the `RoomDoc` method, and then either write the room back or leave the store alone. They return the response the handler sends, and they keep `Valid` for every stored room.
- `Scenarios` (scenarios.dfy) holds concrete walkthroughs of the handlers on small rooms.

What the code checks and does not check, and how the model follows it:

- A conversation's users form a list, not a set. Removal takes out the first matching entry.
- The removal step dereferences the result of `find` without checking it. A user who is not in the room makes the handler throw. The model makes "the user is in the room" a precondition.
- The code keeps no version tokens and does no compare-and-swap or retry. Every write is a plain `set`, so the model has no conditional write and no retry loop.
- createConversation does not check that the new link is unused, so two conversations can share a link, as `Scenarios.CreateConversationCanRepeatLink` shows. A second conversation with the empty link also counts as a lobby, so the model's lobby invariant is "at least one conversation has the empty link", not "exactly one", and distinct links are proved only under the condition that the new link is unused.

## Model

| member | source | states |
|---|---|---|
| Rooms.UserIndex | functions/api.js:88 | `findIndex` on a conversation's users gives the first position holding the email. The result is None exactly when no user has the email. |
| Rooms.ConversationWith | functions/api.js:84-85 | `find(isUserInConversation)` gives the first conversation holding the email. Every earlier conversation lacks it. The result is None exactly when the email is nowhere in the room. |
| Rooms.LinkIndex | functions/api.js:61 | `find(conv => conv.link === link)` gives the first conversation with the link. Every earlier one has a different link. The result is None exactly when no conversation has the link. |
| Rooms.AllEmailsInRoom | functions/api.js:52-54 | The email is among the concatenated users' emails exactly when some conversation holds a user with it. |
| Rooms.CountInPositive | functions/api.js:84 | The count of an email in a user list is positive exactly when some user carries it. |
| Rooms.OccurrencesPositive | functions/api.js:52-54 | The count of an email in the room is positive exactly when the email is in the room. |
| Rooms.CountInRemove | functions/api.js:89 | Splicing out one position lowers the count of that user's email by one and leaves every other count alone. |
| Rooms.OccurrencesUpdate | functions/api.js:89 | Replacing one conversation changes the room's count by the difference of the two conversations' counts. |
| EmptyConversations.CleanupMembers | functions/api.js:20-30 | Cleanup keeps exactly the conversations that are not empty non-lobby ones, and never grows the list. |
| EmptyConversations.CleanupSingle | functions/api.js:22 | A single conversation is dropped exactly when it has no users and is not the lobby. |
| EmptyConversations.CleanupAppend | functions/api.js:20-30 | Cleanup is a filter: cleaning a concatenation is concatenating the cleaned parts. |
| EmptyConversations.EmptyIndicesExact | functions/api.js:23-25 | The collected indices are strictly increasing positions of empty non-lobby conversations, and every such position is among them. |
| EmptyConversations.EmptyIndicesGap | functions/api.js:27-29 | Between two consecutive collected indices, and outside the first and last, no conversation is empty. This is why splicing from the back removes only the conversations that were collected. |
| EmptyConversations.CleanupSpliceStep | functions/api.js:28 | Splicing out collected index q, above which everything is already cleaned, gives the list cleaned from q on. |
| EmptyConversations.CleanupCleanPrefix | functions/api.js:29 | A prefix without empty non-lobby conversations is kept as it is, and cleanup acts only on the rest. Once every collected index has been spliced out, this gives the whole cleaned list. |
| EmptyConversations.CleanupNothingToDrop | functions/api.js:22-25 | A room without empty non-lobby conversations is left unchanged. |
| EmptyConversations.CleanupAround | functions/api.js:20-30 | When only one conversation can be empty, cleanup drops that one conversation or nothing. |
| EmptyConversations.CleanupLeavesNoEmpty | functions/api.js:20-30 | After cleanup no empty non-lobby conversation remains. |
| EmptyConversations.CleanupIdempotent | functions/api.js:20-30 | Cleaning twice is cleaning once. |
| EmptyConversations.CleanupKeepsLobby | functions/api.js:22 | The room has a lobby after cleanup exactly when it had one before. |
| EmptyConversations.CleanupKeepsFirstLobby | functions/api.js:22 | The lobby that `find` returns is the same conversation after cleanup. |
| EmptyConversations.CleanupOccurrences | functions/api.js:22 | Cleanup removes only conversations without users, so every email keeps its count. |
| EmptyConversations.CleanupUniqueLinks | functions/api.js:20-30 | Cleanup keeps links pairwise distinct. |
| Membership.RemoveUser | functions/api.js:84-89 | Removal changes only the first conversation holding the user. In it, the first entry with the email is spliced out and the users before and after it are kept in order. Every link is kept. |
| Membership.RemoveUserOccurrences | functions/api.js:88-89 | Removal takes exactly one occurrence of the user's email away and no other email's. |
| Membership.RemoveUserLeavesRoom | functions/api.js:88-89 | When each email occurs at most once, the user is no longer in the room after removal. |
| Membership.WithoutUserOccurrences | functions/api.js:84-92 | Removal plus cleanup takes one occurrence of the user's email and keeps every other count. |
| Membership.WithoutUserKeepsLobby | functions/api.js:84-92 | Removal plus cleanup keeps the lobby, in both directions. |
| Membership.WithoutUserExact | functions/api.js:84-92 | On a room with no empty conversations, removal plus cleanup drops the user's conversation exactly when the user was its last member and it is not the lobby. Otherwise the user alone is spliced out. |
| Membership.PushOccurrences | functions/api.js:64 | Pushing a user adds one occurrence of their email and changes no other count. |
| Membership.PushShape | functions/api.js:133 | A push changes no link and keeps the lobby, the absence of empty conversations and distinct links. |
| Membership.JoinRoomUnchangedIff | functions/api.js:52-57 | joinRoom writes nothing exactly when the email is already in the room, and writes exactly when it is not. |
| Membership.JoinRoomAddsToLobby | functions/api.js:59-65 | A new user is appended at the end of the first lobby's users. Every other conversation is unchanged, and the user then occurs exactly once. |
| Membership.JoinRoomIdempotent | functions/api.js:52-65 | Joining again after a join changes nothing. |
| Membership.JoinRoomPreservesValid | functions/api.js:45-68 | On a valid room joinRoom cannot throw. It keeps the invariants and distinct links, and only the new user's count changes, by one. |
| Membership.CreateConversationShape | functions/api.js:88-98 | The new conversation is last and holds only the user. In front of it stands the room with the user removed, and their old conversation is gone exactly when they were its last member and it was not the lobby. |
| Membership.CreateConversationKeepsCounts | functions/api.js:84-98 | createConversation moves the user: every email keeps its count. |
| Membership.CreateConversationPreservesValid | functions/api.js:75-103 | createConversation keeps the invariants. Links stay distinct when the new link is not among the links that survive cleanup. |
| Membership.AppendKeepsShape | functions/api.js:95-98 | Appending a non-empty conversation keeps the lobby and the absence of empty conversations. It keeps distinct links when its link is new. |
| Membership.JoinConversationNotFoundIff | functions/api.js:121-130 | joinConversation answers 404 exactly when every conversation with the link is the user's own and is emptied by the move. That is, the user was its last member and it is not the lobby, or no conversation has the link at all. |
| Membership.WithoutUserLinkAbsent | functions/api.js:121-125 | After removal and cleanup no conversation has the link exactly when every conversation with it was the one the user emptied. |
| Membership.LinkAbsentCases | functions/api.js:121-125 | The two cases of the previous row: the user's conversation is dropped, or only its users change. |
| Membership.LinkAbsentAround | functions/api.js:125 | With one position spliced out, no conversation has the link exactly when no other position had it. |
| Membership.JoinConversationAppends | functions/api.js:125-134 | On success the user is appended to the first conversation with the link in the cleaned room, and nothing else changes. Every email keeps its count. On 404 the cleaned room has no such conversation. |
| Membership.JoinConversationPreservesValid | functions/api.js:105-137 | A written room keeps the invariants and distinct links. |
| Membership.LeaveConversationToLobby | functions/api.js:157-164 | The cleaned room still has a lobby. The user is appended at the end of its users, the rest of the cleaned room is kept, and every email keeps its count. |
| Membership.LeaveConversationPreservesValid | functions/api.js:139-167 | leaveConversation keeps the invariants and distinct links. |
| Api.RoomDoc.CleanupEmptyConversations | functions/api.js:20-30 | The collect-then-splice-in-reverse loop leaves exactly the filtered list `Cleanup` of the old conversations. |
| Api.RoomDoc.RemoveFromCurrent | functions/api.js:84-89 | The in-place `find`/`findIndex`/`splice` leaves `RemoveUser` of the old conversations. |
| Api.RoomDoc.JoinRoom | functions/api.js:52-64 | Returns joinRoom's outcome. The list is changed only when the user is pushed onto the lobby. |
| Api.RoomDoc.CreateConversation | functions/api.js:84-98 | The list becomes createConversation's room. |
| Api.RoomDoc.JoinConversation | functions/api.js:114-133 | Returns joinConversation's outcome. On 404 the object is left at the cleaned room without the user, and that room is not written. |
| Api.RoomDoc.LeaveConversation | functions/api.js:149-163 | The list becomes leaveConversation's room. |
| Api.Database.Commit | functions/api.js:54-167 | On a room outcome the room is written and sent. Unchanged sends the fetched room without writing. A missing conversation answers 404 without writing. |
| Api.Database.HandleJoinRoom | functions/api.js:45-68 | An unknown room answers the room-not-found 404 and changes nothing. Otherwise the handler commits joinRoom's outcome and keeps every stored room valid. |
| Api.Database.HandleCreateConversation | functions/api.js:75-103 | As for joinRoom, with createConversation's room always written. |
| Api.Database.HandleJoinConversation | functions/api.js:105-137 | As for joinRoom. A missing destination answers the conversation-not-found 404, and the stored room stays as fetched. |
| Api.Database.HandleLeaveConversation | functions/api.js:139-167 | As for joinRoom, with leaveConversation's room always written. |
| Scenarios.LobbyToConversationWalkthrough | functions/api.js:45-137 | A concrete run: Alice joins an empty lobby and opens "room42", then Bob joins the room and follows her into "room42". The lobby stays, although it is empty. |
| Scenarios.AliceOpensConversation | functions/api.js:45-103 | First half of the walkthrough: joinRoom puts Alice into the empty lobby, and createConversation moves her into a new "room42" while the empty lobby stays. |
| Scenarios.BobFollowsAlice | functions/api.js:45-137 | Second half: joinRoom puts Bob into the lobby, and joinConversation moves him behind Alice in "room42". |
| Scenarios.RejoiningOwnConversationFails | functions/api.js:119-130 | A user alone in a conversation who asks to join it empties it first. Cleanup drops it, so the answer is 404. |
| Scenarios.CreateConversationCanRepeatLink | functions/api.js:95-98 | createConversation with a link that is still in use gives two conversations with that link. |

## Left out

- The Firestore I/O is modelled as a map that is read once and written at most once per request. Connection failures and the 500 answer in `getRoomRefAndData` (functions/api.js:13-16) are not modelled; they depend on the network.
- Request parsing (`JSON.parse(request.body)`, the URL split in `getRoom`) is left out. The handlers take the room id, user and link as parameters.
- `getRoom` only reads and sends the stored room, and is not modelled. `createRoom` and `leaveRoom` are empty stubs in the source.
- Concurrency is left out: two requests reading the same room and both writing it, and the lost update this allows. Each handler is modelled as one atomic read-modify-write.
- Conversations are modelled as values, not as shared objects. In the source `usersExistingConversation` and `selectedConversation` alias entries of `roomData.conversations`. The model updates the entry at the position `find` returned, which has the same effect.
- Throwing paths are modelled as preconditions, not as error results, because the source has no handler for them and the request then fails without an answer:
  - `reduce` on an empty conversation list;
  - a missing lobby in joinRoom and leaveConversation;
  - a user absent from the room in the three moving handlers.

  On a valid room joinRoom never takes its throwing paths; `Membership.JoinRoomPreservesValid` proves this.
- Membership.CreateConversationPreservesValid: distinct links are proved only when the new link is not among the links left after cleanup. The source does not check the link, so the unconditional promise does not hold.
- Rooms.Valid: states "at least one lobby", not "exactly one". createConversation with the empty link adds a second lobby.
- The React front end (src/components) and the Google sign-in helpers are not part of this model.
