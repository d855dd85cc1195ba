# Messaging back end: decision logic of the controllers and schemas

This project models the request handlers of a direct-messaging back end written in
TypeScript on Express and Mongoose. It covers four groups of handlers:

- the conversation registry: create, add or remove a participant, list, fetch, the unread count, and cascading delete;
- the message store with read receipts: send, list, edit, delete, mark as read, and per-message read statistics;
- the friendship ledger: send, accept, reject, remove, list requests and friends, and the status lookup;
- the user handlers with cascades: deleteUser, the username search that hides the caller and the caller's friends, and registerMultiple.

All four MongoDB collections live in one store, the class `Store.Db`. The store works as follows:

- Each collection is a sequence of documents `Doc(id, body)` in natural (insertion) order.
- `findOne` / `findById` return the first match in that order (`Documents.FindFirst`).
- `find` and `deleteMany` filter the sequence (`Documents.Where`).
- `countDocuments` is the length of a filtered sequence.
- A counter stands in for ObjectId generation.
- `Db.Valid()` collects what the store guarantees:
  - unique ids, all below the counter;
  - every stored conversation passes its schema;
  - the unique index on (sender, receiver) of friendships;
  - the unique username and email indexes of users.

Each handler that writes is a module-level method taking the store as `db: Db`. Its
`modifies` clause names the collections it may change. A handler that only reads is a
function over the collections. Each handler returns
`Ok(value)` or `Fail(BadRequest | NotFound | Forbidden | ServerError)`. The checks run in
the same order as in the source. A failed `save()` caught by the handler's `catch`
becomes `ServerError`, the HTTP 500 the handler answers.

The model follows the code as written, including behaviour a reader might not expect:

- `removeFriendship` deletes by record id. It does not take the two users.
- A repeated friend request is answered 400 (`BadRequest`), not "conflict".
- Nothing forbids a self-request. `FriendshipController.SelfFriendOnlyThroughSelfRecord` shows that an accepted self-record lists a user among their own friends.
- The exact-participants lookup of createConversation (`$all` plus `$size`) compares lists as given. A list with a repeated id can therefore match a different conversation (`ConversationController.RepeatedIdMatchesOtherConversation`). For lists without repeats it is set equality (`ConversationController.ExactMatchIsSetEquality`).
- deleteConversation and deleteUser run their bulk deletes before looking up the record. A `NotFound` answer therefore still leaves those deletions in place.
- No 2000-character content limit, no `lastMessage` update after a send, and no self-friendship check are asserted, because the code has none.

## Model

| member | source | states |
|---|---|---|
| Documents.Where | src/controllers/messageController.ts:63 | `find(filter)` returns exactly the stored documents the filter accepts, in natural order, never more than are stored |
| Documents.WhereCounts | src/controllers/messageController.ts:63 | each matching document appears as often as it is stored, and no other document appears |
| Documents.FindFirst | src/controllers/friendshipController.ts:16-21 | `findOne` answers the first position whose document matches; none iff no document matches |
| Documents.FindById | src/controllers/messageController.ts:88 | `findById` answers a position holding that id; none iff no document has it |
| Store.Db.FreshId | src/controllers/messageController.ts:39-45 | a new document gets an id that no stored document of any collection carries |
| ConversationModel.HasMinParticipants | src/models/conversationModel.ts:57-62 | the first validator: at least 2 participants |
| ConversationModel.WithinMaxParticipants | src/models/conversationModel.ts:65-70 | the second validator: at most 50 participants |
| ConversationModel.GroupNameAccepted | src/models/conversationModel.ts:34-40 | a group needs a non-empty name, and a name has at most 50 characters |
| ConversationModel.SchemaValid | src/models/conversationModel.ts:34-70 | a save passes iff all three rules above hold |
| ConversationModel.IsGroupOrDefault | src/models/conversationModel.ts:28-33 | an absent isGroup defaults to true exactly when there are more than two participants; a supplied value is kept |
| ConversationModel.NewConversation | src/models/conversationModel.ts:14-54 | a new conversation keeps the given participants, creator and name, has no lastMessage, takes the isGroup default, and has all three timestamps at now |
| ConversationModel.Stamped | src/models/conversationModel.ts:78-82 | the pre-save hook sets updatedAt and lastActivity to now, changes no other field, and does not affect schema validity |
| ConversationModel.GroupNeedsName | src/models/conversationModel.ts:34-40 | a group without a non-empty name fails the schema |
| Store.Db.InsertConversation | src/models/conversationModel.ts:57-82 | a conversation is saved iff it passes the validators; it is then stamped and appended under a fresh id, and the other collections are unchanged |
| Store.Db.UpdateConversation | src/models/conversationModel.ts:57-82 | re-saving succeeds iff the changed record passes the validators; only that record changes, to its stamped version |
| MessageModel.IsReadBy | src/controllers/messageController.ts:169 | the user is among the message's readers |
| MessageModel.NewMessage | src/controllers/messageController.ts:39-43 | a new message belongs to the given conversation and sender, has timestamp now, an empty readBy, and is not edited |
| MessageModel.MarkAsReadBy | src/controllers/messageController.ts:179 | the readers become the old readers plus the user, every other field is kept, and a reader already present leaves the message unchanged |
| FriendshipModel.NewFriendship | src/models/friendshipModel.ts:11-25 | a record keeps sender and receiver; its status defaults to pending |
| FriendshipModel.UniqueOrderedPairs | src/models/friendshipModel.ts:33 | the unique index: no two records share both sender and receiver |
| FriendshipModel.LedgerImpliesIndex | src/models/friendshipModel.ts:33 | one record per unordered pair implies the unique (sender, receiver) index |
| UserModel.Insertable | src/models/userModel.ts:11-26 | a user saves iff its three fields are non-empty and its username and email are not taken |
| UserModel.InsertKeepsCredentialsUnique | src/models/userModel.ts:11-26 | saving a user whose fields are non-empty and whose username and email are not taken keeps both unique indexes |
| Sorting.SortBy | src/controllers/messageController.ts:65 | a sort returns a permutation of its input in ascending key order |
| MessageController.MessagesOf | src/controllers/messageController.ts:63-65 | getMessages returns exactly the messages of the conversation (as a multiset), in ascending timestamp order |
| MessageController.SendMessage | src/controllers/messageController.ts:8-52 | NotFound for a missing conversation, Forbidden for a non-participant; otherwise exactly one new message is appended, and nothing else changes |
| MessageController.DeleteMessage | src/controllers/messageController.ts:74-104 | NotFound, then Forbidden unless the caller is the sender; otherwise exactly the message with that id is removed |
| MessageController.UpdateMessage | src/controllers/messageController.ts:106-143 | NotFound, then Forbidden unless the caller is the sender; the sender always succeeds, and content, edited and editedAt change while sender, conversation, timestamp and readers are kept |
| MessageController.MarkMessageAsRead | src/controllers/messageController.ts:145-190 | NotFound iff the message is missing; an existing reader gets alreadyRead = true and the store is unchanged; otherwise the user is added and alreadyRead = false |
| MessageController.MarkAsReadTwice | src/controllers/messageController.ts:168-185 | a second mark-as-read by the same user succeeds exactly when the first did, reports alreadyRead and returns the same message; after both calls the store is as the first call left it (unchanged on failure, otherwise only that message replaced by its read version) |
| MessageController.Preview | src/controllers/messageController.ts:214 | the preview is the first min(50, length) characters followed by "...", at most 53 characters, and equals content + "..." for a short content |
| MessageController.ReadStats | src/controllers/messageController.ts:192-223 | NotFound iff the message is missing; otherwise the id, preview, sender, timestamp and readers of that message |
| ConversationController.ExactMatch | src/controllers/conversationController.ts:16-21 | the `$all` + `$size` filter: every requested id is stored and the lengths agree |
| ConversationController.ExactMatchIsSetEquality | src/controllers/conversationController.ts:16-21 | for lists without repeated ids, the `$all` + `$size` lookup matches iff the two participant sets are equal |
| ConversationController.RepeatedIdMatchesOtherConversation | src/controllers/conversationController.ts:16-21 | a request [a, a] matches a stored [a, b] although the sets differ |
| ConversationController.RequestedConversation | src/controllers/conversationController.ts:43-53 | isGroup is true only when the request says true; groupName is kept only for a group with a non-empty name |
| ConversationController.CreateConversation | src/controllers/conversationController.ts:9-66 | an exact match is returned and nothing is added; otherwise BadRequest for fewer than 2 or more than 50 participants or a missing creator; otherwise the schema decides between one appended conversation and ServerError |
| ConversationController.CreateTwice | src/controllers/conversationController.ts:16-28 | asking twice for the same participants yields the same answer; messages, friendships and users are unchanged, and the conversations are either unchanged or grown by exactly the first answer |
| ConversationController.Without | src/controllers/conversationController.ts:102 | the filter removes every occurrence of the participant, keeps every other id, and is the identity when the id is absent |
| ConversationController.AddParticipant | src/controllers/conversationController.ts:68-87 | NotFound, then BadRequest if already a participant; otherwise success iff fewer than 50 participants, appending the id and stamping the record, else ServerError with nothing changed |
| ConversationController.RemoveParticipant | src/controllers/conversationController.ts:89-109 | NotFound, then BadRequest if not a participant; otherwise success iff at least 2 participants remain, else ServerError with nothing changed; in particular a two-person conversation always answers ServerError |
| ConversationController.UserConversations | src/controllers/conversationController.ts:122-127 | exactly the conversations the user takes part in, each as often as stored, most recently updated first |
| ConversationController.ConversationWithMessages | src/controllers/conversationController.ts:137-162 | NotFound iff the conversation is missing; otherwise that conversation and exactly its messages, each as often as stored, in timestamp order |
| ConversationController.UnreadBy | src/controllers/conversationController.ts:195-199 | the count filter: in the conversation, sent by someone else, and not read by the user |
| ConversationController.UnreadCount | src/controllers/conversationController.ts:195-199 | the number of messages passing that filter |
| ConversationController.UnreadWithinConversation | src/controllers/conversationController.ts:195-199 | the unread count never exceeds the number of messages getMessages lists for the conversation |
| ConversationController.UnreadStats | src/controllers/conversationController.ts:164-215 | NotFound iff the conversation is missing, then Forbidden iff the user is not a participant; otherwise the unread count and the conversation's group fields |
| ConversationController.UnreadZeroIffAllRead | src/controllers/conversationController.ts:195-199 | the unread count is zero iff every message of the conversation was sent or read by the user |
| ConversationController.SendChangesUnread | src/controllers/conversationController.ts:195-199 | a message sent to the conversation raises every other user's unread count by one and leaves the sender's count unchanged |
| ConversationController.MarkReadChangesUnread | src/controllers/conversationController.ts:195-199 | marking a message as read lowers the reader's count by one if it was unread for them, otherwise leaves it |
| ConversationController.OtherReaderKeepsUnread | src/controllers/conversationController.ts:195-199 | another user's read receipt never changes this user's unread count |
| ConversationController.DeleteConversation | src/controllers/conversationController.ts:218-236 | every message of the conversation is deleted (even on NotFound) and no others; the conversation is then removed if it exists |
| FriendshipController.LedgerAppend | src/controllers/friendshipController.ts:16-36 | adding a record for a pair that has none keeps one record per pair |
| FriendshipController.LedgerRestatus | src/controllers/friendshipController.ts:63-64 | changing the status of a record keeps one record per pair |
| FriendshipController.LedgerWhere | src/controllers/friendshipController.ts:91 | deleting records keeps one record per pair |
| FriendshipController.SendFriendRequest | src/controllers/friendshipController.ts:8-41 | BadRequest when a record links the pair in either direction; otherwise exactly one pending record from sender to receiver is added, and the ledger invariant is kept |
| FriendshipController.PendingFrom | src/controllers/friendshipController.ts:47-51 | the lookup of accept and reject: this sender, this receiver, status pending |
| FriendshipController.LookupMatchesReceiver | src/controllers/friendshipController.ts:47-61 | the record the lookup finds always has the caller as receiver, so with canonical ids the Forbidden branch is unreachable |
| FriendshipController.AcceptFriendRequest | src/controllers/friendshipController.ts:43-70 | NotFound without a pending sender-to-receiver record; otherwise only that record's status changes, to accepted; never Forbidden for canonical ids |
| FriendshipController.RejectFriendRequest | src/controllers/friendshipController.ts:72-97 | the same lookup as accept; the found record is deleted and no other; never Forbidden for canonical ids |
| FriendshipController.RemoveFriendship | src/controllers/friendshipController.ts:203-233 | NotFound iff no record has that id; otherwise exactly that record is deleted |
| FriendshipController.FriendRequests | src/controllers/friendshipController.ts:111-114 | exactly the pending records whose receiver is the user, each as often as stored |
| FriendshipController.FriendshipBetween | src/controllers/friendshipController.ts:146-155 | NotFound iff no record links the two users in either direction; otherwise such a record |
| FriendshipController.OtherEndpoint | src/controllers/friendshipController.ts:186-188 | the receiver when the user is the sender, otherwise the sender |
| FriendshipController.FriendIds | src/controllers/friendshipController.ts:180-188 | v is a friend of u iff an accepted record links u and v in either direction |
| FriendshipController.FriendsSymmetric | src/controllers/friendshipController.ts:180-188 | v is among u's friends iff u is among v's |
| FriendshipController.SelfFriendOnlyThroughSelfRecord | src/controllers/friendshipController.ts:186-188 | a user is among their own friends iff an accepted record has them as both sender and receiver |
| FriendshipController.Friends | src/controllers/friendshipController.ts:180-194 | getFriends returns exactly the stored users whose id is a friend's id, each as often as stored |
| FriendshipController.FriendshipStatus | src/controllers/friendshipController.ts:243-254 | not_friends iff no record links the pair; otherwise the status of a record linking it |
| FriendshipController.StatusSymmetric | src/controllers/friendshipController.ts:243-248 | the status of (a, b) equals the status of (b, a) |
| FriendshipController.StatusIsTheRecordsStatus | src/controllers/friendshipController.ts:243-254 | under the ledger invariant, the status is that of the one record linking the pair |
| FriendshipController.RequestAcceptRemove | src/controllers/friendshipController.ts:8-258 | from no record between A and B: the first request succeeds, a second is refused, accepting yields status accepted, and removing the record yields not_friends |
| UserController.DeleteUser | src/controllers/userController.ts:55-78 | BadRequest on invalid params; otherwise the user's messages and every friendship involving the user are deleted and no others, then NotFound or the user is deleted; conversations are untouched |
| UserController.CascadeLeavesOtherFriends | src/controllers/userController.ts:66-71 | after the friendship cascade, every other user's friends are their old friends minus the deleted user |
| UserController.ExclusionSet | src/controllers/userController.ts:162-171 | the excluded ids are the caller and everyone linked to the caller by an accepted record |
| UserController.ExclusionIsMutual | src/controllers/userController.ts:162-171 | another user is excluded iff the caller is among that user's friends |
| UserController.SearchUsers | src/controllers/userController.ts:143-195 | NotFound iff every matching user is the caller or a friend; otherwise exactly the matching users who are neither, each as often as stored |
| UserController.RegisterStep | src/controllers/userController.ts:114-123 | one iteration: an insertable input is saved under the next id and reported as created; any other input is reported as an error |
| UserController.RegisterAll | src/controllers/userController.ts:113-124 | the loop as a fold over the inputs, in order |
| UserController.RegisterPartition | src/controllers/userController.ts:113-124 | every input lands in exactly one of created or errors, each created entry is a user appended in order under consecutive ids, and the unique indexes hold |
| UserController.RegisterMultiple | src/controllers/userController.ts:102-141 | BadRequest for an invalid body; otherwise the loop's users, counter and reports equal the fold over the inputs, and BadRequest with nothing stored when none was created |

## Left out

- Id parsing (`isValid`, `createFromHexString`, `new ObjectId`): ids are natural numbers, so the 400 answers for malformed ids and the 500 from a throwing constructor are not modelled.
- Id spelling: ids are assumed to arrive in canonical lowercase 24-digit hexadecimal. The handlers compare ids in two ways. Queries and array `includes` compare cast ObjectIds. Some checks compare strings (`toString() === id`), at src/controllers/friendshipController.ts:59, :87 and :187, src/controllers/messageController.ts:32, :94 and :126, src/controllers/conversationController.ts:188 and src/controllers/userController.ts:164. The model has one equality for both. With an uppercase id the real handlers differ from the model: accept and reject answer 403 to the receiver, sendMessage answers 403 to a participant, updateMessage and deleteMessage answer 403 to the sender, addParticipant pushes a duplicate, and getFriends can list the caller.
- A missing senderId or receiverId in sendFriendRequest: `new Types.ObjectId(undefined)` makes a fresh random id rather than failing. The model always has both ids.
- FriendshipController.AcceptFriendRequest: "never Forbidden" holds only for canonical ids, as above.
- FriendshipController.RejectFriendRequest: "never Forbidden" holds only for canonical ids, as above.
- HTTP plumbing: Express, status codes, response bodies and their messages, and `populate` joins. `lastUpdate` and timestamps come from a `now` parameter, not the clock.
- Request body validation with Joi: deleteUser and registerMultiple take its verdict as a boolean parameter.
- Authentication and password hashing: the bcrypt pre-save hook of the user schema, login and JWT. The model stores passwords as given.
- Socket.IO broadcasts and console logging.
- The message schema file, whose fields do not match what the controllers use. Its read receipts become a set of reader ids; readAt times, `getReadStats` and validation are not modelled, so a message save never fails.
- The text of error entries in registerMultiple (`err.message` from the library): an error entry is the rejected input's username.
- UserController.SearchUsers: the case-insensitive regex prefix match is a predicate parameter.
- The `catch` answers for database or network failures other than schema validation.
- Concurrency: every handler runs atomically, so races between check and insert (create, send request, mark as read) are not modelled.
- The order of equal keys after a sort, which Mongo does not fix: the model proves the sorted order and the permutation, and picks one order among ties.
- Strings are sequences of characters, not UTF-16 code units, for the 50-character limits and the preview.
- The stale user1/user2 friendship schema, which is superseded.
