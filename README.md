# Chat ledger and marketplace rules of Project-Ecommerce-Jame

This project models the core of a second-hand marketplace. The centre is its chat. The server keeps one ledger of messages per two-party conversation. The REST handlers and the socket handler read and write that ledger. The browser page keeps its own copy of the open conversation and patches it on socket events.

The model covers:

- the per-viewer "delete for me" list stored in each message (`deletedBy`);
- unsending, read receipts, previews, transcripts and conversation lookup;
- how a message bubble, an avatar and the translation lookup are drawn or computed;
- the rules of addresses, products, the admin pages, the public catalogue, the upload filter and the admin guard.

The store is one class, `Store.Db`, with one sequence per table. It also holds a monotone clock, which stands for `new Date()`, and a shared id counter. Handlers that write the store are methods with field-level `modifies` frames. Read-only handlers and the page's reducers are functions. The page's state objects (`ChatAvatarState`, `AvatarState`, `LanguageState`) and the socket server (`SocketServer`) are classes.

The central result is `ChatClient.Agrees`. A page whose list shows what `getMessages` would return keeps doing so after each server change and the matching socket event:

- a new message;
- unsending a message;
- "delete for me", by the page's own user or by anyone else;
- read receipts by the page's user or by the other party.

The one step where agreement fails is a finding (below).

Two behaviours of the code are easy to miss:

- Previews drop unsent messages (`chatController.js:126`), so an unsent message is never a conversation's preview.
- The video limit of the file picker is 50 MiB (`Chat.jsx:309`), larger than the 50,000,000 bytes the upload handler accepts (a finding, below).

Injected things:

- The JWT check is a function parameter `verify` of the socket handshake.
- File names take the clock as a parameter `now`.
- The backend origin is a parameter `origin` or `base`.

## Model

| member | source | states |
|---|---|---|
| DeletedBy.IdText | Project-Ecommerce-Jame/backend/src/controllers/chatController.js:298-300 | the id text written into `deletedBy` is non-empty and holds no ',' |
| DeletedBy.Tokens | Project-Ecommerce-Jame/backend/src/controllers/chatController.js:295-296 | every piece of the split-and-filter is non-empty and free of ',' |
| DeletedBy.EncodeThenTokens | Project-Ecommerce-Jame/backend/src/controllers/chatController.js:296-300 | joining a list of ids with ',' and splitting it again gives the list back |
| DeletedBy.TokensThenEncode | Project-Ecommerce-Jame/backend/src/controllers/chatController.js:296-300 | re-encoding a decoded column keeps every listed id, in order |
| DeletedBy.ListedAgree | Project-Ecommerce-Jame/backend/src/controllers/chatController.js:128-129 | the raw split used by getMessages and the filtered split used by getConversations agree on whether a user is listed |
| DeletedBy.Add | Project-Ecommerce-Jame/backend/src/controllers/chatController.js:295-301 | delete-for-me writes the column exactly when the caller is not yet listed; otherwise the column is unchanged |
| DeletedBy.AddTokens | Project-Ecommerce-Jame/backend/src/controllers/chatController.js:296-300 | afterwards the ids are the earlier ones, in order, followed by the caller's id if it was absent |
| DeletedBy.AddListsOnlyCaller | Project-Ecommerce-Jame/backend/src/controllers/chatController.js:296-300 | afterwards the caller is listed, and every other user is listed exactly as before |
| DeletedBy.AddIdempotent | Project-Ecommerce-Jame/backend/src/controllers/chatController.js:298 | a repeated delete-for-me performs no write |
| DeletedBy.Encode | Project-Ecommerce-Jame/backend/src/controllers/chatController.js:300 | `deletedByArray.join(',')`, the text written back; `EncodeThenTokens` is its inverse |
| DeletedBy.ListedRaw | Project-Ecommerce-Jame/backend/src/controllers/chatController.js:212-215 | getMessages hides a message from a user iff the field is set and one raw piece of its split is the user id |
| DeletedBy.Listed | Project-Ecommerce-Jame/backend/src/controllers/chatController.js:127-129 | getConversations drops a message for a user iff the field is set and one non-empty piece is the user id; `ListedAgree` shows both tests agree |
| Chat.ParticipationKept | Project-Ecommerce-Jame/backend/src/socket/socketHandler.js:163-166 | appending conversations or touching `updatedAt` never removes a participant |
| Chat.MessagesOf | Project-Ecommerce-Jame/backend/src/controllers/chatController.js:206-209 | the conversation's messages are exactly the stored ones with that conversation id |
| Chat.MessagesOfAscending | Project-Ecommerce-Jame/backend/src/controllers/chatController.js:208 | the messages of one conversation come in ascending `createdAt` order |
| Chat.HeadPrecedes | Project-Ecommerce-Jame/backend/src/controllers/chatController.js:208 | in an ascending list the head is older than anything taken from the tail |
| Chat.Transcript | Project-Ecommerce-Jame/backend/src/controllers/chatController.js:212-216 | the transcript holds exactly the messages whose raw `deletedBy` split does not list the viewer; unsent ones stay |
| Chat.TranscriptAppend | Project-Ecommerce-Jame/backend/src/controllers/chatController.js:212-216 | the filter distributes over concatenation, so list order is kept |
| Chat.TranscriptAscending | Project-Ecommerce-Jame/backend/src/controllers/chatController.js:208-216 | the transcript is in ascending `createdAt` order |
| Store.Reverse | Project-Ecommerce-Jame/backend/src/controllers/chatController.js:117 | position i of the reversal holds the element at the mirrored position |
| Chat.Latest | Project-Ecommerce-Jame/backend/src/controllers/chatController.js:116-119 | the window is the newest min(n, count) messages of the conversation, newest first |
| Chat.LatestDescending | Project-Ecommerce-Jame/backend/src/controllers/chatController.js:117 | the window is in strictly descending `createdAt` order |
| Chat.Preview | Project-Ecommerce-Jame/backend/src/controllers/chatController.js:124-135 | the preview is empty iff no message of the window is visible; otherwise it is the first visible one |
| Chat.PreviewOnlyVisible | Project-Ecommerce-Jame/backend/src/controllers/chatController.js:125-130 | a preview is never unsent and never deleted by the viewer |
| Chat.DeletedForMeOnly | Project-Ecommerce-Jame/backend/src/controllers/chatController.js:125-130 | a message deleted by the viewer is in neither their transcript nor their preview, but stays in another user's transcript |
| Chat.UnsentStaysInTranscript | Project-Ecommerce-Jame/backend/src/controllers/chatController.js:212-216 | an unsent message stays in the transcript of every viewer who has not deleted it |
| Chat.UnsentNeverPreview | Project-Ecommerce-Jame/backend/src/controllers/chatController.js:126 | an unsent message is never a preview |
| Chat.WindowOfUnsentHasNoPreview | Project-Ecommerce-Jame/backend/src/controllers/chatController.js:116-133 | when the 10 newest messages are all unsent, the preview is empty |
| Chat.PreviewIgnoresOlderVisible | Project-Ecommerce-Jame/backend/src/controllers/chatController.js:116-133 | a visible message followed by 10 unsent ones does not become the preview |
| Chat.MessagesOfAll | Project-Ecommerce-Jame/backend/src/controllers/chatController.js:206-209 | a list all of one conversation is its own selection |
| Chat.MarkRead | Project-Ecommerce-Jame/backend/src/controllers/chatController.js:165-174 | exactly the unread messages of the conversation sent by someone other than the reader become read |
| Chat.MarkReadIdempotent | Project-Ecommerce-Jame/backend/src/socket/socketHandler.js:75-82 | a second receipt changes nothing; afterwards no row is a target |
| Chat.MarkReadOnlyFlag | Project-Ecommerce-Jame/backend/src/socket/socketHandler.js:75-82 | a receipt changes only `isRead`, and never from read to unread |
| Chat.SendAcceptedWhenSomethingPresent | Project-Ecommerce-Jame/backend/src/socket/socketHandler.js:97-100 | a send passes validation iff it has non-blank text, an image, a video or a product |
| Chat.OrNull | Project-Ecommerce-Jame/backend/src/socket/socketHandler.js:125-126 | `value \|\| null` is present exactly for a truthy value, and then unchanged |
| Chat.RoomName | Project-Ecommerce-Jame/backend/src/socket/socketHandler.js:57 | a room name starts with `conversation_` |
| Chat.RoomNameInjective | Project-Ecommerce-Jame/backend/src/socket/socketHandler.js:57 | distinct conversations never share a room |
| Chat.PreviewVisible | Project-Ecommerce-Jame/backend/src/controllers/chatController.js:125-130 | a message may preview a conversation iff it is not unsent and the viewer has not deleted it |
| Chat.ConversationPreview | Project-Ecommerce-Jame/backend/src/controllers/chatController.js:116-133 | the preview is the first visible message among the 10 newest of the conversation |
| Chat.ReadTarget | Project-Ecommerce-Jame/backend/src/socket/socketHandler.js:75-82 | a read receipt flips exactly the unread messages of the conversation sent by someone else |
| Chat.SendRefused | Project-Ecommerce-Jame/backend/src/socket/socketHandler.js:97-100 | send_message refuses a message with no non-blank text and no image, video or product |
| SocketHandler.Authenticate | Project-Ecommerce-Jame/backend/src/socket/socketHandler.js:16-32 | no token is refused, a token that fails verification is refused, otherwise the user is the token's id |
| SocketHandler.Touch | Project-Ecommerce-Jame/backend/src/socket/socketHandler.js:163-166 | only the sent-to conversation gets the new `updatedAt` |
| SocketHandler.NewMessage | Project-Ecommerce-Jame/backend/src/socket/socketHandler.js:120-129 | the stored row has the connection's user as sender, is unread, has `''` for falsy text and null for falsy media and product |
| SocketHandler.StoredMessageWasValid | Project-Ecommerce-Jame/backend/src/socket/socketHandler.js:97-129 | a stored message carries non-blank text or an attachment |
| SocketHandler.SocketServer.constructor | Project-Ecommerce-Jame/backend/src/socket/socketHandler.js:34 | no sessions, no rooms, nothing emitted |
| SocketHandler.SocketServer.Connect | Project-Ecommerce-Jame/backend/src/socket/socketHandler.js:16-32 | the session is bound exactly on acceptance, to the token's user |
| SocketHandler.SocketServer.Disconnect | Project-Ecommerce-Jame/backend/src/socket/socketHandler.js:203-205 | the socket leaves its session and every room |
| SocketHandler.SocketServer.Broadcast | Project-Ecommerce-Jame/backend/src/socket/socketHandler.js:169 | `io.to(room)` reaches every member of the room, the sender included |
| SocketHandler.SocketServer.JoinRoom | Project-Ecommerce-Jame/backend/src/socket/socketHandler.js:38-64 | a participant joins and the others get `messages_read`; a non-participant gets `error` and rooms are unchanged; nothing is stored |
| SocketHandler.SocketServer.MarkRead | Project-Ecommerce-Jame/backend/src/socket/socketHandler.js:72-90 | the ledger becomes `MarkRead` for the socket's user, with no participant check; the room minus the sender is notified |
| SocketHandler.SocketServer.SendMessage | Project-Ecommerce-Jame/backend/src/socket/socketHandler.js:95-176 | refused sends store nothing; otherwise exactly one new row is appended, the conversation is touched and the row is broadcast to the whole room |
| SocketHandler.InsertMessage | Project-Ecommerce-Jame/backend/src/socket/socketHandler.js:119-166 | the new row is appended with the next id and the current time, the conversation gets the following time as `updatedAt`, and the store stays well formed |
| SocketHandler.TouchKeepsParticipation | Project-Ecommerce-Jame/backend/src/socket/socketHandler.js:163-166 | touching a conversation keeps every participant of every conversation |
| SocketHandler.SocketServer.Typing | Project-Ecommerce-Jame/backend/src/socket/socketHandler.js:179-189 | `user_typing` goes to the room minus the sender; nothing is stored |
| SocketHandler.SocketServer.StoppedTyping | Project-Ecommerce-Jame/backend/src/socket/socketHandler.js:192-201 | `user_stopped_typing` goes to the room minus the sender; nothing is stored |
| SocketHandler.RoomReachesOnlyParticipants | Project-Ecommerce-Jame/backend/src/socket/socketHandler.js:41-57 | every socket a room event reaches belongs to a participant of that conversation |
| SocketHandler.SocketServer.Valid | Project-Ecommerce-Jame/backend/src/socket/socketHandler.js:38-57 | every socket in a room is connected and its user participates in that conversation, as join_room checks before joining |
| ChatController.FindExisting | Project-Ecommerce-Jame/backend/src/controllers/chatController.js:21-50 | the first conversation whose participants all lie in {caller, target}, or none |
| ChatController.FindExistingSymmetric | Project-Ecommerce-Jame/backend/src/controllers/chatController.js:24-30 | A→B and B→A find the same conversation |
| ChatController.FoundIsThePair | Project-Ecommerce-Jame/backend/src/controllers/chatController.js:53 | in a two-party store a found conversation has participant set exactly {a, b} |
| ChatController.CreateKeepsOnePerPair | Project-Ecommerce-Jame/backend/src/controllers/chatController.js:57-85 | creating the pair only when none was found keeps one conversation per pair |
| ChatController.LoneRowShadowsPair | Project-Ecommerce-Jame/backend/src/controllers/chatController.js:21-66 | a one-participant conversation found first makes the handler create a new pair next to an existing one |
| ChatController.FoundIsPairSet | Project-Ecommerce-Jame/backend/src/controllers/chatController.js:53 | two participant rows within {a, b} with a ≠ b are exactly {a, b} |
| ChatController.StartConversation | Project-Ecommerce-Jame/backend/src/controllers/chatController.js:7-86 | 400 for a missing or own target with nothing written; otherwise the found two-party conversation, or a new one with exactly the two users (201) |
| ChatController.InsertByUpdated | Project-Ecommerce-Jame/backend/src/controllers/chatController.js:121 | insertion adds exactly the one conversation |
| ChatController.InsertKeepsLatestActivityFirst | Project-Ecommerce-Jame/backend/src/controllers/chatController.js:121 | insertion keeps `updatedAt` non-increasing |
| ChatController.SortByUpdated | Project-Ecommerce-Jame/backend/src/controllers/chatController.js:121 | the result is a permutation in `updatedAt` descending order |
| ChatController.ConversationsOf | Project-Ecommerce-Jame/backend/src/controllers/chatController.js:94-101 | exactly the conversations the user takes part in |
| ChatController.Shown | Project-Ecommerce-Jame/backend/src/controllers/chatController.js:131-134 | the listed conversations, position by position |
| ChatController.GetConversations | Project-Ecommerce-Jame/backend/src/controllers/chatController.js:91-138 | the caller's conversations, newest first, each with its computed preview |
| ChatController.GetConversationsExactlyMine | Project-Ecommerce-Jame/backend/src/controllers/chatController.js:94-101 | a conversation is listed iff the caller takes part in it |
| ChatController.GetMessages | Project-Ecommerce-Jame/backend/src/controllers/chatController.js:143-219 | 404 for non-participants with no write; otherwise receipts are marked and the transcript returned ascending; a second call marks nothing |
| ChatController.UploadChatImage | Project-Ecommerce-Jame/backend/src/controllers/chatController.js:224-235 | 400 without a file, otherwise the URL `/uploads/<name>` |
| ChatController.DeleteMessage | Project-Ecommerce-Jame/backend/src/controllers/chatController.js:240-344 | 404 and 401 as the code checks them; 'everyone' sets only `isDeleted` and broadcasts; 'me' adds the caller once and broadcasts only on write; other types 400 |
| Store.Db.SetMessage | Project-Ecommerce-Jame/backend/src/controllers/chatController.js:260-263 | `message.update` of one row writes that row in place and keeps the store well formed |
| ChatController.DeleteForMeHidesOnlyCaller | Project-Ecommerce-Jame/backend/src/controllers/chatController.js:295-304 | after delete-for-me the row is hidden from the caller and from no one else newly |
| UploadMiddleware.LastDot | Project-Ecommerce-Jame/backend/src/middleware/uploadMiddleware.js:26 | the last '.' of the name, if any |
| UploadMiddleware.ExtName | Project-Ecommerce-Jame/backend/src/middleware/uploadMiddleware.js:17 | the extension is a suffix of the name, empty iff there is no dot, and otherwise a dot followed by dot-free text |
| UploadMiddleware.ExtNameOf | Project-Ecommerce-Jame/backend/src/middleware/uploadMiddleware.js:26 | `base.e` has extension `.e` for dot-free e |
| UploadMiddleware.PatternsUnanchored | Project-Ecommerce-Jame/backend/src/middleware/uploadMiddleware.js:24-28 | both tests are "contains" tests: surrounding text keeps a match |
| UploadMiddleware.Absent | Project-Ecommerce-Jame/backend/src/middleware/uploadMiddleware.js:24-28 | a word that starts nowhere is not contained |
| UploadMiddleware.FirstCharAbsent | Project-Ecommerce-Jame/backend/src/middleware/uploadMiddleware.js:28 | a word whose first letter is missing is not contained |
| UploadMiddleware.ImageWordsAbsent | Project-Ecommerce-Jame/backend/src/middleware/uploadMiddleware.js:24-28 | without a 'j', 'p' or 'g' early enough, no image word occurs |
| UploadMiddleware.VideoWordsAbsent | Project-Ecommerce-Jame/backend/src/middleware/uploadMiddleware.js:28 | without an early 'v', no `video/<type>` word occurs |
| UploadMiddleware.LooseNamesPass | Project-Ecommerce-Jame/backend/src/middleware/uploadMiddleware.js:22-35 | an `.apng-backup` file declared `application/x-png-archive` passes the filter |
| UploadMiddleware.LooseExtensionPasses | Project-Ecommerce-Jame/backend/src/middleware/uploadMiddleware.js:24-26 | the extension test finds "png" inside `.apng-backup` |
| UploadMiddleware.LooseMimePasses | Project-Ecommerce-Jame/backend/src/middleware/uploadMiddleware.js:28 | the mimetype test finds "png" inside `application/x-png-archive` |
| UploadMiddleware.ExtensionCaseIgnored | Project-Ecommerce-Jame/backend/src/middleware/uploadMiddleware.js:26 | the extension is lower-cased before the test |
| UploadMiddleware.MimeCaseMatters | Project-Ecommerce-Jame/backend/src/middleware/uploadMiddleware.js:28 | an upper-case mimetype is refused |
| UploadMiddleware.AudioMp4Refused | Project-Ecommerce-Jame/backend/src/middleware/uploadMiddleware.js:28 | for video the whole `video/<type>` must appear |
| UploadMiddleware.StoredName | Project-Ecommerce-Jame/backend/src/middleware/uploadMiddleware.js:16-18 | the stored name starts with `<field>-` and ends with the original extension |
| UploadMiddleware.Upload | Project-Ecommerce-Jame/backend/src/middleware/uploadMiddleware.js:38-44 | stored iff the type check passes and the size is at most 50,000,000 bytes; the wrong type is reported first |
| UploadMiddleware.ExtAllowed | Project-Ecommerce-Jame/backend/src/middleware/uploadMiddleware.js:24-26 | the extension test: one of the seven words occurs anywhere in the lower-cased extension |
| UploadMiddleware.MimeAllowed | Project-Ecommerce-Jame/backend/src/middleware/uploadMiddleware.js:28 | the mimetype test: one of the image words or the three video types occurs anywhere, case kept |
| UploadMiddleware.CheckFileType | Project-Ecommerce-Jame/backend/src/middleware/uploadMiddleware.js:22-35 | a file is accepted iff both the extension test and the mimetype test pass |
| AdminMiddleware.AdminOnly | Project-Ecommerce-Jame/backend/src/middleware/adminMiddleware.js:1-7 | next iff a user is present with role exactly `ADMIN`; otherwise 403 with the fixed message |
| AdminMiddleware.RoleMatchIsExact | Project-Ecommerce-Jame/backend/src/middleware/adminMiddleware.js:2 | any other role text is refused, and the same user with role `ADMIN` passes |
| Avatars.Words | Project-Ecommerce-Jame/frontend/src/components/ui/ChatAvatar.jsx:16 | splitting the trimmed name on ' ' gives at least one part; with two or more, the first and last are non-empty |
| Avatars.FirstAndLast | Project-Ecommerce-Jame/frontend/src/components/ui/ChatAvatar.jsx:17-19 | two characters: the upper-cased first letters of the first and last parts |
| Avatars.GetInitials | Project-Ecommerce-Jame/frontend/src/components/ui/ChatAvatar.jsx:14-21 | '?' for a falsy name; two-part names give first and last initials; otherwise the first two characters upper-cased; never longer than 2 |
| Avatars.InitialsStartWithFirstLetter | Project-Ecommerce-Jame/frontend/src/components/ui/Avatar.jsx:16-23 | with two or more words the initials start with the first non-blank letter, upper-cased |
| Avatars.OriginBase | Project-Ecommerce-Jame/frontend/src/components/ui/ChatAvatar.jsx:56 | exactly one trailing '/' is removed from the origin |
| Avatars.RootedPath | Project-Ecommerce-Jame/frontend/src/components/ui/ChatAvatar.jsx:57 | a leading '/' is ensured and never doubled |
| Avatars.JoinOriginNormal | Project-Ecommerce-Jame/frontend/src/pages/Chat.jsx:523-530 | all four slash combinations of origin and path give `origin/path` |
| Avatars.GetSafeSrc | Project-Ecommerce-Jame/frontend/src/components/ui/ChatAvatar.jsx:52-59 | null iff the source is falsy; `http` and `blob:` sources pass unchanged; others are joined to the origin |
| Avatars.SafeSrcUnderOrigin | Project-Ecommerce-Jame/frontend/src/components/ui/ChatAvatar.jsx:56-58 | a relative source ends up as the origin base, one '/', and the source's own path |
| Avatars.ChatAvatarState.constructor | Project-Ecommerce-Jame/frontend/src/components/ui/ChatAvatar.jsx:31 | the resolved source and no failure |
| Avatars.ChatAvatarState.OnError | Project-Ecommerce-Jame/frontend/src/components/ui/ChatAvatar.jsx:83 | after a load error the initials are shown |
| Avatars.ChatAvatarState.OnLoad | Project-Ecommerce-Jame/frontend/src/components/ui/ChatAvatar.jsx:84 | after a load the image is shown iff there is a source |
| Avatars.ChatAvatarState.Rerender | Project-Ecommerce-Jame/frontend/src/components/ui/ChatAvatar.jsx:64-66 | the failure flag resets exactly when the resolved source changes |
| Avatars.AvatarState.constructor | Project-Ecommerce-Jame/frontend/src/components/ui/Avatar.jsx:33 | the source as given and no failure |
| Avatars.AvatarState.OnError | Project-Ecommerce-Jame/frontend/src/components/ui/Avatar.jsx:71-72 | after a load error the initials are shown |
| Avatars.AvatarState.Rerender | Project-Ecommerce-Jame/frontend/src/components/ui/Avatar.jsx:67-76 | a new source is taken, and the failure flag is never reset |
| MessageBubble.MapLink | Project-Ecommerce-Jame/frontend/src/pages/Chat.jsx:338 | a shared location starts with the Google Maps query prefix |
| MessageBubble.MapLinkIsLocation | Project-Ecommerce-Jame/frontend/src/components/chat/MessageBubble.jsx:44 | every link the page sends for a location is drawn as a location |
| MessageBubble.ProductImagePath | Project-Ecommerce-Jame/frontend/src/components/chat/MessageBubble.jsx:101-130 | the first of a list ("" when empty), a lone path as is, "" for none |
| MessageBubble.ProductImageUrl | Project-Ecommerce-Jame/frontend/src/components/chat/MessageBubble.jsx:133-138 | no URL iff the path is empty; `http` paths pass unchanged |
| MessageBubble.ProductUrlIsSafeSrc | Project-Ecommerce-Jame/frontend/src/components/chat/MessageBubble.jsx:133-138 | for non-`blob:` paths the card URL equals the avatar URL rule |
| MessageBubble.MediaUrl | Project-Ecommerce-Jame/frontend/src/components/chat/MessageBubble.jsx:197 | `http` paths pass unchanged; others are the base followed by the path |
| MessageBubble.MediaUrlNotNormalised | Project-Ecommerce-Jame/frontend/src/components/chat/MessageBubble.jsx:207 | slashes are neither merged nor inserted, unlike the card URL |
| MessageBubble.Indicator | Project-Ecommerce-Jame/frontend/src/components/chat/MessageBubble.jsx:241-254 | present iff the message is one's own; Read iff the status is "read" |
| MessageBubble.BodyOf | Project-Ecommerce-Jame/frontend/src/components/chat/MessageBubble.jsx:215-237 | a location card iff the content is a maps link; text otherwise; nothing for falsy content |
| MessageBubble.CardOf | Project-Ecommerce-Jame/frontend/src/components/chat/MessageBubble.jsx:101-138 | a card iff there is a product, with its title and resolved cover |
| MessageBubble.MediaOf | Project-Ecommerce-Jame/frontend/src/components/chat/MessageBubble.jsx:194-213 | an attachment is shown iff its path is truthy, at its media URL |
| MessageBubble.Render | Project-Ecommerce-Jame/frontend/src/components/chat/MessageBubble.jsx:46-270 | an unsent message draws only the placeholder; otherwise the delete button, sender name, card, media, body and indicator as their rules say |
| MessageBubble.OwnIndicatorFollowsIsRead | Project-Ecommerce-Jame/frontend/src/pages/Chat.jsx:675 | an own bubble says Read exactly when the message's `isRead` is set |
| MessageBubble.IsLocation | Project-Ecommerce-Jame/frontend/src/components/chat/MessageBubble.jsx:44 | content is a location iff it is non-empty and contains a Google Maps address |
| ChatClient.MapAll | Project-Ecommerce-Jame/frontend/src/pages/Chat.jsx:111-117 | `list.map(f)`: same length, f applied at each position |
| ChatClient.RemoveId | Project-Ecommerce-Jame/frontend/src/pages/Chat.jsx:146 | exactly the messages with another id remain |
| ChatClient.Views | Project-Ecommerce-Jame/frontend/src/pages/Chat.jsx:675 | position by position, what a bubble draws of each message |
| ChatClient.MessagesOfAppend | Project-Ecommerce-Jame/backend/src/controllers/chatController.js:206-209 | selecting a conversation distributes over concatenation |
| ChatClient.MessagesOfMap | Project-Ecommerce-Jame/backend/src/controllers/chatController.js:206-209 | an edit that keeps conversations commutes with selection |
| ChatClient.TranscriptMap | Project-Ecommerce-Jame/backend/src/controllers/chatController.js:212-216 | an edit that keeps who hides what commutes with the transcript |
| ChatClient.TranscriptHides | Project-Ecommerce-Jame/backend/src/controllers/chatController.js:212-216 | an edit that hides one message from the viewer removes exactly it from the transcript |
| ChatClient.ViewsMap | Project-Ecommerce-Jame/frontend/src/pages/Chat.jsx:111-117 | an edit whose drawing is g commutes with drawing |
| ChatClient.ViewsMapSame | Project-Ecommerce-Jame/frontend/src/pages/Chat.jsx:111-117 | an edit invisible to the view leaves the drawing alone |
| ChatClient.ViewsRemove | Project-Ecommerce-Jame/frontend/src/pages/Chat.jsx:146 | removal by id commutes with drawing |
| ChatClient.ViewsAppend | Project-Ecommerce-Jame/frontend/src/pages/Chat.jsx:91 | drawing distributes over appending |
| ChatClient.OnReceiveMessage | Project-Ecommerce-Jame/frontend/src/pages/Chat.jsx:85-105 | the message is appended, and `mark_read` emitted, iff it belongs to the active conversation |
| ChatClient.OnMessagesRead | Project-Ecommerce-Jame/frontend/src/pages/Chat.jsx:108-118 | for the active conversation every own message becomes read, whoever the reader is; others untouched |
| ChatClient.OnMessagesReadCorrected | Project-Ecommerce-Jame/frontend/src/pages/Chat.jsx:108-118 | as written for another reader; a receipt from the user's own session changes nothing |
| ChatClient.OnMessageDeleted | Project-Ecommerce-Jame/frontend/src/pages/Chat.jsx:140-152 | 'everyone' unsends only that id, keeping length and order; 'me' removes it only for this user; otherwise unchanged |
| ChatClient.UnsendAt | Project-Ecommerce-Jame/backend/src/controllers/chatController.js:260-263 | updating the one row with that id is the map of `Unsend` over distinct ids |
| ChatClient.ForMeAt | Project-Ecommerce-Jame/backend/src/controllers/chatController.js:302-305 | the delete-for-me write is the map of `ForMe` over distinct ids |
| ChatClient.MarkReadIsMap | Project-Ecommerce-Jame/backend/src/socket/socketHandler.js:75-82 | a read receipt is a map over the ledger |
| ChatClient.AgreeAfterReceive | Project-Ecommerce-Jame/frontend/src/pages/Chat.jsx:90-91 | appending a new message on both sides keeps the page in agreement with the server |
| ChatClient.AgreeAfterUnsend | Project-Ecommerce-Jame/frontend/src/pages/Chat.jsx:141-143 | unsending on the server plus the event keeps agreement |
| ChatClient.AgreeAfterDeleteForMe | Project-Ecommerce-Jame/frontend/src/pages/Chat.jsx:144-147 | delete-for-me by the page's user plus the event keeps agreement |
| ChatClient.AgreeAfterDeleteForOther | Project-Ecommerce-Jame/frontend/src/pages/Chat.jsx:144-150 | delete-for-me by anyone else keeps agreement with the page untouched |
| ChatClient.AgreeAfterReadByMe | Project-Ecommerce-Jame/backend/src/socket/socketHandler.js:75-82 | the page's user reading any conversation changes nothing the page shows |
| ChatClient.AgreeAfterReadByOther | Project-Ecommerce-Jame/frontend/src/pages/Chat.jsx:108-118 | with the corrected reducer a receipt from another reader keeps agreement |
| ChatClient.ReadReducersDifferOnlyForOwnReceipts | Project-Ecommerce-Jame/frontend/src/pages/Chat.jsx:108-118 | the two reducers differ only on receipts whose reader is the page's user |
| ChatClient.OwnReceiptShowsRead | Project-Ecommerce-Jame/frontend/src/pages/Chat.jsx:108-118 | a concrete receipt from the user's own session flips the page to Read while the server still says unread |
| ChatClient.PreviewText | Project-Ecommerce-Jame/frontend/src/pages/Chat.jsx:607-621 | nothing without a preview; the placeholder if unsent; nothing if deleted for the user; the content otherwise |
| ChatClient.ServerPreviewShowsContent | Project-Ecommerce-Jame/backend/src/controllers/chatController.js:124-135 | every preview the server sends is drawn as its own content |
| ChatClient.FirstOther | Project-Ecommerce-Jame/frontend/src/pages/Chat.jsx:444-446 | the first participant who is not the user |
| ChatClient.OtherParticipant | Project-Ecommerce-Jame/frontend/src/pages/Chat.jsx:444-446 | a participant other than the user, absent iff every participant is the user |
| ChatClient.FilterConversations | Project-Ecommerce-Jame/frontend/src/pages/Chat.jsx:516-521 | everything for an empty query; otherwise exactly those whose other participant's name or email contains it, ignoring case |
| ChatClient.LowerCharIdempotent | Project-Ecommerce-Jame/frontend/src/pages/Chat.jsx:519-520 | lower-casing twice is lower-casing once |
| ChatClient.SearchIgnoresQueryCase | Project-Ecommerce-Jame/frontend/src/pages/Chat.jsx:516-521 | lower-casing the query first gives the same list |
| ChatClient.SelectFile | Project-Ecommerce-Jame/frontend/src/pages/Chat.jsx:298-319 | non-media is refused; a file is chosen iff its size is within the limit for its kind |
| ChatClient.VideoLimitExceedsUploadLimit | Project-Ecommerce-Jame/frontend/src/pages/Chat.jsx:309-310 | a 51,000,000-byte mp4 is chosen by the picker as written yet refused by the upload limit |
| ChatClient.ChosenFitsUpload | Project-Ecommerce-Jame/backend/src/middleware/uploadMiddleware.js:40 | with the corrected limit, whatever the picker takes is never too large for the upload |
| ChatClient.SendGuardMatchesServer | Project-Ecommerce-Jame/frontend/src/pages/Chat.jsx:375 | without a file, the page sends exactly what the socket handler accepts |
| ChatClient.View | Project-Ecommerce-Jame/frontend/src/pages/Chat.jsx:668-675 | a bubble shows a message without its `deletedBy` list and with the read mark only on the viewer's own messages |
| ChatClient.Agrees | Project-Ecommerce-Jame/backend/src/controllers/chatController.js:176-218 | the page's list draws the same bubbles as the transcript getMessages returns to the user |
| ChatClient.MarkMine | Project-Ecommerce-Jame/frontend/src/pages/Chat.jsx:111-115 | a message the user sent becomes read; any other is unchanged |
| ChatClient.Unsend | Project-Ecommerce-Jame/frontend/src/pages/Chat.jsx:143 | the message with that id becomes unsent; any other is unchanged |
| ChatClient.ForMe | Project-Ecommerce-Jame/backend/src/controllers/chatController.js:294-304 | the server's delete-for-me edit: the user id is added to that message's `deletedBy` |
| ChatClient.Matches | Project-Ecommerce-Jame/frontend/src/pages/Chat.jsx:516-521 | the other participant's name or email contains the query, ignoring case |
| ChatClient.FileSelect | Project-Ecommerce-Jame/frontend/src/pages/Chat.jsx:298-316 | the picker as written: image or video only, at most 5 MiB for images and 50 MiB for videos |
| ChatClient.FileSelectCorrected | Project-Ecommerce-Jame/frontend/src/pages/Chat.jsx:298-316 | the picker with its video limit lowered to the 50,000,000 bytes the upload handler accepts |
| ChatClient.CanSend | Project-Ecommerce-Jame/frontend/src/pages/Chat.jsx:375 | a send goes ahead iff there is non-blank text or a file, and a conversation is open |
| AddressController.Owned | Project-Ecommerce-Jame/backend/src/controllers/addressController.js:10-11 | the caller's addresses with the given default flag |
| AddressController.AllOwned | Project-Ecommerce-Jame/backend/src/controllers/addressController.js:10 | exactly the caller's addresses |
| AddressController.GetAddresses | Project-Ecommerce-Jame/backend/src/controllers/addressController.js:8-14 | exactly the caller's addresses, default ones first |
| AddressController.GetAddressesIsPermutation | Project-Ecommerce-Jame/backend/src/controllers/addressController.js:8-14 | the listing is a permutation of the caller's addresses |
| AddressController.FindOwnAddress | Project-Ecommerce-Jame/backend/src/controllers/addressController.js:21-26 | found iff an address with that id belongs to the caller |
| AddressController.GetAddressById | Project-Ecommerce-Jame/backend/src/controllers/addressController.js:19-33 | the caller's address with that id, otherwise 404 |
| AddressController.ForeignAddressLooksMissing | Project-Ecommerce-Jame/backend/src/controllers/addressController.js:19-33 | asking for someone else's address answers as if it did not exist |
| AddressController.FindOwnFirst | Project-Ecommerce-Jame/backend/src/controllers/addressController.js:21-26 | removing a foreign row does not move the lookup |
| AddressController.ClearDefaults | Project-Ecommerce-Jame/backend/src/controllers/addressController.js:115-123 | only the user's addresses other than the exception lose the flag |
| AddressController.CreateAddress | Project-Ecommerce-Jame/backend/src/controllers/addressController.js:38-82 | 201; the first address is always default; a default one becomes the caller's sole default; at most one default is kept |
| AddressController.CreateKeeps | Project-Ecommerce-Jame/backend/src/controllers/addressController.js:52-79 | clearing then appending keeps keys distinct and at most one default per user; a new default is the caller's only one |
| AddressController.ApplyPatch | Project-Ecommerce-Jame/backend/src/controllers/addressController.js:125-138 | sent fields are written, missing ones kept |
| AddressController.UpdateAddress | Project-Ecommerce-Jame/backend/src/controllers/addressController.js:87-141 | 404 and 401 with no write; otherwise other defaults of the caller cleared and the row updated; other users untouched |
| AddressController.UpdateKeeps | Project-Ecommerce-Jame/backend/src/controllers/addressController.js:115-138 | clearing then writing the caller's row keeps keys, leaves other users' rows and keeps at most one default per user |
| AddressController.DeleteAddress | Project-Ecommerce-Jame/backend/src/controllers/addressController.js:146-166 | 404 and 401 with no write; otherwise exactly that row goes and no address is promoted |
| ProductController.CoverImages | Project-Ecommerce-Jame/backend/src/controllers/productController.js:20-27 | a list of only the cover's path, or null without a cover |
| ProductController.CategoryArg | Project-Ecommerce-Jame/backend/src/controllers/productController.js:45 | the category is written iff the field is non-empty text, "0" included, and then as the number its digits spell |
| ProductController.AppendProductValid | Project-Ecommerce-Jame/backend/src/controllers/productController.js:37-47 | appending a fresh row keeps the table well formed |
| ProductController.CreateProduct | Project-Ecommerce-Jame/backend/src/controllers/productController.js:8-55 | 400 without a title or a description; otherwise a new product pending approval with the uploads' paths |
| ProductController.MyProducts | Project-Ecommerce-Jame/backend/src/controllers/productController.js:60-66 | exactly the caller's products |
| ProductController.EditedImages | Project-Ecommerce-Jame/backend/src/controllers/productController.js:101-114 | a new upload, else the existing cover, else none |
| ProductController.Edited | Project-Ecommerce-Jame/backend/src/controllers/productController.js:116-132 | sent fields are written, the category whenever its text is non-empty; status, owner and creation time never change; video kept unless uploaded |
| ProductController.UpdateProduct | Project-Ecommerce-Jame/backend/src/controllers/productController.js:71-135 | 404, 401 unless owner or admin, otherwise the edited row |
| ProductController.UpdateProductStatus | Project-Ecommerce-Jame/backend/src/controllers/productController.js:140-174 | 404, 401, 400 for other statuses; otherwise only the status changes, from any prior status |
| ProductController.DetachProduct | Project-Ecommerce-Jame/backend/src/controllers/productController.js:198-201 | exactly the messages referring to the product lose the reference |
| ProductController.DetachKeepsMessages | Project-Ecommerce-Jame/backend/src/controllers/productController.js:198-201 | afterwards no message refers to the product and all else is kept |
| ProductController.DeleteProduct | Project-Ecommerce-Jame/backend/src/controllers/productController.js:179-208 | 404, 401; otherwise the messages are detached and the product row removed |
| ProductController.CategoryArgReadsId | Project-Ecommerce-Jame/backend/src/controllers/productController.js:130 | the decimal text of any category id, 0 included, is written back as that id |
| ProductController.MayEdit | Project-Ecommerce-Jame/backend/src/controllers/productController.js:90 | the owner or an administrator may edit, re-status or delete a product |
| ProductController.OwnerStatus | Project-Ecommerce-Jame/backend/src/controllers/productController.js:160-161 | the statuses an owner may set are available, exchanged and cancelled |
| AdminProductController.GetAllProducts | Project-Ecommerce-Jame/backend/src/controllers/admin/productController.js:7-24 | every product, and only those |
| AdminProductController.AllProductsNewestFirst | Project-Ecommerce-Jame/backend/src/controllers/admin/productController.js:9 | the listing is in `createdAt` descending order |
| AdminProductController.StoreKeepsProductsOldestFirst | Project-Ecommerce-Jame/backend/src/controllers/productController.js:37-47 | the table is kept in creation order |
| AdminProductController.GetPendingProducts | Project-Ecommerce-Jame/backend/src/controllers/admin/productController.js:29-46 | exactly the products pending approval |
| AdminProductController.SetStatus | Project-Ecommerce-Jame/backend/src/controllers/admin/productController.js:54-57 | only the status of that product changes; a missing product is a store error (500) |
| AdminProductController.ApproveProduct | Project-Ecommerce-Jame/backend/src/controllers/admin/productController.js:51-60 | the status becomes available from any status; an available product is left unchanged |
| AdminProductController.RejectProduct | Project-Ecommerce-Jame/backend/src/controllers/admin/productController.js:65-74 | the status becomes cancelled from any status; a cancelled product is left unchanged |
| AdminUserController.GetUsers | Project-Ecommerce-Jame/backend/src/controllers/admin/userController.js:7-23 | one row per user with the selected columns and the number of products owned |
| AdminUserController.UsersListingHidesPasswords | Project-Ecommerce-Jame/backend/src/controllers/admin/userController.js:9-18 | users differing only in password or picture are listed the same |
| AdminUserController.UpdateUserRole | Project-Ecommerce-Jame/backend/src/controllers/admin/userController.js:28-43 | 400 for roles other than USER and ADMIN; otherwise only the role changes, and setting the same role changes nothing |
| AdminUserController.DeleteUser | Project-Ecommerce-Jame/backend/src/controllers/admin/userController.js:48-62 | 400 for the caller's own id; otherwise that user is removed; the caller always remains |
| AdminUserController.ValidRole | Project-Ecommerce-Jame/backend/src/controllers/admin/userController.js:32 | the only roles accepted are USER and ADMIN |
| PublicProductController.Matching | Project-Ecommerce-Jame/backend/src/controllers/publicProductController.js:10-25 | exactly the available products matching the term in title or description and the category |
| PublicProductController.Window | Project-Ecommerce-Jame/backend/src/controllers/publicProductController.js:27-28 | at most `take` items, the ones from position `skip` on |
| PublicProductController.Skip | Project-Ecommerce-Jame/backend/src/controllers/publicProductController.js:27 | skip is limit times (page - 1), the first index of the page |
| PublicProductController.GetProducts | Project-Ecommerce-Jame/backend/src/controllers/publicProductController.js:7-60 | the page holds at most `limit` matches; total counts all matches; totalPages is the ceiling of total / limit |
| PublicProductController.MulMonotone | Project-Ecommerce-Jame/backend/src/controllers/publicProductController.js:27 | multiplying by a natural keeps order |
| PublicProductController.DivUnique | Project-Ecommerce-Jame/backend/src/controllers/publicProductController.js:57 | the page of an index is the unique q with limit·q ≤ k < limit·(q+1) |
| PublicProductController.PageBounds | Project-Ecommerce-Jame/backend/src/controllers/publicProductController.js:27-28 | index k lies inside page k / limit |
| PublicProductController.PageWithinCount | Project-Ecommerce-Jame/backend/src/controllers/publicProductController.js:57 | a page that starts below the total is at most totalPages |
| PublicProductController.EveryMatchOnOnePage | Project-Ecommerce-Jame/backend/src/controllers/publicProductController.js:27-58 | each match appears on page k / limit + 1 at position k % limit, within 1..totalPages, and on no other page |
| PublicProductController.OnlyPage | Project-Ecommerce-Jame/backend/src/controllers/publicProductController.js:27-28 | index k lies on no page other than k / limit + 1 |
| PublicProductController.OnPage | Project-Ecommerce-Jame/backend/src/controllers/publicProductController.js:27-58 | position j of page p holds the match (p - 1)·limit + j, and that page is within totalPages |
| PublicProductController.GetProduct | Project-Ecommerce-Jame/backend/src/controllers/publicProductController.js:65-91 | 404 iff no product has the id, otherwise that product |
| PublicProductController.GetProductIgnoresStatus | Project-Ecommerce-Jame/backend/src/controllers/publicProductController.js:67-88 | a product is returned by id whatever its status, even where the listing never shows it |
| PublicProductController.Listed | Project-Ecommerce-Jame/backend/src/controllers/publicProductController.js:10-25 | a product is listed iff it is available, contains the search term in title or description when one is given, and is in the category when one is given |
| PublicProductController.Ordered | Project-Ecommerce-Jame/backend/src/controllers/publicProductController.js:46 | the matches in `createdAt` descending order; `ListingNewestFirst` proves the order |
| PublicProductController.CeilDiv | Project-Ecommerce-Jame/backend/src/controllers/publicProductController.js:57 | `Math.ceil(total / limit)` counted page by page; `CeilDivBounds` ties it to the quotient |
| PublicProductController.CeilDivBounds | Project-Ecommerce-Jame/backend/src/controllers/publicProductController.js:57 | the page count holds all entries, one page fewer would not, and it equals the rounded-up quotient |
| PublicProductController.SkipStep | Project-Ecommerce-Jame/backend/src/controllers/publicProductController.js:27 | each page starts `limit` entries after the one before |
| PublicProductController.PageStart | Project-Ecommerce-Jame/backend/src/controllers/publicProductController.js:27-28 | index k is entry k % limit after the pages before page k / limit + 1 |
| PublicProductController.MatchingKeepsOldestFirst | Project-Ecommerce-Jame/backend/src/controllers/publicProductController.js:10-25 | filtering keeps the stored order of creation |
| PublicProductController.WindowNewestFirst | Project-Ecommerce-Jame/backend/src/controllers/publicProductController.js:44-46 | a window of a newest-first list is newest first |
| PublicProductController.ListingNewestFirst | Project-Ecommerce-Jame/backend/src/controllers/publicProductController.js:46 | every page of the listing of a valid store is in strictly decreasing `createdAt` order |
| LanguageContext.Member | Project-Ecommerce-Jame/frontend/src/context/LanguageContext.jsx:26 | a field of a namespace, and nothing from a leaf |
| LanguageContext.LookupFoundTruthy | Project-Ecommerce-Jame/frontend/src/context/LanguageContext.jsx:25-31 | a successful walk ends on a truthy entry |
| LanguageContext.TranslationIsFoundOrKey | Project-Ecommerce-Jame/frontend/src/context/LanguageContext.jsx:21-34 | the result is the key itself or a truthy entry the walk found; an unknown language gives the key |
| LanguageContext.LookupAppend | Project-Ecommerce-Jame/frontend/src/context/LanguageContext.jsx:25-31 | walking two key lists in turn is walking their concatenation |
| LanguageContext.DottedKeyNests | Project-Ecommerce-Jame/frontend/src/context/LanguageContext.jsx:22-31 | `a.b` is looked up as `b` inside the namespace `a` |
| LanguageContext.T | Project-Ecommerce-Jame/frontend/src/context/LanguageContext.jsx:21-34 | the loop returns exactly what the recursive walk gives, or the key |
| LanguageContext.InitialLanguage | Project-Ecommerce-Jame/frontend/src/context/LanguageContext.jsx:7-14 | the saved language if truthy, otherwise 'th' |
| LanguageContext.LanguageState.constructor | Project-Ecommerce-Jame/frontend/src/context/LanguageContext.jsx:7-14 | the initial language from storage |
| LanguageContext.LanguageState.ChangeLanguage | Project-Ecommerce-Jame/frontend/src/context/LanguageContext.jsx:16-19 | the language is set and stored, and the stored choice is the language restored on the next start, the default when it is empty |
| LanguageContext.LanguageState.Translate | Project-Ecommerce-Jame/frontend/src/context/LanguageContext.jsx:21-34 | `t` in the current language |
| LanguageContext.Lookup | Project-Ecommerce-Jame/frontend/src/context/LanguageContext.jsx:25-31 | the walk of `t`: each key in turn into a truthy entry, failing at the first miss; `LookupFoundTruthy` proves what it finds |
| LanguageContext.Translation | Project-Ecommerce-Jame/frontend/src/context/LanguageContext.jsx:21-34 | `t(key)`: the entry found for the dotted key in the current language, or the key itself |

## Left out

- Networking, database transactions and concurrency are not modelled. Each handler runs atomically on the store. Because of this, two simultaneous delete-for-me requests cannot lose one another's id here, although they can in the real system.
- Logging, timers, scroll handling, notification sounds, emoji, date formatting and `stringToColor` are left out. They do not change what is stored or shown.
- React's stale closures are left out. The reducers read the active conversation and the user as parameters.
- The `user_typing` and `user_stopped_typing` reducers of the page are left out. They only change a set of names drawn as a typing hint.
- Password hashing and JWT signing are left out. The handshake takes the verifier as a parameter.
- The server's includes and selects of related rows (sender, owner, category, participants' users) are not modelled. Neither are the JSON parsing of product `images` or the file system.
- `parseInt` of malformed ids is left out. Ids are naturals, and a missing id is `None`.
- The tie order among addresses with the same default flag is modelled as stored order. The store does not promise any tie order.
- Prisma's `contains` is modelled as case-sensitive. Case mapping is ASCII only.
- The error handler that maps a thrown store error to a response is modelled as status 500.
- From `updateUserRole` and `approveProduct`, only the thrown error of a missing row is kept.
- The cascades of `deleteUser` (messages, products, participant rows) are left out. So are the foreign-key failures of deleting a user or a product that other rows still reference. The schema is not part of this model.
- The categories table is not part of this model.
- PublicProductController.GetProducts: a page or limit below 1 is `InvalidPaging`. The store's actual answer to a negative `skip` or a non-positive `take` is not modelled.
- LanguageContext.Member: members of strings (`length`, character indices) and prototype properties are treated as missing.
- These store failures are modelled. A message naming a missing product fails its insert, and the sender gets "Failed to send message". `startConversation` with a missing target user fails its insert (500). `updateUserRole`, `deleteUser`, `approveProduct` and `rejectProduct` on a missing row throw (500).
- No other store call fails in this model. The "Failed to join conversation" catch of join_room, the logged catch of mark_read, an unreachable database and the foreign-key failures above are left out.
- ProductController.CategoryArg: non-empty text is read digit by digit, so `parseInt`'s handling of signs, leading spaces, trailing letters and text without digits (NaN) is not modelled.
- UploadMiddleware.ExtName: Node's rule that a leading dot (`.png`) is not an extension is not modelled.

## Findings

| source | as written | input that shows it | evidently intended | confidence | as-written member | corrected member |
|---|---|---|---|---|---|---|
| Project-Ecommerce-Jame/frontend/src/pages/Chat.jsx:108-117 | the `messages_read` reducer marks the user's own messages read for any receipt of the active conversation, without looking at `readerId` | user 3 has the conversation open in two tabs; one tab joins or reads, and the receipt (readerId 3) reaches the other tab, which shows 3's unread message "hi" as Read | a receipt from the user's own session leaves the list unchanged | not executed | ChatClient.OwnReceiptShowsRead | ChatClient.AgreeAfterReadByOther |
| Project-Ecommerce-Jame/frontend/src/pages/Chat.jsx:309-310 | the picker allows videos up to 50 × 1024 × 1024 = 52,428,800 bytes | a 51,000,000-byte `video/mp4` is accepted by the picker and then refused by the upload limit of 50,000,000 bytes (uploadMiddleware.js:40) | the picker's limit equals the server's | not executed | ChatClient.VideoLimitExceedsUploadLimit | ChatClient.ChosenFitsUpload |
