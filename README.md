# personal-chat: a Dafny model of the chat server's core

This project models the core of a small Express and PostgreSQL chat server. Users register and log in.
They receive a JSON Web Token. With it they create conversations, send messages, read the
history (which a chat completion service extends with an answer) and delete conversations.

## The model

- **Tables** (`tables.dfy`) holds the three relations: `users`, `conversations` and `chat_history`.
  - Together with a `nat` clock for `CURRENT_TIMESTAMP` and the next value of every SERIAL id, they form the `Store` value.
  - The clock advances by one on every INSERT and UPDATE that succeeds. A DELETE and a statement that fails a constraint leave it where it was.
  - `Consistent` states what the schema and the sequences keep:
    - increasing ids;
    - unique usernames and emails;
    - every conversation's owner exists;
    - every message's conversation exists;
    - messages are stored in `created_at` order.
  - The connection pool of `src/configs/db.js` is the class `Database`. It has one `store` field, which every write replaces.
- **Users** (`users.dfy`) models `src/models/user.js` over the `users` table.
  - bcrypt is a `PasswordScheme` pair of functions.
  - The only property the model assumes of it is `HashSound`: a password matches any hash made from it.
  - The salt is a parameter.
- **Chats** (`chats.dfy`) models `src/models/chat.js`.
  - Queries are functions over the tables. Each write is a function from the old store to a `Step` (result and new store).
  - The write operations are module-level methods that take the `Database`. Each is proved equal to its function and to keep `Consistent`.
  - `addMessage` checks no ownership: the insert takes any `userId`, and only the foreign key on `conversation_id` can reject it. The model keeps this. See `ChatController.NonOwnerPrompt`.
  - `ORDER BY created_at ASC` holds because the table is kept in creation order.
  - `ORDER BY updated_at DESC` is an insertion sort, proved ordered and a permutation.
- **Auth** (`auth.dfy`) models `src/middlewares/auth.js`.
  - It handles the `Bearer` scheme of section 2.1 of RFC 6750 with the literal, case-sensitive prefix the code tests.
  - `split(' ')` is modelled exactly.
  - jsonwebtoken is a `TokenScheme` pair.
  - What the model relies on is stated as `TokenSound`:
    - a signed token verifies to its claims until its `exp` (section 4.1.4 of RFC 7519);
    - after that it fails as expired;
    - it contains no space.
- **Http** (`http.dfy`) covers responses.
  - A response is either a `Reply(status, success, message, data)` or a `Forwarded` fault, meaning the handler called `next(error)`.
  - It also holds the error middleware of `src/index.js`.
- **ChatController** and **UserController** (`chat_controller.dfy`, `user_controller.dfy`) model the route handlers.
  - Each handler is a module-level method that takes the `Database`. `sendMessage`, `register` and `login` are proved equal to outcome functions (`SendOutcome`, `RegisterOutcome`, `LoginOutcome`), and the lemmas are stated about those. The four other chat handlers state their replies and new stores directly in their contracts.
  - The chat routes run behind `authenticate` (`src/routes/chat/index.js:8`), and so does the profile route (`src/routes/user/index.js:26`). The caller is therefore the authenticated `UserInfo`.
  - Request body fields are `Option`s and are tested for JavaScript truthiness: absent or `""` is falsy, and for `conversationId` so is `0`.
  - The chat completion call is a parameter `complete` from the prompt to `Failed | Completed(role, content)`.

## Model

| member | source | states |
|---|---|---|
| Tables.Database.constructor | src/configs/db.js:5-8 | the pool gives access to one database; the model starts it at the empty store (no rows, every SERIAL counter at 1), which is its own choice of initial state, and that store is consistent |
| Users.FindByUsername | src/models/user.js:35-39 | the result is a row with that username; it is null exactly when no row has that username |
| Users.FindByEmail | src/models/user.js:46-50 | the result is a row with that email; it is null exactly when no row has that email |
| Users.FindById | src/models/user.js:57-61 | the result is a stored row with that id, without its password hash; it is null exactly when no row has that id |
| Users.FindByIdOfRow | src/models/user.js:57-61 | on a table with distinct ids, looking up a stored row's id returns that row without its hash |
| Users.FindFirst | src/models/user.js:35-61 | the first row or null: the result is a stored row matching the key, and null exactly when no row matches |
| Users.VerifyPassword | src/models/user.js:69-71 | with a sound bcrypt, a hash made from the password is accepted |
| Users.InsertUser | src/models/user.js:20-27 | the insert fails exactly when the username or the email is taken, as a unique violation that changes nothing; otherwise it appends the row with the next id and timestamp and returns it without the hash |
| Users.InsertUserKeepsConsistent | src/models/user.js:20-27 | the insert keeps the schema consistent |
| Users.InsertedUserFound | src/models/user.js:13-61 | after a successful create, the new row is what findByUsername and findByEmail return, and findById returns exactly the user create returned |
| Users.CreatedUserVerifies | src/models/user.js:13-28 | with a sound bcrypt, the stored hash accepts the password it was made from |
| Users.Create | src/models/user.js:13-28 | create hashes with the given salt, performs exactly that insert, and keeps the database consistent |
| Chats.MessagesOf | src/models/chat.js:77-80 | the rows returned are exactly the stored rows of that conversation |
| Chats.MessagesOfChronological | src/models/chat.js:81 | the filtered rows keep creation order |
| Chats.GetMessages | src/models/chat.js:75-86 | a row is returned iff it belongs to the conversation and the caller owns the conversation; a non-owner gets no rows; rows come oldest first |
| Chats.NonOwnerSeesNothing | src/models/chat.js:79-80 | another user reading someone's conversation gets no rows |
| Chats.CountMessages | src/models/chat.js:32 | the count is at most the table size, and it is zero iff the conversation has no rows |
| Chats.CountIsRowCount | src/models/chat.js:32 | a listing's message_count equals the number of rows getMessages returns to the owner |
| Chats.OwnedBy | src/models/chat.js:34 | keeps exactly the caller's conversations |
| Chats.Listings | src/models/chat.js:31-32 | pairs each conversation with its own message count |
| Chats.InsertByRecency | src/models/chat.js:35 | inserting into a list ordered by updated_at descending keeps it ordered and adds exactly that row |
| Chats.SortByRecency | src/models/chat.js:35 | the result is ordered by updated_at descending and is a permutation of the input |
| Chats.GetConversations | src/models/chat.js:29-40 | a listing is returned iff it is one of the caller's conversations with its message count; one listing per owned conversation, most recently updated first |
| Chats.Touch | src/models/chat.js:61-64 | only the named conversation's updated_at changes, to the new timestamp |
| Chats.TouchKeepsOwners | src/models/chat.js:61-64 | the update changes no conversation's existence or owner |
| Chats.AppendVisibility | src/models/chat.js:51-86 | after the insert and the update, getMessages returns what it returned before, plus the new row at the end for the owner of its conversation |
| Chats.LatestComesFirst | src/models/chat.js:35 | a conversation updated later than all others is first in its owner's listing, with its count |
| Chats.TouchedComesFirst | src/models/chat.js:61-64 | touching a conversation with the latest timestamp puts it first in its owner's listing |
| Chats.RemoveConversation | src/models/chat.js:104-105 | removes exactly the rows with that id and that owner |
| Chats.RemoveMessagesOf | src/models/chat.js:103-105 | the cascade removes exactly that conversation's messages |
| Chats.RemoveConversationIncreasing | src/models/chat.js:104-105 | the conversations left keep increasing ids |
| Chats.RemoveMessagesOfChronological | src/models/chat.js:103-105 | the messages left keep creation order |
| Chats.MessagesOfAfterRemove | src/models/chat.js:103-105 | the cascade leaves every other conversation's rows unchanged |
| Chats.DeletedConversationGone | src/models/chat.js:103-105 | after deleting an owned conversation, neither it nor any of its messages remains, and getMessages of it is empty for everyone |
| Chats.DeleteKeepsOthers | src/models/chat.js:103-105 | every other conversation's messages stay visible to exactly the same users |
| Chats.InsertConversation | src/models/chat.js:13-21 | fails exactly when the owner does not exist (a foreign-key violation that changes nothing); otherwise appends the conversation with the next id, its title and equal created_at and updated_at, and returns it |
| Chats.InsertConversationKeepsConsistent | src/models/chat.js:14-20 | the insert keeps the schema consistent |
| Chats.NewConversationEmpty | src/models/chat.js:13-21 | a new conversation has no messages: its owner reads none and its count is zero |
| Chats.NewConversationFirst | src/models/chat.js:13-40 | a new conversation heads its owner's listing with a count of zero |
| Chats.AddMessageTo | src/models/chat.js:51-67 | fails exactly when the conversation does not exist, changing nothing; otherwise appends the row for any caller and sets that conversation's updated_at to the new timestamp |
| Chats.InsertMessageKeepsConsistent | src/models/chat.js:52-58 | appending a row with the next id and timestamp to an existing conversation keeps the schema consistent |
| Chats.TouchKeepsConsistent | src/models/chat.js:61-64 | the update keeps the schema consistent |
| Chats.AddMessageKeepsConsistent | src/models/chat.js:51-67 | addMessage keeps the schema consistent |
| Chats.AddedMessageVisible | src/models/chat.js:51-86 | after addMessage, getMessages returns what it returned before, plus the new row for its conversation's owner |
| Chats.AddedMessageRaises | src/models/chat.js:60-64 | a message moves its conversation to the top of its owner's listing |
| Chats.DeleteFrom | src/models/chat.js:94-108 | answers true exactly when the caller owns the conversation; false changes nothing; true removes the conversation and its messages |
| Chats.RemainingConversationsValid | src/models/chat.js:104-105 | the conversations left keep their id bounds, timestamps and existing owners |
| Chats.RemainingMessagesValid | src/models/chat.js:103-105 | every message left belongs to a conversation that is left |
| Chats.ReplacedRowsConsistent | src/models/chat.js:103-105 | replacing the conversation and message rows with rows that meet the schema's constraints leaves the store consistent |
| Chats.DeleteKeepsConsistent | src/models/chat.js:94-108 | deleteConversation keeps the schema consistent |
| Chats.CreateConversation | src/models/chat.js:13-22 | performs that insert, titling it 'New Conversation' when no title is given, and keeps the database consistent |
| Chats.AddMessage | src/models/chat.js:51-67 | performs addMessage's two writes and keeps the database consistent |
| Chats.DeleteConversation | src/models/chat.js:94-108 | performs the ownership check and the delete, and keeps the database consistent |
| Http.HandleErrors | src/index.js:28-35 | every forwarded error becomes a 500 with the fixed message; a reply already sent goes out unchanged |
| Auth.BearerToken | src/middlewares/auth.js:23 | the token has no space, the header is `Bearer ` followed by the token, and the token ends at the end of the header or at a space |
| Auth.SplitHead | src/middlewares/auth.js:23 | the first piece of a split is a prefix of the string that ends at its end or at a space |
| Auth.GenerateToken | src/middlewares/auth.js:59-65 | with a sound jsonwebtoken, the token has no space and verifies to the user's id and name, issued now, at every time before seven days later, and as expired from then on |
| Auth.Split | src/middlewares/auth.js:23 | split(' ') yields at least one piece, and no piece contains a space |
| Auth.JoinSplit | src/middlewares/auth.js:23 | joining the pieces with spaces gives the header back |
| Auth.SplitJoin | src/middlewares/auth.js:23 | pieces without spaces survive a join followed by a split |
| Auth.SplitWord | src/middlewares/auth.js:23 | a piece without spaces splits into itself |
| Auth.SplitAfterWord | src/middlewares/auth.js:23 | a word followed by a space is the first piece, and the rest splits on its own |
| Auth.BearerFields | src/middlewares/auth.js:15-23 | a header with the Bearer prefix splits into "Bearer" followed by the pieces of the rest, so index 1 exists |
| Auth.BearerTokenOf | src/middlewares/auth.js:23 | "Bearer token" yields the token itself |
| Auth.BearerTokenStopsAtSpace | src/middlewares/auth.js:23 | only the text up to the next space is taken as the token |
| Auth.Gate | src/middlewares/auth.js:10-52 | with no header, or one without the Bearer prefix, the answer is the no-token 401; a request proceeds only when the Bearer token decodes and findById of its userId finds a user, and then as exactly that user without its hash; a malformed or expired token gets the invalid-or-expired 401, a decoded token naming no user the user-not-found 401, and a not-before error is forwarded to the error middleware |
| Auth.Authenticate | src/middlewares/auth.js:10-52 | the middleware decides exactly as the gate function |
| Auth.NoTokenRejected | src/middlewares/auth.js:15-20 | without a Bearer header, the answer depends on no token, user table or time |
| Auth.TokenErrorsMapped | src/middlewares/auth.js:26-51 | a malformed or expired token gets the invalid-or-expired 401; any other verification error is passed to the error middleware; a decoded token naming no user gets the user-not-found 401; one naming a user proceeds as findById's result |
| Auth.IssuedTokenClaims | src/middlewares/auth.js:59-65 | before expiry a token decodes to exactly the claims Issued(user, now): the user's id and name, iat now and exp seven days later |
| Auth.IssuedTokenAuthenticates | src/middlewares/auth.js:10-65 | a token issued for a stored user and presented before expiry authenticates as exactly that user without its hash |
| Auth.ExpiredTokenRejected | src/middlewares/auth.js:42-48 | from seven days after issue on, the token is refused with the invalid-or-expired 401 |
| Auth.UnknownUserRejected | src/middlewares/auth.js:29-36 | a valid token for an id that no user has is refused as a user not found |
| ChatController.Turns | src/routes/chat/chatCtrl.js:135 | one turn per message, in order, carrying its role and text |
| ChatController.Prompt | src/routes/chat/chatCtrl.js:133-137 | the system message, then the history pointwise, then the user's message; length is history + 2 |
| ChatController.SendOutcome | src/routes/chat/chatCtrl.js:110-177 | a completion is requested exactly when the message and conversation id are given and the conversation exists; without one nothing changes; the only replies are the validation 400s and the 200 with an answer |
| ChatController.Answer | src/routes/chat/chatCtrl.js:147-173 | the exchange reports the prompt it was given; a failed completion is forwarded without a write, and a completed one is stored by one more addMessage |
| ChatController.SendMessage | src/routes/chat/chatCtrl.js:110-177 | the handler's reply, the prompt it sends and the new store are exactly the outcome function's, and the database stays consistent |
| ChatController.MessageCheckedFirst | src/routes/chat/chatCtrl.js:115-120 | an empty message is refused with 400 before anything else; nothing is stored and no completion is requested |
| ChatController.ConversationIdChecked | src/routes/chat/chatCtrl.js:122-127 | a missing conversation id is refused with 400; nothing is stored and no completion is requested |
| ChatController.FirstWrite | src/routes/chat/chatCtrl.js:129-145 | past validation, a nonexistent conversation forwards the foreign-key error and changes nothing; otherwise the user message is stored and the rest follows from that store |
| ChatController.AnswerStored | src/routes/chat/chatCtrl.js:155-173 | a completed answer is stored in an existing conversation and returned with 200 |
| ChatController.PromptFromEarlierHistory | src/routes/chat/chatCtrl.js:129-145 | a completion is requested iff the conversation exists; its prompt is built from the caller's view of the history before the new message, whose id is beyond every id in that history |
| ChatController.NonOwnerPrompt | src/routes/chat/chatCtrl.js:130-145 | a non-owner's prompt holds only the system message and their own, yet their message is stored in that conversation |
| ChatController.UpstreamFailureKeepsUserMessage | src/routes/chat/chatCtrl.js:139-156 | when the completion fails, the error is forwarded and exactly the user message has been stored |
| ChatController.SuccessStoresBoth | src/routes/chat/chatCtrl.js:139-173 | a successful exchange appends exactly the user message and then the answer, under its own role, and replies 200 with the answer |
| ChatController.TwoWrites | src/routes/chat/chatCtrl.js:139-164 | two successive addMessages each succeed and append their own rows in order |
| ChatController.OwnerSeesExchange | src/routes/chat/chatCtrl.js:130-164 | after a successful exchange, the owner reads the earlier history, then the question, then the answer |
| ChatController.TwoWritesVisible | src/routes/chat/chatCtrl.js:139-164 | the owner sees both rows of two successive addMessages, in order |
| ChatController.SecondWriteVisible | src/routes/chat/chatCtrl.js:159-164 | the second addMessage is seen by the owner after the first |
| ChatController.SendKeepsConsistent | src/routes/chat/chatCtrl.js:110-177 | sendMessage keeps the schema consistent whatever the completion does |
| ChatController.CreateConversation | src/routes/chat/chatCtrl.js:11-27 | replies 201 with the inserted conversation, or forwards the store error; it always replies 201 for an existing user |
| ChatController.GetConversations | src/routes/chat/chatCtrl.js:35-49 | replies `success: true` with 200 and exactly the listing of the getConversations query: the caller's conversations with their counts, one each, most recently updated first |
| ChatController.GetMessages | src/routes/chat/chatCtrl.js:57-73 | replies `success: true` with 200 and exactly the getMessages rows: the conversation's rows when the caller owns it, none otherwise, oldest first |
| ChatController.DeleteConversation | src/routes/chat/chatCtrl.js:81-102 | replies 200 and deletes when the caller owns the conversation; otherwise replies 404 and changes nothing |
| UserController.RegisterOutcome | src/routes/user/userCtrl.js:10-62 | every reply is a 400 or a 201; only a 201 changes the store, adding exactly one user |
| UserController.Register | src/routes/user/userCtrl.js:10-62 | the reply and the new store are exactly the outcome function's, and the database stays consistent |
| UserController.RegisterRefusals | src/routes/user/userCtrl.js:15-38 | missing fields, a taken username and then a taken email are each refused with 400 in that order, and nothing is stored |
| UserController.RegisterSucceedsIff | src/routes/user/userCtrl.js:15-58 | 201 iff all fields are given and neither the username nor the email is taken; the reply then carries the stored user without its hash and a token for it, and exactly that row is appended |
| UserController.LoginOutcome | src/routes/user/userCtrl.js:70-119 | login always replies, with 200, 400 or 401, and succeeds exactly with 200 |
| UserController.Login | src/routes/user/userCtrl.js:70-119 | login answers exactly as the outcome function on the current users table, and changes nothing |
| UserController.LoginAnswers | src/routes/user/userCtrl.js:75-115 | a missing username or password is refused with 400; a 200 carries the row found for the username, whose hash accepts the password, without its hash, and a token for it |
| UserController.LoginSucceedsIff | src/routes/user/userCtrl.js:82-98 | with both fields given, 200 iff a user with that name exists whose hash accepts the password; every other case is the same 401 |
| UserController.RegisterThenLogin | src/routes/user/userCtrl.js:10-119 | with a sound bcrypt, credentials a registration accepted log in at once as the user it returned |
| UserController.GetProfile | src/routes/user/userCtrl.js:126-134 | replies 200 with the authenticated user |
| UserController.RegisteredTokenOpensProfile | src/routes/user/userCtrl.js:40-58 | a registration's token, presented before it expires, passes authenticate as the new user, and getProfile replies with that user |

## Left out

- Express routing, JSON serialisation, static files, `dotenv`, server start-up and the logging calls. Handlers are called directly with the authenticated user and the parsed body fields.
- `src/models/init-db.js` only runs `schema.sql`, which is not part of this model. Its constraints are assumed from the queries:
  - UNIQUE on `username` and `email`;
  - foreign keys from `conversations.user_id` and `chat_history.conversation_id`;
  - `ON DELETE CASCADE` to `chat_history`.
- bcrypt and jsonwebtoken are abstract function pairs. Only `HashSound` and `TokenSound` are assumed of them. The salt, the secret and the clock are parameters.
- The chat completion call is the parameter `complete`. The model settings (`gpt-3.5-turbo`, `max_tokens`, `temperature`) are not modelled. An answer without `choices[0]` is not modelled separately: it is covered by `Failed`.
- The database connection and its failures are not modelled; connection errors do not occur. Only constraint violations make a statement fail.
- There is no concurrency. Each handler runs alone on the store, so the interleavings between the pre-checks and the inserts in `register` are not modelled, and neither are those between the two writes of `addMessage` and `sendMessage`.
- `CURRENT_TIMESTAMP` is a counter that advances by one per successful INSERT or UPDATE, not wall-clock time. Ties between timestamps within one statement cannot arise.
- A write that fails a UNIQUE or foreign-key constraint leaves `nextUserId`, `nextConversationId` and `nextMessageId` where they were. PostgreSQL has already drawn a SERIAL value for the row and does not give it back, so the program's later ids can skip values that the model's do not. Only the concrete id values differ: the lemmas about visibility, order and consistency use only that ids are distinct and increasing, not that they are consecutive.
- The JSON type of `conversationId` in the `sendMessage` body is not modelled: it is an optional integer, and only `0` counts as falsy. The string `"0"` is truthy in the program, so it passes the check at chatCtrl.js:122, and its insert then fails the foreign key, giving a forwarded 500. The model has no such string.
- Path parameters are modelled as integers. A non-numeric `conversationId` string, and the PostgreSQL cast error it would raise, are not modelled.
- `null` title, message content or role values in the SQL rows are not modelled. An absent title falls back to the default, as `createConversation` does.
- The `error` field that the error middleware adds outside production is left out. A forwarded fault always becomes the plain 500.
- ChatController.CreateConversation: the reply body is the whole conversation row rather than its JSON rendering.
- The JWT compact encoding and the signature algorithm are not modelled: `TokenScheme` only says which claims a token decodes to at a given time.
