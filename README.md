# ChatterBox core in Dafny

ChatterBox is a chat application. It has an Express/Sequelize REST backend over PostgreSQL and a Vue frontend. Users register and log in, create and join channels, post messages to a channel or directly to another user, and page through a channel's history with optional content and author filters. This project models the backend's decision logic and table operations, the bearer-token middleware, the frontend route guard, and the in-memory seed data with its id counters. It proves the properties those parts promise.

Module layout, following the source:

| module | file(s) it models |
|---|---|
| `Common` | request-field truthiness, `x \|\| null`, the reply shape shared by all handlers |
| `Strings` | `String.prototype.trim`, `split`, `startsWith`, `parseInt(x, 10)` |
| `Like` | the ILIKE predicate PostgreSQL applies to the patterns the controllers build |
| `UserModel`, `UserController` | `Models/User.js`, `Controllers/userController.js` |
| `MessageModel`, `MessageController` | `Models/Message.js`, `Controllers/messageController.js` |
| `ChannelModel`, `ChannelController` | `Models/Channel.js`, `Models/ChannelSubscription.js`, `Controllers/channelController.js` |
| `AuthMiddleware` | `Middleware/authMiddleware.js` |
| `Router` | `Frontend/src/router/index.js` |
| `MockData` | `Data/mockData.js` |

Each database table is a `seq` of rows, kept in insertion order. A handler that writes is a method on a class holding the table(s): `UserTable`, `MessageTable` and `ChannelDirectory`. Its `ensures` gives the reply and the whole new state, and it keeps a `Valid()` invariant. For users that is unique ids, usernames and emails. For messages it is unique ids, valid rows and strictly increasing `createdAt`. For channels it is unique ids and names, valid rows, strictly increasing `createdAt`, unique subscriptions and subscriptions that point at existing channels. Reads are functions over the rows.

A request field is an `Option<string>`, where `None` is `undefined`. JavaScript truthiness is `Truthy`. A reply is `Answer(status, body)`, `Refusal(status, message)` for an early return, or `InternalError` for the catch-all 500. Values the database or a library generates are parameters: UUIDs (`newId`, `channelId`, `subscriptionId`), bcrypt's salt and functions (`Hasher`), and `jwt.verify`. In `MessageTable` and `ChannelDirectory`, `createdAt` comes from a `clock` field. Users carry no timestamp in the model.

## Model

| member | source | states |
|---|---|---|
| Common.OrNull | Backend/Source/Controllers/messageController.js:93-94 | a falsy field becomes null and a truthy one is kept unchanged |
| Strings.TrimSpec | Backend/Source/Controllers/messageController.js:5 | `trim` removes only leading and trailing white space: the input is the result with all-white-space padding on either side |
| Strings.TrimEnds | Backend/Source/Controllers/messageController.js:5 | `trim` removes all of that white space: a non-empty result starts and ends with a non-space character |
| Strings.TrimEmptyIffAllSpace | Backend/Source/Controllers/messageController.js:5-6 | the trimmed query is empty exactly when the query is all white space, which is when no content filter is built |
| Strings.TrimIdempotent | Backend/Source/Controllers/messageController.js:5 | trimming twice is trimming once |
| Strings.Split | Backend/Source/Middleware/authMiddleware.js:8 | `split(' ')` yields at least one field and no field contains the separator |
| Strings.JoinSplit | Backend/Source/Middleware/authMiddleware.js:8 | joining the fields of a split gives back the header |
| Strings.SplitJoin | Backend/Source/Middleware/authMiddleware.js:8 | splitting a join of separator-free fields gives back the fields |
| Strings.SplitFirst | Backend/Source/Middleware/authMiddleware.js:8 | the first field is everything before the first separator, and the rest is the split of what follows it |
| Strings.SplitHead | Backend/Source/Middleware/authMiddleware.js:8 | the first field is a prefix of the string that ends at a separator or at the end |
| Strings.ParseSkipsSpace | Backend/Source/Controllers/messageController.js:29-30 | `parseInt` skips white space in front of the number |
| Strings.ParsePlus | Backend/Source/Controllers/messageController.js:29-30 | a `+` sign in front reads the same as the text after it without the sign |
| Strings.ParseIgnoresRest | Backend/Source/Controllers/messageController.js:29-30 | `parseInt` reads the number at the front and ignores whatever follows its last digit |
| Strings.LeadingDigitsThen | Backend/Source/Controllers/messageController.js:29-30 | the digits read stop at the first character that is not a decimal digit |
| Strings.DigitsValueShowNat | Backend/Source/Controllers/messageController.js:29-30 | reading back the decimal digits of a natural number gives that number |
| Strings.ParseDigits | Backend/Source/Controllers/messageController.js:29-30 | a run of decimal digits parses to its value |
| Strings.ParseNegative | Backend/Source/Controllers/messageController.js:29-30 | a minus sign in front of a number parses to minus that number |
| Strings.LeadingNumberShowNat | Backend/Source/Controllers/messageController.js:29-30 | the decimal form of a natural number reads back as that number |
| Strings.ParseShowInt | Backend/Source/Controllers/messageController.js:29-30 | `parseInt` of the decimal form of any integer is that integer (round trip) |
| Like.Lower | Backend/Source/Controllers/messageController.js:10-17 | ILIKE compares texts after case folding, character by character |
| Like.LiteralThen | Backend/Source/Controllers/messageController.js:10-17 | a wildcard-free head of a pattern matches exactly its own length of text, up to case |
| Like.PercentMatchesAll | Backend/Source/Controllers/messageController.js:10-17 | the pattern `%` matches every text, the empty one included |
| Like.PercentThen | Backend/Source/Controllers/messageController.js:10-17 | `%p` matches a text exactly when `p` matches one of its suffixes |
| Like.ExactMeaning | Backend/Source/Controllers/messageController.js:13-14 | the `exact` pattern accepts exactly the texts equal to the query up to case |
| Like.PrefixMeaning | Backend/Source/Controllers/messageController.js:9-10 | `q%` accepts exactly the texts that start with `q`, up to case |
| Like.SuffixMeaning | Backend/Source/Controllers/messageController.js:11-12 | `%q` accepts exactly the texts that end with `q`, up to case |
| Like.SuffixAt | Backend/Source/Controllers/messageController.js:11-12 | the tail of a text from position `i` equals `q` up to case exactly when `q` occurs at the end of the text and starts at `i` |
| Like.SubstringMeaning | Backend/Source/Controllers/messageController.js:15-17 | `%q%` accepts exactly the texts that contain `q` somewhere, up to case |
| UserModel.NewUser | Backend/Source/Models/User.js:34-41 | a new user gets the placeholder avatar and is offline, and keeps the fields sent |
| UserModel.ToJson | Backend/Source/Models/User.js:65-69 | `toJSON` keeps every field except the password |
| UserModel.ToJsonForgetsOnlyPassword | Backend/Source/Models/User.js:65-69 | two users have the same JSON exactly when they differ at most in their passwords |
| UserModel.AuthorOf | Backend/Source/Controllers/messageController.js:37 | the author view carries the user's id, username and avatar |
| UserModel.UserInstance.Build | Backend/Source/Models/User.js:5-42 | a fresh instance has the given values and has never been saved |
| UserModel.UserInstance.BeforeCreate | Backend/Source/Models/User.js:46-51 | a non-empty password is replaced by its hash; nothing else changes |
| UserModel.UserInstance.BeforeUpdate | Backend/Source/Models/User.js:52-57 | the password is rehashed only when it changed since the last save, so a stored hash is never hashed twice |
| UserModel.CreatedPasswordMatches | Backend/Source/Models/User.js:61-63 | with a sound bcrypt, `matchPassword` accepts the password a user was created with |
| UserController.FindByEmail | Backend/Source/Controllers/userController.js:57 | finds a user with that email, and finds none exactly when no user has it |
| UserController.FindById | Backend/Source/Controllers/userController.js:111-113 | finds a user with that id, and finds none exactly when no user has it |
| UserController.FindByEmailUnique | Backend/Source/Models/User.js:19-26 | with unique emails, the lookup by a user's email returns that user |
| UserController.UserTable.constructor | Backend/Source/Models/User.js:5-59 | the empty users table is consistent |
| UserController.UserTable.RegisterUser | Backend/Source/Controllers/userController.js:3-44 | 400 when a field is missing, then 400 when the email or username is taken, then 500 when a validator or the key fails; otherwise exactly one row is appended, holding the hashed password, and the reply is 201 with the user minus the password; uniqueness is kept |
| UserController.LoginUser | Backend/Source/Controllers/userController.js:46-86 | 400 when a field is missing; success only for a stored email whose hash matches the password, and it returns that user minus the password; every other failure is the same 401 "Invalid credentials" |
| UserController.LoginSucceedsIff | Backend/Source/Controllers/userController.js:57-73 | with unique emails, login succeeds exactly when some user has the email and a matching password |
| UserController.LoginAfterRegister | Backend/Source/Controllers/userController.js:27-31 | with a sound bcrypt, a user just registered can log in with the password they sent, and login returns that user |
| UserController.GetAllUsers | Backend/Source/Controllers/userController.js:88-105 | every user is listed, in table order, without the password |
| UserController.GetUserById | Backend/Source/Controllers/userController.js:107-132 | 200 with the user minus the password exactly when the id exists, otherwise 404 "User not found" |
| MessageModel.EitherChannelOrReceiver | Backend/Source/Models/Message.js:49-56 | the validator passes exactly when one of channel and receiver is set; the two failures carry their own messages |
| MessageModel.NewMessage | Backend/Source/Models/Message.js:41-44 | a new message is unread and keeps the fields given |
| MessageModel.ValidMessageHasOneTarget | Backend/Source/Models/Message.js:49-56 | a stored message goes to a channel or to a user, never both and never neither |
| MessageController.ModeOf | Backend/Source/Controllers/messageController.js:8-18 | `prefix`, `suffix` and `exact` pick their cases; anything else, absent included, is substring |
| MessageController.BuildContentFilter | Backend/Source/Controllers/messageController.js:4-19 | no filter exactly when the query is absent or all white space; otherwise the pattern is the trimmed query followed by `%` for prefix, preceded by `%` for suffix, alone for exact, and between two `%` for everything else |
| MessageController.ContentFilterMeaning | Backend/Source/Controllers/messageController.js:4-19 | for a wildcard-free query, the built pattern accepts exactly the contents that equal, start with, end with or contain the trimmed query (per mode), up to case |
| MessageController.EffectiveLimit | Backend/Source/Controllers/messageController.js:29 | the limit is never above 100 and never 0; absent, unparsable or 0 gives 15; otherwise it is the parsed number capped at 100, negative numbers included |
| MessageController.EffectiveOffset | Backend/Source/Controllers/messageController.js:30 | absent or unparsable gives 0; otherwise it is the parsed number, negative numbers included |
| MessageController.LimitOfDecimal | Backend/Source/Controllers/messageController.js:29 | a limit sent as the decimal form of `n` is `n` capped at 100, except that 0 is 15 |
| MessageController.OffsetOfDecimal | Backend/Source/Controllers/messageController.js:30 | an offset sent as the decimal form of `n` is `n` |
| MessageController.Select | Backend/Source/Controllers/messageController.js:50-57 | the query returns only table rows satisfying the `where`, and every such row |
| MessageController.SelectCount | Backend/Source/Controllers/messageController.js:50-57 | each row satisfying the `where` is returned as often as it is stored, and no other row is returned |
| MessageController.SelectChronological | Backend/Source/Controllers/messageController.js:53 | selecting keeps creation order |
| MessageController.InsertKeeps | Backend/Source/Models/Message.js:4-57 | inserting a valid row stamped with the clock under a fresh id keeps the messages table consistent (ordered, valid, unique ids) |
| MessageController.SelectSame | Backend/Source/Controllers/messageController.js:153-159 | two `where`s that agree on every row select the same rows |
| MessageController.Reverse | Backend/Source/Controllers/messageController.js:53 | newest first is the selection read backwards |
| MessageController.Window | Backend/Source/Controllers/messageController.js:54-55 | `LIMIT`/`OFFSET` return at most `limit` rows: the ones that follow the first `offset` |
| MessageController.Views | Backend/Source/Controllers/messageController.js:33-43 | each message is joined with its author's id, username and avatar |
| MessageController.PageProperties | Backend/Source/Controllers/messageController.js:32-57 | a page holds at most `limit` messages, all of the channel and passing both filters, strictly newest first; `count` is the number of all matching rows |
| MessageController.PageIsWindow | Backend/Source/Controllers/messageController.js:50-57 | the page is exactly the matching rows after the first `offset` of them counted from the newest, as many as `limit` allows |
| MessageController.NewestWindowSelected | Backend/Source/Controllers/messageController.js:50-57 | every row of a page is a table row that satisfies the criteria |
| MessageController.NewestWindowOrder | Backend/Source/Controllers/messageController.js:53 | over a chronological table, a page is strictly newest first |
| MessageController.ReverseWindowDescending | Backend/Source/Controllers/messageController.js:53-55 | any window of a reversed chronological sequence is strictly decreasing in `createdAt` |
| MessageController.HasMoreIff | Backend/Source/Controllers/messageController.js:78 | `hasMore` holds exactly when matching rows remain after `offset + limit` |
| MessageController.PageMembers | Backend/Source/Controllers/messageController.js:32-57 | every item of a page is a table message of the requested channel that passes both filters |
| MessageController.MessageTable.constructor | Backend/Source/Models/Message.js:4-57 | the empty messages table is consistent |
| MessageController.MessageTable.FetchMessagesByChannel | Backend/Source/Controllers/messageController.js:21-60 | the query runs with the normalised limit and offset, the content pattern only when one was built, and the trimmed author pattern only when one was sent |
| MessageController.MessageTable.GetMessagesByChannel | Backend/Source/Controllers/messageController.js:62-87 | 500 exactly when the normalised limit or offset is negative; otherwise the body is the query's page, its length, the query's total and `hasMore` from them; `count` is at most `limit`, `hasMore` holds iff matching rows remain after the page, and items are channel messages of the table passing both filters, newest first |
| MessageController.MessageTable.SendMessage | Backend/Source/Controllers/messageController.js:89-143 | 400 for missing content or author, then 400 when both targets are missing, writing nothing; falsy targets are stored as null; once content, author and a target are present, every failure is the 500 (both targets, over-long content, a taken id) and writes nothing; a valid request always appends exactly one unread row, stamped with the clock, and answers 201 with its author joined |
| MessageController.GetPrivateMessages | Backend/Source/Controllers/messageController.js:145-186 | exactly the messages one user of the pair sent to the other, each with author and receiver joined |
| MessageController.PrivateMessagesSymmetric | Backend/Source/Controllers/messageController.js:153-159 | swapping the two users gives the same conversation |
| MessageController.PrivateMessagesAscending | Backend/Source/Controllers/messageController.js:172 | over a chronological table, the conversation is strictly oldest first |
| ChannelModel.DescriptionOrDefault | Backend/Source/Models/Channel.js:18-21 | an absent description is stored as `''` |
| ChannelModel.NewChannel | Backend/Source/Models/Channel.js:10-29 | a new channel keeps the name and creator and has the defaulted description |
| ChannelController.FindChannel | Backend/Source/Controllers/channelController.js:139 | finds the channel with that id, and finds none exactly when no channel has it |
| ChannelController.RemovePair | Backend/Source/Controllers/channelController.js:190-195 | after `destroy` no row of the pair is left, and every row left was in the table |
| ChannelController.RemovePairKeepsOthers | Backend/Source/Controllers/channelController.js:190-195 | every row of another pair survives `destroy` |
| ChannelController.RemovePairAbsent | Backend/Source/Controllers/channelController.js:190-202 | with no row for the pair, `destroy` leaves the table unchanged |
| ChannelController.RemovePairDropsLast | Backend/Source/Controllers/channelController.js:162-195 | a row of the pair added last is deleted along with the others |
| ChannelController.RemovePairCount | Backend/Source/Controllers/channelController.js:190-202 | under the unique index, exactly one row is deleted when subscribed and none otherwise |
| ChannelController.RemovePairUnique | Backend/Source/Models/ChannelSubscription.js:29-34 | deleting rows keeps the key and the `(userId, channelId)` index unique |
| ChannelController.UnsubscribeUndoesSubscribe | Backend/Source/Controllers/channelController.js:162-195 | subscribing and then unsubscribing the same pair restores the table exactly |
| ChannelController.SubscribersOf | Backend/Source/Controllers/channelController.js:48-53 | the subscribers listed are exactly the users subscribed to the channel |
| ChannelController.GetChannelById | Backend/Source/Controllers/channelController.js:39-74 | 404 "Channel not found" exactly when no channel has the id; otherwise 200 with that channel and exactly its subscribers |
| ChannelController.GetAllChannels | Backend/Source/Controllers/channelController.js:3-33 | every channel, newest first, with `count` equal to the number listed, each with exactly its subscribers |
| ChannelController.InsertChannelKeeps | Backend/Source/Models/Channel.js:10-17 | inserting a valid channel with a fresh id and name keeps the tables consistent |
| ChannelController.InsertSubscriptionKeeps | Backend/Source/Models/ChannelSubscription.js:29-34 | inserting a valid subscription to an existing channel for a new pair keeps the tables consistent |
| ChannelController.NoSubscriptionsToUnknownChannel | Backend/Source/Models/ChannelSubscription.js:18-25 | no one is subscribed to a channel that does not exist |
| ChannelController.ChannelDirectory.constructor | Backend/Source/Models/Channel.js:3-32 | the empty tables are consistent |
| ChannelController.ChannelDirectory.CreateChannel | Backend/Source/Controllers/channelController.js:76-126 | 400 without name or creator, then 400 for a taken name, writing nothing; a row the validators or the primary key reject is the 500 and writes nothing; the two inserts are not atomic, so a failed second insert is the 500 with the channel kept and no subscription; a request passing every check succeeds, adding exactly the channel and the creator's subscription and answering 201 |
| ChannelController.ChannelDirectory.SubscribeToChannel | Backend/Source/Controllers/channelController.js:128-177 | 400 without user, 404 for an unknown channel, 400 when already subscribed, each writing nothing; after those checks a failed insert is the 500 and writes nothing; a request passing every check succeeds and appends exactly the pair |
| ChannelController.ChannelDirectory.UnsubscribeFromChannel | Backend/Source/Controllers/channelController.js:179-214 | 400 without user; otherwise the pair's row is deleted whether or not the channel exists, and the reply is 404 "Subscription not found" exactly when there was none |
| AuthMiddleware.SecondField | Backend/Source/Middleware/authMiddleware.js:8 | `split(' ')[1]` is `undefined` or a field without a space |
| AuthMiddleware.SecondFieldShape | Backend/Source/Middleware/authMiddleware.js:8 | the second field follows the first space and runs to the next space or the end |
| AuthMiddleware.SecondFieldOf | Backend/Source/Middleware/authMiddleware.js:8 | conversely, a string of that shape has exactly that second field |
| AuthMiddleware.HeaderToken | Backend/Source/Middleware/authMiddleware.js:5-9 | a token is only found in a present header starting with `Bearer`, and contains no space |
| AuthMiddleware.FoundTokenShape | Backend/Source/Middleware/authMiddleware.js:7-9 | a non-empty token found sits between the first space and the next space or the end |
| AuthMiddleware.ShapeGivesToken | Backend/Source/Middleware/authMiddleware.js:7-9 | a `Bearer…` header of that shape yields exactly that token |
| AuthMiddleware.HeaderTokenIff | Backend/Source/Middleware/authMiddleware.js:7-11 | a usable token is found exactly when the header has the shape `Bearer… token[ …]` |
| AuthMiddleware.NoTokenExamples | Backend/Source/Middleware/authMiddleware.js:7-16 | `Bearer`, `Bearerxyz` and `bearer abc` yield no token, and `Bearer  abc` yields the falsy empty one |
| AuthMiddleware.LooseSchemeExample | Backend/Source/Middleware/authMiddleware.js:7-9 | the scheme is only a prefix test, so `Bearerxyz abc` yields `abc` |
| AuthMiddleware.TableLookup | Backend/Source/Middleware/authMiddleware.js:20-22 | the user is found exactly when the id exists, and is returned without the password |
| AuthMiddleware.Decide | Backend/Source/Middleware/authMiddleware.js:4-38 | `next` exactly when a token is present, verifies and names a found user; otherwise one 401 with "no token", "token invalid" (also for a failed lookup) or "user not found" |
| AuthMiddleware.ProtectAgainstTable | Backend/Source/Middleware/authMiddleware.js:18-31 | against the users table, a request passes exactly when its header carries a token that verifies to an existing user's id, and it carries on with that user minus the password |
| AuthMiddleware.Request.constructor | Backend/Source/Middleware/authMiddleware.js:4 | a request starts with its header and no user |
| AuthMiddleware.Request.Protect | Backend/Source/Middleware/authMiddleware.js:4-38 | the outcome is the decision above; `req.user` is set on success, cleared when the user is missing, and untouched otherwise |
| Router.MetaOf | Frontend/src/router/index.js:6-29 | each name's meta flags are the ones its `routes` entry declares |
| Router.BeforeEach | Frontend/src/router/index.js:36-46 | to `login` exactly for a private page without a session, to `home` exactly for a guest page with one, otherwise proceed, with one decision per navigation |
| Router.NoRouteIsBothGuestAndPrivate | Frontend/src/router/index.js:6-28 | no route is both for guests and private |
| Router.RedirectTargetsAreFixedPoints | Frontend/src/router/index.js:39-44 | a redirect target is let through with the same session, so there is no redirect loop |
| Router.ChannelPageRequiresAuth | Frontend/src/router/index.js:24-28 | `/channel/:channelId` is the channel page, requires a session, and sends a visitor without one to `login` |
| Router.RoutesAreDistinct | Frontend/src/router/index.js:6-29 | paths and names are declared once each |
| MockData.MaxId | Backend/Source/Data/mockData.js:1-11 | the largest seeded id of a table, attained by a seeded row |
| MockData.SeedIsConsistent | Backend/Source/Data/mockData.js:1-11 | seeded ids are distinct in each table and every seeded message points at a seeded channel |
| MockData.IdCounters.constructor | Backend/Source/Data/mockData.js:13-14 | both counters start at 4, one past the largest seeded id |
| MockData.IdCounters.GetNextChannelId | Backend/Source/Data/mockData.js:19 | returns the counter and then adds one; it is never a seeded id, and the message counter is untouched |
| MockData.IdCounters.GetNextMessageId | Backend/Source/Data/mockData.js:20 | returns the counter and then adds one; it is never a seeded id, and the channel counter is untouched |

Behaviour of the code that a reader might not expect, as modelled:

- The limit is capped at 100 but not raised. A negative `limit` or `offset` reaches the query, PostgreSQL rejects it, and the handler answers 500.
- `sendMessage` tests content for truthiness only. Content that is all white space is stored.
- Wildcards `%` and `_` inside a user's query are not escaped. They act as wildcards.
- The `Bearer` test is a case-sensitive prefix test. `Bearerxyz abc` passes with the token `abc`; `Bearer  abc` (two spaces) yields no token.
- A failing user lookup in `protect` is reported as "token invalid", not as a server error.
- `unsubscribeFromChannel` does not check that the channel exists.
- In `createChannel`, the channel insert and the creator's subscription insert are separate writes. If the second fails, the channel is kept.

## Left out

- Live delivery (sockets, rooms, fan-out): the backend contains none. It only mounts REST routes.
- Database, bcrypt and JWT internals: UUIDs, salts, hashing, comparison and token verification are parameters. `UserModel.Sound` states the one bcrypt property used. A database failure other than those modelled (a rejected row, a taken key, a negative LIMIT/OFFSET) is not modelled.
- `createdAt` and `updatedAt` values: a counter stands in for the clock. The seed data's `new Date()` stamps are dropped. The source stamps rows with `new Date()`, which has millisecond resolution, so two rows can share a timestamp. The counter rules that out. The strict newest-first order (`PageProperties`, `NewestWindowOrder`) and the window `PageIsWindow` describes rely on distinct timestamps. With equal timestamps, the database may order tied rows either way.
- Concurrency: each handler runs alone. The race between a uniqueness check and the insert that follows it is not modelled.
- The JSON envelope (`success`, the 500 message text) and HTTP plumbing: replies carry the status and the body or message only.
- MessageController.MessageTable.SendMessage: foreign keys (author, receiver and channel rows must exist) are not checked. A request naming a missing row succeeds here, where the database would answer 500.
- ChannelController.ChannelDirectory.CreateChannel: the foreign key on `createdBy` is not checked. The reply body is the channel row without the `creator` include.
- ChannelController.ChannelDirectory.SubscribeToChannel: the foreign key on `userId` is not checked.
- ChannelController.GetChannelById: subscribers are listed by id, not as id/username/avatar views, and the `creator` include is left out.
- ChannelController.GetAllChannels: each channel's subscribers are listed by id, not as id/username/avatar views, and the `creator` include is left out.
- UserModel.IsEmail: a simplified email check (one `@`, a non-empty local part, a dotted domain, no white space) stands in for validator.js's `isEmail`.
- Strings.Trim: only ASCII white space is trimmed. JavaScript also trims the Unicode space characters and line terminators.
- Like.Matches: case folding covers ASCII letters only, and the backslash escape of LIKE is not modelled. The meaning lemmas assume a query without `%` and `_`. Without the escape, a `\` is an ordinary character here. A query ending in `\` makes the exact and suffix patterns end in an escape character. PostgreSQL rejects such a pattern, so the source answers 500.
- MessageController.MessageTable.GetMessagesByChannel: answers 500 only for a negative limit or offset. A content query ending in `\` with the exact or suffix mode is answered 200 here, where PostgreSQL rejects the pattern and the source answers 500.
- Strings.ParseInt: the function itself carries no contract; its behaviour is stated by `ParseSkipsSpace`, `ParsePlus`, `ParseNegative`, `ParseIgnoresRest` and `ParseShowInt`. Only the decimal digits `0`-`9` are read, and numbers are unbounded. A result beyond 2^53 is not rounded as a JavaScript number would be.
- Router.BeforeEach: matching a URL to a route is vue-router's job. The guard takes the matched route, or none, and takes `isAuthenticated` from the auth store as an input.
- The auth store and the API client on the frontend, and the Express route tables and server setup: these are wiring, not logic.
