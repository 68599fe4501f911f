# Dating-app backend: a verified model of its domain rules

This project models the domain rules of a dating app's Node.js backend. It covers:

- the mutual-interest utility;
- likes, skips and match creation;
- the discovery feed;
- profile photo edits;
- chat messages and the reaction toggle;
- the real-time socket relay;
- match listing and match details;
- conversation starters;
- the daily prompt;
- the schema rules of users and messages.

MongoDB, Express and socket.io are abstracted away, and the whole database is one immutable `Store`:

- users are kept in a map by id;
- matches and messages are kept in sequences in insertion order, and an id is a position in that order. `findOne` is "first index" and `create` is "append";
- daily prompt answers are kept in a map keyed by (user, date).

Every HTTP handler is a function from a store and its inputs to a `Step`. A `Step` holds the store left behind and a reply: either a value or a failure: a 400, 403 or 404 reply, or the handler throwing. No handler is wrapped for asynchronous errors, so a throw never reaches the error middleware of `backend/src/app.js` and the request gets no reply at all. Every socket event is a function to a `Relay`. A `Relay` holds the store, the connection, and the list of (room, event) emissions in emission order.

Some things the backend reads from the environment are inputs to the model instead:

| Environment input | Model input |
|---|---|
| The clock | `now`, `midnight`, `ms` and `date` |
| JWT verification | An oracle from a token to its claims |
| Uploaded file names | A list of paths |

Modules follow the source files:

| Module | Models |
|---|---|
| `Base` | Options, JSON values, failures, sequence helpers |
| `Text` | `trim`, `toLowerCase`, `split`, `join` |
| `Sorting` | A stable sort by descending key, for the in-memory `Array.prototype.sort` and Mongo `sort` |
| `Models` | The User, Match and Message schemas and the store |
| `MatchUtils` | `utils/matchUtils.js` |
| `Ledger` | `likeUser`, `skipUser` |
| `Discovery` | `discoverUsers` |
| `Photos` | `uploadProfilePhotos`, `removeProfilePhoto`, the comma-list parsing, `toArray` |
| `Messages` | `controllers/messageController.js` |
| `Chat` | `sockets/chat.js` |
| `Matches` | `controllers/matchController.js` |
| `Starters` | `controllers/starterController.js` |
| `Prompts` | `controllers/promptController.js` |

Some quirks of the backend are kept as they are:

- The HTTP send has no blank-content check of its own. Such a message fails the schema's required-after-trim rule when it is created, so the handler throws with nothing stored.
- The socket `message` handler drops blank content before anything else happens.
- A like reports `matchCreated` whenever the like is reciprocal, even when an existing match is reused.
- A skip of oneself is accepted.
- A match's `lastMessage` is the raw content, while the stored message content is trimmed.
- The profile update writes without validators, so a stored user can have an empty name or an age under 18. `save()` validates every loaded path, so that user's next like, new skip, photo upload or photo removal throws and saves nothing.

## Model

| member | source | states |
|---|---|---|
| Base.IndexOf | backend/src/controllers/userController.js:71 | `indexOf`: the result is the first position holding the value and none before it holds it; it is absent exactly when the value does not occur |
| Base.DistinctPermutation | backend/src/controllers/matchController.js:6-7 | a permutation of a duplicate-free sequence is duplicate-free |
| Base.RemoveAt | backend/src/controllers/userController.js:68 | `splice(i, 1)`: one element shorter, entries before `i` kept, later ones shifted down by one, and the removed entry is the only one missing from the multiset |
| Text.Trim | backend/src/utils/matchUtils.js:4 | the result has no white space at either end, is no longer than the input, and is empty exactly when the input is all white space |
| Text.TrimInfix | backend/src/utils/matchUtils.js:4 | the trim is the infix of the input left after removing only white space before and after it |
| Text.TrimIdempotent | backend/src/utils/matchUtils.js:4 | trimming twice is trimming once |
| Text.TrimTrimmed | backend/src/utils/matchUtils.js:4 | a string without white space at either end is its own trim |
| Text.TrimKeepsChars | backend/src/utils/matchUtils.js:4 | trimming introduces no character |
| Text.LowerChar | backend/src/utils/matchUtils.js:4 | a capital A–Z becomes the lower-case letter 32 code points above it; every other character is kept |
| Text.ToLower | backend/src/utils/matchUtils.js:4 | the same length; position by position each capital A–Z is lowered by 32 code points and every other character is kept, so no capital is left and white space stays where it was |
| Text.ToLowerIdempotent | backend/src/utils/matchUtils.js:4 | lower-casing twice is lower-casing once |
| Text.ToLowerKeepsTrimmed | backend/src/utils/matchUtils.js:4 | lower-casing keeps a trimmed string trimmed and a non-empty one non-empty |
| Text.Split | backend/src/controllers/userController.js:215 | `split(',')` yields at least one piece and no piece contains the separator |
| Text.JoinSplit | backend/src/controllers/userController.js:215 | joining the pieces of a split with the separator gives back the string |
| Text.CommaSpaceJoin | backend/src/utils/matchUtils.js:25-27 | joining with `', '` is joining with `','` after putting a space before every piece but the first |
| Text.SplitJoin | backend/src/controllers/userController.js:215 | splitting a join of separator-free pieces gives back the pieces |
| Sorting.Insert | backend/src/controllers/userController.js:149 | insertion adds exactly the element to the multiset |
| Sorting.InsertSorted | backend/src/controllers/userController.js:149 | inserting into a descending sequence keeps it descending |
| Sorting.SortDesc | backend/src/controllers/userController.js:148-150 | the result is a permutation of the input ordered by non-increasing key |
| Sorting.WithKeyInsert | backend/src/controllers/userController.js:149 | insertion puts the element before the elements that share its key, whose order is unchanged, and changes no other key's elements |
| Sorting.SortDescStable | backend/src/controllers/userController.js:148-150 | the elements sharing a key keep their relative order (the sort is stable) |
| Sorting.SortDescSorted | backend/src/controllers/userController.js:148-150 | an already ordered sequence is left unchanged |
| Models.ParseGender | backend/src/models/User.js:14 | the gender enum accepts exactly the four gender names, each parsed back to its name |
| Models.ParseIntent | backend/src/models/User.js:15 | the intent enum accepts exactly `serious`, `casual` and `friends` |
| Models.ParseReaction | backend/src/models/Message.js:12 | the reaction enum accepts exactly `love`, `like` and `funny` |
| Models.CreateUser | backend/src/models/User.js:3-32 | a user is created exactly when the name and e-mail are not blank and the age is at least 18; otherwise the creation throws (the registration handler catches it and answers its own 500). The stored name is trimmed. The stored user is valid (trimmed lower-case e-mail). Every other field takes its default: no photos, photo `''`, gender `other`, intent `friends`, all four genders looked for, empty questions, not complete, no likes or skips |
| Models.FindMatch | backend/src/controllers/messageController.js:6 | `findById` finds a match exactly for an id in the store, and finds that one |
| Models.FindMessage | backend/src/controllers/messageController.js:32 | `findById` finds a message exactly for an id in the store, and finds that one |
| Models.OtherMember | backend/src/controllers/messageController.js:21 | the member found differs from `me` and belongs to the match; none is found exactly when every member is `me` |
| MatchUtils.EntryNormal | backend/src/utils/matchUtils.js:4 | every entry becomes either `''` or a non-empty, trimmed, lower-case tag |
| MatchUtils.DroppedIffBlank | backend/src/utils/matchUtils.js:4-5 | a string entry is dropped exactly when it is blank |
| MatchUtils.NormalizeEntries | backend/src/utils/matchUtils.js:4 | the `map` step: one tag per entry, position by position, `''` for the entries that are dropped |
| MatchUtils.NormalizeItems | backend/src/utils/matchUtils.js:3-5 | the `filter(Boolean)` after the map: the output is a subsequence of the mapped entries, so it keeps their order, and every non-empty tag has its multiplicity there; every tag is non-empty, trimmed and lower-case |
| Base.FilterStep | backend/src/utils/matchUtils.js:5 | one filter step keeps the head exactly when it is not `''`, preserving subsequence and multiplicities |
| MatchUtils.NormalizeItemsMembers | backend/src/utils/matchUtils.js:3-5 | a tag is in the output exactly when some string entry that is not blank normalises to it; non-strings contribute nothing |
| MatchUtils.NormalizeList | backend/src/utils/matchUtils.js:1-6 | a non-array gives `[]`. For an array, the output is the subsequence of the mapped entries without the `''` ones, in entry order and with each tag's multiplicity; every output tag is normal and exactly the tags some entry yields are present |
| MatchUtils.NormalizeNormal | backend/src/utils/matchUtils.js:1-6 | a list of already normal tags normalises to itself |
| MatchUtils.NormalTagFixed | backend/src/utils/matchUtils.js:4 | trimming and lower-casing a normal tag leaves it unchanged |
| MatchUtils.KeepIn | backend/src/utils/matchUtils.js:34 | the filter is a subsequence of `a` holding exactly the values in both, each with its multiplicity in `a` |
| MatchUtils.Intersect | backend/src/utils/matchUtils.js:31-35 | empty if either side is empty; otherwise the subsequence of `a` whose values occur in `b`, with `a`'s order and duplicates |
| MatchUtils.Tags | backend/src/utils/matchUtils.js:9-14 | a missing profile gives no tags; all tags are normal |
| MatchUtils.ComputeMutualInterests | backend/src/utils/matchUtils.js:8-20 | each category is the intersection of the two normalised lists and `count` is the sum of the three lengths. `shared` is a prefix of music, hobbies and passions of length `min(6, count)`. A missing profile on either side gives nothing shared |
| MatchUtils.MutualMembership | backend/src/utils/matchUtils.js:12-14 | a tag is mutual in a category exactly when both profiles list it there after normalisation |
| MatchUtils.MutualSymmetric | backend/src/utils/matchUtils.js:12-14 | the categories hold the same tags whichever profile comes first |
| MatchUtils.NonEmptyCategories | backend/src/utils/matchUtils.js:25-27 | at most three categories, none of them empty |
| MatchUtils.ReasonLine | backend/src/utils/matchUtils.js:25-27 | a reason starts with `Shared <topic>: `, and for normal comma-free tags the rest parses back, as a comma list, to the first three tags |
| MatchUtils.ComputeMatchReasons | backend/src/utils/matchUtils.js:22-29 | at most three reasons, none exactly when nothing is mutual, and `mutual` is the mutual-interest result |
| MatchUtils.ReasonsPerCategory | backend/src/utils/matchUtils.js:22-29 | one reason per non-empty category, in the order music, hobbies, passions, each naming that category's first three tags |
| Ledger.FindPair | backend/src/controllers/userController.js:170 | the match found is the first one listing both users; none is found exactly when no match lists both |
| Ledger.Like | backend/src/controllers/userController.js:155-177 | a self-like is a 400 that changes nothing, and a repeated like is "Already liked" that changes nothing. A new like by an actor failing the schema's validators throws and changes nothing. Matches are only ever appended, at most one. Only the actor's `liked` list can change |
| Ledger.LikeAppendsOnce | backend/src/controllers/userController.js:160-163 | after a fresh like by an actor that passes validation, the target occurs exactly once in the actor's `liked`, appended at the end; for an actor that fails it the like throws and `liked` is unchanged |
| Ledger.LikeReportsReciprocity | backend/src/controllers/userController.js:165-176 | the reply is a success exactly when the actor passes validation. Then `matchCreated` holds exactly when the target already liked the actor, and then `matchId` names a match listing both; otherwise it is null |
| Ledger.LikeCreatesOnlyNewPairs | backend/src/controllers/userController.js:169-173 | a match is appended only for a reciprocal like, by an actor that passes validation, between two users that no match lists yet |
| Ledger.LikeKeepsOneMatchPerPair | backend/src/controllers/userController.js:169-173 | a like never gives a pair a second match |
| Ledger.MutualLikeScenario | backend/src/controllers/userController.js:155-177 | for two users that pass validation: A likes B, then B likes A, then A likes B again. This creates exactly one match `[B, A]`, reports it to B, and the third like changes nothing |
| Ledger.LikeNeverSelf | backend/src/controllers/userController.js:157 | no user ever appears in its own `liked` list |
| Ledger.Skip | backend/src/controllers/userController.js:179-187 | a target already skipped is a success that changes nothing. A new target is appended at the end of `skipped` when the actor passes validation, and no other field of the actor changes; otherwise the save throws and nothing changes. Every other user is untouched |
| Ledger.SkipIdempotent | backend/src/controllers/userController.js:182-185 | skipping twice is skipping once |
| Ledger.SkipSelfRecorded | backend/src/controllers/userController.js:179-187 | a self-skip is accepted: it is recorded exactly when it was already recorded or the actor passes validation, and then the reply is a success |
| Discovery.Eligibles | backend/src/controllers/userController.js:108-132 | the candidates are exactly the users of the collection that are not me, not liked and not skipped, whose gender is looked for (only when `lookingFor` is non-empty), whose intent equals the requested one (only when given), and who were created since midnight (only on `new-today`). They keep collection order, and distinct ids stay distinct |
| Discovery.Window | backend/src/controllers/userController.js:134-135 | `skip(n).limit(l)` is a prefix of the suffix after `n`. It has at most `abs(l)` entries, exactly that many when enough remain, and a limit of 0 means no limit: the result is then the whole suffix after `n` |
| Discovery.ShownPhotos | backend/src/controllers/userController.js:141-143 | the photos shown are the stored photos, or the primary photo alone, or none |
| Discovery.Enrich | backend/src/controllers/userController.js:137-146 | the card carries the user, photos that are empty exactly when the user has neither photos nor a primary photo (else the stored photos or the primary photo alone), and the mutual interests of my profile and theirs |
| Discovery.EnrichAll | backend/src/controllers/userController.js:138-146 | each candidate is paired with its photos and its mutual interests with me, position by position |
| Discovery.Discover | backend/src/controllers/userController.js:106-153 | a page is returned exactly when the requester exists and the skip is not negative; otherwise the handler throws. `page` and `limit` default to 1 and 20. `count` is the page length, which is at most `abs(limit)`. On `music-twins` the page is ordered by non-increasing mutual count. The page is a permutation of the enriched window at offset `(page-1)*limit` |
| Discovery.PageSkip | backend/src/controllers/userController.js:113-115 | the skip is `(page-1)*limit` with defaults 1 and 20: zero on the first page or with a zero limit, and negative exactly for a page before the first with a positive limit or after the first with a negative limit |
| Discovery.Arrange | backend/src/controllers/userController.js:148-150 | `music-twins` reorders the page, as a permutation, by non-increasing mutual count; any other stack keeps it unchanged |
| Discovery.DiscoverShown | backend/src/controllers/userController.js:132-146 | every card shown is an eligible user of the collection, with its client photo list and its mutual interests with me |
| Discovery.DiscoverPageContents | backend/src/controllers/userController.js:132-150 | without `music-twins` the page is the window in collection order; with it, it is the same cards with ties kept in collection order |
| Discovery.KnownUsersNeverShown | backend/src/controllers/userController.js:108-112 | no page shows me, a liked user or a skipped user |
| Discovery.PagesDisjoint | backend/src/controllers/userController.js:113-135 | with distinct ids, two different pages of the same positive size share no user |
| Discovery.WindowsDisjoint | backend/src/controllers/userController.js:134-135 | windows that start at least `limit` apart share no user |
| Photos.UploadPhotos | backend/src/controllers/userController.js:42-53 | the new paths follow the old photos in order, and nothing else changes except the primary photo. An empty primary photo is filled with the first photo; a set one is kept. A missing user, or one failing the schema's validators, makes the handler throw |
| Photos.Picked | backend/src/controllers/userController.js:63-76 | an index picks that entry only when in range. A path picks its first occurrence only when non-empty and present. Without a selector nothing is picked |
| Photos.Resync | backend/src/controllers/userController.js:84-89 | if the primary photo was removed it becomes the new first photo, or null. An empty primary photo is filled from the list. Otherwise it is kept |
| Photos.RemovePhoto | backend/src/controllers/userController.js:55-92 | a missing user is a 404. When nothing is picked, or the picked entry is `''`, the user is unchanged and nothing is saved. A removal by a user failing the schema's validators throws. Otherwise exactly that one entry is removed and the primary photo is resynchronised |
| Photos.UploadKeepsInSync | backend/src/controllers/userController.js:47-49 | the stored user after an upload, saved or unchanged after a throw, keeps the list free of empty entries and the primary photo set whenever there are photos |
| Photos.RemoveKeepsInSync | backend/src/controllers/userController.js:63-89 | the stored user after a removal, saved or unchanged after a throw, keeps the list free of empty entries and the primary photo set whenever there are photos |
| Photos.UploadThenRemove | backend/src/controllers/userController.js:47-76 | the upload succeeds exactly when the user passes validation; then removing the photo just uploaded, by its index or by its new path, succeeds and restores the previous list |
| Photos.Trims | backend/src/controllers/userController.js:215 | the `map(trim)` step: every piece trimmed, position by position |
| Photos.TrimPieces | backend/src/controllers/userController.js:215 | the `filter(Boolean)` after the trims: a subsequence of the trimmed pieces, so in piece order, holding every non-empty trimmed piece with its multiplicity; each is non-empty and trimmed |
| Photos.TrimPiecesStep | backend/src/controllers/userController.js:215 | a piece that trims to nothing is dropped and a non-empty trimmed piece is kept in front of the rest |
| Photos.TrimPiecesFree | backend/src/controllers/userController.js:215 | trimming and dropping pieces introduces no character |
| Photos.CommaList | backend/src/controllers/userController.js:36 | the parsed tags are the non-empty trims of the comma-separated pieces, in order and with their multiplicity; each is non-empty, trimmed and free of commas |
| Photos.CommaListLeadingBlank | backend/src/controllers/userController.js:36 | a blank piece before the first tag is dropped: `",Rock"` parses to `["Rock"]` |
| Photos.CommaListInnerBlank | backend/src/controllers/userController.js:36 | a blank piece between tags is dropped: `"rock,,pop"` parses to `["rock", "pop"]` |
| Photos.TrimPiecesFixed | backend/src/controllers/userController.js:215 | pieces that are already non-empty and trimmed are kept as they are |
| Photos.CommaListJoin | backend/src/controllers/userController.js:36 | parsing the comma-join of non-empty, trimmed, comma-free tags gives the tags back |
| Photos.CommaListSpacedJoin | backend/src/utils/matchUtils.js:25-27 | parsing the `', '`-join of non-empty, trimmed, comma-free tags gives the tags back |
| Photos.CommaListCanonical | backend/src/controllers/userController.js:36 | re-joining and re-parsing a parsed list changes nothing |
| Photos.ToArray | backend/src/controllers/userController.js:210-218 | a falsy value gives `[]` and an array is kept. A string gives its comma-list tags as strings. Numbers and booleans give `[]` |
| Photos.ToArrayStrings | backend/src/controllers/userController.js:213-216 | every value parsed from a string is a non-empty, trimmed, comma-free string |
| Messages.Thread | backend/src/controllers/messageController.js:10 | exactly the stored messages of the match, each with its id, in increasing id order |
| Messages.ListMessages | backend/src/controllers/messageController.js:4-12 | a missing match or a non-member is a 403. Otherwise the result is ordered by ascending `createdAt` and is a permutation of the match's messages |
| Messages.ListMessagesContents | backend/src/controllers/messageController.js:10 | a message is listed exactly when it belongs to the match |
| Messages.ListMessagesStable | backend/src/models/Message.js:20 | messages with equal `createdAt` keep their insertion order |
| Messages.Deliver | backend/src/controllers/messageController.js:21-24 | exactly one message is appended, with the trimmed content and no reactions, and it is valid. The match's `lastMessage` becomes the raw content. Its `updatedAt` becomes the current time when that changes the preview; when the content equals the stored preview the save changes nothing and the match is left as it was. Nothing else changes |
| Messages.SendMessage | backend/src/controllers/messageController.js:14-26 | a non-member is a 403 with no change. Missing or blank content, or a match without a second member, makes the handler throw with no change. Otherwise the message is delivered to the other member, touching the match's `updatedAt` only when the preview changes |
| Messages.SendDelivers | backend/src/controllers/messageController.js:21-25 | a member's non-blank message goes to the other member with the trimmed content and sets `lastMessage` to the raw content. Both members' listings then show it |
| Messages.SendKeepsMessagesValid | backend/src/models/Message.js:8 | sending never stores a message with empty or untrimmed content |
| Messages.ReactionOf | backend/src/controllers/messageController.js:39 | `findIndex`: the first reaction of the user, or none exactly when the user has none |
| Messages.Toggle | backend/src/controllers/messageController.js:38-50 | no reaction yet appends one. The same kind removes it. A different kind overwrites it in place with the new time |
| Messages.ToggleKeepsOnePerUser | backend/src/controllers/messageController.js:38-50 | toggling keeps at most one reaction per user |
| Messages.ToggleKeepsOthers | backend/src/controllers/messageController.js:38-50 | the other users' reactions are unchanged in content and relative order |
| Messages.ToggleOwn | backend/src/controllers/messageController.js:40-49 | the user's own reactions become none, when withdrawn with the same kind, or exactly the new one |
| Messages.ToggleTwice | backend/src/controllers/messageController.js:40-49 | reacting twice with the same kind, starting from no reaction, restores the list |
| Messages.ParseKind | backend/src/controllers/messageController.js:31 | a kind is accepted exactly when it is the string `love`, `like` or `funny` |
| Messages.ApplyReaction | backend/src/controllers/messageController.js:38-51 | only the reactions of the chosen message change, by the toggle |
| Messages.React | backend/src/controllers/messageController.js:28-53 | checks in order: an invalid kind is a 400, a missing message a 404, a non-member of the message's match a 403, each changing nothing. Otherwise the toggle is saved and the message returned |
| Messages.ReactKeepsInvariants | backend/src/controllers/messageController.js:38-51 | reacting keeps one reaction per user on every message and every message valid |
| Chat.HandshakeToken | backend/src/sockets/chat.js:17 | the auth token if non-empty, else the query token if non-empty, else none |
| Chat.Connect | backend/src/sockets/chat.js:15-31 | no token is "No token" and an unverifiable token is "Auth failed". An accepted connection carries the token's id and is in that user's room, when an id is present, and in no other |
| Chat.JoinMatch | backend/src/sockets/chat.js:32-36 | a member joins the match room; anyone else changes nothing. Nothing is emitted and the store is untouched |
| Chat.SendEvent | backend/src/sockets/chat.js:38-55 | missing or blank content or a non-member is dropped with no change. A delivered message is stored as the HTTP send stores it, `updatedAt` included. Then the message goes to the match room and `{matchId, messageId, from, content, createdAt}` to the recipient's room |
| Chat.ReactEvent | backend/src/sockets/chat.js:57-76 | something is emitted exactly for a valid kind, a member, and an existing message of that match. Then the toggle is saved and `{messageId, reactions}` goes to the match room; otherwise nothing changes |
| Chat.SendPersistsBeforeEmit | backend/src/sockets/chat.js:43-54 | everything a `message` event emits is already in the store it leaves |
| Chat.ReactPersistsBeforeEmit | backend/src/sockets/chat.js:74-75 | everything a `react` event emits is already in the store it leaves |
| Chat.SendNotifiesRecipient | backend/src/sockets/chat.js:46-54 | the notification goes to the other member of the match, not the sender, and the message to the match room |
| Chat.SendAgreesWithHttp | backend/src/sockets/chat.js:38-55 | a socket message leaves the same store as the HTTP send, and is emitted exactly when the HTTP send succeeds |
| Chat.ReactAgreesWithHttp | backend/src/sockets/chat.js:57-76 | for a message of the given match, a socket reaction and an HTTP reaction leave the same store and succeed together |
| Chat.ConnectAuthorized | backend/src/sockets/chat.js:29-31 | a new connection is only in its own user's room |
| Chat.EventsKeepAuthorized | backend/src/sockets/chat.js:32-76 | no event puts a connection into a room it is not entitled to |
| Matches.Populate | backend/src/controllers/matchController.js:8 | every stored member is populated, and with users stored under their ids only stored members appear |
| Matches.FindUser | backend/src/controllers/matchController.js:12-13 | `find` by id equality or inequality: the first such user, or none exactly when there is none |
| Matches.CardOf | backend/src/controllers/matchController.js:11-16 | the card carries the match's id, preview and time. `otherUser` is a populated member other than me, or absent when every member is me. `reasons` and `mutual` are the match reasons |
| Matches.MatchesOf | backend/src/controllers/matchController.js:6 | exactly the ids of the matches that list me, in store order and without repeats |
| Matches.MyCards | backend/src/controllers/matchController.js:6-16 | a card for every match that lists me, and no other, in store order with one card per match |
| Matches.CardsOfMatches | backend/src/controllers/matchController.js:6-16 | the cards of my match ids cover every match that lists me and only those |
| Matches.ListMatches | backend/src/controllers/matchController.js:5-19 | exactly the cards of my matches, one per match and no card twice, ordered by `updatedAt` descending |
| Matches.CardIdsPermutation | backend/src/controllers/matchController.js:6-7 | a reordering of cards with distinct ids has distinct ids |
| Matches.ListMatchesOrder | backend/src/controllers/matchController.js:6-7 | the list is a permutation of my cards in store order, and cards with the same `updatedAt` keep store order |
| Matches.MatchDetails | backend/src/controllers/matchController.js:21-34 | a 403 unless the match exists and a populated member is me; otherwise the card the list shows |
| Matches.DetailsForMembers | backend/src/controllers/matchController.js:26-33 | with users stored under their ids, details are granted exactly to stored members. The other user is a stored member other than me, and the card is in my list |
| Matches.NoProfileNoReasons | backend/src/controllers/matchController.js:13-14 | without my stored profile there are no reasons and nothing is mutual |
| Starters.Tailored | backend/src/controllers/starterController.js:31-45 | two lines for shared music, two for hobbies and one for passions, in that order, each built from the first shared tag |
| Starters.Dedup | backend/src/controllers/starterController.js:48 | no duplicates, the same values, and no longer than the input |
| Starters.DedupPrefix | backend/src/controllers/starterController.js:48 | de-duplicating a prefix gives a prefix of the whole list's result |
| Starters.DedupDistinct | backend/src/controllers/starterController.js:48 | a list without duplicates is kept as it is |
| Starters.DedupOrder | backend/src/controllers/starterController.js:48 | values keep the order of their first occurrences |
| Starters.Assemble | backend/src/controllers/starterController.js:48 | the first six of the distinct tailored-then-generic lines: a prefix of that list, as long as it or six, so the top-up is the earliest unused generic lines. No duplicates, each a tailored or generic line |
| Starters.AssembleHead | backend/src/controllers/starterController.js:48 | the list opens with the first tailored line; without tailored lines it is the generic list |
| Starters.PairMutual | backend/src/controllers/starterController.js:17-29 | the interests are the mutual interests of my stored profile and the first other member's, a member not stored having no profile |
| Starters.GetStarters | backend/src/controllers/starterController.js:13-54 | a 403 exactly for a match id whose match I am not in. A member gets the lines assembled from the tailored lines of the interests shared with the other member; without a match id, the lines assembled from no tailored line. At most six distinct lines |
| Starters.MemberStarters | backend/src/controllers/starterController.js:23-48 | for a member the distinct tailored lines come first and the rest are generic lines; the opening line is on the first shared music genre, else hobby, else passion; with nothing shared the result is the generic list |
| Starters.StartersOpen | backend/src/controllers/starterController.js:31-48 | the opening line is chosen by the first non-empty category, and with all categories empty the lines are the generic ones |
| Starters.GenericWithoutMatch | backend/src/controllers/starterController.js:5-11 | without a match id the result is exactly the five generic lines in declared order |
| Starters.TailoredFirst | backend/src/controllers/starterController.js:48 | the distinct tailored lines come first, as many as fit. Every later line is a generic line that is not tailored, and the order is that of first occurrence |
| Prompts.PromptOfTheDay | backend/src/controllers/promptController.js:16-21 | the prompt is always one of the five prompts |
| Prompts.PromptForDay | backend/src/controllers/promptController.js:19-20 | throughout day `d` (since the epoch) the prompt is entry `d mod 5` |
| Prompts.PromptCycle | backend/src/controllers/promptController.js:19-20 | the prompts repeat every five days and two consecutive days never share one |
| Prompts.GetToday | backend/src/controllers/promptController.js:23-28 | `answered` holds exactly when an answer is stored for me and today; the answer is that one, or `''` when there is none |
| Prompts.AnswerToday | backend/src/controllers/promptController.js:30-40 | an absent or blank answer is a 400 that stores nothing. Otherwise the stored value is exactly the trim of the answer, non-empty, under (me, today), replacing any earlier one, and is the only change |
| Prompts.AnswerThenGet | backend/src/controllers/promptController.js:34-39 | after answering, today's prompt shows the answer as given and trimmed. A second answer replaces the first without adding a record |
| Prompts.AnswerIdempotent | backend/src/models/DailyPromptAnswer.js:12 | re-submitting the stored answer changes nothing |

## Left out

- Mongo natural order: query results follow the order of the store's sequences, and sorts on equal keys are modelled as stable. Mongo guarantees neither.
- Concurrency: only sequential executions are modelled. The index on a match's users is not unique, so two concurrent reciprocal likes could create two matches; that race is not modelled.
- Numbers are integers. `parseInt` of a non-numeric `page` or `limit` (NaN) is not modelled, and the query receives already parsed optional integers.
- Text.LowerChar, Text.ToLower: lower-case ASCII letters only, because JavaScript's full Unicode case mapping is not modelled.
- JWT signing, verification and bcrypt: token verification is an oracle from a token to its claims, and registration and login are not modelled beyond the schema rules in `CreateUser`.
- File uploads: the multer middleware and the best-effort file deletion after a photo removal are not modelled, because they only touch the disk.
- The AI controller: it calls an external service over the network.
- The frontend: it is presentation and client state.
- `updateMyProfile`, `submitQuestions` and `getQuestionOptions` are not modelled as handlers, because they only copy request fields into the store. Their parsing of comma lists and `toArray` is modelled.
- Prompts.PromptOfTheDay: the clock is a non-negative millisecond count. An instant before 1970 would make the JavaScript index negative and the prompt undefined.
- Request values other than strings (numbers, objects) for ids, message content and prompt answers are not modelled: these are optional strings. Neither is Mongoose's casting of such values, nor `trim()` throwing on a non-string socket payload.
- Message and answer timestamps other than `createdAt`, and the match's `createdAt`, are carried as given and not checked.
- Discovery.Discover: a candidate carries the whole user record, while the query's `select` (backend/src/controllers/userController.js:133) leaves out `email`, `liked` and `skipped` (the password is not part of the model at all). The fields the page contracts speak of are all inside that projection.
- Thrown handlers: the model reports that a handler throws but not what follows. With no async wrapper under Express 4 the request is left unanswered, and since the server installs no `unhandledRejection` listener the Node process may exit.
- Users whose `gender`, `intent` or `lookingFor` fall outside the schema's enums, which the profile update can also store, are not representable: these fields are enumerations here. Such a user's saves would throw as well. The password is not modelled, so its `required` check is taken as met.
- Matches.Populate: the population's field projection (`select`) is not modelled; whole user records are returned.
- Chat.Connect: a verified token without an `id` claim gives a connection with no user. The source would then compare members against the string "undefined"; the model treats such a connection as a member of nothing.
- Starters.GetStarters: the 500 "Failed to load starters" reply is not modelled. It needs an id that fails to cast, and ids here are always well-formed.
- `removeProfilePhoto` is not routed in the backend's routes, but its logic is modelled as written.
- Photos.RemovePhoto: the reply re-reads the stored user; the model returns the stored user directly.
