# Admin conversation handlers of a Telegram bot, in Dafny

This project models the part of the bot that turns a user's next message into
an action: the registry of pending intents (`response_data`), the ten
`bot.on('message')` handlers that each answer one intent tag, the support-query
relay with its cap of one outstanding query per user (`pendingQueries`,
`MAX_PENDING_QUERIES`), and the helpers they use. The helpers are `formatText`,
the channel-id, privilege and social-link checks, and `functions.js`:
the TTL cache, `paginate`, `getCombinedAdmins` and `escapeHtml`.

Layout:

- `common.dfy` (`Common`): the `Option` datatype.
- `strings.dfy` (`Strings`): the JavaScript string operations the handlers use.
  These are `trim` (the ECMAScript white-space and line-terminator set), `split`
  and `join` on one character, `includes`, a sign-and-digits number parse and
  `String(n)` for integers.
- `functions.dfy` (`Functions`): `functions.js`. The cache is a class whose
  `localCache` map the `Get` method updates. `Get` is proved equal to the pure
  `CacheGet`, and the cache lemmas are stated on `CacheGet`. `Paginate` is a
  method with the source's loop.
- `validators.dfy` (`Validators`): the balance bound, the channel-id test as an
  explicit scan, the privilege and error classifications, the social split, and
  `formatText` as an explicit lazy, single-line scan.
- `intents.dfy` (`Intents`): the intent registry, the handler tags in
  registration order, and the store records (users, tasks, stored admins,
  channels, social links).
- `dispatch.dfy` (`Dispatch`): each handler as a pure step
  `(state, sender, text, environment) -> (state', Handled(reply) | PassThrough)`.
  It also holds the chain that tries the handlers in order, the Cancel/Back
  buttons taken before the chain, and the properties of each branch.
- `handlers.dfy` (`Handlers`): the class `ResponseHandlers`. Its fields
  `responseData`, `pendingQueries` and `db` are updated step by step by one
  method per handler. Each method is proved equal to its step in `Dispatch`, so
  the lemmas there hold for the object. `FanOut` is the admin fan-out loop.

A message's text is `Option<string>`, where `None` means a message without
text (a photo, a sticker). The outside world is passed in as parameters:

- the clock, as `now`;
- the query id that `generateQueryId` would draw;
- the set of chats whose `sendMessage` fails;
- getChatMember's answer, or the error it throws.

The balance reset at `response_handlers.js:93-95` filters on a field literally
named `targetUserId`, so it matches no user. On a non-numeric balance the `$inc`
at `:99` therefore fails. The model reports `BalanceUpdateFailed` for that case
and leaves the balance unchanged. By then the intent has already been cleared
(`:97`). A balance that is missing altogether is created by the `$inc`, starting
from 0.

## Model

| member | source | states |
|---|---|---|
| Strings.Trim | response_handlers.js:54 | the result is an infix of the input with no white space at either end, and only white space was removed around it |
| Strings.TrimKeepsUnpadded | response_handlers.js:54 | `trim` leaves unchanged a text with no white space at either end |
| Strings.Split | functions.js:55 | splitting on one character gives at least one part, no part holds the separator, and joining the parts with it gives the input back |
| Strings.SplitJoin | response_handlers.js:436-437 | splitting a join of separator-free parts gives back exactly those parts |
| Strings.Includes | response_handlers.js:336 | `includes` on a string is true exactly when the needle occurs at some position |
| Strings.ParseInteger | response_handlers.js:55-58 | a number is read exactly when the text is digits, optionally after one sign |
| Strings.DigitsValue | response_handlers.js:55-58 | the value of `k` decimal digits is below `10^k` |
| Strings.DigitsValueFirst | response_handlers.js:55-58 | positional notation: the first of `k + 1` digits counts `10^k` times, added to the value of the rest |
| Strings.DigitsValueLeadingZero | response_handlers.js:55-58 | a leading `0` does not change the value of a run of digits |
| Strings.ParseIntegerSign | response_handlers.js:55-58 | an unsigned run of digits reads as its digit value, a `+` sign leaves it as it is and a `-` sign negates it |
| Strings.ParseIntegerLeadingZero | response_handlers.js:55-58 | text with a leading zero reads as the same number as without it (`"007"` is 7) |
| Strings.IntToStringParses | functions.js:57 | `String(n)` of an integer id reads back as the same integer |
| Functions.Live | functions.js:10 | an entry is stale exactly when its expiry is present, non-zero and not after `now` |
| Functions.Stored | functions.js:15 | a fetched value is stored with expiry `now + ttl` when `ttl > 0`, and with no expiry otherwise |
| Functions.CacheGet | functions.js:7-17 | other keys are untouched; a hit happens exactly when the key holds an entry without expiry, with a zero expiry or with an expiry after `now`; a rejection happens exactly on a miss whose fetch fails |
| Functions.CacheHitServesStored | functions.js:9-12 | a live entry is returned without calling fetch, and the map is unchanged |
| Functions.CacheMissStoresFetched | functions.js:13-16 | on a miss the fetched value is returned and stored with the ttl-derived expiry |
| Functions.CacheFailureStoresNothing | functions.js:13-14 | on a miss whose fetch fails nothing is stored for the key, and an expired entry stays evicted |
| Functions.CacheServesUntilExpiry | functions.js:10-15 | a value fetched at `t` with `ttl > 0` is served by every call before `t + ttl`, whatever a new fetch would give, and by none from then on |
| Functions.CacheWithoutTtlNeverExpires | functions.js:10-15 | a value fetched with `ttl <= 0` is served by every later call |
| Functions.Cache.constructor | functions.js:6 | the cache starts as the empty map |
| Functions.Cache.Get | functions.js:7-17 | the new `localCache` and the answer are exactly those of `CacheGet` on the old map |
| Functions.Paginate | functions.js:19-27 | a non-array or an empty array gives `[]`; otherwise the first row is `[arr[0]]`, row k is `arr[2k-1 .. 2k+1)`, there are `1 + n/2` rows, every middle row has two elements, for n > 1 the last row has one element exactly when n is even, and the rows concatenate to `arr` |
| Functions.StringsOf | functions.js:57 | a string is in the set exactly when it is `String` of some list element |
| Functions.DbAdmins | functions.js:53-55 | a comma-delimited stored value reads as its comma-split parts, untrimmed; shapes other than an array or a string read as `[]` |
| Functions.CombinedAdmins | functions.js:47-62 | a storage error gives the empty set, configured admins included; otherwise the set is the configured admins' strings united with the stored array's strings, with the comma-split parts, or with nothing |
| Functions.EscapeChar | functions.js:65-74 | characters other than the five specials are copied; a special becomes an entity beginning with `&` |
| Functions.EscapeHtml | functions.js:64-75 | the output holds no `<`, `>`, `"` or `'` and is at least as long as the input |
| Functions.EscapeHtmlDefault | functions.js:64 | the default argument gives the empty string |
| Functions.EscapeHtmlAppend | functions.js:65 | escaping distributes over concatenation (it works character by character) |
| Functions.EscapeHtmlPlain | functions.js:65-74 | a text without special characters is returned unchanged |
| Functions.EntityAtEscaped | functions.js:67-71 | each entity produced is recognised as exactly its character, and a copied character is not taken for an entity |
| Functions.EscapeHtmlRoundTrip | functions.js:64-75 | decoding the five entities in the escaped text gives back the input, so each special maps to its own entity and nothing is lost |
| Validators.AmountInRange | response_handlers.js:88 | the `Math.abs` bound accepts exactly the amounts from -1,000,000,000 to 1,000,000,000 |
| Validators.IsChannelId | response_handlers.js:370 | the scan accepts exactly 14-character strings that start with `-100` and go on with ten ASCII digits |
| Validators.ChannelIdOfDigits | response_handlers.js:370 | `-100` followed by any ten digits is accepted |
| Validators.CheckPrivilege | response_handlers.js:380-390 | not-admin exactly when the status is neither administrator nor creator; privileged exactly when it is one of them and can change info; otherwise the missing right listed is 'Change Channel Info' |
| Validators.ClassifyError | response_handlers.js:412-421 | a 400 response code gives the API error with its description; otherwise error code 403 gives not-in-channel; anything else is internal |
| Validators.SplitSocial | response_handlers.js:436-437 | the label holds no `-`; when the text has a `-`, label, `-` and url give back the text; otherwise the url is empty |
| Validators.SocialRoundTrip | response_handlers.js:436-437 | a label without `-` joined to any url by `-` splits back into that label and url |
| Validators.ValidSocial | response_handlers.js:439 | a pair is accepted exactly when the label is non-empty and the url starts with `https://` or `http://`; the separate empty-url test adds nothing |
| Validators.FindCloseSpec | response_handlers.js:242-244 | the lazy `(.*?)` stops at the first delimiter before the end of the line, and finds none when no delimiter starts before the line ends |
| Validators.FindCloseScan | response_handlers.js:242-244 | a delimiter with no line break and no other delimiter before it is where the lazy match stops |
| Validators.FindCloseNoneAt | response_handlers.js:242-244 | a line that ends before any delimiter starts gives no match |
| Validators.Substitute | response_handlers.js:242-244 | a pass never shortens the text when the tags are at least as long as the delimiters they replace |
| Validators.FormatText | response_handlers.js:240-245 | the three passes never shorten the input |
| Validators.SubstituteWithoutDelimiter | response_handlers.js:241-244 | a text in which the delimiter never occurs is left unchanged by a substitution pass |
| Validators.FormatTextPlain | response_handlers.js:240-245 | an input with none of `*`, `_`, `` ` `` comes back unchanged |
| Validators.SubstituteClosed | response_handlers.js:242-244 | a delimiter at the front whose partner comes before any line break or other delimiter becomes open tag, the text between, close tag, and the scan resumes after the partner |
| Validators.SubstitutePair | response_handlers.js:242-244 | a delimiter, a text without line break or delimiter, and a delimiter become open tag, text, close tag, and the scan resumes after the closing delimiter (lazy matching) |
| Validators.SubstituteUnclosed | response_handlers.js:242-244 | a delimiter at the front that no span closes is copied, and the scan resumes on the next character |
| Validators.SubstituteUnclosedOnLine | response_handlers.js:242-243 | for a one-character delimiter: one with no partner before the end of its line is copied as it is (matches never span lines); for the two-character delimiter the same follows from `FindCloseSpec` and `SubstituteUnclosed` |
| Intents.ChainTagsDistinct | response_handlers.js:50-430 | the ten handler tags are pairwise distinct |
| Intents.CreateResponse | response_handlers.js:13-15 | the user's entry becomes exactly `{target, payload, back_command}`, and no other user's entry changes |
| Intents.DeleteResponse | response_handlers.js:17-19 | the user's entry is gone, and no other user's entry changes |
| Intents.CreateOverwrites | response_handlers.js:14 | a second create replaces the first intent entirely |
| Intents.SetField | response_handlers.js:211-215 | `$set` of one field: that field holds the new value and the other two keep theirs |
| Intents.IncBalance | response_handlers.js:99 | `$inc` fails exactly on a non-numeric balance; otherwise the new balance is the old one, or 0 when missing, plus the amount |
| Intents.DeleteIdempotent | response_handlers.js:18 | deleting a missing entry changes nothing, and deleting twice equals deleting once |
| Dispatch.AdminUserIdStep | response_handlers.js:49-65 | another tag, no intent, a message without text or an empty text passes through unchanged; the registry is the only thing it may change, and only by clearing the sender's entry |
| Dispatch.AdminUserIdKeepsUntilFound | response_handlers.js:54-61 | an unparsable id or an unknown user keeps the intent with nothing changed; a known user clears it and opens that user's settings |
| Dispatch.BalanceStep | response_handlers.js:69-120 | another tag passes through unchanged; only the registry and the users collection can change; the registry changes at most by clearing the sender's entry |
| Dispatch.BalanceRejectsBadAmount | response_handlers.js:85-91 | a non-numeric amount, or one with absolute value above 1,000,000,000, is refused with intent and balances unchanged |
| Dispatch.BalanceAddsExactly | response_handlers.js:93-99 | an accepted amount clears the intent and adds exactly the amount to the target's balance (a missing balance counts as 0); no other user changes; a non-numeric balance makes the update fail with the store unchanged |
| Dispatch.BalanceMissingTarget | response_handlers.js:73-83 | a missing or zero target id, or a target not in the store, clears the intent and changes nothing else |
| Dispatch.FirstUnreachable | response_handlers.js:149-159 | the count of admins reached: every admin before it can be reached, and the admin at it cannot |
| Dispatch.SupportStep | response_handlers.js:131-163 | another tag passes through unchanged; the store never changes; the registry changes at most by clearing the sender's entry |
| Dispatch.SupportAdmitsBelowCap | response_handlers.js:136-161 | the intent is always cleared; at the cap the outstanding queries are unchanged and no admin is messaged; below it the new id joins the sender's set whatever the fan-out does, the escaped text is sent, and the admins reached are a prefix of the list that stops exactly at the first failed send |
| Dispatch.SupportKeepsBound | response_handlers.js:126-146 | the support handler never takes a user past `MAX_PENDING_QUERIES` |
| Dispatch.ReplyStep | response_handlers.js:165-196 | another tag passes through unchanged; the store never changes; the registry changes at most by clearing the sender's entry |
| Dispatch.Resolve | response_handlers.js:185-189 | other users' sets are untouched; answering id q leaves the user's set minus q while that is non-empty and drops the entry once it is empty; a remaining set is a non-empty subset of the old one; a query that is not outstanding changes nothing |
| Dispatch.ReplyFailureKeepsQueries | response_handlers.js:173-194 | an answer without a user id, or to a user who cannot be reached, clears the intent and leaves every outstanding query |
| Dispatch.ReplyResolvesOnDelivery | response_handlers.js:173-189 | a delivered answer clears the intent and is the escaped text; the user's set becomes the old set minus the query id, the entry is dropped exactly when that is empty, and no other user's set changes |
| Dispatch.ReplyUnknownQueryIsNoop | response_handlers.js:185-189 | answering a query that is not outstanding delivers the answer and changes no outstanding set |
| Dispatch.ReplyKeepsBound | response_handlers.js:185-189 | the reply handler keeps every set within the cap and never leaves an empty one |
| Dispatch.EditTaskStep | response_handlers.js:200-322 | another tag passes through unchanged; the outstanding queries never change; the registry changes at most by clearing the sender's entry |
| Dispatch.EditTaskSetsOneField | response_handlers.js:200-322 | the intent is cleared before anything else; a missing task reports not-found with everything else unchanged; otherwise the result is the cleared state with only the named field of that task set (the message text after `formatText`), nothing else in the store or queries changed |
| Dispatch.EditTaskWithoutText | response_handlers.js:200-322 | a message without text still clears the intent; the message-text handler then reports an error with the store unchanged, while the name and media-url handlers set their field to null |
| Dispatch.StoredIncludes | response_handlers.js:336 | only an array or a string can contain the id; an array when the id is one of its elements, a string when the id occurs anywhere in it as a substring |
| Dispatch.AddToSet | response_handlers.js:344-348 | on an array an id already present leaves the array as it is and a new id is appended once; an absent field becomes `[id]`; any other shape makes the write fail |
| Dispatch.AddAdminStep | response_handlers.js:327-358 | another tag passes through unchanged; the outstanding queries never change; the registry changes at most by clearing the sender's entry |
| Dispatch.AddAdminIsSetUnion | response_handlers.js:330-348 | the intent is cleared before the id is checked; an added id was not configured and now is the one new element of the stored list; every other outcome leaves the store unchanged; a configured id is refused |
| Dispatch.AddAdminRefusesStored | response_handlers.js:336-341 | an id already in the stored array is refused as already an admin, with only the intent cleared |
| Dispatch.AddAdminAddsFresh | response_handlers.js:334-351 | an id neither configured nor stored is added: appended once to the stored array, or as the only element when the field is absent, with the intent cleared |
| Dispatch.AddAdminCsvMatchesFragment | response_handlers.js:336 | on a comma-delimited stored value, `234` is refused as already an admin because `12345,678` contains it |
| Dispatch.ChannelStep | response_handlers.js:362-422 | another tag passes through unchanged; the outstanding queries never change; the registry changes at most by clearing the sender's entry |
| Dispatch.ChannelOnlySuccessRegisters | response_handlers.js:368-411 | a badly formed id, a bot that is not admin, or a bot lacking 'Change Channel Info' keeps intent and store; a well-formed id with a privileged bot is appended, duplicates allowed, with the intent cleared; no other path changes the state |
| Dispatch.SocialStep | response_handlers.js:427-448 | another tag passes through unchanged; the outstanding queries never change; the registry changes at most by clearing the sender's entry |
| Dispatch.SocialSplitsAtFirstDash | response_handlers.js:435-447 | a text whose split at the first `-` gives a non-empty label and an http(s) url is accepted: the link is appended and the intent cleared; any other text is refused with intent and store unchanged; an accepted label holds no `-`, and label `-` url equals the message |
| Dispatch.RunHandler | response_handlers.js:49-448 | the handler at position i passes through unchanged unless the sender awaits its tag, and changes the registry at most by clearing the sender's entry |
| Dispatch.RunHandlerKeepsBound | response_handlers.js:125-196 | no single handler takes a user past the cap or leaves an empty set of outstanding queries |
| Dispatch.DispatchFrom | response_handlers.js:49-448 | a message that passes through every remaining handler leaves the state unchanged |
| Dispatch.DispatchFromSelects | response_handlers.js:50-433 | from any position, the chain's result is that of the one handler whose tag the sender awaits, or a pass-through when there is none |
| Dispatch.DispatchMessage | response_handlers.js:49-448 | a message that every handler passes on leaves the state unchanged |
| Dispatch.DispatchSelects | response_handlers.js:50-433 | no intent, or a target no handler answers to, passes through unchanged; otherwise exactly the handler with that tag decides the result |
| Dispatch.DispatchTouchesOnlySender | response_handlers.js:13-448 | a message changes the registry at most by clearing the sender's own entry |
| Dispatch.DispatchKeepsPendingBounded | response_handlers.js:125-196 | no message takes a user past the cap or leaves an empty set of outstanding queries |
| Dispatch.Receive | response_handlers.js:27-45 | a message that no one consumes leaves the state unchanged |
| Dispatch.ReceiveDispatchesOtherText | response_handlers.js:27-49 | any message other than Cancel or Back, a missing text included, has exactly the effect of the handler chain |
| Dispatch.ButtonsDismiss | response_handlers.js:27-45 | Cancel and Back clear the sender's intent whatever it awaited and reach no handler; queries, store and other users' intents stay |
| Dispatch.ReceiveKeepsPendingBounded | response_handlers.js:27-196 | receiving any message keeps the outstanding-query cap |
| Handlers.FanOut | response_handlers.js:150-159 | the admins messaged are exactly those before the first failed send, and the fan-out completes exactly when all were messaged |
| Handlers.ResponseHandlers.constructor | response_handlers.js:11-126 | both maps start empty, which satisfies the query cap |
| Handlers.ResponseHandlers.CreateResponse | response_handlers.js:13-15 | `response_data` becomes `CreateResponse` of its old value, and queries and store stay |
| Handlers.ResponseHandlers.DeleteResponse | response_handlers.js:17-19 | `response_data` becomes `DeleteResponse` of its old value, and queries and store stay |
| Handlers.ResponseHandlers.HandleAdminUserId | response_handlers.js:49-65 | the new fields and the result are those of `AdminUserIdStep` on the old fields |
| Handlers.ResponseHandlers.HandleBalance | response_handlers.js:69-120 | the new fields and the result are those of `BalanceStep` on the old fields |
| Handlers.ResponseHandlers.HandleSupport | response_handlers.js:131-163 | the new fields and the result are those of `SupportStep`, with the admins messaged by `FanOut`, and the query cap is kept |
| Handlers.ResponseHandlers.HandleReply | response_handlers.js:165-196 | the new fields and the result are those of `ReplyStep`, with the user's set updated in place, and the query cap is kept |
| Handlers.ResponseHandlers.HandleEditTask | response_handlers.js:200-322 | the new fields and the result are those of `EditTaskStep` for the given tag and field |
| Handlers.ResponseHandlers.HandleAddAdmin | response_handlers.js:327-358 | the new fields and the result are those of `AddAdminStep` on the old fields |
| Handlers.ResponseHandlers.HandleChannel | response_handlers.js:362-422 | the new fields and the result are those of `ChannelStep` on the old fields |
| Handlers.ResponseHandlers.HandleSocial | response_handlers.js:427-448 | the new fields and the result are those of `SocialStep` on the old fields |
| Handlers.ResponseHandlers.Handle | response_handlers.js:49-448 | running the i-th registered handler has the effect of `RunHandler` i, and the query cap is kept |
| Handlers.ResponseHandlers.OnMessage | response_handlers.js:27-448 | one inbound message has the effect of `Receive` on the old fields, and the query cap is kept |

## Left out

- Telegram transport: `replyWithHTML`, `reply`, `deleteMessage` and the menu builders of `layout` are not modelled. Replies to the sender are assumed to be delivered, and the outcome datatype `Reply` stands for what they say. Of the sends, only `sendMessage` to admins and users can fail, through the `unreachable` parameter.
- Storage: each MongoDB call is a pure update of maps and sequences. Reads and writes are assumed to succeed except where the shape of the stored value makes them fail: `$inc` on a non-numeric balance, `$addToSet` on a non-array, and `includes` on a value that has none. `getCombinedAdmins` models a read error as its own input.
- Strings.ParseInteger: JavaScript's `Number`, `parseInt` and `parseFloat` are replaced by a parse of an optional sign and decimal digits. Decimals, exponents, hexadecimal, `Infinity` and the empty-or-blank-text-is-zero coercion are not modelled, and amounts and user ids are integers. The model reads them as unbounded integers, whereas `Number` is an IEEE double that loses precision above 2^53; amounts are capped at 10^9 and Telegram user ids stay below 2^53, so no input the bot sees is affected.
- Functions.ToStr: `String` of a number is modelled for integers only; floating-point and exponent formatting are not modelled.
- The balance reset at `response_handlers.js:93-95` is not modelled as a write, because it filters on a field no user document has.
- `generateQueryId` (`Math.random`) and `Date.now` are parameters of the model.
- `isValidUrl`, `getAdminStatus`, `isBotAdminInChannel` and `isUserAdminInChannel` (`functions.js:31-44`, `79-87`) are not modelled. The first depends on the WHATWG URL parser, and the others are network wrappers that no handler of the core calls.
- The `bot.action` Back handler (`response_handlers.js:32-37`) only deletes a message and shows a menu, and changes no state, so it is not modelled.
- The middlewares `check_user`, `check_status` and `authAdmin` on the Cancel and Back buttons are assumed to let the message through. The `!ctx.from` test (`response_handlers.js:365`) is omitted because every message the chain sees has a sender.
- Concurrency: each handler runs atomically, so interleavings of the awaits between two messages are not modelled.
- The model's `pendingQueries` holds sets by value, so aliasing between the Map's Sets is not modelled. The reply handler's `user_id` is assumed to have the same type as the sender ids used as keys by the support handler.
- Dispatch.SupportStep: the query text is escaped with the `""` default when the message has no text. The sender's name and username, and the exact HTML of the forwarded messages, are not modelled.
- Validators.Substitute: its own contract states only the length bound. What each span becomes is stated by `FindCloseSpec`, `SubstituteClosed`, `SubstitutePair`, `SubstituteUnclosed` and `SubstituteWithoutDelimiter`, not as one closed characterization of a whole pass.
- Validators.FormatText: its own contract states only the length bound. `FormatTextPlain` covers text without markup characters, and the lemmas of each pass cover the rest.
