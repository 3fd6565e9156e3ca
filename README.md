# Secretary agent: Gmail events over Pub/Sub, in Dafny

This project models the core of a small service that watches Gmail mailboxes and reacts to new mail:

- **Pub/Sub listener** (`infrastructure/pubsub_listener.py`). It resolves its subscription from its arguments or the environment. For each message it decodes the payload, parses it as JSON if it can, hands it to a handler, and settles the message once. It nacks for transient handler errors and for failures before the handler; a settle call that itself raises is followed by a second nack attempt, which the model does not represent.
- **Legacy listener** (`pubsub_listener.py`). It uses the same resolver and an older settle policy: ack after decoding, and settle nothing on failure.
- **Email service** (`service/email_service.py`).
  - It resolves a Gmail message id from an event and fetches the message.
  - It flattens the message into a record. Headers are matched case-insensitively. The body is the first `text/plain` part and the first `text/html` part in depth-first pre-order. Every part with a filename becomes an attachment descriptor.
  - It fetches attachment data that is missing and passes the record to the database.
- **Gmail client** (`service/gmail_client.py`).
  - `list_history_since` pages through the history log and collects the ids of added messages as a set. It also tracks the largest history id, compared as strings.
  - `fetch_attachment` returns empty bytes for an empty response.
- **Gmail watch service** (`service/gmail_watch_service.py`).
  - Accounts are found by their token files in a directory.
  - A watch counts as expired when less than one day of it remains.
  - `setup_watch` registers a watch and records it in `<email>.state.json`.
  - The renewal sweep re-registers only the accounts that are due. A flag starts and stops background renewal.

Modules:

- `Common`: options, results, Python truthiness, ASCII lower-casing, Python's string order (proved to be a strict total order).
- `Subscription`: the resolver and the environment fallback. Both listener files contain this code verbatim.
- `PubSubListener` and `LegacyListener`: the two message callbacks.
- `EmailService`, `GmailClient` and `GmailWatch`.

How each kind of code is modelled:

- Pure decision logic becomes functions with lemmas.
- Loops in the source become methods. Each is proved against a specification function: the MIME walk, the attachment loop over an array, the history paging loop, and the token-directory scan and renewal sweeps.
- The watch service and its tokens directory are classes whose fields the methods update.
- Google APIs appear as data. Responses are maps. The calls a method makes are returned or recorded as a sequence of requests or effects.
- The codecs (base64, UTF-8, JSON) are function parameters that may fail.
- Time is a parameter, in integer milliseconds since the epoch.

## Model

| member | source | states |
|---|---|---|
| Common.StrLess | service/gmail_client.py:81 | Python string order: a proper prefix comes before the longer string, and a string that comes first is different from the other. |
| Common.StrLessExactly | service/gmail_client.py:81 | One string comes before another exactly when it is a proper prefix of it, or at the first position where they differ it has the smaller character. |
| Common.Lower | service/email_service.py:113 | Lower-casing keeps the length, lower-cases each character in place, and leaves no upper-case ASCII letter. |
| Common.LowerIdempotent | service/email_service.py:113 | Lower-casing a header name twice gives the same result as once. |
| Common.StrLessTotal | service/gmail_client.py:81 | Python string order is total: of two different strings, one is smaller. |
| Common.StrLessTransitive | service/gmail_client.py:81 | Python string order is transitive. |
| Common.StrLessIrreflexive | service/gmail_client.py:81 | No string is smaller than itself, so an equal history id never moves the watermark. |
| Common.StrLessAsymmetric | service/gmail_client.py:81 | Two strings are never each smaller than the other. |
| Subscription.ResolveSubscriptionPath | infrastructure/pubsub_listener.py:162-176 | A full "projects/" path is kept. A short name is qualified with the project. Otherwise project plus subscription id are combined. Every result starts with "projects/". The result is None exactly when there is no full path and no project paired with either name. |
| Subscription.ShortNameNeedsProject | pubsub_listener.py:104-112 | A short name without a project resolves to nothing, even when a subscription id is given. |
| Subscription.EffectiveArgs | infrastructure/pubsub_listener.py:27-31 | The three environment variables replace the arguments only when all three arguments are None. |
| Subscription.ConfigureListener | infrastructure/pubsub_listener.py:27-37 | Construction fails with ValueError exactly when the effective arguments resolve to nothing. Otherwise the kept path is exactly the resolver's result, and it starts with "projects/". |
| Subscription.EnvironmentIgnoredWhenArgsGiven | pubsub_listener.py:18-28 | Once any argument is given, the environment has no influence on the outcome. |
| Subscription.EmptyArgumentBlocksFallback | infrastructure/pubsub_listener.py:28-37 | An explicit empty subscription blocks the environment fallback, so construction fails. |
| PubSubListener.IsTransientError | infrastructure/pubsub_listener.py:122-146 | Transient means exactly: a timeout, a connection error, one of the four retryable api_core kinds, or an HttpError with status 429 or 500 and above. Everything else is terminal. |
| PubSubListener.DecodePayload | infrastructure/pubsub_listener.py:88 | Absent or empty data gives the empty string. Other data gives its UTF-8 decoding, which may fail. |
| PubSubListener.ParseOrRaw | infrastructure/pubsub_listener.py:92-97 | The payload is the parsed JSON, or the raw text when parsing fails. |
| PubSubListener.OnMessage | infrastructure/pubsub_listener.py:86-120 | The handler is called exactly when decoding succeeds and a handler exists, and it receives the parsed-or-raw payload. The message is nacked exactly when decoding failed or the handler raised a transient error. |
| PubSubListener.TerminalErrorIsAcked | infrastructure/pubsub_listener.py:104-111 | A handler that raises a terminal error gets its message acked. |
| PubSubListener.EmptyDataIsEmptyText | infrastructure/pubsub_listener.py:88-97 | A message without data reaches the handler as the raw text "" when "" does not parse. |
| LegacyListener.OnMessage | pubsub_listener.py:63-82 | The legacy listener acks exactly when the payload decodes. |
| LegacyListener.JsonDoesNotMatter | pubsub_listener.py:69-73 | The JSON parser has no influence on how the legacy listener settles. |
| LegacyListener.EmptyDataIsAcked | pubsub_listener.py:65 | A message with absent or empty data is always acked. |
| LegacyListener.DecodeFailureDiffers | pubsub_listener.py:79-82 | On a decoding failure the legacy listener leaves the message unsettled, where the newer listener nacks it. |
| EmailService.HeaderLastWins | service/email_service.py:113 | In the header map, the last header with a given lower-cased name supplies the value. |
| EmailService.HeaderMissing | service/email_service.py:113-119 | A header that is absent is looked up as "". |
| EmailService.HeaderLookup | service/email_service.py:113-119 | Looking a name up in the header map gives the value of the last header with that lower-cased name, or "" when there is none. |
| EmailService.HeaderMap | service/email_service.py:113 | The keys of the header map are exactly the lower-cased names of the headers present. |
| EmailService.HeaderMapKeysLower | service/email_service.py:113 | Every key of the header map is lower-case, so a lookup key containing an upper-case letter never matches. |
| EmailService.HeaderCaseInsensitive | service/email_service.py:113-115 | A header named in any case is found under "subject". |
| EmailService.Preorder | service/email_service.py:183-184 | The walk of a part starts with the part itself. |
| EmailService.PreorderAllAppend | service/email_service.py:183-184 | Walking one more sub-part appends that part's own walk. |
| EmailService.DecodeData | service/email_service.py:146-152 | Falsy input decodes to "". A decoding failure gives "". Otherwise the result is the decoded text. |
| EmailService.FirstBodyIsFirst | service/email_service.py:161-167 | In both directions: the body is "" exactly when no part offers one. Otherwise it is the candidate of the first part that offers one. |
| EmailService.FirstBodyAppend | service/email_service.py:164-167 | Once a body is chosen, later parts cannot replace it. |
| EmailService.KeepAppend | service/email_service.py:164-167 | Choosing a body over two runs of parts is the same as choosing over their concatenation. |
| EmailService.Descriptor | service/email_service.py:170-181 | A descriptor copies the filename. It carries data exactly when the part has inline data. |
| EmailService.DescriptorsAppend | service/email_service.py:172 | Attachments of consecutive parts are appended in order. |
| EmailService.DescriptorsFromFilenames | service/email_service.py:170-181 | Every attachment comes from a part that has a filename. |
| EmailService.FilenamesYieldDescriptors | service/email_service.py:170-181 | Every part with a filename yields an attachment. |
| EmailService.ParentBeforeChildren | service/email_service.py:170-184 | A parent's attachment comes before all attachments of its sub-parts. |
| EmailService.Walk | service/email_service.py:154-184 | The recursive walk over the three nonlocals leaves the pre-order first bodies and the pre-order attachments. |
| EmailService.Visit | service/email_service.py:157-181 | Visiting one part updates the bodies and attachments for that part alone. |
| EmailService.WalkStep | service/email_service.py:183-184 | The walk's state after two runs of parts equals the state after their concatenation. |
| EmailService.ParsePayload | service/email_service.py:140-190 | The result is the first text/plain body, the first text/html body and the attachments, taken over the pre-order of the payload. A missing payload gives nothing. |
| EmailService.EmptyPayload | service/email_service.py:187-190 | An absent or empty payload gives "", "" and no attachments. |
| EmailService.ExtractEmailDetails | service/email_service.py:109-138 | The ids and the snippet are copied (a missing snippet becomes ""). Subject, from, to, cc and bcc each come from the last header with that name in any case, or are "". The bodies and attachments are those of ParsePayload. |
| EmailService.ResolveMessageId | service/email_service.py:36-44 | The id is the first truthy of message_id, gmailMessageId, and message.id (the last only when message is a dict). An empty id counts as missing. |
| EmailService.Materialize | service/email_service.py:82-97 | Only the data of an attachment changes. Data already present is kept. Missing data is fetched when there is an attachment id and the client offers the call. Bytes are base64-encoded and text is kept. A failed fetch leaves the data absent. |
| EmailService.MaterializeAll | service/email_service.py:81 | Every attachment is materialised, in place and in order. |
| EmailService.AttachmentFetchesExactly | service/email_service.py:82-88 | A fetch call is made exactly for the attachments that lack data but have an attachment id, when the client offers the call. |
| EmailService.AttachmentFetchesStep | service/email_service.py:81-88 | The fetch calls grow by one attachment's calls per loop step. |
| EmailService.FetchOne | service/email_service.py:82-97 | One loop step gives the materialised attachment and its fetch calls. |
| EmailService.FetchMissingAttachments | service/email_service.py:79-97 | The loop over the attachment array leaves every attachment materialised. It makes exactly the fetch calls of the specification, in order. |
| EmailService.HandleEvent | service/email_service.py:24-107 | Without a message id or a client, nothing is called and None is returned. When the fetch fails, the result is None after one fetch call. Otherwise the result is the extracted record with its attachments materialised. The calls are the fetch, the attachment fetches, and the save when the database offers it. The record is returned even if the save raises. |
| GmailClient.EntryIdsExactly | service/gmail_client.py:83-87 | A message id is collected exactly when some entry adds a message with that truthy id. |
| GmailClient.ItemIdsExactly | service/gmail_client.py:83-87 | Within one entry, an id is collected exactly when some added item carries it. |
| GmailClient.WatermarkIsMaximum | service/gmail_client.py:79-82 | The watermark is never below the start id or any entry id in string order, and it is the start id or one of the entry ids. |
| GmailClient.EntryWithoutIdKeepsWatermark | service/gmail_client.py:80 | An entry without an id leaves the watermark unchanged. |
| GmailClient.LastPage | service/gmail_client.py:88-90 | Paging stops at the first page without a next-page token. |
| GmailClient.PageRequestsShape | service/gmail_client.py:71-76 | Every request carries the start id. The first request has no page token. Each later request carries the token of the page before it. |
| GmailClient.EntriesOfStep | service/gmail_client.py:78 | Reading one more page appends its entries. |
| GmailClient.EntriesOfEmpty | service/gmail_client.py:78 | Pages without history contribute no entries. |
| GmailClient.ListHistorySince | service/gmail_client.py:60-103 | It makes exactly the page requests up to the last page. It returns each collected message id once: exactly the ids added on those pages. It returns the largest history id in string order. |
| GmailClient.ReadPages | service/gmail_client.py:67-90 | The while-true loop reads exactly the pages up to the first one without a token, collecting ids and the watermark. |
| GmailClient.PageLoopExit | service/gmail_client.py:88-90 | The loop continues exactly while the current page is before the last one. |
| GmailClient.NoHistoryNoChange | service/gmail_client.py:63 | Without history there are no ids, and the watermark stays at the start id. |
| GmailClient.Step | service/gmail_client.py:80-82 | One history entry either leaves the watermark alone or moves it to that entry's id, which is strictly greater. The result is never below the old watermark or the entry's id. |
| GmailClient.ScanEntries | service/gmail_client.py:78-87 | Scanning a page's entries extends the collected ids and the watermark by those entries. |
| GmailClient.AddMessageIds | service/gmail_client.py:83-87 | The ids of one entry's added messages are added to the set. |
| GmailClient.ListOfSet | service/gmail_client.py:103 | The set is turned into a list of the same size, with the same members and no repeats. |
| GmailClient.FetchAttachment | service/gmail_client.py:54-58 | A response without data gives empty bytes. Otherwise the result is the base64url decoding of the data. |
| GmailClient.TwoPageScenario | service/gmail_client.py:60-103 | Two pages with ids 101 and 103, starting from 100, yield {M1, M2} and end at 103. |
| GmailClient.StringOrderIsNotNumeric | service/gmail_client.py:81 | Under string order, "10" does not raise a watermark of "9". |
| GmailWatch.ParseInt | service/gmail_watch_service.py:128 | Any parsed text ends in a digit. A string of digits parses to its decimal value. |
| GmailWatch.ShowNat | service/gmail_watch_service.py:128 | Decimal rendering is non-empty and all digits. |
| GmailWatch.ShowNatValue | service/gmail_watch_service.py:128 | The digits of a rendered number evaluate back to the number. |
| GmailWatch.ParseShowInt | service/gmail_watch_service.py:128 | Parsing the decimal rendering of any integer gives that integer back. |
| GmailWatch.StoredState | service/gmail_watch_service.py:58-69 | No state is read exactly when the account has no state file; otherwise it is that file's content (a document or unreadable). |
| GmailWatch.IsWatchExpired | service/gmail_watch_service.py:113-136 | The check raises exactly on a malformed document. A watch is still valid exactly when there is a usable deadline at least one day away. Everything else counts as expired: a missing or unreadable file, no expiration, or an unparsable one. |
| GmailWatch.ExpiryIsMonotone | service/gmail_watch_service.py:132 | A watch that is due stays due as time passes. |
| GmailWatch.SavedStateExpiry | service/gmail_watch_service.py:71-80 | A state file this service wrote never makes the check raise. It is valid exactly when its deadline is at least a day away. |
| GmailWatch.DecimalDeadline | service/gmail_watch_service.py:127-128 | A decimal expiration string reads back as the deadline it states. |
| GmailWatch.ExpiryScenario | service/gmail_watch_service.py:131-132 | With two hours left a watch is expired. With thirty hours left it is not. |
| GmailWatch.Stem | service/gmail_watch_service.py:40 | The stem plus ".json" is the file name. |
| GmailWatch.AccountsOfStep | service/gmail_watch_service.py:37-42 | One more listed file adds its stem exactly when it is a token file. |
| GmailWatch.AccountsOfComplete | service/gmail_watch_service.py:37-42 | Every token file yields its account. |
| GmailWatch.AccountsOfSound | service/gmail_watch_service.py:37-42 | Every account comes from a token file. |
| GmailWatch.AccountsOfExactly | service/gmail_watch_service.py:37-42 | An account is listed exactly when some file is its token file. |
| GmailWatch.StemInjective | service/gmail_watch_service.py:40 | Two token files with the same stem are the same file. |
| GmailWatch.AccountsDistinct | service/gmail_watch_service.py:37-43 | A listing of distinct names yields distinct accounts. |
| GmailWatch.StateFilesAreNotAccounts | service/gmail_watch_service.py:38 | A state file added to the directory never appears as an account. |
| GmailWatch.ResolveServiceConfig | service/gmail_watch_service.py:21-29 | A falsy argument falls back to GCP_PROJECT_ID or PUBSUB_TOPIC_NAME. Construction fails exactly when either value is still empty. |
| GmailWatch.TopicPath | service/gmail_watch_service.py:97 | The topic path starts with "projects/". |
| GmailWatch.DueAccountsStep | service/gmail_watch_service.py:142-144 | Each account is added to the due list exactly when it is due. |
| GmailWatch.DueAccountsExactly | service/gmail_watch_service.py:142-144 | An account is renewed exactly when it is listed and due. A malformed state file keeps its account out. |
| GmailWatch.NewGmailWatchService | service/gmail_watch_service.py:21-29 | The constructor fails exactly when the configuration does not resolve. Otherwise it keeps the resolved configuration and starts with no renewal thread and no calls. |
| GmailWatch.GmailWatchService.AccountsAreTokenFiles | service/gmail_watch_service.py:31-43 | The accounts are distinct. They are exactly the stems of the token files in an existing directory. |
| GmailWatch.GmailWatchService.GetAllUserEmails | service/gmail_watch_service.py:31-43 | One scan of the directory returns the accounts in listing order. A missing directory gives none. |
| GmailWatch.GmailWatchService.WatchRequestFor | service/gmail_watch_service.py:96-100 | The watch request is for the account. It names this service's topic `projects/<project>/topics/<topic>` and includes only the INBOX label. |
| GmailWatch.GmailWatchService.SavedState | service/gmail_watch_service.py:71-80 | The saved record holds the email, project, topic and response. lastRenewed is the current time in whole seconds. |
| GmailWatch.GmailWatchService.SetupRequestsAllExactly | service/gmail_watch_service.py:88-102 | Across a sweep, a watch call is made for an account exactly when it is in the sweep and its credentials load. |
| GmailWatch.GmailWatchService.SetupStatesAllExactly | service/gmail_watch_service.py:88-103 | After a sweep, an account's state file is rewritten exactly when it was set up successfully and the file could be opened. It holds the fresh record, or is truncated when the dump failed. Every other file is unchanged. |
| GmailWatch.GmailWatchService.SaveWatchState | service/gmail_watch_service.py:71-86 | When the file cannot be opened nothing changes. When the dump fails after opening, the file is left truncated. Otherwise the record is written. |
| GmailWatch.GmailWatchService.SaveOutcomeExpiry | service/gmail_watch_service.py:58-117 | After a successful setup, a truncated state file makes the account due again at once. A completed save is due exactly when its deadline is less than a day away. |
| GmailWatch.GmailWatchService.SetupWatch | service/gmail_watch_service.py:88-111 | Without credentials, it returns false and makes no call. Otherwise it sends the request. It reports success exactly when the call returns, and on success it saves the response. |
| GmailWatch.GmailWatchService.RenewWatchForAllUsers | service/gmail_watch_service.py:138-155 | Exactly the listed accounts that are due are set up, in order. An account whose check raises is skipped. |
| GmailWatch.GmailWatchService.RenewOne | service/gmail_watch_service.py:143-152 | One account is set up exactly when it is due. |
| GmailWatch.GmailWatchService.NotYetRenewed | service/gmail_watch_service.py:142-144 | During the sweep, the next account's state file is still the one from before the sweep. |
| GmailWatch.GmailWatchService.RenewStep | service/gmail_watch_service.py:142-146 | One step of the sweep adds that account's setup exactly when it is due. |
| GmailWatch.GmailWatchService.SweepExtends | service/gmail_watch_service.py:146 | Adding an account to a sweep appends its calls and its state update. |
| GmailWatch.GmailWatchService.SetupAllStep | service/gmail_watch_service.py:198-199 | One step of setup_all_watches appends that account's calls and state update. |
| GmailWatch.GmailWatchService.SetupAllWatches | service/gmail_watch_service.py:193-201 | There is one result per account, and each is that account's setup outcome. Every account is set up, in order. |
| GmailWatch.GmailWatchService.StartAutomaticRenewal | service/gmail_watch_service.py:157-183 | While the thread is alive it changes nothing. Otherwise it clears the stop flag and starts the thread. |
| GmailWatch.GmailWatchService.StopAutomaticRenewal | service/gmail_watch_service.py:185-191 | It sets the stop flag. The thread counts as gone only if it ends within the join timeout. |

## Left out

- The streaming pull, its flow-control settings, the listener threads and `start`/`stop` of both listeners, because they are concurrency and I/O. The renewal thread's loop and sleeps are left out too; only its stop flag and whether it is alive are modelled.
- Loading credentials (`_load_credentials`, `load_credentials`), because it is file and network I/O. A token file that loads is modelled as membership in a set of accounts.
- The Google API clients (`fetch_message`, `history.list`, `attachments.get`, `users().watch`). Their responses are data given to the model, and their calls are recorded as effects or requests.
- base64, UTF-8 decoding and `json.loads`/`json.dump`. They are parameters that may fail, not implementations.
- Logging, including the email preview built only for the log in `handle_event`, because it has no effect on results.
- `db_service`, beyond whether `save_email` exists. A save that raises is swallowed, so only the call is recorded.
- PubSubListener.OnMessage: an ack or nack that raises is followed by a second nack attempt (infrastructure/pubsub_listener.py:114-118), and only a failure of that nack is just logged. The model settles exactly once and does not represent settle calls that raise.
- PubSubListener.Json: numbers are integers only. Floats, NaN and Infinity, which `json.loads` accepts, are not represented.
- PubSubListener.IsTransientError: an HttpError whose status cannot be read is modelled as an absent status. The `getattr` fallbacks in the source are not modelled.
- GmailWatch.IsWatchExpired: time is integer milliseconds rather than float seconds, so the check is `deadline - now < 86400000` in integer arithmetic. A float or boolean `expiration` counts as one that `int()` rejects. An expiration of about 309 or more digits makes `int(expiration) / 1000` raise OverflowError in the source, which its `except` does not catch, while the model returns a verdict. A JSON integer beyond Python's 4300-digit conversion limit makes `get_watch_state` return None in the source, so Expired, which the model does not represent.
- GmailWatch.ParseInt: it accepts only an optional sign and ASCII digits. Python's `int` also accepts surrounding whitespace, underscores between digits, and non-ASCII digits.
- GmailWatch.GmailWatchService.SaveWatchState: writing a state file does not add it to the directory listing. StateFilesAreNotAccounts shows that doing so would not change the accounts.
- GmailWatch.GmailWatchService.GetAllUserEmails: `glob` is modelled as a listing of distinct names. Matching directories and hidden files is not modelled.
- GmailClient.ListHistorySince: it requires some page without a next-page token. With an endless stream of tokens the source never returns.
- GmailClient.ListHistorySince: the order of the returned list is left open, as Python's set iteration order is. History ids are strings, already passed through `str`.
- Common.Lower: it lower-cases ASCII letters only, where Python's `str.lower` handles all of Unicode.
- EmailService.HandleEvent: ids are strings in the model. A truthy non-string id such as `{"message_id": 42}` is passed on to `fetch_message` and `fetch_attachment` in the source, and the model cannot represent it. `attributes` feeds only the log and is left out. The `hasattr` checks are booleans of the client and the database.
- EmailService.ExtractEmailDetails: an absent key and a JSON `null` are both `None` in the model. In the source, a header whose name is `null` makes `.lower()` raise AttributeError, and that escapes `handle_event` because the extraction is outside any `try`. A header value of `null` and a `null` snippet stay None in the source. The model treats all three as "".
- GmailWatch.GmailWatchService.RenewWatchForAllUsers: one `nowMs` stands for every `time.time()` call in a sweep. The source reads the clock again for each account's expiry check and each save. DueAccountsExactly relies on this fixed clock.
- GmailClient.ListHistorySince: a `history.list` request that raises partway through paging is not modelled. The source lets the exception escape and returns nothing, while the model always returns.
- PubSubListener.IsTransientError: the model assumes both optional imports (`google.api_core` and `googleapiclient`) succeed. Without them, no api_core error or HttpError would ever be transient.
