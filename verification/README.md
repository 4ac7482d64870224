# Early-access pipeline: classifier, batch driver and Telegram relay

A Dafny model of the two pieces of the early-access pipeline that hold the
logic.

- **The processor** (`early-access-processor.js`):
  - the keyword heuristics that classify a sign-up's challenge text: type,
    priority, effort, tools and the ROI sentence;
  - the read-modify-write append of a `delivery` notification to the
    notification queue (one JSON document per line);
  - `processQueue`, one cycle of the driver. It takes at most three pending
    sign-ups in file order, runs the stages for each inside its own
    `try`, marks the ones that complete `contacted`, records their
    solutions by sign-up id, and saves both stores.
- **The relay** (`early-access-telegram-hook.js`):
  - the `watchFile` callback, which re-reads the whole notification queue
    and appends one `pending` entry to the pending file for every line
    whose `sent` is missing or falsy;
  - `sendToTelegramQueue`, which appends one such entry;
  - the pending-line count reported by the status route.

Files and modules:

| file | module | what it holds |
|---|---|---|
| `options.dfy` | `Options` | `Option` |
| `text.dfy` | `Text` | the JavaScript string operations the code relies on: `toLowerCase`, `includes`, `trim`, `split`/`join` on one character, the two `filter` idioms, digits, `parseInt` and number printing |
| `classifier.dfy` | `Classifier` | `detectType`, `calculatePriority`, `estimateEffort`, `detectTools`, `estimateROI`, the template dispatch of `generateCode`, `analyzeChallenge` |
| `queue_format.dfy` | `QueueFormat` | the queue record and the abstraction of `JSON.parse` / `JSON.stringify` |
| `producer.dfy` | `Producer` | the queue append inside `notifyTelegram` |
| `relay.dfy` | `Relay` | the callback, `sendToTelegramQueue`, the status count, and a corrected callback |
| `batch.dfy` | `Batch` | `processQueue` |

The model makes these modelling choices:

- **Effects become values.** A file is an `Option<string>`, where `None`
  means the file is absent. A write that may fail takes a `writeOk` flag.
  The relay reads its clock and write outcomes from an environment indexed
  by attempt number. The stages of one sign-up (analysis, writing the
  automation file, delivery) are an oracle. For each position in the store
  the oracle says whether the stages threw, or completed with a given
  solution id and delivery time.
- **JSON is a codec.** `Codec(parse, show)` stands for one line's
  `JSON.parse`, where `None` means it throws, and `JSON.stringify`.
  `Lawful(codec)` states three laws:
  - parsing what was shown gives back the value;
  - a shown value is one line and is not blank;
  - a blank string does not parse.

  These are the properties of `JSON.stringify` the queue depends on.
- **Case folding and white space.** `toLowerCase` is modelled on ASCII and
  the Latin-1 capitals, which covers every keyword in the code (`crítico`).
  `trim` and `\s` use the ECMAScript white-space and line-terminator set.

## Model

| member | source | states |
|---|---|---|
| Text.Lower | early-access-processor.js:85 | lower-casing keeps the length and maps each character by itself; appending commutes with it (`LowerAppend`) |
| Text.ContainsIffOccurs | early-access-processor.js:85 | `includes` holds exactly when the needle occurs at some offset |
| Text.Split | early-access-processor.js:90 | `split` on one character gives one more piece than there are separators, and no piece holds the separator |
| Text.JoinSplit | early-access-processor.js:285-288 | joining the pieces of a split gives back the text |
| Text.SplitJoin | early-access-processor.js:285-288 | splitting a join of separator-free pieces gives back the pieces |
| Text.NonBlank | early-access-telegram-hook.js:59 | `filter(l => l.trim())` keeps only pieces whose trim is not empty |
| Text.NonBlankAppend | early-access-telegram-hook.js:59 | the trim filter works piece by piece and keeps the order |
| Text.NonBlankOne | early-access-telegram-hook.js:59 | one piece is kept exactly when it is not all white space |
| Text.NonEmptyAppend | early-access-processor.js:285 | `filter(l => l)` works piece by piece and keeps the order |
| Text.NonEmptyOne | early-access-processor.js:285 | `filter(l => l)` keeps one piece exactly when it is not empty |
| Text.NonBlankKeepsAll | early-access-telegram-hook.js:59 | the trim filter removes nothing when no piece is blank |
| Text.TrimEmptyIffAllSpace | early-access-telegram-hook.js:57 | `trim()` is empty exactly when the text is all white space |
| Text.DecimalString | early-access-processor.js:108 | the printed number is a non-empty run of digits with no leading zero |
| Text.DecimalRoundTrip | early-access-processor.js:107-108 | `parseInt` of the printed number gives back the number |
| Classifier.EmailTermsMeanMail | early-access-processor.js:76 | the email-or-mail pattern matches, ignoring case, exactly when the lower-cased text contains "mail" |
| Classifier.DetectType | early-access-processor.js:75-81 | precedence: email iff "mail" occurs; data entry iff no mail term but a data-entry term; reporting iff neither of those but a reporting term; workflow otherwise |
| Classifier.CalculatePriority | early-access-processor.js:83-87 | the priority is between 2 and 5 |
| Classifier.CountContainedPresent | early-access-processor.js:85 | `filter(k => text.includes(k)).length` over keywords listed once is the number of distinct keywords present |
| Classifier.PriorityCountsKeywords | early-access-processor.js:84-86 | the priority is 2 plus the number of distinct urgency keywords present, up to 3 of them, and 5 from three keywords on |
| Classifier.PriorityBaseIffNoKeyword | early-access-processor.js:84-86 | the priority is 2 exactly when none of the five urgency keywords occurs |
| Classifier.PriorityMonotone | early-access-processor.js:84-86 | more keywords present never lowers the priority |
| Classifier.PriorityGrowsWithText | early-access-processor.js:84-86 | appending text never lowers the priority |
| Classifier.UrgenteCountsTwice | early-access-processor.js:84-85 | "urgente" also counts as "urgent", so it gives priority at least 4 |
| Classifier.UrgenteAloneGivesFour | early-access-processor.js:84-86 | "urgente" with none of "crítico", "critical" or "hoje" gives priority exactly 4 |
| Classifier.EstimateEffort | early-access-processor.js:89-94 | easy iff fewer than 19 spaces (under 20 words), medium iff 19 to 48, hard iff 49 or more |
| Classifier.EffortGrowsWithText | early-access-processor.js:89-94 | appending text never lowers the effort bucket |
| Classifier.DetectTools | early-access-processor.js:96-102 | one to three tools, "Automação" last; ERP iff "ltda" and then first; API iff "tech" and then just before "Automação"; the length is one plus one per name test that holds, so nothing else is in the list |
| Classifier.FirstMatch | early-access-processor.js:105 | the search finds the leftmost offset where the ROI pattern matches, or none when no offset matches |
| Classifier.MatchRunStart | early-access-processor.js:105 | every match lies inside an hour claim (a maximal digit run, optional white space, then "hr" or "hora" in any case): the claim starts at or before the match, only digits lie between them, and both share the end of the digit run |
| Classifier.FirstMatchIsFirstClaim | early-access-processor.js:105 | the leftmost match is the first hour claim, and its capture is that claim's digits; there is a match exactly when some hour count is stated |
| Classifier.EstimateROI | early-access-processor.js:104-111 | the default "20+" sentence comes back exactly when the text states no hour count; otherwise the sentence carries the value of the first claim's digits |
| Classifier.RoiReportsStatedHours | early-access-processor.js:105-108 | a text that is a number, white space and an hour unit reports that number |
| Classifier.GenericScriptWithoutKnownTerms | early-access-processor.js:146-202 | the default template is used exactly when the text has no mail, data-entry or reporting term |
| Classifier.AnalyzeChallenge | early-access-processor.js:58-73 | the analysis has priority 2 to 5, one to three tools, type email iff "mail" occurs, and a template that starts with the fixed prefix |
| QueueFormat.ParseAll | early-access-processor.js:285 | every line parses exactly when the result is present, and then each value is its line's parse |
| QueueFormat.ShowAll | early-access-processor.js:288 | one shown line per value, in order |
| Producer.DeliveryNotification | early-access-processor.js:275-280 | the queued record has type `delivery`, carries the given message and timestamp, and has `sent` set to `false` |
| Producer.Enqueue | early-access-processor.js:282-292 | a failed write or an unparsable stored line leaves the queue file as it was, and the error is not passed on |
| Producer.EnqueueAppendsLast | early-access-processor.js:283-288 | after a successful append the file's lines are the stored records, shown again in order, then the new record last; no line is blank and the new line parses back to the record |
| Producer.EnqueueKeepsCanonicalLines | early-access-processor.js:285-288 | stored lines that are already canonical come back unchanged, with the new line after them |
| Producer.MalformedLineBlocksQueue | early-access-processor.js:285-291 | one unparsable line blocks every later append |
| Producer.BlankLineBlocksQueue | early-access-processor.js:285-291 | a white-space-only line survives `filter(l => l)` and, since it does not parse, blocks every later append |
| Relay.UnsentMessagesAppend | early-access-telegram-hook.js:61-82 | lines are handled independently and in order |
| Relay.ParsedLineRelayedIffUnsent | early-access-telegram-hook.js:61-78 | a parsed line contributes its message, in place, exactly when `sent` is missing or falsy |
| Relay.MalformedLineSkipped | early-access-telegram-hook.js:61-81 | an unparsable line contributes nothing and does not disturb the others |
| Relay.UnsentOfParsed | early-access-telegram-hook.js:59-73 | when every line parses, the messages sent are those of the unsent records, in order |
| Relay.EmptyQueueSendsNothing | early-access-telegram-hook.js:54-57 | an absent or white-space-only queue sends nothing |
| Relay.PollGuardRedundant | early-access-telegram-hook.js:57-59 | the early return on blank content changes nothing, because the trim filter already drops every line then |
| Relay.EnqueueThenPoll | early-access-telegram-hook.js:59-78 | after the processor appends an unsent notification, the relay sends what it sent before plus the new message last |
| Relay.DeliveryNoticeRelayed | early-access-processor.js:274-288 | the delivery notice queued after a successful append is the last message the relay then sends, carrying the message text the processor gave it |
| Relay.SendToTelegramQueue | early-access-telegram-hook.js:26-44 | returns whether the write worked; a failed write leaves the pending file alone, and a successful one appends the entry's line and a newline |
| Relay.SendAddsOneLine | early-access-telegram-hook.js:35-39 | a successful send raises the pending count by exactly one and keeps the file newline-terminated |
| Relay.CountAfterAppend | early-access-telegram-hook.js:95-97 | appending k one-line entries to a newline-terminated file raises the count by k |
| Relay.DeliverFromAppends | early-access-telegram-hook.js:61-78 | the callback's sends append, in order, one line per entry whose write worked |
| Relay.OneEntryPerMessage | early-access-telegram-hook.js:28-33 | with every write working, entry i goes to the fixed recipient with message i and status `pending` |
| Relay.OnQueueChange | early-access-telegram-hook.js:52-87 | the queue file is not rewritten, and the pending file grows by the delivered entries |
| Relay.RelayCount | early-access-telegram-hook.js:95-97 | one callback with every write working raises the status count by the number of unsent lines |
| Relay.SingleUnsentNotification | early-access-telegram-hook.js:63-72 | a queue of one unsent notification relays its message once, and the count becomes 1 |
| Relay.RepeatedDelivery | early-access-telegram-hook.js:74-77 | the queue is unchanged after a run, so a second run sends the same lines again and the count grows by twice the unsent lines |
| Relay.RelayResendsAfterEnqueue | early-access-telegram-hook.js:74-77 | after a relay run and a new append, the next run resends everything it sent before, plus the new message |
| Relay.MarkSegmentsSpec | early-access-telegram-hook.js:74-77 | marking the delivered lines `sent: true` leaves unsent exactly the messages whose write failed |
| Relay.MarkedQueueNotRedelivered | early-access-telegram-hook.js:74-77 | with the queue written back marked, the next run resends only the failed writes, and nothing when every write worked |
| Batch.PendingFrom | early-access-processor.js:311 | the pending positions: increasing, each pending, and none missed |
| Batch.SelectBatch | early-access-processor.js:311 | at most three, all pending, in file order; a pending record is left out only when three earlier ones were taken |
| Batch.RunOne | early-access-processor.js:319-350 | a sign-up that throws changes nothing; one that completes is stored as loaded but `contacted`, gets the solution made from it (pointing back at it, `delivered`) under its id, and no other record or key changes |
| Batch.RunBatch | early-access-processor.js:318-351 | after the loop, each record is `contacted` iff it was selected and completed, and is otherwise untouched |
| Batch.RunBatchSolutions | early-access-processor.js:334-340 | the solution keys gained are exactly the ids of the completed sign-ups, and every other key keeps its value |
| Batch.CompletedIdsSound | early-access-processor.js:334 | every new key is the id of a selected sign-up that completed |
| Batch.RunBatchLastWriter | early-access-processor.js:334-340 | the solution kept under an id is the one made for the last completed sign-up with that id |
| Batch.ProcessQueue | early-access-processor.js:307-358 | the store keeps its length and order; the selected, completed records become `contacted`; solution keys grow by their ids and other keys are untouched |
| Batch.PersistedCycle | early-access-processor.js:353-355 | both saves succeeding store the cycle's result; a throw in `saveSolutions` leaves both stores as loaded; a throw in the sign-up write stores the new solutions but keeps every sign-up as loaded |
| Batch.FailedSaveRepeatsBatch | early-access-processor.js:353-355 | after a failed save the next cycle selects the same batch again; when only the sign-up write failed, the completed ids already have solutions |
| Batch.ProcessQueueRecordsSolution | early-access-processor.js:334-340 | a completed sign-up's solution points back at it and is `delivered` |
| Batch.StatusOnlyAdvances | early-access-processor.js:311-344 | only selected pending records change, only to `contacted`; no status returns to pending; at most three change |
| Batch.AllThrowKeepsStores | early-access-processor.js:348-355 | when every selected sign-up throws, both stores are saved as loaded |
| Batch.FivePendingTakesThree | early-access-processor.js:311 | of five pending records, the first three are processed and the last two stay as they were |
| Batch.FailureIsolation | early-access-processor.js:318-351 | a sign-up that throws stays pending, and the ones after it are still contacted and get their solutions |
| Batch.NextCycleTakesTheRest | early-access-processor.js:311-344 | when the whole batch completes, the next cycle's pending list is this one without its first three |

## Left out

- File-system effects (`existsSync`, `readFileSync`, `writeFileSync`, `appendFileSync`, `mkdirSync`): files are values. Write success is a parameter for the queue append, the relay's sends and the two saves that end the batch (`Batch.PersistedCycle`). A partial write is not modelled.
- Batch.ProcessQueue: states the stores the cycle computes, as if both final saves succeed. The outcome of a failed save is stated by `Batch.PersistedCycle`. Neither member models the automation files and queue notifications already written by the stages; they are not rolled back when a save throws.
- `setInterval`, `fs.watchFile` and the HTTP server: these are scheduling and routing. Only the count expression of the status route is modelled (`Relay.PendingCount`).
- `Date`, `new Date().toISOString()` and the `sol_<Date.now()>` solution ids come from the oracles. Their uniqueness cannot be derived from the code, and the model does not rely on it.
- A sign-up `status` other than "pending" or "contacted" is `Batch.Other(text)`. Its `text` is never one of those two strings: a convention of the model, which the datatype does not enforce.
- Sign-up ids are not assumed distinct either. `Batch.RunBatchLastWriter` states which solution survives when two sign-ups of one batch share an inscription id.
- `JSON.parse` and `JSON.stringify` are abstracted by a lawful codec. A line holding JSON `null` parses in JavaScript but is treated as malformed here. The relay would throw on `notification.sent` and skip it, which matches. The processor would keep it, which does not. A line holding a JSON number, string, boolean or array also parses without being a notification object: the processor keeps it, and the relay appends an entry with no `message` field for it. Such lines, and non-string `message` values, are treated as malformed here.
- The processor rewrites each stored line as `JSON.stringify(JSON.parse(line))`. That keeps any extra keys and a non-boolean `sent` value. The codec's four-field `Notification` drops extra keys and keeps only the truthiness of `sent`. So a rewritten line can differ in text from the source's, while its message and the truthiness of its `sent` are the same.
- `loadDB` and `loadSolutions` fall back to empty stores when a file is missing or unparsable. `Batch.ProcessQueue` takes the stores as loaded, so that fallback is the caller's choice of an empty `Stores`.
- The stages inside the batch loop (`analyzeChallenge`, `createAutomation`, `deliverSolution`) are one outcome oracle per sign-up. Analysis is modelled on its own (`Classifier.AnalyzeChallenge`). The `if (!analysis)` branch is dead, because the analysis is always an object. The notification append is modelled on its own (`Producer.Enqueue`) and is not threaded through `Batch.ProcessQueue`.
- Template and message text (`generateCode` bodies, the e-mail body, the Telegram message): only the dispatch of `generateCode` is modelled (`Classifier.ScriptFor`). The solution template is stated only by its fixed prefix.
- Logging: `console` output and `log()` are left out, and `log()` is assumed never to throw. The hook never creates the logs directory, so in the source `log` can throw at every call, and the model covers none of the effects:
  - at early-access-telegram-hook.js:38, after the entry is written, the throw lands in the `catch`, so a written entry is reported as `false`;
  - at :41, inside the `catch`, it throws out of `sendToTelegramQueue` instead of returning `false`;
  - at :66 it runs before the send, so the inner `catch` skips the notification and nothing is appended;
  - at :50 it runs outside any `try`, so `watchQueue` stops before the watcher is installed.
- `toLowerCase` beyond Latin-1 and `\s` beyond the ECMAScript white-space set are not modelled. `parseInt` and the printed hours are exact here. In JavaScript the value loses precision above 2^53, prints in exponent form from 1e21 on ("1e+21 horas …"), and prints as "Infinity" for a run of about 309 or more digits.
- Word count: the effort heuristic splits on the single space character (`split(' ')`), so tabs, newlines and repeated spaces count differently from a count of white-space-delimited words. The model follows the code.
- Classifier.CalculatePriority: its contract states only the range 2..5. The formula `min(5, 2 + k)` is stated by `Classifier.PriorityCountsKeywords` against the set of distinct keywords present.
- Classifier.AnalyzeChallenge: its contract covers priority, tools, the email type and the template prefix. The other fields are stated by the members that compute them.
- Producer.Enqueue: its contract states the error paths. The successful append is stated by `Producer.EnqueueAppendsLast`.

## Findings

| source | as written | input that shows it | evidently intended | confidence | as-written member | corrected member |
|---|---|---|---|---|---|---|
| early-access-telegram-hook.js:74-77 | after a successful send, only the in-memory object gets `sent = true`; the queue file is never written back, though the comment says the line is marked as sent in the queue | a queue holding one line with `"sent": false`, and the callback run twice (any later append to the queue triggers it): two entries with the same recipient and message are appended to the pending file | write the queue back with each delivered line marked `sent: true`, so a later run resends only the lines whose write failed | not executed | Relay.RepeatedDelivery | Relay.MarkedQueueNotRedelivered |
