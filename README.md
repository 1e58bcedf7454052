# Application tracker: e-mail to application records

This project models the core of the backend of a job-application tracker. It reads the user's
Gmail messages about applications, turns each new message into an application record, keeps one
record per company and saves the list to `applications.json`. The model follows
`backend/src/gmail.ts`:

- `getBody`: the recursive walk over the MIME tree of a message, which returns the first non-empty
  decoded text (module `Body`).
- The status cascade: interview, then rejection words, then assessment, then update, else applied,
  over `(subject + ' ' + body).toLowerCase()` (module `Status`).
- `extractCompanyName`. Its three strategies are the four preposition patterns, the global
  capitalized-token pattern with its `exec` loop, and the first word of the subject. The regular
  expressions are modelled as the leftmost, greedy, backtracking matches the engine computes
  (module `Company`).
- The header lookup and the building of one `Application` record, including the `RangeError` that
  `toISOString` throws on an invalid date (module `Records`).
- The object `latestApps` that keeps one record per lower-cased company name, and the merge of that
  batch into the stored list (module `Merging`).
- `loadApplications`, `saveApplications` and `fetchNewApplications` with the module-level
  `processedIds` set, as the class `Tracker.Tracker`. The message loop is
  `Tracker.CollectLatest`. Each method is proved against the specification functions `Batch`,
  `ReduceAsWritten` and `MergeAsWritten`, which keep the source's lookups into `latestApps`,
  inherited keys included (module `Tracker`). The properties of the reduction and the merge are
  proved of the plain definitions `Reduce` and `Merge`. `Merging.ReduceAsWrittenSkipsInherited` and
  `Merging.MergeAsWrittenDropsInherited` carry them over to the program: it behaves as `Reduce` and
  `Merge` do on the same data with the records under inherited keys removed.

Where the code departs from what its comments and names suggest, the model follows the code:

- **Equal dates.** When two messages of one run have the same company key and the same day, the
  first one is kept, because the comparison is a strict `>` (`Merging.TieKeepsFirst`). One might
  expect the last one to be kept.
- **Invalid dates.** A message without a `Date` header, or with one that does not parse, makes
  `toISOString` throw. That ends the whole run before anything is saved (`Records.BuildRecord`,
  `Tracker.BatchSucceedsIff`). There is no fallback date.
- **Company key.** The key is `company.toLowerCase()`, without trimming.
- **Processed ids.** `processedIds` is module-level state. Only a successful `loadApplications`
  replaces it, and a run never adds the ids it has just handled.
- **Not idempotent.** A message that lost the per-company reduction is never saved, so its id is not
  processed. The next run picks it up again and replaces the stored winner with it
  (`Merging.RerunReplacesTieWinnerAsWritten`; under an inherited key neither record is stored). Running twice is therefore not a no-op. When every listed
  message was already processed, a run saves the list unchanged, apart from the records under
  inherited keys (`Tracker.NothingNewKeepsStore`).
- **Inherited keys.** `latestApps` is created with `{}`, so its lookups also find the members of
  `Object.prototype`. A company whose key is "constructor" or "__proto__" is never stored, and a
  stored record under such a key is dropped by every run (see "## Findings").
- **Replacement.** A stored record is replaced by any batch record with the same key, even an older
  one (`Merging.ReplacementNotMerge`, `Merging.ExampleReplacementNotMerge`).
- **Preposition patterns.** They need no word boundary before the preposition, so "Great Company"
  yields "Company" (`Company.ExampleMatchInsideWord`). The captured group has at least two
  characters; the trimmed name can be a single letter.

Dates are day numbers: `appliedDate` is the day of the `YYYY-MM-DD` string the program stores, and
comparing two such dates is comparing the numbers.

## Model

| member | source | states |
|---|---|---|
| Text.ToLower | backend/src/gmail.ts:91 | lower-casing keeps the length and maps each character on its own, upper-case ASCII letters to lower case |
| Text.ToLowerAppend | backend/src/gmail.ts:91 | lower-casing `subject + ' ' + body` is lower-casing each piece |
| Text.ToLowerIdempotent | backend/src/gmail.ts:91 | lower-casing twice is lower-casing once |
| Text.Contains | backend/src/gmail.ts:92-95 | `includes` is true exactly when the keyword occurs at some index |
| Text.Trim | backend/src/gmail.ts:109 | `trim` returns a slice that only drops JavaScript white space at both ends, and a non-empty result has no white space at either end |
| Body.FirstNonEmpty | backend/src/gmail.ts:73-76 | the reference selection is "" exactly when every text is "" |
| Body.FirstOfPartsIsFirst | backend/src/gmail.ts:72-77 | the loop over the parts returns the first part whose walk yields text, and "" exactly when none does |
| Body.PartsAreFirstInPostOrder | backend/src/gmail.ts:72-77 | the loop over the parts from a given index returns the first non-empty text of those parts in post-order |
| Body.BodyIsFirstInPostOrder | backend/src/gmail.ts:70-86 | `getBody` returns the first non-empty text of the tree in post-order: children left to right, then the node's own decoded data, with undecodable data counted as "" |
| Body.GetBody | backend/src/gmail.ts:70-87 | a missing payload yields "" |
| Status.ClassifyRules | backend/src/gmail.ts:89-95 | each of the five statuses is chosen exactly when its keyword rule is the first that fires on the lower-cased text |
| Status.ClassifyIgnoresCase | backend/src/gmail.ts:91 | changing the case of letters in the subject or body never changes the status |
| Status.ClassifyLowered | backend/src/gmail.ts:91 | classifying lower-cased input gives the same status |
| Status.InterviewShadowsRejection | backend/src/gmail.ts:92-93 | "interview" anywhere wins over the rejection words |
| Status.SubstringMatch | backend/src/gmail.ts:93 | keywords match inside words: "Regretfully" is a rejection |
| Company.PrepCapture | backend/src/gmail.ts:102-105 | the captured group starts with a capital letter, has at least two phrase characters, is a slice of the text and cannot be extended |
| Company.FindPrep | backend/src/gmail.ts:108 | the match position is the leftmost index where the pattern matches, and none means it matches nowhere |
| Company.MatchPrep | backend/src/gmail.ts:108-111 | a pattern yields a name exactly when it matches somewhere, and the trimmed name is non-empty with a capital first letter |
| Company.MatchPrepAt | backend/src/gmail.ts:108-109 | the name comes from the leftmost match |
| Company.FirstPrepMatch | backend/src/gmail.ts:107-112 | strategy 1 fails exactly when no pattern matches the subject or the body |
| Company.FirstPrepMatchAt | backend/src/gmail.ts:107-112 | patterns are tried in order, and for each pattern the subject before the body |
| Company.TokenEndAt | backend/src/gmail.ts:115 | at a start position the token is the longest one ending at a word boundary, and none exists when no end gives a boundary |
| Company.FindToken | backend/src/gmail.ts:119 | one `exec` from `lastIndex` finds the leftmost start of a token |
| Company.TokensAreCapitalized | backend/src/gmail.ts:115-123 | every token the loop visits is a capital letter followed by at least one token character |
| Company.FirstTokenIsLeftmost | backend/src/gmail.ts:115-119 | the first token visited is the leftmost and longest match, and no token is visited exactly when the pattern matches nowhere |
| Company.NoTokensWithoutCapitals | backend/src/gmail.ts:115-123 | the token pattern never matches text without capital letters |
| Company.Survivors | backend/src/gmail.ts:120-121 | the candidates are exactly the visited tokens that are not "application", "interview", "offer" or "update" in any case |
| Company.FirstSurvivor | backend/src/gmail.ts:131 | the first candidate is the first visited token that is not excluded |
| Company.FirstWord | backend/src/gmail.ts:134 | `split(' ')[0]` is the prefix before the first space, or the whole subject |
| Company.CollectCandidates | backend/src/gmail.ts:116-130 | the `exec` loop appends exactly the surviving tokens, in order, to the candidates collected so far |
| Company.ExtractCompanyName | backend/src/gmail.ts:99-135 | the method computes the name the three strategies define |
| Company.CompanyByPreposition | backend/src/gmail.ts:107-112 | a preposition match wins over the other strategies, and the name has a capital first letter |
| Company.CompanyByToken | backend/src/gmail.ts:113-131 | without a preposition match, the name is a capitalized, non-excluded token, from the subject when it has one and else from the body |
| Company.CompanyByFirstWord | backend/src/gmail.ts:133-134 | with no other match, the name is the subject's first word, which may be "" |
| Company.NoCapitalsMeansFirstWord | backend/src/gmail.ts:99-135 | text without capital letters always falls through to the first word |
| Company.ExampleInvitationAtAcme | backend/src/gmail.ts:101-111 | "Interview invitation at Acme Corp" yields "Acme Corp", not the earlier token "Interview" |
| Company.ExampleGreetings | backend/src/gmail.ts:133-134 | "greetings" with an empty body yields "greetings" |
| Company.ExampleMatchInsideWord | backend/src/gmail.ts:102 | no word boundary is needed before the preposition: "Great Company" yields "Company" |
| Company.ExamplePatternOrderFirst | backend/src/gmail.ts:107-112 | "at" in the body beats "by" in the subject |
| Company.ExampleBacktrackToBoundary | backend/src/gmail.ts:115 | the greedy token gives back a trailing "." to end at a word boundary: "Acme. application" yields "Acme" |
| Records.HeaderValue | backend/src/gmail.ts:65-66 | the value of the first header with that name, and "" when there is none |
| Records.Headers | backend/src/gmail.ts:63 | a message without a payload has no headers |
| Records.AppliedDay | backend/src/gmail.ts:144 | a missing date header is always invalid, and a present one is parsed |
| Records.BuildRecord | backend/src/gmail.ts:140-146 | the record fails exactly on an invalid date, with that message's id; otherwise it carries the message id, the subject as title, the company extracted and the status classified from the subject and decoded body, and the day the date header parses to |
| Merging.ReduceSnoc | backend/src/gmail.ts:148-155 | each turn of the loop is one more `Keep` |
| Merging.KeepWellFormed | backend/src/gmail.ts:149-155 | one update keeps a single record per key, each under its own key, and adds the new record's key |
| Merging.KeepKeepsWinners | backend/src/gmail.ts:150-155 | one more update keeps, for each key, the record that wins under the strict `>` over the longer batch |
| Merging.KeepKeyOrder | backend/src/gmail.ts:150-154 | one more update keeps the keys in first-occurrence order: a new key is added last and an old key keeps its place |
| Merging.ReduceWellFormed | backend/src/gmail.ts:148-155 | after the loop there is exactly one record for each key of the batch |
| Merging.ReduceKeepsFirstLatest | backend/src/gmail.ts:150-155 | the record kept for a key has the latest date for that key, and on equal dates it is the first |
| Merging.ReduceKeyOrder | backend/src/gmail.ts:154 | `Object.values` lists the keys in the order they first occur in the batch |
| Merging.Unreplaced | backend/src/gmail.ts:160-162 | the filter keeps exactly the stored records whose key the batch does not hold |
| Merging.UnreplacedAppend | backend/src/gmail.ts:160-162 | the filter keeps the order of the stored list |
| Merging.UnreplacedUniqueKeys | backend/src/gmail.ts:160-162 | filtering a list with unique keys leaves the keys unique |
| Merging.UnreplacedNothing | backend/src/gmail.ts:160-162 | the filter keeps the whole stored list when no stored key is in the batch |
| Merging.MergeProperties | backend/src/gmail.ts:158-163 | under `Merge` and `Reduce`, the saved list has unique keys if the stored list had; each batch key is present only with its batch record; every other stored record stays, in order, ahead of the batch |
| Merging.EmptyBatchKeepsStore | backend/src/gmail.ts:158-169 | `Merge` with the reduction of an empty batch keeps the stored list unchanged, and `Values` of it is []; the program also drops stored records under inherited keys (`Tracker.NothingNewKeepsStore`) |
| Merging.ReplacementNotMerge | backend/src/gmail.ts:160-163 | a batch record replaces every stored record with its key, whatever the dates |
| Merging.ExampleReplacementNotMerge | backend/src/gmail.ts:160-163 | a stored "Acme" of 2024-01-01 is replaced by an incoming "acme" of 2023-06-01 |
| Merging.TieKeepsFirst | backend/src/gmail.ts:150-152 | of two same-key records with the same date, the first is kept |
| Merging.RerunReplacesTieWinner | backend/src/gmail.ts:150-163 | under `Merge` and `Reduce`, after a tie the first run stores the first record, and the next run stores the second in its place |
| Merging.SecondRunReplaces | backend/src/gmail.ts:160-163 | the second run's batch replaces the stored tie winner and leaves the other records |
| Merging.InheritedKeyIsLost | backend/src/gmail.ts:150-162 | as written, a record whose key is an `Object.prototype` member is never saved, and a stored one is dropped by a run that finds nothing |
| Merging.NoKeyIsLost | backend/src/gmail.ts:150-162 | in this model's merge, a one-record batch is saved and a stored record survives an empty batch, whatever its key |
| Merging.ConstructorIsInherited | backend/src/gmail.ts:149 | the company "Constructor" has the inherited key "constructor" |
| Merging.ReduceAsWrittenSnoc | backend/src/gmail.ts:148-155 | each turn of the loop as written is one more `KeepAsWritten` |
| Merging.ReduceAsWrittenSkipsInherited | backend/src/gmail.ts:148-155 | the program's `latestApps` is the reduction of the batch without its records under inherited keys |
| Merging.UnreplacedUnion | backend/src/gmail.ts:160-162 | filtering by two key sets is filtering by one and then by the other |
| Merging.MergeAsWrittenDropsInherited | backend/src/gmail.ts:160-163 | the program's merge is the merge of the stored list without its records under inherited keys |
| Merging.ReduceAsWrittenWithoutInheritedKeys | backend/src/gmail.ts:148-155 | a batch without inherited keys is reduced by the program as by `Reduce` |
| Merging.MergeAsWrittenWithoutInheritedKeys | backend/src/gmail.ts:160-163 | a stored list without inherited keys is merged by the program as by `Merge` |
| Merging.MergeAsWrittenKeepsKeysUnique | backend/src/gmail.ts:148-163 | the program's merge saves a list with unique company keys whenever the stored list had unique keys |
| Merging.RerunReplacesTieWinnerAsWritten | backend/src/gmail.ts:150-163 | for the program, after a tie under a key that is not inherited, the first run stores the first record and the next run stores the second in its place |
| Tracker.Step | backend/src/gmail.ts:50-57 | a message is passed over exactly when it has no id or a processed id; it fails exactly when it is not passed over and cannot be fetched or dated |
| Tracker.Pending | backend/src/gmail.ts:48-50 | the pending ids are exactly the ids of listed messages that are not passed over |
| Tracker.FailureIsFinal | backend/src/gmail.ts:53-57 | the first failure ends the loop with that failure |
| Tracker.BatchStep | backend/src/gmail.ts:48-57 | one more message extends the batch by what it yields |
| Tracker.AllUsableSnoc | backend/src/gmail.ts:48-57 | a listing is usable exactly when all but its last message are, and so is the last |
| Tracker.BatchSucceedsIff | backend/src/gmail.ts:48-146 | the loop gets through exactly when every message not passed over was fetched and has a date that parses |
| Tracker.BatchFollowsPending | backend/src/gmail.ts:48-146 | a batch holds one record per pending message, in listing order |
| Tracker.BatchRecordsAreNew | backend/src/gmail.ts:50-141 | every record of a batch has a non-empty, unprocessed id of a listed message |
| Tracker.NothingNewKeepsStore | backend/src/gmail.ts:48-169 | when every listed message was processed before, the batch is empty, the run returns [] and saves the stored list less its records under inherited keys, so a list without such keys is saved unchanged |
| Tracker.BuildApplication | backend/src/gmail.ts:62-146 | the loop body builds the record `BuildRecord` defines, or its date error |
| Tracker.CollectLatest | backend/src/gmail.ts:48-156 | the loop ends with `latestApps` equal to the as-written reduction of the batch, or with the batch's first error |
| Tracker.Tracker.constructor | backend/src/gmail.ts:7 | the processed-id set starts empty |
| Tracker.Tracker.LoadApplications | backend/src/gmail.ts:9-22 | a readable list is returned and replaces the processed ids; otherwise [] is returned and the ids stay as they were |
| Tracker.Tracker.SaveApplications | backend/src/gmail.ts:24-26 | the file holds the new list and the processed ids do not change |
| Tracker.Tracker.FetchNewApplications | backend/src/gmail.ts:28-170 | a failed listing, fetch or date leaves the file unchanged; otherwise the file holds the stored list merged, as written, with the batch's as-written reduction and the run returns that reduction; the processed ids are only those loaded |

## Left out

- `backend/src/auth.ts`, `backend/src/server.ts` and the frontend are not part of this model.
- The Gmail client is left out. The listing (`users.messages.list`, with its query and `maxResults`) is a parameter: an optional sequence of messages, `None` when the call throws. Each message's `users.messages.get` result is optional the same way. A message without an id has the id "".
- Base64 and UTF-8 decoding of `body.data` is the parameter `decode`. `None` stands for a decoder that throws.
- Date parsing (`new Date(text)`) is the parameter `parseDate`, which yields a day number or `None` for an Invalid Date. The ISO formatting and its re-parsing at comparison time are collapsed into that day number.
- Reading and writing `applications.json` is modelled as an optional stored list. `None` stands for a file that is missing, blank or not valid JSON. A file holding valid JSON that is not an array of records is not modelled.
- JSON serialization is the identity here, so the round trip of saving and loading holds by construction.
- `toLowerCase` is modelled on ASCII letters only. Other Unicode case mappings are not modelled.
- Regular expressions are modelled without the `u` flag, with `\w` and `\b` over ASCII word characters, as JavaScript defines them.
- `Object.values` is modelled as listing keys in insertion order. JavaScript lists integer-like keys (a company whose lower-cased name is, say, "123") first, in ascending order. That reordering is not modelled.
- Logging (`console.log`, `console.error`) and the `async`/`await` scheduling are left out. A run is one sequential pass.
- Header values are modelled as strings. A header whose `value` is null or missing is not modelled separately; `|| ''` gives it the same result as a missing header.

## Findings

| source | as written | input that shows it | evidently intended | confidence | as-written member | corrected member |
|---|---|---|---|---|---|---|
| backend/src/gmail.ts:151 | `latestApps` is created with `{}`, so `latestApps[k]` finds the inherited `Object.prototype` members for `k` equal to "constructor" or "__proto__". The record is never stored, because the inherited value is truthy and its `appliedDate` is undefined. The filter on line 161 also drops every stored record under such a key. | a message whose subject is "Constructor" and whose body is "": the extracted company is "Constructor", with key "constructor" | every company key behaves like any other: the record is saved, and a stored record survives a run that does not replace it | not executed | Merging.InheritedKeyIsLost | Merging.NoKeyIsLost |
