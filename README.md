# Chat relay with moderation and bounded retention — Dafny model

The service relays a user prompt to a language-model completion endpoint,
records each question/answer exchange in a `Conversation` collection, lists
that collection newest first, and periodically deletes the oldest records so
the collection stays under a fixed size. It exists in two variants:

- `index.js`, the moderated service. The prompt is trimmed and must then
  have a length of at least 1 as the `isLength` validator counts it. Both the prompt and the answer go through a word-censoring filter
  (`censorBadWords`) before they are saved. The censored answer is returned.
  An hourly cleanup keeps 100 documents.
- `local.js`, the unmoderated variant. It does no validation. It saves and
  returns the raw prompt and answer. A daily cleanup keeps 10000 documents.

The model has five modules:

- `Censor` (`censor.dfy`) models the filter as pure functions. A term `w`
  becomes the pattern `\b<w>\b` with the global and case-insensitive flags.
  Each match is replaced by its first character followed by `|w| - 1`
  asterisks. The terms are applied in list order, each over the previous
  output. `MatchTable` flags the positions where the pattern matches, and
  `CensorScan` follows the left-to-right scan of a global replace over those
  flags: on a match it resumes after the match, otherwise at the next
  character. Word boundaries are judged on the string being replaced, not on
  the partly built output.
- `ConversationLog` (`conversation_log.dfy`) models the stored record, the
  store's sort on `createdAt`, `deleteMany` by a set of ids, and the
  retention rule `Cleaned`. It also holds the class `ConversationStore`,
  whose `docs` sequence the handlers update in place.
- `IndexServer` and `LocalServer` (`index_server.dfy`, `local_server.dfy`)
  model the request handlers and the cleanup job of each source file.
  Handlers are methods that change the store.
- `Exchange` (`exchange.dfy`) holds the provider outcome and the HTTP
  response as values.

Nothing from outside the process is modelled directly. Each such input is a
parameter instead:

- the term list, which the source loads from `bad_words.json`;
- the provider's outcome (`Completed(answer)` or `ProviderFailed`);
- whether the store accepts the save;
- the `Date.now` timestamp given to a new document.

Document `_id`s come from a counter in the store.

Some behaviour is fixed by the code rather than by intent, and the model follows the code:

- The code does not escape regex metacharacters in terms (index.js:44).
  The model therefore requires every term to be a non-empty run of ASCII
  word characters (`AllTerms`).
- The code has no running/idle guard around the cleanup job, so the model
  has none.
- In `local.js` the stored record is raw, not filtered.
- In `index.js` the returned answer is the censored text that was stored.
- express-validator's `trim()` is a sanitizer, so `req.body.prompt` is the
  trimmed prompt afterwards. `index.js` therefore sends the trimmed prompt
  to the provider and stores the censored trimmed prompt.
- The `isLength` validator does not count the variation selectors U+FE0E and
  U+FE0F. A prompt such as " U+FE0F " therefore fails `isLength({ min: 1 })`
  although it is not blank, and the model rejects it too (`VisibleLength`).

## Model

| member | source | states |
|---|---|---|
| `Censor.MatchAt` | index.js:44 | the pattern `\b<w>\b` with the `i` flag matches at a position: the text there equals the term up to ASCII case, with a word boundary on both sides (its consequences are stated by `MatchIsWholeWord`, `MatchesDisjoint` and `MatchIgnoresCase`) |
| `Censor.Mask` | index.js:45 | the replacement for a match has the match's length, keeps its first character and is `*` everywhere else |
| `Censor.MatchTable` | index.js:44 | flags exactly the positions where `\b<w>\b` matches; every flagged match fits in the text and no two flagged matches overlap |
| `Censor.CensorScan` | index.js:44-45 | the global replace from a position onwards produces exactly as many characters as remain |
| `Censor.CensorTerm` | index.js:44-45 | one term's replace pass preserves the text's length |
| `Censor.CensorBadWords` | index.js:42-47 | the reduce over all terms preserves the text's length |
| `Censor.MatchIsWholeWord` | index.js:44 | a match of `\b<w>\b` consists of word characters, and the characters on both sides of it are not word characters |
| `Censor.MatchesDisjoint` | index.js:44 | two matches of one term never overlap |
| `Censor.MatchIgnoresCase` | index.js:44 | whether a term matches at a position does not depend on the ASCII case of the text or of the term |
| `Censor.CensorTermMasksMatch` | index.js:44-45 | at every match, the output keeps the original first character, with its case, and has `*` at every other position of the match |
| `Censor.CensorTermKeepsUnmatched` | index.js:44-45 | a character inside no match is copied unchanged |
| `Censor.CensorTermAt` | index.js:44-45 | every output character is the input character or `*`; a changed character lies inside a match and is not its first character |
| `Censor.CensorTermNoMatch` | index.js:44-45 | when a term has no whole-word match, its pass returns the text unchanged |
| `Censor.CensorTermSingleChar` | index.js:45 | a one-character term changes nothing, because its mask appends no asterisks |
| `Censor.CensorBadWordsNoMatch` | index.js:42-46 | when no term matches anywhere in the text, the filter returns the text unchanged; this includes the empty term list, since the reduce starts from `text` |
| `Censor.CensorBadWordsSequential` | index.js:43-46 | filtering by `a + b` equals filtering by `a` and then filtering that output by `b`; the terms apply in list order, each over the previous output |
| `Censor.CensorBadWordsOnlyMasks` | index.js:42-47 | after all terms, every position holds the original character or `*` |
| `Censor.MaskedInSentence` | index.js:42-47 | with the term `damn`, the text "What the damn heck" becomes "What the d*** heck" |
| `Censor.NotMatchedInsideWord` | index.js:44 | the term `cat` leaves "category" unchanged |
| `Censor.MatchedWhateverTheCase` | index.js:44-45 | the term `damn` turns "DAMN" into "D***", keeping the upper-case first letter |
| `Censor.EarlierPassCreatesBoundary` | index.js:43-46 | `x` is not a whole word in "xy"; after the pass for `xy` the text is "x*", and there `x` is a whole word |
| `Censor.NewMatchOnlySingleChar` | index.js:43-46 | a match that appears only after an earlier term's pass is always for a one-character term, which changes nothing; so the boundaries earlier passes create never lead to more masking |
| `ConversationLog.Sort` | index.js:109 | `find().sort({ createdAt: ±1 })` returns every document exactly once (a permutation), ordered by `createdAt` in the requested direction |
| `ConversationLog.RemoveIds` | index.js:111 | `deleteMany({ _id: { $in: ids } })` leaves exactly the documents whose id is not in `ids`, and no more documents than before |
| `ConversationLog.RemoveIdsKeepsUnique` | index.js:111 | deleting documents keeps the remaining `_id`s unique |
| `ConversationLog.IdsOf` | index.js:110 | `.map(doc => doc._id)` yields the id of every listed document and no other id |
| `ConversationLog.Oldest` | index.js:109 | `find().sort({ createdAt: 1 }).limit(n)` returns `n` documents of the log, oldest first |
| `ConversationLog.Cleaned` | index.js:107-111 | the log after one cleanup run keeps only documents it had and is no longer than before; its size, the split and the age order are stated by `CleanedKeepsNewest` |
| `ConversationLog.CleanedKeepsNewest` | index.js:107-111 | a cleanup run leaves the log unchanged when it is within the threshold; otherwise it leaves exactly `threshold` documents; the kept and evicted documents together are the old log; every evicted document is no newer than every kept one |
| `ConversationLog.ConversationStore.Save` | index.js:82-83 | a successful `save()` appends exactly one document with a fresh id, the given fields and the `createdAt` stamp; a failed save changes nothing |
| `ConversationLog.ConversationStore.Find` | index.js:95 | the query returns every stored document, sorted by `createdAt` |
| `ConversationLog.ConversationStore.DeleteMany` | index.js:111 | the store afterwards holds the old documents whose id is not listed, and `deletedCount` is the number removed |
| `IndexServer.Trim` | index.js:55 | the `trim()` sanitizer never lengthens the prompt; what it keeps is stated by the three lemmas below |
| `IndexServer.TrimKeepsMiddle` | index.js:55 | the `trim()` sanitizer removes white space only, and only at the ends: the result is the slice of the prompt after its leading white space, and only white space follows it |
| `IndexServer.TrimRemovesEnds` | index.js:55 | the trimmed prompt neither starts nor ends with white space |
| `IndexServer.TrimEmptyIffBlank` | index.js:55 | the trimmed prompt is empty exactly when the prompt is all white space |
| `IndexServer.VisibleLength` | index.js:55 | the length `isLength` measures is at most the string's length, and it is 0 exactly when every character is a variation selector (U+FE0E or U+FE0F) |
| `IndexServer.SelectorOnlyPromptRejected` | index.js:55 | the prompt " U+FE0F " is not blank (it trims to U+FE0F), yet its visible length is 0, so it fails `isLength({ min: 1 })` |
| `IndexServer.Chat` | index.js:54-91 | a prompt whose trimmed form has visible length 0 (blank, or only variation selectors) gets 400, with no provider call and no save. Otherwise the provider gets the trimmed prompt. On provider failure, or when the save fails, the response is 500 and nothing is stored. On success exactly one document `{censor(trimmed prompt), censor(answer)}` is appended, and the returned message equals its stored answer |
| `ConversationLog.NewestFirst` | index.js:93-101 | `/api/conversation` returns every document, with `createdAt` non-increasing (newest first); the local service (local.js:57-66) runs the same query |
| `IndexServer.CleanupOldConversations` | index.js:103-117 | with at most 100 documents nothing is deleted and nothing is logged. With more than 100, the `count - 100` oldest are deleted, 100 remain, and the reported `deletedCount` is `count - 100`. No survivor is older than a deleted document |
| `LocalServer.Chat` | local.js:27-55 | the provider always gets the raw prompt. On success exactly one document `{prompt, answer}` is stored unfiltered, and the returned message equals its stored answer. On provider or save failure the response is 500 and nothing is stored. The response is never 400 |
| `LocalServer.CleanupOldConversations` | local.js:68-82 | with at most 10000 documents nothing is removed. With more, the `excess = count - 10000` oldest are removed and exactly 10000 remain. The reported count is the computed `excess` |

## Left out

- HTTP plumbing is not modelled: Express, helmet, CORS, the rate limiter, JSON parsing, status codes beyond 200/400/500, and the error array of the 400 response.
- The MongoDB connection, the schema and the driver are not modelled. The collection is an in-memory sequence with atomic operations. `Date.now` is a parameter and `_id` a counter.
- Storage errors during cleanup and listing are not modelled. The source catches and logs them. The model treats those store operations as succeeding.
- The axios call to the completion provider is abstract: its request body, persona text, `max_tokens` and headers are not modelled. Its result is the `ProviderOutcome` parameter. The model assumes that a successful reply's first choice carries string content; a request that throws counts as `ProviderFailed`.
- A reply whose `choices[0].message.content` is missing or null is not modelled. In `local.js`, and in `index.js` with an empty term list, such a reply is saved without an answer and answered 200 with `{}`. In `index.js` with a non-empty term list, the filter throws and the answer is 500.
- Loading `bad_words.json` and `process.exit(1)` on failure are not modelled. The term list is a parameter.
- The cron schedules are not modelled. One cleanup run is one method call.
- Concurrency is not modelled: requests interleaving with a cleanup run, and the gap between `countDocuments` and the `find`.
- `console.log` and `console.error` output is not modelled, except the cleanup count, which the cleanup methods return.
- Full JavaScript regex semantics is out of scope. Terms are restricted to ASCII word characters, and matching uses ASCII case folding. Texts are sequences of Unicode scalar values, not UTF-16 code units. All matched characters are ASCII, so this does not change lengths or positions of matches.
- A missing or non-string `prompt` field is not modelled. Prompts are strings.
- Tie order among equal `createdAt` is not modelled: the model's sort keeps insertion order among ties. The store's own order for ties is unspecified.
- `LocalServer.CleanupOldConversations`: models `find().sort().limit(excess).remove()` as deleting exactly the documents that query selects. Mongoose's `Query.remove()` may apply only the query's filter and ignore `sort` and `limit`; that version-dependent behaviour is not modelled.
