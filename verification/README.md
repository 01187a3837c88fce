# Podcast transcript player — a Dafny model of its core

This project models the core of a podcast transcript site in Dafny 4.11 and proves properties of that model. The site shows each episode's transcript word by word in step with the audio. It translates utterances into English and French, and it records the words a listener clicks. The model covers:

- **Utterance grouping** (`Grouper`). Adjacent transcript utterances are folded into sentence-like groups. The fold is proved equal to an independent reference: cut the input into maximal runs of neighbours that the grouping rule joins, then merge each run. As a consequence, grouping keeps every word in order, yields between one and n groups for a non-empty input, and gives each group the start of its first member, the end of its last, the joined text and the lowest confidence.
- **The player** (`Player`).
  - How each word is rendered (current, past or upcoming).
  - The `m:ss` clock labels, including JavaScript's truncating `%`.
  - The remaining time.
  - The play/pause flag and how it reacts to toggles, the end of the track and time updates.
- **Translation** (`Translate`).
  - The batching plan: windows of five batches of twenty, shown equal to plain consecutive batches of twenty that partition the input.
  - The numbered prompt and how the reply is parsed (a round trip: parsing a prompt gives back each trimmed text).
  - How replies line up with the batch, with a fallback to the original text.
  - Storing the batches into slot positions, which does not depend on the order in which batches finish.
  - The final per-utterance `translations` record.
- **The metadata backfill script** (`Backfill`).
  - The date → episode map, where the last qualifying item wins.
  - The rule that fills only missing fields.
  - The per-file outcomes for transcription files and for the two summary data files.
  - The `updatedCount` counter, proved equal to the number of files written.
- **The word-click endpoint** (`WordClicks`). The status decision (405 / 400 / 500 / 200) and the database calls made.
- **The latest-transcript redirect** (`LatestRedirect`). It picks the `.json` stems, sorts them newest first and redirects to the newest one, or to `/404`.
- **The browser user id** (`UserId`). Get-or-create in local storage.

Shared string helpers live in `Text`: JavaScript `trim`, `split`/`join`, decimal rendering and `padStart`. The records live in `Types` and `Option` in `Wrappers`.

Times and confidences are `real`. The network, the file system, the clock, randomness and the database are parameters of the functions that use them:

- The translation reply for a batch is an oracle `(language, batchStart) -> Option<string>`, where `None` means the request failed.
- The date order of the redirect is a key function.
- `Date.now` and the random part of a user id are arguments.

The player component has no incremental word-position tracker. Its render decides each word's style directly from `currentTime`, and the model follows that code.

## Model

| member | source | states |
|---|---|---|
| Grouper.MergeDecision | lib/utterance-grouper.ts:39-61 | Two utterances group exactly when both trimmed texts are non-empty, the gap is under one second, the previous trimmed text does not end in `.`, `!` or `?`, and the current one does not start with `A`–`Z`. |
| Grouper.MergeUtterances | lib/utterance-grouper.ts:63-73 | The merged confidence is the lower of the two. |
| Grouper.MergeAllBounds | lib/utterance-grouper.ts:63-73 | A merged run starts where its first member starts and ends where its last ends. It keeps the first speaker and the first legacy translation. It loses `translations` unless it has a single member, in which case it is that member. |
| Grouper.MergeAllWords | lib/utterance-grouper.ts:70 | A merged run's words are all its members' words, in order. |
| Grouper.MergeAllText | lib/utterance-grouper.ts:65 | A merged run's text is its members' texts joined by single spaces. |
| Grouper.MergeAllConfidence | lib/utterance-grouper.ts:68 | A merged run's confidence is at most every member's and equals one of them. |
| Grouper.ChainSlice | lib/utterance-grouper.ts:19-23 | A range whose neighbours all join forms a chain as a slice. |
| Grouper.RunEnd | lib/utterance-grouper.ts:19-28 | The end of the maximal run starting at `lo`: every neighbour inside joins, and the next utterance, if any, does not join the last one. |
| Grouper.RunEndOfChain | lib/utterance-grouper.ts:19-28 | Any chained range that cannot be extended is the maximal run. |
| Grouper.RunsFrom | lib/utterance-grouper.ts:19-28 | Every run of the decomposition is non-empty. |
| Grouper.RunsFromFlatten | lib/utterance-grouper.ts:11-29 | The runs concatenate back to the input suffix. |
| Grouper.RunsFromChains | lib/utterance-grouper.ts:11-29 | Each run is a chain, and there are at most as many runs as utterances and at least one for a non-empty suffix. |
| Grouper.RunsFromBorders | lib/utterance-grouper.ts:24-28 | At every border between runs, the rule refuses to join the last utterance of one run to the first of the next. |
| Grouper.RunsFromBorder | lib/utterance-grouper.ts:24-28 | The same for the border in front of any one run k ≥ 1. |
| Grouper.RunsFromFirstBorder | lib/utterance-grouper.ts:24-28 | The rule refuses to join the first run's last utterance to the second run's first. |
| Grouper.RunsFromHead | lib/utterance-grouper.ts:14-16 | The first run starts with the first utterance of the suffix. |
| Grouper.Runs | lib/utterance-grouper.ts:19-28 | The runs under the source's rule are non-empty. |
| Grouper.RunsPartition | lib/utterance-grouper.ts:11-29 | The runs partition the input into non-empty maximal chains: their flattening is the input, inner neighbours join, border neighbours do not, and there are between one and n runs for a non-empty input. |
| Grouper.MergeRuns | lib/utterance-grouper.ts:31-36 | One merged utterance per run, in run order. |
| Grouper.MergedTextEnd | lib/utterance-grouper.ts:39-65 | The trimmed text of a merged chain is blank exactly when its last member's is, and otherwise it ends with the same character. |
| Grouper.GroupingDecidesLikeLast | lib/utterance-grouper.ts:19-23 | Deciding against the merged group gives the same answer as deciding against its last member. |
| Grouper.FoldLastStep | lib/utterance-grouper.ts:31-34 | When the input runs out, the open group is pushed as the last run. |
| Grouper.FoldMergeStep | lib/utterance-grouper.ts:21-23 | An utterance the rule joins to the open group extends the group's chain, and the fold carries on with the larger group. |
| Grouper.FoldCloseStep | lib/utterance-grouper.ts:24-28 | An utterance the rule refuses closes the open group and opens a new group holding just itself. |
| Grouper.CloseRunStep | lib/utterance-grouper.ts:24-28 | A chain that the next utterance does not join is exactly the first run, so its merge is the first merged run. |
| Grouper.GroupFromRuns | lib/utterance-grouper.ts:11-34 | From any point inside a run, the fold yields the groups so far followed by the merged remaining runs. |
| Grouper.GroupFromRunsMerge | lib/utterance-grouper.ts:21-23 | The same when the next utterance joins the open group. |
| Grouper.GroupFromRunsClose | lib/utterance-grouper.ts:24-28 | The same when the next utterance closes the open group. |
| Grouper.GroupFromOne | lib/utterance-grouper.ts:24-34 | The same when the open group is the single utterance that a close just started. |
| Grouper.GroupIsMergedRuns | lib/utterance-grouper.ts:3-37 | `groupUtterances` equals merging each maximal run of the input, and gives `[]` for `[]`. |
| Grouper.MergeRunsWords | lib/utterance-grouper.ts:70 | Merging runs keeps their words in order. |
| Grouper.GroupPreservesWords | lib/utterance-grouper.ts:3-37 | The grouped utterances hold exactly the input's words, in order. |
| Grouper.GroupLength | lib/utterance-grouper.ts:3-37 | Empty input gives empty output; otherwise there are between one and n groups. |
| Grouper.GroupMembers | lib/utterance-grouper.ts:3-73 | Group k takes its start, end, joined text, words, minimum confidence, speaker and legacy translation from run k, and is run k's only member unchanged when that run has length one. |
| Types.AllWordsAppend | components/TranscriptionPlayer.tsx:16 | The flattened word list of two sequences is the concatenation of theirs. |
| Text.TrimBlank | lib/utterance-grouper.ts:40-45 | A trimmed text is empty exactly when the text is all white space. |
| Text.TrimEnds | lib/utterance-grouper.ts:40-41 | A non-empty trimmed text begins and ends with non-space characters and is a contiguous slice of the text. |
| Text.TrimStartSuffix | lib/openai.ts:87 | Trimming the start removes a white-space prefix and leaves a suffix that does not start with white space. |
| Text.TrimEndPrefix | lib/openai.ts:87 | Trimming the end removes a white-space suffix and leaves a prefix that does not end with white space. |
| Text.TrimStartIdempotent | lib/openai.ts:87 | Trimming the start twice is trimming it once. |
| Text.ShapeOfTrim | lib/utterance-grouper.ts:40-57 | The scanned first and last characters are those of the trimmed text, and the scan says blank exactly when the trimmed text is empty. |
| Text.ShapeJoin | lib/utterance-grouper.ts:65 | Two non-blank texts joined by a space trim to something that starts like the first and ends like the second. |
| Text.Split | lib/openai.ts:85 | `split` on a character gives at least one piece, none containing the separator, and joining the pieces back gives the input. |
| Text.SplitJoin | lib/openai.ts:84-85 | Splitting the join of separator-free pieces gives the pieces back. |
| Text.JoinSnoc | lib/openai.ts:48 | Joining one more piece appends the separator and the piece. |
| Text.NatToString | components/TranscriptionPlayer.tsx:45 | A natural number renders as decimal digits, with no leading zero, whose value is the number. |
| Player.Style | components/TranscriptionPlayer.tsx:79-91 | A word is current exactly when `start <= t < end`, past exactly when `end <= t`, and upcoming otherwise. |
| Player.PastIsMonotone | components/TranscriptionPlayer.tsx:79-80 | Once a word is past it stays past, and not current, as time moves forward. |
| Player.AtMostOneCurrent | components/TranscriptionPlayer.tsx:79 | Among non-overlapping words at most one is current at a time. |
| Player.StylesInOrder | components/TranscriptionPlayer.tsx:79-91 | Over words in playback order the styles read past*, then at most one current, then upcoming*. |
| Player.StylesRead | components/TranscriptionPlayer.tsx:76-98 | The rendered line of an utterance whose words are in playback order has one style per word, reads past*, current?, upcoming*, and never shows two current words. |
| Player.FormatTimeDigits | components/TranscriptionPlayer.tsx:42-46 | For a non-negative time the label is `m:ss`: minutes without a leading zero, exactly two second digits under 60, and `60·m + ss` equals the whole seconds elapsed. |
| Player.ClockLabelDigits | components/TranscriptionPlayer.tsx:45 | Minutes and seconds under 60 render to a label that reads back as `60·m + s`. |
| Player.LabelShape | components/TranscriptionPlayer.tsx:45 | A digit string, a colon and two digits form such a label with the stated total. |
| Player.ClockArithmetic | components/TranscriptionPlayer.tsx:43-44 | For a non-negative time, floor of t/60 and floor of the truncated t % 60 are the minutes and a seconds value under 60 that recombine to the whole seconds. |
| Player.PaddedSeconds | components/TranscriptionPlayer.tsx:45 | A seconds value under 60, padded to two with `0`, is two digits reading back as itself. |
| Player.RemainingTime | components/TranscriptionPlayer.tsx:48-50 | Remaining plus current time is the duration; the remaining time is non-negative exactly when the current time has not passed the duration. |
| Player.OverrunLabel | components/TranscriptionPlayer.tsx:42-50 | For any time less than a minute past the duration, the right-hand label reads `--1:-s`, where s is the overrun rounded up to whole seconds (1 ≤ s ≤ 60, s − 1 < overrun ≤ s). |
| Player.OverrunClock | components/TranscriptionPlayer.tsx:43-44 | For a time less than a minute below zero, floor of t/60 is −1 and the truncating `t % 60` is t itself. |
| Player.NegativeSecondsText | components/TranscriptionPlayer.tsx:45 | A negative seconds count renders as `-` and its digits, which `padStart(2, '0')` leaves as it is. |
| Player.ToggleKeepsSync | components/TranscriptionPlayer.tsx:30-40 | If the flag agreed with the audio element before a toggle, it agrees after the commands the toggle issues. |
| Player.EndedKeepsSync | components/TranscriptionPlayer.tsx:137 | After the track ends the flag agrees with a stopped audio element. |
| Player.TimeUpdateKeepsSync | components/TranscriptionPlayer.tsx:18-28 | A `timeupdate` event never puts the playing flag out of step with the audio element. |
| Player.ToggleTwice | components/TranscriptionPlayer.tsx:30-40 | Two toggles restore the state and issue a pause and a play in the order set by the starting flag. |
| Translate.WindowIsConsecutive | lib/openai.ts:15-19 | The inner loop of one window followed by the batches after the window equals the consecutive batches from the window's j-th slot. |
| Translate.WindowsAreConsecutive | lib/openai.ts:12-31 | The two nested loops produce exactly the consecutive batches of twenty. |
| Translate.ConsecutiveShape | lib/openai.ts:16-17 | Consecutive batches from s number ceil((n−s)/20), and batch k is `[s+20k, min(s+20k+20, n))` with a start below n. |
| Translate.BatchPlanShape | lib/openai.ts:12-21 | The plan has ceil(n/20) batches, and batch k is `[20k, min(20k+20, n))`. |
| Translate.BatchOfBounds | lib/openai.ts:16-17 | Slot x lies in batch k's window exactly when k = x div 20. |
| Translate.BatchPlanPartition | lib/openai.ts:12-21 | The batches are non-empty, at most twenty long, adjacent, cover `[0, n)` and are empty for n = 0; every slot lies in exactly batch x div 20. |
| Translate.LeadingDigits | lib/openai.ts:87 | The length of the longest all-digit prefix. |
| Translate.KeepNonBlank | lib/openai.ts:86 | Every kept line is non-empty after trimming, and no more lines come out than went in. |
| Translate.KeepNonBlankAppend | lib/openai.ts:86 | Filtering a concatenation is concatenating the filtered parts, so the filter keeps order. |
| Translate.KeepNonBlankOne | lib/openai.ts:86 | A single line is kept exactly when its trimmed form is non-empty. |
| Translate.TranslateBatch | lib/openai.ts:45-101 | One string per utterance; a failed request gives back the texts; a slot is empty only when its utterance's text is. |
| Translate.LeadingDigitsOf | lib/openai.ts:87 | Digits followed by a non-digit are counted exactly. |
| Translate.StripNumberOf | lib/openai.ts:87 | Removing the number from `d. text` leaves the text without its leading white space. |
| Translate.PromptLineParses | lib/openai.ts:46-87 | A prompt line holds no newline and is never blank, and parsing it back gives the trimmed text. |
| Translate.KeepAll | lib/openai.ts:86 | Filtering keeps every line when none is blank. |
| Translate.ParseJoined | lib/openai.ts:84-87 | Parsing newline-joined non-blank lines gives each line with its number stripped, trimmed. |
| Translate.ParseNumberedRoundTrip | lib/openai.ts:46-87 | Numbering newline-free texts as the prompt does, then parsing the result as a reply, gives back each trimmed text, one per text. |
| Translate.ParsePromptRoundTrip | lib/openai.ts:46-87 | Parsing the prompt built from a batch gives back each utterance's trimmed text, one per utterance. |
| Translate.NumberedReply | lib/openai.ts:84-92 | For a reply of numbered newline-free lines, slot i gets line i trimmed when there is such a line and it is not blank, and the utterance's own text otherwise. |
| Translate.EchoReply | lib/openai.ts:84-92 | A reply that echoes the prompt yields each trimmed text, or the raw text where the trimmed one is empty. |
| Translate.EmptyReply | lib/openai.ts:81-92 | An empty reply content gives every utterance its own text back. |
| Translate.ApplyWrites | lib/openai.ts:22-28 | Applying writes keeps the length of the results. |
| Translate.ApplyWritesCovered | lib/openai.ts:22-28 | With disjoint writes, a slot holds the value of the one write that covers it. |
| Translate.ApplyWritesUncovered | lib/openai.ts:22-28 | A slot no write covers keeps its value. |
| Translate.WriteOrderIrrelevant | lib/openai.ts:34 | Disjoint writes give the same results in any completion order. |
| Translate.PlanWrites | lib/openai.ts:15-31 | One write per planned batch. |
| Translate.PlanWriteAt | lib/openai.ts:16-22 | Write k stores, from slot 20k, the translation of `utterances[20k .. min(20k+20, n)]` with the reply for that batch start. |
| Translate.PlanWritesFollowPlan | lib/openai.ts:15-27 | Each write starts at its batch's start and has its batch's length. |
| Translate.PlannedWritesCover | lib/openai.ts:12-27 | Planned writes are in bounds and disjoint, and every slot is covered by write x div 20. |
| Translate.PlannedSlot | lib/openai.ts:22-27 | After the planned writes, slot x holds entry x − 20·(x div 20) of batch x div 20. |
| Translate.SlotFromPlan | lib/openai.ts:3-43 | Every slot of `translateToLanguage` is filled from its own batch. |
| Translate.SlotAligned | lib/openai.ts:3-43 | Slot x holds the translation at position x − s of the batch `[s, min(s+20, n))`, s = 20·(x div 20). |
| Translate.TranslateToLanguageAligned | lib/openai.ts:3-43 | One filled slot per utterance, each taken from its own batch at its own offset. |
| Translate.TranslateUtterances | lib/openai.ts:103-140 | One output utterance per input utterance. |
| Translate.OrTextKeepsSlot | lib/openai.ts:90-119 | The `|| utterance.text` fallback applied to a batch's slot never changes it, because a slot is empty only when the utterance's own text is. |
| Translate.TranslatedSlot | lib/openai.ts:3-43 | After the fallback, one language's text for utterance i is the slot of its own batch, at its own offset. |
| Translate.TranslateUtterancesShape | lib/openai.ts:115-121 | Each output utterance is its input with only `translations` replaced, holding exactly the English and the French slot of its own batch: the `|| utterance.text` fallback adds nothing. |
| Translate.AllRequestsFail | lib/openai.ts:96-100 | When every request fails, the result equals the untranslated fallback. |
| Backfill.FirstAudio | scripts/backfill-audio-urls.ts:85-87 | The first enclosure whose type is `audio/mpeg`, and no earlier one has that type. |
| Backfill.FindAudioUrl | scripts/backfill-audio-urls.ts:83-90 | The URL of the first `audio/mpeg` enclosure when there are enclosures, one has that type and its URL is non-empty; nothing otherwise. |
| Backfill.LastForDay | scripts/backfill-audio-urls.ts:101-110 | The last item of a day with an audio URL and a title; no later item of that day has both. |
| Backfill.EpisodeMapLastWins | scripts/backfill-audio-urls.ts:99-110 | A day is in the map exactly when some item of that day has an audio URL and a title, and it maps to the last such item's URL and title. |
| Backfill.FillMissing | scripts/backfill-audio-urls.ts:150-159 | Each of `audioUrl` and `title` is taken from the episode only when missing or empty; date and other fields are untouched; `updated` says whether either was missing, which with non-empty episode values is exactly when the record changed. |
| Backfill.Basename | scripts/backfill-audio-urls.ts:144 | The entry name without its `.json` suffix, unless the suffix is the whole name. |
| Backfill.FileNameKey | scripts/backfill-audio-urls.ts:144-145 | A record with a falsy date is looked up under its file name `d.json` with the suffix removed, d. |
| Backfill.UpdateTranscription | scripts/backfill-audio-urls.ts:136-168 | Skipped exactly when both fields are present; no episode exactly when otherwise the key is not in the map; filled with the fill rule's record otherwise, keeping present fields, date and other fields. |
| Backfill.UpdateDataFile | scripts/backfill-audio-urls.ts:185-203 | Skipped exactly when both fields are present or the date is falsy. No episode exactly when otherwise the date is not in the map. Filled in every remaining case, from the episode for its date, keeping present fields, date and other fields. |
| Backfill.RunBackfill | scripts/backfill-audio-urls.ts:118-125 | A missing transcriptions directory, or one that cannot be listed, writes nothing and counts nothing. |
| Backfill.TranscriptionPassWrites | scripts/backfill-audio-urls.ts:132-172 | The transcription loop appends exactly the writes of the filled files, and the counter grows by the number of writes. |
| Backfill.DataPassWrites | scripts/backfill-audio-urls.ts:177-209 | The data-file loop appends exactly the writes of the filled data files, in list order, and the counter grows by the number of writes. |
| Backfill.DataWrittenIff | scripts/backfill-audio-urls.ts:175-209 | A write comes from the data-file loop exactly when some listed data file exists, parses, and its update filled it with that record. |
| Backfill.TranscriptionWrittenIff | scripts/backfill-audio-urls.ts:123-172 | A write comes from the transcription loop exactly when some `.json` entry parsed and its update filled it with that record. |
| Backfill.CountEqualsWrites | scripts/backfill-audio-urls.ts:129-211 | The final `updatedCount` equals the number of files written, and the writes are the filled transcription files in directory order followed by the filled data files in list order. |
| Backfill.WrittenIff | scripts/backfill-audio-urls.ts:123-209 | A file is written by the whole run, with a given record, exactly when it is a parsed `.json` transcription entry or a parsed summary data file whose update filled it with that record. |
| WordClicks.Handle | pages/api/word-clicks.ts:4-39 | A 405 happens exactly for a non-POST request, and it makes no database call. A 500 happens exactly when a POST's init fails, its body is undefined or null, or its valid row's insert throws; the reply is then the internal-error message. A 400 happens exactly when a field check fails, before any insert. A 200 happens exactly when the checks pass and the insert resolves, with its result as data. A valid POST after a successful init calls the insert with that row, and a row is inserted only when valid. |
| WordClicks.UtteranceIdZeroAccepted | pages/api/word-clicks.ts:21 | An `utterance_id` of 0 passes the check although 0 is falsy. |
| WordClicks.UtteranceIdMissingRefused | pages/api/word-clicks.ts:21-23 | A body without `utterance_id` is refused with 400 after init and before any insert. |
| LatestRedirect.OccursShift | pages/index.tsx:18 | An occurrence at i ≥ 1 is an occurrence at i − 1 of the tail. |
| LatestRedirect.FindFirst | pages/index.tsx:18 | The position of the first occurrence of the pattern, with none before it, or none at all. |
| LatestRedirect.RemoveFirst | pages/index.tsx:18 | `replace` with a string removes only the first occurrence, or returns the name unchanged. |
| LatestRedirect.Candidates | pages/index.tsx:16-18 | No more candidates than names. |
| LatestRedirect.CandidatesIff | pages/index.tsx:16-18 | A stem is a candidate exactly when some name ends in `.json` and loses its first `.json` to that stem. |
| LatestRedirect.StemOfPlainName | pages/index.tsx:18 | `d.json` with no dot in d yields d. |
| LatestRedirect.Insert | pages/index.tsx:19 | Insertion adds the element to the multiset and puts either it or the old head first. |
| LatestRedirect.SortNewestFirst | pages/index.tsx:19 | The sort is a permutation. |
| LatestRedirect.InsertBounded | pages/index.tsx:19 | Insertion keeps every key under a common bound. |
| LatestRedirect.InsertKeepsOrder | pages/index.tsx:19 | Insertion into a newest-first list keeps it newest first. |
| LatestRedirect.SortIsNewestFirst | pages/index.tsx:19 | The sorted stems are newest first. |
| LatestRedirect.NewestIndex | pages/index.tsx:19-22 | The first stem with the greatest key. |
| LatestRedirect.SortHeadIsNewest | pages/index.tsx:19-22 | The stable descending sort puts the first newest stem at the head. |
| LatestRedirect.LatestRedirect | pages/index.tsx:9-41 | Never permanent. A missing or unreadable directory, or one with no `.json` entry, leads to `/404`. Otherwise it redirects to `/` + the first stem with the newest date, which no candidate beats. |
| UserId.GenerateUserId | lib/userId.ts:1-3 | The id is `user_`, the clock's decimal digits, `_` and the random part. |
| UserId.GetUserId | lib/userId.ts:5-16 | On the server: `''` and no storage. On the client: the stored id when it is non-empty; otherwise the generated id, which is also stored. Only the id key changes. |
| UserId.GetTwiceSameId | lib/userId.ts:5-16 | Asking twice returns the same id and writes nothing the second time, whatever the clock and random source give. |
| UserId.SetThenGet | lib/userId.ts:5-21 | After setting a non-empty id, getting returns it without writing; after setting `''`, getting makes a fresh id. |

## Left out

- Network calls are outside the model: the OpenAI request (`fetch`, the HTTP status, the JSON body), the RSS download and paging (`fetchAllRSSItems`) and the XML parsing. The reply content of one translation batch is the oracle's value, and a failed request is `None`. A reply without `choices[0]` or without content gives the content `''` through `?.` and `|| ''`; EmptyReply shows that every text then falls back to the original, the same outcome as a failed request. The RSS items are an input list.
- `parseDate` is not modelled. Each RSS item carries its already-parsed day. An unparsable `pubDate` makes `toISOString` throw outside any `try`, which aborts the whole script; that is not modelled.
- The xml2js shape of `title` (an array or a string) is not modelled; the item carries its title as a string.
- The file system is outside the model: reading, JSON parsing, serialising and writing. A file that cannot be read or parsed is `Unreadable`, which the source's `catch` skips. A failing `writeFileSync` is not modelled. A transcriptions directory that exists but cannot be listed makes `readdirSync` throw outside any `try`, which aborts the script before any file is written; the model gives it as `UnlistableDirectory`, with no writes and a zero count, and does not model the abort itself.
- Concurrency (`Promise.all`) and the 100 ms delays are not modelled. Batches are applied in plan order. WriteOrderIrrelevant shows that any completion order gives the same results.
- The outer `catch` of `translateUtterances` is not modelled: `translateBatch` already catches every failure, so the model never reaches it. Translate.UntranslatedFallback models the fallback it would return; AllRequestsFail shows that it is also what the model returns when every request fails.
- The database is outside the model: the `initDatabase` success flag and the `insertWordClick` result (or its failure) are inputs.
- The order of the redirect's dates (`new Date(...).getTime()`) is a key function on stems. Invalid dates (NaN comparisons) are not modelled.
- `Date.now`, `Math.random` and the `toString(36)` formatting are not modelled: they are arguments of GenerateUserId. Exceptions from `localStorage` are not modelled.
- The DOM, React rendering, auto-scroll, the progress-bar width and the icons are not modelled. Only the per-word style decision and the two clock labels are.
- Player.TogglePlayPause: does not model a rejected `play()` promise. ToggleKeepsSync assumes every `play()` succeeds. Its own contract spells out the two branches only; ToggleKeepsSync and ToggleTwice state what a toggle achieves.
- Floating point is modelled as real arithmetic. NaN, infinities and rounding are not modelled. `Math.floor`, `/` and `%` act on exact reals.
- Console logging and the final summary message are not modelled.
- Player.RemainingLabel: has no contract of its own; OverrunLabel pins its output on a negative remaining time, and FormatTimeDigits covers it whenever the remaining time is non-negative.
- Text.PadStart: has no contract of its own; PaddedSeconds states what the clock needs from it.
- Text.Trim: has no contract of its own, nor have Text.TrimStart and Text.TrimEnd; their properties are the Text lemmas in the table.
- Translate.TranslateUtterances: its own contract gives only the length; the content of each utterance is stated by TranslateUtterancesShape and AllRequestsFail.
- Translate.PlanWrites: its own contract gives only the number of writes; PlanWriteAt and PlanWritesFollowPlan state each write.
- Translate.ApplyWrites: its own contract gives only the length; ApplyWritesCovered, ApplyWritesUncovered and WriteOrderIrrelevant state the contents.
- Backfill.RunBackfill: its own contract covers only the missing or unlistable directory; CountEqualsWrites, WrittenIff, TranscriptionWrittenIff and DataWrittenIff state the rest.
- Backfill.LookupKey: its own contract spells out the two branches only; FileNameKey and UpdateTranscription state the lookup it gives.
- Backfill.DataWrites and Backfill.TranscriptionWrites: reference lists of the files each loop fills, with no contract of their own; DataPassWrites, TranscriptionPassWrites and the two WrittenIff lemmas connect them to the loops.
- LatestRedirect.Candidates: its own contract bounds the length only; CandidatesIff states the membership.
- LatestRedirect.SortNewestFirst: its own contract states the permutation only; SortIsNewestFirst and SortHeadIsNewest state the order.
- Grouper.RunsFrom: its own contract states that the runs are non-empty only; RunsFromFlatten, RunsFromChains and RunsFromBorders state the partition.
- Grouper.Runs: its own contract states that the runs are non-empty only; RunsPartition states the partition.
- Player.Styles: its own contract gives the shape and the per-word style only; StylesRead states how a rendered line reads.
- Translate.Store: its own contract spells out the slot update only; ApplyWritesCovered and ApplyWritesUncovered state what a sequence of stores leaves in each slot.
- Translate.Unfilled: its own contract states the empty start only; PlannedSlot states what each slot holds after the writes.
- Translate.UntranslatedFallback: its own contract spells out the fallback record only; AllRequestsFail connects it to the translation path.
- UserId.SetUserId: its own contract spells out the store only; SetThenGet states what a later get returns.
- Player.OnEnded: its own contract spells out the record update only; EndedKeepsSync states what the end of the track achieves.
- Player.OnTimeUpdate: its own contract spells out the record update only; TimeUpdateKeepsSync states that a time update keeps the flag in step with the audio element.
- Translate.OrText: its own contract spells out the `||` only; OrTextKeepsSlot shows it never changes a slot, and TranslateUtterancesShape and AllRequestsFail state the translated utterances.
