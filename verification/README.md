# A verified model of the goethe-a1-tts read-aloud page

The page shows a German A1 vocabulary list: each entry has a word, an example
sentence and an English meaning. The page reads the list aloud through the
browser's speech engine. The script does four things, and this model covers
each of them:

- **Parsing.** It reads the list from a `;`-separated text file, one entry
  per line (`Vocabulary`).
- **Normalising.** Before a word is spoken, it keeps only the text before the
  first comma and deletes parenthesised glosses (`Normalizer`, built on the
  JavaScript string primitives in `Strings`).
- **Progress.** It remembers the entry it was reading in local storage, and
  the main button says "Continue" or "Read All" accordingly (`Progress`).
- **Playback.** It plays a word, a 500 ms pause, the example, another pause,
  then moves to the next entry. Row clicks start playback at that row, and
  there are stop and reset buttons (`Playback`).

`Playback` models the playback controller as a pure transition system:

- **State.** The state holds `isSpeaking`, `currentSpeakingIndex`, the stored
  progress, the speech engine's queue and the pending timeouts.
- **Queue.** The queue is first-in first-out. Only its head's `onend` handler
  can run next.
- **Timeouts.** `cancel()` empties the queue, and the handlers of the
  cancelled utterances never run. Pending timeouts are a multiset that
  `cancel()` does not touch, because nothing in the page clears them.
- **Continuations.** Every asynchronous continuation carries the entry index
  its closure captured.
- **Events.** Clicks and callbacks are events. `Run` applies a sequence of
  events and returns `None` when one of them cannot happen, for example an
  `onend` with an empty queue.
- **Utterances.** Each utterance is recorded by the string it was built from,
  plus a flag saying whether that string went through `cleanTextForSpeech`.
  `Heard` gives the text actually spoken.

## Model

| member | source | states |
|---|---|---|
| `Normalizer.BeforeComma` | script.js:9 | the result has no comma, is a prefix of the text, and stops at the first comma or at the end |
| `Normalizer.BeforeCommaUnique` | script.js:9 | any prefix without a comma that stops at a comma or at the end is the one `BeforeComma` returns |
| `Normalizer.BeforeCommaIsFirstPiece` | script.js:9 | `BeforeComma` is the first piece of `split(',')` |
| `Strings.SpaceCharacters` | script.js:9-10 | the white space `trim()` and `\s` remove: among ASCII exactly TAB, LF, VT, FF, CR and SPACE; also NBSP, the ideographic space, LS and the byte-order mark; not the zero-width space, NEL or the Mongolian vowel separator |
| `Strings.Trim` | script.js:9 | `trim()` leaves no white space at either end and removes only all-white-space runs at the two ends |
| `Strings.TrimOfTrimmed` | script.js:10 | trimming text that is already trimmed changes nothing |
| `Strings.Split` | script.js:69 | `split(d)` gives one more piece than there are separators, no piece holds the separator, and joining the pieces gives the text back |
| `Strings.SplitJoin` | script.js:66 | splitting a join of separator-free pieces gives the pieces back |
| `Normalizer.MatchAt` | script.js:10 | a match of `\s*\([^)]*\)\s*` is at least two characters long and ends before white space or at the end of the text |
| `Normalizer.MatchAtIsMatch` | script.js:10 | what `MatchAt` reports is a match of the regular expression's language (white space, `(`, no `)`, `)`, white space) |
| `Normalizer.MatchAtFindsMatch` | script.js:10 | every match of the regular expression that takes all the white space after it is the match `MatchAt` reports |
| `Normalizer.StripFrom` | script.js:10 | the global replacement scanned from position `i` never yields more characters than remain from `i` |
| `Normalizer.StripFromClean` | script.js:10 | no `(` followed later by `)` survives the global replacement, and the replacement adds no `)` |
| `Normalizer.StripGroups` | script.js:10 | after the global replacement no complete parenthesised group remains |
| `Normalizer.StripGroupsSubsequence` | script.js:10 | the replacement only deletes characters |
| `Normalizer.StripGroupsNoGroup` | script.js:10 | text without a complete group passes through the replacement unchanged |
| `Normalizer.StripFromPlainRun` | script.js:10 | a run of text without `(` that ends on a non-space character is copied through unchanged |
| `Normalizer.StripGroupsBetweenWords` | script.js:10 | one group between two plain runs disappears together with the white space around it |
| `Normalizer.CleanText` | script.js:7-12 | an empty text gives an empty result; any result has no comma, no white space at either end and no complete parenthesised group |
| `Normalizer.CleanTextSubsequence` | script.js:7-12 | the normaliser only deletes characters of its input, keeping their order |
| `Normalizer.CleanTextIdempotent` | script.js:7-12 | normalising a normalised text changes nothing |
| `Normalizer.CleanTextDropsAnnotation` | script.js:7-12 | a word followed by a parenthesised gloss and comma alternatives is read as the bare word ("Hund (dog), canine" reads "Hund") |
| `Normalizer.CleanTextKeepsUnclosedGroup` | script.js:7-12 | a gloss containing a comma is cut before its `)` and its `(` is spoken ("Hund (dog, canine)" reads "Hund (dog") |
| `Normalizer.CleanTextJoinsWords` | script.js:7-12 | a group between two words takes the white space on both sides with it, so the words run together ("Guten Tag (formal) Herr" reads "Guten TagHerr") |
| `Vocabulary.ParseLine` | script.js:69-74 | fields contain no `;`, and the stored form of the entry, padded with two `;` for missing fields, is the longest prefix of the line with exactly two separators |
| `Vocabulary.Field` | script.js:71-73 | the fallback to `''` for a field: a missing piece and an empty piece both read as the empty string; any other piece is taken as it is |
| `Vocabulary.ParseLineOfLine` | script.js:69-74 | a well-formed entry written as `word;example;meaning` reads back as itself |
| `Vocabulary.ParseLines` | script.js:68-75 | `lines.map`: one entry per line, entry `i` being line `i` read by `ParseLine` |
| `Vocabulary.Parse` | script.js:66-75 | entry `i` is line `i` of the trimmed text (split on line feeds) read by `ParseLine`; there is one entry per line break plus one, each without `;` or line breaks in its fields |
| `Vocabulary.ParseBlank` | script.js:66-75 | an empty or blank file gives a single entry with three empty fields |
| `Vocabulary.ParseSerialize` | script.js:66-75 | writing a non-empty list of well-formed entries and parsing it gives the list back, provided the file has no white space at either end |
| `Progress.Save` | script.js:144-148 | an in-range index is stored; an out-of-range one leaves the store as it was |
| `Progress.Load` | script.js:150-159 | the result is -1 or a position in the list; it is a position exactly when the stored value is one, and then it is the stored value |
| `Progress.Clear` | script.js:161-163 | the saved value is removed, so a load finds nothing for any list length |
| `Progress.ButtonLabel` | script.js:165-173 | the button says "Continue" exactly when a stored index is a position in the current list |
| `Progress.LoadAfterSave` | script.js:144-159 | a save followed by a load returns the saved index when it was in range; otherwise the load sees what it saw before |
| `Progress.LoadAfterClear` | script.js:161-173 | after a clear, a load returns -1 and the button says "Read All" |
| `Progress.StaleIndexIgnored` | script.js:150-159 | a stored index that a shorter list no longer reaches reads as absent, and the button says "Read All" |
| `Playback.HeardEntry` | script.js:201-216 | a word is heard normalised: no comma, trimmed, no complete group, only its own characters in order; an example is heard exactly as written |
| `Playback.Init` | script.js:277-280 | the page-ready state: not speaking, current index -1, the store as an earlier visit left it, nothing queued, pending or said |
| `Playback.Speak` | script.js:233 | `speechSynthesis.speak` appends the utterance to the queue and to the record of what was said, changing nothing else |
| `Playback.SpeakWordAndExample` | script.js:188-234 | past the end, or once stopped, playback ends and the saved value is removed; otherwise the index becomes current and is saved, the button offers "Continue", and the word is queued with a handler carrying the example |
| `Playback.StartIndex` | script.js:240-242 | an out-of-range start becomes 0; an in-range one is kept |
| `Playback.StartReading` | script.js:236-248 | the queue is replaced by the start entry's word, the clamped start is current and saved, and pending timeouts survive; an empty list ends playback at once |
| `Playback.ReadAllWords` | script.js:250-254 | playback starts at the stored index when it is a position in the list, at 0 otherwise |
| `Playback.StopSpeech` | script.js:256-266 | playback is off, the queue is empty, the current index is saved when in range and the stored value is left untouched otherwise, and timeouts survive |
| `Playback.ResetProgress` | script.js:268-275 | playback is off, nothing is stored, the button says "Read All", the current index is -1 and the queue is empty |
| `Playback.OnUtteranceEnd` | script.js:210-213 | the head leaves the queue; a word or example handler schedules its pause only while playback is on |
| `Playback.OnTimer` | script.js:213-230 | the pause after a word queues the example only while playback is on; the pause after an example starts the next entry, or ends playback and clears progress, without checking whether playback is on |
| `Playback.SpeakCell` | script.js:14-60 | an empty text does nothing; otherwise the queue becomes the normalised text alone, with no handler, and the playback flags are untouched |
| `Playback.Next` | script.js:284-286 | any click or callback (row click, the three buttons, a cell's speak button, an `onend`, a timeout) extends the record of what was said by at most one utterance, and only a timeout firing removes a pending timeout |
| `Playback.CellSpeakStallsPlayback` | script.js:14-28 | a cell's speak button pressed while an entry's word is being spoken and no pause is pending cancels the word and its continuation: playback stays on, but no callback is left to say anything more |
| `Playback.StoppedStaysSilent` | script.js:210-231 | once playback is off, no sequence of callbacks turns it on again or says anything |
| `Playback.InitConsistent` | script.js:277-280 | the page starts in a consistent state |
| `Playback.NextConsistent` | script.js:188-275 | every event keeps each pending handler and timeout tied to an entry of the list, with that entry's example |
| `Playback.StopThenStaleTimerLosesProgress` | script.js:224-226 | a pause after an example that fires after a stop clears the progress the stop saved |
| `Playback.ResumeAfterStop` | script.js:250-266 | stop then speak resumes at the entry that was being read when no timeout runs in between |
| `Playback.Recital` | script.js:188-234 | an undisturbed playback from entry `i` says two utterances per remaining entry |
| `Playback.RecitalEntries` | script.js:188-234 | the recital gives entry `i+k`'s word at position `2k` and its example at `2k+1` |
| `Playback.EntryStep` | script.js:210-231 | an entry's four callbacks say its example and then queue and save the next word, or end playback after the last entry |
| `Playback.PlaysToEnd` | script.js:188-234 | an undisturbed sequence at entry `i` reads every remaining entry in order, then stops with nothing stored or pending |
| `Playback.ReadsToEnd` | script.js:236-248 | a row click with no stale timeout pending reads from the clamped start to the end of the list, then clears the progress |
| `Playback.ReadAllReadsToEnd` | script.js:250-254 | the speak button reads from the stored entry, or from the first, to the end |
| `Playback.StopDuringPauseLosesProgress` | script.js:222-226 | a stop during the pause after the first example shows "Continue"; when the pause then elapses, playback ends with "Read All" |
| `Playback.RowClickDuringPauseRunsTwoSequences` | script.js:224-226 | a row click during that pause leaves the old timeout pending; it queues a second word and moves the current index back |

## Left out

- The DOM: table rendering, row highlighting, scrolling, the loading overlay and the error message. They are presentation only.
- `fetch` of the vocabulary file and its error path. This is network I/O; the model starts from the fetched text.
- Local storage is modelled as an optional integer. The string round trip through `toString` and `parseInt` is not modelled, nor is a stored value that is not a number.
- Utterance rate, pitch and volume are floating-point settings that do not affect sequencing.
- The speech engine delivering `onend` for a cancelled utterance. The model assumes cancelled utterances' handlers never run.
- The row-click guards: clicks on a cell's speak button and clicks while text is selected do not start playback. These are DOM event filtering.
- The `beforeunload` handler and the unsupported-browser alert. They are page lifecycle only.
- Characters are Unicode scalar values rather than UTF-16 code units. Surrogate pairs are not modelled.
- `Save` follows the code: an out-of-range index leaves the stored value in place rather than making it absent, so a later load still sees the earlier value.
- Stale callbacks are not all ignored. The pause after an example calls `speakWordAndExample(index + 1)` without checking `isSpeaking`, and `StopDuringPauseLosesProgress` and `StopThenStaleTimerLosesProgress` state the consequence.
- At most one utterance queued is not an invariant of the code: `RowClickDuringPauseRunsTwoSequences` shows two sequences' words queued together. Nothing here claims that only one sequence runs at a time, or that resuming always continues where playback stopped.
- There is no separate stopped state. Stopped is `isSpeaking` false with the current index kept, as in the code.
- Playback.ReadAllWords: its contract gives only the start position and that playback is on. The full effect is stated through `StartReading`, and `ReadAllReadsToEnd` gives the whole playback.
