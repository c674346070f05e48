/**
  The read-aloud controller: `speakWordAndExample`, `startReadingFromIndex`,
  `speakAllWordsAndExamples`, `stopSpeech`, `resetProgress` and the
  single-cell speak buttons, as transitions of one immutable state.

  The speech engine is a first-in first-out queue of utterances; only the
  head is being spoken, so only its `onend` handler can run next. A call to
  `cancel()` empties the queue and the cancelled utterances' handlers never
  run. Pending `setTimeout` callbacks are kept apart, in a multiset, because
  nothing in the page ever clears them: `cancel()` leaves them in place.
 */
module Playback {
  import opened Wrappers
  import opened Strings
  import opened Normalizer
  import opened Vocabulary
  import opened Progress

  datatype Lang = German | English

  /** An utterance handed to the engine, recorded by the string it was made
      from: `normalised` says whether that string went through
      `cleanTextForSpeech` first. What the engine says is `Heard(u)`. */
  datatype Utterance = Utterance(source: string, lang: Lang, normalised: bool)

  function Heard(u: Utterance): string {
    if u.normalised then CleanText(u.source) else u.source
  }

  /** The `onend` handler attached to a queued utterance. The handlers
      capture the entry's index and, for the word, the entry's example. */
  datatype OnEnd =
    | NoHandler                                   // a single-cell speak button
    | AfterWord(index: nat, example: string)      // wordUtterance.onend
    | AfterExample(index: nat)                    // exampleUtterance.onend

  datatype Queued = Queued(utterance: Utterance, onEnd: OnEnd)

  /** A pending 500 ms `setTimeout` callback. */
  datatype Timer =
    | WordPause(index: nat, example: string)      // the pause after a word
    | ExamplePause(index: nat)                    // the pause after an example

  datatype Player = Player(
    speaking: bool,          // isSpeaking
    current: int,            // currentSpeakingIndex
    store: Store,            // the saved progress in local storage
    queue: seq<Queued>,      // the speech engine's queue, head first
    timers: multiset<Timer>, // pending timeouts
    spoken: seq<Utterance>   // every utterance handed to the engine, in order
  )

  /** The state once the page is ready: nothing spoken, nothing pending,
      whatever a previous visit left in local storage. */
  function Init(store: Store): (p: Player)
    ensures !p.speaking && p.current == -1 && p.store == store
    ensures p.queue == [] && p.timers == multiset{} && p.spoken == []
  {
    Player(false, -1, store, [], multiset{}, [])
  }

  function WordUtterance(vocab: seq<Entry>, i: nat): Utterance
    requires i < |vocab|
  {
    Utterance(vocab[i].word, German, true)
  }

  function ExampleUtterance(example: string): Utterance {
    Utterance(example, German, false)
  }

  /** What `speakWordAndExample(i)` puts in the queue. */
  function WordQueued(vocab: seq<Entry>, i: nat): Queued
    requires i < |vocab|
  {
    Queued(WordUtterance(vocab, i), AfterWord(i, vocab[i].example))
  }

  /** An entry's word is heard normalised: nothing from its first comma on,
      no white space at either end, no complete parenthesised group, and
      only characters of the word, in their order. Its example is heard
      exactly as written. */
  lemma HeardEntry(vocab: seq<Entry>, i: nat)
    requires i < |vocab|
    ensures var t := Heard(WordUtterance(vocab, i));
      && ',' !in t && IsTrimmed(t) && NoClosedGroup(t)
      && IsSubsequence(t, vocab[i].word)
    ensures Heard(ExampleUtterance(vocab[i].example)) == vocab[i].example
  {
    CleanTextSubsequence(vocab[i].word);
  }

  /** `speechSynthesis.speak`: append to the queue and to the record of what
      was said. */
  function Speak(p: Player, q: Queued): (r: Player)
    ensures r.queue == p.queue + [q]
    ensures r.spoken == p.spoken + [q.utterance]
    ensures r.speaking == p.speaking && r.current == p.current
    ensures r.store == p.store && r.timers == p.timers
  {
    p.(queue := p.queue + [q], spoken := p.spoken + [q.utterance])
  }

  /** Playback has ended: not speaking, the saved progress removed, so no
      list of any length resumes from it, and the button offers "Read All". */
  predicate Finished(p: Player, len: int) {
    && !p.speaking
    && p.store == None
    && Load(p.store, len) == -1
    && ButtonLabel(p.store, len) == ReadAll
  }

  /** `speakWordAndExample(index)`. Past the end of the list, or once
      playback has been stopped, it ends playback and clears the saved
      progress; otherwise it records and saves `index` and queues the
      normalised word, whose end handler carries the entry's example. */
  function SpeakWordAndExample(vocab: seq<Entry>, p: Player, index: nat): (r: Player)
    ensures (index >= |vocab| || !p.speaking) ==>
      && Finished(r, |vocab|)
      && r.current == p.current && r.queue == p.queue
      && r.timers == p.timers && r.spoken == p.spoken
    ensures (index < |vocab| && p.speaking) ==>
      && r.speaking && r.current == index
      && Load(r.store, |vocab|) == index
      && ButtonLabel(r.store, |vocab|) == Continue
      && r.queue == p.queue + [WordQueued(vocab, index)]
      && r.spoken == p.spoken + [WordUtterance(vocab, index)]
      && r.timers == p.timers
  {
    if index >= |vocab| || !p.speaking then
      p.(speaking := false, store := Clear())
    else
      var saved := p.(current := index, store := Save(p.store, |vocab|, index));
      Speak(saved, WordQueued(vocab, index))
  }

  /** The start index `startReadingFromIndex` actually uses. */
  function StartIndex(startIndex: int, len: int): (s: nat)
    ensures InRange(startIndex, len) ==> s == startIndex
    ensures !InRange(startIndex, len) ==> s == 0
  {
    if startIndex < 0 || startIndex >= len then 0 else startIndex
  }

  /** `startReadingFromIndex(startIndex)`: cancel whatever is being said,
      replace an out-of-range start by 0, save it and speak that entry. On
      an empty list playback ends at once. Pending timeouts are untouched. */
  function StartReading(vocab: seq<Entry>, p: Player, startIndex: int): (r: Player)
    ensures var s := StartIndex(startIndex, |vocab|);
      |vocab| > 0 ==>
        && r.speaking && r.current == s
        && Load(r.store, |vocab|) == s
        && r.queue == [WordQueued(vocab, s)]
        && r.spoken == p.spoken + [WordUtterance(vocab, s)]
        && r.timers == p.timers
    ensures |vocab| == 0 ==>
      && Finished(r, 0) && r.current == 0
      && r.queue == [] && r.spoken == p.spoken && r.timers == p.timers
  {
    var s := StartIndex(startIndex, |vocab|);
    var started := p.(queue := [], speaking := true, current := s,
                      store := Save(p.store, |vocab|, s));
    SpeakWordAndExample(vocab, started, s)
  }

  /** `speakAllWordsAndExamples`: resume from the saved index when it is
      still valid, from the first entry otherwise. */
  function ReadAllWords(vocab: seq<Entry>, p: Player): (r: Player)
    ensures |vocab| > 0 ==>
      && r.speaking
      && r.current == (if p.store.Some? && InRange(p.store.value, |vocab|) then p.store.value else 0)
  {
    var saved := Load(p.store, |vocab|);
    StartReading(vocab, p, if saved >= 0 then saved else 0)
  }

  /** `stopSpeech`: stop and cancel, and save the current index so that
      playback can resume there; an index the list does not reach is not
      saved. */
  function StopSpeech(vocab: seq<Entry>, p: Player): (r: Player)
    ensures !r.speaking && r.queue == []
    ensures Load(r.store, |vocab|) == (if InRange(p.current, |vocab|) then p.current else Load(p.store, |vocab|))
    ensures !InRange(p.current, |vocab|) ==> r.store == p.store
    ensures r.current == p.current && r.timers == p.timers && r.spoken == p.spoken
  {
    var stopped := p.(speaking := false, queue := []);
    if p.current >= 0 then stopped.(store := Save(p.store, |vocab|, p.current)) else stopped
  }

  /** `resetProgress`: forget the saved index and the current one, stop and
      cancel. */
  function ResetProgress(vocab: seq<Entry>, p: Player): (r: Player)
    ensures Finished(r, |vocab|)
    ensures r.current == -1 && r.queue == []
    ensures r.timers == p.timers && r.spoken == p.spoken
  {
    p.(store := Clear(), current := -1, speaking := false, queue := [])
  }

  /** The head of the queue finishes and its `onend` handler runs. The word
      and example handlers do nothing once playback is stopped; otherwise
      they schedule the 500 ms pause. */
  function OnUtteranceEnd(p: Player): (r: Player)
    requires |p.queue| > 0
    ensures r.queue == p.queue[1..]
    ensures r.speaking == p.speaking && r.current == p.current
    ensures r.store == p.store && r.spoken == p.spoken
    ensures !p.speaking || p.queue[0].onEnd.NoHandler? ==> r.timers == p.timers
    ensures p.speaking && p.queue[0].onEnd.AfterWord? ==>
      r.timers == p.timers + multiset{WordPause(p.queue[0].onEnd.index, p.queue[0].onEnd.example)}
    ensures p.speaking && p.queue[0].onEnd.AfterExample? ==>
      r.timers == p.timers + multiset{ExamplePause(p.queue[0].onEnd.index)}
  {
    var rest := p.(queue := p.queue[1..]);
    match p.queue[0].onEnd
    case NoHandler => rest
    case AfterWord(i, example) =>
      if !p.speaking then rest else rest.(timers := rest.timers + multiset{WordPause(i, example)})
    case AfterExample(i) =>
      if !p.speaking then rest else rest.(timers := rest.timers + multiset{ExamplePause(i)})
  }

  /** A pending timeout fires. The pause after a word checks that playback
      is still on before queueing the example; the pause after an example
      calls `speakWordAndExample(index + 1)` without any check. */
  function OnTimer(vocab: seq<Entry>, p: Player, t: Timer): (r: Player)
    requires t in p.timers
    ensures r.timers == p.timers - multiset{t}
    ensures t.WordPause? && !p.speaking ==>
      && r.queue == p.queue && r.spoken == p.spoken
      && !r.speaking && r.current == p.current && r.store == p.store
    ensures t.WordPause? && p.speaking ==>
      && r.queue == p.queue + [Queued(ExampleUtterance(t.example), AfterExample(t.index))]
      && r.spoken == p.spoken + [ExampleUtterance(t.example)]
      && r.speaking && r.current == p.current && r.store == p.store
    ensures t.ExamplePause? && (t.index + 1 >= |vocab| || !p.speaking) ==>
      && Finished(r, |vocab|)
      && r.queue == p.queue && r.spoken == p.spoken && r.current == p.current
    ensures t.ExamplePause? && t.index + 1 < |vocab| && p.speaking ==>
      && r.speaking && r.current == t.index + 1
      && Load(r.store, |vocab|) == t.index + 1
      && r.queue == p.queue + [WordQueued(vocab, t.index + 1)]
      && r.spoken == p.spoken + [WordUtterance(vocab, t.index + 1)]
  {
    var fired := p.(timers := p.timers - multiset{t});
    match t
    case WordPause(i, example) =>
      if !p.speaking then fired
      else Speak(fired, Queued(ExampleUtterance(example), AfterExample(i)))
    case ExamplePause(i) =>
      SpeakWordAndExample(vocab, fired, i + 1)
  }

  /** `speakGerman` / `speakEnglish`, behind the per-cell buttons: nothing for
      an empty text; otherwise cancel and speak the normalised text. The
      playback flags are not touched, so a sequence in progress loses its
      queued utterance and with it the handler that would continue it. */
  function SpeakCell(p: Player, text: string, lang: Lang): (r: Player)
    ensures |text| == 0 ==> r == p
    ensures |text| > 0 ==>
      && r.queue == [Queued(Utterance(text, lang, true), NoHandler)]
      && r.spoken == p.spoken + [Utterance(text, lang, true)]
      && r.speaking == p.speaking && r.current == p.current
      && r.store == p.store && r.timers == p.timers
  {
    if |text| == 0 then p
    else Speak(p.(queue := []), Queued(Utterance(text, lang, true), NoHandler))
  }

  /** What can happen next: a user action or an asynchronous callback. */
  datatype Event =
    | RowClicked(index: int)
    | SpeakClicked
    | StopClicked
    | ResetClicked
    | CellSpeakClicked(text: string, lang: Lang)
    | UtteranceEnded
    | TimerFired(timer: Timer)

  /** The callbacks can only run when something is pending. */
  predicate Enabled(p: Player, e: Event) {
    match e
    case UtteranceEnded => |p.queue| > 0
    case TimerFired(t) => t in p.timers
    case _ => true
  }

  /** One event. Whatever it is, the record of what was handed to the
      engine only grows, by at most one utterance, and no event but a timer
      firing removes a pending timeout: nothing in the page cancels one. */
  function Next(vocab: seq<Entry>, p: Player, e: Event): (r: Player)
    requires Enabled(p, e)
    ensures p.spoken <= r.spoken && |r.spoken| <= |p.spoken| + 1
    ensures !e.TimerFired? ==> p.timers <= r.timers
    ensures e.TimerFired? ==> r.timers == p.timers - multiset{e.timer}
  {
    match e
    case RowClicked(i) => StartReading(vocab, p, i)
    case SpeakClicked => ReadAllWords(vocab, p)
    case StopClicked => StopSpeech(vocab, p)
    case ResetClicked => ResetProgress(vocab, p)
    case CellSpeakClicked(text, lang) => SpeakCell(p, text, lang)
    case UtteranceEnded => OnUtteranceEnd(p)
    case TimerFired(t) => OnTimer(vocab, p, t)
  }

  /** The state after `events`, or None when one of them cannot happen. */
  function Run(vocab: seq<Entry>, p: Player, events: seq<Event>): Option<Player>
    decreases |events|
  {
    if |events| == 0 then Some(p)
    else if !Enabled(p, events[0]) then None
    else Run(vocab, Next(vocab, p, events[0]), events[1..])
  }

  lemma {:induction false} RunAppend(vocab: seq<Entry>, p: Player, a: seq<Event>, b: seq<Event>)
    ensures Run(vocab, p, a + b) ==
      (match Run(vocab, p, a) case None => None case Some(q) => Run(vocab, q, b))
    decreases |a|
  {
    if |a| > 0 {
      assert (a + b)[0] == a[0];
      assert (a + b)[1..] == a[1..] + b;
      if Enabled(p, a[0]) {
        RunAppend(vocab, Next(vocab, p, a[0]), a[1..], b);
      }
    } else {
      assert a + b == b;
    }
  }

  /** Running `e` and then `rest` is one step followed by the rest. */
  lemma RunCons(vocab: seq<Entry>, p: Player, e: Event, rest: seq<Event>)
    requires Enabled(p, e)
    ensures Run(vocab, p, [e] + rest) == Run(vocab, Next(vocab, p, e), rest)
  {
    assert ([e] + rest)[0] == e;
    assert ([e] + rest)[1..] == rest;
  }

  lemma RunRowClicked(vocab: seq<Entry>, p: Player, i: int, rest: seq<Event>)
    ensures Run(vocab, p, [RowClicked(i)] + rest) == Run(vocab, StartReading(vocab, p, i), rest)
  {
    RunCons(vocab, p, RowClicked(i), rest);
  }

  lemma RunStopClicked(vocab: seq<Entry>, p: Player, rest: seq<Event>)
    ensures Run(vocab, p, [StopClicked] + rest) == Run(vocab, StopSpeech(vocab, p), rest)
  {
    RunCons(vocab, p, StopClicked, rest);
  }

  lemma RunUtteranceEnded(vocab: seq<Entry>, p: Player, rest: seq<Event>)
    requires |p.queue| > 0
    ensures Run(vocab, p, [UtteranceEnded] + rest) == Run(vocab, OnUtteranceEnd(p), rest)
  {
    RunCons(vocab, p, UtteranceEnded, rest);
  }

  lemma RunTimerFired(vocab: seq<Entry>, p: Player, t: Timer, rest: seq<Event>)
    requires t in p.timers
    ensures Run(vocab, p, [TimerFired(t)] + rest) == Run(vocab, OnTimer(vocab, p, t), rest)
  {
    RunCons(vocab, p, TimerFired(t), rest);
  }

  lemma RunEmpty(vocab: seq<Entry>, p: Player)
    ensures Run(vocab, p, []) == Some(p)
  {
  }

  /** A callback of the speech engine or of a timeout, as opposed to a click. */
  predicate IsCallback(e: Event) {
    e.UtteranceEnded? || e.TimerFired?
  }

  /** Once playback is off, callbacks never turn it back on and never say
      anything, however many of them run: only a click can. */
  lemma {:induction false} StoppedStaysSilent(vocab: seq<Entry>, p: Player, events: seq<Event>)
    requires !p.speaking
    requires forall k :: 0 <= k < |events| ==> IsCallback(events[k])
    ensures Run(vocab, p, events).Some? ==>
      !Run(vocab, p, events).value.speaking && Run(vocab, p, events).value.spoken == p.spoken
    decreases |events|
  {
    if |events| > 0 && Enabled(p, events[0]) {
      var q := Next(vocab, p, events[0]);
      assert !q.speaking && q.spoken == p.spoken;
      assert forall k :: 0 <= k < |events[1..]| ==> IsCallback(events[1..][k]);
      StoppedStaysSilent(vocab, q, events[1..]);
    }
  }

  /** The handler attached to a queued utterance refers to an entry of the
      list and carries that entry's example. */
  predicate HandlerFits(vocab: seq<Entry>, h: OnEnd) {
    match h
    case NoHandler => true
    case AfterWord(i, example) => i < |vocab| && example == vocab[i].example
    case AfterExample(i) => i < |vocab|
  }

  predicate TimerFits(vocab: seq<Entry>, t: Timer) {
    match t
    case WordPause(i, example) => i < |vocab| && example == vocab[i].example
    case ExamplePause(i) => i < |vocab|
  }

  /** Every pending continuation belongs to an entry of the list, and the
      current index is -1 before any playback, a position in the list
      afterwards, or 0 when an empty list was started. */
  predicate Consistent(vocab: seq<Entry>, p: Player) {
    && -1 <= p.current
    && (p.current < |vocab| || p.current == 0)
    && (forall k :: 0 <= k < |p.queue| ==> HandlerFits(vocab, p.queue[k].onEnd))
    && (forall t :: t in p.timers ==> TimerFits(vocab, t))
  }

  lemma InitConsistent(vocab: seq<Entry>, store: Store)
    ensures Consistent(vocab, Init(store))
  {
  }

  /** Every event keeps the state consistent. */
  lemma NextConsistent(vocab: seq<Entry>, p: Player, e: Event)
    requires Consistent(vocab, p) && Enabled(p, e)
    ensures Consistent(vocab, Next(vocab, p, e))
  {
    match e
    case UtteranceEnded => EndKeepsConsistent(vocab, p);
    case TimerFired(t) => TimerKeepsConsistent(vocab, p, t);
    case RowClicked(i) => StartKeepsConsistent(vocab, p, i);
    case SpeakClicked => StartKeepsConsistent(vocab, p, if Load(p.store, |vocab|) >= 0 then Load(p.store, |vocab|) else 0);
    case StopClicked =>
    case ResetClicked =>
    case CellSpeakClicked(text, lang) =>
  }

  lemma EndKeepsConsistent(vocab: seq<Entry>, p: Player)
    requires Consistent(vocab, p) && |p.queue| > 0
    ensures Consistent(vocab, OnUtteranceEnd(p))
  {
    var r := OnUtteranceEnd(p);
    assert forall k :: 0 <= k < |r.queue| ==> r.queue[k] == p.queue[k + 1];
    assert HandlerFits(vocab, p.queue[0].onEnd);
  }

  lemma TimerKeepsConsistent(vocab: seq<Entry>, p: Player, t: Timer)
    requires Consistent(vocab, p) && t in p.timers
    ensures Consistent(vocab, OnTimer(vocab, p, t))
  {
    var r := OnTimer(vocab, p, t);
    assert TimerFits(vocab, t);
    assert forall u :: u in r.timers ==> u in p.timers;
    assert forall k :: 0 <= k < |p.queue| ==> r.queue[k] == p.queue[k];
  }

  lemma StartKeepsConsistent(vocab: seq<Entry>, p: Player, i: int)
    requires Consistent(vocab, p)
    ensures Consistent(vocab, StartReading(vocab, p, i))
  {
  }

  /** A cell's speak button pressed while an entry's word is being read
      cancels the word and with it the handler that would continue the
      sequence: once the cell's text ends, playback is still on but no
      callback is left that could say anything more. */
  lemma CellSpeakStallsPlayback(vocab: seq<Entry>, p: Player, i: nat, text: string, lang: Lang)
    requires SpeakingEntry(vocab, p, i) && |text| > 0
    ensures var r := Run(vocab, p, [CellSpeakClicked(text, lang), UtteranceEnded]);
      && r.Some? && r.value.speaking && r.value.current == i
      && r.value.queue == [] && r.value.timers == multiset{}
      && (forall e :: IsCallback(e) ==> !Enabled(r.value, e))
  {
    var q := SpeakCell(p, text, lang);
    var tail: seq<Event> := [UtteranceEnded];
    assert [CellSpeakClicked(text, lang), UtteranceEnded] == [CellSpeakClicked(text, lang)] + tail;
    RunCons(vocab, p, CellSpeakClicked(text, lang), tail);
    assert tail == [UtteranceEnded] + [];
    RunUtteranceEnded(vocab, q, []);
  }

  /** The pause after an example is the one continuation that does not
      check `isSpeaking`. Should it fire after a stop, the progress the stop
      has just saved is cleared and the button falls back to "Read All". */
  lemma StopThenStaleTimerLosesProgress(vocab: seq<Entry>, p: Player, i: nat)
    requires ExamplePause(i) in p.timers && InRange(p.current, |vocab|)
    ensures ButtonLabel(StopSpeech(vocab, p).store, |vocab|) == Continue
    ensures ExamplePause(i) in StopSpeech(vocab, p).timers
    ensures Finished(OnTimer(vocab, StopSpeech(vocab, p), ExamplePause(i)), |vocab|)
  {
  }

  /** Stopping and then pressing the speak button resumes at the entry that
      was being read, provided no stale timeout runs in between. */
  lemma ResumeAfterStop(vocab: seq<Entry>, p: Player)
    requires InRange(p.current, |vocab|)
    ensures ReadAllWords(vocab, StopSpeech(vocab, p)).speaking
    ensures ReadAllWords(vocab, StopSpeech(vocab, p)).current == p.current
  {
    LoadAfterSave(p.store, |vocab|, p.current);
  }

  /** The events that take a sequence through one entry: the word ends, the
      pause after it elapses, the example ends, the pause after it elapses. */
  function EntryEvents(vocab: seq<Entry>, i: nat): seq<Event>
    requires i < |vocab|
  {
    [UtteranceEnded, TimerFired(WordPause(i, vocab[i].example)),
     UtteranceEnded, TimerFired(ExamplePause(i))]
  }

  /** The events of an undisturbed playback from entry `i` to the end. */
  function Script(vocab: seq<Entry>, i: nat): seq<Event>
    decreases |vocab| - i
  {
    if i >= |vocab| then [] else EntryEvents(vocab, i) + Script(vocab, i + 1)
  }

  /** What an undisturbed playback from entry `i` says: each entry's
      normalised word, then its example as written, to the end of the list. */
  function Recital(vocab: seq<Entry>, i: nat): (r: seq<Utterance>)
    ensures |r| == if i < |vocab| then 2 * (|vocab| - i) else 0
    decreases |vocab| - i
  {
    if i >= |vocab| then []
    else [WordUtterance(vocab, i), ExampleUtterance(vocab[i].example)] + Recital(vocab, i + 1)
  }

  /** The recital reads the entries in list order, word before example. */
  lemma {:induction false} RecitalEntries(vocab: seq<Entry>, i: nat, k: nat)
    requires i + k < |vocab|
    ensures Recital(vocab, i)[2 * k] == WordUtterance(vocab, i + k)
    ensures Recital(vocab, i)[2 * k + 1] == ExampleUtterance(vocab[i + k].example)
    decreases k
  {
    var here := [WordUtterance(vocab, i), ExampleUtterance(vocab[i].example)];
    var rest := Recital(vocab, i + 1);
    assert Recital(vocab, i) == here + rest;
    if k > 0 {
      RecitalEntries(vocab, i + 1, k - 1);
      assert (here + rest)[2 * k] == rest[2 * (k - 1)];
      assert (here + rest)[2 * k + 1] == rest[2 * (k - 1) + 1];
    }
  }

  /** A single sequence is at entry `i`: its word is the only thing queued
      and no timeout is pending. */
  predicate SpeakingEntry(vocab: seq<Entry>, p: Player, i: nat) {
    && i < |vocab| && p.speaking && p.current == i
    && p.queue == [WordQueued(vocab, i)] && p.timers == multiset{}
  }

  /** A single sequence is at the example of entry `i`: the example is
      the only thing queued and no timeout is pending. */
  predicate SpeakingExample(vocab: seq<Entry>, p: Player, i: nat) {
    && i < |vocab| && p.speaking && p.current == i
    && p.queue == [Queued(ExampleUtterance(vocab[i].example), AfterExample(i))]
    && p.timers == multiset{}
  }

  /** The word of entry `i` ends and, after the pause, its example is
      queued. */
  lemma WordHalf(vocab: seq<Entry>, p: Player, i: nat)
    requires SpeakingEntry(vocab, p, i)
    ensures var r := Run(vocab, p, EntryEvents(vocab, i)[..2]);
      && r.Some? && SpeakingExample(vocab, r.value, i) && r.value.store == p.store
      && r.value.spoken == p.spoken + [ExampleUtterance(vocab[i].example)]
  {
    var pause := WordPause(i, vocab[i].example);
    var p1 := OnUtteranceEnd(p);
    assert p1.timers == multiset{pause};
    var p2 := OnTimer(vocab, p1, pause);
    assert p2.timers == multiset{};
    var e2: seq<Event> := [TimerFired(pause)];
    assert EntryEvents(vocab, i)[..2] == [UtteranceEnded] + e2;
    RunUtteranceEnded(vocab, p, e2);
    assert e2 == [TimerFired(pause)] + [];
    RunTimerFired(vocab, p1, pause, []);
  }

  /** The example of entry `i` ends and, after the pause, either the next
      entry's word is queued and saved, or, after the last entry, playback
      ends and the progress is cleared. */
  lemma ExampleHalf(vocab: seq<Entry>, p: Player, i: nat)
    requires SpeakingExample(vocab, p, i)
    ensures var r := Run(vocab, p, EntryEvents(vocab, i)[2..]);
      && r.Some?
      && r.value.spoken == p.spoken + (if i + 1 < |vocab| then [WordUtterance(vocab, i + 1)] else [])
      && (i + 1 < |vocab| ==> SpeakingEntry(vocab, r.value, i + 1) && Load(r.value.store, |vocab|) == i + 1)
      && (i + 1 == |vocab| ==> Finished(r.value, |vocab|) && r.value.queue == [] && r.value.timers == multiset{})
  {
    var p3 := OnUtteranceEnd(p);
    assert p3.timers == multiset{ExamplePause(i)};
    var e4: seq<Event> := [TimerFired(ExamplePause(i))];
    assert EntryEvents(vocab, i)[2..] == [UtteranceEnded] + e4;
    RunUtteranceEnded(vocab, p, e4);
    assert e4 == [TimerFired(ExamplePause(i))] + [];
    RunTimerFired(vocab, p3, ExamplePause(i), []);
  }

  /** One entry read undisturbed: the example follows the word, and then
      either the next entry's word is queued and saved, or, after the last
      entry, playback ends and the progress is cleared. */
  lemma EntryStep(vocab: seq<Entry>, p: Player, i: nat)
    requires SpeakingEntry(vocab, p, i)
    ensures Run(vocab, p, EntryEvents(vocab, i)).Some?
    ensures var r := Run(vocab, p, EntryEvents(vocab, i)).value;
      && r.spoken == p.spoken + [ExampleUtterance(vocab[i].example)]
           + (if i + 1 < |vocab| then [WordUtterance(vocab, i + 1)] else [])
      && (i + 1 < |vocab| ==> SpeakingEntry(vocab, r, i + 1) && Load(r.store, |vocab|) == i + 1)
      && (i + 1 == |vocab| ==> Finished(r, |vocab|) && r.queue == [] && r.timers == multiset{})
  {
    var events := EntryEvents(vocab, i);
    assert events == events[..2] + events[2..];
    RunAppend(vocab, p, events[..2], events[2..]);
    WordHalf(vocab, p, i);
    ExampleHalf(vocab, Run(vocab, p, events[..2]).value, i);
  }

  /** A run that ends with playback over, nothing pending, no progress
      saved, and `spoken` as the record of everything said. */
  predicate EndsSaying(vocab: seq<Entry>, r: Option<Player>, spoken: seq<Utterance>) {
    && r.Some? && Finished(r.value, |vocab|)
    && r.value.queue == [] && r.value.timers == multiset{}
    && r.value.spoken == spoken
  }

  /** The recital after its first word: the example, then the rest. */
  lemma RecitalAfterWord(vocab: seq<Entry>, i: nat)
    requires i < |vocab|
    ensures Recital(vocab, i)[1..] == [ExampleUtterance(vocab[i].example)]
      + (if i + 1 < |vocab| then [WordUtterance(vocab, i + 1)] + Recital(vocab, i + 1)[1..] else [])
  {
    var rest := Recital(vocab, i + 1);
    assert Recital(vocab, i) == [WordUtterance(vocab, i), ExampleUtterance(vocab[i].example)] + rest;
    if i + 1 < |vocab| {
      assert rest == [rest[0]] + rest[1..];
    }
  }

  /** An undisturbed sequence at entry `i` reads every remaining entry in
      order, then stops and clears the saved progress. */
  lemma {:induction false} PlaysToEnd(vocab: seq<Entry>, p: Player, i: nat)
    requires SpeakingEntry(vocab, p, i)
    ensures EndsSaying(vocab, Run(vocab, p, Script(vocab, i)), p.spoken + Recital(vocab, i)[1..])
    decreases |vocab| - i
  {
    ScriptStep(vocab, p, i);
    EntryStep(vocab, p, i);
    var q := Run(vocab, p, EntryEvents(vocab, i)).value;
    RecitalAfterWord(vocab, i);
    var example := [ExampleUtterance(vocab[i].example)];
    if i + 1 < |vocab| {
      PlaysToEnd(vocab, q, i + 1);
      var word := [WordUtterance(vocab, i + 1)];
      var later := Recital(vocab, i + 1)[1..];
      assert q.spoken + later == p.spoken + (example + (word + later)) by {
        assert q.spoken == p.spoken + example + word;
        AppendAssoc(p.spoken + example, word, later);
        AppendAssoc(p.spoken, example, word + later);
      }
    } else {
      assert Script(vocab, i + 1) == [];
      assert q.spoken == p.spoken + example;
    }
  }


  /** An undisturbed run from entry `i` is the run through entry `i`
      followed by the run from the entry after it. */
  lemma ScriptStep(vocab: seq<Entry>, p: Player, i: nat)
    requires SpeakingEntry(vocab, p, i)
    ensures Run(vocab, p, EntryEvents(vocab, i)).Some?
    ensures Run(vocab, p, Script(vocab, i))
         == Run(vocab, Run(vocab, p, EntryEvents(vocab, i)).value, Script(vocab, i + 1))
  {
    EntryStep(vocab, p, i);
    RunAppend(vocab, p, EntryEvents(vocab, i), Script(vocab, i + 1));
  }

  /** Clicked at any row, with no stale timeout pending, playback reads
      every entry from the clamped start index to the end of the list, word
      then example, then stops and clears the progress. Started at the last
      entry it reads that one entry once and stops. */
  lemma ReadsToEnd(vocab: seq<Entry>, p: Player, startIndex: int)
    requires |vocab| > 0 && p.timers == multiset{}
    ensures var s := StartIndex(startIndex, |vocab|);
      EndsSaying(vocab, Run(vocab, p, [RowClicked(startIndex)] + Script(vocab, s)), p.spoken + Recital(vocab, s))
  {
    var s := StartIndex(startIndex, |vocab|);
    var q := StartReading(vocab, p, startIndex);
    StartSpeaksEntry(vocab, p, startIndex);
    PlaysToEnd(vocab, q, s);
    RunCons(vocab, p, RowClicked(startIndex), Script(vocab, s));
    RecitalEntries(vocab, s, 0);
    AppendHead(p.spoken, Recital(vocab, s));
  }

  /** A row click on a page with no timeout pending starts one sequence, at
      the clamped start index. */
  lemma StartSpeaksEntry(vocab: seq<Entry>, p: Player, startIndex: int)
    requires |vocab| > 0 && p.timers == multiset{}
    ensures var q := StartReading(vocab, p, startIndex);
      && SpeakingEntry(vocab, q, StartIndex(startIndex, |vocab|))
      && q.spoken == p.spoken + [WordUtterance(vocab, StartIndex(startIndex, |vocab|))]
  {
  }

  /** The speak button on an undisturbed page reads from the saved entry,
      or from the first one when nothing valid is saved, to the end. */
  lemma ReadAllReadsToEnd(vocab: seq<Entry>, p: Player)
    requires |vocab| > 0 && p.timers == multiset{}
    ensures var s := if p.store.Some? && InRange(p.store.value, |vocab|) then p.store.value else 0;
      EndsSaying(vocab, Run(vocab, p, [SpeakClicked] + Script(vocab, s)), p.spoken + Recital(vocab, s))
  {
    var saved := Load(p.store, |vocab|);
    var start := if saved >= 0 then saved else 0;
    var s := StartIndex(start, |vocab|);
    ReadsToEnd(vocab, p, start);
    RunCons(vocab, p, SpeakClicked, Script(vocab, s));
    RunCons(vocab, p, RowClicked(start), Script(vocab, s));
  }

  /** The events of one entry up to the pause after its example. */
  function ToExamplePause(vocab: seq<Entry>, i: nat): seq<Event>
    requires i < |vocab|
  {
    [UtteranceEnded, TimerFired(WordPause(i, vocab[i].example)), UtteranceEnded]
  }

  /** Undisturbed, a sequence at entry `i` reaches the pause after the
      example with nothing queued and only that pause pending. */
  lemma ReachExamplePause(vocab: seq<Entry>, p: Player, i: nat)
    requires SpeakingEntry(vocab, p, i)
    ensures var r := Run(vocab, p, ToExamplePause(vocab, i));
      && r.Some? && r.value.speaking && r.value.current == i && r.value.store == p.store
      && r.value.queue == [] && r.value.timers == multiset{ExamplePause(i)}
  {
    var pause := WordPause(i, vocab[i].example);
    var p1 := OnUtteranceEnd(p);
    assert p1.timers == multiset{pause};
    var p2 := OnTimer(vocab, p1, pause);
    assert p2.timers == multiset{};
    var p3 := OnUtteranceEnd(p2);
    var e3: seq<Event> := [UtteranceEnded];
    var e2 := [TimerFired(pause)] + e3;
    assert ToExamplePause(vocab, i) == [UtteranceEnded] + e2;
    RunUtteranceEnded(vocab, p, e2);
    RunTimerFired(vocab, p1, pause, e3);
    RunUtteranceEnded(vocab, p2, []);
    RunEmpty(vocab, p3);
    assert e3 == e3 + [];
  }

  /** From a fresh page: click the first row and let its word, the pause
      after the word and its example run. */
  function ToFirstPause(vocab: seq<Entry>): seq<Event>
    requires |vocab| > 0
  {
    [RowClicked(0)] + ToExamplePause(vocab, 0)
  }

  lemma ReachFirstPause(vocab: seq<Entry>, store: Store)
    requires |vocab| > 0
    ensures var r := Run(vocab, Init(store), ToFirstPause(vocab));
      && r.Some? && r.value.speaking && r.value.current == 0
      && Load(r.value.store, |vocab|) == 0
      && r.value.queue == [] && r.value.timers == multiset{ExamplePause(0)}
  {
    var p1 := StartReading(vocab, Init(store), 0);
    assert SpeakingEntry(vocab, p1, 0) && Load(p1.store, |vocab|) == 0;
    RunRowClicked(vocab, Init(store), 0, ToExamplePause(vocab, 0));
    ReachExamplePause(vocab, p1, 0);
  }

  /** A stop during the pause after an example, then the timeout: the
      progress the stop saved is lost, and the button that offered
      "Continue" falls back to "Read All". */
  lemma StopDuringPauseLosesProgress(vocab: seq<Entry>, store: Store)
    requires |vocab| > 0
    ensures var stopped := Run(vocab, Init(store), ToFirstPause(vocab) + [StopClicked]);
      && stopped.Some? && !stopped.value.speaking
      && ButtonLabel(stopped.value.store, |vocab|) == Continue
      && EndsSaying(vocab, Run(vocab, stopped.value, [TimerFired(ExamplePause(0))]), stopped.value.spoken)
  {
    ReachFirstPause(vocab, store);
    var p4 := Run(vocab, Init(store), ToFirstPause(vocab)).value;
    RunAppend(vocab, Init(store), ToFirstPause(vocab), [StopClicked]);
    RunStopClicked(vocab, p4, []);
    var p5 := StopSpeech(vocab, p4);
    RunEmpty(vocab, p5);
    RunTimerFired(vocab, p5, ExamplePause(0), []);
    RunEmpty(vocab, OnTimer(vocab, p5, ExamplePause(0)));
    assert [StopClicked] == [StopClicked] + [];
    assert [TimerFired(ExamplePause(0))] == [TimerFired(ExamplePause(0))] + [];
  }

  /** A click on another row during the pause after an example: the old
      timeout is not cancelled and starts the entry after the old one, so
      the words of two sequences are queued at once and the current index
      jumps back. */
  lemma RowClickDuringPauseRunsTwoSequences(vocab: seq<Entry>, store: Store)
    requires |vocab| >= 3
    ensures var r := Run(vocab, Init(store), ToFirstPause(vocab) + [RowClicked(2), TimerFired(ExamplePause(0))]);
      && r.Some? && r.value.speaking && r.value.current == 1
      && r.value.queue == [WordQueued(vocab, 2), WordQueued(vocab, 1)]
  {
    ReachFirstPause(vocab, store);
    var p4 := Run(vocab, Init(store), ToFirstPause(vocab)).value;
    RunAppend(vocab, Init(store), ToFirstPause(vocab), [RowClicked(2), TimerFired(ExamplePause(0))]);
    RowClickAtPause(vocab, p4);
  }

  /** The last two steps of `RowClickDuringPauseRunsTwoSequences`. */
  lemma RowClickAtPause(vocab: seq<Entry>, p: Player)
    requires |vocab| >= 3 && p.speaking && p.queue == [] && p.timers == multiset{ExamplePause(0)}
    ensures var r := Run(vocab, p, [RowClicked(2), TimerFired(ExamplePause(0))]);
      && r.Some? && r.value.speaking && r.value.current == 1
      && r.value.queue == [WordQueued(vocab, 2), WordQueued(vocab, 1)]
  {
    var tail: seq<Event> := [TimerFired(ExamplePause(0))];
    assert [RowClicked(2), TimerFired(ExamplePause(0))] == [RowClicked(2)] + tail;
    RunRowClicked(vocab, p, 2, tail);
    var p5 := StartReading(vocab, p, 2);
    assert p5.queue == [WordQueued(vocab, 2)] && p5.speaking && ExamplePause(0) in p5.timers;
    assert tail == [TimerFired(ExamplePause(0))] + [];
    RunTimerFired(vocab, p5, ExamplePause(0), []);
  }
}
