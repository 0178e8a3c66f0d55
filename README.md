# Miwok phrases screen: the audio playback session

The phrases screen of the Miwok vocabulary app plays a short pronunciation
clip when a row of its word list is clicked. The playback logic lives in
`PhrasesActivity`:

- one nullable `mMediaPlayer` field;
- a registration of the focus-change listener with the `AudioManager`;
- one release routine, `releaseMediaPlayer`, that every teardown passes through.

Four kinds of event drive it: a list-item click, the completion of the clip,
audio-focus changes, and the screen stopping. Android delivers all of them
on the UI thread, so the model applies them one after another.

The project has four modules:

- `Audio` (`audio.dfy`) covers the collaborators. It holds the Android focus
  constants (`AUDIOFOCUS_GAIN` = 1, `AUDIOFOCUS_GAIN_TRANSIENT` = 2,
  `AUDIOFOCUS_LOSS` = -1, `AUDIOFOCUS_LOSS_TRANSIENT` = -2,
  `AUDIOFOCUS_LOSS_TRANSIENT_CAN_DUCK` = -3, `AUDIOFOCUS_REQUEST_GRANTED` = 1).
  It also holds an abstract `Player` record (clip, playing, position,
  completion listener attached) with the effect of `create`, `start`, `pause`,
  `seekTo` and `setOnCompletionListener` on it. Finally it has `Call`, one
  entry per call the session makes on the player or the focus service.
- `Playback` (`playback.dfy`) is the session as a state machine on values.
  A `State` is the player slot, whether the focus listener is registered, and
  the history of calls. Each handler is one function of the state. The
  invariant `Valid` says three things. The listener is registered exactly
  while a player exists. That player has its completion listener. The
  history keeps the "create, use, release, abandon" protocol, checked call by
  call by `Monitor`/`LivePlayers`. `Creates - Releases` is an independent
  count of live players, and the two definitions are proved to agree.
- `Phrases` (`phrases_activity.dfy`) is the class `PhrasesActivity`. Its
  fields are updated in place by the handler methods. Each method is proved
  to move the object's abstract state exactly as the `Playback` function does,
  and to keep `Valid`.
- `Traces` (`traces.dfy`) covers arbitrary sequences of events. `Elapse`
  stands for the decoder's own progress between events, so that a resumed
  position is not trivially 0. `Traces` proves that every reachable state is
  valid, and it proves the scenario properties.

Facts about the code that shape the model:

- A transient loss pauses and then seeks to 0 (lines 62-63), so a later gain
  replays the clip from the start.
- `abandonAudioFocus` is only called inside the `mMediaPlayer != null` branch
  (lines 157-171). In the model every focus grant is abandoned together with
  its player (`Traces.NoStaleFocusAfterTeardown`). That rests on treating a
  denied request as leaving no registration (see "Left out").
- The transient-loss and gain branches call `mMediaPlayer` without a null
  check (lines 62, 63, 66). The model makes a player a precondition of those
  codes. `Traces.RegisteredListenerEventsEnabled` shows that on every
  reachable state the precondition holds whenever the listener is registered.
- `requestAudioFocus` answers synchronously (lines 121-124), so no request
  is ever pending when the next event arrives.
- The result of `MediaPlayer.create` is used without a null check
  (lines 128-131).

## Model

| member | source | states |
|---|---|---|
| `Playback.LivePlayersCountsPlayers` | app/src/main/java/com/example/android/miwok/PhrasesActivity.java:128-170 | while the call history keeps the protocol, the protocol monitor's live count equals players created minus players released |
| `Playback.HistoryNeverTwoLive` | app/src/main/java/com/example/android/miwok/PhrasesActivity.java:114-170 | at every point of a well-formed history, between 0 and 1 players are alive: none is released twice and a new one is never created before the last is released |
| `Playback.ReleaseEmptiesSlot` | app/src/main/java/com/example/android/miwok/PhrasesActivity.java:155-172 | after releaseMediaPlayer the slot is empty whatever the prior state; on a valid state focus is also unregistered |
| `Playback.ReleaseIdempotent` | app/src/main/java/com/example/android/miwok/PhrasesActivity.java:157-171 | with the slot empty, release makes no call and changes nothing; releasing twice equals releasing once |
| `Playback.ReleaseCallOrder` | app/src/main/java/com/example/android/miwok/PhrasesActivity.java:161-170 | with a player, release calls release() once, then abandonAudioFocus, in that order, with nothing else; it adds one release and no creation to the history |
| `Playback.ReleasePreservesValid` | app/src/main/java/com/example/android/miwok/PhrasesActivity.java:155-172 | release keeps the session invariant and leaves no live player |
| `Playback.ClickTearsDownBeforeRequest` | app/src/main/java/com/example/android/miwok/PhrasesActivity.java:114-122 | a click's calls start with the teardown of the old player (release, then abandon), and the transient focus request comes right after it |
| `Playback.ClickDeniedCreatesNothing` | app/src/main/java/com/example/android/miwok/PhrasesActivity.java:121-136 | if the request is not granted, no player is created, the slot is empty, on a valid state focus is unregistered, and the request is the only call after the teardown |
| `Playback.ClickGrantedPlaysWord` | app/src/main/java/com/example/android/miwok/PhrasesActivity.java:117-135 | if granted, the slot holds a player for `words[position]`, playing from 0 with the completion listener attached; focus is registered; the calls are request, create, start, set listener |
| `Playback.ClickOutcome` | app/src/main/java/com/example/android/miwok/PhrasesActivity.java:114-136 | whatever the prior state, a player exists after a click iff the request was granted, and it plays the clicked word |
| `Playback.GrantedCallsKeepProtocol` | app/src/main/java/com/example/android/miwok/PhrasesActivity.java:121-135 | the request, create, start, set-listener calls of a granted click, made with no player alive, keep the protocol and leave exactly one player alive |
| `Playback.ClickPreservesValid` | app/src/main/java/com/example/android/miwok/PhrasesActivity.java:111-137 | a click keeps the session invariant, so at most one player exists after it returns |
| `Playback.TransientLossPausesAndRewinds` | app/src/main/java/com/example/android/miwok/PhrasesActivity.java:56-63 | LOSS_TRANSIENT and LOSS_TRANSIENT_CAN_DUCK have the same effect: the same player, paused, at position 0, after pause() and seekTo(0) |
| `Playback.GainStartsPlayer` | app/src/main/java/com/example/android/miwok/PhrasesActivity.java:64-66 | GAIN starts the existing player at its current position and changes nothing else |
| `Playback.OtherFocusChanges` | app/src/main/java/com/example/android/miwok/PhrasesActivity.java:67-70 | a permanent LOSS is exactly releaseMediaPlayer; any code the listener does not test leaves the state unchanged |
| `Playback.FocusChangePreservesValid` | app/src/main/java/com/example/android/miwok/PhrasesActivity.java:55-71 | every focus change keeps the session invariant |
| `Phrases.PhrasesActivity.constructor` | app/src/main/java/com/example/android/miwok/PhrasesActivity.java:75-93 | the screen starts with the word catalogue, no player, no focus and an empty history |
| `Phrases.PhrasesActivity.ReleaseMediaPlayer` | app/src/main/java/com/example/android/miwok/PhrasesActivity.java:155-172 | the fields change exactly as `Playback.ReleaseMediaPlayer` says; afterwards the slot is empty, focus is unregistered and the invariant holds |
| `Phrases.PhrasesActivity.OnItemClick` | app/src/main/java/com/example/android/miwok/PhrasesActivity.java:111-137 | the fields change exactly as `Playback.OnItemClick` says; a player exists afterwards iff focus was granted, it is the clicked word's and it plays from 0 |
| `Phrases.PhrasesActivity.OnCompletion` | app/src/main/java/com/example/android/miwok/PhrasesActivity.java:46-49 | completion changes the fields exactly as releaseMediaPlayer does and keeps the invariant |
| `Phrases.PhrasesActivity.OnAudioFocusChange` | app/src/main/java/com/example/android/miwok/PhrasesActivity.java:55-71 | the fields change exactly as `Playback.OnAudioFocusChange` says, needing a player only for the codes that dereference it |
| `Phrases.PhrasesActivity.OnStop` | app/src/main/java/com/example/android/miwok/PhrasesActivity.java:144-150 | stopping changes the fields exactly as releaseMediaPlayer does: no player, no focus |
| `Traces.StepPreservesValid` | app/src/main/java/com/example/android/miwok/PhrasesActivity.java:46-150 | each event the screen can receive keeps the session invariant |
| `Traces.RunPreservesValid` | app/src/main/java/com/example/android/miwok/PhrasesActivity.java:46-172 | after any sequence of events the invariant holds, and at no point of the history were two players alive |
| `Traces.ReachableIsValid` | app/src/main/java/com/example/android/miwok/PhrasesActivity.java:75-172 | every state reached from onCreate is valid |
| `Traces.CompletionEndsInRelease` | app/src/main/java/com/example/android/miwok/PhrasesActivity.java:46-69 | completion and a permanent focus loss end in the same state: empty slot and, on a valid state, no focus |
| `Traces.StopIdempotent` | app/src/main/java/com/example/android/miwok/PhrasesActivity.java:144-150 | onStop ends in the same state as completion; stopping twice equals stopping once; stopping an idle screen changes nothing |
| `Traces.TransientLossThenGainReplaysFromStart` | app/src/main/java/com/example/android/miwok/PhrasesActivity.java:56-66 | a transient loss, any time paused, then a gain: the same clip plays again from position 0, with focus still registered, after pause, seekTo(0), start |
| `Traces.RapidReselection` | app/src/main/java/com/example/android/miwok/PhrasesActivity.java:111-137 | two clicks in a row leave at most one player; there is one iff the second request is granted, and it plays the second word |
| `Traces.NoStaleFocusAfterTeardown` | app/src/main/java/com/example/android/miwok/PhrasesActivity.java:157-171 | on every reachable state, releaseMediaPlayer leaves neither a player nor a registered focus listener: each focus grant is abandoned with its player |
| `Traces.RegisteredListenerEventsEnabled` | app/src/main/java/com/example/android/miwok/PhrasesActivity.java:55-66 | on every reachable state, any focus code delivered while the listener is registered is enabled, so the unchecked dereferences never meet null |

## Left out

- Audio decoding and output inside `MediaPlayer` are not modelled. The player is an abstract record, and the decoder's progress is the `Elapse` event.
- The real `AudioManager` focus service and `STREAM_MUSIC` are not modelled. The focus-request answer is a parameter of the click. Focus-change codes are parameters of `OnAudioFocusChange`.
- `MediaPlayer.create` returning null (line 128) is not modelled. The code does not handle it, and the model assumes creation succeeds.
- What `AudioManager` keeps after a denied `requestAudioFocus` (line 121 passes the listener whatever the answer) is not in the code. The model treats a denied request as leaving no registration, and `Traces.NoStaleFocusAfterTeardown` depends on that. If a denied request did register the listener, nothing in the code at lines 157-171 would abandon it.
- An out-of-range click position is excluded by a precondition. `words.get` would throw, and the list view never passes such a position.
- The word and translation strings and the `R.raw` ids (lines 83-93) are not modelled. The catalogue is a sequence of opaque clip ids given to the constructor.
- Layout inflation, `setContentView`, the `WordAdapter` and the `ListView` wiring in `onCreate` are UI plumbing and are not modelled.
- `WordAdapter.java`, `MainActivity.java` and `CategoryAdapter.java` are not part of this model. They are view binding, tab setup and a fixed position-to-fragment mapping.
- Threading is not modelled. Callbacks arrive on the UI thread, so events are sequential calls.
- The `MediaPlayer` is a value held in the slot, not a shared object. No other reference to it exists in the source, so no aliasing is lost.
