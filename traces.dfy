/** Sequences of the events that drive the session, all delivered on the one
    UI thread and therefore applied one after another. Elapse stands for the
    player's own progress between events. */
module Traces {
  import opened Audio
  import opened Playback

  datatype Event =
    | ItemClick(position: int, result: int)
    | Completion
    | FocusChange(focusChange: int)
    | Stop
    | Elapse(millis: nat)

  /** The events the session can take in state `s`: a click on a row of the
      list, and a focus change that does not meet an empty slot where the
      handler dereferences it. */
  predicate Enabled(s: State, words: seq<Clip>, e: Event)
  {
    match e
    case ItemClick(position, _) => 0 <= position < |words|
    case FocusChange(focusChange) => DereferencesPlayer(focusChange) ==> s.player.Some?
    case _ => true
  }

  function Step(s: State, words: seq<Clip>, e: Event): State
    requires Enabled(s, words, e)
  {
    match e
    case ItemClick(position, result) => OnItemClick(s, words, position, result)
    case Completion => ReleaseMediaPlayer(s)
    case FocusChange(focusChange) => OnAudioFocusChange(s, focusChange)
    case Stop => ReleaseMediaPlayer(s)
    case Elapse(d) => if s.player.Some? then s.(player := Some(Advanced(s.player.value, d))) else s
  }

  /** The state after the events `es`, or None if one of them is not enabled
      where it arrives. */
  function Run(s: State, words: seq<Clip>, es: seq<Event>): Option<State>
    decreases |es|
  {
    if es == [] then Some(s)
    else if !Enabled(s, words, es[0]) then None
    else Run(Step(s, words, es[0]), words, es[1..])
  }

  /** Running a non-empty sequence is one step followed by the rest. */
  lemma RunCons(s: State, words: seq<Clip>, e: Event, rest: seq<Event>)
    requires Enabled(s, words, e)
    ensures Run(s, words, [e] + rest) == Run(Step(s, words, e), words, rest)
  {
    assert ([e] + rest)[1..] == rest;
  }

  lemma StepPreservesValid(s: State, words: seq<Clip>, e: Event)
    requires Valid(s)
    requires Enabled(s, words, e)
    ensures Valid(Step(s, words, e))
  {
    match e
    case ItemClick(position, result) => ClickPreservesValid(s, words, position, result);
    case Completion => ReleasePreservesValid(s);
    case FocusChange(focusChange) => FocusChangePreservesValid(s, focusChange);
    case Stop => ReleasePreservesValid(s);
    case Elapse(_) =>
  }

  /** For any interleaving of clicks, completions, focus changes, stops and
      playback progress, the session invariant holds afterwards: at most one
      player, focus registered exactly while it exists, and a history in which
      no two players were ever alive together. */
  lemma {:induction false} RunPreservesValid(s: State, words: seq<Clip>, es: seq<Event>)
    requires Valid(s)
    requires Run(s, words, es).Some?
    ensures Valid(Run(s, words, es).value)
    ensures forall i :: 0 <= i <= |Run(s, words, es).value.log| ==>
      0 <= Creates(Run(s, words, es).value.log[..i]) - Releases(Run(s, words, es).value.log[..i]) <= 1
    decreases |es|
  {
    if es == [] {
      HistoryNeverTwoLive(s.log);
    } else {
      StepPreservesValid(s, words, es[0]);
      RunPreservesValid(Step(s, words, es[0]), words, es[1..]);
    }
  }

  /** Every state the screen reaches from onCreate is valid. */
  lemma ReachableIsValid(words: seq<Clip>, es: seq<Event>)
    requires Run(Initial, words, es).Some?
    ensures Valid(Run(Initial, words, es).value)
  {
    RunPreservesValid(Initial, words, es);
  }

  /** The completion listener and a permanent focus loss end in the same
      state: no player and, on a valid state, no focus. */
  lemma CompletionEndsInRelease(s: State, words: seq<Clip>)
    ensures Run(s, words, [Completion]) == Run(s, words, [FocusChange(AudioFocusLoss)])
    ensures Run(s, words, [Completion]).Some? && Run(s, words, [Completion]).value.player.None?
    ensures Valid(s) ==> !Run(s, words, [Completion]).value.focusRegistered
  {
  }

  /** Stopping the screen ends in the same state as completion; stopping
      twice is the same as stopping once, and stopping an idle screen changes
      nothing. */
  lemma StopIdempotent(s: State, words: seq<Clip>)
    ensures Run(s, words, [Stop]) == Run(s, words, [Completion])
    ensures Run(s, words, [Stop, Stop]) == Run(s, words, [Stop])
    ensures s.player.None? ==> Run(s, words, [Stop]) == Some(s)
  {
    var once := ReleaseMediaPlayer(s);
    assert Run(s, words, [Stop, Stop]) == Run(once, words, [Stop]);
    assert Run(once, words, [Stop]) == Run(ReleaseMediaPlayer(once), words, []);
  }

  /** A transient loss (with or without ducking), any amount of time while
      paused, and then a gain replay the same clip from position 0, not from
      where the loss interrupted it. */
  lemma {:induction false} TransientLossThenGainReplaysFromStart(
    s: State, words: seq<Clip>, focusChange: int, d: nat)
    requires Valid(s)
    requires s.player.Some?
    requires IsTransientLoss(focusChange)
    ensures var r := Run(s, words, [FocusChange(focusChange), Elapse(d), FocusChange(AudioFocusGain)]);
      && r.Some?
      && r.value.player == Some(s.player.value.(playing := true, position := 0))
      && r.value.focusRegistered
      && r.value.log == s.log + [Pause, SeekTo(0), Start]
  {
    var paused := OnAudioFocusChange(s, focusChange);
    TransientLossPausesAndRewinds(s, focusChange);
    var waited := Step(paused, words, Elapse(d));
    assert waited == paused;
    GainStartsPlayer(waited);
    RunCons(s, words, FocusChange(focusChange), [Elapse(d), FocusChange(AudioFocusGain)]);
    RunCons(paused, words, Elapse(d), [FocusChange(AudioFocusGain)]);
    RunCons(waited, words, FocusChange(AudioFocusGain), []);
    assert [FocusChange(focusChange)] + [Elapse(d), FocusChange(AudioFocusGain)]
        == [FocusChange(focusChange), Elapse(d), FocusChange(AudioFocusGain)];
    assert [Elapse(d)] + [FocusChange(AudioFocusGain)] == [Elapse(d), FocusChange(AudioFocusGain)];
    assert [FocusChange(AudioFocusGain)] + [] == [FocusChange(AudioFocusGain)];
    assert s.log + [Pause, SeekTo(0)] + [Start] == s.log + [Pause, SeekTo(0), Start];
  }

  /** Two clicks in a row leave at most one player, and it is the second
      word's if and only if the second request is granted. */
  lemma {:induction false} RapidReselection(
    s: State, words: seq<Clip>, a: int, resultA: int, b: int, resultB: int)
    requires Valid(s)
    requires 0 <= a < |words| && 0 <= b < |words|
    ensures var r := Run(s, words, [ItemClick(a, resultA), ItemClick(b, resultB)]);
      && r.Some?
      && Valid(r.value)
      && (r.value.player.Some? <==> resultB == AudioFocusRequestGranted)
      && (r.value.player.Some? ==> r.value.player.value.clip == words[b])
  {
    var first := OnItemClick(s, words, a, resultA);
    ClickOutcome(first, words, b, resultB);
    RunCons(s, words, ItemClick(a, resultA), [ItemClick(b, resultB)]);
    RunCons(first, words, ItemClick(b, resultB), []);
    assert [ItemClick(a, resultA)] + [ItemClick(b, resultB)] == [ItemClick(a, resultA), ItemClick(b, resultB)];
    assert [ItemClick(b, resultB)] + [] == [ItemClick(b, resultB)];
    RunPreservesValid(s, words, [ItemClick(a, resultA), ItemClick(b, resultB)]);
  }

  /** On every reachable state, the focus listener is registered only
      while a player exists, so each focus grant is abandoned together with
      its player, and the release routine leaves neither behind. */
  lemma NoStaleFocusAfterTeardown(words: seq<Clip>, es: seq<Event>)
    requires Run(Initial, words, es).Some?
    ensures var s := Run(Initial, words, es).value;
      !ReleaseMediaPlayer(s).focusRegistered && ReleaseMediaPlayer(s).player.None?
  {
    ReachableIsValid(words, es);
  }

  /** On every reachable state, every focus change the service can deliver to
      the registered listener is enabled: the unchecked dereferences in the
      transient-loss and gain branches never meet an empty slot. */
  lemma RegisteredListenerEventsEnabled(words: seq<Clip>, es: seq<Event>, focusChange: int)
    requires Run(Initial, words, es).Some?
    ensures var s := Run(Initial, words, es).value;
      s.focusRegistered ==> Enabled(s, words, FocusChange(focusChange))
  {
    ReachableIsValid(words, es);
  }
}
