/** The audio playback session of the phrases screen as a state machine on
    values: the nullable media-player slot, whether the focus-change listener
    is registered with the audio-focus service, and the history of calls made
    on the player and the focus service. Each handler of
    PhrasesActivity.java is one function from state to state. */
module Playback {
  import opened Audio

  datatype State = State(player: Option<Player>, focusRegistered: bool, log: seq<Call>)

  /** The screen after onCreate: no player, no focus, nothing called yet. */
  const Initial: State := State(None, false, [])

  // ---------------------------------------------------------------------
  // The player lifecycle as recorded in the call history
  // ---------------------------------------------------------------------

  /** How one call changes the number of live players, given `live` before
      it; -1 once the history has left the protocol "focus is requested and
      abandoned only with no player alive, a player is created only when none
      is alive, and only a live player is used or released". -1 is sticky. */
  function Monitor(live: int, c: Call): (r: int)
    ensures -1 <= r <= 1
    ensures r >= 0 ==> 0 <= live <= 1
  {
    if live < 0 then -1
    else match c
      case RequestFocus(_) => if live == 0 then 0 else -1
      case AbandonFocus => if live == 0 then 0 else -1
      case Create(_) => if live == 0 then 1 else -1
      case ReleasePlayer => if live == 1 then 0 else -1
      case _ => if live == 1 then 1 else -1
  }

  /** The number of live players after `log`, or -1 if the log breaks the protocol. */
  function LivePlayers(log: seq<Call>): int
  {
    if log == [] then 0 else Monitor(LivePlayers(log[..|log| - 1]), log[|log| - 1])
  }

  /** Reference count: how many players the log creates. */
  function Creates(log: seq<Call>): nat
  {
    if log == [] then 0 else Creates(log[..|log| - 1]) + (if log[|log| - 1].Create? then 1 else 0)
  }

  /** Reference count: how many release() calls the log makes. */
  function Releases(log: seq<Call>): nat
  {
    if log == [] then 0 else Releases(log[..|log| - 1]) + (if log[|log| - 1] == ReleasePlayer then 1 else 0)
  }

  /** The session invariant: the focus listener is registered exactly while a
      player exists, that player has its completion listener, and the history
      follows the protocol with exactly as many live players as the slot holds. */
  predicate Valid(s: State)
  {
    && (s.focusRegistered <==> s.player.Some?)
    && (s.player.Some? ==> s.player.value.listening)
    && LivePlayers(s.log) == (if s.player.Some? then 1 else 0)
  }

  // ---------------------------------------------------------------------
  // The handlers
  // ---------------------------------------------------------------------

  /** releaseMediaPlayer: with a player, release it, empty the slot, then
      abandon focus (which unregisters the listener); with none, do nothing. */
  function ReleaseMediaPlayer(s: State): State
  {
    match s.player
    case None => s
    case Some(_) =>
      var released := s.(log := s.log + [ReleasePlayer]);
      var emptied := released.(player := None);
      emptied.(focusRegistered := false, log := emptied.log + [AbandonFocus])
  }

  /** The list item click handler: release, request transient focus, and only
      if it is granted create a player for the clicked word, start it and
      attach the completion listener. A granted request registers the focus
      listener; a denied one is taken to leave no registration behind. */
  function OnItemClick(s: State, words: seq<Clip>, position: int, result: int): State
    requires 0 <= position < |words|
  {
    var t := ReleaseMediaPlayer(s);
    var clip := words[position];
    var asked := t.(log := t.log + [RequestFocus(AudioFocusGainTransient)]);
    if result == AudioFocusRequestGranted then
      var registered := asked.(focusRegistered := true);
      var created := registered.(player := Some(Created(clip)), log := registered.log + [Create(clip)]);
      var started := created.(player := Some(Started(created.player.value)), log := created.log + [Start]);
      started.(player := Some(Listening(started.player.value)), log := started.log + [SetCompletionListener])
    else
      asked
  }

  predicate IsTransientLoss(focusChange: int)
  {
    focusChange == AudioFocusLossTransient || focusChange == AudioFocusLossTransientCanDuck
  }

  /** The focus codes whose branch calls the player without a null check. */
  predicate DereferencesPlayer(focusChange: int)
  {
    IsTransientLoss(focusChange) || focusChange == AudioFocusGain
  }

  /** The focus-change listener: a transient loss (with or without ducking)
      pauses and rewinds to 0, a gain starts the player, a permanent loss
      releases, and any other code is ignored. */
  function OnAudioFocusChange(s: State, focusChange: int): State
    requires DereferencesPlayer(focusChange) ==> s.player.Some?
  {
    if IsTransientLoss(focusChange) then
      var paused := s.(player := Some(Paused(s.player.value)), log := s.log + [Pause]);
      paused.(player := Some(SeekedTo(paused.player.value, 0)), log := paused.log + [SeekTo(0)])
    else if focusChange == AudioFocusGain then
      s.(player := Some(Started(s.player.value)), log := s.log + [Start])
    else if focusChange == AudioFocusLoss then
      ReleaseMediaPlayer(s)
    else
      s
  }

  // ---------------------------------------------------------------------
  // The call history
  // ---------------------------------------------------------------------

  lemma {:induction false} LivePlayersSnoc(log: seq<Call>, c: Call)
    ensures LivePlayers(log + [c]) == Monitor(LivePlayers(log), c)
    ensures Creates(log + [c]) == Creates(log) + (if c.Create? then 1 else 0)
    ensures Releases(log + [c]) == Releases(log) + (if c == ReleasePlayer then 1 else 0)
  {
    assert (log + [c])[..|log|] == log;
  }

  /** While the history keeps the protocol, its live count is the number of
      players created minus the number released. */
  lemma {:induction false} LivePlayersCountsPlayers(log: seq<Call>)
    requires LivePlayers(log) >= 0
    ensures LivePlayers(log) == Creates(log) - Releases(log)
  {
    if log != [] {
      var init := log[..|log| - 1];
      var c := log[|log| - 1];
      assert log == init + [c];
      LivePlayersSnoc(init, c);
      LivePlayersCountsPlayers(init);
    }
  }

  /** A history that keeps the protocol never had two players alive and never
      released more players than it created, at any point of its course. */
  lemma {:induction false} HistoryNeverTwoLive(log: seq<Call>)
    requires LivePlayers(log) >= 0
    ensures forall i :: 0 <= i <= |log| ==> 0 <= Creates(log[..i]) - Releases(log[..i]) <= 1
  {
    LivePlayersCountsPlayers(log);
    if log != [] {
      var init := log[..|log| - 1];
      HistoryNeverTwoLive(init);
      forall i | 0 <= i <= |log|
        ensures 0 <= Creates(log[..i]) - Releases(log[..i]) <= 1
      {
        if i < |log| {
          assert log[..i] == init[..i];
        } else {
          assert log[..i] == log;
        }
      }
    }
  }

  // ---------------------------------------------------------------------
  // releaseMediaPlayer
  // ---------------------------------------------------------------------

  /** Whatever the prior state, release leaves the slot empty; on a valid
      state it also leaves focus unregistered, even when there was nothing
      to release (focus is then not held to begin with). */
  lemma ReleaseEmptiesSlot(s: State)
    ensures ReleaseMediaPlayer(s).player.None?
    ensures Valid(s) ==> !ReleaseMediaPlayer(s).focusRegistered
  {
  }

  /** With the slot empty, release calls neither release() nor
      abandonAudioFocus and changes nothing; hence it is idempotent. */
  lemma ReleaseIdempotent(s: State)
    ensures s.player.None? ==> ReleaseMediaPlayer(s) == s
    ensures ReleaseMediaPlayer(ReleaseMediaPlayer(s)) == ReleaseMediaPlayer(s)
  {
  }

  /** With a player, release calls release() on it once and then abandons
      focus, in that order, and makes no other call. */
  lemma ReleaseCallOrder(s: State)
    requires s.player.Some?
    ensures ReleaseMediaPlayer(s).log == s.log + [ReleasePlayer, AbandonFocus]
    ensures !ReleaseMediaPlayer(s).focusRegistered
    ensures Releases(ReleaseMediaPlayer(s).log) == Releases(s.log) + 1
    ensures Creates(ReleaseMediaPlayer(s).log) == Creates(s.log)
  {
    LivePlayersSnoc(s.log, ReleasePlayer);
    LivePlayersSnoc(s.log + [ReleasePlayer], AbandonFocus);
    assert s.log + [ReleasePlayer, AbandonFocus] == s.log + [ReleasePlayer] + [AbandonFocus];
  }

  lemma ReleasePreservesValid(s: State)
    requires Valid(s)
    ensures Valid(ReleaseMediaPlayer(s))
    ensures LivePlayers(ReleaseMediaPlayer(s).log) == 0
  {
    if s.player.Some? {
      LivePlayersSnoc(s.log, ReleasePlayer);
      LivePlayersSnoc(s.log + [ReleasePlayer], AbandonFocus);
    }
  }

  // ---------------------------------------------------------------------
  // onItemClick
  // ---------------------------------------------------------------------

  /** A click first tears down any player, then requests transient focus; the
      previous player is released before the request is made. */
  lemma ClickTearsDownBeforeRequest(s: State, words: seq<Clip>, position: int, result: int)
    requires 0 <= position < |words|
    ensures var r := OnItemClick(s, words, position, result);
      var t := ReleaseMediaPlayer(s);
      && |r.log| > |t.log|
      && r.log[..|t.log| + 1] == t.log + [RequestFocus(AudioFocusGainTransient)]
      && (s.player.Some? ==> r.log[|s.log|] == ReleasePlayer && r.log[|s.log| + 1] == AbandonFocus)
  {
    var r := OnItemClick(s, words, position, result);
    var t := ReleaseMediaPlayer(s);
    assert r.log[..|t.log| + 1] == t.log + [RequestFocus(AudioFocusGainTransient)];
    if s.player.Some? {
      assert t.log == s.log + [ReleasePlayer] + [AbandonFocus];
      assert r.log[|s.log|] == t.log[|s.log|];
    }
  }

  /** A denied request creates nothing: the slot stays empty, focus stays
      unregistered, and the only call after the teardown is the request. */
  lemma ClickDeniedCreatesNothing(s: State, words: seq<Clip>, position: int, result: int)
    requires 0 <= position < |words|
    requires result != AudioFocusRequestGranted
    ensures var r := OnItemClick(s, words, position, result);
      && r.player.None?
      && r.log == ReleaseMediaPlayer(s).log + [RequestFocus(AudioFocusGainTransient)]
      && (Valid(s) ==> !r.focusRegistered)
      && Creates(r.log) == Creates(s.log)
  {
    var t := ReleaseMediaPlayer(s);
    LivePlayersSnoc(t.log, RequestFocus(AudioFocusGainTransient));
    if s.player.Some? {
      ReleaseCallOrder(s);
    }
  }

  /** A granted request creates exactly one player, for the clicked word's
      clip, started from the beginning, with the completion listener attached,
      and the focus listener registered. */
  lemma ClickGrantedPlaysWord(s: State, words: seq<Clip>, position: int)
    requires 0 <= position < |words|
    ensures var r := OnItemClick(s, words, position, AudioFocusRequestGranted);
      && r.player == Some(Player(words[position], true, 0, true))
      && r.focusRegistered
      && r.log == ReleaseMediaPlayer(s).log
                  + [RequestFocus(AudioFocusGainTransient), Create(words[position]), Start, SetCompletionListener]
  {
    var t := ReleaseMediaPlayer(s);
    var clip := words[position];
    assert t.log + [RequestFocus(AudioFocusGainTransient)] + [Create(clip)] + [Start] + [SetCompletionListener]
        == t.log + [RequestFocus(AudioFocusGainTransient), Create(clip), Start, SetCompletionListener];
  }

  /** Whatever the prior state, a player exists after a click if and only if
      the request was granted, and then it plays the clicked word. */
  lemma ClickOutcome(s: State, words: seq<Clip>, position: int, result: int)
    requires 0 <= position < |words|
    ensures var r := OnItemClick(s, words, position, result);
      && (r.player.Some? <==> result == AudioFocusRequestGranted)
      && (r.player.Some? ==> r.player.value.clip == words[position])
  {
  }

  /** The calls of a granted click, made with no player alive, keep the
      protocol and leave exactly one player alive. */
  lemma GrantedCallsKeepProtocol(log: seq<Call>, clip: Clip)
    requires LivePlayers(log) == 0
    ensures LivePlayers(log + [RequestFocus(AudioFocusGainTransient), Create(clip), Start, SetCompletionListener]) == 1
  {
    var l1 := log + [RequestFocus(AudioFocusGainTransient)];
    LivePlayersSnoc(log, RequestFocus(AudioFocusGainTransient));
    LivePlayersSnoc(l1, Create(clip));
    LivePlayersSnoc(l1 + [Create(clip)], Start);
    LivePlayersSnoc(l1 + [Create(clip)] + [Start], SetCompletionListener);
    assert l1 + [Create(clip)] + [Start] + [SetCompletionListener]
        == log + [RequestFocus(AudioFocusGainTransient), Create(clip), Start, SetCompletionListener];
  }

  /** A click keeps the session invariant, so at most one player exists after it. */
  lemma ClickPreservesValid(s: State, words: seq<Clip>, position: int, result: int)
    requires Valid(s)
    requires 0 <= position < |words|
    ensures Valid(OnItemClick(s, words, position, result))
  {
    var t := ReleaseMediaPlayer(s);
    ReleasePreservesValid(s);
    if result == AudioFocusRequestGranted {
      ClickGrantedPlaysWord(s, words, position);
      GrantedCallsKeepProtocol(t.log, words[position]);
    } else {
      ClickDeniedCreatesNothing(s, words, position, result);
      LivePlayersSnoc(t.log, RequestFocus(AudioFocusGainTransient));
    }
  }

  // ---------------------------------------------------------------------
  // onAudioFocusChange
  // ---------------------------------------------------------------------

  /** Both kinds of transient loss have the same effect: the same player,
      paused, at position 0, after the calls pause() and seekTo(0). */
  lemma TransientLossPausesAndRewinds(s: State, focusChange: int)
    requires s.player.Some?
    requires IsTransientLoss(focusChange)
    ensures var r := OnAudioFocusChange(s, focusChange);
      && r == OnAudioFocusChange(s, AudioFocusLossTransient)
      && r.player == Some(s.player.value.(playing := false, position := 0))
      && r.focusRegistered == s.focusRegistered
      && r.log == s.log + [Pause, SeekTo(0)]
  {
    assert s.log + [Pause] + [SeekTo(0)] == s.log + [Pause, SeekTo(0)];
  }

  /** A gain starts the player from where it is, leaving the rest alone. */
  lemma GainStartsPlayer(s: State)
    requires s.player.Some?
    ensures var r := OnAudioFocusChange(s, AudioFocusGain);
      && r.player == Some(s.player.value.(playing := true))
      && r.focusRegistered == s.focusRegistered
      && r.log == s.log + [Start]
  {
  }

  /** A permanent loss is exactly releaseMediaPlayer; codes the listener
      does not test leave the state unchanged. */
  lemma OtherFocusChanges(s: State, focusChange: int)
    requires !DereferencesPlayer(focusChange)
    ensures focusChange == AudioFocusLoss ==> OnAudioFocusChange(s, focusChange) == ReleaseMediaPlayer(s)
    ensures focusChange != AudioFocusLoss ==> OnAudioFocusChange(s, focusChange) == s
  {
  }

  lemma FocusChangePreservesValid(s: State, focusChange: int)
    requires Valid(s)
    requires DereferencesPlayer(focusChange) ==> s.player.Some?
    ensures Valid(OnAudioFocusChange(s, focusChange))
  {
    if IsTransientLoss(focusChange) {
      LivePlayersSnoc(s.log, Pause);
      LivePlayersSnoc(s.log + [Pause], SeekTo(0));
    } else if focusChange == AudioFocusGain {
      LivePlayersSnoc(s.log, Start);
    } else if focusChange == AudioFocusLoss {
      ReleasePreservesValid(s);
    }
  }
}
