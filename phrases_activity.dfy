/** The phrases screen itself: the activity object whose fields the handlers
    update in place. Every method is proved to move the object's abstract
    state exactly as the corresponding function of Playback does, and to keep
    Playback.Valid. */
module Phrases {
  import opened Audio
  import Playback

  class PhrasesActivity {
    /** The clip catalogue built in onCreate, indexed by list position. */
    const words: seq<Clip>
    /** mMediaPlayer: None stands for null. */
    var mediaPlayer: Option<Player>
    /** Whether the focus-change listener is registered with the AudioManager. */
    var focusRegistered: bool
    /** The calls made so far on the player and the focus service. */
    ghost var log: seq<Call>

    ghost function Abs(): Playback.State
      reads this
    {
      Playback.State(mediaPlayer, focusRegistered, log)
    }

    ghost predicate Valid()
      reads this
    {
      Playback.Valid(Abs())
    }

    /** onCreate, as far as the session is concerned: the word list is the
        catalogue, and no player or focus exists yet. */
    constructor (catalogue: seq<Clip>)
      ensures Valid()
      ensures words == catalogue
      ensures Abs() == Playback.Initial
    {
      words := catalogue;
      mediaPlayer := None;
      focusRegistered := false;
      log := [];
    }

    method ReleaseMediaPlayer()
      requires Valid()
      modifies this
      ensures Valid()
      ensures Abs() == Playback.ReleaseMediaPlayer(old(Abs()))
      ensures mediaPlayer.None? && !focusRegistered
    {
      ghost var before := Abs();
      if mediaPlayer.Some? {
        log := log + [ReleasePlayer];
        mediaPlayer := None;
        focusRegistered := false;
        log := log + [AbandonFocus];
      }
      Playback.ReleasePreservesValid(before);
    }

    /** The list's item click listener; `result` is what requestAudioFocus
        answers. */
    method OnItemClick(position: int, result: int)
      requires Valid()
      requires 0 <= position < |words|
      modifies this
      ensures Valid()
      ensures Abs() == Playback.OnItemClick(old(Abs()), words, position, result)
      ensures (mediaPlayer.Some? <==> result == AudioFocusRequestGranted) && (mediaPlayer.Some? <==> focusRegistered)
      ensures mediaPlayer.Some? ==> mediaPlayer.value == Player(words[position], true, 0, true)
    {
      ghost var before := Abs();
      ReleaseMediaPlayer();
      var clip := words[position];
      log := log + [RequestFocus(AudioFocusGainTransient)];
      if result == AudioFocusRequestGranted {
        focusRegistered := true;
        mediaPlayer := Some(Created(clip));
        log := log + [Create(clip)];
        mediaPlayer := Some(Started(mediaPlayer.value));
        log := log + [Start];
        mediaPlayer := Some(Listening(mediaPlayer.value));
        log := log + [SetCompletionListener];
      }
      Playback.ClickPreservesValid(before, words, position, result);
    }

    /** The completion listener: the clip has finished, so release. */
    method OnCompletion()
      requires Valid()
      modifies this
      ensures Valid()
      ensures Abs() == Playback.ReleaseMediaPlayer(old(Abs()))
    {
      ReleaseMediaPlayer();
    }

    /** The audio-focus change listener. The transient-loss and gain branches
        use the player without a null check, hence the precondition. */
    method OnAudioFocusChange(focusChange: int)
      requires Valid()
      requires Playback.DereferencesPlayer(focusChange) ==> mediaPlayer.Some?
      modifies this
      ensures Valid()
      ensures Abs() == Playback.OnAudioFocusChange(old(Abs()), focusChange)
    {
      ghost var before := Abs();
      if focusChange == AudioFocusLossTransient || focusChange == AudioFocusLossTransientCanDuck {
        mediaPlayer := Some(Paused(mediaPlayer.value));
        log := log + [Pause];
        mediaPlayer := Some(SeekedTo(mediaPlayer.value, 0));
        log := log + [SeekTo(0)];
      } else if focusChange == AudioFocusGain {
        mediaPlayer := Some(Started(mediaPlayer.value));
        log := log + [Start];
      } else if focusChange == AudioFocusLoss {
        ReleaseMediaPlayer();
      }
      Playback.FocusChangePreservesValid(before, focusChange);
    }

    /** onStop: the screen is no longer visible, so release. */
    method OnStop()
      requires Valid()
      modifies this
      ensures Valid()
      ensures Abs() == Playback.ReleaseMediaPlayer(old(Abs()))
      ensures mediaPlayer.None? && !focusRegistered
    {
      ReleaseMediaPlayer();
    }
  }
}
