/** The collaborators the phrases screen talks to: Android's audio-focus
    service (AudioManager) and the media player (MediaPlayer), reduced to the
    constants and the observable state the session logic depends on. */
module Audio {

  datatype Option<+T> = None | Some(value: T)

  /** AudioManager.AUDIOFOCUS_GAIN: focus (re)gained. */
  const AudioFocusGain: int := 1
  /** AudioManager.AUDIOFOCUS_GAIN_TRANSIENT: the duration hint of a short request. */
  const AudioFocusGainTransient: int := 2
  /** AudioManager.AUDIOFOCUS_LOSS: focus lost for an unknown, long time. */
  const AudioFocusLoss: int := -1
  /** AudioManager.AUDIOFOCUS_LOSS_TRANSIENT: focus lost for a short time. */
  const AudioFocusLossTransient: int := -2
  /** AudioManager.AUDIOFOCUS_LOSS_TRANSIENT_CAN_DUCK: short loss, lowered volume allowed. */
  const AudioFocusLossTransientCanDuck: int := -3
  /** AudioManager.AUDIOFOCUS_REQUEST_GRANTED: the focus request was granted. */
  const AudioFocusRequestGranted: int := 1

  /** The raw audio resource id of a word (Word.getAudioResourceId()). */
  type Clip = nat

  /** What the session can observe of one MediaPlayer: the clip it was
      created for, whether it is playing, its playback position in
      milliseconds, and whether the completion listener is attached. */
  datatype Player = Player(clip: Clip, playing: bool, position: nat, listening: bool)

  /** MediaPlayer.create(context, clip): a prepared player at the start of the
      clip, not yet playing, with no completion listener. */
  function Created(clip: Clip): Player
  {
    Player(clip, false, 0, false)
  }

  /** MediaPlayer.start(): plays from the current position. */
  function Started(p: Player): Player
  {
    p.(playing := true)
  }

  /** MediaPlayer.pause(): stops playing and keeps the position. */
  function Paused(p: Player): Player
  {
    p.(playing := false)
  }

  /** MediaPlayer.seekTo(msec): moves the position and keeps the playing state. */
  function SeekedTo(p: Player, msec: nat): Player
  {
    p.(position := msec)
  }

  /** MediaPlayer.setOnCompletionListener(listener). */
  function Listening(p: Player): Player
  {
    p.(listening := true)
  }

  /** The decoder's own progress over `d` milliseconds: a playing player moves
      forward, a paused one stays where it is. */
  function Advanced(p: Player, d: nat): Player
  {
    if p.playing then p.(position := p.position + d) else p
  }

  /** One call the session makes on a collaborator, in the order made. At most
      one player is alive at a time, so player calls need not name it. */
  datatype Call =
    | RequestFocus(durationHint: int)   // AudioManager.requestAudioFocus
    | AbandonFocus                      // AudioManager.abandonAudioFocus
    | Create(clip: Clip)                // MediaPlayer.create
    | Start                             // MediaPlayer.start
    | SetCompletionListener             // MediaPlayer.setOnCompletionListener
    | Pause                             // MediaPlayer.pause
    | SeekTo(msec: nat)                 // MediaPlayer.seekTo
    | ReleasePlayer                     // MediaPlayer.release
}
