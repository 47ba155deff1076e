/**
 The background-music play/pause button. Its state is whether the audio
 element is paused and the text the button shows; a click starts a paused
 track or pauses a playing one and relabels the button.
 */
module BgmToggle {

  /** The audio element's `paused` flag and the button's text. */
  datatype Player = Player(paused: bool, caption: string)

  const PlayLabel: string := "PLAY"
  const PauseLabel: string := "PAUSE"

  /** The button names the action its next click performs. */
  predicate Consistent(p: Player)
  {
    p.caption == (if p.paused then PlayLabel else PauseLabel)
  }

  /** One click on the play/pause button. */
  function Toggle(p: Player): (q: Player)
    ensures q.paused == !p.paused
    ensures p.paused ==> q.caption == PauseLabel
    ensures !p.paused ==> q.caption == PlayLabel
    ensures Consistent(q)
  {
    if p.paused then Player(false, PauseLabel) else Player(true, PlayLabel)
  }

  /** Two clicks restore the paused state, and the whole state once the label was consistent. */
  lemma ToggleTwice(p: Player)
    ensures Toggle(Toggle(p)).paused == p.paused
    ensures Consistent(p) ==> Toggle(Toggle(p)) == p
  {
  }

  /** The state after `n` clicks. */
  function Clicks(p: Player, n: nat): Player
    decreases n
  {
    if n == 0 then p else Toggle(Clicks(p, n - 1))
  }

  /**
   After `n` clicks the track is paused exactly when `n` is even and it was
   paused, or `n` is odd and it was playing; after at least one click the
   label is consistent.
   */
  lemma {:induction false} ClicksParity(p: Player, n: nat)
    ensures Clicks(p, n).paused == (if n % 2 == 0 then p.paused else !p.paused)
    ensures n > 0 ==> Consistent(Clicks(p, n))
    decreases n
  {
    if n > 0 {
      ClicksParity(p, n - 1);
    }
  }
}
