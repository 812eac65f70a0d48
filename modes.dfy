/** The playback modes: how traversal behaves at the ends of the queue, and
    which keys order the library view. */
module Modes {

  /** RepeatMode, with the integer codes it is stored under. */
  datatype RepeatMode = None | RepeatPlaylist | RepeatTrack

  /** SortMode: Alphabetical (title), Album (album, title), Artist (artist, title),
      ArtistAlbum (artist, album, title). */
  datatype SortMode = Alphabetical | Album | Artist | ArtistAlbum

  function RepeatCode(m: RepeatMode): (c: int)
    ensures 0 <= c < 3
  {
    match m
    case None => 0
    case RepeatPlaylist => 1
    case RepeatTrack => 2
  }

  function RepeatFromCode(c: int): RepeatMode
    requires 0 <= c < 3
  {
    if c == 0 then None else if c == 1 then RepeatPlaylist else RepeatTrack
  }

  lemma RepeatCodeRoundTrip(m: RepeatMode, c: int)
    requires 0 <= c < 3
    ensures RepeatFromCode(RepeatCode(m)) == m
    ensures RepeatCode(RepeatFromCode(c)) == c
  {
  }

  /** The repeat button: the mode whose code is (code + 1) mod 3. */
  function CycleRepeat(m: RepeatMode): RepeatMode {
    RepeatFromCode((RepeatCode(m) + 1) % 3)
  }

  /** The cycle visits all three modes, each once, and three presses come back. */
  lemma CycleRepeatOrbit(m: RepeatMode)
    ensures CycleRepeat(m) != m && CycleRepeat(CycleRepeat(m)) != m
    ensures CycleRepeat(CycleRepeat(m)) != CycleRepeat(m)
    ensures CycleRepeat(CycleRepeat(CycleRepeat(m))) == m
  {
  }

  lemma CycleOrder()
    ensures CycleRepeat(None) == RepeatPlaylist
    ensures CycleRepeat(RepeatPlaylist) == RepeatTrack
    ensures CycleRepeat(RepeatTrack) == None
  {
  }
}
