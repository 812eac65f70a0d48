/** How the window's own queue handling relates to the playlist service that
    was extracted from it: where the two agree and where they part. */
module Revisions {
  import opened Modes
  import opened Tracks
  import opened Views
  import Services
  import MainWindowQueue

  /** A service answer and a window effect that mean the same: the same entry
      played, the same failed index read, or nothing played. */
  predicate Corresponds(a: Services.Answer, e: MainWindowQueue.Effect) {
    match a
    case Song(x) => e == MainWindowQueue.Played(x)
    case IndexError(_) => e == MainWindowQueue.ErrorShown
    case NoSong => e == MainWindowQueue.Stopped || e == MainWindowQueue.NoEffect
  }

  /** Outside RepeatTrack, GetNextSong and PlayNext move to the same position and
      play the same entry. */
  lemma NextAgreesOutsideRepeatTrack(queue: seq<Item>, index: int, mode: RepeatMode)
    requires mode != RepeatTrack
    ensures var s := Services.NextSong(queue, index, mode);
      var o := MainWindowQueue.PlayNextStep(queue, index, mode);
      s.index == o.index && Corresponds(s.answer, o.effect)
  {
  }

  /** GetPreviousSong and PlayPrevious agree in every mode. */
  lemma PreviousAgrees(queue: seq<Item>, index: int, mode: RepeatMode)
    ensures var s := Services.PreviousSong(queue, index, mode);
      var o := MainWindowQueue.PlayPreviousStep(queue, index, mode);
      s.index == o.index && Corresponds(s.answer, o.effect)
  {
  }

  /** Under RepeatTrack the service's next call replays the current entry,
      while the window's next button advances; the window replays only at the
      end of a track. */
  lemma RepeatTrackDiverges(queue: seq<Item>, index: int)
    requires 0 <= index < |queue| - 1
    ensures Services.NextSong(queue, index, RepeatTrack) == Services.Step(index, Services.Song(queue[index]))
    ensures MainWindowQueue.PlayNextStep(queue, index, RepeatTrack) == MainWindowQueue.Outcome(index + 1, MainWindowQueue.Played(queue[index + 1]))
    ensures MainWindowQueue.EndReachedStep(queue, index, RepeatTrack) == MainWindowQueue.Outcome(index, MainWindowQueue.Played(queue[index]))
  {
  }

  /** The window's end-of-track handler is the service's GetNextSong whenever a
      position is set and the queue is not empty; with no position under
      RepeatTrack the service throws where the window plays the first entry. */
  lemma EndReachedIsServiceNext(queue: seq<Item>, index: int, mode: RepeatMode)
    requires queue != [] && index >= -1
    ensures index > -1 ==>
      var s := Services.NextSong(queue, index, mode);
      var o := MainWindowQueue.EndReachedStep(queue, index, mode);
      s.index == o.index && Corresponds(s.answer, o.effect)
    ensures index == -1 && mode == RepeatTrack ==>
      && Services.NextSong(queue, index, mode).answer == Services.IndexError(-1)
      && MainWindowQueue.EndReachedStep(queue, index, mode).effect == MainWindowQueue.Played(queue[0])
  {
  }

  /** When no admitted file is unreadable and no cover fails to decode, the
      service's all-or-nothing scan and the window's skipping scan load the same
      library. */
  lemma LoadsAgreeWithoutFailures(folders: seq<string>, disk: Disk)
    requires forall root | root in folders && root in disk :: !HasUnreadable(disk[root])
    requires LibraryCoversDecode(folders, disk)
    ensures LibraryStrict(folders, disk) == Loaded(Library(folders, disk))
  {
    StrictAgreesWithBestEffort(folders, disk);
  }
}
