/** The extracted playlist service: a master library list, the queue being
    played, the position in it and the shuffle flag. */
module Services {
  import opened Modes
  import opened Tracks
  import opened Views

  /** What GetNextSong and GetPreviousSong give back: an entry, null, or the
      ArgumentOutOfRangeException that indexing the queue outside its bounds throws. */
  datatype Answer = Song(item: Item) | NoSong | IndexError(index: int)

  /** The position after a call, and its answer. */
  datatype Step = Step(index: int, answer: Answer)

  /** Reading queue[j]. */
  function At(queue: seq<Item>, j: int): Answer {
    if 0 <= j < |queue| then Song(queue[j]) else IndexError(j)
  }

  /** GetNextSong on the queue and position given. */
  function NextSong(queue: seq<Item>, index: int, mode: RepeatMode): Step {
    if |queue| == 0 then Step(index, NoSong)
    else if mode == RepeatTrack then Step(index, At(queue, index))
    else if index + 1 >= |queue| then
      if mode == RepeatPlaylist then Step(0, At(queue, 0)) else Step(index + 1, NoSong)
    else Step(index + 1, At(queue, index + 1))
  }

  /** GetPreviousSong on the queue and position given. */
  function PreviousSong(queue: seq<Item>, index: int, mode: RepeatMode): Step {
    if |queue| == 0 then Step(index, NoSong)
    else
      var j := if index - 1 < 0 then (if mode == RepeatPlaylist then |queue| - 1 else 0) else index - 1;
      Step(j, At(queue, j))
  }

  /** n calls of GetNextSong in a row: the final position and the answers in order. */
  function NextSongs(queue: seq<Item>, index: int, mode: RepeatMode, n: nat): (int, seq<Answer>)
    decreases n
  {
    if n == 0 then (index, [])
    else
      var s := NextSong(queue, index, mode);
      var rest := NextSongs(queue, s.index, mode, n - 1);
      (rest.0, [s.answer] + rest.1)
  }

  /** What the position can be: -1 or more, and -1 while the queue is empty.
      It is not bounded above by the queue: the position may run past its end.
      Positions are unbounded integers here, not 32-bit ones. */
  predicate QueueInvariant(queue: seq<Item>, index: int) {
    index >= -1 && (queue == [] ==> index == -1)
  }

  // ---------------------------------------------------------------------------
  // Traversal

  /** On an empty queue both directions answer null and keep the position. */
  lemma EmptyQueueAnswersNull(index: int, mode: RepeatMode)
    ensures NextSong([], index, mode) == Step(index, NoSong)
    ensures PreviousSong([], index, mode) == Step(index, NoSong)
  {
  }

  /** Under RepeatTrack, with the position inside the queue, every call answers
      the current entry and the position never moves. */
  lemma {:induction false} RepeatTrackReplays(queue: seq<Item>, index: int, n: nat)
    requires 0 <= index < |queue|
    ensures NextSongs(queue, index, RepeatTrack, n).0 == index
    ensures |NextSongs(queue, index, RepeatTrack, n).1| == n
    ensures forall k | 0 <= k < n :: NextSongs(queue, index, RepeatTrack, n).1[k] == Song(queue[index])
    decreases n
  {
    if n > 0 {
      RepeatTrackReplays(queue, index, n - 1);
    }
  }

  /** After SetQueue with an entry that occurs in the sequence, GetNextSong
      under RepeatTrack answers that entry on every call. */
  lemma SetQueueThenRepeatTrack(playlist: seq<Item>, selected: Item, n: nat)
    requires selected in playlist
    ensures |NextSongs(playlist, IndexOf(playlist, selected), RepeatTrack, n).1| == n
    ensures forall k | 0 <= k < n :: NextSongs(playlist, IndexOf(playlist, selected), RepeatTrack, n).1[k] == Song(selected)
  {
    RepeatTrackReplays(playlist, IndexOf(playlist, selected), n);
  }

  /** Under RepeatTrack with the position outside the queue (-1 before any
      selection, or past the end) the call throws. */
  lemma RepeatTrackOutsideQueueThrows(queue: seq<Item>, index: int)
    requires queue != [] && !(0 <= index < |queue|)
    ensures NextSong(queue, index, RepeatTrack) == Step(index, IndexError(index))
  {
  }

  /** In the other modes the position advances by one and that entry is answered;
      past the last entry RepeatPlaylist wraps to the first, and otherwise the
      answer is null with the position left one past where it was. */
  lemma NextSongAdvances(queue: seq<Item>, index: int, mode: RepeatMode)
    requires queue != [] && mode != RepeatTrack && index >= -1
    ensures index + 1 < |queue| ==> NextSong(queue, index, mode) == Step(index + 1, Song(queue[index + 1]))
    ensures index + 1 >= |queue| && mode == RepeatPlaylist ==> NextSong(queue, index, mode) == Step(0, Song(queue[0]))
    ensures index + 1 >= |queue| && mode == None ==> NextSong(queue, index, mode) == Step(index + 1, NoSong)
  {
  }

  /** Past the end under None the position keeps growing, one per call, and
      every call answers null. */
  lemma {:induction false} StoppedQueueKeepsCounting(queue: seq<Item>, index: int, n: nat)
    requires queue != [] && index >= |queue| - 1
    ensures NextSongs(queue, index, None, n).0 == index + n
    ensures |NextSongs(queue, index, None, n).1| == n
    ensures forall k | 0 <= k < n :: NextSongs(queue, index, None, n).1[k] == NoSong
    decreases n
  {
    if n > 0 {
      StoppedQueueKeepsCounting(queue, index + 1, n - 1);
    }
  }

  /** On a non-empty queue with the position at most one past the end,
      GetPreviousSong always answers an entry: the one before, or below the
      first the last under RepeatPlaylist, else the first. */
  lemma PreviousSongAlwaysAnswers(queue: seq<Item>, index: int, mode: RepeatMode)
    requires queue != [] && -1 <= index <= |queue|
    ensures var s := PreviousSong(queue, index, mode);
      && s.index == (if index - 1 >= 0 then index - 1 else if mode == RepeatPlaylist then |queue| - 1 else 0)
      && 0 <= s.index < |queue|
      && s.answer == Song(queue[s.index])
  {
  }

  /** Two steps past the end, GetPreviousSong reads queue[|queue|] and throws. */
  lemma OvershootThenPreviousThrows(queue: seq<Item>, mode: RepeatMode)
    requires queue != []
    ensures NextSong(queue, |queue| - 1, None) == Step(|queue|, NoSong)
    ensures NextSong(queue, |queue|, None) == Step(|queue| + 1, NoSong)
    ensures PreviousSong(queue, |queue| + 1, mode) == Step(|queue|, IndexError(|queue|))
  {
  }

  /** Outside RepeatTrack, stepping back after stepping forward returns to any
      entry of the queue, also across the wrap and the stop at the end. */
  lemma PreviousUndoesNext(queue: seq<Item>, index: int, mode: RepeatMode)
    requires mode != RepeatTrack && 0 <= index < |queue|
    ensures PreviousSong(queue, NextSong(queue, index, mode).index, mode) == Step(index, Song(queue[index]))
  {
  }

  /** Stepping forward after stepping back returns to the entry, except at the
      first entry without RepeatPlaylist, where the clamp at 0 then moves on to
      the second entry. */
  lemma NextAfterPrevious(queue: seq<Item>, index: int, mode: RepeatMode)
    requires mode != RepeatTrack && 0 <= index < |queue|
    ensures mode == RepeatPlaylist || index > 0 ==>
      NextSong(queue, PreviousSong(queue, index, mode).index, mode) == Step(index, Song(queue[index]))
    ensures mode == None && index == 0 && |queue| > 1 ==>
      NextSong(queue, PreviousSong(queue, index, mode).index, mode) == Step(1, Song(queue[1]))
  {
  }

  /** Both directions keep the position invariant. */
  lemma StepsKeepInvariant(queue: seq<Item>, index: int, mode: RepeatMode)
    requires QueueInvariant(queue, index)
    ensures QueueInvariant(queue, NextSong(queue, index, mode).index)
    ensures QueueInvariant(queue, PreviousSong(queue, index, mode).index)
  {
  }

  // ---------------------------------------------------------------------------
  // Loading

  /** The scan of one folder's files in enumeration order: an admitted file
      whose tags cannot be read ends it with that failure. */
  method ScanFolder(files: seq<FileEntry>) returns (r: LoadResult)
    ensures r == FolderItemsStrict(files)
  {
    var loaded: seq<Item> := [];
    for j := 0 to |files|
      invariant FolderItemsStrict(files[..j]) == Loaded(loaded)
    {
      assert files[..j + 1][..j] == files[..j];
      var f := files[j];
      if Admitted(f.path) {
        if f.metadata.Unreadable? {
          FolderFailurePersists(files, j + 1);
          return Failed(f.path);
        }
        loaded := loaded + [MakeItem(f.path, f.metadata.tags)];
      }
    }
    assert files[..|files|] == files;
    return Loaded(loaded);
  }

  /** The scan of LoadMusicFilesAsync: folders in order, missing ones skipped;
      the first failure ends the whole scan. */
  method ScanFolders(folders: seq<string>, disk: Disk) returns (r: LoadResult)
    ensures r == LibraryStrict(folders, disk)
  {
    var loaded: seq<Item> := [];
    for i := 0 to |folders|
      invariant LibraryStrict(folders[..i], disk) == Loaded(loaded)
    {
      assert folders[..i + 1][..i] == folders[..i];
      var root := folders[i];
      if root in disk {
        var found := ScanFolder(disk[root]);
        if found.Failed? {
          LibraryFailurePersists(folders, disk, i + 1);
          return found;
        }
        loaded := loaded + found.items;
      }
    }
    assert folders[..|folders|] == folders;
    return Loaded(loaded);
  }

  class PlaylistManager {
    var master: seq<Item>
    var queue: seq<Item>
    var queueIndex: int
    var isShuffleActive: bool

    ghost predicate Valid()
      reads this
    {
      QueueInvariant(queue, queueIndex)
    }

    constructor ()
      ensures Valid()
      ensures master == [] && queue == [] && queueIndex == -1 && !isShuffleActive
    {
      master := [];
      queue := [];
      queueIndex := -1;
      isShuffleActive := false;
    }

    /** The library is replaced only once the whole scan has succeeded; a failed
        scan leaves it as it was. */
    method LoadMusicFiles(folders: seq<string>, disk: Disk) returns (ok: bool)
      requires Valid()
      modifies this`master
      ensures Valid()
      ensures ok <==> LibraryStrict(folders, disk).Loaded?
      ensures master == if ok then LibraryStrict(folders, disk).items else old(master)
    {
      var r := ScanFolders(folders, disk);
      if r.Failed? {
        return false;
      }
      master := r.items;
      return true;
    }

    /** The library in the mode's order, stable on ties; nothing changes. */
    function GetSortedPlaylist(mode: SortMode): (r: seq<Item>)
      reads this
      ensures multiset(r) == multiset(master)
      ensures forall i, j | 0 <= i < j < |r| :: KeyLeq(SortKey(mode, r[i]), SortKey(mode, r[j]))
      ensures forall k :: WithSortKey(r, mode, k) == WithSortKey(master, mode, k)
    {
      SortedView(master, mode)
    }

    /** The queue becomes the given sequence and the position the first
        occurrence of the selected entry in it, -1 when it does not occur. */
    method SetQueue(playlist: seq<Item>, selected: Item)
      requires Valid()
      modifies this`queue, this`queueIndex
      ensures Valid()
      ensures queue == playlist && queueIndex == IndexOf(playlist, selected)
      ensures queueIndex == -1 <==> selected !in playlist
      ensures queueIndex != -1 ==> queue[queueIndex] == selected
    {
      queue := playlist;
      queueIndex := IndexOf(queue, selected);
    }

    method GetNextSong(mode: RepeatMode) returns (r: Answer)
      requires Valid()
      modifies this`queueIndex
      ensures Valid()
      ensures Step(queueIndex, r) == NextSong(queue, old(queueIndex), mode)
    {
      StepsKeepInvariant(queue, queueIndex, mode);
      if |queue| == 0 {
        return NoSong;
      }
      if mode == RepeatTrack {
        return At(queue, queueIndex);
      }
      queueIndex := queueIndex + 1;
      if queueIndex >= |queue| {
        if mode == RepeatPlaylist {
          queueIndex := 0;
        } else {
          return NoSong;
        }
      }
      return At(queue, queueIndex);
    }

    method GetPreviousSong(mode: RepeatMode) returns (r: Answer)
      requires Valid()
      modifies this`queueIndex
      ensures Valid()
      ensures Step(queueIndex, r) == PreviousSong(queue, old(queueIndex), mode)
    {
      StepsKeepInvariant(queue, queueIndex, mode);
      if |queue| == 0 {
        return NoSong;
      }
      queueIndex := queueIndex - 1;
      if queueIndex < 0 {
        queueIndex := if mode == RepeatPlaylist then |queue| - 1 else 0;
      }
      return At(queue, queueIndex);
    }

    /** Sets the flag; turning shuffle on answers the queue in a random order,
        turning it off answers the library in ArtistAlbum order, whatever
        order was in use. The queue and the position stay as they are. */
    method ToggleShuffle(active: bool, draws: nat -> int) returns (r: seq<Item>)
      requires Valid()
      modifies this`isShuffleActive
      ensures Valid()
      ensures isShuffleActive == active
      ensures active ==> r == ShuffleBy(queue, draws) && multiset(r) == multiset(queue)
      ensures !active ==> r == GetSortedPlaylist(ArtistAlbum)
    {
      isShuffleActive := active;
      if isShuffleActive {
        r := ShuffleBy(queue, draws);
      } else {
        r := GetSortedPlaylist(ArtistAlbum);
      }
    }
  }
}
