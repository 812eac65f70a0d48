/** The window that keeps its own copy of the player state: repeat and sort
    modes, the library, the queue and position, the shuffle flag, and the list
    box contents, changed by its event handlers. */
module MainWindowQueue {
  import opened Text
  import opened Modes
  import opened Tracks
  import opened Views
  import Services

  /** What a handler asks of the media engine or shows the user. The handlers
      catch every exception and show it in a popup: ErrorShown. */
  datatype Effect = Played(item: Item) | Stopped | NoEffect | ErrorShown | Paused | Resumed

  /** The position after a handler, and what it did. */
  datatype Outcome = Outcome(index: int, effect: Effect)

  /** The list box's ItemsSource: unset until a first display, then a sequence. */
  datatype Shown = NoItemsSource | Showing(items: seq<Item>)

  /** The list box's SelectedItem. */
  datatype Selection = NothingSelected | Selected(item: Item)

  /** PlayFile(queue[j]); an index outside the queue throws and is caught. */
  function PlayAt(queue: seq<Item>, j: int): Effect {
    if 0 <= j < |queue| then Played(queue[j]) else ErrorShown
  }

  /** PlayNext: advance, wrapping under RepeatPlaylist and stopping otherwise;
      RepeatTrack is not consulted here. */
  function PlayNextStep(queue: seq<Item>, index: int, mode: RepeatMode): Outcome {
    if |queue| == 0 then Outcome(index, NoEffect)
    else if index + 1 >= |queue| then
      if mode == RepeatPlaylist then Outcome(0, PlayAt(queue, 0)) else Outcome(index + 1, Stopped)
    else Outcome(index + 1, PlayAt(queue, index + 1))
  }

  /** PlayPrevious: step back; below the first entry go to the last under
      RepeatPlaylist and to the first otherwise. */
  function PlayPreviousStep(queue: seq<Item>, index: int, mode: RepeatMode): Outcome {
    if |queue| == 0 then Outcome(index, NoEffect)
    else
      var j := if index - 1 < 0 then (if mode == RepeatPlaylist then |queue| - 1 else 0) else index - 1;
      Outcome(j, PlayAt(queue, j))
  }

  /** OnEndReached: under RepeatTrack with a position set, replay the entry at
      the position; otherwise PlayNext. */
  function EndReachedStep(queue: seq<Item>, index: int, mode: RepeatMode): Outcome {
    if mode == RepeatTrack && index > -1 then Outcome(index, PlayAt(queue, index))
    else PlayNextStep(queue, index, mode)
  }

  /** n tracks ending in a row: the final position and the effects in order. */
  function EndReachedRun(queue: seq<Item>, index: int, mode: RepeatMode, n: nat): (int, seq<Effect>)
    decreases n
  {
    if n == 0 then (index, [])
    else
      var o := EndReachedStep(queue, index, mode);
      var rest := EndReachedRun(queue, o.index, mode, n - 1);
      (rest.0, [o.effect] + rest.1)
  }

  // ---------------------------------------------------------------------------
  // Traversal

  /** PlayNext never throws while the position invariant holds: it plays the
      entry at its new position, stops, or does nothing on an empty queue. */
  lemma PlayNextNeverFails(queue: seq<Item>, index: int, mode: RepeatMode)
    requires Services.QueueInvariant(queue, index)
    ensures var o := PlayNextStep(queue, index, mode);
      && o.effect != ErrorShown
      && (o.effect.Played? ==> 0 <= o.index < |queue| && o.effect.item == queue[o.index])
      && (o.effect == NoEffect <==> queue == [])
  {
  }

  /** PlayNext treats RepeatTrack exactly as None. */
  lemma PlayNextIgnoresRepeatTrack(queue: seq<Item>, index: int)
    ensures PlayNextStep(queue, index, RepeatTrack) == PlayNextStep(queue, index, None)
  {
  }

  /** Both handlers keep the position invariant. */
  lemma StepsKeepInvariant(queue: seq<Item>, index: int, mode: RepeatMode)
    requires Services.QueueInvariant(queue, index)
    ensures Services.QueueInvariant(queue, PlayNextStep(queue, index, mode).index)
    ensures Services.QueueInvariant(queue, PlayPreviousStep(queue, index, mode).index)
    ensures Services.QueueInvariant(queue, EndReachedStep(queue, index, mode).index)
  {
  }

  /** Under RepeatTrack the end of a track inside the queue replays it; past the
      end it throws; with no position it moves on to the first entry. */
  lemma EndReachedUnderRepeatTrack(queue: seq<Item>, index: int)
    requires queue != [] && index >= -1
    ensures 0 <= index < |queue| ==> EndReachedStep(queue, index, RepeatTrack) == Outcome(index, Played(queue[index]))
    ensures index >= |queue| ==> EndReachedStep(queue, index, RepeatTrack) == Outcome(index, ErrorShown)
    ensures index == -1 ==> EndReachedStep(queue, index, RepeatTrack) == Outcome(0, Played(queue[0]))
  {
  }

  /** Playing every entry of s, in order. */
  function PlayedEach(s: seq<Item>): (r: seq<Effect>)
    ensures |r| == |s|
    ensures forall k | 0 <= k < |s| :: r[k] == Played(s[k])
  {
    if s == [] then [] else [Played(s[0])] + PlayedEach(s[1..])
  }

  /** Under None, tracks ending one after another from position index play the
      rest of the queue in order and leave the position on the last entry. */
  lemma {:induction false} EndReachedPlaysRest(queue: seq<Item>, index: int)
    requires -1 <= index < |queue|
    ensures EndReachedRun(queue, index, None, |queue| - 1 - index) == (|queue| - 1, PlayedEach(queue[index + 1..]))
    decreases |queue| - index
  {
    if index < |queue| - 1 {
      EndReachedPlaysRest(queue, index + 1);
      assert queue[index + 1..] == [queue[index + 1]] + queue[index + 2..];
    }
  }

  /** From a freshly selected queue that did not contain the selection (position
      -1), the whole queue plays in order and then playback stops one past the end. */
  lemma {:induction false} EndReachedPlaysQueueThenStops(queue: seq<Item>)
    requires queue != []
    ensures EndReachedRun(queue, -1, None, |queue|) == (|queue| - 1, PlayedEach(queue))
    ensures EndReachedStep(queue, |queue| - 1, None) == Outcome(|queue|, Stopped)
  {
    EndReachedPlaysRest(queue, -1);
    assert queue[0..] == queue;
  }

  /** After the stop one past the end, PlayPrevious plays the last entry; after
      a second stop, two past the end, it throws. */
  lemma PreviousAfterStop(queue: seq<Item>, mode: RepeatMode)
    requires queue != []
    ensures PlayPreviousStep(queue, |queue|, mode) == Outcome(|queue| - 1, Played(queue[|queue| - 1]))
    ensures PlayNextStep(queue, |queue|, None) == Outcome(|queue| + 1, Stopped)
    ensures PlayPreviousStep(queue, |queue| + 1, mode) == Outcome(|queue|, ErrorShown)
  {
  }

  // ---------------------------------------------------------------------------
  // Loading

  /** One folder's files in enumeration order; a file whose tags cannot be read,
      or whose cover does not decode as a bitmap, is skipped (the per-file catch). */
  method ScanFolder(files: seq<FileEntry>) returns (loaded: seq<Item>)
    ensures loaded == FolderItems(files)
  {
    loaded := [];
    for j := 0 to |files|
      invariant loaded == FolderItems(files[..j])
    {
      assert files[..j + 1][..j] == files[..j];
      var f := files[j];
      if Admitted(f.path) {
        if f.metadata.Read? {
          var item := MakeItem(f.path, f.metadata.tags);
          if f.metadata.coverDecodes {
            loaded := loaded + [item];
          }
        }
      }
    }
    assert files[..|files|] == files;
  }

  /** The scan of LoadAllMusicFilesAsync over the stored folders. */
  method ScanFolders(folders: seq<string>, disk: Disk) returns (loaded: seq<Item>)
    ensures loaded == Library(folders, disk)
  {
    loaded := [];
    for i := 0 to |folders|
      invariant loaded == Library(folders[..i], disk)
    {
      assert folders[..i + 1][..i] == folders[..i];
      if folders[i] in disk {
        var found := ScanFolder(disk[folders[i]]);
        loaded := loaded + found;
      }
    }
    assert folders[..|folders|] == folders;
  }

  class MainWindow {
    var repeatMode: RepeatMode
    var sortMode: SortMode
    var master: seq<Item>
    var queue: seq<Item>
    var queueIndex: int
    var isShuffleActive: bool
    var display: Shown

    ghost predicate Valid()
      reads this
    {
      Services.QueueInvariant(queue, queueIndex)
    }

    constructor ()
      ensures Valid()
      ensures repeatMode == None && sortMode == ArtistAlbum
      ensures master == [] && queue == [] && queueIndex == -1 && !isShuffleActive
      ensures display == NoItemsSource
    {
      repeatMode := None;
      sortMode := ArtistAlbum;
      master := [];
      queue := [];
      queueIndex := -1;
      isShuffleActive := false;
      display := NoItemsSource;
    }

    /** The library in the current sort mode's order. */
    function SortedPlaylist(): (r: seq<Item>)
      reads this
      ensures multiset(r) == multiset(master)
      ensures forall i, j | 0 <= i < j < |r| :: KeyLeq(SortKey(sortMode, r[i]), SortKey(sortMode, r[j]))
      ensures forall k :: WithSortKey(r, sortMode, k) == WithSortKey(master, sortMode, k)
    {
      SortedView(master, sortMode)
    }

    method SortAndDisplayPlaylist()
      modifies this`display
      ensures display == Showing(SortedPlaylist())
    {
      display := Showing(SortedView(master, sortMode));
    }

    /** The library becomes every readable supported file of the folders, and
        the list box shows it sorted; queue and position are left alone. */
    method LoadAllMusicFiles(folders: seq<string>, disk: Disk)
      requires Valid()
      modifies this`master, this`display
      ensures Valid()
      ensures master == Library(folders, disk)
      ensures display == Showing(SortedPlaylist())
    {
      master := ScanFolders(folders, disk);
      SortAndDisplayPlaylist();
    }

    /** With an entry selected, the queue becomes the list box contents (kept
        when there are none), the position the entry's first occurrence in it,
        and the entry is played even when it does not occur. */
    method PlaylistDoubleTapped(selection: Selection) returns (e: Effect)
      requires Valid()
      modifies this`queue, this`queueIndex
      ensures Valid()
      ensures selection == NothingSelected ==> e == NoEffect && queue == old(queue) && queueIndex == old(queueIndex)
      ensures selection.Selected? ==>
        && e == Played(selection.item)
        && queue == (if display.Showing? then display.items else old(queue))
        && queueIndex == IndexOf(queue, selection.item)
      ensures selection.Selected? && selection.item in queue ==> queue[queueIndex] == selection.item
    {
      if selection == NothingSelected {
        return NoEffect;
      }
      if display.Showing? {
        queue := display.items;
      }
      queueIndex := IndexOf(queue, selection.item);
      return Played(selection.item);
    }

    method PlayNext() returns (e: Effect)
      requires Valid()
      modifies this`queueIndex
      ensures Valid()
      ensures Outcome(queueIndex, e) == PlayNextStep(queue, old(queueIndex), repeatMode)
    {
      StepsKeepInvariant(queue, queueIndex, repeatMode);
      if |queue| == 0 {
        return NoEffect;
      }
      queueIndex := queueIndex + 1;
      if queueIndex >= |queue| {
        if repeatMode == RepeatPlaylist {
          queueIndex := 0;
        } else {
          return Stopped;
        }
      }
      return PlayAt(queue, queueIndex);
    }

    method PlayPrevious() returns (e: Effect)
      requires Valid()
      modifies this`queueIndex
      ensures Valid()
      ensures Outcome(queueIndex, e) == PlayPreviousStep(queue, old(queueIndex), repeatMode)
    {
      StepsKeepInvariant(queue, queueIndex, repeatMode);
      if |queue| == 0 {
        return NoEffect;
      }
      queueIndex := queueIndex - 1;
      if queueIndex < 0 {
        queueIndex := if repeatMode == RepeatPlaylist then |queue| - 1 else 0;
      }
      return PlayAt(queue, queueIndex);
    }

    method OnEndReached() returns (e: Effect)
      requires Valid()
      modifies this`queueIndex
      ensures Valid()
      ensures Outcome(queueIndex, e) == EndReachedStep(queue, old(queueIndex), repeatMode)
    {
      if repeatMode == RepeatTrack && queueIndex > -1 {
        return PlayAt(queue, queueIndex);
      }
      e := PlayNext();
    }

    /** Flips the flag; turning it on shows the list box contents in a random
        order, turning it off shows the library sorted by the current mode.
        The queue and the position are untouched. */
    method ShuffleButtonClick(draws: nat -> int)
      modifies this`isShuffleActive, this`display
      ensures isShuffleActive == !old(isShuffleActive)
      ensures isShuffleActive ==> display == (if old(display).Showing? then Showing(ShuffleBy(old(display).items, draws)) else old(display))
      ensures isShuffleActive && old(display).Showing? ==> multiset(display.items) == multiset(old(display).items)
      ensures !isShuffleActive ==> display == Showing(SortedPlaylist())
    {
      isShuffleActive := !isShuffleActive;
      if isShuffleActive {
        if display.Showing? {
          display := Showing(ShuffleBy(display.items, draws));
        }
      } else {
        SortAndDisplayPlaylist();
      }
    }

    method RepeatButtonClick()
      modifies this`repeatMode
      ensures repeatMode == CycleRepeat(old(repeatMode))
    {
      repeatMode := RepeatFromCode((RepeatCode(repeatMode) + 1) % 3);
    }

    /** Blank text shows the sorted library; other text shows the library
        entries whose title or artist contains it, ignoring case, in library order. */
    method SearchTextChanged(text: string)
      modifies this`display
      ensures display == Showing(if IsBlank(text) then SortedPlaylist() else Search(master, text))
    {
      if IsBlank(text) {
        SortAndDisplayPlaylist();
      } else {
        display := Showing(Search(master, text));
      }
    }

    /** A new sort mode is taken and the library redisplayed in it, unless the
        settings are not loaded, in which case nothing changes. */
    method SortSelectionChanged(settingsLoaded: bool, mode: SortMode)
      modifies this`sortMode, this`display
      ensures !settingsLoaded ==> sortMode == old(sortMode) && display == old(display)
      ensures settingsLoaded ==> sortMode == mode && display == Showing(SortedPlaylist())
    {
      if !settingsLoaded {
        return;
      }
      sortMode := mode;
      SortAndDisplayPlaylist();
    }

    /** Pause while playing; resume when a track is loaded; otherwise start the
        queue with PlayNext when there is one. */
    method PlayPauseButtonClick(isPlaying: bool, hasMedia: bool) returns (e: Effect)
      requires Valid()
      modifies this`queueIndex
      ensures Valid()
      ensures isPlaying ==> e == Paused && queueIndex == old(queueIndex)
      ensures !isPlaying && hasMedia ==> e == Resumed && queueIndex == old(queueIndex)
      ensures !isPlaying && !hasMedia ==> Outcome(queueIndex, e) == PlayNextStep(queue, old(queueIndex), repeatMode)
    {
      if isPlaying {
        return Paused;
      }
      if hasMedia {
        return Resumed;
      }
      if |queue| > 0 {
        e := PlayNext();
      } else {
        e := NoEffect;
      }
    }
  }
}
