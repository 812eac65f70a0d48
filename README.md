# AuroraMusic playback queue

AuroraMusic is a desktop music player. Its playback core is a small state
machine with these parts:

- a master library of tracks, built by scanning folders;
- a displayed list, which is the library sorted by the current sort mode,
  a search result or a shuffled list;
- a queue, copied from the displayed list when the user activates a track;
- an integer position in that queue;
- a repeat mode (None, RepeatPlaylist, RepeatTrack) and a shuffle flag.

The repository holds the core twice. `MainWindow.axaml.cs` keeps the state in
fields of the window and changes it in its event handlers.
`Services/PlaylistManager.cs` is an extracted service with the same fields.
The two differ in five places:

- under RepeatTrack, where the service's next call replays the track and the
  window's next button advances;
- in how an admitted file whose tags cannot be read is treated during a scan:
  the service abandons the whole scan, the window skips the file;
- in the cover picture: the window decodes it into a bitmap inside its
  per-file catch, so a file whose cover does not decode is skipped, while the
  service only copies the cover's bytes and keeps the file;
- in what turning shuffle on reorders: the service returns the queue in a
  random order, the window shows the list box contents in a random order;
- in the order that turning shuffle off goes back to: always ArtistAlbum in
  the service, the current sort mode in the window.

This project models both revisions as Dafny classes whose fields are the source
fields and whose methods change them as the handlers do. Each revision is
specified by pure step functions, and lemmas prove about those functions what
the player is meant to do and the places where the code's behaviour surprises. The
modules are:

- `Text`: blank tests, ordinal string order, case-insensitive containment and
  the path helpers.
- `Sorting`: a stable sort by key; LINQ's `OrderBy`/`ThenBy` are stable.
- `Modes`: the repeat and sort modes.
- `Tracks`: library entries and the two folder-scan rules.
- `Views`: the sorted view, the search filter, the shuffle and `IndexOf`.
- `Services`: the `PlaylistManager` class.
- `MainWindowQueue`: the `MainWindow` class.
- `Revisions`: lemmas relating the two revisions.

Some conventions:

- A C# list index out of range throws. The model makes that an explicit
  result: `IndexError` in the service and `ErrorShown` in the window, whose
  handlers catch every exception and show it in a popup. No caller is asked
  to avoid it.
- The position invariant the code keeps is `index >= -1`, with `index == -1`
  whenever the queue is empty. It is not bounded above by the queue: after
  playback stops at the end, the position sits one or more past the last
  entry. Positions are unbounded integers (see "Left out" for the 32-bit wrap).
  `QueueInvariant` states this, and it is the `Valid()` of both classes.
- `random.Next()` is a parameter `draws: nat -> int`, where `draws(i)` is the
  number drawn for the i-th element. `OrderBy(x => random.Next())` is then a
  stable sort of the elements by their draws.
- The file system is a parameter
  `Disk = map<folder, files in enumeration order>`. A folder that is not in
  the map does not exist. A file's tags are either read, together with
  whether its cover (if any) decodes as an image, or unreadable.

One might expect turning shuffle on to keep the playing track at its
position. Neither revision's code does that: the queue and the position are
left as they are when the flag is flipped. The model follows the code.

`Models/PlaylistItem.cs` has a title, an artist and a file path, but no album.
The window sets and sorts by an `Album` property of the entry. The service
builds a `Song` with a title, an `Artist` and an `Album` (PlaylistManager.cs:40-48),
although `PlaylistItem` has no `Song` property either, and then sorts on
`p.Title`, `p.Artist` and `p.Album`. The model gives each entry a title,
artist and album, taken in the service from Song.Title, Artist.Name and
Album.Title.

## Model

| member | source | states |
|---|---|---|
| Text.StrLeqTotal | AuroraMusic/MainWindow.axaml.cs:326-330 | any two keys compare one way or the other |
| Text.StrLeqAntisymmetric | AuroraMusic/MainWindow.axaml.cs:326-330 | keys ordered both ways are equal |
| Text.StrLeqTransitive | AuroraMusic/MainWindow.axaml.cs:326-330 | the key order is transitive |
| Text.ContainsIgnoreCaseUpToCase | AuroraMusic/MainWindow.axaml.cs:681-682 | whether the search text matches depends on it only up to letter case |
| Text.FoldCase | AuroraMusic/MainWindow.axaml.cs:681-682 | OrdinalIgnoreCase compares strings after mapping each character to upper case |
| Text.FileName | AuroraMusic/MainWindow.axaml.cs:286 | the file name is the longest suffix of the path holding no separator |
| Text.FileNameWithoutExtensionIsStem | AuroraMusic/MainWindow.axaml.cs:286 | the title fallback is the whole file name when it holds no '.', and otherwise the file name up to its last '.' |
| Text.ExtensionIsLowerSuffix | AuroraMusic/MainWindow.axaml.cs:275 | the lower-cased Path.GetExtension equals a dot-extension e exactly when the path ends in e, ignoring case |
| Tracks.SupportedExtensionShape | AuroraMusic/Services/PlaylistManager.cs:25-33 | the same, for each of the four supported extensions |
| Tracks.AdmittedIffSuffix | AuroraMusic/Services/PlaylistManager.cs:25-33 | a file is admitted exactly when its path ends, ignoring case, in .mp3, .flac, .m4a or .mp4 |
| Tracks.MakeItemFallbacks | AuroraMusic/MainWindow.axaml.cs:284-290 | the entry keeps the file path and every non-blank tag; a blank title becomes the file-name stem, a blank artist "Unknown Artist", a blank album "Unknown Album"; artist and album are never blank; the title is blank only when tag title and stem are both blank |
| Tracks.FolderItemsMembers | AuroraMusic/MainWindow.axaml.cs:280-302 | an entry comes out of a folder exactly when some admitted file of it, with readable tags and a cover that decodes, builds that entry |
| Tracks.FolderItemsAppend | AuroraMusic/MainWindow.axaml.cs:280-302 | one more file adds exactly the entry it yields |
| Tracks.LibraryMembers | AuroraMusic/MainWindow.axaml.cs:270-307 | an entry is in the library exactly when it is built from an admitted file, with readable tags and a decodable cover, of an existing listed folder |
| Tracks.LibraryOfMissingFolders | AuroraMusic/MainWindow.axaml.cs:272 | folders that do not exist contribute nothing |
| Tracks.FolderFailurePersists | AuroraMusic/Services/PlaylistManager.cs:37-56 | once a file of a folder has failed, the folder's scan fails with that file |
| Tracks.FolderStrictFails | AuroraMusic/Services/PlaylistManager.cs:37-56 | a folder's all-or-nothing scan fails exactly when it holds an admitted file whose tags cannot be read |
| Tracks.LibraryFailurePersists | AuroraMusic/Services/PlaylistManager.cs:28-59 | once a folder has failed, the whole scan fails with that file |
| Tracks.FolderStrictAgrees | AuroraMusic/Services/PlaylistManager.cs:37-56 | when a folder's all-or-nothing scan loads and no cover fails to decode, it yields the skipping scan's entries |
| Tracks.StrictAgreesWithBestEffort | AuroraMusic/Services/PlaylistManager.cs:28-60 | the all-or-nothing scan fails exactly when an existing listed folder holds an admitted unreadable file; when it loads and no cover fails, it equals the skipping scan's library |
| Tracks.CoverFailureSplitsScans | AuroraMusic/MainWindow.axaml.cs:291-295 | an admitted file whose cover does not decode is kept by the service's scan (PlaylistManager.cs:50-54 only copies bytes) and dropped by the window's |
| Sorting.SortMultiset | AuroraMusic/Services/PlaylistManager.cs:63-73 | sorting permutes the entries |
| Sorting.SortProjectMultiset | AuroraMusic/Services/PlaylistManager.cs:123 | sorting permutes every projection of the elements, in particular the entries under their random keys |
| Sorting.SortSorted | AuroraMusic/Services/PlaylistManager.cs:63-73 | under a total, transitive order the result is ordered by key |
| Sorting.SortWithKey | AuroraMusic/Services/PlaylistManager.cs:63-73 | entries with equal keys keep their input order (OrderBy is stable) |
| Sorting.InsertSorted | AuroraMusic/Services/PlaylistManager.cs:63-73 | inserting into an ordered sequence keeps it ordered |
| Sorting.InsertWithKey | AuroraMusic/Services/PlaylistManager.cs:63-73 | inserting keeps the order among the elements of each key |
| Modes.RepeatCodeRoundTrip | AuroraMusic/MainWindow.axaml.cs:543 | RepeatMode and its integer codes 0..2 convert both ways without loss |
| Modes.CycleRepeatOrbit | AuroraMusic/MainWindow.axaml.cs:543 | the repeat button visits three distinct modes and three presses return to the start |
| Modes.CycleOrder | AuroraMusic/MainWindow.axaml.cs:543 | None goes to RepeatPlaylist, then RepeatTrack, then None |
| Views.KeyLeqTotalOrder | AuroraMusic/MainWindow.axaml.cs:326-330 | the OrderBy/ThenBy key order is total and transitive |
| Views.SortedView | AuroraMusic/Services/PlaylistManager.cs:63-73 | the sorted view is a permutation of the library, ordered by the mode's keys, stable on ties |
| Views.IndexOf | AuroraMusic/Services/PlaylistManager.cs:78 | -1 exactly when the entry is absent, otherwise the position of its first occurrence |
| Views.SearchExact | AuroraMusic/MainWindow.axaml.cs:679-683 | the search keeps each matching entry as often as it occurs, drops every other entry, and keeps library order |
| Views.SearchAllMatch | AuroraMusic/MainWindow.axaml.cs:679-683 | when every entry matches, the search shows the whole library in order |
| Views.ShuffleBy | AuroraMusic/Services/PlaylistManager.cs:122-123 | the shuffled list is a permutation of its input |
| Services.EmptyQueueAnswersNull | AuroraMusic/Services/PlaylistManager.cs:83 | on an empty queue both directions answer null and keep the position |
| Services.RepeatTrackReplays | AuroraMusic/Services/PlaylistManager.cs:85-88 | under RepeatTrack every call answers the current entry and the position never moves |
| Services.SetQueueThenRepeatTrack | AuroraMusic/Services/PlaylistManager.cs:75-88 | after SetQueue with an entry in the sequence, RepeatTrack answers that entry on every call |
| Services.RepeatTrackOutsideQueueThrows | AuroraMusic/Services/PlaylistManager.cs:85-88 | under RepeatTrack with position -1 or past the end the call throws |
| Services.NextSongAdvances | AuroraMusic/Services/PlaylistManager.cs:90-102 | otherwise it advances by one; past the end RepeatPlaylist wraps to the first entry and None answers null one past the end |
| Services.StoppedQueueKeepsCounting | AuroraMusic/Services/PlaylistManager.cs:90-100 | past the end under None the position grows by one per call and every answer is null |
| Services.PreviousSongAlwaysAnswers | AuroraMusic/Services/PlaylistManager.cs:105-115 | with the position at most one past the end, stepping back always answers an entry: the one before, or below the first the last (RepeatPlaylist) or the first (clamped) |
| Services.OvershootThenPreviousThrows | AuroraMusic/Services/PlaylistManager.cs:90-114 | two calls past the end and then one step back reads one past the end and throws |
| Services.PreviousUndoesNext | AuroraMusic/Services/PlaylistManager.cs:81-115 | outside RepeatTrack, stepping back after stepping forward returns to every entry, across the wrap and the stop |
| Services.NextAfterPrevious | AuroraMusic/Services/PlaylistManager.cs:81-115 | stepping forward after stepping back returns to the entry, except at the first entry without RepeatPlaylist, which moves on to the second |
| Services.StepsKeepInvariant | AuroraMusic/Services/PlaylistManager.cs:81-115 | both directions keep the position invariant |
| Services.ScanFolder | AuroraMusic/Services/PlaylistManager.cs:37-56 | the file loop yields the all-or-nothing folder scan |
| Services.ScanFolders | AuroraMusic/Services/PlaylistManager.cs:28-59 | the folder loop yields the all-or-nothing library scan, stopping at the first failure |
| Services.PlaylistManager.constructor | AuroraMusic/Services/PlaylistManager.cs:15-18 | empty library and queue, position -1, shuffle off |
| Services.PlaylistManager.LoadMusicFiles | AuroraMusic/Services/PlaylistManager.cs:23-61 | the library is replaced by the scan's entries when it succeeds and is left unchanged when it fails |
| Services.PlaylistManager.GetSortedPlaylist | AuroraMusic/Services/PlaylistManager.cs:63-73 | the library as a permutation in the mode's key order, stable on ties |
| Services.PlaylistManager.SetQueue | AuroraMusic/Services/PlaylistManager.cs:75-79 | queue replaced; position is the first occurrence of the selection, -1 exactly when it is absent |
| Services.PlaylistManager.GetNextSong | AuroraMusic/Services/PlaylistManager.cs:81-103 | new position and answer are those of NextSong on the old state; the invariant is kept |
| Services.PlaylistManager.GetPreviousSong | AuroraMusic/Services/PlaylistManager.cs:105-115 | new position and answer are those of PreviousSong on the old state; the invariant is kept |
| Services.PlaylistManager.ToggleShuffle | AuroraMusic/Services/PlaylistManager.cs:117-129 | sets the flag; on, a permutation of the queue; off, the library in ArtistAlbum order; queue and position untouched |
| MainWindowQueue.PlayNextNeverFails | AuroraMusic/MainWindow.axaml.cs:438-462 | under the invariant PlayNext never throws: it plays the entry at its new position, stops, or does nothing exactly on an empty queue |
| MainWindowQueue.PlayNextIgnoresRepeatTrack | AuroraMusic/MainWindow.axaml.cs:438-462 | the next button treats RepeatTrack exactly as None |
| MainWindowQueue.StepsKeepInvariant | AuroraMusic/MainWindow.axaml.cs:416-480 | next, previous and end of track keep the position invariant |
| MainWindowQueue.EndReachedUnderRepeatTrack | AuroraMusic/MainWindow.axaml.cs:416-436 | under RepeatTrack, end of track replays the entry, throws past the end, and with no position plays the first entry |
| MainWindowQueue.EndReachedPlaysRest | AuroraMusic/MainWindow.axaml.cs:416-462 | under None, successive track ends play the rest of the queue in order |
| MainWindowQueue.EndReachedPlaysQueueThenStops | AuroraMusic/MainWindow.axaml.cs:416-462 | from position -1 the whole queue plays in order and then playback stops one past the end |
| MainWindowQueue.PreviousAfterStop | AuroraMusic/MainWindow.axaml.cs:438-480 | after the stop, previous plays the last entry; after a second stop it throws |
| MainWindowQueue.ScanFolder | AuroraMusic/MainWindow.axaml.cs:280-302 | the file loop yields the folder's admitted, readable entries, skipping unreadable files |
| MainWindowQueue.ScanFolders | AuroraMusic/MainWindow.axaml.cs:270-305 | the folder loop yields the skipping library scan |
| MainWindowQueue.MainWindow.constructor | AuroraMusic/MainWindow.axaml.cs:31-37 | repeat None, sort ArtistAlbum, empty library and queue, position -1, shuffle off |
| MainWindowQueue.MainWindow.SortedPlaylist | AuroraMusic/MainWindow.axaml.cs:322-333 | the library as a permutation in the current mode's key order, stable on ties |
| MainWindowQueue.MainWindow.SortAndDisplayPlaylist | AuroraMusic/MainWindow.axaml.cs:322-333 | the list box shows the sorted library |
| MainWindowQueue.MainWindow.LoadAllMusicFiles | AuroraMusic/MainWindow.axaml.cs:256-318 | the library becomes the skipping scan's entries and the list box shows it sorted |
| MainWindowQueue.MainWindow.PlaylistDoubleTapped | AuroraMusic/MainWindow.axaml.cs:351-370 | with a selection, the queue becomes the list box contents, the position the selection's first occurrence, and the selection is played |
| MainWindowQueue.MainWindow.PlayNext | AuroraMusic/MainWindow.axaml.cs:438-462 | new position and effect are those of PlayNextStep on the old state |
| MainWindowQueue.MainWindow.PlayPrevious | AuroraMusic/MainWindow.axaml.cs:464-480 | new position and effect are those of PlayPreviousStep on the old state |
| MainWindowQueue.MainWindow.OnEndReached | AuroraMusic/MainWindow.axaml.cs:416-436 | new position and effect are those of EndReachedStep on the old state |
| MainWindowQueue.MainWindow.ShuffleButtonClick | AuroraMusic/MainWindow.axaml.cs:504-537 | flips the flag; on, the list box shows a permutation of what it showed; off, the library sorted by the current mode |
| MainWindowQueue.MainWindow.RepeatButtonClick | AuroraMusic/MainWindow.axaml.cs:539-552 | the repeat mode moves to the next one in the cycle |
| MainWindowQueue.MainWindow.SearchTextChanged | AuroraMusic/MainWindow.axaml.cs:666-692 | blank text shows the sorted library, other text the matching entries in library order |
| MainWindowQueue.MainWindow.SortSelectionChanged | AuroraMusic/MainWindow.axaml.cs:694-705 | with settings loaded, the mode is taken and the library redisplayed; otherwise nothing changes |
| MainWindowQueue.MainWindow.PlayPauseButtonClick | AuroraMusic/MainWindow.axaml.cs:586-616 | pause while playing, resume a loaded track, otherwise PlayNext |
| Revisions.NextAgreesOutsideRepeatTrack | AuroraMusic/MainWindow.axaml.cs:438-462 | outside RepeatTrack the window's PlayNext and the service's GetNextSong (PlaylistManager.cs:81-103) reach the same position and play the same entry |
| Revisions.PreviousAgrees | AuroraMusic/MainWindow.axaml.cs:464-480 | PlayPrevious and the service's GetPreviousSong agree in every mode |
| Revisions.RepeatTrackDiverges | AuroraMusic/MainWindow.axaml.cs:416-462 | under RepeatTrack the service replays on next while the window's next button advances and only its end-of-track handler replays |
| Revisions.EndReachedIsServiceNext | AuroraMusic/MainWindow.axaml.cs:416-436 | with a position set, the window's end-of-track handler is the service's GetNextSong; at position -1 under RepeatTrack the service throws where the window plays the first entry |
| Revisions.LoadsAgreeWithoutFailures | AuroraMusic/MainWindow.axaml.cs:270-307 | when no admitted file is unreadable and no cover fails to decode, both revisions' scans load the same library |

## Left out

- Rendering, icons, popups, pane layout and the album view: the model keeps only what the list box shows.
- The media engine: playing, stopping, pausing and resuming are effects the handlers return; `IsPlaying` and whether media is loaded are parameters.
- PlayFile's own failures (a bad URI, the engine throwing) are not modelled: playing an entry is always the effect `Played`.
- Threading and `async`: handlers run one at a time, each to completion; the UI-thread dispatch of `OnEndReached` is not modelled.
- Persistence of repeat and sort modes to the settings store: it is I/O, and the modes are closed datatypes, so only their named values (repeat codes 0..2, sort codes 0..3) are modelled.
- An unknown stored sort code: the `_ =>` arm that orders it like ArtistAlbum (PlaylistManager.cs:71, MainWindow.axaml.cs:330) is not modelled.
- An out-of-range stored repeat code: the repeat button's `(m + 1) % 3` turns a negative code such as -2 into the unnamed mode -1 (MainWindow.axaml.cs:543, where C# `%` truncates toward zero), and traversal then behaves as under None; neither is modelled.
- Reading the folder list from the database: the folders are a parameter.
- TagLib parsing, cover-art decoding and directory enumeration: each file is given with its tags or as unreadable, in enumeration order; album art and the album artist are not kept.
- Exceptions from enumerating a directory while it is scanned: they are not modelled.
- Culture-sensitive string comparison: OrderBy's default comparer is replaced by ordinal character order, a total order with the same role.
- Text.ContainsIgnoreCaseUpToCase: OrdinalIgnoreCase folds only ASCII letters here, not the whole of Unicode.
- Tracks.AdmittedIffSuffix: `ToLower` in the extension filter lower-cases only ASCII letters here.
- Text.FileNameWithoutExtension: both '/' and '\\' count as separators, whatever the platform; volume separators are not treated specially.
- Entry identity: entries are compared by value, while `List.IndexOf` on the C# class compares references; two files with equal fields are one entry here.
- The PlaylistManager returns lazy sequences: `ToggleShuffle(true)` draws new random numbers each time its result is enumerated. The model returns each sequence once, drawn once.
- Services.StoppedQueueKeepsCounting: the position is a 32-bit `int` in the source, so its `++` (PlaylistManager.cs:90, MainWindow.axaml.cs:443) wraps after about 2^31 calls past the end; positions are unbounded integers here, and the lemma's growth for every n does not model that wrap.
- The null-ItemsSource branch of a double tap is kept as `NoItemsSource`, but a null list box control and a null search box are not modelled.
- Null search text: `IsNullOrWhiteSpace(null)` behaves as for blank text, and the model takes strings only.
