/** Library entries and the rules by which a folder scan turns files into them. */
module Tracks {
  import opened Text

  /** A playlist entry; the file path is its identity. */
  datatype Item = Item(path: string, title: string, artist: string, album: string)

  /** The tag fields a scan reads: Tag.Title, Tag.FirstPerformer, Tag.Album. */
  datatype Tags = Tags(title: string, firstPerformer: string, album: string)

  /** What the tag reader yields for one file: its tags and whether the first
      embedded picture, if there is one, decodes as an image; or a failure of
      TagLib's File.Create. */
  datatype Metadata = Read(tags: Tags, coverDecodes: bool) | Unreadable

  datatype FileEntry = FileEntry(path: string, metadata: Metadata)

  /** The file system as a scan sees it: each folder root that exists is
      mapped to the files found beneath it, recursively, in enumeration order. */
  type Disk = map<string, seq<FileEntry>>

  /** The outcome of a scan that stops at the first unreadable file. */
  datatype LoadResult = Loaded(items: seq<Item>) | Failed(path: string)

  const SupportedExtensions: seq<string> := [".mp3", ".flac", ".m4a", ".mp4"]
  const UnknownArtist: string := "Unknown Artist"
  const UnknownAlbum: string := "Unknown Album"

  /** The extension allow-list: the lower-cased Path.GetExtension is a supported one. */
  predicate Admitted(path: string) {
    ToLower(Extension(path)) in SupportedExtensions
  }

  /** The path ends in e, compared after lower-casing. */
  predicate EndsInLower(path: string, e: string) {
    |e| <= |path| && ToLower(path[|path| - |e|..]) == e
  }

  lemma SupportedExtensionShape(path: string, e: string)
    requires e in SupportedExtensions
    ensures ToLower(Extension(path)) == e <==> EndsInLower(path, e)
  {
    if e == ".mp3" {
      ExtensionIsLowerSuffix(path, ".mp3");
    } else if e == ".flac" {
      ExtensionIsLowerSuffix(path, ".flac");
    } else if e == ".m4a" {
      ExtensionIsLowerSuffix(path, ".m4a");
    } else {
      ExtensionIsLowerSuffix(path, ".mp4");
    }
  }

  /** A path is admitted exactly when it ends, ignoring ASCII case, in one of
      the supported extensions. */
  lemma AdmittedIffSuffix(path: string)
    ensures Admitted(path) <==> exists e | e in SupportedExtensions :: EndsInLower(path, e)
  {
    if Admitted(path) {
      SupportedExtensionShape(path, ToLower(Extension(path)));
    }
    forall e | e in SupportedExtensions && EndsInLower(path, e)
      ensures Admitted(path)
    {
      SupportedExtensionShape(path, e);
    }
  }

  /** The entry built for an admitted file: blank tag fields fall back to the
      file name without extension, "Unknown Artist" and "Unknown Album". */
  function MakeItem(path: string, tags: Tags): Item {
    Item(path,
         if IsBlank(tags.title) then FileNameWithoutExtension(path) else tags.title,
         if IsBlank(tags.firstPerformer) then UnknownArtist else tags.firstPerformer,
         if IsBlank(tags.album) then UnknownAlbum else tags.album)
  }

  /** An entry keeps the file's path, never has a blank artist or album, keeps
      every non-blank tag, and has a blank title only when the tag title and
      the file-name stem are both blank. */
  lemma {:induction false} MakeItemFallbacks(path: string, tags: Tags)
    ensures MakeItem(path, tags).path == path
    ensures !IsBlank(MakeItem(path, tags).artist) && !IsBlank(MakeItem(path, tags).album)
    ensures !IsBlank(tags.title) ==> MakeItem(path, tags).title == tags.title
    ensures !IsBlank(tags.firstPerformer) ==> MakeItem(path, tags).artist == tags.firstPerformer
    ensures !IsBlank(tags.album) ==> MakeItem(path, tags).album == tags.album
    ensures IsBlank(tags.title) ==> MakeItem(path, tags).title == FileNameWithoutExtension(path)
    ensures IsBlank(tags.firstPerformer) ==> MakeItem(path, tags).artist == UnknownArtist
    ensures IsBlank(tags.album) ==> MakeItem(path, tags).album == UnknownAlbum
    ensures IsBlank(MakeItem(path, tags).title) <==> IsBlank(tags.title) && IsBlank(FileNameWithoutExtension(path))
  {
    assert !IsWhiteSpace(UnknownArtist[0]);
    assert !IsWhiteSpace(UnknownAlbum[0]);
  }

  // ---------------------------------------------------------------------------
  // Best-effort scan: a file whose tags or cover cannot be read is skipped.

  /** A file the skipping scan turns into an entry: admitted, readable, and
      with a cover that decodes (the skipping scan builds a bitmap from it). */
  predicate Usable(f: FileEntry) {
    Admitted(f.path) && f.metadata.Read? && f.metadata.coverDecodes
  }

  /** An admitted file whose tags read but whose cover does not decode: the
      skipping scan drops it, the all-or-nothing scan, which only copies the
      cover's bytes, keeps it. */
  predicate CoverFails(f: FileEntry) {
    Admitted(f.path) && f.metadata.Read? && !f.metadata.coverDecodes
  }

  /** The file f is usable and x is the entry built from it. */
  predicate Yields(f: FileEntry, x: Item) {
    Usable(f) && x == MakeItem(f.path, f.metadata.tags)
  }

  /** The entries of one folder's files, skipping unsupported and unreadable ones. */
  function FolderItems(files: seq<FileEntry>): seq<Item>
    decreases |files|
  {
    if files == [] then []
    else
      var f := files[|files| - 1];
      FolderItems(files[..|files| - 1])
        + (if Usable(f) then [MakeItem(f.path, f.metadata.tags)] else [])
  }

  /** The entries of all folders, folder by folder; folders missing from the disk are skipped. */
  function Library(folders: seq<string>, disk: Disk): seq<Item>
    decreases |folders|
  {
    if folders == [] then []
    else
      var root := folders[|folders| - 1];
      Library(folders[..|folders| - 1], disk) + (if root in disk then FolderItems(disk[root]) else [])
  }

  /** A file contributes to a skipping scan: it lies in an existing folder and is usable. */
  ghost predicate Contributes(folders: seq<string>, disk: Disk, root: string, f: FileEntry) {
    root in folders && root in disk && f in disk[root] && Usable(f)
  }

  /** Appending a file adds exactly the entry it yields. */
  lemma FolderItemsAppend(init: seq<FileEntry>, last: FileEntry, x: Item)
    ensures x in FolderItems(init + [last]) <==> x in FolderItems(init) || Yields(last, x)
  {
    var files := init + [last];
    assert files[..|files| - 1] == init;
    var tail := if Usable(last) then [MakeItem(last.path, last.metadata.tags)] else [];
    assert FolderItems(files) == FolderItems(init) + tail;
  }

  lemma YieldsAppend(init: seq<FileEntry>, last: FileEntry, x: Item)
    ensures (exists f | f in init + [last] :: Yields(f, x)) <==> (exists f | f in init :: Yields(f, x)) || Yields(last, x)
  {
    assert forall f :: f in init + [last] <==> f in init || f == last;
  }

  lemma {:induction false} FolderItemsMembers(files: seq<FileEntry>, x: Item)
    ensures x in FolderItems(files) <==> exists f | f in files :: Yields(f, x)
    decreases |files|
  {
    if files != [] {
      var init := files[..|files| - 1];
      var last := files[|files| - 1];
      assert files == init + [last];
      FolderItemsMembers(init, x);
      FolderItemsAppend(init, last, x);
      YieldsAppend(init, last, x);
    }
  }

  /** An entry is in the library exactly when it is built from a contributing file. */
  lemma {:induction false} LibraryMembers(folders: seq<string>, disk: Disk, x: Item)
    ensures x in Library(folders, disk) <==>
      exists root, f | Contributes(folders, disk, root, f) :: Yields(f, x)
    decreases |folders|
  {
    if folders != [] {
      var init := folders[..|folders| - 1];
      var root := folders[|folders| - 1];
      assert folders == init + [root];
      LibraryMembers(init, disk, x);
      if root in disk {
        FolderItemsMembers(disk[root], x);
      }
      if x in Library(folders, disk) {
        if x in Library(init, disk) {
          var r, f :| Contributes(init, disk, r, f) && Yields(f, x);
          assert Contributes(folders, disk, r, f);
        } else {
          var f :| f in disk[root] && Yields(f, x);
          assert Contributes(folders, disk, root, f);
        }
      }
      if exists r, f | Contributes(folders, disk, r, f) :: Yields(f, x) {
        var r, f :| Contributes(folders, disk, r, f) && Yields(f, x);
        if r != root {
          assert Contributes(init, disk, r, f);
        }
      }
    }
  }

  /** A scan over folders none of which exists yields an empty library. */
  lemma {:induction false} LibraryOfMissingFolders(folders: seq<string>, disk: Disk)
    requires forall i | 0 <= i < |folders| :: folders[i] !in disk
    ensures Library(folders, disk) == []
    decreases |folders|
  {
    if folders != [] {
      LibraryOfMissingFolders(folders[..|folders| - 1], disk);
    }
  }

  // ---------------------------------------------------------------------------
  // All-or-nothing scan: the first unreadable admitted file aborts the whole scan.

  function FolderItemsStrict(files: seq<FileEntry>): LoadResult
    decreases |files|
  {
    if files == [] then Loaded([])
    else
      var f := files[|files| - 1];
      match FolderItemsStrict(files[..|files| - 1])
      case Failed(p) => Failed(p)
      case Loaded(l) =>
        if !Admitted(f.path) then Loaded(l)
        else if f.metadata.Unreadable? then Failed(f.path)
        else Loaded(l + [MakeItem(f.path, f.metadata.tags)])
  }

  function LibraryStrict(folders: seq<string>, disk: Disk): LoadResult
    decreases |folders|
  {
    if folders == [] then Loaded([])
    else
      var root := folders[|folders| - 1];
      match LibraryStrict(folders[..|folders| - 1], disk)
      case Failed(p) => Failed(p)
      case Loaded(l) =>
        if root !in disk then Loaded(l)
        else match FolderItemsStrict(disk[root])
          case Failed(p) => Failed(p)
          case Loaded(m) => Loaded(l + m)
  }

  /** Once a prefix of a folder's files has failed, the folder fails the same way. */
  lemma {:induction false} FolderFailurePersists(files: seq<FileEntry>, j: nat)
    requires j <= |files| && FolderItemsStrict(files[..j]).Failed?
    ensures FolderItemsStrict(files) == FolderItemsStrict(files[..j])
    decreases |files| - j
  {
    if j < |files| {
      assert files[..j + 1][..j] == files[..j];
      FolderFailurePersists(files, j + 1);
    } else {
      assert files[..j] == files;
    }
  }

  /** Once a prefix of the folders has failed, the scan fails the same way. */
  lemma {:induction false} LibraryFailurePersists(folders: seq<string>, disk: Disk, i: nat)
    requires i <= |folders| && LibraryStrict(folders[..i], disk).Failed?
    ensures LibraryStrict(folders, disk) == LibraryStrict(folders[..i], disk)
    decreases |folders| - i
  {
    if i < |folders| {
      assert folders[..i + 1][..i] == folders[..i];
      LibraryFailurePersists(folders, disk, i + 1);
    } else {
      assert folders[..i] == folders;
    }
  }

  /** An admitted file of files whose tags cannot be read. */
  ghost predicate HasUnreadable(files: seq<FileEntry>) {
    exists f | f in files :: Admitted(f.path) && f.metadata.Unreadable?
  }

  /** No file of files has a cover that fails to decode. */
  ghost predicate CoversDecode(files: seq<FileEntry>) {
    forall f | f in files :: !CoverFails(f)
  }

  /** A folder's all-or-nothing scan fails exactly when it holds an admitted
      unreadable file. */
  lemma {:induction false} FolderStrictFails(files: seq<FileEntry>)
    ensures FolderItemsStrict(files).Failed? <==> HasUnreadable(files)
    decreases |files|
  {
    if files != [] {
      var init := files[..|files| - 1];
      var last := files[|files| - 1];
      FolderStrictFails(init);
      assert files == init + [last];
      assert forall f :: f in files <==> f in init || f == last;
    }
  }

  /** When a folder's all-or-nothing scan loads and no cover fails, it yields
      the skipping scan's entries. */
  lemma {:induction false} FolderStrictAgrees(files: seq<FileEntry>)
    requires CoversDecode(files)
    ensures FolderItemsStrict(files).Loaded? ==> FolderItemsStrict(files).items == FolderItems(files)
    decreases |files|
  {
    if files != [] {
      var init := files[..|files| - 1];
      var last := files[|files| - 1];
      assert files == init + [last];
      assert last in files;
      assert CoversDecode(init) by {
        forall f | f in init ensures !CoverFails(f) {
          assert f in files;
        }
      }
      FolderStrictAgrees(init);
    }
  }

  /** No file of any existing listed folder has a cover that fails to decode. */
  ghost predicate LibraryCoversDecode(folders: seq<string>, disk: Disk) {
    forall root | root in folders && root in disk :: CoversDecode(disk[root])
  }

  /** The all-or-nothing scan fails exactly when some existing listed folder
      holds an admitted file whose tags cannot be read; when it loads and no
      cover fails, it yields exactly the skipping scan's library. */
  lemma {:induction false} StrictAgreesWithBestEffort(folders: seq<string>, disk: Disk)
    ensures LibraryStrict(folders, disk).Loaded? && LibraryCoversDecode(folders, disk) ==>
      LibraryStrict(folders, disk).items == Library(folders, disk)
    ensures LibraryStrict(folders, disk).Failed? <==>
      exists root | root in folders && root in disk :: HasUnreadable(disk[root])
    decreases |folders|
  {
    if folders != [] {
      var init := folders[..|folders| - 1];
      var root := folders[|folders| - 1];
      assert folders == init + [root];
      assert forall r :: r in folders <==> r in init || r == root;
      StrictAgreesWithBestEffort(init, disk);
      if root in disk {
        FolderStrictFails(disk[root]);
        if LibraryCoversDecode(folders, disk) {
          FolderStrictAgrees(disk[root]);
        }
      }
      if LibraryCoversDecode(folders, disk) {
        assert LibraryCoversDecode(init, disk);
      }
    }
  }

  /** A file whose cover does not decode is where the two scans part: the
      all-or-nothing scan loads its entry, the skipping scan drops it. */
  lemma CoverFailureSplitsScans(path: string, tags: Tags)
    requires Admitted(path)
    ensures FolderItemsStrict([FileEntry(path, Read(tags, false))]) == Loaded([MakeItem(path, tags)])
    ensures FolderItems([FileEntry(path, Read(tags, false))]) == []
  {
    var files := [FileEntry(path, Read(tags, false))];
    assert files[..0] == [];
  }
}
