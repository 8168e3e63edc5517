/**
 * The archive protocol of the plugin copy: copy every spec folder into
 * `.archive/<stamp>/` with a manifest, check that every folder arrived,
 * delete the originals, and restore the absent ones from the archive when a
 * deletion fails.
 */
module PluginArchive {
  import opened Types
  import opened Text
  import opened Tree
  import opened Fs
  import opened Collections

  const ArchiveDir := ".archive"
  const ManifestName := "manifest.json"

  /** `path.join(specsDir, '.archive', timestamp)`. */
  function ArchivePath(stamp: string): Path {
    [ArchiveDir, stamp]
  }

  // ---------------------------------------------------------------------------
  // Recursive copy

  /**
   * `copyDirectory(src, dest)`. The destination is created when missing;
   * then every entry of the source is copied, directories recursively and
   * everything else with `copyFileSync`. An error ends the copy and is
   * passed on (`ok == false`). `copied` is the node now at `dest`: the copy
   * only ever writes there, and into a destination that did not exist it
   * writes exactly the source folder.
   */
  method CopyDirectory(fs: FileSystem, src: Path, dest: Path, ghost srcNode: Node) returns (ok: bool, ghost copied: Node)
    requires fs.Valid() && |dest| >= 1 && ValidPath(dest) && Disjoint(src, dest)
    requires IsDirAt(fs.root, Parent(dest))
    requires Lookup(fs.root, src).Some? ==> Lookup(fs.root, src) == Some(srcNode)
    modifies fs
    ensures fs.Valid()
    ensures fs.root == old(fs.root) || fs.root == Put(old(fs.root), dest, copied)
    ensures ok ==> fs.root == Put(old(fs.root), dest, copied)
    ensures ok && old(Lookup(fs.root, dest)).None? ==> old(Lookup(fs.root, src)) == Some(copied) && copied.Dir?
    decreases srcNode, 1
  {
    ghost var root0 := fs.root;
    var isNew := !Exists(fs.root, dest);
    if isNew {
      ok := fs.MkDir(dest);
      copied := Dir([]);
      if !ok {
        return;
      }
    } else {
      copied := Lookup(fs.root, dest).value;
      PutLookup(fs.root, dest);
    }
    LookupPutDisjoint(root0, dest, src, copied);
    var listing := fs.ReadDir(src);
    if listing.None? {
      return false, copied;
    }
    var entries := listing.value;
    assert srcNode == Dir(entries);
    LookupWellFormed(fs.root, src);
    LookupPutSame(root0, dest, copied);
    if entries != [] && !IsDirAt(fs.root, dest) {
      // The first entry is written below something that is not a directory, which throws.
      return false, copied;
    }
    ok := true;
    var i := 0;
    while i < |entries|
      invariant 0 <= i <= |entries|
      invariant fs.Valid()
      invariant fs.root == Put(root0, dest, copied)
      invariant entries != [] ==> copied.Dir?
      invariant Lookup(fs.root, src) == Some(srcNode)
      invariant isNew ==> copied == Dir(entries[..i])
    {
      ok, copied := CopyEntry(fs, root0, src, dest, srcNode, entries, i, copied);
      if !ok {
        return;
      }
      i := i + 1;
    }
    assert entries[..|entries|] == entries;
  }

  /**
   * One turn of the copy loop: entry `i` of the source folder is copied to
   * `dest`, whose node is `copied` before and `copied'` after.
   */
  method CopyEntry(fs: FileSystem, ghost root0: Node, src: Path, dest: Path, ghost srcNode: Node,
                   entries: seq<Entry>, i: nat, ghost copied: Node) returns (ok: bool, ghost copied': Node)
    requires fs.Valid() && |dest| >= 1 && ValidPath(dest) && Disjoint(src, dest)
    requires IsDirAt(root0, Parent(dest)) && copied.Dir?
    requires fs.root == Put(root0, dest, copied)
    requires srcNode == Dir(entries) && Lookup(fs.root, src) == Some(srcNode)
    requires i < |entries| && UniqueNames(entries)
    modifies fs
    ensures fs.Valid()
    ensures fs.root == Put(root0, dest, copied') && copied'.Dir?
    ensures Lookup(fs.root, src) == Some(srcNode)
    ensures ok && copied == Dir(entries[..i]) ==> copied' == Dir(entries[..i + 1])
    decreases srcNode, 0
  {
    var entry := entries[i];
    var srcPath := src + [entry.name];
    var destPath := dest + [entry.name];
    ghost var before := fs.root;
    CopyEntryFacts(root0, src, dest, copied, entries, i);
    if copied == Dir(entries[..i]) {
      FindBefore(entries, i);
    }
    ghost var x: Node;
    if IsDirectory(entry.node) {
      assert entries[i] in entries;
      ok, x := CopyDirectory(fs, srcPath, destPath, entry.node);
    } else {
      ok := fs.CopyFile(srcPath, destPath);
      x := entry.node;
    }
    if ok || fs.root != before {
      CopyEntryAfter(root0, src, dest, copied, entries, i, x);
      copied' := Put(copied, [entry.name], x);
    } else {
      copied' := copied;
    }
  }

  /** What holds at one entry of the copy loop, with the tree as `dest` holding `copied`. */
  lemma CopyEntryFacts(root0: Node, src: Path, dest: Path, copied: Node, entries: seq<Entry>, i: nat)
    requires |dest| >= 1 && IsDirAt(root0, Parent(dest)) && Disjoint(src, dest)
    requires i < |entries| && UniqueNames(entries)
    requires Lookup(Put(root0, dest, copied), src) == Some(Dir(entries))
    ensures var root := Put(root0, dest, copied);
            var e := entries[i];
            && Lookup(root, src + [e.name]) == Some(e.node)
            && IsDirAt(root, Parent(dest + [e.name])) == copied.Dir?
            && Lookup(root, dest + [e.name]) == Child(copied, e.name)
            && Disjoint(src + [e.name], dest + [e.name])
            && Disjoint(dest + [e.name], src)
            && ValidPath([e.name])
  {
    var root := Put(root0, dest, copied);
    var e := entries[i];
    LookupAppend(root, src, [e.name]);
    FindUnique(entries, i);
    LookupChild(Dir(entries), e.name);
    LookupPutSame(root0, dest, copied);
    assert Parent(dest + [e.name]) == dest;
    LookupAppend(root, dest, [e.name]);
    LookupChild(copied, e.name);
    DisjointSnoc(src, dest, e.name);
    DisjointExtend(src, dest, e.name, e.name);
  }

  /** The tree after writing `x` below `dest`, and the folder copied so far. */
  lemma CopyEntryAfter(root0: Node, src: Path, dest: Path, copied: Node, entries: seq<Entry>, i: nat, x: Node)
    requires |dest| >= 1 && Disjoint(src, dest) && i < |entries| && UniqueNames(entries)
    ensures var n := entries[i].name;
            Put(Put(root0, dest, copied), dest + [n], x) == Put(root0, dest, Put(copied, [n], x))
    ensures var n := entries[i].name;
            Lookup(Put(Put(root0, dest, copied), dest + [n], x), src) == Lookup(Put(root0, dest, copied), src)
    ensures copied == Dir(entries[..i]) && x == entries[i].node ==> Put(copied, [entries[i].name], x) == Dir(entries[..i + 1])
  {
    var n := entries[i].name;
    PutPut(root0, dest, [n], copied, x);
    DisjointSnoc(src, dest, n);
    LookupPutDisjoint(Put(root0, dest, copied), dest + [n], src, x);
    if copied == Dir(entries[..i]) && x == entries[i].node {
      FindBefore(entries, i);
      PutNewEntry(entries[..i], entries[i]);
      PrefixSnoc(entries, i);
    }
  }

  /** Writing a name a directory does not list appends it to the listing. */
  lemma PutNewEntry(es: seq<Entry>, e: Entry)
    requires Find(es, e.name) == |es|
    ensures Put(Dir(es), [e.name], e.node) == Dir(es + [e])
  {
  }

  // ---------------------------------------------------------------------------
  // Archiving

  /** One folder of the manifest. */
  datatype ManifestFolder = ManifestFolder(name: string, category: string, hasRequirements: bool, hasImplementation: bool)

  /** The manifest written next to the archived folders. */
  datatype Manifest = Manifest(timestamp: string, foldersCount: nat, folders: seq<ManifestFolder>)

  function FolderOf(s: SpecMetadata): ManifestFolder {
    ManifestFolder(s.name, s.category, s.requirementsFile.Some?, s.implementationFile.Some?)
  }

  /** The manifest of the archived specs, `timestamp` being the clock reading at the time. */
  function ManifestOf(specs: seq<SpecMetadata>, timestamp: string): (m: Manifest)
    ensures m.foldersCount == |m.folders| == |specs|
    ensures forall k :: 0 <= k < |specs| ==> m.folders[k].name == specs[k].name && m.folders[k].category == specs[k].category
    ensures forall k :: 0 <= k < |specs| ==> (m.folders[k].hasRequirements <==> specs[k].requirementsFile.Some?)
    ensures forall k :: 0 <= k < |specs| ==> (m.folders[k].hasImplementation <==> specs[k].implementationFile.Some?)
  {
    Manifest(timestamp, |specs|, Map(specs, FolderOf))
  }

  /** The names the scanner hands over: non-empty, distinct and never the archive directory (a hidden name). */
  predicate ArchivableNames(specs: seq<SpecMetadata>) {
    && Distinct(Types.Names(specs))
    && forall k :: 0 <= k < |specs| ==> specs[k].name != "" && specs[k].name != ArchiveDir
  }

  /**
   * What holds after the first `i` folders were copied into the archive at
   * `ap`: the archive is a directory, nothing outside `.archive` changed,
   * each copied folder is there, and when the archive is new each copy is
   * exactly the original folder and the folders still to come are absent.
   */
  ghost predicate Copied(root0: Node, root: Node, specs: seq<SpecMetadata>, ap: Path, i: nat, isNew: bool)
    requires i <= |specs|
  {
    && IsDirAt(root, ap)
    && SameOutside(root0, root)
    && (forall k :: 0 <= k < i ==> Exists(root, ap + [specs[k].name]))
    && (isNew ==> forall k :: 0 <= k < i ==>
          Lookup(root, ap + [specs[k].name]) == Lookup(root0, [specs[k].name]) && IsDirAt(root0, [specs[k].name]))
    && (isNew ==> forall k :: i <= k < |specs| ==> Lookup(root, ap + [specs[k].name]).None?)
  }

  /**
   * `archiveSpecFolders`: creates `.archive/<stamp>/`, copies every spec
   * folder into it and writes `manifest.json` there, the manifest's text
   * being `json` of the manifest. Any error gives `None`. `stamp` is the
   * clock-derived folder name and `isoTime` the manifest's timestamp.
   */
  method ArchiveSpecFolders(fs: FileSystem, specs: seq<SpecMetadata>, stamp: string, isoTime: string,
                            json: Manifest -> string) returns (archivePath: Option<Path>)
    requires fs.Valid() && stamp != "" && ArchivableNames(specs)
    modifies fs
    ensures fs.Valid()
    ensures forall a :: a != ArchiveDir ==> Child(fs.root, a) == old(Child(fs.root, a))
    ensures archivePath.Some? ==> archivePath.value == ArchivePath(stamp)
    ensures archivePath.Some? ==> forall k :: 0 <= k < |specs| ==> Exists(fs.root, ArchivePath(stamp) + [specs[k].name])
    ensures archivePath.Some? && old(!Exists(fs.root, ArchivePath(stamp))) ==>
              && (forall k :: 0 <= k < |specs| ==>
                    Lookup(fs.root, ArchivePath(stamp) + [specs[k].name]) == old(Lookup(fs.root, [specs[k].name])))
              && fs.ReadFile(ArchivePath(stamp) + [ManifestName]) == Some(json(ManifestOf(specs, isoTime)))
  {
    var ap := ArchivePath(stamp);
    ghost var root0 := fs.root;
    var ok, isNew := MakeArchiveDir(fs, specs, stamp);
    if !ok {
      return None;
    }
    ok := CopySpecFolders(fs, specs, stamp, root0, isNew);
    if !ok {
      return None;
    }
    ghost var before := fs.root;
    ok := fs.WriteFile(ap + [ManifestName], json(ManifestOf(specs, isoTime)));
    if !ok {
      return None;
    }
    ManifestStep(root0, before, specs, stamp, isNew, json(ManifestOf(specs, isoTime)));
    archivePath := Some(ap);
  }

  /** Nothing outside `.archive` differs between the two trees. */
  ghost predicate SameOutside(root0: Node, root: Node) {
    forall a :: a != ArchiveDir ==> Child(root, a) == Child(root0, a)
  }

  /**
   * The first part of `archiveSpecFolders`: `.archive` is created when
   * missing, then `.archive/<stamp>`. `isNew` says whether the archive
   * folder did not exist before.
   */
  method MakeArchiveDir(fs: FileSystem, specs: seq<SpecMetadata>, stamp: string) returns (ok: bool, isNew: bool)
    requires fs.Valid() && stamp != ""
    modifies fs
    ensures fs.Valid() && SameOutside(old(fs.root), fs.root)
    ensures isNew == old(!Exists(fs.root, ArchivePath(stamp)))
    ensures ok ==> Copied(old(fs.root), fs.root, specs, ArchivePath(stamp), 0, isNew)
  {
    var ap := ArchivePath(stamp);
    ghost var root0 := fs.root;
    isNew := !Exists(fs.root, ap);
    if !Exists(fs.root, [ArchiveDir]) {
      ok := fs.MkDir([ArchiveDir]);
      if !ok {
        return;
      }
      ArchiveRootFacts(root0, stamp);
    }
    ghost var root1 := fs.root;
    ok := fs.MkDir(ap);
    if isNew && ok {
      FramePut(root0, root1, ap, Dir([]));
    }
    // A folder that is there but cannot be listed makes the first copy or the manifest throw.
    if !ok || !IsDirAt(fs.root, ap) {
      return false, isNew;
    }
    ArchiveDirFacts(root0, root1, fs.root, specs, stamp, isNew);
  }

  /** The copy loop of `archiveSpecFolders`: every spec folder is copied into the archive, in order. */
  method CopySpecFolders(fs: FileSystem, specs: seq<SpecMetadata>, stamp: string, ghost root0: Node, isNew: bool) returns (ok: bool)
    requires fs.Valid() && stamp != "" && ArchivableNames(specs)
    requires Copied(root0, fs.root, specs, ArchivePath(stamp), 0, isNew)
    modifies fs
    ensures fs.Valid() && SameOutside(root0, fs.root)
    ensures ok ==> Copied(root0, fs.root, specs, ArchivePath(stamp), |specs|, isNew)
  {
    var ap := ArchivePath(stamp);
    var i := 0;
    while i < |specs|
      invariant 0 <= i <= |specs|
      invariant fs.Valid()
      invariant Copied(root0, fs.root, specs, ap, i, isNew)
    {
      var name := specs[i].name;
      ghost var before := fs.root;
      ghost var srcNode := if Exists(fs.root, [name]) then Lookup(fs.root, [name]).value else Dir([]);
      SourceDisjoint(stamp, name);
      ghost var copied;
      ok, copied := CopyDirectory(fs, [name], ap + [name], srcNode);
      if !ok {
        FramePut(root0, before, ap + [name], copied);
        return;
      }
      CopiedStep(root0, before, specs, stamp, i, isNew, copied);
      i := i + 1;
    }
    ok := true;
  }

  /** A put below `p` leaves every top-level name other than `p[0]` alone. */
  lemma PutOutside(n: Node, p: Path, x: Node, a: string)
    requires |p| >= 1 && p[0] != a
    ensures Child(Put(n, p, x), a) == Child(n, a)
  {
    assert !IsPrefix(p, [a]) && !IsPrefix([a], p) by {
      assert p[..1][0] == p[0];
    }
    LookupPutDisjoint(n, p, [a], x);
    LookupChild(n, a);
    LookupChild(Put(n, p, x), a);
  }

  /** Creating `.archive` leaves every other top-level name alone and puts nothing at the archive path. */
  lemma ArchiveRootFacts(root0: Node, stamp: string)
    requires root0.Dir? && Lookup(root0, [ArchiveDir]).None?
    ensures var root1 := Put(root0, [ArchiveDir], Dir([]));
            && (forall a :: a != ArchiveDir ==> Child(root1, a) == Child(root0, a))
            && !Exists(root0, ArchivePath(stamp)) && !Exists(root1, ArchivePath(stamp))
  {
    var root1 := Put(root0, [ArchiveDir], Dir([]));
    forall a | a != ArchiveDir
      ensures Child(root1, a) == Child(root0, a)
    {
      PutOutside(root0, [ArchiveDir], Dir([]), a);
    }
    var ap := ArchivePath(stamp);
    LookupAppend(root0, [ArchiveDir], [stamp]);
    LookupPutSame(root0, [ArchiveDir], Dir([]));
    LookupAppend(root1, [ArchiveDir], [stamp]);
    LookupChild(Dir([]), stamp);
    assert ap == [ArchiveDir] + [stamp];
  }

  /** The state once the archive folder is there: nothing is copied yet. */
  lemma ArchiveDirFacts(root0: Node, root1: Node, root2: Node, specs: seq<SpecMetadata>, stamp: string, isNew: bool)
    requires forall a :: a != ArchiveDir ==> Child(root1, a) == Child(root0, a)
    requires IsDirAt(root2, ArchivePath(stamp))
    requires isNew ==> root2 == Put(root1, ArchivePath(stamp), Dir([])) && IsDirAt(root1, [ArchiveDir])
    requires !isNew ==> root2 == root1
    ensures Copied(root0, root2, specs, ArchivePath(stamp), 0, isNew)
  {
    var ap := ArchivePath(stamp);
    if isNew {
      FramePut(root0, root1, ap, Dir([]));
      assert Parent(ap) == [ArchiveDir];
      LookupPutSame(root1, ap, Dir([]));
      forall k | 0 <= k < |specs|
        ensures Lookup(root2, ap + [specs[k].name]).None?
      {
        LookupAppend(root2, ap, [specs[k].name]);
        LookupChild(Dir([]), specs[k].name);
      }
    }
  }

  /** A put below `.archive` keeps a tree that agrees with `root0` outside `.archive`. */
  lemma FramePut(root0: Node, root1: Node, p: Path, x: Node)
    requires |p| >= 1 && p[0] == ArchiveDir
    requires forall a :: a != ArchiveDir ==> Child(root1, a) == Child(root0, a)
    ensures forall a :: a != ArchiveDir ==> Child(Put(root1, p, x), a) == Child(root0, a)
  {
    forall a | a != ArchiveDir
      ensures Child(Put(root1, p, x), a) == Child(root0, a)
    {
      PutOutside(root1, p, x, a);
    }
  }

  /** Two entries of the same folder under different names are disjoint paths. */
  lemma SiblingsDisjoint(p: Path, m: string, n: string)
    requires m != n
    ensures Disjoint(p + [m], p + [n])
  {
    assert Parent(p + [m]) == p && Parent(p + [n]) == p;
    NamesDiffer(p + [n], p + [m]);
  }

  /** A spec folder and its copy in the archive are disjoint paths. */
  lemma SourceDisjoint(stamp: string, name: string)
    requires name != ArchiveDir
    ensures Disjoint([name], ArchivePath(stamp) + [name])
  {
    assert (ArchivePath(stamp) + [name])[..1] == [ArchiveDir];
  }

  /** The copy of folder `i` keeps what holds of the earlier ones and adds it. */
  lemma CopiedStep(root0: Node, before: Node, specs: seq<SpecMetadata>, stamp: string, i: nat, isNew: bool, copied: Node)
    requires i < |specs| && ArchivableNames(specs)
    requires Copied(root0, before, specs, ArchivePath(stamp), i, isNew)
    requires var dest := ArchivePath(stamp) + [specs[i].name];
             Lookup(before, dest).None? ==> Lookup(before, [specs[i].name]) == Some(copied) && copied.Dir?
    ensures Copied(root0, Put(before, ArchivePath(stamp) + [specs[i].name], copied), specs, ArchivePath(stamp), i + 1, isNew)
  {
    var ap := ArchivePath(stamp);
    var n := specs[i].name;
    var after := Put(before, ap + [n], copied);
    assert Parent(ap + [n]) == ap;
    LookupPutPrefixDir(before, ap, [n], copied);
    forall a | a != ArchiveDir
      ensures Child(after, a) == Child(root0, a)
    {
      PutOutside(before, ap + [n], copied, a);
    }
    LookupPutSame(before, ap + [n], copied);
    forall k | 0 <= k < |specs| && k != i
      ensures Lookup(after, ap + [specs[k].name]) == Lookup(before, ap + [specs[k].name])
    {
      assert Types.Names(specs)[k] != Types.Names(specs)[i];
      SiblingsDisjoint(ap, n, specs[k].name);
      LookupPutDisjoint(before, ap + [n], ap + [specs[k].name], copied);
    }
    if isNew {
      LookupChild(before, n);
      LookupChild(root0, n);
    }
  }

  /** Writing the manifest keeps the copies: a new archive holds no folder of that name. */
  lemma ManifestStep(root0: Node, before: Node, specs: seq<SpecMetadata>, stamp: string, isNew: bool, data: string)
    requires ArchivableNames(specs)
    requires Copied(root0, before, specs, ArchivePath(stamp), |specs|, isNew)
    requires var m := Lookup(before, ArchivePath(stamp) + [ManifestName]); m.None? || m.value.File?
    ensures var after := Put(before, ArchivePath(stamp) + [ManifestName], File(data));
            && (forall a :: a != ArchiveDir ==> Child(after, a) == Child(root0, a))
            && (forall k :: 0 <= k < |specs| ==> Exists(after, ArchivePath(stamp) + [specs[k].name]))
            && (isNew ==> forall k :: 0 <= k < |specs| ==>
                  Lookup(after, ArchivePath(stamp) + [specs[k].name]) == Lookup(root0, [specs[k].name]))
            && Lookup(after, ArchivePath(stamp) + [ManifestName]) == Some(File(data))
  {
    var ap := ArchivePath(stamp);
    var after := Put(before, ap + [ManifestName], File(data));
    assert Parent(ap + [ManifestName]) == ap;
    LookupPutSame(before, ap + [ManifestName], File(data));
    forall a | a != ArchiveDir
      ensures Child(after, a) == Child(root0, a)
    {
      PutOutside(before, ap + [ManifestName], File(data), a);
    }
    forall k | 0 <= k < |specs| && specs[k].name != ManifestName
      ensures Lookup(after, ap + [specs[k].name]) == Lookup(before, ap + [specs[k].name])
    {
      SiblingsDisjoint(ap, ManifestName, specs[k].name);
      LookupPutDisjoint(before, ap + [ManifestName], ap + [specs[k].name], File(data));
    }
  }

  // ---------------------------------------------------------------------------
  // Validation

  /** Whether a spec folder has no copy in the archive at `ap`. */
  function MissingFrom(root: Node, ap: Path): SpecMetadata -> bool {
    (s: SpecMetadata) => !Exists(root, ap + [s.name])
  }

  /**
   * `validateArchive`: false when the archive is missing, and otherwise
   * whether every spec folder has a copy there. `missing` lists the names
   * reported as missing, in order.
   */
  method ValidateArchive(fs: FileSystem, ap: Path, specs: seq<SpecMetadata>) returns (allPresent: bool, missing: seq<string>)
    ensures allPresent <==> Exists(fs.root, ap) && forall k :: 0 <= k < |specs| ==> Exists(fs.root, ap + [specs[k].name])
    ensures missing == if Exists(fs.root, ap) then Types.Names(Filter(specs, MissingFrom(fs.root, ap))) else []
    ensures allPresent <==> Exists(fs.root, ap) && missing == []
  {
    var root := fs.root;
    if !Exists(root, ap) {
      return false, [];
    }
    allPresent, missing := CheckFolders(fs, ap, specs);
    MissingNamesAre(root, ap, specs);
    NoneMissing(root, ap, specs);
  }

  /** The names the loop of `validateArchive` reports for `specs`, in order. */
  function MissingNames(root: Node, ap: Path, specs: seq<SpecMetadata>): seq<string> {
    if specs == [] then []
    else
      var last := specs[|specs| - 1];
      MissingNames(root, ap, specs[..|specs| - 1]) + (if Exists(root, ap + [last.name]) then [] else [last.name])
  }

  /** The loop of `validateArchive`: every spec is checked, and each missing name is reported. */
  method CheckFolders(fs: FileSystem, ap: Path, specs: seq<SpecMetadata>) returns (allPresent: bool, missing: seq<string>)
    ensures missing == MissingNames(fs.root, ap, specs)
    ensures allPresent <==> missing == []
  {
    var root := fs.root;
    allPresent := true;
    missing := [];
    var i := 0;
    while i < |specs|
      invariant 0 <= i <= |specs|
      invariant missing == MissingNames(root, ap, specs[..i])
      invariant allPresent <==> missing == []
    {
      assert specs[..i + 1][..i] == specs[..i];
      if !Exists(root, ap + [specs[i].name]) {
        missing := missing + [specs[i].name];
        allPresent := false;
      }
      i := i + 1;
    }
    assert specs[..|specs|] == specs;
  }

  /** The reported names are those of the folders without a copy, in order. */
  lemma {:induction false} MissingNamesAre(root: Node, ap: Path, specs: seq<SpecMetadata>)
    ensures MissingNames(root, ap, specs) == Types.Names(Filter(specs, MissingFrom(root, ap)))
  {
    if specs != [] {
      var n := |specs| - 1;
      MissingNamesAre(root, ap, specs[..n]);
      MissingStep(root, ap, specs, n);
      assert specs[..n + 1] == specs;
    }
  }

  lemma MissingStep(root: Node, ap: Path, specs: seq<SpecMetadata>, i: nat)
    requires i < |specs|
    ensures Types.Names(Filter(specs[..i + 1], MissingFrom(root, ap)))
            == Types.Names(Filter(specs[..i], MissingFrom(root, ap))) + (if Exists(root, ap + [specs[i].name]) then [] else [specs[i].name])
  {
    FilterStep(specs, i, MissingFrom(root, ap));
    if !Exists(root, ap + [specs[i].name]) {
      assert MissingFrom(root, ap)(specs[i]);
      SpecNamesSnoc(Filter(specs[..i], MissingFrom(root, ap)), specs[i]);
    } else {
      assert !MissingFrom(root, ap)(specs[i]);
    }
  }

  /** No folder is missing exactly when every one has a copy. */
  lemma NoneMissing(root: Node, ap: Path, specs: seq<SpecMetadata>)
    ensures Filter(specs, MissingFrom(root, ap)) == [] <==> forall k :: 0 <= k < |specs| ==> Exists(root, ap + [specs[k].name])
  {
    if forall k :: 0 <= k < |specs| ==> Exists(root, ap + [specs[k].name]) {
      FilterNone(specs, MissingFrom(root, ap));
    } else {
      var k :| 0 <= k < |specs| && !Exists(root, ap + [specs[k].name]);
      assert MissingFrom(root, ap)(specs[k]);
      assert specs[k] in Filter(specs, MissingFrom(root, ap));
    }
  }

  // ---------------------------------------------------------------------------
  // Cleanup

  /**
   * `removeDirectory`: `rmSync` when something is there. On an error the
   * object is still there, `left` being what the removal did not get to, and
   * `reason` is the text of the error.
   */
  method RemoveDirectory(fs: FileSystem, p: Path) returns (ok: bool, reason: string, ghost left: Node)
    requires fs.Valid() && |p| >= 1 && ValidPath(p)
    modifies fs
    ensures fs.Valid()
    ensures ok ==> fs.root == Remove(old(fs.root), p) && Lookup(fs.root, p).None?
    ensures !ok ==> fs.root == Put(old(fs.root), p, left) && Lookup(fs.root, p) == Some(left)
  {
    if Exists(fs.root, p) {
      ok, left, reason := fs.RemoveTree(p);
    } else {
      ok, reason, left := true, "", Dir([]);
      RemoveAbsent(fs.root, p);
    }
    if ok {
      LookupRemove(old(fs.root), p, p);
    }
  }

  /**
   * `cleanupSpecFolders`: removes every spec folder; each failure is
   * recorded as `Failed to remove <name>: <error>` and the loop goes on.
   * `failed` lists the positions of the failed folders, which are exactly
   * the folders still there afterwards.
   */
  method CleanupSpecFolders(fs: FileSystem, specs: seq<SpecMetadata>) returns (removed: nat, errors: seq<string>, ghost failed: seq<nat>)
    requires fs.Valid() && ArchivableNames(specs)
    modifies fs
    ensures fs.Valid()
    ensures removed + |errors| == |specs| && |failed| == |errors|
    ensures forall j :: 0 <= j < |failed| ==> failed[j] < |specs|
    ensures Ascending(failed)
    ensures forall j :: 0 <= j < |errors| ==> StartsWith(errors[j], "Failed to remove " + specs[failed[j]].name + ": ")
    ensures forall k :: 0 <= k < |specs| ==> (Child(fs.root, specs[k].name).Some? <==> k in failed)
    ensures forall a :: a !in Types.Names(specs) ==> Child(fs.root, a) == old(Child(fs.root, a))
  {
    ghost var root0 := fs.root;
    removed, errors, failed := 0, [], [];
    var i: nat := 0;
    while i < |specs|
      invariant i <= |specs|
      invariant fs.Valid()
      invariant removed + |errors| == i
      invariant Cleaned(root0, fs.root, specs, i, failed)
      invariant Reported(specs, failed, errors)
    {
      var name := specs[i].name;
      ghost var before := fs.root;
      var ok, reason, left := RemoveDirectory(fs, [name]);
      CleanupStep(root0, before, fs.root, specs, i, failed, ok, left);
      if ok {
        removed := removed + 1;
      } else {
        var message := "Failed to remove " + name + ": " + reason;
        ReportedSnoc(specs, failed, errors, i, reason);
        errors := errors + [message];
        failed := failed + [i];
      }
      i := i + 1;
    }
    CleanedAll(root0, fs.root, specs, failed);
  }

  /** After the last removal, every folder has been tried and only spec folders changed. */
  lemma CleanedAll(root0: Node, root: Node, specs: seq<SpecMetadata>, failed: seq<nat>)
    requires Cleaned(root0, root, specs, |specs|, failed)
    ensures forall j :: 0 <= j < |failed| ==> failed[j] < |specs|
    ensures Ascending(failed)
    ensures forall k :: 0 <= k < |specs| ==> (Child(root, specs[k].name).Some? <==> k in failed)
    ensures forall a :: a !in Types.Names(specs) ==> Child(root, a) == Child(root0, a)
  {
    assert Types.Names(specs)[..|specs|] == Types.Names(specs);
  }

  /** Each position is below the next one. */
  ghost predicate Ascending(s: seq<nat>) {
    |s| < 2 || (s[|s| - 2] < s[|s| - 1] && Ascending(s[..|s| - 1]))
  }

  /** An ascending sequence lists its positions in strictly increasing order. */
  lemma {:induction false} AscendingIncreasing(s: seq<nat>)
    requires Ascending(s)
    ensures forall j, j' :: 0 <= j < j' < |s| ==> s[j] < s[j']
  {
    if |s| >= 2 {
      var init := s[..|s| - 1];
      AscendingIncreasing(init);
      forall j, j' | 0 <= j < j' < |s|
        ensures s[j] < s[j']
      {
        if j' < |s| - 1 {
          assert s[j] == init[j] && s[j'] == init[j'];
        } else if j < |s| - 2 {
          assert init[j] < init[|s| - 2];
        }
      }
    }
  }

  /** `errors[j]` is the message of the failed removal of folder `failed[j]`. */
  predicate Reported(specs: seq<SpecMetadata>, failed: seq<nat>, errors: seq<string>) {
    && |failed| == |errors|
    && forall j :: 0 <= j < |errors| ==>
         failed[j] < |specs| && StartsWith(errors[j], "Failed to remove " + specs[failed[j]].name + ": ")
  }

  lemma ReportedSnoc(specs: seq<SpecMetadata>, failed: seq<nat>, errors: seq<string>, i: nat, reason: string)
    requires Reported(specs, failed, errors) && i < |specs|
    ensures Reported(specs, failed + [i], errors + ["Failed to remove " + specs[i].name + ": " + reason])
  {
    var prefix := "Failed to remove " + specs[i].name + ": ";
    assert (prefix + reason)[..|prefix|] == prefix;
  }

  /**
   * What holds after the first `i` removals: `failed` lists, in increasing
   * order, the positions among them whose folder is still there, and no
   * other top-level name changed.
   */
  ghost predicate Cleaned(root0: Node, root: Node, specs: seq<SpecMetadata>, i: nat, failed: seq<nat>)
    requires i <= |specs|
  {
    && (forall j :: 0 <= j < |failed| ==> failed[j] < i)
    && Ascending(failed)
    && (forall k :: 0 <= k < i ==> (Child(root, specs[k].name).Some? <==> k in failed))
    && (forall a :: a !in Types.Names(specs)[..i] ==> Child(root, a) == Child(root0, a))
  }

  /** The removal of folder `i` touches no other top-level name, so what held of the earlier folders still holds. */
  lemma CleanupStep(root0: Node, before: Node, after: Node, specs: seq<SpecMetadata>, i: nat, failed: seq<nat>, ok: bool, left: Node)
    requires i < |specs| && ArchivableNames(specs) && Cleaned(root0, before, specs, i, failed)
    requires ok ==> after == Remove(before, [specs[i].name])
    requires !ok ==> after == Put(before, [specs[i].name], left) && Lookup(after, [specs[i].name]) == Some(left)
    ensures Cleaned(root0, after, specs, i + 1, if ok then failed else failed + [i])
  {
    var n := specs[i].name;
    if ok {
      TopLevelRemove(before, n);
    } else {
      LookupChild(after, n);
      forall a | a != n
        ensures Child(after, a) == Child(before, a)
      {
        PutOutside(before, [n], left, a);
      }
    }
    EarlierNames(specs, i);
    CleanedStep(root0, before, after, specs, i, failed, !ok);
  }

  /** Distinct names: folder `i`'s name is none of the earlier ones. */
  lemma EarlierNames(specs: seq<SpecMetadata>, i: nat)
    requires i < |specs| && ArchivableNames(specs)
    ensures forall k :: 0 <= k < i ==> specs[k].name != specs[i].name
    ensures Types.Names(specs)[..i + 1] == Types.Names(specs)[..i] + [specs[i].name]
  {
    forall k | 0 <= k < i
      ensures specs[k].name != specs[i].name
    {
      assert Types.Names(specs)[k] != Types.Names(specs)[i];
    }
    PrefixSnoc(Types.Names(specs), i);
  }

  /** `Cleaned` for one more folder, from how the step changed the top-level names. */
  lemma CleanedStep(root0: Node, before: Node, after: Node, specs: seq<SpecMetadata>, i: nat, failed: seq<nat>, stays: bool)
    requires i < |specs| && Cleaned(root0, before, specs, i, failed)
    requires forall k :: 0 <= k < i ==> specs[k].name != specs[i].name
    requires Types.Names(specs)[..i + 1] == Types.Names(specs)[..i] + [specs[i].name]
    requires Child(after, specs[i].name).Some? <==> stays
    requires forall a :: a != specs[i].name ==> Child(after, a) == Child(before, a)
    ensures Cleaned(root0, after, specs, i + 1, if stays then failed + [i] else failed)
  {
    PresentStep(before, after, specs, i, failed, stays);
    OthersStep(root0, before, after, Types.Names(specs), i);
  }

  /** The folders still present after one more removal are the failed ones. */
  lemma PresentStep(before: Node, after: Node, specs: seq<SpecMetadata>, i: nat, failed: seq<nat>, stays: bool)
    requires i < |specs|
    requires forall j :: 0 <= j < |failed| ==> failed[j] < i
    requires Ascending(failed)
    requires forall k :: 0 <= k < i ==> (Child(before, specs[k].name).Some? <==> k in failed)
    requires forall k :: 0 <= k < i ==> specs[k].name != specs[i].name
    requires Child(after, specs[i].name).Some? <==> stays
    requires forall a :: a != specs[i].name ==> Child(after, a) == Child(before, a)
    ensures var failed' := if stays then failed + [i] else failed;
      && (forall j :: 0 <= j < |failed'| ==> failed'[j] < i + 1)
      && Ascending(failed')
      && (forall k :: 0 <= k < i + 1 ==> (Child(after, specs[k].name).Some? <==> k in failed'))
  {
    var failed' := if stays then failed + [i] else failed;
    if stays {
      assert failed'[..|failed|] == failed;
    }
    forall k | 0 <= k < i + 1
      ensures Child(after, specs[k].name).Some? <==> k in failed'
    {
      if k < i {
        assert k in failed' <==> k in failed;
        assert Child(after, specs[k].name) == Child(before, specs[k].name);
      } else {
        assert i !in failed;
      }
    }
  }

  /** A name outside the first `i + 1` spec names is still as it was. */
  lemma OthersStep(root0: Node, before: Node, after: Node, names: seq<string>, i: nat)
    requires i < |names|
    requires names[..i + 1] == names[..i] + [names[i]]
    requires forall a :: a !in names[..i] ==> Child(before, a) == Child(root0, a)
    requires forall a :: a != names[i] ==> Child(after, a) == Child(before, a)
    ensures forall a :: a !in names[..i + 1] ==> Child(after, a) == Child(root0, a)
  {
    forall a | a !in names[..i + 1]
      ensures Child(after, a) == Child(root0, a)
    {
      assert a != names[i] && a !in names[..i];
    }
  }

  // ---------------------------------------------------------------------------
  // Rollback

  /** The archive at `ap` holds a directory named `a`. */
  ghost predicate ArchivedFolder(root: Node, ap: Path, a: string) {
    Lookup(root, ap + [a]).Some? && IsDirectory(Lookup(root, ap + [a]).value)
  }

  /**
   * `rollbackCleanup`: every directory in the archive `.archive/<stamp>`
   * whose name is free in the specs directory is copied back there; names
   * that are taken are skipped. A missing or unreadable archive, or an error
   * while copying, gives false.
   */
  method RollbackCleanup(fs: FileSystem, stamp: string) returns (ok: bool)
    requires fs.Valid() && stamp != ""
    modifies fs
    ensures fs.Valid()
    ensures ok ==> old(IsDirAt(fs.root, ArchivePath(stamp)))
    ensures old(!IsDirAt(fs.root, ArchivePath(stamp))) ==> fs.root == old(fs.root)
    ensures Lookup(fs.root, ArchivePath(stamp)) == old(Lookup(fs.root, ArchivePath(stamp)))
    ensures forall a :: old(Child(fs.root, a)).Some? ==> Child(fs.root, a) == old(Child(fs.root, a))
    ensures forall a :: Child(fs.root, a) != old(Child(fs.root, a)) ==> old(ArchivedFolder(fs.root, ArchivePath(stamp), a))
    ensures ok ==> forall a :: old(Child(fs.root, a)).None? && old(ArchivedFolder(fs.root, ArchivePath(stamp), a)) ==>
                     Child(fs.root, a) == old(Lookup(fs.root, ArchivePath(stamp) + [a]))
  {
    var ap := ArchivePath(stamp);
    ghost var root0 := fs.root;
    if !Exists(fs.root, ap) {
      return false;
    }
    var listing := fs.ReadDir(ap);
    if listing.None? {
      return false;
    }
    var entries := listing.value;
    LookupWellFormed(fs.root, ap);
    var i := 0;
    while i < |entries|
      invariant 0 <= i <= |entries|
      invariant fs.Valid()
      invariant RolledBack(root0, fs.root, ap, entries, i)
    {
      var entry := entries[i];
      if IsDirectory(entry.node) && !Exists(fs.root, [entry.name]) {
        ghost var before := fs.root;
        RestoreFacts(root0, fs.root, stamp, entries, i);
        ghost var copied;
        ok, copied := CopyDirectory(fs, ap + [entry.name], [entry.name], entry.node);
        RestoreStep(root0, before, fs.root, stamp, entries, i, copied, ok);
        if !ok {
          ChangedArchived(root0, fs.root, ap, entries);
          return;
        }
      } else {
        SkipStep(root0, fs.root, ap, entries, i);
      }
      i := i + 1;
    }
    RollbackDone(root0, fs.root, ap, entries);
    ok := true;
  }

  /**
   * What holds after the first `i` archive entries: the archive is as it
   * was, existing top-level names are untouched, a changed name belongs to an
   * archived directory already visited, and each visited directory whose
   * name was free has been copied back exactly.
   */
  ghost predicate RolledBack(root0: Node, root: Node, ap: Path, es: seq<Entry>, i: nat)
    requires i <= |es|
  {
    && UniqueNames(es)
    && Lookup(root0, ap) == Some(Dir(es))
    && Lookup(root, ap) == Some(Dir(es))
    && (forall a :: Child(root0, a).Some? ==> Child(root, a) == Child(root0, a))
    && (forall a :: Child(root, a) != Child(root0, a) ==> Find(es, a) < i && IsDirectory(es[Find(es, a)].node))
    && (forall j :: 0 <= j < i && IsDirectory(es[j].node) && Child(root0, es[j].name).None? ==>
          Child(root, es[j].name) == Some(es[j].node))
  }

  /** What the copy of archive entry `i` back into the specs directory needs. */
  lemma RestoreFacts(root0: Node, root: Node, stamp: string, es: seq<Entry>, i: nat)
    requires i < |es| && RolledBack(root0, root, ArchivePath(stamp), es, i)
    requires root.Dir? && !Exists(root, [es[i].name])
    ensures var n := es[i].name;
            && n != "" && n != ArchiveDir && Child(root0, n).None?
            && Disjoint(ArchivePath(stamp) + [n], [n]) && IsDirAt(root, Parent([n]))
            && Lookup(root, ArchivePath(stamp) + [n]) == Some(es[i].node)
  {
    var n := es[i].name;
    var ap := ArchivePath(stamp);
    LookupChild(root, n);
    assert Child(root, ArchiveDir).Some?;
    assert (ap + [n])[..1] == [ArchiveDir];
    LookupAppend(root, ap, [n]);
    LookupChild(Dir(es), n);
    FindUnique(es, i);
  }

  /** The copy of archive entry `i`, complete or not, keeps what the rollback promises. */
  lemma RestoreStep(root0: Node, before: Node, after: Node, stamp: string, es: seq<Entry>, i: nat, x: Node, ok: bool)
    requires i < |es| && RolledBack(root0, before, ArchivePath(stamp), es, i)
    requires var n := es[i].name; n != ArchiveDir && Child(root0, n).None? && Child(before, n).None?
    requires IsDirectory(es[i].node)
    requires after == before || after == Put(before, [es[i].name], x)
    requires ok ==> after == Put(before, [es[i].name], x) && x == es[i].node
    ensures ok ==> RolledBack(root0, after, ArchivePath(stamp), es, i + 1)
    ensures Lookup(after, ArchivePath(stamp)) == Some(Dir(es))
    ensures forall a :: Child(root0, a).Some? ==> Child(after, a) == Child(root0, a)
    ensures forall a :: Child(after, a) != Child(root0, a) ==> Find(es, a) < |es| && IsDirectory(es[Find(es, a)].node)
  {
    var n := es[i].name;
    var ap := ArchivePath(stamp);
    FindUnique(es, i);
    if after != before {
      assert Disjoint([n], ap);
      LookupPutDisjoint(before, [n], ap, x);
      forall a | a != n
        ensures Child(after, a) == Child(before, a)
      {
        PutOutside(before, [n], x, a);
      }
      LookupPutSame(before, [n], x);
      LookupChild(after, n);
    }
    RestoredFrame(root0, before, after, ap, es, i);
    if ok {
      RestoredOne(root0, before, after, ap, es, i);
    }
  }

  /** Writing only the name of entry `i` keeps the archive, the existing names and the bound on changed names. */
  lemma RestoredFrame(root0: Node, before: Node, after: Node, ap: Path, es: seq<Entry>, i: nat)
    requires i < |es| && RolledBack(root0, before, ap, es, i)
    requires Find(es, es[i].name) == i && IsDirectory(es[i].node) && Child(root0, es[i].name).None?
    requires Lookup(after, ap) == Lookup(before, ap)
    requires forall a :: a != es[i].name ==> Child(after, a) == Child(before, a)
    ensures Lookup(after, ap) == Some(Dir(es))
    ensures forall a :: Child(root0, a).Some? ==> Child(after, a) == Child(root0, a)
    ensures forall a :: Child(after, a) != Child(root0, a) ==> Find(es, a) < i + 1 && IsDirectory(es[Find(es, a)].node)
  {
  }

  /** A complete copy of entry `i` extends the rollback by one entry. */
  lemma RestoredOne(root0: Node, before: Node, after: Node, ap: Path, es: seq<Entry>, i: nat)
    requires i < |es| && UniqueNames(es) && Lookup(root0, ap) == Some(Dir(es))
    requires forall j :: 0 <= j < i && IsDirectory(es[j].node) && Child(root0, es[j].name).None? ==>
               Child(before, es[j].name) == Some(es[j].node)
    requires Find(es, es[i].name) == i && IsDirectory(es[i].node) && Child(root0, es[i].name).None?
    requires Lookup(after, ap) == Some(Dir(es))
    requires forall a :: Child(root0, a).Some? ==> Child(after, a) == Child(root0, a)
    requires forall a :: Child(after, a) != Child(root0, a) ==> Find(es, a) < i + 1 && IsDirectory(es[Find(es, a)].node)
    requires forall a :: a != es[i].name ==> Child(after, a) == Child(before, a)
    requires Child(after, es[i].name) == Some(es[i].node)
    ensures RolledBack(root0, after, ap, es, i + 1)
  {
    forall j | 0 <= j < i + 1 && IsDirectory(es[j].node) && Child(root0, es[j].name).None?
      ensures Child(after, es[j].name) == Some(es[j].node)
    {
      if j < i {
        FindUnique(es, j);
        assert Child(after, es[j].name) == Child(before, es[j].name);
      }
    }
  }

  /** An entry that is not a directory, or whose name is taken, is skipped. */
  lemma SkipStep(root0: Node, root: Node, ap: Path, es: seq<Entry>, i: nat)
    requires i < |es| && RolledBack(root0, root, ap, es, i)
    requires !(IsDirectory(es[i].node) && !Exists(root, [es[i].name]))
    ensures RolledBack(root0, root, ap, es, i + 1)
  {
    FindUnique(es, i);
    LookupChild(root, es[i].name);
  }

  /** A changed name is that of an archived directory. */
  lemma ChangedArchived(root0: Node, root: Node, ap: Path, es: seq<Entry>)
    requires Lookup(root0, ap) == Some(Dir(es))
    requires forall a :: Child(root, a) != Child(root0, a) ==> Find(es, a) < |es| && IsDirectory(es[Find(es, a)].node)
    ensures forall a :: Child(root, a) != Child(root0, a) ==> ArchivedFolder(root0, ap, a)
  {
    forall a
      ensures Lookup(root0, ap + [a]) == Child(Dir(es), a)
    {
      LookupAppend(root0, ap, [a]);
      LookupChild(Dir(es), a);
    }
  }

  /** After the last entry, the promises by position become promises by name. */
  lemma RollbackDone(root0: Node, root: Node, ap: Path, es: seq<Entry>)
    requires RolledBack(root0, root, ap, es, |es|)
    ensures forall a :: Child(root, a) != Child(root0, a) ==> ArchivedFolder(root0, ap, a)
    ensures forall a :: Child(root0, a).None? && ArchivedFolder(root0, ap, a) ==> Child(root, a) == Lookup(root0, ap + [a])
  {
    ChangedArchived(root0, root, ap, es);
    forall a
      ensures Lookup(root0, ap + [a]) == Child(Dir(es), a)
    {
      LookupAppend(root0, ap, [a]);
      LookupChild(Dir(es), a);
    }
  }
}
