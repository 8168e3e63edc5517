/**
 * The synchronous `fs` calls the generator makes, on a file system held as a
 * `Tree.Node`. Reads are functions of the current tree. Each call that writes
 * can also fail for reasons outside the program (permissions, a full disk, a
 * concurrent writer); such a fault is a free choice of the model (`ok := *`),
 * and on a fault the tree is left as the real call would leave it.
 */
module Fs {
  import opened Types
  import opened Tree

  /** Paths the program builds: non-empty entry names joined under the specs directory. */
  predicate ValidPath(p: Path) {
    forall i :: 0 <= i < |p| ==> p[i] != ""
  }

  /** The text of the regular file at `p` in `root`, or nothing when reading it throws. */
  function FileAt(root: Node, p: Path): Option<string> {
    match Lookup(root, p)
    case Some(File(d)) => Some(d)
    case _ => None
  }

  class FileSystem {
    /** The specs directory. */
    var root: Node

    ghost predicate Valid()
      reads this
    {
      root.Dir? && WellFormed(root)
    }

    constructor (specs: Node)
      requires specs.Dir? && WellFormed(specs)
      ensures Valid() && root == specs
    {
      root := specs;
    }

    /** `readFileSync(p, 'utf-8')`: the text of a readable regular file; anything else throws. */
    function ReadFile(p: Path): (r: Option<string>)
      reads this
      ensures r.Some? <==> Lookup(root, p).Some? && Lookup(root, p).value.File?
    {
      FileAt(root, p)
    }

    /** `readdirSync(p)`: the listing of a readable directory; anything else throws. */
    function ReadDir(p: Path): (r: Option<seq<Entry>>)
      reads this
      ensures r.Some? <==> IsDirAt(root, p)
    {
      match Lookup(root, p)
      case Some(Dir(es)) => Some(es)
      case _ => None
    }

    /**
     * `mkdirSync(p, { recursive: true })`: nothing to do when a directory is
     * already there; fails on any other object in the way or when the parent
     * is not a readable directory.
     */
    method MkDir(p: Path) returns (ok: bool)
      requires Valid() && |p| >= 1 && ValidPath(p)
      modifies this
      ensures Valid()
      ensures old(Lookup(root, p)).Some? ==> root == old(root) && ok == IsDirectory(old(Lookup(root, p)).value)
      ensures old(Lookup(root, p)).None? && ok ==> IsDirAt(old(root), Parent(p)) && root == Put(old(root), p, Dir([]))
      ensures !ok ==> root == old(root)
    {
      var here := Lookup(root, p);
      if here.Some? {
        ok := IsDirectory(here.value);
      } else if IsDirAt(root, Parent(p)) {
        ok := *;
        if ok {
          PutWellFormed(root, p, Dir([]));
          root := Put(root, p, Dir([]));
        }
      } else {
        ok := false;
      }
    }

    /**
     * `copyFileSync(src, dest)`: copies a readable regular file over whatever
     * regular file is at `dest`; a directory or an unwritable object at `dest`,
     * or a parent that is not a directory, makes it throw.
     */
    method CopyFile(src: Path, dest: Path) returns (ok: bool)
      requires Valid() && |dest| >= 1 && ValidPath(dest)
      modifies this
      ensures Valid()
      ensures ok ==> old(ReadFile(src)).Some? && IsDirAt(old(root), Parent(dest))
      ensures ok ==> root == Put(old(root), dest, File(old(ReadFile(src)).value))
      ensures !ok ==> root == old(root)
    {
      var data := ReadFile(src);
      var target := Lookup(root, dest);
      if data.Some? && IsDirAt(root, Parent(dest)) && (target.None? || target.value.File?) {
        ok := *;
        if ok {
          PutWellFormed(root, dest, File(data.value));
          root := Put(root, dest, File(data.value));
        }
      } else {
        ok := false;
      }
    }

    /**
     * `rmSync(p, { recursive: true, force: true })`: a missing object is no
     * error. A removal that fails part-way leaves something at `p`: whatever
     * part of the tree it had not yet deleted, and `reason` is the text of the error.
     */
    method RemoveTree(p: Path) returns (ok: bool, left: Node, reason: string)
      requires Valid() && |p| >= 1 && ValidPath(p)
      modifies this
      ensures Valid()
      ensures old(Lookup(root, p)).None? ==> ok && root == old(root)
      ensures ok ==> root == Remove(old(root), p)
      ensures !ok ==> root == Put(old(root), p, left) && Lookup(root, p) == Some(left)
    {
      if Lookup(root, p).None? {
        ok, left, reason := true, Dir([]), "";
        RemoveAbsent(root, p);
        return;
      }
      ok := *;
      if ok {
        RemoveWellFormed(root, p);
        root := Remove(root, p);
        left, reason := Dir([]), "";
      } else {
        left, reason := *, *;
        if !WellFormed(left) {
          left := Dir([]);
        }
        LookupParent(root, p);
        LookupPutSame(root, p, left);
        PutWellFormed(root, p, left);
        root := Put(root, p, left);
      }
    }

    /** `writeFileSync(p, data)`: creates or overwrites a regular file. */
    method WriteFile(p: Path, data: string) returns (ok: bool)
      requires Valid() && |p| >= 1 && ValidPath(p)
      modifies this
      ensures Valid()
      ensures ok ==> IsDirAt(old(root), Parent(p)) && root == Put(old(root), p, File(data))
      ensures ok ==> old(Lookup(root, p)).None? || old(Lookup(root, p)).value.File?
      ensures !ok ==> root == old(root)
    {
      var target := Lookup(root, p);
      if IsDirAt(root, Parent(p)) && (target.None? || target.value.File?) {
        ok := *;
        if ok {
          PutWellFormed(root, p, File(data));
          root := Put(root, p, File(data));
        }
      } else {
        ok := false;
      }
    }

    /** `renameSync(from, to)` for a regular file replacing a regular file in the same directory. */
    method Rename(from: Path, to: Path) returns (ok: bool)
      requires Valid() && |from| >= 1 && |to| >= 1 && ValidPath(to) && Parent(from) == Parent(to) && from != to
      modifies this
      ensures Valid()
      ensures ok ==> ReadFile(from) == None
      ensures ok ==> old(ReadFile(from)).Some? && root == Put(Remove(old(root), from), to, File(old(ReadFile(from)).value))
      ensures ok ==> old(Lookup(root, to)).None? || old(Lookup(root, to)).value.File?
      ensures !ok ==> root == old(root)
    {
      var data := ReadFile(from);
      var target := Lookup(root, to);
      if data.Some? && (target.None? || target.value.File?) {
        ok := *;
        if ok {
          var r := Remove(root, from);
          RemoveWellFormed(root, from);
          PutWellFormed(r, to, File(data.value));
          root := Put(r, to, File(data.value));
          NamesDiffer(from, to);
          LookupPutDisjoint(r, to, from, File(data.value));
          LookupRemove(old(root), from, from);
        }
      } else {
        ok := false;
      }
    }
  }

  /** Two different paths with the same parent name different entries of it. */
  lemma NamesDiffer(p: Path, q: Path)
    requires |p| >= 1 && |q| >= 1 && Parent(p) == Parent(q) && p != q
    ensures Disjoint(q, p)
  {
    assert |p| == |q|;
  }

  lemma {:induction false} RemoveAbsent(n: Node, p: Path)
    requires Lookup(n, p).None?
    ensures Remove(n, p) == n
    decreases |p|
  {
    if n.Dir? {
      if |p| == 1 {
        RemoveEntryAbsent(n.entries, p[0]);
      } else if Child(n, p[0]).Some? {
        var c := Child(n, p[0]).value;
        RemoveAbsent(c, p[1..]);
        PutLookup(n, [p[0]]);
      }
    }
  }

  lemma {:induction false} RemoveEntryAbsent(es: seq<Entry>, name: string)
    requires Find(es, name) == |es|
    ensures RemoveEntry(es, name) == es
  {
    if es != [] {
      RemoveEntryAbsent(es[1..], name);
    }
  }
}
