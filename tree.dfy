/**
 * The part of the file system the generator touches, as a value: the specs
 * directory is a tree whose directories list their entries in the order
 * `readdirSync` returns them. A `Denied` node stands for an object that exists
 * (so `existsSync` and `Dirent.isDirectory()` see it) but cannot be read or
 * listed. Paths are sequences of entry names, relative to the specs directory.
 */
module Tree {
  import opened Types

  type Path = seq<string>

  datatype Node = File(data: string) | Dir(entries: seq<Entry>) | Denied(isDir: bool)
  datatype Entry = Entry(name: string, node: Node)

  /** What `Dirent.isDirectory()` and `statSync().isDirectory()` say of the node. */
  predicate IsDirectory(n: Node) {
    n.Dir? || n == Denied(true)
  }

  /** What `statSync().isFile()` says of the node. */
  predicate IsRegularFile(n: Node) {
    n.File? || n == Denied(false)
  }

  predicate UniqueNames(es: seq<Entry>) {
    && (forall i :: 0 <= i < |es| ==> es[i].name != "")
    && (forall i, j :: 0 <= i < j < |es| ==> es[i].name != es[j].name)
  }

  /** A directory never lists the same name twice, nor an empty name. */
  predicate WellFormed(n: Node)
    decreases n
  {
    match n
    case Dir(es) => UniqueNames(es) && forall i :: 0 <= i < |es| ==> WellFormed(es[i].node)
    case _ => true
  }

  function Names(es: seq<Entry>): (r: seq<string>)
    ensures |r| == |es|
    ensures forall i :: 0 <= i < |es| ==> r[i] == es[i].name
  {
    if es == [] then [] else [es[0].name] + Names(es[1..])
  }

  /** The first position that lists `name`, or `|es|`. */
  function Find(es: seq<Entry>, name: string): (r: nat)
    ensures r <= |es|
    ensures r < |es| ==> es[r].name == name
    ensures forall j :: 0 <= j < r ==> es[j].name != name
  {
    if es == [] then 0 else if es[0].name == name then 0 else 1 + Find(es[1..], name)
  }

  lemma FindUnique(es: seq<Entry>, i: nat)
    requires UniqueNames(es) && i < |es|
    ensures Find(es, es[i].name) == i
  {
  }

  function Child(n: Node, name: string): Option<Node> {
    if n.Dir? && Find(n.entries, name) < |n.entries| then Some(n.entries[Find(n.entries, name)].node) else None
  }

  function Lookup(n: Node, p: Path): Option<Node>
    decreases |p|
  {
    if p == [] then Some(n)
    else match Child(n, p[0])
      case None => None
      case Some(c) => Lookup(c, p[1..])
  }

  predicate Exists(n: Node, p: Path) {
    Lookup(n, p).Some?
  }

  predicate IsDirAt(n: Node, p: Path) {
    Lookup(n, p).Some? && Lookup(n, p).value.Dir?
  }

  function Parent(p: Path): Path
    requires |p| >= 1
  {
    p[..|p| - 1]
  }

  predicate IsPrefix(p: Path, q: Path) {
    |p| <= |q| && q[..|p|] == p
  }

  /** Neither path lies inside the other. */
  predicate Disjoint(p: Path, q: Path) {
    !IsPrefix(p, q) && !IsPrefix(q, p)
  }

  /** Set the entry `name` to `x`: in place when it is listed, at the end of the listing otherwise. */
  function SetEntry(es: seq<Entry>, name: string, x: Node): seq<Entry> {
    var j := Find(es, name);
    if j < |es| then es[j := Entry(name, x)] else es + [Entry(name, x)]
  }

  /** Every entry except those named `name`. */
  function RemoveEntry(es: seq<Entry>, name: string): (r: seq<Entry>)
    ensures forall i :: 0 <= i < |r| ==> r[i] in es && r[i].name != name
  {
    if es == [] then []
    else if es[0].name == name then RemoveEntry(es[1..], name)
    else [es[0]] + RemoveEntry(es[1..], name)
  }

  /** The tree with the object at `p` replaced or created; unchanged when the parent of `p` is not a directory. */
  function Put(n: Node, p: Path, x: Node): Node
    decreases |p|
  {
    if p == [] then x
    else if !n.Dir? then n
    else if |p| == 1 then Dir(SetEntry(n.entries, p[0], x))
    else match Child(n, p[0])
      case None => n
      case Some(c) => Dir(SetEntry(n.entries, p[0], Put(c, p[1..], x)))
  }

  /** The tree without the object at `p` (a non-empty path). */
  function Remove(n: Node, p: Path): Node
    decreases |p|
  {
    if p == [] || !n.Dir? then n
    else if |p| == 1 then Dir(RemoveEntry(n.entries, p[0]))
    else match Child(n, p[0])
      case None => n
      case Some(c) => Dir(SetEntry(n.entries, p[0], Remove(c, p[1..])))
  }

  // ---------------------------------------------------------------------------
  // Laws of the tree operations

  lemma {:induction false} FindSnoc(es: seq<Entry>, e: Entry, name: string)
    ensures Find(es + [e], name) == if Find(es, name) < |es| then Find(es, name) else if e.name == name then |es| else |es| + 1
  {
    if es != [] && es[0].name != name {
      assert (es + [e])[1..] == es[1..] + [e];
      FindSnoc(es[1..], e, name);
    }
  }

  lemma {:induction false} FindSameNames(es: seq<Entry>, fs: seq<Entry>, name: string)
    requires |es| == |fs| && forall i :: 0 <= i < |es| ==> es[i].name == fs[i].name
    ensures Find(es, name) == Find(fs, name)
  {
    if es != [] && es[0].name != name {
      FindSameNames(es[1..], fs[1..], name);
    }
  }

  lemma ChildSetEntry(es: seq<Entry>, name: string, x: Node, other: string)
    ensures Child(Dir(SetEntry(es, name, x)), name) == Some(x)
    ensures other != name ==> Child(Dir(SetEntry(es, name, x)), other) == Child(Dir(es), other)
  {
    var j := Find(es, name);
    if j == |es| {
      FindSnoc(es, Entry(name, x), name);
      FindSnoc(es, Entry(name, x), other);
    } else {
      FindSameNames(es, es[j := Entry(name, x)], name);
      FindSameNames(es, es[j := Entry(name, x)], other);
    }
  }

  lemma {:induction false} RemoveEntryFind(es: seq<Entry>, name: string, other: string)
    requires other != name
    ensures var r := RemoveEntry(es, name);
      Find(r, other) < |r| <==> Find(es, other) < |es|
    ensures var r := RemoveEntry(es, name);
      Find(es, other) < |es| ==> r[Find(r, other)] == es[Find(es, other)]
  {
    if es != [] {
      RemoveEntryFind(es[1..], name, other);
    }
  }

  lemma ChildRemoveEntry(es: seq<Entry>, name: string, other: string)
    ensures Child(Dir(RemoveEntry(es, name)), name) == None
    ensures other != name ==> Child(Dir(RemoveEntry(es, name)), other) == Child(Dir(es), other)
  {
    if other != name {
      RemoveEntryFind(es, name, other);
    }
  }

  lemma {:induction false} LookupAppend(n: Node, p: Path, q: Path)
    ensures Lookup(n, p + q) == match Lookup(n, p) case None => None case Some(m) => Lookup(m, q)
    decreases |p|
  {
    if p == [] {
      assert p + q == q;
    } else {
      assert (p + q)[0] == p[0] && (p + q)[1..] == p[1..] + q;
      match Child(n, p[0])
      case None =>
      case Some(c) => LookupAppend(c, p[1..], q);
    }
  }

  /** A put is seen by a lookup of the same path when the parent is a directory. */
  lemma {:induction false} LookupPutSame(n: Node, p: Path, x: Node)
    requires p == [] || IsDirAt(n, Parent(p))
    ensures Lookup(Put(n, p, x), p) == Some(x)
    decreases |p|
  {
    if p != [] {
      if |p| == 1 {
        ChildSetEntry(n.entries, p[0], x, p[0]);
      } else {
        var c := Child(n, p[0]).value;
        assert Parent(p)[1..] == Parent(p[1..]);
        LookupPutSame(c, p[1..], x);
        ChildSetEntry(n.entries, p[0], Put(c, p[1..], x), p[0]);
      }
    }
  }

  /** A put does not disturb what lies outside the path. */
  lemma {:induction false} LookupPutDisjoint(n: Node, p: Path, q: Path, x: Node)
    requires Disjoint(p, q)
    ensures Lookup(Put(n, p, x), q) == Lookup(n, q)
    decreases |p|
  {
    assert p != [] && q != [];
    if n.Dir? {
      if p[0] != q[0] {
        if |p| == 1 {
          ChildSetEntry(n.entries, p[0], x, q[0]);
        } else if Child(n, p[0]).Some? {
          ChildSetEntry(n.entries, p[0], Put(Child(n, p[0]).value, p[1..], x), q[0]);
        }
      } else {
        assert |p| > 1 && |q| > 1;
        if Child(n, p[0]).Some? {
          var c := Child(n, p[0]).value;
          DisjointTails(p, q);
          LookupPutDisjoint(c, p[1..], q[1..], x);
          ChildSetEntry(n.entries, p[0], Put(c, p[1..], x), q[0]);
        }
      }
    }
  }

  /** A put inside a node just put is one put of the combined node. */
  lemma {:induction false} PutPut(n: Node, p: Path, q: Path, a: Node, x: Node)
    ensures Put(Put(n, p, a), p + q, x) == Put(n, p, Put(a, q, x))
    decreases |p|
  {
    if p == [] {
      assert p + q == q;
    } else if n.Dir? {
      var pq := p + q;
      assert pq[0] == p[0] && pq[1..] == p[1..] + q;
      var es := n.entries;
      if |p| == 1 {
        ChildSetEntry(es, p[0], a, p[0]);
        SetEntryTwice(es, p[0], a, Put(a, q, x));
        if q == [] {
          assert pq == p;
        }
      } else if Child(n, p[0]).Some? {
        var c := Child(n, p[0]).value;
        PutPut(c, p[1..], q, a, x);
        ChildSetEntry(es, p[0], Put(c, p[1..], a), p[0]);
        SetEntryTwice(es, p[0], Put(c, p[1..], a), Put(c, p[1..], Put(a, q, x)));
      } else {
        assert Child(n, pq[0]).None?;
      }
    }
  }

  lemma SetEntryTwice(es: seq<Entry>, name: string, a: Node, b: Node)
    ensures SetEntry(SetEntry(es, name, a), name, b) == SetEntry(es, name, b)
  {
    var j := Find(es, name);
    if j < |es| {
      FindSameNames(es, es[j := Entry(name, a)], name);
    } else {
      FindSnoc(es, Entry(name, a), name);
    }
  }

  /** Putting back what is already there changes nothing. */
  lemma {:induction false} PutLookup(n: Node, p: Path)
    requires Lookup(n, p).Some?
    ensures Put(n, p, Lookup(n, p).value) == n
    decreases |p|
  {
    if p != [] {
      var c := Child(n, p[0]).value;
      var j := Find(n.entries, p[0]);
      if |p| > 1 {
        PutLookup(c, p[1..]);
      }
      assert n.entries[j := Entry(p[0], c)] == n.entries;
    }
  }

  /** A removal makes the path absent and leaves what lies outside it alone. */
  lemma {:induction false} LookupRemove(n: Node, p: Path, q: Path)
    requires p != []
    ensures Lookup(Remove(n, p), p) == None
    ensures Disjoint(p, q) ==> Lookup(Remove(n, p), q) == Lookup(n, q)
    decreases |p|
  {
    if n.Dir? {
      var es := n.entries;
      if |p| == 1 {
        if q != [] { ChildRemoveEntry(es, p[0], q[0]); } else { ChildRemoveEntry(es, p[0], p[0]); }
      } else if Child(n, p[0]).Some? {
        var c := Child(n, p[0]).value;
        ChildSetEntry(es, p[0], Remove(c, p[1..]), p[0]);
        if Disjoint(p, q) && q[0] == p[0] {
          DisjointTails(p, q);
          LookupRemove(c, p[1..], q[1..]);
        } else {
          LookupRemove(c, p[1..], p[1..]);
        }
        if q != [] && q[0] != p[0] {
          ChildSetEntry(es, p[0], Remove(c, p[1..]), q[0]);
        }
      }
    }
  }

  lemma DisjointExtend(p: Path, q: Path, a: string, b: string)
    requires Disjoint(p, q)
    ensures Disjoint(p + [a], q + [b])
  {
    assert !IsPrefix(p + [a], q + [b]) by {
      if |p + [a]| <= |q + [b]| {
        assert (q + [b])[..|p|] == q[..|p|];
        assert (p + [a])[..|p|] == p;
      }
    }
    assert !IsPrefix(q + [b], p + [a]) by {
      if |q + [b]| <= |p + [a]| {
        assert (p + [a])[..|q|] == p[..|q|];
        assert (q + [b])[..|q|] == q;
      }
    }
  }

  lemma DisjointTails(p: Path, q: Path)
    requires Disjoint(p, q) && |p| > 1 && |q| > 1 && p[0] == q[0]
    ensures Disjoint(p[1..], q[1..])
  {
    assert !IsPrefix(p[1..], q[1..]) by {
      if |p[1..]| <= |q[1..]| {
        assert q[..|p|] == [q[0]] + q[1..][..|p| - 1];
        assert p == [p[0]] + p[1..];
      }
    }
    assert !IsPrefix(q[1..], p[1..]) by {
      if |q[1..]| <= |p[1..]| {
        assert p[..|q|] == [p[0]] + p[1..][..|q| - 1];
        assert q == [q[0]] + q[1..];
      }
    }
  }

  /** A path one name longer than a path disjoint from `p` is disjoint from `p` too. */
  lemma DisjointSnoc(p: Path, q: Path, a: string)
    requires Disjoint(p, q)
    ensures Disjoint(p, q + [a]) && Disjoint(q + [a], p)
  {
    assert (q + [a])[..|q|] == q;
    if |p| <= |q| {
      assert (q + [a])[..|p|] == q[..|p|];
    }
    if |q| + 1 <= |p| {
      assert p[..|q|] == p[..|q| + 1][..|q|];
    }
  }

  /** A top-level lookup is the child of that name. */
  lemma LookupChild(n: Node, a: string)
    ensures Lookup(n, [a]) == Child(n, a)
  {
    assert [a][1..] == [];
  }

  /** With unique names, a name is not listed before its own position. */
  lemma FindBefore(es: seq<Entry>, i: nat)
    requires UniqueNames(es) && i < |es|
    ensures Find(es[..i], es[i].name) == i
  {
    assert forall j :: 0 <= j < i ==> es[..i][j] == es[j];
  }

  /** Writing below a directory leaves it a directory. */
  lemma {:induction false} LookupPutPrefixDir(n: Node, p: Path, q: Path, x: Node)
    requires IsDirAt(n, p) && q != []
    ensures IsDirAt(Put(n, p + q, x), p)
    decreases |p|
  {
    if p == [] {
      assert p + q == q;
    } else {
      var c := Child(n, p[0]).value;
      var pq := p + q;
      assert pq[0] == p[0] && pq[1..] == p[1..] + q;
      LookupPutPrefixDir(c, p[1..], q, x);
      ChildSetEntry(n.entries, p[0], Put(c, p[1..] + q, x), p[0]);
    }
  }

  /** An object that exists has a directory as its parent. */
  lemma {:induction false} LookupParent(n: Node, p: Path)
    requires |p| >= 1 && Lookup(n, p).Some?
    ensures IsDirAt(n, Parent(p))
    decreases |p|
  {
    if |p| > 1 {
      var c := Child(n, p[0]).value;
      assert Parent(p)[1..] == Parent(p[1..]);
      LookupParent(c, p[1..]);
    }
  }

  /** Writing the entry `a` of the directory at `p` sets that entry of its listing. */
  lemma PutChildOf(n: Node, p: Path, es: seq<Entry>, a: string, x: Node)
    requires Lookup(n, p) == Some(Dir(es))
    ensures Lookup(Put(n, p + [a], x), p) == Some(Dir(SetEntry(es, a, x)))
  {
    PutLookup(n, p);
    PutPut(n, p, [a], Dir(es), x);
    if p != [] {
      LookupParent(n, p);
    }
    LookupPutSame(n, p, Dir(SetEntry(es, a, x)));
  }

  // ---------------------------------------------------------------------------
  // Well-formedness is kept

  lemma SetEntryUnique(es: seq<Entry>, name: string, x: Node)
    requires UniqueNames(es) && name != ""
    ensures UniqueNames(SetEntry(es, name, x))
  {
  }

  lemma {:induction false} PutWellFormed(n: Node, p: Path, x: Node)
    requires WellFormed(n) && WellFormed(x)
    requires forall i :: 0 <= i < |p| ==> p[i] != ""
    ensures WellFormed(Put(n, p, x))
    decreases |p|
  {
    if p != [] && n.Dir? {
      var es := n.entries;
      var v := if |p| == 1 then x else if Child(n, p[0]).Some? then Put(Child(n, p[0]).value, p[1..], x) else x;
      if |p| > 1 && Child(n, p[0]).Some? {
        PutWellFormed(Child(n, p[0]).value, p[1..], x);
      }
      if |p| == 1 || Child(n, p[0]).Some? {
        SetEntryUnique(es, p[0], v);
        var r := SetEntry(es, p[0], v);
        assert forall i :: 0 <= i < |r| ==> r[i].node == v || r[i] in es;
      }
    }
  }

  lemma {:induction false} RemoveEntryUnique(es: seq<Entry>, name: string)
    requires UniqueNames(es)
    ensures UniqueNames(RemoveEntry(es, name))
    ensures forall i :: 0 <= i < |RemoveEntry(es, name)| ==> RemoveEntry(es, name)[i] in es
  {
    if es != [] {
      RemoveEntryUnique(es[1..], name);
      var r := RemoveEntry(es[1..], name);
      assert forall i :: 0 <= i < |r| ==> r[i] in es[1..];
    }
  }

  lemma {:induction false} RemoveWellFormed(n: Node, p: Path)
    requires WellFormed(n)
    ensures WellFormed(Remove(n, p))
    decreases |p|
  {
    if p != [] && n.Dir? {
      var es := n.entries;
      if |p| == 1 {
        RemoveEntryUnique(es, p[0]);
      } else if Child(n, p[0]).Some? {
        var c := Child(n, p[0]).value;
        RemoveWellFormed(c, p[1..]);
        var r := SetEntry(es, p[0], Remove(c, p[1..]));
        assert forall i :: 0 <= i < |r| ==> r[i].node == Remove(c, p[1..]) || r[i] in es;
      }
    }
  }

  lemma {:induction false} LookupWellFormed(n: Node, p: Path)
    requires WellFormed(n) && Lookup(n, p).Some?
    ensures WellFormed(Lookup(n, p).value)
    decreases |p|
  {
    if p != [] {
      LookupWellFormed(Child(n, p[0]).value, p[1..]);
    }
  }

  /** Removing the top-level entry `n` leaves the other top-level names alone. */
  lemma TopLevelRemove(root: Node, n: string)
    ensures Child(Remove(root, [n]), n).None?
    ensures forall a :: a != n ==> Child(Remove(root, [n]), a) == Child(root, a)
  {
    LookupRemove(root, [n], [n]);
    LookupChild(Remove(root, [n]), n);
    forall a | a != n
      ensures Child(Remove(root, [n]), a) == Child(root, a)
    {
      assert Disjoint([n], [a]);
      LookupRemove(root, [n], [a]);
      LookupChild(Remove(root, [n]), a);
      LookupChild(root, a);
    }
  }

  /** Writing a top-level name changes that name alone. */
  lemma TopLevelPut(n: Node, a: string, x: Node)
    requires n.Dir?
    ensures Child(Put(n, [a], x), a) == Some(x)
    ensures forall b :: b != a ==> Child(Put(n, [a], x), b) == Child(n, b)
  {
    ChildSetEntry(n.entries, a, x, a);
    forall b | b != a
      ensures Child(Put(n, [a], x), b) == Child(n, b)
    {
      ChildSetEntry(n.entries, a, x, b);
    }
  }
}
