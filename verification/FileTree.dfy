/** Source trees and the target file system of the copy in src-tauri/src/commands/wsl_files.rs. */
module FileTree {
  import opened Bytes

  type Path = seq<string>

  /** `Broken` stands for anything whose metadata or listing cannot be read, and for what a dangling
      link leads to. */
  datatype Node =
    | FileNode(content: seq<byte>)
    | DirNode(entries: seq<Entry>)
    | Link(destination: Node)
    | Special
    | Broken

  datatype Entry = Entry(name: string, node: Node)

  /** A directory has no two entries of one name. */
  predicate WellNamed(node: Node) {
    match node
    case DirNode(entries) => EntriesWellNamed(entries)
    case Link(destination) => WellNamed(destination)
    case _ => true
  }

  /** What a path shows when links are followed. */
  function Followed(node: Node): (r: Node)
    ensures !r.Link?
    ensures WellNamed(node) ==> WellNamed(r)
  {
    if node.Link? then Followed(node.destination) else node
  }

  /** Listing the source of a copy follows it, if it is a link; below it, links are left out. A link
      to a file is no source: it cannot be listed. */
  predicate IsSource(node: Node) {
    node.FileNode? || Followed(node).DirNode?
  }

  predicate EntriesWellNamed(entries: seq<Entry>) {
    entries == [] ||
    (&& WellNamed(entries[0].node)
     && EntriesWellNamed(entries[1..])
     && forall j :: 1 <= j < |entries| ==> entries[j].name != entries[0].name)
  }

  function FindEntry(entries: seq<Entry>, name: string): (r: Option<Node>)
    ensures r.Some? ==> exists j :: 0 <= j < |entries| && entries[j] == Entry(name, r.value)
    ensures r.None? ==> forall j :: 0 <= j < |entries| ==> entries[j].name != name
  {
    if entries == [] then None
    else if entries[0].name == name then
      assert entries[0] == Entry(name, entries[0].node);
      Some(entries[0].node)
    else
      var r := FindEntry(entries[1..], name);
      assert r.Some? ==> exists j :: 0 <= j < |entries| && entries[j] == Entry(name, r.value) by {
        if r.Some? {
          var j :| 0 <= j < |entries[1..]| && entries[1..][j] == Entry(name, r.value);
          assert entries[j + 1] == Entry(name, r.value);
        }
      }
      r
  }

  function Lookup(node: Node, path: Path): Option<Node>
    decreases |path|
  {
    if path == [] then Some(node)
    else if !node.DirNode? then None
    else
      match FindEntry(node.entries, path[0])
      case None => None
      case Some(child) => Lookup(child, path[1..])
  }

  lemma {:induction false} EntryIsFound(entries: seq<Entry>, j: nat)
    requires EntriesWellNamed(entries) && j < |entries|
    ensures FindEntry(entries, entries[j].name) == Some(entries[j].node)
    ensures WellNamed(entries[j].node)
  {
    if j > 0 {
      EntryIsFound(entries[1..], j - 1);
    }
  }

  lemma {:induction false} LookupConcat(node: Node, a: Path, b: Path)
    ensures Lookup(node, a + b)
            == match Lookup(node, a) case None => None case Some(mid) => Lookup(mid, b)
    decreases |a|
  {
    if a == [] {
      assert a + b == b;
    } else if node.DirNode? {
      assert (a + b)[1..] == a[1..] + b;
      var child := FindEntry(node.entries, a[0]);
      if child.Some? {
        LookupConcat(child.value, a[1..], b);
      }
    }
  }

  lemma LookupChild(root: Node, s: Path, node: Node, j: nat)
    requires Lookup(root, s) == Some(node) && node.DirNode? && WellNamed(node) && j < |node.entries|
    ensures Lookup(root, s + [node.entries[j].name]) == Some(node.entries[j].node)
    ensures WellNamed(node.entries[j].node)
  {
    EntryIsFound(node.entries, j);
    LookupConcat(root, s, [node.entries[j].name]);
    assert Lookup(node.entries[j].node, [node.entries[j].name][1..]) == Some(node.entries[j].node);
  }

  // ----- What a copy is to contain -----

  datatype FsEntry = FsDir | FsFile(content: seq<byte>)

  /** The copied form of a node: links and special files are left out. */
  function Copied(node: Node): Option<FsEntry> {
    match node
    case FileNode(content) => Some(FsFile(content))
    case DirNode(_) => Some(FsDir)
    case _ => None
  }

  function CopiedAt(root: Node, path: Path): Option<FsEntry> {
    match Lookup(root, path)
    case None => None
    case Some(node) => Copied(node)
  }

  type Tree = imap<Path, FsEntry>

  /** The tree that a complete copy of `root` is. */
  ghost function CopyOf(root: Node): Tree {
    imap q: Path | CopiedAt(root, q).Some? :: CopiedAt(root, q).value
  }

  // ----- The target file system -----

  type Fs = map<Path, FsEntry>

  /** The tree at a path; empty when there is nothing. */
  ghost function At(fs: Fs, p: Path): Tree {
    imap q: Path | p + q in fs :: fs[p + q]
  }

  /** Neither path lies below the other. */
  predicate Apart(a: Path, b: Path) {
    !(a <= b) && !(b <= a)
  }

  function Below(fs: Fs, p: Path): set<Path> {
    set k | k in fs && p <= k
  }

  function Renamed(fs: Fs, a: Path, b: Path): Fs {
    var kept := fs - Below(fs, a) - Below(fs, b);
    var moved := set x | x in fs && a <= x :: b + x[|a|..];
    kept + map k | k in moved && |b| <= |k| && a + k[|b|..] in fs :: fs[a + k[|b|..]]
  }

  lemma RenamedMoves(fs: Fs, a: Path, b: Path)
    requires Apart(a, b)
    ensures At(Renamed(fs, a, b), b) == At(fs, a)
    ensures At(Renamed(fs, a, b), a) == imap[]
  {
    var fs' := Renamed(fs, a, b);
    forall q: Path
      ensures b + q in fs' <==> a + q in fs
      ensures a + q in fs ==> fs'[b + q] == fs[a + q]
    {
      assert (b + q)[|b|..] == q && (a + q)[|a|..] == q;
      assert b <= b + q && a <= a + q;
      if a + q in fs {
        assert b + q == b + (a + q)[|a|..];
      }
    }
    forall q: Path
      ensures a + q !in fs'
    {
      ApartNever(a, b, a + q);
    }
  }

  predicate SameAt(a: Fs, b: Fs, p: Path) {
    (p in a <==> p in b) && (p in a && p in b ==> a[p] == b[p])
  }

  /** Nothing differs but what lies at or below p. */
  ghost predicate SameOutside(a: Fs, b: Fs, p: Path) {
    forall k: Path :: !(p <= k) ==> SameAt(a, b, k)
  }

  lemma RenamedElsewhere(fs: Fs, a: Path, b: Path)
    requires Apart(a, b)
    ensures forall k: Path :: !(a <= k) && !(b <= k) ==> SameAt(fs, Renamed(fs, a, b), k)
    ensures forall k :: k in Renamed(fs, a, b) ==> !(a <= k)
  {
  }

  /** Two file systems with the same tree at p and the same elsewhere are the same. */
  lemma SameEverywhere(a: Fs, b: Fs, p: Path)
    requires SameOutside(a, b, p) && At(a, p) == At(b, p)
    ensures a == b
  {
    forall k: Path
      ensures SameAt(a, b, k)
    {
      if p <= k {
        var q := k[|p|..];
        assert k == p + q;
        assert q in At(a, p) <==> q in At(b, p);
        assert q in At(a, p) ==> At(a, p)[q] == At(b, p)[q];
      }
    }
    assert forall k :: k in a ==> SameAt(a, b, k);
    assert forall k :: k in b ==> SameAt(a, b, k);
  }

  lemma ApartNever(a: Path, b: Path, p: Path)
    requires Apart(a, b) && a <= p
    ensures !(b <= p)
  {
  }

  lemma RenamedKeeps(fs: Fs, a: Path, b: Path, c: Path)
    requires Apart(c, a) && Apart(c, b)
    ensures At(Renamed(fs, a, b), c) == At(fs, c)
  {
  }

  lemma DroppingKeeps(fs: Fs, lost: set<Path>, b: Path, c: Path)
    requires Apart(c, b) && forall p :: p in lost ==> b <= p
    ensures At(fs - lost, c) == At(fs, c)
  {
  }
}
