/**
 * The target side of the generator: an abstract filesystem holding the
 * effects of the `node:fs` calls the generator makes (`stat`, `mkdir` with
 * `recursive: true`, `readdir`, `writeFile`, `copyFile`). A path is the
 * sequence of its components below the root, so `path.join` is
 * concatenation; the root `[]` is always a directory.
 */
module FileSystem {
  import opened Wrappers
  import opened Classify

  type Path = seq<string>

  /** What a regular file holds: raw bytes, or text that was written as UTF-8. */
  datatype Data = Bytes(bytes: seq<byte>) | Utf8(text: string)

  datatype FsNode = DirNode | FileNode(data: Data) | OtherNode

  /** The error codes the generator can meet, with the offending path. */
  datatype IoError =
    | NotFound(path: Path)       // ENOENT
    | NotADirectory(path: Path)  // ENOTDIR
    | AlreadyExists(path: Path)  // EEXIST
    | IsADirectory(path: Path)   // EISDIR

  type FsMap = map<Path, FsNode>

  function Parent(p: Path): Path
    requires |p| > 0
  {
    p[..|p| - 1]
  }

  /** The node stored at `p`, if any. */
  function Get(fs: FsMap, p: Path): Option<FsNode> {
    if p in fs then Some(fs[p]) else None
  }

  predicate IsDirectory(fs: FsMap, p: Path) {
    p == [] || (p in fs && fs[p] == DirNode)
  }

  /** Every stored node hangs below a directory. */
  predicate WellFormed(fs: FsMap) {
    forall p :: p in fs ==> |p| > 0 && IsDirectory(fs, Parent(p))
  }

  /** `p` lies strictly inside directory `dir`. */
  predicate Below(dir: Path, p: Path) {
    |dir| < |p| && p[..|dir|] == dir
  }

  /** Some proper ancestor of `p` exists and is not a directory. */
  predicate BlockedAncestor(fs: FsMap, p: Path) {
    exists k :: 0 < k < |p| && p[..k] in fs && fs[p[..k]] != DirNode
  }

  /** `fs.stat`: the node at `p`, nothing for ENOENT, or the error it throws. */
  function Status(fs: FsMap, p: Path): Result<Option<FsNode>, IoError> {
    if p == [] then Success(Some(DirNode))
    else if p in fs then Success(Some(fs[p]))
    else if BlockedAncestor(fs, p) then Failure(NotADirectory(p))
    else Success(None)
  }

  /** The names `fs.readdir(dir)` lists. */
  function ReadDir(fs: FsMap, dir: Path): (names: set<string>)
    ensures forall name :: name in names <==> dir + [name] in fs
  {
    var names := set p | p in fs && |p| == |dir| + 1 && p[..|dir|] == dir :: p[|dir|];
    assert forall name :: dir + [name] in fs ==> (dir + [name])[..|dir|] == dir && (dir + [name])[|dir|] == name;
    assert forall p :: p in fs && |p| == |dir| + 1 && p[..|dir|] == dir ==> p == dir + [p[|dir|]];
    names
  }

  /** Adds `p` and every missing ancestor of it as directories. */
  function AddDirectories(fs: FsMap, p: Path): FsMap
    decreases |p|
  {
    if |p| == 0 then fs
    else
      var up := AddDirectories(fs, Parent(p));
      if p in up then up else up[p := DirNode]
  }

  /** `r` keeps every node of `fs` unchanged. */
  predicate Extends(fs: FsMap, r: FsMap) {
    forall q :: q in fs ==> q in r && r[q] == fs[q]
  }

  /** Adding a node below an existing directory keeps the filesystem well formed. */
  lemma AddUnderDirectory(fs: FsMap, p: Path, n: FsNode)
    requires WellFormed(fs) && |p| > 0 && IsDirectory(fs, Parent(p)) && !(p in fs && fs[p] == DirNode && n != DirNode)
    ensures WellFormed(fs[p := n])
  {
    var r := fs[p := n];
    forall q | q in r
      ensures |q| > 0 && IsDirectory(r, Parent(q))
    {
      if q != p {
        assert IsDirectory(fs, Parent(q));
        if Parent(q) == p {
          assert fs[p] == DirNode;
          assert n == DirNode;
        }
      }
    }
  }

  /** `AddDirectories` keeps every node and adds only directories on the way to `p`. */
  lemma {:induction false} AddDirectoriesOnlyAdds(fs: FsMap, p: Path)
    ensures Extends(fs, AddDirectories(fs, p))
    ensures forall q :: q in AddDirectories(fs, p) && q !in fs ==>
      AddDirectories(fs, p)[q] == DirNode && |q| <= |p| && q == p[..|q|]
    decreases |p|
  {
    if |p| > 0 {
      var pp := Parent(p);
      AddDirectoriesOnlyAdds(fs, pp);
      var up := AddDirectories(fs, pp);
      forall q | q in up && q !in fs
        ensures q == p[..|q|]
      {
        assert pp[..|q|] == p[..|q|];
      }
    }
  }

  /** With nothing in the way, `AddDirectories` leaves `p` a directory of a well-formed filesystem. */
  lemma {:induction false} AddDirectoriesCreates(fs: FsMap, p: Path)
    requires WellFormed(fs) && !BlockedAncestor(fs, p)
    requires p in fs ==> fs[p] == DirNode
    ensures WellFormed(AddDirectories(fs, p)) && IsDirectory(AddDirectories(fs, p), p)
    decreases |p|
  {
    if |p| > 0 {
      var pp := Parent(p);
      ParentNotBlocked(fs, p);
      AddDirectoriesCreates(fs, pp);
      AddDirectoriesOnlyAdds(fs, pp);
      var up := AddDirectories(fs, pp);
      if p !in up {
        AddUnderDirectory(up, p, DirNode);
      } else if p in fs {
        assert up[p] == fs[p];
      }
    }
  }

  /** If no proper ancestor of `p` is in the way, none of its parent's is, and the parent is a directory or absent. */
  lemma ParentNotBlocked(fs: FsMap, p: Path)
    requires WellFormed(fs) && |p| > 0 && !BlockedAncestor(fs, p)
    ensures !BlockedAncestor(fs, Parent(p))
    ensures Parent(p) in fs ==> fs[Parent(p)] == DirNode
  {
    var pp := Parent(p);
    forall k | 0 < k < |pp| && pp[..k] in fs
      ensures fs[pp[..k]] == DirNode
    {
      assert pp[..k] == p[..k];
    }
    if pp in fs {
      assert |pp| > 0 && pp == p[..|p| - 1];
    }
  }

  /** `fs.mkdir(p, { recursive: true })`: creates `p` and its missing ancestors, or fails without a change. */
  function WithDirectory(fs: FsMap, p: Path): (r: Result<FsMap, IoError>)
    requires WellFormed(fs)
    ensures r.Success? ==> WellFormed(r.value) && IsDirectory(r.value, p)
    ensures r.Success? ==> forall q :: q in fs ==> q in r.value && r.value[q] == fs[q]
    ensures r.Success? ==> forall q :: q in r.value && q !in fs ==> r.value[q] == DirNode && (Below(q, p) || q == p)
    ensures r.Failure? <==> BlockedAncestor(fs, p) || (p in fs && fs[p] != DirNode)
  {
    if BlockedAncestor(fs, p) then Failure(NotADirectory(p))
    else if p in fs && fs[p] != DirNode then Failure(AlreadyExists(p))
    else
      AddDirectoriesCreates(fs, p);
      AddDirectoriesOnlyAdds(fs, p);
      Success(AddDirectories(fs, p))
  }

  /** `fs.writeFile(p, data)` and `fs.copyFile(_, p)`: replaces or creates the regular file `p`. */
  function WithFile(fs: FsMap, p: Path, data: Data): (r: Result<FsMap, IoError>)
    requires WellFormed(fs)
    ensures r.Success? <==> |p| > 0 && IsDirectory(fs, Parent(p)) && !(p in fs && fs[p] == DirNode)
    ensures r.Success? ==> WellFormed(r.value) && r.value == fs[p := FileNode(data)]
  {
    if p == [] then Failure(IsADirectory(p))
    else if !IsDirectory(fs, Parent(p)) then
      (if BlockedAncestor(fs, p) then Failure(NotADirectory(p)) else Failure(NotFound(p)))
    else if p in fs && fs[p] == DirNode then Failure(IsADirectory(p))
    else Success(fs[p := FileNode(data)])
  }

  /** `mkdir -p` of an existing directory adds nothing. */
  lemma {:induction false} AddExistingDirectory(fs: FsMap, d: Path)
    requires WellFormed(fs) && IsDirectory(fs, d)
    ensures AddDirectories(fs, d) == fs
    decreases |d|
  {
    if |d| > 0 {
      AddExistingDirectory(fs, Parent(d));
    }
  }

  /** Below a directory, only the new path itself can have a missing or blocked ancestor. */
  lemma NotBlockedBelowDirectory(fs: FsMap, p: Path)
    requires WellFormed(fs) && |p| > 0 && IsDirectory(fs, Parent(p))
    ensures !BlockedAncestor(fs, p)
  {
    forall k | 0 < k < |p|
      ensures p[..k] in fs && fs[p[..k]] == DirNode
    {
      assert p[..k] == Parent(p)[..k];
      AncestorsOfDirectory(fs, Parent(p), k);
    }
  }

  /** Creating a directory whose parent is a directory and that does not exist yet adds exactly it. */
  lemma WithNewDirectory(fs: FsMap, p: Path)
    requires WellFormed(fs) && |p| > 0 && IsDirectory(fs, Parent(p)) && p !in fs
    ensures WithDirectory(fs, p) == Success(fs[p := DirNode])
  {
    NotBlockedBelowDirectory(fs, p);
    AddExistingDirectory(fs, Parent(p));
  }

  /** Every non-empty prefix of a directory's path is a directory. */
  lemma {:induction false} AncestorsOfDirectory(fs: FsMap, d: Path, k: nat)
    requires WellFormed(fs) && IsDirectory(fs, d) && 0 < k <= |d|
    ensures d[..k] in fs && fs[d[..k]] == DirNode
    decreases |d|
  {
    if k < |d| {
      assert IsDirectory(fs, Parent(d));
      assert d[..k] == Parent(d)[..k];
      AncestorsOfDirectory(fs, Parent(d), k);
    } else {
      assert d[..k] == d;
    }
  }

  /** In a well-formed filesystem, anything stored inside a directory makes its listing non-empty. */
  lemma {:induction false} EmptyDirectoryHasNothingBelow(fs: FsMap, dir: Path, p: Path)
    requires WellFormed(fs) && p in fs && Below(dir, p)
    ensures ReadDir(fs, dir) != {}
    decreases |p|
  {
    if |p| == |dir| + 1 {
      assert p[|dir|] in ReadDir(fs, dir);
    } else {
      var q := Parent(p);
      assert q in fs;
      assert q[..|dir|] == p[..|dir|];
      EmptyDirectoryHasNothingBelow(fs, dir, q);
    }
  }

  /** Whatever lies inside `dir` makes `dir` a directory. */
  lemma {:induction false} AncestorOfStoredNode(fs: FsMap, dir: Path, p: Path)
    requires WellFormed(fs) && p in fs && Below(dir, p)
    ensures IsDirectory(fs, dir)
    decreases |p|
  {
    var q := Parent(p);
    if q != dir {
      assert q[..|dir|] == p[..|dir|];
      AncestorOfStoredNode(fs, dir, q);
    }
  }

  /** The filesystem state behind `node:fs`, as the generator reads and changes it. */
  class Disk {
    var nodes: FsMap

    ghost predicate Valid()
      reads this
    {
      WellFormed(nodes)
    }

    constructor (initial: FsMap)
      requires WellFormed(initial)
      ensures Valid() && nodes == initial
    {
      nodes := initial;
    }

    /** `fs.stat(p)` */
    method Stat(p: Path) returns (r: Result<Option<FsNode>, IoError>)
      ensures r == Status(nodes, p)
    {
      r := Status(nodes, p);
    }

    /** `fs.readdir(dir)` */
    method ReadDirectory(dir: Path) returns (names: set<string>)
      ensures names == ReadDir(nodes, dir)
    {
      names := ReadDir(nodes, dir);
    }

    /** `fs.mkdir(p, { recursive: true })` */
    method Mkdir(p: Path) returns (failure: Option<IoError>)
      requires Valid()
      modifies this
      ensures Valid()
      ensures match WithDirectory(old(nodes), p)
        case Success(next) => nodes == next && failure == None
        case Failure(err) => nodes == old(nodes) && failure == Some(err)
    {
      match WithDirectory(nodes, p)
      case Success(next) =>
        nodes := next;
        failure := None;
      case Failure(err) =>
        failure := Some(err);
    }

    /** `fs.writeFile(p, data)`, and `fs.copyFile(_, p)` with the source's bytes as `data` */
    method WriteFile(p: Path, data: Data) returns (failure: Option<IoError>)
      requires Valid()
      modifies this
      ensures Valid()
      ensures match WithFile(old(nodes), p, data)
        case Success(next) => nodes == next && failure == None
        case Failure(err) => nodes == old(nodes) && failure == Some(err)
    {
      match WithFile(nodes, p, data)
      case Success(next) =>
        nodes := next;
        failure := None;
      case Failure(err) =>
        failure := Some(err);
    }
  }
}
