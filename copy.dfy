/**
 * The recursive walk of the template (`copyDirectoryWithReplacement` and
 * `copyFileWithReplacement`): the entries of a directory are visited in
 * `compareNames` order, the `ci` entry of the template root and excluded
 * directories are passed over, directories are created and entered, regular
 * files are copied as bytes or transformed as text, and anything else is
 * ignored. The first failing filesystem call ends the walk and leaves what
 * was written so far.
 */
module Copy {
  import opened Wrappers
  import opened Text
  import opened Classify
  import opened Entries
  import opened FileSystem

  /** The template entry that the walk passes over at depth 0 (it is copied to a fixed place afterwards). */
  const CiEntryName: string := "ci"

  /** UTF-8 decoding of a file's bytes (`rawBuffer.toString("utf8")`). */
  type Decoder = seq<byte> -> string

  /** The filesystem after a run of calls, and the error that stopped it, if one did. */
  datatype Effect = Effect(fs: FsMap, failure: Option<IoError>)

  /** The walk at `depth` creates nothing for `e`. */
  predicate Skipped(e: Entry, depth: nat) {
    || (depth == 0 && e.name == CiEntryName)
    || (e.node.Directory? && ShouldSkipDirectory(e.name))
  }

  /** What `copyFileWithReplacement` writes for the file `name` holding `content`. */
  function Materialized(name: string, content: seq<byte>, placeholders: seq<Placeholder>, decode: Decoder): Data {
    if IsText(name, content) then Utf8(ApplyAll(NormalizeNewlines(decode(content)), placeholders))
    else Bytes(content)
  }

  /** `copyFileWithReplacement` from the file `name` to `target`. */
  function CopyFile(fs: FsMap, name: string, content: seq<byte>, target: Path,
                    placeholders: seq<Placeholder>, decode: Decoder): Effect
    requires WellFormed(fs)
  {
    match WithFile(fs, target, Materialized(name, content, placeholders, decode))
    case Success(next) => Effect(next, None)
    case Failure(err) => Effect(fs, Some(err))
  }

  /** `copyDirectoryWithReplacement(source, target, placeholders, depth)`. */
  function CopyDirectory(fs: FsMap, source: Node, target: Path,
                         placeholders: seq<Placeholder>, depth: nat, decode: Decoder): (r: Effect)
    requires WellFormed(fs) && source.Directory?
    ensures WellFormed(r.fs)
    decreases source
  {
    SortByNamePermutes(source.entries);
    CopyEntries(fs, SortByName(source.entries), source, target, placeholders, depth, decode)
  }

  /** The loop of `copyDirectoryWithReplacement` over the listing `entries` of `dir`. */
  function CopyEntries(fs: FsMap, entries: seq<Entry>, dir: Node, target: Path,
                       placeholders: seq<Placeholder>, depth: nat, decode: Decoder): (r: Effect)
    requires WellFormed(fs)
    requires dir.Directory? && forall x :: x in entries ==> x in dir.entries
    ensures WellFormed(r.fs)
    decreases dir, |entries|
  {
    if |entries| == 0 then Effect(fs, None)
    else
      assert entries[0] in dir.entries;
      var first := CopyEntry(fs, entries[0], target, placeholders, depth, decode);
      if first.failure.Some? then first
      else CopyEntries(first.fs, entries[1..], dir, target, placeholders, depth, decode)
  }

  /** One iteration of that loop: the entry `e` of the directory copied to `target`. */
  function CopyEntry(fs: FsMap, e: Entry, target: Path,
                     placeholders: seq<Placeholder>, depth: nat, decode: Decoder): (r: Effect)
    requires WellFormed(fs)
    ensures WellFormed(r.fs)
    decreases e
  {
    if Skipped(e, depth) then Effect(fs, None)
    else
      match e.node
      case Directory(_) =>
        (match WithDirectory(fs, target + [e.name])
         case Failure(err) => Effect(fs, Some(err))
         case Success(next) => CopyDirectory(next, e.node, target + [e.name], placeholders, depth + 1, decode))
      case File(content) => CopyFile(fs, e.name, content, target + [e.name], placeholders, decode)
      case Other => Effect(fs, None)
  }

  /** One step of the loop: the first entry is copied, and the rest only if that succeeded. */
  lemma CopyEntriesStep(fs: FsMap, entries: seq<Entry>, dir: Node, target: Path,
                        placeholders: seq<Placeholder>, depth: nat, decode: Decoder)
    requires WellFormed(fs) && |entries| > 0
    requires dir.Directory? && forall x :: x in entries ==> x in dir.entries
    ensures var first := CopyEntry(fs, entries[0], target, placeholders, depth, decode);
            CopyEntries(fs, entries, dir, target, placeholders, depth, decode)
            == if first.failure.Some? then first
               else CopyEntries(first.fs, entries[1..], dir, target, placeholders, depth, decode)
  {
  }

  // ---------------------------------------------------------------------------
  // What the walk produces, stated path by path

  /**
   * The node the walk of the template directory `source` at `depth` leaves at
   * the relative path `rel` below the target: the entry named `rel[0]`,
   * unless it is passed over, then inside it.
   */
  function Expected(source: Node, depth: nat, rel: Path,
                    placeholders: seq<Placeholder>, decode: Decoder): Option<FsNode>
    requires source.Directory?
    decreases source
  {
    if rel == [] then None
    else match FindEntry(source.entries, rel[0])
      case None => None
      case Some(e) => ExpectedBelow(e, depth, rel[1..], placeholders, decode)
  }

  /** The node the walk leaves at `rel` below the copy of the entry `e`, `rel == []` being the copy itself. */
  function ExpectedBelow(e: Entry, depth: nat, rel: Path,
                         placeholders: seq<Placeholder>, decode: Decoder): Option<FsNode>
    decreases e
  {
    if Skipped(e, depth) then None
    else match e.node
      case Directory(_) =>
        if rel == [] then Some(DirNode) else Expected(e.node, depth + 1, rel, placeholders, decode)
      case File(content) =>
        if rel == [] then Some(FileNode(Materialized(e.name, content, placeholders, decode))) else None
      case Other => None
  }

  /** Nothing in `fs` lies below `target` under a name that `entries` lists. */
  predicate Vacant(fs: FsMap, target: Path, entries: seq<Entry>) {
    forall q :: q in fs && Below(target, q) ==> FindEntry(entries, q[|target|]).None?
  }

  /** The first step below `target` towards `p`. */
  function StepBelow(target: Path, p: Path): string
    requires Below(target, p)
  {
    p[|target|]
  }

  /** The paths below `target` whose first step is `name` are the child `target + [name]` and what lies below it. */
  lemma BelowChild(target: Path, name: string, p: Path)
    ensures (Below(target, p) && StepBelow(target, p) == name) <==> (p == target + [name] || Below(target + [name], p))
    ensures Below(target + [name], p) ==> p[|target| + 1..] == p[|target + [name]|..]
  {
    var child := target + [name];
    if Below(target, p) && StepBelow(target, p) == name && p != child {
      assert p[..|child|] == p[..|target|] + [p[|target|]];
    }
    if Below(child, p) {
      assert p[..|target|] == child[..|target|];
      assert p[|target|] == p[..|child|][|target|];
    }
  }

  /** The entry `ci` of the template root yields nothing, whatever lies inside it. */
  lemma TopLevelCiSkipped(source: Node, rel: Path, placeholders: seq<Placeholder>, decode: Decoder)
    requires source.Directory?
    ensures Expected(source, 0, [CiEntryName] + rel, placeholders, decode) == None
  {
    assert ([CiEntryName] + rel)[1..] == rel;
  }

  /** A regular file named `ci` below the template root is copied like any other file. */
  lemma NestedCiFileCopied(source: Node, depth: nat, content: seq<byte>, placeholders: seq<Placeholder>, decode: Decoder)
    requires source.Directory? && depth > 0
    requires FindEntry(source.entries, CiEntryName) == Some(Entry(CiEntryName, File(content)))
    ensures Expected(source, depth, [CiEntryName], placeholders, decode)
         == Some(FileNode(Materialized(CiEntryName, content, placeholders, decode)))
  {
  }

  /** A regular file is copied whatever its name, an excluded directory name included; only `ci` at the root is passed over. */
  lemma FileCopied(source: Node, depth: nat, name: string, content: seq<byte>,
                   placeholders: seq<Placeholder>, decode: Decoder)
    requires source.Directory? && FindEntry(source.entries, name) == Some(Entry(name, File(content)))
    ensures Expected(source, depth, [name], placeholders, decode)
         == if depth == 0 && name == CiEntryName then None
            else Some(FileNode(Materialized(name, content, placeholders, decode)))
    ensures forall rel :: rel != [] ==> Expected(source, depth, [name] + rel, placeholders, decode) == None
  {
    forall rel | rel != []
      ensures Expected(source, depth, [name] + rel, placeholders, decode) == None
    {
      assert ([name] + rel)[1..] == rel;
    }
  }

  /** An excluded directory yields nothing, neither itself nor anything inside it. */
  lemma ExcludedDirectorySkipped(source: Node, depth: nat, name: string, rel: Path,
                                 placeholders: seq<Placeholder>, decode: Decoder)
    requires source.Directory? && ShouldSkipDirectory(name)
    requires FindEntry(source.entries, name).Some? && FindEntry(source.entries, name).value.node.Directory?
    ensures Expected(source, depth, [name] + rel, placeholders, decode) == None
  {
    assert ([name] + rel)[1..] == rel;
  }

  /** A directory that is neither excluded nor the root's `ci` is created, and its contents are copied one level deeper. */
  lemma DirectoryEntered(source: Node, depth: nat, e: Entry, rel: Path,
                         placeholders: seq<Placeholder>, decode: Decoder)
    requires source.Directory? && FindEntry(source.entries, e.name) == Some(e)
    requires e.node.Directory? && !ShouldSkipDirectory(e.name) && !(depth == 0 && e.name == CiEntryName)
    ensures Expected(source, depth, [e.name], placeholders, decode) == Some(DirNode)
    ensures rel != [] ==>
              Expected(source, depth, [e.name] + rel, placeholders, decode) == Expected(e.node, depth + 1, rel, placeholders, decode)
  {
    assert ([e.name] + rel)[1..] == rel;
  }

  /** Entries that are neither directories nor regular files yield nothing. */
  lemma OtherEntryIgnored(source: Node, depth: nat, name: string, rel: Path,
                          placeholders: seq<Placeholder>, decode: Decoder)
    requires source.Directory? && FindEntry(source.entries, name) == Some(Entry(name, Other))
    ensures Expected(source, depth, [name] + rel, placeholders, decode) == None
  {
    assert ([name] + rel)[1..] == rel;
  }

  /** A file with a listed extension is copied byte for byte, whatever it holds; any copied bytes are the source's own. */
  lemma BinaryCopiedVerbatim(name: string, content: seq<byte>, placeholders: seq<Placeholder>, decode: Decoder)
    ensures HasBinaryExtension(name) ==> Materialized(name, content, placeholders, decode) == Bytes(content)
    ensures Materialized(name, content, placeholders, decode).Bytes? ==> Materialized(name, content, placeholders, decode).bytes == content
    ensures Materialized(name, content, placeholders, decode).Utf8? <==> IsText(name, content)
  {
  }

  /** Below `target`, `result` holds what the walk of `source` describes; everywhere else it agrees with `fs`. */
  ghost predicate DirectoryPlaced(fs: FsMap, result: FsMap, target: Path, source: Node, depth: nat,
                            placeholders: seq<Placeholder>, decode: Decoder)
    requires source.Directory?
  {
    forall p :: Get(result, p) ==
      if Below(target, p) then Expected(source, depth, p[|target|..], placeholders, decode)
      else Get(fs, p)
  }

  /** Under the name of `e`, `result` holds the copy of `e`; everywhere else it agrees with `fs`. */
  ghost predicate EntryPlaced(fs: FsMap, result: FsMap, target: Path, e: Entry, depth: nat,
                        placeholders: seq<Placeholder>, decode: Decoder)
  {
    forall p :: Get(result, p) ==
      if Below(target, p) && StepBelow(target, p) == e.name
      then ExpectedBelow(e, depth, p[|target| + 1..], placeholders, decode)
      else Get(fs, p)
  }

  /** Under each name `entries` lists, `result` holds the copy of that entry; everywhere else it agrees with `fs`. */
  ghost predicate ListingPlaced(fs: FsMap, result: FsMap, target: Path, entries: seq<Entry>, depth: nat,
                          placeholders: seq<Placeholder>, decode: Decoder)
  {
    forall p :: Get(result, p) ==
      if Below(target, p) && FindEntry(entries, StepBelow(target, p)).Some?
      then ExpectedBelow(FindEntry(entries, StepBelow(target, p)).value, depth, p[|target| + 1..], placeholders, decode)
      else Get(fs, p)
  }

  /** Nothing of `fs` lies below `target` under `name`. */
  predicate Unused(fs: FsMap, target: Path, name: string) {
    forall q :: q in fs && Below(target, q) ==> StepBelow(target, q) != name
  }

  /** Copying one entry into a place where nothing of that name exists yet succeeds and adds exactly its expected nodes. */
  lemma {:induction false} CopyEntryEffect(fs: FsMap, e: Entry, target: Path,
                                           placeholders: seq<Placeholder>, depth: nat, decode: Decoder)
    requires WellFormed(fs) && IsDirectory(fs, target) && DistinctTree(e.node)
    requires Unused(fs, target, e.name)
    ensures var r := CopyEntry(fs, e, target, placeholders, depth, decode);
      && r.failure == None
      && EntryPlaced(fs, r.fs, target, e, depth, placeholders, decode)
    decreases e
  {
    if Skipped(e, depth) || e.node.Other? {
    } else if e.node.Directory? {
      CopyDirectoryEntryEffect(fs, e, target, placeholders, depth, decode);
    } else {
      CopyFileEntryEffect(fs, e, target, placeholders, depth, decode);
    }
  }

  /** A child of `target` that is not in `fs` and has nothing below it in `fs`. */
  lemma FreshChild(fs: FsMap, target: Path, name: string)
    requires Unused(fs, target, name)
    ensures target + [name] !in fs
    ensures forall q :: q in fs ==> !Below(target + [name], q)
  {
    BelowChild(target, name, target + [name]);
    forall q | q in fs
      ensures !Below(target + [name], q)
    {
      BelowChild(target, name, q);
    }
  }

  lemma {:induction false} CopyFileEntryEffect(fs: FsMap, e: Entry, target: Path,
                                               placeholders: seq<Placeholder>, depth: nat, decode: Decoder)
    requires WellFormed(fs) && IsDirectory(fs, target) && e.node.File? && !Skipped(e, depth)
    requires Unused(fs, target, e.name)
    ensures var r := CopyEntry(fs, e, target, placeholders, depth, decode);
      && r.failure == None
      && EntryPlaced(fs, r.fs, target, e, depth, placeholders, decode)
  {
    var child := target + [e.name];
    assert Parent(child) == target;
    FreshChild(fs, target, e.name);
    var r := CopyEntry(fs, e, target, placeholders, depth, decode);
    assert r.fs == fs[child := FileNode(Materialized(e.name, e.node.content, placeholders, decode))];
    forall p
      ensures Get(r.fs, p) ==
        if Below(target, p) && StepBelow(target, p) == e.name
        then ExpectedBelow(e, depth, p[|target| + 1..], placeholders, decode)
        else Get(fs, p)
    {
      BelowChild(target, e.name, p);
    }
  }

  lemma {:induction false} CopyDirectoryEntryEffect(fs: FsMap, e: Entry, target: Path,
                                                    placeholders: seq<Placeholder>, depth: nat, decode: Decoder)
    requires WellFormed(fs) && IsDirectory(fs, target) && e.node.Directory? && !Skipped(e, depth)
    requires DistinctTree(e.node) && Unused(fs, target, e.name)
    ensures var r := CopyEntry(fs, e, target, placeholders, depth, decode);
      && r.failure == None
      && EntryPlaced(fs, r.fs, target, e, depth, placeholders, decode)
    decreases e, 0
  {
    var child := target + [e.name];
    assert Parent(child) == target;
    FreshChild(fs, target, e.name);
    WithNewDirectory(fs, child);
    var next := fs[child := DirNode];
    AddUnderDirectory(fs, child, DirNode);
    CopyDirectoryEffect(next, e.node, child, placeholders, depth + 1, decode);
    var r := CopyEntry(fs, e, target, placeholders, depth, decode);
    assert r == CopyDirectory(next, e.node, child, placeholders, depth + 1, decode);
    ChildDirectoryLayout(fs, r.fs, e, target, placeholders, depth, decode);
  }

  /** The nodes of a copied directory, seen from its parent. */
  lemma ChildDirectoryLayout(fs: FsMap, result: FsMap, e: Entry, target: Path,
                             placeholders: seq<Placeholder>, depth: nat, decode: Decoder)
    requires e.node.Directory? && !Skipped(e, depth)
    requires DirectoryPlaced(fs[target + [e.name] := DirNode], result, target + [e.name], e.node, depth + 1, placeholders, decode)
    ensures EntryPlaced(fs, result, target, e, depth, placeholders, decode)
  {
    var child := target + [e.name];
    forall p
      ensures Get(result, p) ==
        if Below(target, p) && StepBelow(target, p) == e.name
        then ExpectedBelow(e, depth, p[|target| + 1..], placeholders, decode)
        else Get(fs, p)
    {
      BelowChild(target, e.name, p);
      if p == child {
        assert p[|target| + 1..] == [];
      }
    }
  }

  /**
   * Copying a template directory into a directory with nothing below it
   * succeeds, leaves everything outside the target as it was, and puts
   * below the target exactly what `Expected` describes.
   */
  lemma {:induction false} CopyDirectoryEffect(fs: FsMap, source: Node, target: Path,
                                               placeholders: seq<Placeholder>, depth: nat, decode: Decoder)
    requires WellFormed(fs) && IsDirectory(fs, target)
    requires forall q :: q in fs ==> !Below(target, q)
    requires source.Directory? && DistinctTree(source)
    ensures var r := CopyDirectory(fs, source, target, placeholders, depth, decode);
      && r.failure == None
      && DirectoryPlaced(fs, r.fs, target, source, depth, placeholders, decode)
    decreases source
  {
    var sorted := SortByName(source.entries);
    SortByNameSorts(source.entries);
    SortByNamePermutes(source.entries);
    AscendingHasDistinctNames(sorted);
    assert Vacant(fs, target, sorted);
    CopyEntriesEffect(fs, sorted, source, target, placeholders, depth, decode);
    var r := CopyDirectory(fs, source, target, placeholders, depth, decode);
    assert r == CopyEntries(fs, sorted, source, target, placeholders, depth, decode);
    forall name: string
      ensures FindEntry(sorted, name) == FindEntry(source.entries, name)
    {
      FindEntryInAnyOrder(sorted, source.entries, name);
    }
    SortedLayout(fs, r.fs, sorted, source, target, placeholders, depth, decode);
  }

  /** The nodes the loop over the sorted listing leaves are those `Expected` describes for the directory. */
  lemma SortedLayout(fs: FsMap, result: FsMap, sorted: seq<Entry>, source: Node, target: Path,
                     placeholders: seq<Placeholder>, depth: nat, decode: Decoder)
    requires source.Directory? && forall q :: q in fs ==> !Below(target, q)
    requires forall name: string :: FindEntry(sorted, name) == FindEntry(source.entries, name)
    requires ListingPlaced(fs, result, target, sorted, depth, placeholders, decode)
    ensures DirectoryPlaced(fs, result, target, source, depth, placeholders, decode)
  {
    forall p
      ensures Get(result, p) ==
        if Below(target, p) then Expected(source, depth, p[|target|..], placeholders, decode)
        else Get(fs, p)
    {
      if Below(target, p) {
        var rel := p[|target|..];
        assert rel != [] && rel[0] == StepBelow(target, p) && rel[1..] == p[|target| + 1..];
        assert FindEntry(sorted, rel[0]) == FindEntry(source.entries, rel[0]);
        assert p !in fs;
      }
    }
  }

  /** The loop over a listing with distinct names copies each entry in turn, none of them failing. */
  lemma {:induction false} CopyEntriesEffect(fs: FsMap, entries: seq<Entry>, dir: Node, target: Path,
                                             placeholders: seq<Placeholder>, depth: nat, decode: Decoder)
    requires WellFormed(fs) && IsDirectory(fs, target)
    requires dir.Directory? && DistinctTree(dir) && forall x :: x in entries ==> x in dir.entries
    requires DistinctNames(entries) && Vacant(fs, target, entries)
    ensures var r := CopyEntries(fs, entries, dir, target, placeholders, depth, decode);
      && r.failure == None
      && ListingPlaced(fs, r.fs, target, entries, depth, placeholders, decode)
    decreases dir, |entries|
  {
    if |entries| > 0 {
      var e := entries[0];
      var rest := entries[1..];
      assert e in dir.entries;
      assert Unused(fs, target, e.name) by {
        forall q | q in fs && Below(target, q)
          ensures StepBelow(target, q) != e.name
        {
          assert FindEntry(entries, q[|target|]).None?;
        }
      }
      CopyEntryEffect(fs, e, target, placeholders, depth, decode);
      var first := CopyEntry(fs, e, target, placeholders, depth, decode);
      DistinctTail(entries);
      FirstEntryLayout(fs, first.fs, entries, target, placeholders, depth, decode);
      CopyEntriesEffect(first.fs, rest, dir, target, placeholders, depth, decode);
      var r := CopyEntries(fs, entries, dir, target, placeholders, depth, decode);
      assert r == CopyEntries(first.fs, rest, dir, target, placeholders, depth, decode);
      EntriesLayout(fs, first.fs, r.fs, entries, target, placeholders, depth, decode);
    }
  }

  /** After the first entry is copied, the rest of a listing with distinct names still finds its places vacant. */
  lemma FirstEntryLayout(fs: FsMap, first: FsMap, entries: seq<Entry>, target: Path,
                         placeholders: seq<Placeholder>, depth: nat, decode: Decoder)
    requires |entries| > 0 && Vacant(fs, target, entries)
    requires FindEntry(entries[1..], entries[0].name).None?
    requires EntryPlaced(fs, first, target, entries[0], depth, placeholders, decode)
    ensures Get(first, target) == Get(fs, target)
    ensures Vacant(first, target, entries[1..])
  {
    assert Get(first, target) == Get(fs, target);
    forall q | q in first && Below(target, q)
      ensures FindEntry(entries[1..], q[|target|]).None?
    {
      assert Get(first, q).Some?;
    }
  }

  /** The first entry's nodes and the rest's nodes together are the listing's nodes. */
  lemma EntriesLayout(fs: FsMap, first: FsMap, result: FsMap, entries: seq<Entry>, target: Path,
                      placeholders: seq<Placeholder>, depth: nat, decode: Decoder)
    requires |entries| > 0 && FindEntry(entries[1..], entries[0].name).None?
    requires EntryPlaced(fs, first, target, entries[0], depth, placeholders, decode)
    requires ListingPlaced(first, result, target, entries[1..], depth, placeholders, decode)
    ensures ListingPlaced(fs, result, target, entries, depth, placeholders, decode)
  {
    forall p
      ensures Get(result, p) ==
        if Below(target, p) && FindEntry(entries, StepBelow(target, p)).Some?
        then ExpectedBelow(FindEntry(entries, StepBelow(target, p)).value, depth, p[|target| + 1..], placeholders, decode)
        else Get(fs, p)
    {
      if Below(target, p) && StepBelow(target, p) != entries[0].name {
        assert FindEntry(entries, StepBelow(target, p)) == FindEntry(entries[1..], StepBelow(target, p));
      }
    }
  }

  // ---------------------------------------------------------------------------
  // The walk as methods on the disk

  /** `copyFileWithReplacement`: classify, then copy the bytes or write the transformed text. */
  method CopyFileWithReplacement(disk: Disk, name: string, content: seq<byte>, target: Path,
                                 placeholders: seq<Placeholder>, decode: Decoder)
    returns (failure: Option<IoError>)
    requires disk.Valid()
    modifies disk
    ensures disk.Valid()
    ensures Effect(disk.nodes, failure) == CopyFile(old(disk.nodes), name, content, target, placeholders, decode)
  {
    var text := IsTextFile(name, content);
    if !text {
      failure := disk.WriteFile(target, Bytes(content));
      return;
    }
    var raw := decode(content);
    var normalized := NormalizeNewlines(raw);
    var transformed := ApplyPlaceholders(normalized, placeholders);
    failure := disk.WriteFile(target, Utf8(transformed));
  }

  /** `copyDirectoryWithReplacement`: sort the listing, then handle each entry in turn, stopping at the first failure. */
  method CopyDirectoryWithReplacement(disk: Disk, source: Node, target: Path,
                                      placeholders: seq<Placeholder>, depth: nat, decode: Decoder)
    returns (failure: Option<IoError>)
    requires disk.Valid() && source.Directory?
    modifies disk
    ensures disk.Valid()
    ensures Effect(disk.nodes, failure) == CopyDirectory(old(disk.nodes), source, target, placeholders, depth, decode)
    decreases source, 1
  {
    var entries := SortByName(source.entries);
    SortByNamePermutes(source.entries);
    ghost var start := disk.nodes;
    var i := 0;
    while i < |entries|
      invariant 0 <= i <= |entries|
      invariant disk.Valid()
      invariant CopyEntries(start, entries, source, target, placeholders, depth, decode)
             == CopyEntries(disk.nodes, entries[i..], source, target, placeholders, depth, decode)
    {
      assert entries[i..][0] == entries[i] && entries[i..][1..] == entries[i + 1..];
      assert entries[i] in source.entries;
      CopyEntriesStep(disk.nodes, entries[i..], source, target, placeholders, depth, decode);
      failure := CopyEntryWithReplacement(disk, entries[i], target, placeholders, depth, decode);
      if failure.Some? {
        return;
      }
      i := i + 1;
    }
    failure := None;
  }

  /**
   * The body of the loop in `copyDirectoryWithReplacement` for one entry:
   * `ci` at depth 0 and excluded directories are passed over, a directory is
   * created and entered, a regular file is copied, and anything else ignored.
   */
  method CopyEntryWithReplacement(disk: Disk, entry: Entry, target: Path,
                                  placeholders: seq<Placeholder>, depth: nat, decode: Decoder)
    returns (failure: Option<IoError>)
    requires disk.Valid()
    modifies disk
    ensures disk.Valid()
    ensures Effect(disk.nodes, failure) == CopyEntry(old(disk.nodes), entry, target, placeholders, depth, decode)
    decreases entry, 0
  {
    ghost var before := disk.nodes;
    if Skipped(entry, depth) {
      return None;
    }
    var targetPath := target + [entry.name];
    match entry.node
    case Directory(_) =>
      failure := disk.Mkdir(targetPath);
      if failure.None? {
        failure := CopyDirectoryWithReplacement(disk, entry.node, targetPath, placeholders, depth + 1, decode);
      }
    case File(content) =>
      failure := CopyFileWithReplacement(disk, entry.name, content, targetPath, placeholders, decode);
    case Other =>
      failure := None;
  }
}
