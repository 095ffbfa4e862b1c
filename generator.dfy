/**
 * `generateService` and `ensureWritableEmptyDirectory`: validate the name,
 * settle the target directory, copy the template into it, then write the CI
 * workflow from the template's `ci/ci.yml` to `.github/workflows/ci.yml`.
 * The template is a tree of entries, the target an abstract filesystem, and
 * the clock reading `generatedAt.toISOString()` a string parameter.
 */
module Generator {
  import opened Wrappers
  import opened Text
  import opened ServiceName
  import opened Classify
  import opened Entries
  import opened FileSystem
  import opened Copy

  /** Why `generateService` rejects its call. */
  datatype GenerateError =
    | InvalidName(message: string)       // from `validateServiceName`
    | TargetNotADirectory(target: Path)  // "Target path exists and is not a directory"
    | TargetNotEmpty(target: Path)       // "Target directory is not empty"
    | TemplateUnreadable(path: Path)     // reading the template fails
    | Io(error: IoError)                 // a filesystem call on the target fails

  const ServiceNameToken: string := "__SERVICE_NAME__"
  const PascalNameToken: string := "__SERVICE_NAME_PASCAL__"
  const GeneratedDateToken: string := "__GENERATED_DATE_ISO__"

  /** The template's CI workflow, relative to the template root. */
  const CiTemplatePath: Path := [CiEntryName, "ci.yml"]
  /** The directory of the CI workflow, relative to the target. */
  const WorkflowDirectory: Path := [".github", "workflows"]
  /** Where the CI workflow is written, relative to the target. */
  const CiOutputPath: Path := WorkflowDirectory + ["ci.yml"]

  /** The three replacements, in the order they are applied. */
  function Placeholders(serviceName: string, generatedAt: string): (r: seq<Placeholder>)
    ensures |r| == 3
    ensures r[0].token == ServiceNameToken && r[0].value == serviceName
    ensures r[1].token == PascalNameToken && r[1].value == ToPascalCase(serviceName)
    ensures r[2].token == GeneratedDateToken && r[2].value == generatedAt
  {
    [Placeholder(ServiceNameToken, serviceName),
     Placeholder(PascalNameToken, ToPascalCase(serviceName)),
     Placeholder(GeneratedDateToken, generatedAt)]
  }

  /** `options.outDir ?? path.join(process.cwd(), serviceName)` */
  function TargetDirectory(serviceName: string, outDir: Option<Path>, cwd: Path): Path {
    match outDir
    case Some(dir) => dir
    case None => cwd + [serviceName]
  }

  /** The node at `p` inside the template tree `node`. */
  function Lookup(node: Node, p: Path): Option<Node>
    decreases node
  {
    if p == [] then Some(node)
    else if !node.Directory? then None
    else match FindEntry(node.entries, p[0])
      case None => None
      case Some(e) =>
        assert e in node.entries;
        Lookup(e.node, p[1..])
  }

  /** `fs.readFile(p, "utf8")` on the template: the decoded file, or an error when `p` is not a regular file. */
  function ReadTemplateFile(template: Node, p: Path, decode: Decoder): (r: Result<string, GenerateError>)
    ensures r.Success? <==> Lookup(template, p).Some? && Lookup(template, p).value.File?
    ensures r.Success? ==> r.value == decode(Lookup(template, p).value.content)
  {
    match Lookup(template, p)
    case Some(File(content)) => Success(decode(content))
    case _ => Failure(TemplateUnreadable(p))
  }

  /** The target can be settled: it is an empty directory, or absent with no file in the way of creating it. */
  predicate Writable(fs: FsMap, target: Path) {
    if IsDirectory(fs, target) then ReadDir(fs, target) == {}
    else target !in fs && !BlockedAncestor(fs, target)
  }

  /** `ensureWritableEmptyDirectory(target)` */
  function PrepareTarget(fs: FsMap, target: Path): (r: Result<FsMap, GenerateError>)
    requires WellFormed(fs)
    ensures r.Success? ==> WellFormed(r.value) && IsDirectory(r.value, target)
  {
    match Status(fs, target)
    case Failure(err) => Failure(Io(err))
    case Success(None) =>
      (match WithDirectory(fs, target)
       case Success(created) => Success(created)
       case Failure(err) => Failure(Io(err)))
    case Success(Some(node)) =>
      if node != DirNode then Failure(TargetNotADirectory(target))
      else if ReadDir(fs, target) != {} then Failure(TargetNotEmpty(target))
      else Success(fs)
  }

  /** The result of a whole run: the filesystem it leaves, and the target or the error. */
  datatype Generation = Generation(fs: FsMap, result: Result<Path, GenerateError>)

  /** `generateService({ serviceName, outDir, generatedAt })` run from `cwd` with the template tree `template`. */
  function Generate(fs: FsMap, serviceName: string, outDir: Option<Path>, cwd: Path, generatedAt: string,
                    template: Node, decode: Decoder): Generation
    requires WellFormed(fs)
  {
    match ValidateServiceName(serviceName)
    case Fail(message) => Generation(fs, Failure(InvalidName(message)))
    case Pass =>
      var target := TargetDirectory(serviceName, outDir, cwd);
      match PrepareTarget(fs, target)
      case Failure(err) => Generation(fs, Failure(err))
      case Success(prepared) => Populate(prepared, target, Placeholders(serviceName, generatedAt), template, decode)
  }

  /** What `generateService` does once the target is settled: copy the template, then install the CI workflow. */
  function Populate(fs: FsMap, target: Path, placeholders: seq<Placeholder>, template: Node, decode: Decoder): Generation
    requires WellFormed(fs)
  {
    if !template.Directory? then Generation(fs, Failure(TemplateUnreadable([])))
    else
      var copied := CopyDirectory(fs, template, target, placeholders, 0, decode);
      if copied.failure.Some? then Generation(copied.fs, Failure(Io(copied.failure.value)))
      else
        match ReadTemplateFile(template, CiTemplatePath, decode)
        case Failure(err) => Generation(copied.fs, Failure(err))
        case Success(ci) => InstallWorkflow(copied.fs, target, Workflow(ci, placeholders))
  }

  /** The CI workflow a run writes: the template's `ci/ci.yml`, normalised, then with its placeholders replaced. */
  function Workflow(ci: string, placeholders: seq<Placeholder>): Data {
    Utf8(ApplyAll(NormalizeNewlines(ci), placeholders))
  }

  /** `mkdir(path.dirname(ciOutputPath), { recursive: true })`, then `writeFile(ciOutputPath, workflow)`. */
  function InstallWorkflow(fs: FsMap, target: Path, workflow: Data): (g: Generation)
    requires WellFormed(fs)
    ensures g.result.Success? ==> g.result.value == target && Get(g.fs, target + CiOutputPath) == Some(FileNode(workflow))
  {
    match WithDirectory(fs, target + WorkflowDirectory)
    case Failure(err) => Generation(fs, Failure(Io(err)))
    case Success(withDirectory) =>
      match WithFile(withDirectory, target + CiOutputPath, workflow)
      case Failure(err) => Generation(withDirectory, Failure(Io(err)))
      case Success(written) => Generation(written, Success(target))
  }

  // ---------------------------------------------------------------------------
  // Settling the target

  /**
   * `ensureWritableEmptyDirectory` succeeds exactly on a writable target. It
   * then leaves a directory with nothing inside, having at most created the
   * target and its missing ancestors; it fails without a change on a path
   * that is not a directory or on a directory with entries.
   */
  lemma PrepareTargetContract(fs: FsMap, target: Path)
    requires WellFormed(fs)
    ensures var r := PrepareTarget(fs, target);
      && (r.Success? <==> Writable(fs, target))
      && (target in fs && fs[target] != DirNode ==> r == Failure(TargetNotADirectory(target)))
      && (IsDirectory(fs, target) && ReadDir(fs, target) != {} ==> r == Failure(TargetNotEmpty(target)))
      && (IsDirectory(fs, target) ==> r.Success? ==> r.value == fs)
    ensures var r := PrepareTarget(fs, target);
      r.Success? ==>
        && WellFormed(r.value) && IsDirectory(r.value, target)
        && (forall q :: q in r.value ==> !Below(target, q))
        && Extends(fs, r.value)
        && (forall q :: q in r.value && q !in fs ==> r.value[q] == DirNode && (q == target || Below(q, target)))
  {
    var r := PrepareTarget(fs, target);
    if IsDirectory(fs, target) {
      if ReadDir(fs, target) == {} {
        forall q | q in fs
          ensures !Below(target, q)
        {
          if Below(target, q) {
            EmptyDirectoryHasNothingBelow(fs, target, q);
          }
        }
      }
    } else if target !in fs && !BlockedAncestor(fs, target) {
      forall q | q in r.value
        ensures !Below(target, q)
      {
        if q in fs && Below(target, q) {
          AncestorOfStoredNode(fs, target, q);
        }
      }
    }
  }

  // ---------------------------------------------------------------------------
  // A whole run

  /** An invalid name is refused before anything is touched. */
  lemma InvalidNameChangesNothing(fs: FsMap, serviceName: string, outDir: Option<Path>, cwd: Path,
                                  generatedAt: string, template: Node, decode: Decoder)
    requires WellFormed(fs) && !IsKebabCase(serviceName)
    ensures Generate(fs, serviceName, outDir, cwd, generatedAt, template, decode)
         == Generation(fs, Failure(InvalidName(InvalidNameMessage)))
  {
  }

  /** A target that is a file, or a directory with entries, is refused and nothing is written. */
  lemma OccupiedTargetChangesNothing(fs: FsMap, serviceName: string, outDir: Option<Path>, cwd: Path,
                                     generatedAt: string, template: Node, decode: Decoder)
    requires WellFormed(fs) && IsKebabCase(serviceName)
    ensures var target := TargetDirectory(serviceName, outDir, cwd);
      target in fs && fs[target] != DirNode ==>
        Generate(fs, serviceName, outDir, cwd, generatedAt, template, decode)
        == Generation(fs, Failure(TargetNotADirectory(target)))
    ensures var target := TargetDirectory(serviceName, outDir, cwd);
      IsDirectory(fs, target) && ReadDir(fs, target) != {} ==>
        Generate(fs, serviceName, outDir, cwd, generatedAt, template, decode)
        == Generation(fs, Failure(TargetNotEmpty(target)))
    ensures var target := TargetDirectory(serviceName, outDir, cwd);
      var g := Generate(fs, serviceName, outDir, cwd, generatedAt, template, decode);
      !Writable(fs, target) ==> g.fs == fs && g.result.Failure?
  {
    PrepareTargetContract(fs, TargetDirectory(serviceName, outDir, cwd));
  }

  /** Populating succeeds only from a template holding `ci/ci.yml`, and then leaves its transformed workflow in place. */
  lemma PopulateWritesWorkflow(fs: FsMap, target: Path, placeholders: seq<Placeholder>, template: Node, decode: Decoder)
    requires WellFormed(fs)
    ensures var g := Populate(fs, target, placeholders, template, decode);
      g.result.Success? ==>
        && g.result.value == target
        && Lookup(template, CiTemplatePath).Some? && Lookup(template, CiTemplatePath).value.File?
        && Get(g.fs, target + CiOutputPath)
           == Some(FileNode(Workflow(decode(Lookup(template, CiTemplatePath).value.content), placeholders)))
  {
  }

  /**
   * A run that succeeds had a valid name, returns its target, and leaves
   * the transformed CI workflow at `.github/workflows/ci.yml` inside it.
   */
  lemma SuccessWritesWorkflow(fs: FsMap, serviceName: string, outDir: Option<Path>, cwd: Path,
                              generatedAt: string, template: Node, decode: Decoder)
    requires WellFormed(fs)
    ensures var g := Generate(fs, serviceName, outDir, cwd, generatedAt, template, decode);
      var target := TargetDirectory(serviceName, outDir, cwd);
      g.result.Success? ==>
        && IsKebabCase(serviceName)
        && g.result.value == target
        && Lookup(template, CiTemplatePath).Some? && Lookup(template, CiTemplatePath).value.File?
        && Get(g.fs, target + CiOutputPath)
           == Some(FileNode(Workflow(decode(Lookup(template, CiTemplatePath).value.content),
                                     Placeholders(serviceName, generatedAt))))
  {
    var g := Generate(fs, serviceName, outDir, cwd, generatedAt, template, decode);
    var target := TargetDirectory(serviceName, outDir, cwd);
    var placeholders := Placeholders(serviceName, generatedAt);
    match ValidateServiceName(serviceName)
    case Fail(message) =>
      assert g.result == Failure(InvalidName(message));
    case Pass =>
      match PrepareTarget(fs, target)
      case Failure(err) =>
        assert g.result == Failure(err);
      case Success(prepared) =>
        assert g == Populate(prepared, target, placeholders, template, decode);
        PopulateWritesWorkflow(prepared, target, placeholders, template, decode);
  }

  /** Creating `.github/workflows` in a directory that holds no `.github` adds exactly those two directories. */
  lemma WorkflowDirectoryCreated(fs: FsMap, target: Path)
    requires WellFormed(fs) && IsDirectory(fs, target)
    requires forall q :: q in fs ==> q != target + [".github"] && !Below(target + [".github"], q)
    ensures WithDirectory(fs, target + WorkflowDirectory).Success?
    ensures forall p :: Get(WithDirectory(fs, target + WorkflowDirectory).value, p)
                        == if p == target + [".github"] || p == target + WorkflowDirectory then Some(DirNode)
                           else Get(fs, p)
  {
    var github := target + [".github"];
    var d := target + WorkflowDirectory;
    assert Parent(d) == github;
    assert d[..|target|] == target && github[..|target|] == target;
    assert d !in fs by {
      assert d[..|github|] == github;
    }
    assert !BlockedAncestor(fs, d) by {
      forall k | 0 < k < |d| && d[..k] in fs
        ensures fs[d[..k]] == DirNode
      {
        if k < |target| {
          assert d[..k] == target[..k];
          AncestorsOfDirectory(fs, target, k);
        } else if k == |target| {
          assert d[..k] == target;
        }
      }
    }
    var r := WithDirectory(fs, d).value;
    assert github in r && r[github] == DirNode;
    forall p | p in r && p !in fs
      ensures p == github || p == d
    {
      if p != d {
        assert Below(p, d);
        if |p| <= |target| {
          assert p == target[..|p|];
          AncestorsOfDirectory(fs, target, |p|);
        } else {
          assert p == d[..|p|];
          assert p == github;
        }
      }
    }
  }

  /** A path relative to `target`, as seen from below it. */
  lemma RelativePath(target: Path, p: Path, rel: Path)
    requires Below(target, p)
    ensures p == target + rel <==> p[|target|..] == rel
  {
    if p[|target|..] == rel {
      assert p == p[..|target|] + p[|target|..];
    }
  }

  /** What a successful run leaves at the path `rel` inside the target. */
  function Produced(template: Node, placeholders: seq<Placeholder>, ci: string, decode: Decoder, rel: Path): Option<FsNode>
    requires template.Directory?
  {
    if rel == [".github"] || rel == WorkflowDirectory then Some(DirNode)
    else if rel == CiOutputPath then Some(FileNode(Workflow(ci, placeholders)))
    else Expected(template, 0, rel, placeholders, decode)
  }

  /** The template has nothing named `.github`: its root `ci` entry is the only source of the workflow. */
  predicate WorkflowFree(template: Node)
    requires template.Directory?
  {
    FindEntry(template.entries, ".github").None?
  }

  /** The template yields nothing at `.github` or below it. */
  lemma ExpectedWorkflowFree(template: Node, rel: Path, placeholders: seq<Placeholder>, decode: Decoder)
    requires template.Directory? && WorkflowFree(template) && |rel| > 0 && rel[0] == ".github"
    ensures Expected(template, 0, rel, placeholders, decode) == None
  {
  }

  /**
   * Installing the workflow into a directory holding no `.github` succeeds
   * and adds exactly `.github`, `.github/workflows` and the workflow file.
   */
  lemma InstallWorkflowInto(fs: FsMap, target: Path, workflow: Data)
    requires WellFormed(fs) && IsDirectory(fs, target)
    requires forall q :: q == target + [".github"] || Below(target + [".github"], q) ==> q !in fs
    ensures var g := InstallWorkflow(fs, target, workflow);
      && g.result == Success(target)
      && forall p ::
           Get(g.fs, p) ==
             if p == target + CiOutputPath then Some(FileNode(workflow))
             else if p == target + [".github"] || p == target + WorkflowDirectory then Some(DirNode)
             else Get(fs, p)
  {
    var ciPath := target + CiOutputPath;
    WorkflowDirectoryCreated(fs, target);
    var withDirectory := WithDirectory(fs, target + WorkflowDirectory).value;
    assert ciPath[..|target| + 1] == target + [".github"];
    assert Get(withDirectory, ciPath) == Get(fs, ciPath) == None;
    assert Parent(ciPath) == target + WorkflowDirectory;
    var written := withDirectory[ciPath := FileNode(workflow)];
    assert InstallWorkflow(fs, target, workflow) == Generation(written, Success(target));
    assert ciPath != target + [".github"] && ciPath != target + WorkflowDirectory;
    forall p
      ensures Get(written, p) ==
        if p == ciPath then Some(FileNode(workflow))
        else if p == target + [".github"] || p == target + WorkflowDirectory then Some(DirNode)
        else Get(fs, p)
    {
      if p != ciPath {
        assert Get(written, p) == Get(withDirectory, p);
      }
    }
  }

  /**
   * Populating an empty target directory from a well-formed template
   * succeeds; inside the target it leaves exactly the copied template plus
   * `.github/workflows/ci.yml`, and it changes nothing outside the target.
   */
  lemma {:induction false} PopulateEmptyTarget(fs: FsMap, target: Path, placeholders: seq<Placeholder>,
                                               template: Node, decode: Decoder, content: seq<byte>)
    requires WellFormed(fs) && IsDirectory(fs, target) && forall q :: q in fs ==> !Below(target, q)
    requires template.Directory? && DistinctTree(template) && WorkflowFree(template)
    requires Lookup(template, CiTemplatePath) == Some(File(content))
    ensures var g := Populate(fs, target, placeholders, template, decode);
      && g.result == Success(target)
      && forall p ::
           Get(g.fs, p) ==
             if Below(target, p) then Produced(template, placeholders, decode(content), decode, p[|target|..])
             else Get(fs, p)
  {
    var github := target + [".github"];
    CopyDirectoryEffect(fs, template, target, placeholders, 0, decode);
    var copied := CopyDirectory(fs, template, target, placeholders, 0, decode);
    assert Get(copied.fs, target) == Get(fs, target);
    forall q | q == github || Below(github, q)
      ensures q !in copied.fs
    {
      BelowChild(target, ".github", q);
      ExpectedWorkflowFree(template, q[|target|..], placeholders, decode);
      assert Get(copied.fs, q) == None;
    }
    var workflow := Workflow(decode(content), placeholders);
    InstallWorkflowInto(copied.fs, target, workflow);
    assert Populate(fs, target, placeholders, template, decode) == InstallWorkflow(copied.fs, target, workflow);
    PopulatedLayout(fs, copied.fs, InstallWorkflow(copied.fs, target, workflow).fs, target, template,
                    placeholders, decode(content), decode);
  }

  /** The layout after populating, assembled from the copy and the two workflow steps. */
  lemma PopulatedLayout(fs: FsMap, copied: FsMap, written: FsMap, target: Path,
                        template: Node, placeholders: seq<Placeholder>, ci: string, decode: Decoder)
    requires template.Directory?
    requires DirectoryPlaced(fs, copied, target, template, 0, placeholders, decode)
    requires forall p ::
               Get(written, p) ==
                 if p == target + CiOutputPath then Some(FileNode(Workflow(ci, placeholders)))
                 else if p == target + [".github"] || p == target + WorkflowDirectory then Some(DirNode)
                 else Get(copied, p)
    ensures forall p ::
              Get(written, p) ==
                if Below(target, p) then Produced(template, placeholders, ci, decode, p[|target|..]) else Get(fs, p)
  {
    forall p
      ensures Get(written, p) ==
        if Below(target, p) then Produced(template, placeholders, ci, decode, p[|target|..]) else Get(fs, p)
    {
      if Below(target, p) {
        RelativePath(target, p, [".github"]);
        RelativePath(target, p, WorkflowDirectory);
        RelativePath(target, p, CiOutputPath);
      } else {
        assert p != target + [".github"] && p != target + WorkflowDirectory && p != target + CiOutputPath;
      }
    }
  }

  /**
   * A run with a valid name, a writable target and a well-formed template
   * holding `ci/ci.yml` succeeds. Inside the target it leaves exactly the
   * copied template and the transformed workflow; outside, it changes
   * nothing but creating the target and its missing ancestors.
   */
  lemma GenerateSucceeds(fs: FsMap, serviceName: string, outDir: Option<Path>, cwd: Path,
                         generatedAt: string, template: Node, decode: Decoder, content: seq<byte>)
    requires WellFormed(fs) && IsKebabCase(serviceName) && Writable(fs, TargetDirectory(serviceName, outDir, cwd))
    requires template.Directory? && DistinctTree(template) && WorkflowFree(template)
    requires Lookup(template, CiTemplatePath) == Some(File(content))
    ensures var g := Generate(fs, serviceName, outDir, cwd, generatedAt, template, decode);
      var target := TargetDirectory(serviceName, outDir, cwd);
      && g.result == Success(target)
      && IsDirectory(g.fs, target)
      && (forall p :: Below(target, p) ==>
            Get(g.fs, p) == Produced(template, Placeholders(serviceName, generatedAt), decode(content), decode, p[|target|..]))
      && (forall p :: !Below(target, p) && p != target && !Below(p, target) ==> Get(g.fs, p) == Get(fs, p))
      && (forall p :: Below(p, target) ==>
            (p in fs ==> Get(g.fs, p) == Get(fs, p)) && (p in g.fs ==> g.fs[p] == DirNode))
  {
    var target := TargetDirectory(serviceName, outDir, cwd);
    var placeholders := Placeholders(serviceName, generatedAt);
    var prepared := GenerateOnWritableTarget(fs, serviceName, outDir, cwd, generatedAt, template, decode);
    PreparedTarget(fs, target);
    PopulateEmptyTarget(prepared, target, placeholders, template, decode, content);
    var g := Generate(fs, serviceName, outDir, cwd, generatedAt, template, decode);
    assert Get(g.fs, target) == Get(prepared, target);
    OutsideTargetKept(fs, prepared, g.fs, target);
  }

  /**
   * When a settled target's filesystem is changed only inside the target,
   * outside it everything is as before the run, and of the target's
   * ancestors an existing one is kept and any stored one is a directory.
   */
  lemma OutsideTargetKept(fs: FsMap, prepared: FsMap, result: FsMap, target: Path)
    requires forall p :: p != target && !Below(p, target) ==> Get(prepared, p) == Get(fs, p)
    requires forall p :: Below(p, target) ==>
               (p in fs ==> Get(prepared, p) == Get(fs, p)) && (p in prepared ==> prepared[p] == DirNode)
    requires forall p :: !Below(target, p) ==> Get(result, p) == Get(prepared, p)
    ensures forall p :: !Below(target, p) && p != target && !Below(p, target) ==> Get(result, p) == Get(fs, p)
    ensures forall p :: Below(p, target) ==>
              (p in fs ==> Get(result, p) == Get(fs, p)) && (p in result ==> result[p] == DirNode)
  {
    forall p | Below(p, target)
      ensures !Below(target, p)
    {
    }
  }

  /** With a valid name and a writable target, a run settles the target and goes on to populate it. */
  lemma GenerateOnWritableTarget(fs: FsMap, serviceName: string, outDir: Option<Path>, cwd: Path,
                                 generatedAt: string, template: Node, decode: Decoder)
    returns (prepared: FsMap)
    requires WellFormed(fs) && IsKebabCase(serviceName) && Writable(fs, TargetDirectory(serviceName, outDir, cwd))
    ensures var target := TargetDirectory(serviceName, outDir, cwd);
      && PrepareTarget(fs, target) == Success(prepared)
      && Generate(fs, serviceName, outDir, cwd, generatedAt, template, decode)
         == Populate(prepared, target, Placeholders(serviceName, generatedAt), template, decode)
  {
    var target := TargetDirectory(serviceName, outDir, cwd);
    assert ValidateServiceName(serviceName) == Pass;
    PrepareTargetContract(fs, target);
    prepared := PrepareTarget(fs, target).value;
  }

  /**
   * A settled target is an empty directory; nothing but it and its ancestors
   * changed, and of those an existing one is kept and any stored one is a
   * directory.
   */
  lemma PreparedTarget(fs: FsMap, target: Path)
    requires WellFormed(fs) && PrepareTarget(fs, target).Success?
    ensures var prepared := PrepareTarget(fs, target).value;
      && WellFormed(prepared) && IsDirectory(prepared, target)
      && (forall q :: q in prepared ==> !Below(target, q))
      && (forall p :: p != target && !Below(p, target) ==> Get(prepared, p) == Get(fs, p))
      && (forall p :: Below(p, target) ==>
            (p in fs ==> Get(prepared, p) == Get(fs, p)) && (p in prepared ==> prepared[p] == DirNode))
  {
    PrepareTargetContract(fs, target);
    var prepared := PrepareTarget(fs, target).value;
    forall p | Below(p, target) && p in prepared
      ensures prepared[p] == DirNode
    {
      AncestorsOfDirectory(prepared, target, |p|);
    }
  }

  // ---------------------------------------------------------------------------
  // The run as methods on the disk

  /** `ensureWritableEmptyDirectory`: stat the target, create it when absent, refuse a file or a directory with entries. */
  method EnsureWritableEmptyDirectory(disk: Disk, target: Path) returns (error: Option<GenerateError>)
    requires disk.Valid()
    modifies disk
    ensures disk.Valid()
    ensures match PrepareTarget(old(disk.nodes), target)
      case Success(next) => disk.nodes == next && error == None
      case Failure(err) => disk.nodes == old(disk.nodes) && error == Some(err)
  {
    var existing := disk.Stat(target);
    if existing.Failure? {
      return Some(Io(existing.error));
    }
    if existing.value.None? {
      var failure := disk.Mkdir(target);
      if failure.Some? {
        return Some(Io(failure.value));
      }
      return None;
    }
    if existing.value.value != DirNode {
      return Some(TargetNotADirectory(target));
    }
    var entries := disk.ReadDirectory(target);
    if entries != {} {
      return Some(TargetNotEmpty(target));
    }
    return None;
  }

  /** `generateService`: validate, settle the target, copy the template, then write the CI workflow. */
  method GenerateService(disk: Disk, serviceName: string, outDir: Option<Path>, cwd: Path, generatedAt: string,
                         template: Node, decode: Decoder)
    returns (result: Result<Path, GenerateError>)
    requires disk.Valid()
    modifies disk
    ensures disk.Valid()
    ensures Generation(disk.nodes, result) == Generate(old(disk.nodes), serviceName, outDir, cwd, generatedAt, template, decode)
  {
    var validation := ValidateServiceName(serviceName);
    if validation.Fail? {
      return Failure(InvalidName(validation.error));
    }
    var target := TargetDirectory(serviceName, outDir, cwd);
    var error := EnsureWritableEmptyDirectory(disk, target);
    if error.Some? {
      return Failure(error.value);
    }
    var placeholders := Placeholders(serviceName, generatedAt);
    if !template.Directory? {
      return Failure(TemplateUnreadable([]));
    }
    var failure := CopyDirectoryWithReplacement(disk, template, target, placeholders, 0, decode);
    if failure.Some? {
      return Failure(Io(failure.value));
    }
    var ci := ReadTemplateFile(template, CiTemplatePath, decode);
    if ci.Failure? {
      return Failure(ci.error);
    }
    var ciOutputPath := target + CiOutputPath;
    failure := disk.Mkdir(target + WorkflowDirectory);
    if failure.Some? {
      return Failure(Io(failure.value));
    }
    var normalized := NormalizeNewlines(ci.value);
    var transformed := ApplyPlaceholders(normalized, placeholders);
    failure := disk.WriteFile(ciOutputPath, Utf8(transformed));
    if failure.Some? {
      return Failure(Io(failure.value));
    }
    return Success(target);
  }
}
