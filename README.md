# Service generator template engine, modelled in Dafny

This project models the template-materialisation engine of a service
scaffolding tool (`src/generators/service-generator.ts`). Given a service
name, the engine does the following:

- validates the name as kebab-case;
- settles an empty target directory;
- walks a fixed template tree in name order:
  - the `ci` subtree of the root and excluded directories (`.git`, `node_modules`, …) are passed over;
  - each regular file is copied byte for byte when it is binary;
  - a text file is read as text, has its CRLF line endings normalised and its three placeholders replaced;
- writes the template's `ci/ci.yml`, transformed the same way, to `.github/workflows/ci.yml`.

The modules follow the pieces of that file:

| file | module | what it holds |
|---|---|---|
| `wrappers.dfy` | `Wrappers` | `Option`, `Result` and `Outcome` values for a throw-or-return API |
| `chars.dfy` | `Chars` | character classes of the name pattern, ASCII case mapping |
| `text.dfy` | `Text` | `split(token).join(value)` as `ReplaceAll`, tied to a left-to-right scan; `normalizeNewlines`; `applyPlaceholders` as a loop over the passes |
| `service_name.dfy` | `ServiceName` | `validateServiceName`: a declarative grammar and a matching automaton; `toPascalCase` with an independent character scan |
| `classify.dfy` | `Classify` | `path.extname`, `BINARY_EXTENSIONS`, the 8000-byte sample, `isTextFile` as an index loop with early return |
| `entries.dfy` | `Entries` | the template tree (`Directory`, `File`, `Other`), `compareNames`, sorting a listing, `shouldSkipDirectory` |
| `filesystem.dfy` | `FileSystem` | the target filesystem as a map from paths to nodes, with `stat`, recursive `mkdir`, `readdir` and `writeFile`/`copyFile` as functions; a `Disk` class holding the mutable state |
| `copy.dfy` | `Copy` | `copyDirectoryWithReplacement` and `copyFileWithReplacement`, as specification functions and as methods that take the `Disk` |
| `generator.dfy` | `Generator` | `ensureWritableEmptyDirectory` and `generateService`, as functions and as methods, with the end-to-end theorems |

Each operation that changes state is a method: `Disk.Mkdir` and `Disk.WriteFile`
belong to the class, and the copy and run methods of `Copy` and `Generator` take
the `Disk` as an argument. Each postcondition ties
the new state and the result to a function of the old state (`CopyDirectory`,
`PrepareTarget`, `Generate`). The properties are then proved about those functions.

The central results are the following:

- `Copy.CopyDirectoryEffect` covers copying a template whose directories repeat no name (`DistinctTree`) into a directory with nothing inside it:
  - the copy never fails;
  - it changes nothing outside the target;
  - below the target, the node at each relative path is exactly `Expected`. This is a declarative description of the template: the entry with that name, unless it is skipped.
- `Generator.GenerateSucceeds` covers a run with a valid name and a writable target, from a template that meets three conditions: no directory of it lists a name twice (`DistinctTree`), its root has no `.github` entry (`WorkflowFree`), and `ci/ci.yml` in it is a regular file. It states:
  - the run returns the target;
  - inside the target it leaves exactly the copied template plus the transformed workflow;
  - away from the target and its ancestors it changes nothing;
  - of the target's ancestors, one that existed is kept as it was, and every one stored afterwards is a directory, so a run only creates the missing ones.

## Model

| member | source | states |
|---|---|---|
| ServiceName.MatchesPattern | src/generators/service-generator.ts:10 | `SERVICE_NAME_PATTERN.test(name)`: a three-state automaton run over the name that accepts when it ends inside a word; its meaning is stated by `PatternIsKebabCase` |
| ServiceName.PatternIsKebabCase | src/generators/service-generator.ts:10 | the automaton for `^[a-z][a-z0-9]*(?:-[a-z0-9]+)*$` accepts a string exactly when it starts with a lower-case letter, uses only `[a-z0-9-]`, and has a `[a-z0-9]` after every hyphen |
| ServiceName.RunFromWord | src/generators/service-generator.ts:10 | from inside a word, the automaton accepts exactly the well-hyphenated strings |
| ServiceName.KebabCaseRules | src/generators/service-generator.ts:10 | an accepted name is non-empty; it has no leading digit or hyphen, no trailing hyphen, no `--`, no upper-case letter and no `_` |
| ServiceName.ValidateServiceName | src/generators/service-generator.ts:34-40 | passes exactly the kebab-case names; otherwise fails with the source's exact message |
| ServiceName.AcceptedNameExamples | src/generators/service-generator.ts:34-40 | `payments-api` and `a` are accepted |
| ServiceName.RejectedNameExamples | src/generators/service-generator.ts:34-40 | the empty string, `1api`, `-api`, `api-`, `a--b`, `Api` and `a_b` are rejected |
| ServiceName.NonEmptySegments | src/generators/service-generator.ts:158 | `.filter((segment) => segment.length > 0)`: the segments in order without the empty ones, every one kept non-empty |
| ServiceName.Capitalize | src/generators/service-generator.ts:159 | `segment[0].toUpperCase() + segment.slice(1)` on a non-empty segment |
| ServiceName.CapitalizeAll | src/generators/service-generator.ts:159 | the `.map` of `Capitalize` over the non-empty segments, one result per segment |
| ServiceName.ToPascalCase | src/generators/service-generator.ts:155-161 | split on `-`, drop empty segments, upper-case each segment's first character, join with nothing; pinned to a character scan by `PascalCaseIsScan` |
| ServiceName.FilterMapJoin | src/generators/service-generator.ts:156-160 | filter-empty, capitalise and join equals concatenating each segment's contribution, where an empty segment contributes nothing |
| ServiceName.ScanFollowsSegments | src/generators/service-generator.ts:156-160 | the character scan gives the same result as split-filter-map-join |
| ServiceName.PascalCaseIsScan | src/generators/service-generator.ts:155-161 | `toPascalCase` equals the character scan, which upper-cases the first character after the start or a hyphen and drops hyphens |
| ServiceName.ScanDropsHyphens | src/generators/service-generator.ts:155-161 | the scan output has no hyphen; its length is the input length minus the number of hyphens |
| ServiceName.PascalCaseLength | src/generators/service-generator.ts:155-161 | the result has no `-`, and its length is the input length minus the number of hyphens |
| ServiceName.PascalCaseStartsUpper | src/generators/service-generator.ts:155-161 | for a valid name the result is non-empty and starts with an upper-case letter |
| ServiceName.ScanSegment | src/generators/service-generator.ts:159 | on a hyphen-free segment the scan upper-cases the first character and keeps the rest |
| ServiceName.ScanAppend | src/generators/service-generator.ts:156-160 | the scan of `x-y`, with `x` hyphen-free, is the scan of `x` followed by the scan of `y` from a segment start |
| ServiceName.PascalCaseAppend | src/generators/service-generator.ts:156-160 | `toPascalCase(x + "-" + y)` is the capitalised `x` followed by `toPascalCase(y)` |
| ServiceName.PascalCaseSingleSegment | src/generators/service-generator.ts:159 | a hyphen-free value has only its first character upper-cased |
| ServiceName.PascalCaseOfTwoWords | src/generators/service-generator.ts:155-161 | two hyphen-free segments joined by `-` become both segments capitalised, concatenated |
| ServiceName.PascalCaseOfTwoSegments | src/generators/service-generator.ts:155-161 | `payments-api` becomes `PaymentsApi` |
| ServiceName.PascalCaseOfEmptySegment | src/generators/service-generator.ts:158 | `a--b` becomes `AB`: the empty segment contributes nothing |
| ServiceName.PascalCaseExamples | src/generators/service-generator.ts:155-161 | `payments-api` → `PaymentsApi`, `a` → `A`, `a--b` → `AB` |
| Text.Split | src/generators/service-generator.ts:146 | `s.split(sep)`: the pieces between the non-overlapping occurrences of a non-empty `sep` found left to right, always at least one piece; an empty `sep` cuts between characters |
| Text.Join | src/generators/service-generator.ts:146 | `parts.join(sep)`: the parts with `sep` between neighbours, empty for no parts |
| Text.ReplaceAll | src/generators/service-generator.ts:146 | one `split(token).join(value)` pass; equal to the scan `Substitute` by `ReplaceAllIsSubstitute` |
| Text.ReplaceAllIsSubstitute | src/generators/service-generator.ts:146 | `split(token).join(value)` equals a left-to-right scan that replaces each non-overlapping occurrence |
| Text.SubstituteWithoutToken | src/generators/service-generator.ts:146 | the scan leaves a string without the token unchanged |
| Text.SubstituteSkipsValue | src/generators/service-generator.ts:146 | after the first occurrence is replaced, scanning resumes after it, so the inserted value is not rescanned |
| Text.SubstituteSelf | src/generators/service-generator.ts:146 | replacing a token by itself changes nothing |
| Text.SubstituteLength | src/generators/service-generator.ts:146 | the length changes by `|value| - |token|` per occurrence |
| Text.SplitJoinRoundTrip | src/generators/service-generator.ts:146 | joining the split parts with the token gives back the string |
| Text.ReplaceAllWithoutToken | src/generators/service-generator.ts:146 | one pass leaves content without the token unchanged |
| Text.ReplaceAllSkipsValue | src/generators/service-generator.ts:146 | one pass does not rescan the value it inserted |
| Text.ReplaceAllLength | src/generators/service-generator.ts:146 | one pass changes the length by `|value| - |token|` per non-overlapping occurrence |
| Text.JoinCons | src/generators/service-generator.ts:146 | joining `[x] + rest` gives `x`, the separator, then the join of `rest` |
| Text.CrlfAtStart | src/generators/service-generator.ts:152 | `\r\n` occurs at the start exactly when the first two characters are CR then LF |
| Text.NormalizeNewlines | src/generators/service-generator.ts:151-153 | `content.replace(/\r\n/g, "\n")`: one left-to-right pass turning each `\r\n` into `\n`; its properties are the `Normalize…` lemmas below |
| Text.NormalizeIsSubstitute | src/generators/service-generator.ts:151-153 | `normalizeNewlines` is the left-to-right replacement of `\r\n` by `\n` |
| Text.NormalizeIsReplaceAll | src/generators/service-generator.ts:151-153 | `normalizeNewlines` is one `split("\r\n").join("\n")` pass |
| Text.NormalizeWithoutCrlf | src/generators/service-generator.ts:151-153 | a string without `\r\n` is unchanged |
| Text.NormalizeLength | src/generators/service-generator.ts:151-153 | the result is shorter by exactly the number of non-overlapping `\r\n` occurrences |
| Text.NormalizeCountsCharacters | src/generators/service-generator.ts:151-153 | the number of CRs drops by that count, and the number of LFs is unchanged, so no CR is introduced |
| Text.NormalizeNotIdempotent | src/generators/service-generator.ts:151-153 | `\r\r\n` becomes `\r\n` and only a second pass gives `\n` |
| Text.ApplyAll | src/generators/service-generator.ts:140-149 | the left fold of one `ReplaceAll` pass per placeholder, in list order, each over the previous output |
| Text.ApplyPlaceholders | src/generators/service-generator.ts:140-149 | the loop computes the left fold of one replace-all pass per placeholder, in list order |
| Text.ApplyAllFirstPass | src/generators/service-generator.ts:145-147 | the first placeholder's pass runs first, and the rest run over its output |
| Text.ApplyAllWithoutTokens | src/generators/service-generator.ts:140-149 | content holding none of the tokens is returned unchanged |
| Text.LaterPassSeesEarlierValue | src/generators/service-generator.ts:145-147 | a later pass does rescan an earlier pass's value: `A` with `A→B`, then `B→C`, gives `C` |
| Chars.ToUpper | src/generators/service-generator.ts:159 | maps `a`–`z` to `A`–`Z` and leaves every other character alone |
| Chars.ToLower | src/generators/service-generator.ts:174 | maps `A`–`Z` to `a`–`z` and leaves every other character alone |
| Chars.LowerString | src/generators/service-generator.ts:174 | the result has the same length, with each character lower-cased |
| Chars.LowerStringIdempotent | src/generators/service-generator.ts:174 | lower-casing twice is lower-casing once |
| Classify.LastDot | src/generators/service-generator.ts:178 | gives the index of the last `.`, or -1 |
| Classify.ExtName | src/generators/service-generator.ts:178 | the extension is a suffix starting with the last `.`; it is empty exactly when there is no dot after the first character |
| Classify.ExtNameOfSuffix | src/generators/service-generator.ts:178 | a non-empty stem followed by `.ext` has extension `.ext` |
| Classify.SampleLength | src/generators/service-generator.ts:183 | `min(length, 8000)` |
| Classify.HasBinaryExtension | src/generators/service-generator.ts:178-179 | the lower-cased `path.extname` of the name is one of the listed binary extensions |
| Classify.IsText | src/generators/service-generator.ts:177-191 | the classification `isTextFile` returns: no listed extension and no zero byte among the first `min(length, 8000)` bytes; the loop `IsTextFile` is proved to compute it |
| Classify.IsTextFile | src/generators/service-generator.ts:177-191 | returns text exactly when the lower-cased extension is not listed and no byte below `min(length, 8000)` is zero |
| Classify.SampleDecides | src/generators/service-generator.ts:183-188 | two contents with the same sample are classified alike |
| Classify.ZeroBeyondSampleIgnored | src/generators/service-generator.ts:183-188 | a zero byte at index 8000 or beyond does not change the classification |
| Classify.ListedExtensionIsBinary | src/generators/service-generator.ts:178-181 | a file whose last extension, lower-cased, is a listed binary extension is copied as bytes whatever it holds |
| Classify.BinaryExtensionExamples | src/generators/service-generator.ts:178-181 | `logo.PNG` is binary whatever it holds, and so is `app.tar.GZ`: only the last extension counts, in any letter case |
| Classify.TextFileExamples | src/generators/service-generator.ts:177-191 | `index.ts` holding `hi` is text; holding `h\0i` it is binary |
| Classify.HiddenFileHasNoExtension | src/generators/service-generator.ts:178 | `.png` has no extension, so it is classified by its content |
| Entries.Less | src/generators/service-generator.ts:164-169 | JavaScript's `left < right` on strings: the first differing character decides, and a proper prefix comes first; proved a strict total order by the lemmas below |
| Entries.LessIrreflexive | src/generators/service-generator.ts:164-169 | no string is less than itself |
| Entries.LessAsymmetric | src/generators/service-generator.ts:164-169 | `a < b` excludes `b < a` |
| Entries.LessTransitive | src/generators/service-generator.ts:164-169 | string order is transitive |
| Entries.LessTotal | src/generators/service-generator.ts:164-169 | of two different strings, one is less |
| Entries.LessTrichotomy | src/generators/service-generator.ts:164-169 | exactly one of less, equal, greater holds |
| Entries.CompareNames | src/generators/service-generator.ts:163-171 | -1 exactly when left < right, 1 exactly when right < left, 0 exactly when they are equal |
| Entries.CompareNamesAntisymmetric | src/generators/service-generator.ts:163-171 | `compareNames(a, b) == -compareNames(b, a)` |
| Entries.CompareNamesTransitive | src/generators/service-generator.ts:163-171 | the comparator is transitive |
| Entries.SortByName | src/generators/service-generator.ts:97 | `entries.sort` with `compareNames`, as an insertion sort; `SortByNameSorts` proves it a permutation into strictly ascending name order |
| Entries.Insert | src/generators/service-generator.ts:97 | one insertion step of the sort: `e` goes before the first entry the comparator puts after it; its properties are the `Insert…` lemmas below |
| Entries.InsertPermutes | src/generators/service-generator.ts:97 | one insertion step adds exactly the inserted entry |
| Entries.InsertMembers | src/generators/service-generator.ts:97 | the entries after one insertion step are the inserted entry and the old ones |
| Entries.SortByNameMembers | src/generators/service-generator.ts:97 | the sorted listing holds exactly the entries of the original one |
| Entries.InsertKeepsOrder | src/generators/service-generator.ts:97 | inserting a new name into an ascending listing keeps it ascending |
| Entries.SortByNamePermutes | src/generators/service-generator.ts:97 | sorting a listing permutes it |
| Entries.SortByNameSorts | src/generators/service-generator.ts:97 | a listing with distinct names is sorted into strictly ascending name order, as a permutation |
| Entries.AscendingHasDistinctNames | src/generators/service-generator.ts:97 | a strictly ascending listing has distinct names |
| Entries.FindEntry | src/generators/service-generator.ts:108 | finds an entry with that name in the listing, or reports that none has it |
| Entries.DistinctTail | src/generators/service-generator.ts:96-99 | the rest of a listing with distinct names has distinct names and does not hold the first entry's name |
| Entries.FindEntryInAnyOrder | src/generators/service-generator.ts:96-97 | with distinct names, the entry found does not depend on the listing order |
| Entries.ShouldSkipDirectory | src/generators/service-generator.ts:173-175 | `SKIP_DIRECTORIES.has(name.toLowerCase())` over the six names of line 13 |
| Entries.SkipIgnoresCase | src/generators/service-generator.ts:173-175 | a name is excluded exactly when its lower-cased form is |
| Entries.SkipsAnyLetterCase | src/generators/service-generator.ts:173-175 | `Node_Modules` and `.GIT` are excluded |
| Entries.KeepsOrdinaryDirectories | src/generators/service-generator.ts:13 | `src` and `ci` are not excluded |
| FileSystem.AddUnderDirectory | src/generators/service-generator.ts:137 | adding a node under an existing directory keeps every node under a directory |
| FileSystem.AddDirectories | src/generators/service-generator.ts:76 | the state `mkdir(path, { recursive: true })` leaves (here and for each template directory at line 112): the path and each missing ancestor added as directories; `AddDirectoriesOnlyAdds` and `AddDirectoriesCreates` state its effect |
| FileSystem.AddDirectoriesOnlyAdds | src/generators/service-generator.ts:112 | creating a path and its missing ancestors keeps every old node and adds only directories on the way to the path |
| FileSystem.AddDirectoriesCreates | src/generators/service-generator.ts:112 | with no file in the way, creating a path and its missing ancestors keeps the filesystem well formed and makes the path a directory |
| FileSystem.ParentNotBlocked | src/generators/service-generator.ts:112 | when no proper ancestor of a path is a file, none of its parent's is and the parent is a directory or absent |
| FileSystem.Status | src/generators/service-generator.ts:68-73 | `fs.stat`: the node at the path, `None` for ENOENT, and ENOTDIR when a proper ancestor is not a directory |
| FileSystem.ReadDir | src/generators/service-generator.ts:84 | `fs.readdir(dir)`: a name is listed exactly when `dir` joined with it is stored |
| FileSystem.WithDirectory | src/generators/service-generator.ts:112 | recursive `mkdir` fails exactly when an ancestor or the path itself is not a directory; on success the path is a directory, nothing is lost, and only its ancestors or itself are added |
| FileSystem.WithFile | src/generators/service-generator.ts:137 | writing succeeds exactly when the parent is a directory and the path is not one; on success just that path is set |
| FileSystem.WithNewDirectory | src/generators/service-generator.ts:112 | `mkdir` of an absent path under a directory adds exactly that directory |
| FileSystem.AncestorsOfDirectory | src/generators/service-generator.ts:112 | every non-empty prefix of a directory is a stored directory |
| FileSystem.NotBlockedBelowDirectory | src/generators/service-generator.ts:112 | a path whose parent is a directory has no non-directory ancestor, so `mkdir` cannot fail with ENOTDIR |
| FileSystem.AddExistingDirectory | src/generators/service-generator.ts:112 | `mkdir` with `recursive: true` of an existing directory changes nothing |
| FileSystem.EmptyDirectoryHasNothingBelow | src/generators/service-generator.ts:84-87 | a directory with anything inside it lists at least one entry |
| FileSystem.AncestorOfStoredNode | src/generators/service-generator.ts:68-75 | anything stored inside a path makes that path a directory |
| FileSystem.Disk.Stat | src/generators/service-generator.ts:68 | reports the node, its absence, or the `ENOTDIR` failure |
| FileSystem.Disk.ReadDirectory | src/generators/service-generator.ts:84 | lists the names directly inside the directory |
| FileSystem.Disk.Mkdir | src/generators/service-generator.ts:112 | applies recursive `mkdir` to the state, or reports its failure and changes nothing |
| FileSystem.Disk.WriteFile | src/generators/service-generator.ts:137 | applies the write to the state, or reports its failure and changes nothing |
| Copy.Skipped | src/generators/service-generator.ts:100-106 | the walk creates nothing for the root's `ci` entry or for a directory whose name is excluded, whatever letter case; used by both the walk and its description `Expected` |
| Copy.Materialized | src/generators/service-generator.ts:128-137 | what a file copy writes: the bytes as they are when the file is binary, otherwise the decoded text with CRLF normalised and the placeholders applied |
| Copy.CopyFile | src/generators/service-generator.ts:123-138 | `copyFileWithReplacement`: writes `Materialized` at the target path, failing as `writeFile` does |
| Copy.CopyDirectory | src/generators/service-generator.ts:90-121 | the walk keeps the filesystem well formed |
| Copy.CopyEntries | src/generators/service-generator.ts:99-120 | the loop over a listing keeps the filesystem well formed |
| Copy.CopyEntry | src/generators/service-generator.ts:100-119 | one iteration keeps the filesystem well formed |
| Copy.CopyEntriesStep | src/generators/service-generator.ts:99-120 | the loop copies the first entry, then continues only if that did not fail |
| Copy.TopLevelCiSkipped | src/generators/service-generator.ts:100-102 | the template root's `ci` yields nothing, nor does anything inside it |
| Copy.NestedCiFileCopied | src/generators/service-generator.ts:100-102 | a file named `ci` below the root is copied |
| Copy.FileCopied | src/generators/service-generator.ts:117-119 | a regular file is copied whatever its name, including an excluded directory name, unless it is the root's `ci`; nothing lies below it |
| Copy.ExcludedDirectorySkipped | src/generators/service-generator.ts:104-106 | an excluded directory yields nothing, nor does anything inside it |
| Copy.DirectoryEntered | src/generators/service-generator.ts:111-115 | any other directory is created, and its contents are copied one level deeper |
| Copy.OtherEntryIgnored | src/generators/service-generator.ts:111-120 | an entry that is neither a directory nor a file yields nothing |
| Copy.BinaryCopiedVerbatim | src/generators/service-generator.ts:128-137 | a listed extension means a byte-identical copy; any bytes written are the source's; text is written exactly when the file is classified as text |
| Copy.BelowChild | src/generators/service-generator.ts:109 | the paths below the target whose first step is `name` are `target/name` and what lies below it |
| Copy.FreshChild | src/generators/service-generator.ts:109 | a name unused below the target gives a fresh child with nothing inside |
| Copy.CopyFileEntryEffect | src/generators/service-generator.ts:117-119 | copying a file entry to a fresh name succeeds and adds just that file |
| Copy.CopyDirectoryEntryEffect | src/generators/service-generator.ts:111-115 | copying a directory entry whose subtree repeats no name within a directory to a fresh name succeeds and adds just its expected subtree |
| Copy.ChildDirectoryLayout | src/generators/service-generator.ts:111-115 | the copied subtree, seen from the parent, is the entry's expected nodes |
| Copy.CopyEntryEffect | src/generators/service-generator.ts:100-119 | one entry whose subtree repeats no name within a directory, copied to a fresh name, succeeds and adds exactly its expected nodes |
| Copy.FirstEntryLayout | src/generators/service-generator.ts:99-120 | once the first entry is copied, the target stays a directory and the rest of the listing still finds its names vacant |
| Copy.EntriesLayout | src/generators/service-generator.ts:99-120 | the first entry's nodes plus the rest of the listing's nodes are exactly the whole listing's nodes |
| Copy.SortedLayout | src/generators/service-generator.ts:96-97 | copying the sorted listing leaves exactly the nodes the unsorted directory describes |
| Copy.CopyEntriesEffect | src/generators/service-generator.ts:99-120 | a listing with distinct names, drawn from a directory whose subtree repeats no name within a directory, is copied without failure, adding each entry's expected nodes under its name |
| Copy.CopyDirectoryEffect | src/generators/service-generator.ts:90-121 | for a template whose directories repeat no name, copying into an empty directory succeeds, changes nothing outside it, and puts exactly `Expected` below it |
| Copy.CopyFileWithReplacement | src/generators/service-generator.ts:123-138 | the state and the failure are those of classifying, then copying the bytes or writing the normalised, substituted text |
| Copy.CopyDirectoryWithReplacement | src/generators/service-generator.ts:90-121 | the state and the failure are those of the walk over the sorted listing |
| Copy.CopyEntryWithReplacement | src/generators/service-generator.ts:99-120 | the state and the failure are those of one iteration of the walk |
| Generator.TargetDirectory | src/generators/service-generator.ts:48 | `options.outDir`, or the working directory joined with the service name |
| Generator.Generate | src/generators/service-generator.ts:42-65 | `generateService`: validate the name, settle the target, then `Populate`; returns the final filesystem with the target or the first error |
| Generator.Populate | src/generators/service-generator.ts:57-64 | copy the template into the settled target, read `ci/ci.yml`, create `.github/workflows` and write the transformed workflow; stops at the first failure |
| Generator.Placeholders | src/generators/service-generator.ts:51-55 | three passes, in order: the name, its PascalCase form, the timestamp |
| Generator.Lookup | src/generators/service-generator.ts:59 | the template node at a path, found name by name through the directories; none when a step is missing or not a directory |
| Generator.ReadTemplateFile | src/generators/service-generator.ts:59 | reading succeeds exactly on a regular file of the template and gives its decoded content |
| Generator.Workflow | src/generators/service-generator.ts:62 | the workflow text written: the CI template normalised, then with every placeholder applied in order, as UTF-8 |
| Generator.InstallWorkflow | src/generators/service-generator.ts:60-62 | on success the workflow is at `.github/workflows/ci.yml` inside the target |
| Generator.PreparedTarget | src/generators/service-generator.ts:67-88 | a settled target is an empty directory of a well-formed filesystem; only the target and its ancestors may have changed, an existing ancestor is kept and every stored ancestor is a directory |
| Generator.PrepareTarget | src/generators/service-generator.ts:67-88 | `ensureWritableEmptyDirectory`: a stat error other than ENOENT fails, an absent target is created with `mkdir -p`, a non-directory and a directory with entries are refused, an empty directory is kept; on success the filesystem is well formed and the target a directory |
| Generator.PrepareTargetContract | src/generators/service-generator.ts:67-88 | succeeds exactly on a writable target. A file or a non-empty directory is refused with no change. An empty directory is kept. An absent target is created with its missing ancestors and nothing inside |
| Generator.InvalidNameChangesNothing | src/generators/service-generator.ts:46 | an invalid name fails with the validation message before any write |
| Generator.OccupiedTargetChangesNothing | src/generators/service-generator.ts:80-87 | a target that is a file, a non-empty directory, or otherwise not writable makes the run fail with no write |
| Generator.PopulateWritesWorkflow | src/generators/service-generator.ts:57-62 | populating succeeds only with a template `ci/ci.yml`, and then leaves its transformed text in place |
| Generator.SuccessWritesWorkflow | src/generators/service-generator.ts:42-65 | a successful run had a valid name and returns its target; `.github/workflows/ci.yml` holds the template's `ci/ci.yml`, normalised, then substituted |
| Generator.WorkflowDirectoryCreated | src/generators/service-generator.ts:61 | creating `.github/workflows` where no `.github` exists adds exactly those two directories |
| Generator.RelativePath | src/generators/service-generator.ts:60 | a path below the target is `target + rel` exactly when `rel` is its remainder |
| Generator.ExpectedWorkflowFree | src/generators/service-generator.ts:57-62 | a template without `.github` yields nothing there |
| Generator.InstallWorkflowInto | src/generators/service-generator.ts:60-62 | installing the workflow into a directory without `.github` succeeds and adds exactly the two directories and the file |
| Generator.PopulatedLayout | src/generators/service-generator.ts:57-62 | the copied template plus the workflow steps give the `Produced` layout |
| Generator.PopulateEmptyTarget | src/generators/service-generator.ts:57-64 | populating an empty target succeeds; inside it leaves exactly the copied template plus the workflow, and outside it changes nothing |
| Generator.GenerateOnWritableTarget | src/generators/service-generator.ts:42-49 | with a valid name and a writable target, the run settles the target and continues into the copy with the settled filesystem |
| Generator.OutsideTargetKept | src/generators/service-generator.ts:42-88 | when a settled target is changed only inside, everything away from the target and its ancestors is as before the run, an existing ancestor is kept and every stored ancestor is a directory |
| Generator.GenerateSucceeds | src/generators/service-generator.ts:42-65 | with a valid name, a writable target and a template whose directories repeat no name, whose root holds no `.github` and whose `ci/ci.yml` is a regular file, the run succeeds. The target holds exactly the template copy and the workflow. Away from the target and its ancestors nothing changes; an existing ancestor is kept and every stored ancestor is a directory |
| Generator.EnsureWritableEmptyDirectory | src/generators/service-generator.ts:67-88 | stat, then mkdir or the two refusals, yields `PrepareTarget`'s state and error |
| Generator.GenerateService | src/generators/service-generator.ts:42-65 | the run's final state and result are `Generate`'s |

## Left out

- `src/cli.ts` is not part of this model. It is argument parsing, console output and the exit code around `generateService`.
- The template payload under `src/templates/service` is not part of this model. The engine copies it as opaque bytes.
- The template is a fixed tree value, separate from the target filesystem:
  - the template is not read through `node:fs`, and reading a regular file of it cannot fail;
  - a target placed inside the template directory is not modelled.
- Paths are sequences of components, and `path.join` is concatenation. `path.resolve`, `process.cwd()` and `__dirname` are not modelled. The working directory is a parameter.
- Symbolic links and other special files are the single node kind `Other` in the template and `OtherNode` in the target filesystem. `stat` does not follow links in the model, and an `OtherNode` ancestor in the target filesystem counts as a non-directory for `stat`, `mkdir` and `writeFile` alike (`BlockedAncestor`). A target below a symbolic link to a directory (macOS's `/tmp`, say) therefore fails with ENOTDIR in the model, where Node follows the link and succeeds.
- `Date.prototype.toISOString` is a string parameter, `generatedAt`.
- UTF-8 decoding of a buffer (`toString("utf8")`) is a `decode` function parameter. Text written with `"utf8"` is stored as the `Utf8` text itself, so encoding is not modelled.
- Chars.ToUpper: upper-cases ASCII letters only. JavaScript's `toUpperCase` maps all of Unicode, which matters only for non-ASCII first characters of a segment, which a valid name cannot have.
- Chars.ToLower: lower-cases ASCII letters only. JavaScript's `toLowerCase` maps all of Unicode, so a non-ASCII name that folds onto an excluded name or extension is not modelled.
- Entries.Less: a Dafny `char` is a Unicode scalar value, while a JavaScript string is a sequence of UTF-16 code units. Names holding characters above U+FFFF may therefore sort differently than JavaScript's `<` sorts them (here U+FFFF sorts before U+10000; in JavaScript it sorts after U+10000, whose first code unit is 0xD800), and every string length in the model counts such a character once where `.length` counts two.
- Classify.ExtName: Node's special cases (a basename of `..`, trailing separators) are not modelled. Entry names contain neither.
- Errors are reduced to four codes (`ENOENT`, `ENOTDIR`, `EEXIST`, `EISDIR`). Permission errors, full disks and other environment failures are not modelled.
- The walk and the run are sequential. Concurrent changes to the filesystem are not modelled, including a race between `stat` and `mkdir`.
- Generator.GenerateSucceeds: templates with a root `.github` entry are not covered. The generator accepts them; the copied `.github` then meets the workflow `mkdir` and `writeFile`, which fail when it is a file and overwrite a copied `ci.yml` when it is a directory holding `workflows/ci.yml`. `Generate` models these runs, but no theorem describes their result.
- `Array.prototype.sort` is a library call. It is modelled as a pure insertion sort by `compareNames`, with its permutation and ordering properties proved, not as an in-place array algorithm. Real directory listings never repeat a name, which the sortedness lemma assumes.
- Substitution order: each `split(token).join(value)` pass runs over the previous pass's output, so a later pass does rescan a value an earlier pass inserted (`Text.LaterPassSeesEarlierValue`). For the generator's own placeholders, a valid name and its PascalCase form contain no `__`; whether a timestamp could contain a token is not stated.
