# changepacks core, modelled in Dafny

changepacks is a version-bump tool for repositories that mix several
languages: Node, Python, Rust, Dart, C# and Java.

- Pending change logs name projects and an update type (Major, Minor or Patch).
- The tool merges them into one bump per project and computes each new version.
- It rewrites each project's manifest in place, keeping the file's own formatting.
- It publishes the selected projects in dependency order.

This project models the logic between the file-system, git and process
plumbing, and proves what that logic promises.

- **Versions and bumps.** `UpdateTypes` and `Languages` are the two enums, with their derived orders and `Display` texts. The other modules:
  - `NextVersion`: the bump rule, one dot-separated component plus one.
  - `CorePackage`: the older copy of that rule.
  - `SplitVersion`: the prefix before the first digit.
  - `DisplayUpdate`: `cur → next`.
  - `GenUpdateMap`: the merge of the change logs.
  - `RelativePath`: the `./`-relative key.
  - `ResultMap`: the per-project result map.
- **Dependency order.** `DependencyOrder` is `sort_by_dependencies`, written over arrays as the source writes it:
  - the two index maps;
  - the graph of dependents and the in-degree array;
  - the FIFO Kahn loop with its visited set;
  - the leftovers, appended at the end.

  It is proved to return a permutation in which every project emitted by Kahn's loop comes after the projects it depends on. The leftovers follow in input order. Each leftover still waits on another leftover. On an acyclic graph there are no leftovers.
- **Manifest editors.**
  - `Xml` models the XML reader as a stream of events, where an error event marks where the reader fails.
  - `XmlUtils` is the four-flag rewriter of a `.csproj` version and its indentation guess.
  - `CSharpFinder` holds the `.csproj` extractors and the finder's `visit`. The project-reference extractor and `visit` use the corrected reference name of the Findings row; `ReferenceNameAsWritten` is the code as written.
  - Both C# event loops track the same two scopes, an open PropertyGroup and an open Version element. `Xml.GroupOpenAt` and `Xml.VersionOpenAt` state them without the loops' flags, and the theorems about both loops are stated with them.
  - `CSharpPackages` and `CSharpWorkspaces` are the two C# classes.
  - `GradleVersion` is an explicit line-start matcher. It is proved to agree with the four regular expressions of the Gradle rewriters, and the rewriters are built on it.
  - `GradleWorkspaces` and `PythonWorkspaces` model the Gradle and `pyproject.toml` workspaces. `IndentDetection` is the JSON indentation guess.
- **Publishing.**
  - `Publish`: how the publish command is resolved.
  - `NodePackageManager`: lock-file detection, walking up the directory tree.
  - `CliPublish`: the `publish` command, covering the filters, the dependency order, attempting every project and failing at the end.

Shared helpers:
- `Wrappers`: Option and Result.
- `Text`: white space, split and join, `usize` parsing and printing, `str::lines`.
- `Paths`: paths as component lists, with parent, file name, stem, extension and prefix stripping.
- `Projects`: the project record the utilities see.

Reading files, writing files, prompting and publishing are operations
whose outcome the model cannot compute. They become parameters: a
`Result` for each read or write, a `Result<bool>` for the confirmation,
a function for the publish call. Where the code follows a hash map's or
hash set's iteration order, the model picks an arbitrary element.

Where the repository's tests or comments and the code disagree, the model follows the code:
- `next_version` does not reset the lower components. `NextVersion.NoResetExample` proves that "1.2.3" bumped Major gives "2.2.3". The test at `crates/utils/src/gen_changepack_result_map.rs:371-374` expects "2.0.0". The callers at `crates/utils/src/display_update.rs:7` and `crates/utils/src/gen_changepack_result_map.rs:24` apply `?` to the result, which cannot compile against the `String` that `crates/utils/src/next_version.rs:3` returns, so the `next_version` the callers build against may differ from the one modelled here.
- `gen_update_map` keeps the larger update type in the derived order `Major < Minor < Patch`, so Patch beats Major (`GenUpdateMap.PatchBeatsMajor`).
- Projects caught in a dependency cycle are appended; no error is reported (`DependencyOrder.LeftoverWaits`, `DependencyOrder.SelfDependentLeftover`).
- The publish command returns an error when any publish failed. This happens after all projects have been attempted (`CliPublish.HandlePublish`). The integration tests at `crates/cli/tests/integration.rs:1549-1553` and `2035-2039` expect success, but the `Project::publish` they depend on is not part of this model.

## Model

| member | source | states |
|---|---|---|
| UpdateTypes.Discriminant | crates/core/src/update_type.rs:9-16 | each variant has a discriminant below 3 |
| UpdateTypes.OrderChain | crates/core/src/update_type.rs:8-16 | Major = 0, Minor = 1, Patch = 2, so Major < Minor < Patch in the derived order |
| UpdateTypes.DiscriminantInjective | crates/core/src/update_type.rs:8 | equal discriminants iff the same variant; the derived order is total and asymmetric |
| UpdateTypes.Max | crates/core/src/update_type.rs:8 | the larger of two update types is one of them and is below neither |
| UpdateTypes.ComponentIndex | crates/utils/src/next_version.rs:5-9 | Major, Minor and Patch select component 0, 1 and 2, which equals the discriminant |
| UpdateTypes.Display | crates/core/src/update_type.rs:18-29 | the text starts with a bold ANSI colour code, has the variant's name at characters 7-12 and ends with the reset code |
| UpdateTypes.DisplayContainsName | crates/core/src/update_type.rs:37-44 | the displayed text contains "Major", "Minor" or "Patch" |
| UpdateTypes.DisplayInjective | crates/core/src/update_type.rs:18-29 | different update types display differently |
| Languages.Position | crates/core/src/language.rs:4-12 | each language has a declaration position below 6 |
| Languages.DeclarationOrder | crates/core/src/language.rs:4-12 | Python < Node < Rust < Dart < CSharp < Java |
| Languages.PositionInjective | crates/core/src/language.rs:4 | languages at the same position are equal |
| Languages.PublishKey | crates/core/src/language.rs:17-26 | each key is at least four lower-case ASCII letters |
| Languages.PublishKeyInjective | crates/core/src/language.rs:18-25 | different languages have different publish keys |
| Languages.Display | crates/core/src/language.rs:29-43 | with colouring on, the language's style code, then its name ("C#", "Node.js", …), then the reset code; with colouring off, the bare name |
| Languages.DisplayContainsName | crates/core/src/language.rs:51-61 | the displayed text contains the language's name |
| NextVersion.Next | crates/utils/src/next_version.rs:3-13 | specification; see the lemmas below |
| NextVersion.NextBumpsComponent | crates/utils/src/next_version.rs:3-13 | the result has as many components; the chosen one parses as one more than before; every other component is unchanged |
| NextVersion.NextComponents | crates/utils/src/next_version.rs:3-13 | the components of the bump are those of the version with the chosen one replaced by the digits of its successor |
| NextVersion.TryNext | crates/utils/src/next_version.rs:10 | Ok exactly when the chosen component exists, parses as a `usize` and is below the maximum; the value is then the bump |
| NextVersion.SplitDotted | crates/utils/src/next_version.rs:4-12 | joining dot-free components with "." and splitting again gives the components back |
| NextVersion.NextOfTriple | crates/utils/src/next_version.rs:4-12 | on three components with the chosen one printed from n, the bump replaces exactly that component by n + 1 |
| NextVersion.JoinTriple | crates/utils/src/next_version.rs:12 | three components join as a.b.c |
| NextVersion.PatchExample | crates/java/src/workspace.rs:207-240 | "1.0.0" bumped Patch is "1.0.1" |
| NextVersion.MinorExample | crates/java/src/workspace.rs:242-275 | "1.0.0" bumped Minor is "1.1.0" |
| NextVersion.MajorExample | crates/java/src/workspace.rs:277-310 | "1.0.0" bumped Major is "2.0.0" |
| NextVersion.ZeroPatchExample | crates/csharp/src/workspace.rs:233-260 | a missing version ("0.0.0") bumped Patch is "0.0.1" |
| NextVersion.NoResetExample | crates/utils/src/next_version.rs:10-12 | "1.2.3" bumped Major is "2.2.3": lower components are kept |
| CorePackage.Package.constructor | crates/core/src/package.rs:11-17 | name, version and path are stored as given |
| CorePackage.Package.NextVersion | crates/core/src/package.rs:20-30 | returns the bump of the stored version with the same number of components and writes no field |
| SplitVersion.FirstDigit | crates/utils/src/split_version.rs:8-11 | the position of the first ASCII digit, or None exactly when there is no digit |
| SplitVersion.Split | crates/utils/src/split_version.rs:7-22 | never an error; no prefix when the text is empty, starts with a digit or has no digit; otherwise a non-empty, digit-free prefix and a remainder starting with a digit that make up the input |
| SplitVersion.RoundTrip | crates/utils/src/split_version.rs:15-19 | prefix followed by remainder is exactly the input |
| SplitVersion.PrefixCase | crates/utils/src/split_version.rs:15-19 | a digit-free non-empty prefix before a digit is split off exactly |
| SplitVersion.PrefixExamples | crates/utils/src/split_version.rs:32 | "^1.0.0" splits into "^" and "1.0.0" as the tests expect |
| SplitVersion.NamePrefixExample | crates/utils/src/split_version.rs:37 | "helloworld-1.0.2" splits into "helloworld-" and "1.0.2" as the tests expect |
| SplitVersion.WholeExamples | crates/utils/src/split_version.rs:34-39 | "1.0.0-alpha.1", "latest" and "*" have no prefix |
| DisplayUpdate.Display | crates/utils/src/display_update.rs:6-9 | Ok exactly when the bump succeeds; the text is the current version, " → ", then the bump; a failed bump's error is passed on unchanged |
| GenUpdateMap.MergeLog | crates/utils/src/gen_update_map.rs:19-27 | the keys of the merged map are those of the map and of the log |
| GenUpdateMap.MergeLogIsMax | crates/utils/src/gen_update_map.rs:20-26 | the merged map dominates both inputs, and each of its values comes from one of them |
| GenUpdateMap.MergeChanges | crates/utils/src/gen_update_map.rs:19-27 | the inner loop, in any iteration order, computes MergeLog |
| GenUpdateMap.GenUpdateMap | crates/utils/src/gen_update_map.rs:8-30 | the loop over the directory listing computes the merge of the listed logs, or the first read or parse error |
| GenUpdateMap.Merged | crates/utils/src/gen_update_map.rs:13-27 | specification; see the lemmas below |
| GenUpdateMap.MergedFails | crates/utils/src/gen_update_map.rs:17-18 | the merge fails iff some listed log (not "changepack.json") fails to read or parse |
| GenUpdateMap.ConfigFileIgnored | crates/utils/src/gen_update_map.rs:14-16 | an entry named "changepack.json" changes nothing, whatever its contents |
| GenUpdateMap.MergedKeys | crates/utils/src/gen_update_map.rs:19-27 | the result's keys are exactly the keys mentioned by some log |
| GenUpdateMap.MergedMonotone | crates/utils/src/gen_update_map.rs:20-24 | a map dominated by the start is dominated by the result |
| GenUpdateMap.MergedIsUpperBound | crates/utils/src/gen_update_map.rs:20-24 | the result is at least every log's value for every key |
| GenUpdateMap.MergedIsAttained | crates/utils/src/gen_update_map.rs:20-26 | every value of the result is the value some log gives that key |
| GenUpdateMap.MergeLogCommutes | crates/utils/src/gen_update_map.rs:20-24 | merging two logs in either order gives the same map |
| GenUpdateMap.MergeLogAssociates | crates/utils/src/gen_update_map.rs:20-24 | merging is associative |
| GenUpdateMap.MergeLogAbsorbs | crates/utils/src/gen_update_map.rs:20-24 | merging a log the map already dominates changes nothing |
| GenUpdateMap.SwapNeighbours | crates/utils/src/gen_update_map.rs:13-27 | swapping two adjacent logs in the listing does not change the result |
| GenUpdateMap.MergedAppend | crates/utils/src/gen_update_map.rs:13-27 | one more log at the end merges into the result |
| GenUpdateMap.RepeatedLogIsNoOp | crates/utils/src/gen_update_map.rs:20-24 | listing an already-merged log again changes nothing |
| GenUpdateMap.PatchBeatsMajor | crates/utils/src/gen_update_map.rs:21 | a Major log and a Patch log for the same key merge to Patch |
| RelativePath.GetRelativePath | crates/utils/src/get_relative_path.rs:7-19 | a missing repository or work dir is an error first; otherwise Ok iff the path starts with the root component by component, and the result is "./" then the rest |
| RelativePath.ReadsBackAsRemainder | crates/utils/src/get_relative_path.rs:15-16 | the result parses back as the path's components after the root |
| RelativePath.RootItself | crates/utils/src/get_relative_path.rs:15-16 | the root itself gives "./" |
| RelativePath.SiblingWithCommonPrefix | crates/utils/src/get_relative_path.rs:15-17 | "/r/ab" is not under "/r/a" |
| RelativePath.NestedExample | crates/utils/src/get_relative_path.rs:15-16 | "/r/a/b" under "/r" is "./a/b" |
| ResultMap.ResultFor | crates/utils/src/gen_changepack_result_map.rs:20-40 | with an entry: Ok iff the bump of the version (or "0.0.0") succeeds, and then that entry's logs and next version; without one: no logs and no next version; version, name, changed flag and key are copied |
| ResultMap.ResultOf | crates/utils/src/gen_changepack_result_map.rs:21-38 | the match on the removed entry computes the row ResultFor specifies, including the bump error |
| ResultMap.GenChangepackResultMap | crates/utils/src/gen_changepack_result_map.rs:12-44 | the loop computes the recursive specification Collect, removing each entry as it is used |
| ResultMap.CollectKeys | crates/utils/src/gen_changepack_result_map.rs:17-43 | on success every project had a key, and the keys of the map are exactly those keys |
| ResultMap.OutsideRootFails | crates/utils/src/gen_changepack_result_map.rs:19 | a project whose key cannot be computed makes the whole map an error |
| ResultMap.CollectKeepsOthers | crates/utils/src/gen_changepack_result_map.rs:41 | a row no later project's key touches is kept |
| ResultMap.CollectRow | crates/utils/src/gen_changepack_result_map.rs:18-41 | with distinct keys, each project's row is exactly its own result, with all of its entry's logs in order |
| ResultMap.EntryUsedOnce | crates/utils/src/gen_changepack_result_map.rs:20 | once an entry has been removed, a later project with that key gets no logs and no next version |
| ResultMap.DuplicateKeyLosesEntry | crates/utils/src/gen_changepack_result_map.rs:20-41 | two projects with one key give one row, the second's, without the entry |
| IndentDetection.Width | crates/utils/src/detect_indent.rs:12 | the width is the UTF-8 length of the leading white space, never more than the line's |
| IndentDetection.DetectIndent | crates/utils/src/detect_indent.rs:6-16 | the loop returns the width of the first qualifying line, else 0 |
| IndentDetection.QualifiesCharacterised | crates/utils/src/detect_indent.rs:9 | a line is measured iff it starts with white space and has content |
| IndentDetection.TrimStartEmpty | crates/utils/src/detect_indent.rs:9 | trimming the start leaves nothing iff the line has no content |
| IndentDetection.TrimStartSame | crates/utils/src/detect_indent.rs:9 | trimming the start changes nothing iff the line is empty or starts with content |
| IndentDetection.TrimEndKeepsStart | crates/utils/src/detect_indent.rs:9 | trimming the end keeps content and the first character |
| IndentDetection.FirstQualifying | crates/utils/src/detect_indent.rs:8-13 | the first qualifying line decides the result |
| IndentDetection.NoneQualifying | crates/utils/src/detect_indent.rs:7-15 | with no qualifying line the result is 0 |
| IndentDetection.LaterLinesIgnored | crates/utils/src/detect_indent.rs:13 | lines after a qualifying one do not matter |
| IndentDetection.BlankContent | crates/utils/src/detect_indent.rs:31-32 | empty or all-white-space content gives 0 |
| IndentDetection.IndentedLine | crates/utils/src/detect_indent.rs:12 | spaces and tabs before content qualify and count one each |
| IndentDetection.FirstLineWins | crates/utils/src/detect_indent.rs:30 | "  foo\n    bar" gives 2 |
| IndentDetection.NoIndent | crates/utils/src/detect_indent.rs:29 | "noindent" gives 0 |
| IndentDetection.TabCountsOne | crates/utils/src/detect_indent.rs:28 | a leading tab counts as 1 |
| Text.Lines | crates/utils/src/detect_indent.rs:8 | `str::lines`: no line holds "\n"; an empty text has no lines |
| Text.TrimEnd | crates/python/src/workspace.rs:69 | the result is a prefix ending in content, and everything dropped is white space |
| Text.TrimStart | crates/utils/src/detect_indent.rs:12 | the result is a suffix starting with content, and everything dropped is white space |
| Text.ParseDecimal | crates/utils/src/next_version.rs:10 | parsing the printed form of a `usize` gives it back |
| Text.SplitJoin | crates/utils/src/next_version.rs:4-12 | splitting the join of separator-free parts gives the parts back |
| Text.JoinSplit | crates/utils/src/next_version.rs:4-12 | joining the split of a text gives the text back |
| Xml.LocalNameSuffix | crates/csharp/src/xml_utils.rs:25 | the local name is the whole name or what follows the first ':' |
| Xml.FirstStop | crates/csharp/src/xml_utils.rs:89-90 | the position of the first end-of-file or error event, with no stop before it |
| XmlUtils.VersionBlock | crates/csharp/src/xml_utils.rs:44-49 | the inserted block is five events: indent text, `<Version>`, the new version, `</Version>`, "\n  " |
| XmlUtils.DetectIndent | crates/csharp/src/xml_utils.rs:100-111 | the loop returns the indentation of the first line starting with four spaces, two spaces or a tab (checked in that order), else four spaces |
| XmlUtils.LineIndentCharacterised | crates/csharp/src/xml_utils.rs:101-108 | a line decides the indentation iff it starts with two spaces or a tab; it decides four spaces iff it starts with four |
| XmlUtils.XmlIndentFirst | crates/csharp/src/xml_utils.rs:101-109 | the first deciding line gives the result |
| XmlUtils.XmlIndentDefault | crates/csharp/src/xml_utils.rs:110 | with no deciding line the result is four spaces |
| XmlUtils.UpdateVersionInXml | crates/csharp/src/xml_utils.rs:8-97 | the result is the scan of the events with the content's own indentation |
| XmlUtils.WriteEvents | crates/csharp/src/xml_utils.rs:22-93 | the event loop with its four flags computes the specification UpdateResult |
| XmlUtils.ScanNext | crates/csharp/src/xml_utils.rs:22-93 | handling one more event extends the scan by one step |
| XmlUtils.StepCases | crates/csharp/src/xml_utils.rs:24-88 | once the version is updated every event is copied; the step that updates it writes the new text, or the version block and then the end tag |
| XmlUtils.ScanShape | crates/csharp/src/xml_utils.rs:19-63 | the output is the input, or the input with exactly one replacement or (without a version) one insertion |
| XmlUtils.UpdateShape | crates/csharp/src/xml_utils.rs:8-97 | Ok iff the reader does not fail before the end of file; the output is then the events read with at most one edit |
| XmlUtils.ErrorReported | crates/csharp/src/xml_utils.rs:90 | a reader error gives an Err starting with "XML parsing error" |
| XmlUtils.NoGroupScan | crates/csharp/src/xml_utils.rs:26-30 | with no PropertyGroup, nothing is changed and no flag is set |
| XmlUtils.NoPropertyGroupUnchanged | crates/csharp/src/xml_utils.rs:26-30 | a document with no PropertyGroup is written back unchanged |
| XmlUtils.CopiedAfterEdit | crates/csharp/src/xml_utils.rs:60-65 | after the edit every later event is copied |
| XmlUtils.PlainScan | crates/csharp/src/xml_utils.rs:64-88 | events that open or close nothing relevant are copied |
| XmlUtils.UntilEof | crates/csharp/src/xml_utils.rs:89 | events after the end of file are never read |
| XmlUtils.VersionTextReplaced | crates/csharp/src/xml_utils.rs:117-127 | in `pre <PropertyGroup> mid <Version>old…`, where `pre` and `mid` (white space, `<Project>`, other elements) open or close no PropertyGroup and open no Version element, the text becomes the new version and the rest is copied |
| XmlUtils.VersionElementAdded | crates/csharp/src/xml_utils.rs:129-139 | without a version, in `pre <PropertyGroup> mid </PropertyGroup>` with `pre` and `mid` as above, the version block goes just before that `</PropertyGroup>` and the rest is copied |
| Xml.GroupOpenNext | crates/csharp/src/xml_utils.rs:24-58 | a PropertyGroup is open after an event iff the event is a PropertyGroup start tag, or one was open and the event is not its end tag |
| Xml.VersionOpenNext | crates/csharp/src/xml_utils.rs:24-58 | a Version element is open after an event iff the event is a Version start tag inside an open group, or one was open and the event is not a Version end tag |
| Xml.NoVersionOpen | crates/csharp/src/xml_utils.rs:28-29 | with no Version start tag before a point, no Version element is open up to it |
| Xml.FirstStopBeyond | crates/csharp/src/xml_utils.rs:89-90 | with no end of file or error among the first n events, reading stops at n or later |
| XmlUtils.EditedNext | crates/csharp/src/xml_utils.rs:37-63 | the edit is made before n + 1 iff it is made before n or n is a place for it |
| XmlUtils.EndedNext | crates/csharp/src/xml_utils.rs:52-53 | a group end tag comes before n + 1 iff one comes before n or is at n |
| XmlUtils.StepScopes | crates/csharp/src/xml_utils.rs:24-88 | one turn of the loop moves the four flags from the scopes at n to the scopes at n + 1 |
| XmlUtils.StepFlags | crates/csharp/src/xml_utils.rs:24-63 | one turn sets each of the four flags: a group start opens the group and its end closes it, a Version start inside a group opens the element and its end closes it, a Text inside Version or (with no Version in the file) the first group's end marks the edit made, and any group end marks the first group ended |
| XmlUtils.SlotFromFlags | crates/csharp/src/xml_utils.rs:37-50 | while the flags describe the scopes, an event is a place for the edit exactly when it is a Text inside Version, or, with no Version in the file, the end of the first PropertyGroup while it is open |
| XmlUtils.ScanScopes | crates/csharp/src/xml_utils.rs:17-93 | after the first k events the four flags are: a PropertyGroup is open, a Version element is open, an earlier event was a place for the edit, a PropertyGroup end tag came earlier |
| XmlUtils.ScanBeforeSlot | crates/csharp/src/xml_utils.rs:59-67 | before the first place for the edit every event is copied and the flag is clear |
| XmlUtils.EditAtSlot | crates/csharp/src/xml_utils.rs:37-63 | at the first place for the edit, a text is replaced by the new version, or the block is written before the end tag |
| XmlUtils.CopiedAfter | crates/csharp/src/xml_utils.rs:60-65 | once the edit is made, the whole output is what was written then, followed by the rest of the events |
| XmlUtils.InsertedThenCopied | crates/csharp/src/xml_utils.rs:37-57 | after the inserted block and its end tag, the rest is copied |
| XmlUtils.ScanEditsFirstSlot | crates/csharp/src/xml_utils.rs:22-93 | the scan of events without a stop replaces the text at the first place for the edit, or inserts the block before the end tag there, and copies every other event |
| XmlUtils.UpdateEditsFirstSlot | crates/csharp/src/xml_utils.rs:8-97 | for every document the reader does not fail on: the edit is at the first event that is a text inside an open Version element, or (without a version) the first PropertyGroup end tag of the document while a group is open; the text there is replaced, or the block is inserted before it |
| XmlUtils.UpdateWithoutSlot | crates/csharp/src/xml_utils.rs:8-97 | a document with no such event is written back as read |
| XmlUtils.ReadUntilEof | crates/csharp/src/xml_utils.rs:89 | events followed by `Eof`: the reader does not fail and returns those events |
| XmlUtils.NoSlotBefore | crates/csharp/src/xml_utils.rs:28-63 | with no Version start tag and no PropertyGroup end tag before a point, no event before it is a place for the edit |
| XmlUtils.ReplaceSlot | crates/csharp/src/xml_utils.rs:24-63 | a group start, then a Version start with no group end or Version start between: the text after the Version start is the first place for the edit |
| XmlUtils.InsertSlot | crates/csharp/src/xml_utils.rs:33-53 | without a version, a group start and the next group end with no Version start before: the end tag is the first place for the edit |
| XmlUtils.ReplacedAfter | crates/csharp/src/xml_utils.rs:59-67 | after events that open a group and otherwise open no Version element and close no group, the text of the next Version element becomes the new version |
| XmlUtils.AddedAfter | crates/csharp/src/xml_utils.rs:35-53 | without a version, after such events the block goes before the next PropertyGroup end tag |
| XmlUtils.GroupLead | crates/csharp/src/xml_utils.rs:24-30 | `pre <PropertyGroup> mid`, with `pre` and `mid` free of the tags the loop acts on, opens a group and otherwise opens no Version element and closes no group |
| CSharpFinder.ExtractVersion | crates/csharp/src/finder.rs:42-81 | the event loop computes the first non-empty trimmed text inside a Version inside a PropertyGroup, stopping at end of file or an error |
| CSharpFinder.VersionFromFound | crates/csharp/src/finder.rs:66-72 | a found version is non-empty and is the trimmed text of an event before the first stop |
| CSharpFinder.VersionInGroup | crates/csharp/src/finder.rs:542-551 | `pre <PropertyGroup> mid <Version>text`, where `pre` and `mid` (white space, `<Project>`, other elements) open or close no PropertyGroup and open no Version element, gives the trimmed text when it is not blank |
| CSharpFinder.ScopesStep | crates/csharp/src/finder.rs:50-65 | the loop's two flags move from the open group and Version element at i to those at i + 1 |
| CSharpFinder.FirstTextFound | crates/csharp/src/finder.rs:48-79 | from any point, the answer is the first later non-blank text inside an open Version element, trimmed |
| CSharpFinder.NoTextNone | crates/csharp/src/finder.rs:48-80 | from any point, with no such text before the reader stops, there is no version |
| CSharpFinder.NoneNoText | crates/csharp/src/finder.rs:48-80 | from any point, no version means no such text before the reader stops |
| CSharpFinder.ExtractedFirstText | crates/csharp/src/finder.rs:42-81 | for every document: the version is the first text before the reader stops that is inside an open Version element and not blank, trimmed |
| CSharpFinder.ExtractedNoneIff | crates/csharp/src/finder.rs:42-81 | there is no version iff no such text comes before the reader stops |
| CSharpFinder.NoVersionElementNone | crates/csharp/src/finder.rs:553-558 | a document with no Version start tag before the reader stops, such as a PropertyGroup holding only `<OutputType>`, has no version |
| CSharpFinder.NoVersionTextBefore | crates/csharp/src/finder.rs:54-56 | with no Version start tag before a point, no event up to it is a version text |
| CSharpFinder.VersionTextAt | crates/csharp/src/finder.rs:50-72 | a group start, then a Version start with no group end or Version start between, then a non-blank text, all before any stop: that text, trimmed, is the version |
| CSharpFinder.VersionAfterLead | crates/csharp/src/finder.rs:50-72 | after events that open a group and otherwise open no Version element and close no group, the non-blank text of the next Version element is the version |
| CSharpFinder.NoGroupNoVersion | crates/csharp/src/finder.rs:52-56 | without a PropertyGroup there is no version |
| CSharpFinder.ExtractPackageReferences | crates/csharp/src/finder.rs:85-110 | the loop returns every `Include` of a PackageReference element, in order, up to the first stop |
| CSharpFinder.Slashed | crates/csharp/src/finder.rs:575-587 | the correction of the Findings row, which the test's expected `CoreLib` calls for: every '\' becomes '/' before the stem is taken, nothing else changes |
| CSharpFinder.NamesOfAppend | crates/csharp/src/finder.rs:123-131 | the names of two lists of values are the names of each, concatenated |
| CSharpFinder.ReferencedProjectsAreNames | crates/csharp/src/finder.rs:114-143 | the project references are the names of the ProjectReference `Include` values, in document order |
| CSharpFinder.ExtractProjectReferences | crates/csharp/src/finder.rs:114-143 | the event loop computes the project references up to the first stop |
| CSharpFinder.ReferenceNamesIn | crates/csharp/src/finder.rs:123-131 | the attribute loop computes the names of one element's `Include` values |
| CSharpFinder.IncludeValues | crates/csharp/src/finder.rs:93-99 | the attribute loop of the package extractor yields the `Include` values of one element, in order |
| CSharpFinder.ReferenceName | crates/csharp/src/finder.rs:128-131 | specification; see the lemmas below (the corrected half of the Findings row) |
| CSharpFinder.ReferenceNameAsWritten | crates/csharp/src/finder.rs:128-131 | specification; see the lemmas below (the as-written half of the Findings row) |
| CSharpFinder.ReferenceNameIsStem | crates/csharp/src/finder.rs:575-587 | a Windows-style reference `dir\stem.ext` names `stem` |
| CSharpFinder.ReferenceNameAsWrittenKeepsDirectories | crates/csharp/src/finder.rs:128-131 | taken literally, `file_stem` of `dir\stem.ext` on Unix is `dir\stem` |
| CSharpFinder.CoreLibReference | crates/csharp/src/finder.rs:575-587 | `..\CoreLib\CoreLib.csproj`: the corrected name is "CoreLib", the literal one is `..\CoreLib\CoreLib` |
| CSharpFinder.IsWorkspace | crates/csharp/src/finder.rs:147-161 | true iff the path has a parent whose listing can be read and holds an entry with extension "sln" |
| CSharpFinder.AddDependencies | crates/csharp/src/finder.rs:221-223 | the dependencies gain the given names; nothing else changes |
| CSharpFinder.CSharpProjectFinder.constructor | crates/csharp/src/finder.rs:27-32 | no projects; the project files are [".csproj"] |
| CSharpFinder.CSharpProjectFinder.Visit | crates/csharp/src/finder.rs:178-228 | a directory, a non-csproj file or a path already recorded changes nothing; a read error is returned; otherwise one new project is recorded under its path, a workspace iff a .sln is beside it, with the file stem as name, the extracted version and the project references as dependencies |
| CSharpPackages.UpdateOutcome | crates/csharp/src/package.rs:59-71 | specification; see the lemmas below |
| CSharpPackages.UpdateSucceeds | crates/csharp/src/package.rs:59-71 | Ok iff the bump, the read, the XML rewrite and the write all succeed; the errors come in that order |
| CSharpPackages.UpdateWritesOneEdit | crates/csharp/src/package.rs:64-68 | what is written is the read document with one edit, rewritten with `has_version` = the version is present |
| CSharpPackages.PatchRewritesVersion | crates/csharp/src/package.rs:172-200 | version 1.0.0 with `pre <PropertyGroup> mid <Version>…` (`pre` and `mid` as white space or other elements): Patch writes 1.0.1 there and keeps the rest |
| CSharpPackages.PatchAddsVersion | crates/csharp/src/workspace.rs:233-260 | no version, `pre <PropertyGroup> mid </PropertyGroup>` as above: Patch inserts the 0.0.1 version block before that `</PropertyGroup>` |
| CSharpPackages.UpdateEditsAtSlot | crates/csharp/src/package.rs:59-71 | a successful update edits the document at the first place for the edit: the version text there, or the first PropertyGroup end tag when there was no version |
| CSharpPackages.UpdateWithoutSlotKeeps | crates/csharp/src/package.rs:59-71 | a successful update of a document with no place for the edit writes it back as read |
| CSharpPackages.CSharpPackage.constructor | crates/csharp/src/package.rs:24-38 | the given fields, not changed, no dependencies |
| CSharpPackages.CSharpPackage.UpdateVersion | crates/csharp/src/package.rs:59-71 | the result is the update's specification; the version becomes the bump only on success; no other field changes |
| CSharpPackages.CSharpPackage.SetChanged | crates/csharp/src/package.rs:81-83 | the changed flag is the argument; nothing else changes |
| CSharpPackages.CSharpPackage.AddDependency | crates/csharp/src/package.rs:93-95 | set insertion; nothing else changes |
| CSharpWorkspaces.CSharpWorkspace.constructor | crates/csharp/src/workspace.rs:23-38 | the given fields, not changed, no dependencies |
| CSharpWorkspaces.CSharpWorkspace.UpdateVersion | crates/csharp/src/workspace.rs:54-68 | the same specification as the package; the version becomes the bump only on success |
| CSharpWorkspaces.CSharpWorkspace.SetChanged | crates/csharp/src/workspace.rs:78-80 | the changed flag is the argument; nothing else changes |
| CSharpWorkspaces.CSharpWorkspace.AddDependency | crates/csharp/src/workspace.rs:94-96 | set insertion; nothing else changes |
| GradleVersion.WsLength | crates/java/src/version_updater.rs:12 | the run of white space (`\s*`) at a position, as long as possible |
| GradleVersion.RunLength | crates/java/src/version_updater.rs:12 | the run of characters outside a set (`[^"]*`), as long as possible |
| GradleVersion.MatchRule | crates/java/src/version_updater.rs:12-16 | a match at a position gives the ends of the group and of the quoted value, in order |
| GradleVersion.FindFrom | crates/java/src/version_updater.rs:13-14 | the first line start from a position at which the rule matches, and none earlier |
| GradleVersion.MatchSound | crates/java/src/version_updater.rs:12 | what the matcher consumes is accepted by the pattern |
| GradleVersion.MatchComplete | crates/java/src/version_updater.rs:12 | for these deterministic patterns, any split the pattern accepts is the one the matcher finds |
| GradleVersion.MatchRuleIsRegex | crates/java/src/version_updater.rs:12-49 | the matcher succeeds with (g, e) iff the group accepts the text up to g and the quoted value the text from g to e |
| GradleVersion.ReplaceFirstMatch | crates/java/src/version_updater.rs:14-16 | the first matching line has its quoted value replaced, and the text around it is unchanged |
| GradleVersion.ReplaceNoMatch | crates/java/src/version_updater.rs:13 | with no matching line there is no replacement |
| GradleVersion.RulesDeterministic | crates/java/src/version_updater.rs:12-49 | each of the four patterns is deterministic |
| GradleVersion.KtsSimpleDeterministic | crates/java/src/version_updater.rs:12 | the simple Kotlin pattern is deterministic |
| GradleVersion.KtsFallbackDeterministic | crates/java/src/version_updater.rs:21 | the `findProperty` pattern is deterministic |
| GradleVersion.GroovyAssignDeterministic | crates/java/src/version_updater.rs:41 | the Groovy assignment pattern is deterministic |
| GradleVersion.GroovySpaceDeterministic | crates/java/src/version_updater.rs:49 | the Groovy space pattern is deterministic |
| GradleVersion.UpdateKts | crates/java/src/version_updater.rs:10-30 | specification; see the lemmas below |
| GradleVersion.UpdateGroovy | crates/java/src/version_updater.rs:39-57 | specification; see the lemmas below |
| GradleVersion.KtsRewritesSimple | crates/java/src/version_updater.rs:12-17 | at the first `version = "…"` line the value becomes the new version in double quotes |
| GradleVersion.KtsRewritesFallback | crates/java/src/version_updater.rs:19-27 | without the simple form, the first `findProperty(…) ?: "…"` line gets the new version |
| GradleVersion.KtsUnchanged | crates/java/src/version_updater.rs:29 | with neither form, the content is unchanged |
| GradleVersion.GroovyRewritesAssign | crates/java/src/version_updater.rs:41-46 | at the first `version = '…'` or `"…"` line the value becomes the new version in single quotes |
| GradleVersion.GroovyRewritesSpace | crates/java/src/version_updater.rs:48-54 | without an assignment, the first `version '…'` line gets the new version |
| GradleVersion.GroovyUnchanged | crates/java/src/version_updater.rs:56 | with neither form, the content is unchanged |
| GradleVersion.QuotedValueNonEmpty | crates/java/src/version_updater.rs:41 | a matched quoted value has at least one character between the quotes |
| GradleVersion.QuotedValueAccepted | crates/java/src/version_updater.rs:41-44 | a non-empty version without quotes, written between quotes, is again a quoted value |
| GradleVersion.RewriteMatches | crates/java/src/version_updater.rs:14-16 | after the rewrite the rule matches the same line with the new value |
| GradleVersion.RewriteReadsBack | crates/java/src/version_updater.rs:14-16 | the matcher reads the rewritten line back with exactly the new value |
| GradleVersion.MatchSeqAppend | crates/java/src/version_updater.rs:21 | matching two patterns in a row is matching the first, then the second |
| GradleVersion.EmptyVersionSimple | crates/java/src/version_updater.rs:12 | `version = ""` does not match the simple form |
| GradleVersion.EmptyVersionFallback | crates/java/src/version_updater.rs:21 | `version = ""` does not match the fallback form |
| GradleVersion.EmptyValueUnchanged | crates/java/src/version_updater.rs:12-29 | `version = ""` is left as it is |
| GradleWorkspaces.UpdateOutcome | crates/java/src/workspace.rs:96-117 | specification; see the lemmas below |
| GradleWorkspaces.UpdateSucceeds | crates/java/src/workspace.rs:96-117 | Ok iff the bump, the read and the write succeed; the errors come in that order |
| GradleWorkspaces.UpdateDispatch | crates/java/src/workspace.rs:101-112 | the Kotlin rewriter for a file name ending ".kts", the Groovy one otherwise |
| GradleWorkspaces.MissingVersionIsZero | crates/java/src/workspace.rs:97-98 | no version behaves as "0.0.0" |
| GradleWorkspaces.KtsUpdateRewritesVersion | crates/java/src/workspace.rs:39-46 | a Kotlin build file gets the bumped version at its first `version = "…"` line |
| GradleWorkspaces.GroovyUpdateRewritesVersion | crates/java/src/workspace.rs:62-69 | a Groovy build file gets the bumped version in single quotes |
| GradleWorkspaces.FileNameDispatch | crates/java/src/workspace.rs:101-106 | `build.gradle.kts` takes the Kotlin rewriter and `build.gradle` the Groovy one |
| GradleWorkspaces.GradleWorkspace.constructor | crates/java/src/workspace.rs:21-35 | the given fields, not changed, no dependencies |
| GradleWorkspaces.GradleWorkspace.UpdateVersion | crates/java/src/workspace.rs:96-117 | the result is the update's specification; the version becomes the bump only on success; no other field changes |
| GradleWorkspaces.GradleWorkspace.SetChanged | crates/java/src/workspace.rs:127-129 | the changed flag is the argument; nothing else changes |
| GradleWorkspaces.GradleWorkspace.AddDependency | crates/java/src/workspace.rs:143-145 | set insertion; nothing else changes |
| PythonWorkspaces.SetProjectVersion | crates/python/src/workspace.rs:61-64 | an error iff `project` exists and is not a table; otherwise `project.version` is the new version and every other root entry is kept |
| PythonWorkspaces.SetKeepsProjectEntries | crates/python/src/workspace.rs:61-64 | `project`'s other entries are kept; a created `project` holds only the version |
| PythonWorkspaces.FinishText | crates/python/src/workspace.rs:65-75 | the written text ends with "\n" iff the file read did; there is no other trailing white space |
| PythonWorkspaces.FinishKeepsBody | crates/python/src/workspace.rs:69 | only trailing white space of the printed document is dropped |
| PythonWorkspaces.UpdateOutcome | crates/python/src/workspace.rs:53-80 | specification; see the lemmas below |
| PythonWorkspaces.UpdateSucceeds | crates/python/src/workspace.rs:53-80 | Ok iff the bump, the read, the parse, the edit and the write succeed; what is written is the edited document, finished, with the new version |
| PythonWorkspaces.MissingVersionIsZero | crates/python/src/workspace.rs:54-57 | no version behaves as "0.0.0" |
| PythonWorkspaces.PythonWorkspace.constructor | crates/python/src/workspace.rs:22-37 | the given fields, not changed, no dependencies |
| PythonWorkspaces.PythonWorkspace.UpdateVersion | crates/python/src/workspace.rs:53-80 | the result is the update's specification; the version becomes the bump only on success; no other field changes |
| PythonWorkspaces.PythonWorkspace.SetChanged | crates/python/src/workspace.rs:90-92 | the changed flag is the argument; nothing else changes |
| PythonWorkspaces.PythonWorkspace.SetName | crates/python/src/workspace.rs:98-100 | the name becomes Some(name); nothing else changes |
| PythonWorkspaces.PythonWorkspace.AddDependency | crates/python/src/workspace.rs:110-112 | set insertion; nothing else changes |
| Publish.ResolvePublishCommand | crates/core/src/publish.rs:6-22 | the path entry if there is one, else the language entry, else the default |
| Publish.ResolvedFromSources | crates/core/src/publish.rs:12-21 | the command is the default or a configured value |
| Publish.LanguageEntryServesAll | crates/core/src/publish.rs:17-20 | a language entry serves every project of that language without a path entry |
| Publish.PathEntryWins | crates/core/src/publish.rs:13-15 | with a path entry, language and default do not matter |
| Publish.ResolveExamples | crates/core/src/publish.rs:52-104 | the three cases of the tests: by path, by language, default |
| NodePackageManager.PublishCommand | crates/node/src/lib.rs:20-27 | each manager has a fixed command of at least 11 characters |
| NodePackageManager.PublishCommandInjective | crates/node/src/lib.rs:20-27 | different managers publish with different commands |
| NodePackageManager.Detect | crates/node/src/lib.rs:32-45 | Bun iff a Bun lock exists; else pnpm iff `pnpm-lock.yaml`; else Yarn iff `yarn.lock`; else npm |
| NodePackageManager.LowerLockIgnored | crates/node/src/lib.rs:120-137 | adding a lock file of lower priority does not change the answer |
| NodePackageManager.SearchFindsNearest | crates/node/src/lib.rs:55-61 | the search answers the detection at the nearest ancestor where it stops |
| NodePackageManager.SearchDefaultsToNpm | crates/node/src/lib.rs:55-63 | with no ancestor to stop at, the answer is npm |
| NodePackageManager.DetectRecursive | crates/node/src/lib.rs:48-64 | the loop from the parent of a file (or the path itself) computes the search |
| NodePackageManager.NestedPackageUsesRootLock | crates/node/src/lib.rs:148-159 | a `package.json` two levels below a pnpm root, with no lock between, is published with pnpm |
| Paths.Parse | crates/utils/src/get_relative_path.rs:14 | the components are normal, and the path is absolute iff it starts with '/' |
| Paths.Parent | crates/node/src/lib.rs:49-60 | a parent exists iff there is a component; it drops the last one |
| Paths.Join | crates/node/src/lib.rs:33-39 | the parent of `dir.join(name)` is `dir` |
| Paths.FileName | crates/java/src/workspace.rs:101-105 | the last component, or None when there is none or it is ".." |
| Paths.FileStem | crates/csharp/src/finder.rs:35-39 | a stem exists iff a file name does |
| Paths.Extension | crates/csharp/src/finder.rs:181 | stem, ".", extension make up the file name |
| Paths.StemAndExtension | crates/csharp/src/finder.rs:35-39 | `stem.ext` with a dot-free extension splits into the two |
| Paths.StripPrefix | crates/utils/src/get_relative_path.rs:15 | defined iff the base's components start the path's; the base then joined with the rest is the path |
| Paths.ParseDotRelative | crates/utils/src/get_relative_path.rs:16 | "./" then normal components parses as those components |
| DependencyOrder.NameIndexLast | crates/utils/src/sort_by_dep.rs:17-24 | a name maps to the last project with it |
| DependencyOrder.ResolveCases | crates/utils/src/sort_by_dep.rs:35-41 | a dependency resolves to the last project with that relative path; only when none has it, to the last with that name; otherwise to nothing |
| DependencyOrder.BuildIndexes | crates/utils/src/sort_by_dep.rs:14-24 | the loop builds the two index maps |
| DependencyOrder.CountPositive | crates/utils/src/sort_by_dep.rs:41-45 | a project has an edge to another iff one of its dependencies resolves to it |
| DependencyOrder.AddEdges | crates/utils/src/sort_by_dep.rs:33-47 | one project's dependencies add it to the dependents of what they resolve to, and set its in-degree |
| DependencyOrder.AddEdge | crates/utils/src/sort_by_dep.rs:36-46 | one dependency string handled: the dependents lists and the in-degree of the project count it exactly when it resolves, and no other in-degree changes |
| DependencyOrder.BuildGraph | crates/utils/src/sort_by_dep.rs:28-48 | the arrays hold each project's dependents and each project's number of resolvable dependencies |
| DependencyOrder.DegreeIsPending | crates/utils/src/sort_by_dep.rs:45 | the in-degree counts every edge into the project once |
| DependencyOrder.RootsMembers | crates/utils/src/sort_by_dep.rs:51-56 | the initial queue holds exactly the projects with in-degree 0 |
| DependencyOrder.RootsIncreasing | crates/utils/src/sort_by_dep.rs:51-56 | the initial queue is in input order |
| DependencyOrder.InitialQueue | crates/utils/src/sort_by_dep.rs:51-56 | the loop builds the initial queue |
| DependencyOrder.UnvisitedMembers | crates/utils/src/sort_by_dep.rs:77-81 | the leftovers are exactly the unvisited positions |
| DependencyOrder.UnvisitedIncreasing | crates/utils/src/sort_by_dep.rs:77-81 | the leftovers are in input order |
| DependencyOrder.Release | crates/utils/src/sort_by_dep.rs:67-72 | each in-degree drops by the visited project's edges without going below 0, and every project reaching 0 unvisited is queued |
| DependencyOrder.ReleaseOne | crates/utils/src/sort_by_dep.rs:68-71 | one entry of the dependents list: the in-degrees keep counting the edges not yet released, and the queue gains the entry exactly when its count reaches 0 and it is unvisited |
| DependencyOrder.Pop | crates/utils/src/sort_by_dep.rs:61-73 | one pop skips a visited project or visits it, keeping the loop's invariant |
| DependencyOrder.KahnEnd | crates/utils/src/sort_by_dep.rs:61-74 | when the queue is empty every unvisited project still waits on an unvisited one |
| DependencyOrder.Kahn | crates/utils/src/sort_by_dep.rs:58-74 | visited projects are emitted once each, after all their dependencies, starting with the initial queue; the others still wait |
| DependencyOrder.AppendRemaining | crates/utils/src/sort_by_dep.rs:77-81 | the loop appends the unvisited positions in input order |
| DependencyOrder.CompletePermutation | crates/utils/src/sort_by_dep.rs:58-84 | the emitted positions plus the leftovers are a permutation |
| DependencyOrder.LeftoversAppended | crates/utils/src/sort_by_dep.rs:76-81 | each leftover still waits on an unvisited project, and the leftovers are in input order |
| DependencyOrder.OrderValid | crates/utils/src/sort_by_dep.rs:58-84 | the emitted positions followed by the leftovers form a valid order |
| DependencyOrder.SortedIndices | crates/utils/src/sort_by_dep.rs:8-81 | the indices are a valid order: a permutation whose first k entries follow their dependencies, start with the initial queue and are followed by waiting leftovers in input order |
| DependencyOrder.SortByDependencies | crates/utils/src/sort_by_dep.rs:8-85 | the projects rearranged by a valid order; an empty input gives an empty output |
| DependencyOrder.DependenciesComeFirst | crates/utils/src/sort_by_dep.rs:44-73 | among the emitted projects, every resolved dependency comes earlier |
| DependencyOrder.LeftoverWaits | crates/utils/src/sort_by_dep.rs:76-81 | each appended project depends on another appended project |
| DependencyOrder.SelfDependentLeftover | crates/utils/src/sort_by_dep.rs:76-81 | a project that depends on itself is always a leftover |
| DependencyOrder.LeftoverRanks | crates/utils/src/sort_by_dep.rs:76-81 | under a ranking that dependencies decrease, leftovers have unbounded rank |
| DependencyOrder.AcyclicSortsAll | crates/utils/src/sort_by_dep.rs:58-81 | on an acyclic graph nothing is left over |
| DependencyOrder.RootsLead | crates/utils/src/sort_by_dep.rs:51-61 | the projects without dependencies come first, in input order |
| CliPublish.Retain | crates/cli/src/commands/publish.rs:68-73 | `retain`: the kept elements are those passing the test, no more |
| CliPublish.RetainAppend | crates/cli/src/commands/publish.rs:68-73 | retaining distributes over concatenation |
| CliPublish.Normalize | crates/cli/src/commands/publish.rs:75-78 | every '\' becomes '/', nothing else changes |
| CliPublish.SelectedMembers | crates/cli/src/commands/publish.rs:62-82 | a project survives iff its language is allowed and its path is selected |
| CliPublish.BackslashSelects | crates/cli/src/commands/publish.rs:72-82 | a path argument equal up to separators selects the project |
| CliPublish.FilterProjects | crates/cli/src/commands/publish.rs:61-82 | the two `retain` calls compute the selection |
| CliPublish.Failed | crates/cli/src/commands/publish.rs:137-167 | at most one failure record per project |
| CliPublish.FailedEmpty | crates/cli/src/commands/publish.rs:172-187 | no failure recorded iff every publish succeeded |
| CliPublish.FailedNames | crates/cli/src/commands/publish.rs:157-167 | every failed project is recorded, and every record is a failed project |
| CliPublish.Records | crates/cli/src/commands/publish.rs:150-166 | every attempted project has a record under its relative path |
| CliPublish.RecordOf | crates/cli/src/commands/publish.rs:153-164 | success iff Ok; the error text iff Err |
| CliPublish.RecordsFromProjects | crates/cli/src/commands/publish.rs:150-166 | each record is the result of the last attempted project with that path |
| CliPublish.RecordIndex | crates/cli/src/commands/publish.rs:150-166 | the record at a path is that of the last project published at that path, and no later project has that path |
| CliPublish.PublishResultFromFailures | crates/cli/src/commands/publish.rs:198-209 | Err iff something failed; the message names every failure and "n of total" |
| CliPublish.JoinContains | crates/cli/src/commands/publish.rs:191 | each part occurs in the joined text |
| CliPublish.FailureMessageNames | crates/cli/src/commands/publish.rs:188-192 | the bail message names every failed project |
| CliPublish.PublishAll | crates/cli/src/commands/publish.rs:136-170 | the loop attempts every project, recording failures in order, with JSON records in JSON mode |
| CliPublish.HandlePublish | crates/cli/src/commands/publish.rs:55-196 | no selection, a dry run or a declined confirmation gives Ok with nothing published; a prompt error is returned; otherwise every selected project is published in dependency order, and the result is Err naming the failures iff any failed |
| CliPublish.RetainSame | crates/cli/src/commands/publish.rs:68-73 | retaining with two tests that agree gives the same list |
| CliPublish.RetainAll | crates/cli/src/commands/publish.rs:62-72 | when every element passes, retaining keeps the list |
| CliPublish.FailsAtEnd | crates/cli/src/commands/publish.rs:140-195 | failures are reported after all attempts, in a message naming each failed project |

## Left out

- Reading and writing files, reading directories, prompting, running publish commands: these are effects. The model takes each one's outcome as a parameter.
- Quick_xml's tokenising and escaping: a manifest is the sequence of events the reader yields, with `Error` wherever the reader fails. Unescaping is not modelled, and `Err` of `unescape` is not distinguished.
- XmlUtils.UpdateVersionInXml: models the events written, not the writer's bytes. The final UTF-8 check cannot fail on a `&str` input, so it is left out.
- Toml_edit's parser and printer: they become the `TomlCodec` parameter. The document is a tree of tables and values, with no formatting, key order or comments.
- PythonWorkspaces.SetProjectVersion: indexing a `project` that is not table-like (neither a table nor an inline table) panics in toml_edit. The model returns an error for it instead. `TomlCodec.parse` is expected to give an inline table as a `Table`.
- The regex crate: the four patterns are modelled by an explicit matcher over pattern elements.
- GradleVersion.UpdateKts, GradleVersion.UpdateGroovy: the model writes the new version verbatim. Both replacement texts (`${1}"…"` for Kotlin, `${1}'…'` for Groovy) go through the regex crate's expansion, which reads a `$` inside the version as a group reference. So a version containing `$` is not modelled: `version = '1.0.$x'` bumped Minor gives `1.1.$x`, which the source writes as `version = '1.1.'`, since there is no group `x`.
- GradleVersion.KtsRewritesSimple: promises the version verbatim, so it does not cover a version containing `$` (see the UpdateKts line above).
- GradleVersion.KtsRewritesFallback: the same `$` case is not covered.
- GradleVersion.GroovyRewritesAssign: the same `$` case is not covered (crates/java/src/version_updater.rs:44).
- GradleVersion.GroovyRewritesSpace: the same `$` case is not covered (crates/java/src/version_updater.rs:52).
- GradleWorkspaces.KtsUpdateRewritesVersion: the same `$` case is not covered (crates/java/src/workspace.rs:44).
- GradleWorkspaces.GroovyUpdateRewritesVersion: the same `$` case is not covered (crates/java/src/workspace.rs:67).
- Languages.Display: whether the colored crate writes its escape codes depends on stdout being a terminal and on `NO_COLOR`, `CLICOLOR` and `CLICOLOR_FORCE`. The model takes that decision as the `colorize` parameter and does not model the check itself.
- `\s` is modelled by the Unicode white space of `char::is_whitespace`.
- Node package-manager detection: `exists` and `is_file` become two sets of paths. Symbolic links and relative `..` walking are not modelled.
- Paths: a path is a list of normal components plus an absolute flag. `to_string_lossy` is left out, because all strings here are valid Unicode.
- Hash map and hash set iteration order: the model allows any order.
  - GenUpdateMap.MergeChanges and the Kahn inner loop pick an arbitrary entry.
  - `Project::dependencies()` is a set.
- CliPublish.HandlePublish: the model leaves out:
  - the clap parsing;
  - the printed messages and their format;
  - the JSON serialisation;
  - `Config` loading;
  - gathering projects from the finders.

  Records are keyed by the relative path as a string.
- `run_publish_command` and the unshown `Project::publish`: they are the `publish` parameter.
- `default_publish_command` of each class is a constant: `CSharpPackages.PublishCommand`, `GradleWorkspaces.PublishCommand` and `PythonWorkspaces.PublishCommand`. `NodePackageManager.PublishCommand` is the Node one.
- Concurrency (`async`, `join_all`) is not modelled. Every operation is a sequential step.
- `get_relative_path`'s git discovery: the repository is a parameter, either none, bare or a work dir.
- NextVersion.Next: a missing or non-numeric component makes the source panic. `Next` requires it to be absent. `TryNext` returns an error for the callers that use `?`.
- CSharpFinder.ExtractProjectReferences, CSharpFinder.ReferencedProjectsAreNames, CSharpFinder.ReferenceNamesIn, CSharpFinder.CSharpProjectFinder.Visit: these use the corrected `ReferenceName` of the Findings row, which treats '\' as a separator. The code as written on Unix keeps `..\CoreLib\CoreLib`; that is `CSharpFinder.ReferenceNameAsWritten`.
- NextVersion.Next: `usize` overflow at `usize::MAX` is an error, not a wrap-around.
- The older serde-based writers, the finders of the other languages, the CLI commands other than `publish`, the bridges and `clear_update_logs` are not part of this model.

## Findings

| source | as written | input that shows it | evidently intended | confidence | as-written member | corrected member |
|---|---|---|---|---|---|---|
| crates/csharp/src/finder.rs:128-131 | the reference name is `Path::file_stem` of the `Include` value. On Unix '\' is not a separator, so the stem keeps the directories | `..\CoreLib\CoreLib.csproj` gives `..\CoreLib\CoreLib`, while the test at finder.rs:575-587 expects `CoreLib` | the stem of the last component, treating '\' as a separator too | not executed | CSharpFinder.ReferenceNameAsWritten (CSharpFinder.CoreLibReference, CSharpFinder.ReferenceNameAsWrittenKeepsDirectories) | CSharpFinder.ReferenceName (CSharpFinder.ReferenceNameIsStem); the extractor and `visit` use it |
