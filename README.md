# ApplyConfigTransformInPlace — a Dafny model of the transform resolver

ApplyConfigTransformInPlace is a Visual Studio extension that adds an "apply
config transform in place" command to a project item. When the selected item is
a configuration transform such as `App.Release.config` or `Web.Staging.config`,
the command merges it into its destination file (`App.config`, `Web.config`) in
place, through an external XML transform engine.

This project models the two pieces of logic behind it:

- **The transform-name classifier** `IsSupportedTransform` (module
  `TransformLogic`, file `TransformLogic.dfy`). It runs the case-insensitive,
  unanchored pattern `([\w]+\.)[\w- ]+\.config` over a file name and returns
  whether it matched and what group 1 (the destination prefix) captured. The
  pattern is modelled twice. `MatchesAt` follows the maximal word run and the
  maximal middle run from a start index. `PatternMatch` states the pattern with
  explicit group boundaries. Lemmas prove that both readings agree, that the
  leftmost match decides the prefix, that case does not matter for the verdict,
  that the prefix keeps the input's casing, and that the unit-test names come
  out as the tests expect.
- **The command's gate and destination lookup** (modules `TransformCommand` and
  `CommandProperties`). The class `ApplyConfigTransformInPlaceCmd` holds the two
  fields `TransformFile` and `DestinationFile` (as `Option<string>`, `None` for
  null) and a ghost log of calls to the merge engine. Its methods are
  `ProjectSupportsTransforms`, `DestinationExists`, `ItemSupportsTransforms`,
  `BeforeQueryStatus` and `ApplyTransform`. Each state-changing method is proved
  equal to a pure step function over the fields (`DestinationExistsStep`,
  `ItemSupportsStep`, `GateStep`), and the lemmas of `CommandProperties` state
  the behaviour of those functions.

The file system is a parameter: a `FileSystem` value holds the set of paths that
exist and the set of paths that the XML reader accepts. The IDE's answers are a
`Selection` value: whether one item inside a project is selected, and the
document paths of the project and the item (`None` when the lookup failed).
Exceptions that escape are an `Outcome.Threw(fault)` value.

The command is modelled as its code is written, quirks included:

- The gate never checks that a destination exists. A well-formed `.config` file
  with neither prefix enables the command (`GateIgnoresDestination`).
- The `app.` lookup replaces the file name inside the stored `TransformFile`
  field, not inside its argument. With nothing stored yet it faults
  (`AppItemFaultsBeforeAnyTransform`). With an unrelated path stored that still
  exists, it pairs the new transform with the old transform file
  (`AppItemMergesIntoStoredTransform`). When that stored file no longer exists,
  the merge call uses the stored transform in all three places
  (`AppItemMergesMissingTransformIntoItself`).
- Both lookups use `String.Replace`, which rewrites every occurrence of the file
  name, including directory names that contain it. The candidate is the sibling
  when the directory does not contain the name (`WebSibling`). A transform
  `name\name` gets the candidate `Web.config\Web.config`
  (`WebLookupRewritesDirectory`).
- The fields are never cleared (`FieldsNeverCleared`), so a stale pair survives
  evaluations that find nothing.
- The command never calls the classifier. The two modules stay separate.

After the item check the command logs "Selected Tranform and Destination Exist."
(`ApplyConfigTransformInPlaceCmd.cs:134`), but nothing on that path requires a
destination to exist. The model follows what the code checks, not what the log
line says (`GateIgnoresDestination`).

`Strings.dfy` holds the .NET string and path operations the command uses:
ignore-case comparison, `StartsWith`/`EndsWith`, `string.IsNullOrWhiteSpace`,
`Path.GetFileName` (and `FileInfo.Name`), `Path.GetExtension` and the ordinal
`String.Replace`.

## Model

| member | source | states |
|---|---|---|
| `TransformLogic.IsSupportedTransform` | ApplyConfigTransformInPlace.VSIX/ApplyConfigTransformInPlaceLogic.cs:13-27 | a failed match leaves the prefix empty; a successful one returns one or more word characters and a single dot, found inside the name |
| `TransformLogic.SupportedIffMatchSomewhere` | ApplyConfigTransformInPlace.VSIX/ApplyConfigTransformInPlaceLogic.cs:17-18 | supported iff the pattern matches at some index of the name |
| `TransformLogic.FindMatchSpec` | ApplyConfigTransformInPlace.VSIX/ApplyConfigTransformInPlaceLogic.cs:17 | the regex search: the index returned is a match and no earlier index matches; with no result, no index matches |
| `TransformLogic.WordRunEnd` | ApplyConfigTransformInPlace.VSIX/ApplyConfigTransformInPlaceLogic.cs:13 | `[\w]+` taken greedily: every character up to the end is a word character and the next is not |
| `TransformLogic.MiddleRunEnd` | ApplyConfigTransformInPlace.VSIX/ApplyConfigTransformInPlaceLogic.cs:13 | `[\w- ]+` taken greedily: every character up to the end is a middle character and the next is not |
| `TransformLogic.GroupOneShape` | ApplyConfigTransformInPlace.VSIX/ApplyConfigTransformInPlaceLogic.cs:21 | the captured group is word characters ending in one dot and occurs in the name at the match index |
| `TransformLogic.PatternMatchDeterministic` | ApplyConfigTransformInPlace.VSIX/ApplyConfigTransformInPlaceLogic.cs:13 | any way the pattern can match at an index puts its dot and its `.config` where the maximal runs end, so the capture is unique |
| `TransformLogic.MatchesAtIsPatternMatch` | ApplyConfigTransformInPlace.VSIX/ApplyConfigTransformInPlaceLogic.cs:13 | a match found by the maximal runs is a match of the pattern as written |
| `TransformLogic.NoPatternBefore` | ApplyConfigTransformInPlace.VSIX/ApplyConfigTransformInPlaceLogic.cs:17 | no occurrence of the pattern starts before the first index where the matcher succeeds |
| `TransformLogic.SupportedIffPatternOccurs` | ApplyConfigTransformInPlace.VSIX/ApplyConfigTransformInPlaceLogic.cs:13-22 | supported iff the pattern, with explicit group boundaries, occurs anywhere in the name |
| `TransformLogic.NoMatchNoPattern` | ApplyConfigTransformInPlace.VSIX/ApplyConfigTransformInPlaceLogic.cs:17-18 | when the search finds nothing, the pattern occurs nowhere, so the out parameter stays empty |
| `TransformLogic.PrefixIsLeftmostGroup` | ApplyConfigTransformInPlace.VSIX/ApplyConfigTransformInPlaceLogic.cs:17-22 | the prefix of a supported name is group 1 of the leftmost occurrence of the pattern |
| `TransformLogic.ConfigSuffixAtIs` | ApplyConfigTransformInPlace.VSIX/ApplyConfigTransformInPlaceLogic.cs:13 | reading `\.config` at an index is comparing the next seven characters with `.config` ignoring case |
| `TransformLogic.ThreeSegmentNameSupported` | ApplyConfigTransformInPlace.Tests/IsSupportedTransformTests.cs:19-24 | `W.M.config` (any casing of `.config`, anything after it) is supported with prefix `W.` in the input's casing |
| `TransformLogic.TwoSegmentNameRejected` | ApplyConfigTransformInPlace.Tests/IsSupportedTransformTests.cs:13 | `W.config` in any casing has no middle segment and gives (false, "") |
| `TransformLogic.RejectedTestCases` | ApplyConfigTransformInPlace.Tests/IsSupportedTransformTests.cs:27-32 | `web.config` and `Web.Config` both give (false, "") |
| `TransformLogic.AcceptedTestCases` | ApplyConfigTransformInPlace.Tests/IsSupportedTransformTests.cs:17-25 | the six accepted test names, and `App.Release.CONFIG`, give true with the expected prefix |
| `TransformLogic.AcceptedName` | ApplyConfigTransformInPlace.Tests/IsSupportedTransformTests.cs:34-40 | the positive assertion: a `W.M.config` name is supported with prefix `W.` |
| `TransformLogic.ConfigSuffixShape` | ApplyConfigTransformInPlace.VSIX/ApplyConfigTransformInPlaceLogic.cs:13 | any text equal to `.config` ignoring case is a dot followed by word characters |
| `TransformLogic.LowerKeepsClasses` | ApplyConfigTransformInPlace.VSIX/ApplyConfigTransformInPlaceLogic.cs:13 | case folding keeps the word, middle and dot classes of a character |
| `TransformLogic.MatchesAtIgnoresCase` | ApplyConfigTransformInPlace.VSIX/ApplyConfigTransformInPlaceLogic.cs:13 | under `RegexOptions.IgnoreCase` a name and its case-folded form match at the same indices with the same group end |
| `TransformLogic.ClassificationIgnoresCase` | ApplyConfigTransformInPlace.VSIX/ApplyConfigTransformInPlaceLogic.cs:13-22 | the case-folded name gets the same verdict and the case-folded prefix (that the prefix keeps the input's casing is `PrefixIsLeftmostGroup`) |
| `TransformLogic.FindMatchIgnoresCase` | ApplyConfigTransformInPlace.VSIX/ApplyConfigTransformInPlaceLogic.cs:13-17 | the search finds the same leftmost match in a name and in its case-folded form |
| `TransformLogic.MatchInContext` | ApplyConfigTransformInPlace.VSIX/ApplyConfigTransformInPlaceLogic.cs:13 | a match at i in a name is a match at i shifted by the text added in front, whatever is added around it |
| `TransformLogic.SupportedInAnyContext` | ApplyConfigTransformInPlace.VSIX/ApplyConfigTransformInPlaceLogic.cs:13-18 | the search is unanchored: text before or after a supported name keeps it supported |
| `Strings.FileNameShape` | ApplyConfigTransformInPlace.VSIX/ApplyConfigTransformInPlaceCmd.cs:283 | `FileInfo.Name`: the longest separator-free suffix of the path |
| `Strings.FileNameOfJoin` | ApplyConfigTransformInPlace.VSIX/ApplyConfigTransformInPlaceCmd.cs:174-175 | a separator-free name placed after a directory that is empty or ends in a separator is the file name of the joined path |
| `Strings.Extension` | ApplyConfigTransformInPlace.VSIX/ApplyConfigTransformInPlaceCmd.cs:153 | `Path.GetExtension`: empty, or a dot and at least one character taken from the end of the path, with no further dot or separator after that dot |
| `Strings.ExtensionOfSuffix` | ApplyConfigTransformInPlace.VSIX/ApplyConfigTransformInPlaceCmd.cs:153 | a path ending in `.ext` (no dot or separator after the first character) has extension `.ext` |
| `Strings.ReplaceWithoutOccurrence` | ApplyConfigTransformInPlace.VSIX/ApplyConfigTransformInPlaceCmd.cs:295 | the ordinal `Replace` of a pattern that does not occur returns the string unchanged |
| `Strings.ReplaceAfterHead` | ApplyConfigTransformInPlace.VSIX/ApplyConfigTransformInPlaceCmd.cs:286 | when no occurrence of the pattern starts inside the head, `Replace` leaves the head alone and replaces in the rest only |
| `Strings.ReplaceFileName` | ApplyConfigTransformInPlace.VSIX/ApplyConfigTransformInPlaceCmd.cs:286 | replacing the file name of `dir + name`, when the directory does not contain the name, gives the sibling `dir + repl` |
| `TransformCommand.IsXmlFile` | ApplyConfigTransformInPlace.VSIX/ApplyConfigTransformInPlaceCmd.cs:185-205 | a blank path raises an argument error, a missing file a not-found error, otherwise the answer is whether the reader accepts the file (a parse failure is false, not an error) |
| `TransformCommand.ApplyConfigTransformInPlaceCmd.ProjectSupportsTransforms` | ApplyConfigTransformInPlace.VSIX/ApplyConfigTransformInPlaceCmd.cs:148-163 | the loop over the supported extensions returns true iff the lookup succeeded and the extension is one of them ignoring case |
| `TransformCommand.ApplyConfigTransformInPlaceCmd.DestinationExists` | ApplyConfigTransformInPlace.VSIX/ApplyConfigTransformInPlaceCmd.cs:281-303 | result and new `DestinationFile` are those of `DestinationExistsStep`; `TransformFile` is not modified |
| `TransformCommand.ApplyConfigTransformInPlaceCmd.ItemSupportsTransforms` | ApplyConfigTransformInPlace.VSIX/ApplyConfigTransformInPlaceCmd.cs:166-182 | result and both new fields are those of `ItemSupportsStep` |
| `TransformCommand.ApplyConfigTransformInPlaceCmd.BeforeQueryStatus` | ApplyConfigTransformInPlace.VSIX/ApplyConfigTransformInPlaceCmd.cs:111-139 | without a menu command nothing changes; otherwise Visible and Enabled both end as `GateStep`'s verdict, with its escaping fault and its fields |
| `TransformCommand.ApplyConfigTransformInPlaceCmd.ApplyTransform` | ApplyConfigTransformInPlace.VSIX/ApplyConfigTransformInPlaceCmd.cs:268-279 | no engine call when either field is null; otherwise exactly one call (DestinationFile, TransformFile, DestinationFile), and every logged call writes its source in place |
| `CommandProperties.SupportedExtensionRule` | ApplyConfigTransformInPlace.VSIX/ApplyConfigTransformInPlaceCmd.cs:141-146 | an extension passes iff it equals `.csproj`, `.vbproj` or `.fsproj` ignoring case |
| `CommandProperties.ProjectExtensionRule` | ApplyConfigTransformInPlace.VSIX/ApplyConfigTransformInPlaceCmd.cs:148-163 | the project passes iff its path lookup succeeded and its extension is one of the three, ignoring case |
| `CommandProperties.TxtprojUnsupported` | ApplyConfigTransformInPlace.VSIX/ApplyConfigTransformInPlaceCmd.cs:141-146 | `.txtproj` is not among the supported extensions |
| `CommandProperties.UnsupportedProjectDisables` | ApplyConfigTransformInPlace.VSIX/ApplyConfigTransformInPlaceCmd.cs:126-130 | a `.txtproj` project hides the command whatever the item, with no fault and no field change |
| `CommandProperties.UpperCaseExtensionSupported` | ApplyConfigTransformInPlace.VSIX/ApplyConfigTransformInPlaceCmd.cs:157 | `.CSPROJ` matches `.csproj` ignoring case |
| `CommandProperties.UpperCaseProjectExtensionAccepted` | ApplyConfigTransformInPlace.VSIX/ApplyConfigTransformInPlaceCmd.cs:153-161 | a project path ending in `.CSPROJ` passes |
| `CommandProperties.PrefixesExclusive` | ApplyConfigTransformInPlace.VSIX/ApplyConfigTransformInPlaceCmd.cs:284-293 | no file name starts with both `web.` and `app.` ignoring case |
| `CommandProperties.WebLookup` | ApplyConfigTransformInPlace.VSIX/ApplyConfigTransformInPlaceCmd.cs:284-291 | a `web.` name: the candidate is the path with every occurrence of the name replaced by `Web.config`; it is recorded and true returned only if it exists, else false and nothing changes |
| `CommandProperties.AppLookup` | ApplyConfigTransformInPlace.VSIX/ApplyConfigTransformInPlaceCmd.cs:293-299 | an `app.` name: null `TransformFile` faults; otherwise `DestinationFile` becomes the stored transform with the name replaced by `App.config`, found or not, and the result is whether it exists |
| `CommandProperties.OtherNameLookup` | ApplyConfigTransformInPlace.VSIX/ApplyConfigTransformInPlaceCmd.cs:281-302 | a name with neither prefix gives false and leaves both fields unchanged |
| `CommandProperties.LookupKeepsTransformFile` | ApplyConfigTransformInPlace.VSIX/ApplyConfigTransformInPlaceCmd.cs:281-303 | the lookup never changes `TransformFile` |
| `CommandProperties.WebSibling` | ApplyConfigTransformInPlace.VSIX/ApplyConfigTransformInPlaceCmd.cs:284-291 | for a `web.` transform `dir + name`, when the directory does not contain the name, the candidate is the sibling `dir + "Web.config"` |
| `CommandProperties.AppSibling` | ApplyConfigTransformInPlace.VSIX/ApplyConfigTransformInPlaceCmd.cs:293-299 | when the stored transform is `dir + name` itself and the directory does not contain the name, the `app.` candidate is the sibling `dir + "App.config"` |
| `CommandProperties.AppLookupWithUnrelatedTransform` | ApplyConfigTransformInPlace.VSIX/ApplyConfigTransformInPlaceCmd.cs:295-296 | when the stored transform does not contain the `app.` name, the stored transform itself becomes the destination and the lookup succeeds iff it exists |
| `CommandProperties.ItemAnswerIgnoresLookup` | ApplyConfigTransformInPlace.VSIX/ApplyConfigTransformInPlaceCmd.cs:175-181 | once the lookup does not fault, the item answer is "ends with `.config`" and "reads as XML", whatever the lookup found |
| `CommandProperties.TransformFileSetOnlyWhenFound` | ApplyConfigTransformInPlace.VSIX/ApplyConfigTransformInPlaceCmd.cs:177-178 | `TransformFile` becomes the item path exactly when the lookup returned true, else keeps its value |
| `CommandProperties.EmptyItemPathFaults` | ApplyConfigTransformInPlace.VSIX/ApplyConfigTransformInPlaceCmd.cs:174 | an empty item path raises an argument error from `new FileInfo` before anything changes |
| `CommandProperties.GateDecision` | ApplyConfigTransformInPlace.VSIX/ApplyConfigTransformInPlaceCmd.cs:120-137 | shown iff single selection, then project, then item all pass; a failed selection or project check changes nothing; only the item check faults |
| `CommandProperties.GateIgnoresDestination` | ApplyConfigTransformInPlace.VSIX/ApplyConfigTransformInPlaceCmd.cs:177-181 | a well-formed `.config` item with neither prefix enables the command with no destination, and the merge call still uses the old pair |
| `CommandProperties.AppItemFaultsBeforeAnyTransform` | ApplyConfigTransformInPlace.VSIX/ApplyConfigTransformInPlaceCmd.cs:295 | with `TransformFile` null an `app.` item raises a null reference and the command stays hidden |
| `CommandProperties.WebTransformEnabled` | ApplyConfigTransformInPlace.VSIX/ApplyConfigTransformInPlaceCmd.cs:166-182 | a well-formed `web.…config` next to `Web.config`, in a directory that does not contain the name, enables the command and pairs it with that `Web.config` |
| `CommandProperties.AppTransformEnabled` | ApplyConfigTransformInPlace.VSIX/ApplyConfigTransformInPlaceCmd.cs:166-182 | a stored, well-formed `app.…config` next to `App.config`, in a directory that does not contain the name, enables the command and pairs it with that `App.config` |
| `CommandProperties.AppItemMergesIntoStoredTransform` | ApplyConfigTransformInPlace.VSIX/ApplyConfigTransformInPlaceCmd.cs:293-299 | with an unrelated transform stored that still exists, an `app.` item enables the command and the merge call writes it onto the stored transform file |
| `CommandProperties.AppItemMergesMissingTransformIntoItself` | ApplyConfigTransformInPlace.VSIX/ApplyConfigTransformInPlaceCmd.cs:293-299 | with an unrelated transform stored that no longer exists, an `app.` item still enables the command and the merge call is (stored, stored, stored) |
| `CommandProperties.WebLookupRewritesDirectory` | ApplyConfigTransformInPlace.VSIX/ApplyConfigTransformInPlaceCmd.cs:284-291 | for a `web.` transform `name\name`, the candidate is `Web.config\Web.config`, recorded with true only if it exists |
| `CommandProperties.ReplaceInSameNamedDirectory` | ApplyConfigTransformInPlace.VSIX/ApplyConfigTransformInPlaceCmd.cs:286 | `Replace` of `name` in `name\name` rewrites the directory as well as the file name |
| `CommandProperties.LookupKeepsFieldsSet` | ApplyConfigTransformInPlace.VSIX/ApplyConfigTransformInPlaceCmd.cs:281-303 | the lookup never sets a field back to null |
| `CommandProperties.ItemCheckKeepsFieldsSet` | ApplyConfigTransformInPlace.VSIX/ApplyConfigTransformInPlaceCmd.cs:166-182 | the item check never sets a field back to null |
| `CommandProperties.GateStepKeepsFieldsSet` | ApplyConfigTransformInPlace.VSIX/ApplyConfigTransformInPlaceCmd.cs:111-139 | one evaluation never sets a field back to null |
| `CommandProperties.FieldsNeverCleared` | ApplyConfigTransformInPlace.VSIX/ApplyConfigTransformInPlaceCmd.cs:177-178 | over any run of evaluations a field once set stays set |
| `CommandProperties.RejectedRunKeepsPair` | ApplyConfigTransformInPlace.VSIX/ApplyConfigTransformInPlaceCmd.cs:126-130 | evaluations that fail the selection or project check leave the stored pair exactly as it was |
| `CommandProperties.EngineCallInPlace` | ApplyConfigTransformInPlace.VSIX/ApplyConfigTransformInPlaceCmd.cs:270-277 | the merge call happens iff both fields are set, with original = output = `DestinationFile` and transform = `TransformFile` |
| `CommandProperties.ScenarioProjectSupported` | ApplyConfigTransformInPlace.VSIX/ApplyConfigTransformInPlaceCmd.cs:153-161 | the concrete project path `C:\src\Site\Site.csproj` has a supported extension, so the project check passes |
| `CommandProperties.ScenarioNames` | ApplyConfigTransformInPlace.VSIX/ApplyConfigTransformInPlaceCmd.cs:174-181 | the directory ends in a separator; `App.Dev.config` has no separator, does not occur in the directory, starts with `app.` and ends with `.config` ignoring case |
| `CommandProperties.AppDevScenario` | ApplyConfigTransformInPlace.VSIX/ApplyConfigTransformInPlaceCmd.cs:111-139 | `App.Dev.config` in a `.csproj` project faults on first evaluation; once stored, it is enabled and the merge call is (App.config, App.Dev.config, App.config) |

## Left out

- The IDE selection query `IsSingleProjectItemSelection`, `GetMkDocument`, COM pointers and hierarchies: they are inputs, the fields of `Selection`.
- `Initialize`, the constructor, the menu-service registration, `MenuItemCallback` and the command identifiers: menu wiring with no logic to model.
- The XML parse itself: the set `FileSystem.wellFormedXml` stands for the paths whose first node `XmlTextReader` reads with DTD processing ignored.
- The transform engine `XmlTransformer.Transform`: only its arguments are recorded, in a ghost log; its own failures are not modelled.
- The real file system: `FileSystem.existing` is a set of paths, compared exactly, so the case-insensitive path lookup of Windows is not modelled.
- `Debug.WriteLine` logging.
- Unicode: `\w` is taken over ASCII only (letters, digits and `_`), so letters such as `é` are not word characters in the model.
- Unicode: white space is taken over the ASCII and Latin-1 white-space characters only.
- Unicode: ignore-case comparison folds ASCII letters only, so culture-specific case rules are not modelled.
- Path validation in `new FileInfo` and `Path.GetExtension` beyond the empty path: invalid characters and over-long paths would raise exceptions that the model does not.
- `TransformCommand.ApplyConfigTransformInPlaceCmd.ProjectSupportsTransforms`: a successful project lookup that returns a null path is not modelled.
- `TransformCommand.ApplyConfigTransformInPlaceCmd.ItemSupportsTransforms`: a successful item lookup that returns a null path is not modelled either. `new FileInfo(null)` at `ApplyConfigTransformInPlaceCmd.cs:174` would raise `ArgumentNullException`, and `Selection.itemDocument` has no value for that case.
- `TransformLogic.IsSupportedTransform`: a null file name is not modelled. `Regex.Match(null)` at `ApplyConfigTransformInPlaceLogic.cs:17` would raise `ArgumentNullException`, and a Dafny `string` cannot be null.
