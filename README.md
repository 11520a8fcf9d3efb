# grunt-orphans: the orphan check, modelled in Dafny

The `orphans` grunt task lists JavaScript files of a project tree that no
module depends on. One run of `orphansTaskMethod` does this:

1. It asserts two options: `entryFileGlob` is a string or an array, and
   `whitelist` is an array.
2. It normalises paths. Each tree file (the `src` lists of the grunt task's
   `this.files`, flattened in order) loses the first occurrence of
   `options.baseDir`. Each expanded whitelist path loses it too, and then
   loses its first character.
3. It builds the dictionary `filesByModuleName`. Every tree file, minus its
   first character, becomes a key mapped to `false`.
4. It asks madge for the dependency tree and sets every dependency target to
   `true`.
5. It keeps, in key order, the keys still `false` that equal no whitelist
   entry. The task fails with "Found N orphaned files." when that list is
   non-empty.

The model has six modules, one file each:

- `Wrappers` (`wrappers.dfy`): `Option`.
- `JsStrings` (`js_strings.dfy`): the JavaScript string operations the grunt task
  relies on. These are `replace` with a string pattern (first occurrence
  only, anywhere), `substr(1)`, and the decimal text of a count.
- `FileTree` (`file_tree.dfy`): `getAllFilesInTree` and the whitelist
  normalisation, as functions over sequences.
- `FlagTable` (`flag_table.dfy`): the `filesByModuleName` object.
  - Its value is a `Table`: the keys in `Object.keys` order, plus the flags.
  - The class `ModuleFlags` is the object itself, with `keys` and `flags`
    fields. Its loop methods (`AddUnusedFiles`, `SetEach`,
    `MarkDependencies`) are proved against the functions `Assign` and
    `AssignAll`.
  - Lemmas about those functions give key order, flag values and
    monotonicity.
- `OrphanReport` (`orphan_report.dfy`): the orphan filter `Orphans` and a
  reference definition `Unreached`: candidates that are no target and no
  whitelist entry. The main theorem is `ReportAfterMarking`. It says that
  after both loops the filter's result equals `Unreached` over the distinct
  candidate names.
- `GruntOrphans` (`grunt_orphans.dfy`): the options, the option checks, the
  outcome of a run, the method `RunOrphansTask` that runs the pipeline on a
  fresh `ModuleFlags` object, and the end-to-end properties.

Inputs that the grunt task obtains through I/O or foreign code are parameters:

- the grunt task's `this.files` entries (`seq<FileEntry>`);
- the result of `grunt.file.expand(options.whitelist)` (`seq<string>`);
- madge's dependency tree (`seq<TreeEntry>`).

The tree is an ordered sequence of entries, not a map. It is a JavaScript
object, and its iteration order decides where targets that are not
candidates go in the key order. `TreeOrderIrrelevant` proves that the
report depends only on the set of targets. A map view of the tree therefore
gives the same report.

Where the code and its own description differ, the model follows the code:

- `baseDir` is removed at its first occurrence anywhere in a path, not only
  at the start as the comment at tasks/grunt-orphans.js:96-98 says.
  `ReplaceFirstNotOnlyAtStart` gives an example. `ReplaceFirst` proves that
  the two agree when the path starts with `baseDir`.
- A path that does not contain `baseDir` is kept as it is. It is not an
  error.
- A dependency target that is not a candidate is inserted into the
  dictionary with `true`. It is not dropped. `ReportAfterMarking` shows such
  a target is never reported.
- An entry point gets no exemption. It is reported unless some module
  depends on it or it is whitelisted (`OwnOutboundEdgeDoesNotMark`).
- `baseDir` defaults to `null`. `replace(null, '')` searches for the text
  "null". `NullBaseDirSearchesNullText` states what that does to a path, and
  `NullBaseDirDropsFirstLetter` shows "src/a.js" becoming "rc/a.js".

## Model

| member | source | states |
|---|---|---|
| JsStrings.IndexOfFrom | tasks/grunt-orphans.js:106 | if a position is found, the pattern occurs there and at no earlier position from the start; if none is found, the pattern occurs nowhere |
| JsStrings.ReplaceFirst | tasks/grunt-orphans.js:106 | a path without the pattern is unchanged; otherwise the first occurrence, and only it, is cut out (the text before it followed by the text after it); when the path starts with the pattern, the result is the rest of the path |
| JsStrings.ReplaceFirstNotOnlyAtStart | tasks/grunt-orphans.js:96-106 | removal happens at the first occurrence even when it is not a prefix ("lib/src/a.js" without "src" is "lib//a.js") |
| JsStrings.DropFirst | tasks/grunt-orphans.js:45 | `substr(1)`: a non-empty string loses exactly its first character; the empty string stays empty |
| JsStrings.DecimalString | tasks/grunt-orphans.js:83 | the count's text is non-empty, all decimal digits, with no leading zero unless the count is 0 |
| JsStrings.ParseDecimalString | tasks/grunt-orphans.js:83 | the count's decimal text reads back as the count |
| FileTree.AllFilesInTree | tasks/grunt-orphans.js:102-108 | the flattened list has one path per `src` element of every entry |
| FileTree.AllFilesInTreeConcat | tasks/grunt-orphans.js:102-108 | flattening distributes over concatenation of entries, so entries come in order, each entry's paths in their own order |
| FileTree.AllFilesInTreeMembers | tasks/grunt-orphans.js:102-108 | every `src` path, with its first `baseDir` removed, is in the list, and every listed path is such a path |
| FileTree.NormalizeWhitelist | tasks/grunt-orphans.js:32-34 | one entry per expanded path: the path without its first `baseDir`, then without its first character |
| FileTree.ModuleName | tasks/grunt-orphans.js:33 | normalising a non-empty path always shortens it; its behaviour for paths under `baseDir` and for the `null` default is proved in `ModuleNameUnderBaseDir` and `NullBaseDirSearchesNullText` |
| FileTree.NullBaseDirSearchesNullText | tasks/grunt-orphans.js:16-22 | with the default `null` baseDir a path without the text "null" only loses its first character, and a path starting with "null" loses those four characters and one more |
| FileTree.NullBaseDirDropsFirstLetter | tasks/grunt-orphans.js:16-22 | with the default `null` baseDir the relative path "src/a.js" gets the name "rc/a.js" |
| FileTree.ModuleNameUnderBaseDir | tasks/grunt-orphans.js:33 | a path `baseDir + separator + rest` gets the name `rest` |
| FlagTable.Assign | tasks/grunt-orphans.js:48 | setting a property keeps the dictionary well formed: distinct keys that are exactly the stored ones |
| FlagTable.AssignAll | tasks/grunt-orphans.js:44-49 | a sequence of assignments adds at most one key per assigned name; key order, flags and well-formedness are proved in `AssignAllKeys`, `AssignAllFlags` and `AssignAllWellFormed` |
| FlagTable.AssignAllWellFormed | tasks/grunt-orphans.js:44-49 | any sequence of assignments keeps the dictionary well formed |
| FlagTable.AssignAllConcat | tasks/grunt-orphans.js:61-65 | assigning `a + b` equals assigning `a` and then `b` |
| FlagTable.AssignAllFlags | tasks/grunt-orphans.js:61-65 | after assigning a value to names, the keys are the old keys plus the names; each name holds the value; every other key keeps its flag |
| FlagTable.AssignAllKeys | tasks/grunt-orphans.js:61-65 | the old key order is a prefix of the new one; each key added after it is an assigned name that was not a key before |
| FlagTable.AssignAllFromEmpty | tasks/grunt-orphans.js:43-49 | starting from `{}`, the keys are the distinct names in order and every name is mapped to the assigned value |
| FlagTable.Dedup | tasks/grunt-orphans.js:44-49 | the key list has no repeats and holds exactly the names assigned |
| FlagTable.DedupOfDistinct | tasks/grunt-orphans.js:44-49 | names without repeats become the keys in their own order |
| FlagTable.DedupFirstOccurrenceOrder | tasks/grunt-orphans.js:44-49 | keys are ordered by the first time each name was assigned |
| FlagTable.FirstIndex | tasks/grunt-orphans.js:44-49 | the position found holds the name and no earlier position does |
| FlagTable.Targets | tasks/grunt-orphans.js:61-65 | the list of marked names is empty iff no entry of the tree has a dependency |
| FlagTable.TargetsMembers | tasks/grunt-orphans.js:61-65 | the marked names are exactly the dependencies of the tree's entries (an entry's own source name is not one unless some entry depends on it); a tree without dependencies marks nothing |
| FlagTable.MarkingIsMonotone | tasks/grunt-orphans.js:61-65 | marking never turns `true` into `false`; a flag that is `false` afterwards was `false` before and is no target |
| FlagTable.ModuleNames | tasks/grunt-orphans.js:44-45 | each tree file gives the name with its first character dropped, in order |
| FlagTable.ModuleFlags.constructor | tasks/grunt-orphans.js:43 | a new dictionary is well formed and empty |
| FlagTable.ModuleFlags.Set | tasks/grunt-orphans.js:48 | the new state is the old one with the property set; a new key goes to the end of the key order |
| FlagTable.ModuleFlags.AddUnusedFiles | tasks/grunt-orphans.js:44-49 | the loop leaves the dictionary as every tree file's name set to `false`, in order |
| FlagTable.ModuleFlags.SetEach | tasks/grunt-orphans.js:62-64 | the inner loop leaves the dictionary as every dependency set to `true`, in order |
| FlagTable.ModuleFlags.MarkDependencies | tasks/grunt-orphans.js:61-65 | the nested loop leaves the dictionary as every target of every entry set to `true`, in visiting order |
| OrphanReport.Orphans | tasks/grunt-orphans.js:68-74 | the filter reports at most one name per key; membership and order are proved in `OrphansMembers` and `OrphansSubsequence` |
| OrphanReport.OrphansMembers | tasks/grunt-orphans.js:68-74 | a name is in the filter's result iff it is a key, its flag is `false` and it equals no whitelist entry |
| OrphanReport.OrphansSubsequence | tasks/grunt-orphans.js:68-74 | the filter's result is a subsequence of the keys, so it keeps key order |
| OrphanReport.UnreachedMembers | tasks/grunt-orphans.js:68-74 | the reference report holds exactly the candidates that are no target and not whitelisted |
| OrphanReport.UnreachedSubsequence | tasks/grunt-orphans.js:68-74 | the reference report keeps candidate order |
| OrphanReport.OrphansConcat | tasks/grunt-orphans.js:68-74 | filtering a concatenation of keys is the concatenation of the filtered parts |
| OrphanReport.OrphansAreUnreached | tasks/grunt-orphans.js:61-74 | when a key's flag is `false` exactly when it is no target, the filter gives the reference report |
| OrphanReport.NoUnusedNoOrphans | tasks/grunt-orphans.js:68-74 | keys that are all marked leave nothing to report |
| OrphanReport.Report | tasks/grunt-orphans.js:43-74 | after both loops a name is reported iff it was a tree file's name, is no dependency target and is not whitelisted |
| OrphanReport.MarkingAddsOnlyReached | tasks/grunt-orphans.js:61-74 | keys the marking loop adds come after the existing ones and none of them is an orphan |
| OrphanReport.OrphansAfterMarking | tasks/grunt-orphans.js:43-74 | the filter over the dictionary left by both loops equals the reference report over the distinct names |
| OrphanReport.ReportAfterMarking | tasks/grunt-orphans.js:43-74 | after both loops the report is the distinct candidate names, in first-insertion order, that are no target and no whitelist entry; inserted targets never appear |
| OrphanReport.ReachedOneOfThree | tasks/grunt-orphans.js:43-74 | candidates a, b, c with only a depended on report [b, c] |
| OrphanReport.WhitelistedWithoutTree | tasks/grunt-orphans.js:43-74 | candidates a, b, whitelist b, no tree: the report is [a] |
| OrphanReport.OwnOutboundEdgeDoesNotMark | tasks/grunt-orphans.js:61-74 | a module whose only edge is its own, to a file outside the tree, is still reported |
| GruntOrphans.CheckOptions | tasks/grunt-orphans.js:24-28 | the options pass iff `entryFileGlob` is a string or an array and `whitelist` is an array; a bad `entryFileGlob` is reported first; with a good `entryFileGlob` a non-array `whitelist` is reported |
| GruntOrphans.DefaultOptionsRejected | tasks/grunt-orphans.js:15-28 | the declared defaults alone fail the first assertion, since `entryFileGlob` defaults to `null` |
| GruntOrphans.TaskOutcome.Message | tasks/grunt-orphans.js:24-85 | a run has a message iff it fails; the message of a run with orphans carries their count |
| GruntOrphans.CountBetweenWords | tasks/grunt-orphans.js:83 | digits between "Found " and " orphaned files." read back as their value |
| GruntOrphans.FailureMessage | tasks/grunt-orphans.js:81-85 | the failure message has the expected shape and gives back the orphan count |
| GruntOrphans.TreeFileNames | tasks/grunt-orphans.js:38-49 | the names given to tree files are exactly the module names of the `src` paths |
| GruntOrphans.Candidates | tasks/grunt-orphans.js:38-49 | the dictionary's initial keys have no repeats, and they are exactly the module names of the `src` paths |
| GruntOrphans.OrphansTask | tasks/grunt-orphans.js:24-85 | a failed option check decides the outcome before any file list or tree is looked at, and only it gives a configuration error; a run that fails on orphans reports at least one |
| GruntOrphans.RunOrphansTask | tasks/grunt-orphans.js:13-89 | checking, normalising, building, marking and filtering on a fresh dictionary gives the run's outcome as `OrphansTask` defines it |
| GruntOrphans.ReportIsUnreachedCandidates | tasks/grunt-orphans.js:38-85 | with valid options the reported list is the reference report over the candidates; the run fails iff that list is non-empty |
| GruntOrphans.FailureMessageCountsReport | tasks/grunt-orphans.js:68-85 | with valid options the run has a failure message iff some candidate is unreached, and the message carries how many are |
| GruntOrphans.ReportedIff | tasks/grunt-orphans.js:24-74 | a name is reported iff the options are valid, it is a candidate, it is no dependency target and it is not whitelisted |
| GruntOrphans.EmptyTreeReportsUnwhitelisted | tasks/grunt-orphans.js:44-49 | with no dependencies, the report holds exactly the candidates minus the whitelist, in key order |
| GruntOrphans.WhitelistCoveringCandidatesPasses | tasks/grunt-orphans.js:68-85 | if every candidate is whitelisted, the run passes whatever the tree |
| GruntOrphans.TreeOrderIrrelevant | tasks/grunt-orphans.js:58-74 | two trees with the same set of targets give the same outcome |
| GruntOrphans.UnreachedDependsOnTargetSet | tasks/grunt-orphans.js:61-74 | the reference report depends on the targets only through their set |
| GruntOrphans.WhitelistedTreeFileNeverReported | tasks/grunt-orphans.js:32-49 | a path that is both a tree file and a whitelist match normalises to the same name, which is a candidate and is never reported |

## Left out

- The `madge(...)` call and its promise chain (tasks/grunt-orphans.js:58-66, 88) are foreign, asynchronous code. The tree is an input, and a madge failure (caught and only logged) is not modelled.
- Globbing with `grunt.file.expand` (lines 32 and 53) reads the file system. The expanded whitelist and the grunt task's `this.files` are inputs. The expanded entry files feed only madge.
- Logging and exit signalling are not modelled: `grunt.log.warn` per orphan with `path.join`, `grunt.fail.warn`, `grunt.log.error` and `done()` (lines 75-86). The model keeps the outcome, the orphan list and the text of the failure message. When `baseDir` is `null` and orphans exist, `path.join(null, f)` throws before `grunt.fail.warn` runs. The model does not capture that.
- `getMadgeOpts` (lines 121-132) only assembles options for madge and reads `grunt.config`.
- Task registration and option defaulting by grunt (lines 8-22) are not modelled. `TaskOptions` holds the options after merging. `webpackConfig` and `fileExtensions` reach only madge and are not part of it.
- `baseDir` values other than a string or `null` are not modelled (JavaScript would convert them to text for `replace`).
- JavaScript's key order for integer-like property names is not modelled: such keys come first in `Object.keys`. Every key keeps insertion order here.
- The special property `__proto__` is not modelled: assigning a boolean to it does not create a key.
- Counts of 10^21 or more are not modelled: JavaScript prints them in exponent form. `DecimalString` always gives plain digits.
- The madge tree is a JavaScript object, so its module names cannot repeat. The model accepts a repeated source entry and treats it as one more entry to scan.
- Strings are sequences of Unicode code points. JavaScript strings are sequences of UTF-16 code units, so `substr(1)` on a path that starts with a character outside the Basic Multilingual Plane removes half of a surrogate pair; `DropFirst` removes the whole character.
