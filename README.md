# git-diff: a Dafny model of `compareBranchDiff`

`git-diff` is a command-line tool. It compares two branches of a local Git
repository and writes, for every changed file, a copy holding only the lines
the diff adds. The files go into a directory named after the repository's
last path segment. This project models the logic of `compareBranchDiff` in
`src/index.ts` and proves properties of it. The logic has four parts:

- **Validation** (`validation.dfy`, module `Validation`). The four guards run
  in their fixed order: the path exists, it holds `.git`, the base branch is
  listed, the compare branch is listed. The first failure is reported with the
  source's own (Chinese) message text.
- **Output paths** (`output_paths.dfy`, module `OutputPaths`). The output
  directory comes from the regular expression `[^/]+(?=\/?$)`. It is proved to
  be the leftmost match of that expression, and to be missing exactly for
  `""`, `"/"` and paths ending in `"//"`. The file path loses its first
  segment, and the directory to ensure is the output file's text before its
  last `/`.
- **Added-line extraction** (`added_lines.dfy`, module `Additions`). Lines
  that start with `+` but not `++` are kept without their marker and joined
  with newlines. The source's nested `forEach` loops are a method with loop
  invariants, proved against the functions `KeptLines` and `AddedLines`.
- **The patch loop** (`branch_diff.dfy`, module `BranchDiff`). Null patches
  and patches with an empty or absent `newFileName` are skipped. Every other
  patch yields one `Write` record: the directory to ensure, the file and its
  content. The loop is a method proved against the function `Writes`.

`strings.dfy` (module `Strings`) states the JavaScript operations the code
uses: `startsWith`, `lastIndexOf`, `substring` (which clamps its indices and
swaps them when the first is larger) and `Array.prototype.join`. The code
does not call `indexOf`. `Strings.IndexOf` is how the model finds the first
'/', which is where the anchored pattern `^[^/]+\/` of the `replace` on
src/index.ts:60 ends. `split` appears only as the inverse of `join`.
`wrappers.dfy` holds `Option` and `Result`.

Nothing here does I/O. The answers of `existsSync`, the branch list from
`git branch` and the patches from `parsePatch` are parameters. The writes are
returned as a sequence of records instead of being performed.

A deleted file is not skipped. `parsePatch` reports its new name as
`/dev/null`, which is not empty, so it passes the `!filePath` test at
src/index.ts:56. It has no first segment to strip, so an empty
`<outputDir>/dev/null` is written (`BranchDiff.DevNullIsWritten`).

## Model

| member | source | states |
|---|---|---|
| Validation.Validate | src/index.ts:22-38 | No error exactly when all four guards pass; each error is reported exactly when every earlier guard passes and its own fails |
| Validation.MissingPathChecksNothingElse | src/index.ts:22-24 | A missing path is reported whatever `.git`, the branch list and the branch names are |
| Validation.MissingGitDirChecksNoBranch | src/index.ts:26-28 | A missing `.git` is reported whatever the branch list and branch names are |
| Validation.BaseBranchCheckedFirst | src/index.ts:33-38 | An unlisted base branch is reported whatever the compare branch is |
| Validation.Message | src/index.ts:23-37 | The four literal texts; both branch messages end with the missing branch, the "available branches" label and then the whole branch list joined with ", " |
| Strings.StartsWith | src/index.ts:69 | Definition of `startsWith`; what its two uses on line 69 decide is the contract of `Additions.IsAdded` |
| Strings.IndexOf | src/index.ts:60 | The first index of the character, or -1 exactly when it is absent |
| Strings.LastIndexOf | src/index.ts:61 | The last index of the character, or -1 exactly when it is absent |
| Strings.Substring | src/index.ts:61 | In-range indices give the slice; two non-positive indices give ""; the result is never longer than the input |
| Strings.Join | src/index.ts:75 | No parts give ""; otherwise the text starts with the first part and ends with the last |
| Strings.SplitJoin | src/index.ts:75 | Joining pieces free of the separator and splitting on it gives the pieces back |
| OutputPaths.OutputDir | src/index.ts:40 | The output directory is non-empty, has no '/', and is what follows some '/' (or the start) of the path, with at most one '/' after it |
| OutputPaths.OutputDirIsLeftmostMatch | src/index.ts:40 | The derived name is missing exactly when the regular expression has no match, and otherwise it is the leftmost match |
| OutputPaths.OutputDirFailsIff | src/index.ts:40 | No name is derived (the source's `!` then throws) exactly for "", "/" and paths ending in "//" |
| OutputPaths.Reroot | src/index.ts:60 | A path with no '/' or a leading '/' is kept whole; any other path loses a non-empty first segment without '/', and what remains starts with '/' |
| OutputPaths.RerootStripsFirstSegment | src/index.ts:60 | `segment/rest` becomes `/rest` |
| OutputPaths.OutputFile | src/index.ts:60 | The output file starts with the output directory and is at most the file path longer |
| OutputPaths.EnsuredDir | src/index.ts:61 | For a file with a '/', the directory is the text before its last '/'; for a file with none, it is "" |
| OutputPaths.EnsuredDirOfChild | src/index.ts:61 | The directory made for `dir/name` is `dir` |
| OutputPaths.EnsuredDirShift | src/index.ts:61 | Putting text in front of a path with a '/' puts the same text in front of its directory |
| OutputPaths.OutputFileInsideOutputDir | src/index.ts:60-61 | A path `segment/rest` goes to `outputDir/rest`, and its directory lies under `outputDir` |
| OutputPaths.UnprefixedPathGluedToOutputDir | src/index.ts:60-61 | A path with no '/' is glued to the output directory with no separator, and its directory is "" |
| Additions.IsAdded | src/index.ts:69 | A line is kept exactly when its first character is '+' and its second, if any, is not |
| Additions.Contribution | src/index.ts:69-70 | A line contributes at most one text, exactly when it is an added line, and that text is the line without its leading '+' |
| Additions.KeptLines | src/index.ts:66-73 | At most one kept line per input line |
| Additions.AddedLines | src/index.ts:66-73 | At most one kept line per line of the patch's hunks; `AddedLinesFlatten` gives its order |
| Additions.KeptLinesAppend | src/index.ts:66-73 | Keeping lines commutes with concatenation, so output order is input order |
| Additions.KeptLinesMember | src/index.ts:69-70 | A text is kept exactly when some added line carries it after its marker |
| Additions.KeptLinesEmptyIff | src/index.ts:64-75 | Nothing is kept exactly when no line is an added line |
| Additions.AddedLinesFlatten | src/index.ts:66-73 | Going hunk by hunk, then line by line, is filtering all lines of all hunks in order |
| Additions.ExtractContent | src/index.ts:63-75 | The nested loops and join give the kept lines of all hunks, in order, joined with "\n" |
| Additions.ContentSplitsIntoAddedLines | src/index.ts:75 | When no line holds a newline, the content splits back into exactly the kept lines |
| BranchDiff.Writable | src/index.ts:52-58 | Definition of the two `continue` tests; `WritablePatchesMember` states which patches pass |
| BranchDiff.WriteFor | src/index.ts:60-77 | Definition of one pass's record; `WritesShape` states its file, directory and content |
| BranchDiff.Emitted | src/index.ts:51-79 | One pass yields at most one record, and one exactly when the patch is let through |
| BranchDiff.Writes | src/index.ts:51-80 | Definition of the loop's records; `OneWritePerWritablePatch` and `WritesAppend` state their number and order |
| BranchDiff.WritablePatches | src/index.ts:51-58 | Every patch let through has a non-empty new file name |
| BranchDiff.WritablePatchesMember | src/index.ts:51-58 | A patch is let through exactly when it is present with a non-empty new file name |
| BranchDiff.WritesAppend | src/index.ts:51-80 | The records of two runs of patches are the records of each, in order |
| BranchDiff.OneWritePerWritablePatch | src/index.ts:51-80 | Exactly one record per patch let through, in patch order |
| BranchDiff.WritesShape | src/index.ts:51-80 | Each record's file is under the output directory, its directory is the file's parent, and its content is the joined added lines of a patch let through |
| BranchDiff.WritesOfOne | src/index.ts:51-80 | A single patch let through gives exactly its own record |
| BranchDiff.EmptyPatchStillWritten | src/index.ts:64-77 | A patch with no added line is still written, with empty content |
| BranchDiff.ProcessPatch | src/index.ts:51-79 | One pass of the loop body emits nothing after either `continue`, and one record otherwise |
| BranchDiff.ExtractPatches | src/index.ts:51-80 | The loop builds exactly the records of `Writes` |
| BranchDiff.CompareBranchDiff | src/index.ts:20-90 | A validation error or an underivable output directory fails before any record; otherwise the records of all patches; success exactly when all guards pass and a name is derived |
| BranchDiff.OutputFileDirExample | src/index.ts:60 | `b/dir/file.txt` goes to `<outputDir>/dir/file.txt` |
| BranchDiff.EnsuredDirFileExample | src/index.ts:61 | The directory made for `<outputDir>/dir/file.txt` is `<outputDir>/dir` |
| BranchDiff.KeptLinesExample | src/index.ts:69-70 | Of `+foo`, ` bar`, `-baz` only `foo` is kept |
| BranchDiff.SingleAddedLineExample | src/index.ts:51-80 | The hunk `+foo`, ` bar`, `-baz` of `b/dir/file.txt` writes `foo` to `<outputDir>/dir/file.txt` and ensures `<outputDir>/dir` |
| BranchDiff.OutputDirAppExample | src/index.ts:40 | `/repos/app` names the output directory `app` |
| BranchDiff.DevNullPathsExample | src/index.ts:60-61 | `/dev/null` goes to `<outputDir>/dev/null`, and `<outputDir>/dev` is made for it |
| BranchDiff.DevNullIsWritten | src/index.ts:52-61 | A patch named `/dev/null` with no added lines writes an empty `<outputDir>/dev/null` |

## Left out

- The `simple-git` calls `branch()` and `diff()` (src/index.ts:30-32, 43) run an external process. The branch list is a parameter, and the diff is represented by its parsed patches.
- `parsePatch` from the `diff` package (src/index.ts:44) is a library outside this repository. The patches it returns are a parameter, and unified-diff parsing is not modelled.
- The `fs-extra` effects are filesystem I/O. `existsSync` (src/index.ts:22, 26) is two boolean parameters. `ensureDir` and `writeFile` (src/index.ts:61, 77) become the `Write` records. The removal of an existing output directory (src/index.ts:46-47) is not modelled.
- The `process.cwd()` join and `pathe` normalisation of the written path (src/index.ts:77, 84) depend on the environment. The records carry the path relative to the working directory.
- The `ora` spinner, the `chalk` colouring and the `console.error` catch-all (src/index.ts:15-18, 49, 81-89) are presentation.
- A failing `ensureDir` or `writeFile` (src/index.ts:61, 77) is not modelled. Such a failure makes the `catch` at src/index.ts:87-89 end the loop: files already written stay on disk, and later patches are never written. The `Write` records are the intended writes of a run in which every effect succeeds.
- The `cac` command-line wiring (src/index.ts:92-102) and the `async`/`await` sequencing add nothing to reason about.
- Validation.Message: the contract covers only the two branch messages. The two path messages are fixed text around the path and are stated only by definition.
