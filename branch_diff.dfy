/**
 * `compareBranchDiff` (src/index.ts:20-90) without its I/O: validate the
 * inputs, derive the output directory, then walk the parsed patches and
 * record, for each one kept, the directory to ensure, the file to write and
 * its content.
 */
module BranchDiff {
  import opened Wrappers
  import opened Strings
  import opened Validation
  import opened OutputPaths
  import opened Additions

  /** A parsed patch: the new file's name, if the parser found one, and its hunks. */
  datatype Patch = Patch(newFileName: Option<string>, hunks: seq<Hunk>)

  /** One `ensureDir(dir)` followed by one `writeFile(file, content)`. */
  datatype Write = Write(dir: string, file: string, content: string)

  /** Why `compareBranchDiff` throws before it writes anything. */
  datatype Error =
    | Invalid(reason: ValidationError)
    | NoOutputDir(repoPath: string)

  /** The loop's two `continue`s let the patch through: it is not null and its `newFileName` is not empty. */
  predicate Writable(p: Option<Patch>) {
    p.Some? && p.value.newFileName.Some? && p.value.newFileName.value != ""
  }

  /** The record of what the loop body does for one patch that is let through. */
  function WriteFor(outputDir: string, patch: Patch): Write
    requires patch.newFileName.Some?
  {
    var file := OutputFile(outputDir, patch.newFileName.value);
    Write(EnsuredDir(file), file, Join(AddedLines(patch.hunks), "\n"))
  }

  /** The records of one pass of the loop body: one write, or none after a `continue`. */
  function Emitted(outputDir: string, p: Option<Patch>): (r: seq<Write>)
    ensures |r| <= 1
    ensures r != [] <==> Writable(p)
  {
    if Writable(p) then [WriteFor(outputDir, p.value)] else []
  }

  /** The records of the whole loop, patch by patch. */
  function Writes(outputDir: string, patches: seq<Option<Patch>>): seq<Write> {
    if patches == [] then []
    else Writes(outputDir, patches[..|patches| - 1]) + Emitted(outputDir, patches[|patches| - 1])
  }

  /** The patches the loop lets through, in their order. */
  function WritablePatches(patches: seq<Option<Patch>>): (r: seq<Patch>)
    ensures forall k :: 0 <= k < |r| ==> r[k].newFileName.Some? && r[k].newFileName.value != ""
  {
    if patches == [] then []
    else
      var last := patches[|patches| - 1];
      WritablePatches(patches[..|patches| - 1]) + (if Writable(last) then [last.value] else [])
  }

  lemma {:induction false} WritesAppend(outputDir: string, a: seq<Option<Patch>>, b: seq<Option<Patch>>)
    ensures Writes(outputDir, a + b) == Writes(outputDir, a) + Writes(outputDir, b)
  {
    if b == [] {
      assert a + b == a;
    } else {
      var n := |b| - 1;
      WritesAppend(outputDir, a, b[..n]);
      assert (a + b)[..|a + b| - 1] == a + b[..n];
      assert (a + b)[|a + b| - 1] == b[n];
      AppendAssoc(Writes(outputDir, a), Writes(outputDir, b[..n]), Emitted(outputDir, b[n]));
    }
  }

  /** A patch is let through exactly when it is present with a non-empty new file name. */
  lemma {:induction false} WritablePatchesMember(patches: seq<Option<Patch>>, p: Patch)
    ensures p in WritablePatches(patches) <==> Some(p) in patches && p.newFileName.Some? && p.newFileName.value != ""
  {
    if patches != [] {
      var n := |patches| - 1;
      WritablePatchesMember(patches[..n], p);
      assert patches == patches[..n] + [patches[n]];
    }
  }

  /**
   * The loop writes exactly once for each patch it lets through, in patch
   * order, and nothing else.
   */
  lemma {:induction false} OneWritePerWritablePatch(outputDir: string, patches: seq<Option<Patch>>)
    ensures |Writes(outputDir, patches)| == |WritablePatches(patches)|
    ensures forall k :: 0 <= k < |Writes(outputDir, patches)| ==>
              Writes(outputDir, patches)[k] == WriteFor(outputDir, WritablePatches(patches)[k])
  {
    if patches != [] {
      OneWritePerWritablePatch(outputDir, patches[..|patches| - 1]);
    }
  }

  /**
   * Each record makes the file's parent directory, every file lies under
   * the output directory's name, and its content is the joined added lines
   * of a patch the loop let through.
   */
  lemma WritesShape(outputDir: string, patches: seq<Option<Patch>>)
    ensures forall w :: w in Writes(outputDir, patches) ==>
              |outputDir| <= |w.file| && w.file[..|outputDir|] == outputDir &&
              (NoSlash(w.file) ==> w.dir == "") &&
              (!NoSlash(w.file) ==> |w.dir| < |w.file| && w.file[..|w.dir|] == w.dir && w.file[|w.dir|] == '/' &&
                                    NoSlash(w.file[|w.dir| + 1..]))
    ensures forall w :: w in Writes(outputDir, patches) ==>
              exists p :: p in WritablePatches(patches) && w.content == Join(AddedLines(p.hunks), "\n")
  {
    var ws, ps := Writes(outputDir, patches), WritablePatches(patches);
    OneWritePerWritablePatch(outputDir, patches);
    forall w | w in ws
      ensures |outputDir| <= |w.file| && w.file[..|outputDir|] == outputDir
      ensures exists p :: p in ps && w.content == Join(AddedLines(p.hunks), "\n")
    {
      var k :| 0 <= k < |ws| && ws[k] == w;
      assert ps[k] in ps;
    }
  }

  /** A single patch that is let through gives exactly its own record. */
  lemma WritesOfOne(outputDir: string, patch: Patch)
    requires Writable(Some(patch))
    ensures Writes(outputDir, [Some(patch)]) == [WriteFor(outputDir, patch)]
  {
    assert [Some(patch)][..0] == [];
  }

  /**
   * A patch let through with no added line in any hunk is still written,
   * with empty content.
   */
  lemma EmptyPatchStillWritten(outputDir: string, patch: Patch)
    requires Writable(Some(patch))
    requires forall i :: 0 <= i < |AllLines(patch.hunks)| ==> !IsAdded(AllLines(patch.hunks)[i])
    ensures |Writes(outputDir, [Some(patch)])| == 1
    ensures Writes(outputDir, [Some(patch)])[0].content == ""
    ensures Writes(outputDir, [Some(patch)])[0].file == OutputFile(outputDir, patch.newFileName.value)
  {
    AddedLinesFlatten(patch.hunks);
    KeptLinesEmptyIff(AllLines(patch.hunks));
  }

  /**
   * One pass of the loop body: nothing after either `continue`, otherwise
   * the path rewrite, the directory to ensure and the extracted content.
   */
  method ProcessPatch(outputDir: string, patch: Option<Patch>) returns (w: seq<Write>)
    ensures w == Emitted(outputDir, patch)
  {
    w := [];
    if patch.None? {
      return;
    }
    var filePath := patch.value.newFileName;
    if filePath.None? || filePath.value == "" {
      return;
    }
    var outputFile := OutputFile(outputDir, filePath.value);
    var dir := EnsuredDir(outputFile);
    var content := ExtractContent(patch.value.hunks);
    w := [Write(dir, outputFile, content)];
  }

  /** One more pass of the loop body adds that patch's records at the end. */
  lemma WritesSnoc(outputDir: string, patches: seq<Option<Patch>>, i: nat)
    requires i < |patches|
    ensures Writes(outputDir, patches[..i + 1]) == Writes(outputDir, patches[..i]) + Emitted(outputDir, patches[i])
  {
    assert patches[..i + 1][..i] == patches[..i];
  }

  /** The `for … of patches` loop, recording its effects instead of performing them. */
  method ExtractPatches(outputDir: string, patches: seq<Option<Patch>>) returns (writes: seq<Write>)
    ensures writes == Writes(outputDir, patches)
  {
    writes := [];
    var i := 0;
    while i < |patches|
      invariant 0 <= i <= |patches|
      invariant writes == Writes(outputDir, patches[..i])
    {
      var w := ProcessPatch(outputDir, patches[i]);
      WritesSnoc(outputDir, patches, i);
      writes := writes + w;
      i := i + 1;
    }
    assert patches[..i] == patches;
  }

  /**
   * `compareBranchDiff`: the guards, then the output directory, then the
   * loop. `pathExists` and `gitDirExists` are the two `existsSync` answers,
   * `branches` what `git branch` lists and `patches` what the diff parses to.
   */
  method CompareBranchDiff(baseBranch: string, compareBranch: string, repoPath: string,
                           pathExists: bool, gitDirExists: bool, branches: seq<string>,
                           patches: seq<Option<Patch>>)
    returns (r: Result<seq<Write>, Error>)
    ensures var v := Validate(pathExists, gitDirExists, branches, baseBranch, compareBranch, repoPath);
            v.Some? ==> r == Failure(Invalid(v.value))
    ensures var v := Validate(pathExists, gitDirExists, branches, baseBranch, compareBranch, repoPath);
            v.None? && OutputDir(repoPath).None? ==> r == Failure(NoOutputDir(repoPath))
    ensures var v := Validate(pathExists, gitDirExists, branches, baseBranch, compareBranch, repoPath);
            v.None? && OutputDir(repoPath).Some? ==> r == Success(Writes(OutputDir(repoPath).value, patches))
    ensures r.Success? <==> pathExists && gitDirExists && baseBranch in branches &&
                            compareBranch in branches && OutputDir(repoPath).Some?
  {
    var invalid := Validate(pathExists, gitDirExists, branches, baseBranch, compareBranch, repoPath);
    if invalid.Some? {
      return Failure(Invalid(invalid.value));
    }
    var outputDir := OutputDir(repoPath);
    if outputDir.None? {
      return Failure(NoOutputDir(repoPath));
    }
    var writes := ExtractPatches(outputDir.value, patches);
    r := Success(writes);
  }

  /** A record is fixed by its patch's output file and its kept lines. */
  lemma WriteForOf(outputDir: string, patch: Patch, file: string, kept: seq<string>)
    requires patch.newFileName.Some?
    requires OutputFile(outputDir, patch.newFileName.value) == file
    requires AddedLines(patch.hunks) == kept
    ensures WriteFor(outputDir, patch) == Write(EnsuredDir(file), file, Join(kept, "\n"))
  {
  }

  /** `b/dir/file.txt` goes to `<outputDir>/dir/file.txt`. */
  lemma OutputFileDirExample(outputDir: string)
    ensures OutputFile(outputDir, "b/dir/file.txt") == outputDir + "/dir/file.txt"
  {
    assert Reroot("b/dir/file.txt") == "/dir/file.txt" by {
      RerootStripsFirstSegment("b", "dir/file.txt");
    }
  }

  /** The directory made for `<outputDir>/dir/file.txt` is `<outputDir>/dir`. */
  lemma EnsuredDirFileExample(outputDir: string)
    ensures EnsuredDir(outputDir + "/dir/file.txt") == outputDir + "/dir"
  {
    assert outputDir + "/dir/file.txt" == (outputDir + "/dir") + "/" + "file.txt";
    EnsuredDirOfChild(outputDir + "/dir", "file.txt");
  }

  /** Of `+foo`, ` bar`, `-baz` only `foo` is kept. */
  lemma KeptLinesExample()
    ensures KeptLines(["+foo", " bar", "-baz"]) == ["foo"]
  {
    var lines := ["+foo", " bar", "-baz"];
    assert KeptLines(lines[2..]) == [] by { assert lines[2..][1..] == []; }
    assert KeptLines(lines[1..]) == [] by { assert lines[1..][1..] == lines[2..]; }
  }

  /**
   * A hunk `+foo`, ` bar`, `-baz` of `b/dir/file.txt` writes exactly `foo`
   * to `<outputDir>/dir/file.txt`.
   */
  lemma SingleAddedLineExample(outputDir: string)
    ensures Writes(outputDir, [Some(Patch(Some("b/dir/file.txt"), [Hunk(["+foo", " bar", "-baz"])]))])
         == [Write(outputDir + "/dir", outputDir + "/dir/file.txt", "foo")]
  {
    var p := Patch(Some("b/dir/file.txt"), [Hunk(["+foo", " bar", "-baz"])]);
    OutputFileDirExample(outputDir);
    EnsuredDirFileExample(outputDir);
    KeptLinesExample();
    AddedLinesOfOne(p.hunks[0]);
    WriteForOf(outputDir, p, outputDir + "/dir/file.txt", ["foo"]);
    WritesOfOne(outputDir, p);
  }

  /** `/repos/app` names the output directory `app`. */
  lemma OutputDirAppExample()
    ensures OutputDir("/repos/app") == Some("app")
  {
    OutputDirIsLeftmostMatch("/repos/app");
    assert MatchesAt("/repos/app", 7, 10);
  }

  /**
   * `/dev/null` has no first segment to strip: it goes to
   * `<outputDir>/dev/null`, and `<outputDir>/dev` is made for it.
   */
  lemma DevNullPathsExample(outputDir: string)
    ensures OutputFile(outputDir, "/dev/null") == outputDir + "/dev/null"
    ensures EnsuredDir(outputDir + "/dev/null") == outputDir + "/dev"
  {
    assert "/dev/null"[0] == '/';
    assert outputDir + "/dev/null" == (outputDir + "/dev") + "/" + "null";
    EnsuredDirOfChild(outputDir + "/dev", "null");
  }

  /**
   * A deletion whose new file name the parser reports as `/dev/null` is not
   * skipped: the name has no first segment to strip, and an empty file
   * `<outputDir>/dev/null` is written.
   */
  lemma DevNullIsWritten(outputDir: string, hunks: seq<Hunk>)
    requires forall i :: 0 <= i < |AllLines(hunks)| ==> !IsAdded(AllLines(hunks)[i])
    ensures Writes(outputDir, [Some(Patch(Some("/dev/null"), hunks))])
         == [Write(outputDir + "/dev", outputDir + "/dev/null", "")]
  {
    var p := Patch(Some("/dev/null"), hunks);
    AddedLinesFlatten(hunks);
    KeptLinesEmptyIff(AllLines(hunks));
    DevNullPathsExample(outputDir);
    WriteForOf(outputDir, p, outputDir + "/dev/null", []);
    WritesOfOne(outputDir, p);
  }
}
