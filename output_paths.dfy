/**
 * Where each extracted file goes (src/index.ts:40, 60, 61): the output
 * directory named after the repository, the file path re-rooted under it,
 * and the directory made to exist before the file is written.
 */
module OutputPaths {
  import opened Wrappers
  import opened Strings

  /** `s` holds no '/': every character of it matches `[^/]`. */
  predicate NoSlash(s: string) {
    '/' !in s
  }

  /**
   * The regular expression `[^/]+(?=\/?$)` matches `s[i..j]`: a non-empty run
   * of characters other than '/', followed by at most one '/' and then the
   * end of the input.
   */
  predicate MatchesAt(s: string, i: int, j: int) {
    0 <= i < j <= |s| && NoSlash(s[i..j]) && (j == |s| || (j == |s| - 1 && s[j] == '/'))
  }

  /** Where the last segment of `s` ends once one trailing '/' is set aside. */
  function SegmentEnd(s: string): (e: nat)
    ensures e <= |s|
  {
    if |s| > 0 && s[|s| - 1] == '/' then |s| - 1 else |s|
  }

  /** Where the last segment of `s` starts: just after the last '/' before SegmentEnd(s). */
  function SegmentStart(s: string): (b: nat)
    ensures b <= SegmentEnd(s)
    ensures NoSlash(s[b..SegmentEnd(s)])
    ensures b > 0 ==> s[b - 1] == '/'
  {
    var e := SegmentEnd(s);
    var k := LastIndexOf(s[..e], '/');
    assert s[k + 1..e] == s[..e][k + 1..];
    assert k >= 0 ==> s[k] == s[..e][k];
    k + 1
  }

  /**
   * `repoPath.match(/[^/]+(?=\/?$)/)![0]`: the last non-empty segment of
   * `repoPath`, which may carry one trailing '/'. None where the match is
   * null and the source's `[0]` throws.
   */
  function OutputDir(repoPath: string): (r: Option<string>)
    ensures r.Some? ==> r.value != "" && NoSlash(r.value)
    ensures r.Some? ==> exists i :: 0 <= i <= |repoPath| && (i == 0 || repoPath[i - 1] == '/') &&
                                    (repoPath[i..] == r.value || repoPath[i..] == r.value + "/")
  {
    var b, e := SegmentStart(repoPath), SegmentEnd(repoPath);
    if b < e then
      assert e < |repoPath| ==> repoPath[b..] == repoPath[b..e] + "/";
      Some(repoPath[b..e])
    else None
  }

  /** Any match of the regular expression lies within the last segment and ends where it ends. */
  lemma MatchInLastSegment(s: string, i: int, j: int)
    requires MatchesAt(s, i, j)
    ensures SegmentStart(s) <= i && j == SegmentEnd(s)
  {
  }

  /**
   * OutputDir is the match a regular-expression search returns: None exactly
   * when nothing matches, and otherwise the leftmost match, the only one
   * that starts there.
   */
  lemma OutputDirIsLeftmostMatch(s: string)
    ensures OutputDir(s).None? <==> forall i, j :: !MatchesAt(s, i, j)
    ensures OutputDir(s).Some? ==>
              exists i, j :: MatchesAt(s, i, j) && OutputDir(s).value == s[i..j] &&
                             forall i', j' :: MatchesAt(s, i', j') ==> i < i' || (i == i' && j == j')
  {
    var b, e := SegmentStart(s), SegmentEnd(s);
    forall i', j' | MatchesAt(s, i', j') ensures b <= i' && j' == e {
      MatchInLastSegment(s, i', j');
    }
    if b < e {
      assert MatchesAt(s, b, e);
    }
  }

  /** The derivation fails exactly for "", for "/" and for paths ending in "//". */
  lemma OutputDirFailsIff(s: string)
    ensures OutputDir(s).None? <==>
              s == "" || s == "/" || (|s| >= 2 && s[|s| - 2] == '/' && s[|s| - 1] == '/')
  {
    var e := SegmentEnd(s);
    var k := LastIndexOf(s[..e], '/');
    if e > 0 && s[e - 1] == '/' {
      assert s[..e][e - 1] == '/';
      assert k == e - 1;
    }
  }

  /**
   * `filePath.replace(/^[^/]+\//, '/')`: a first segment (non-empty, up to
   * the first '/') together with that '/' becomes a single '/'. A path that
   * starts with '/' or holds no '/' is not matched and stays as it is.
   * JavaScript's replace finds the end of `^[^/]+\/` as the first '/', which
   * is what IndexOf stands for here.
   */
  function Reroot(filePath: string): (r: string)
    ensures NoSlash(filePath) || filePath[0] == '/' ==> r == filePath
    ensures !NoSlash(filePath) && filePath[0] != '/' ==>
              0 < |r| < |filePath| && r == filePath[|filePath| - |r|..] && r[0] == '/' &&
              NoSlash(filePath[..|filePath| - |r|])
  {
    var k := IndexOf(filePath, '/');
    if k > 0 then filePath[k..] else filePath
  }

  /** A path with a first segment loses it and keeps the '/' after it. */
  lemma RerootStripsFirstSegment(segment: string, rest: string)
    requires segment != "" && NoSlash(segment)
    ensures Reroot(segment + "/" + rest) == "/" + rest
  {
    var p := segment + "/" + rest;
    assert p[|segment|] == '/';
    assert p[..|segment|] == segment;
    assert IndexOf(p, '/') == |segment|;
    assert p[|segment|..] == "/" + rest;
  }

  /** `outputDir + filePath?.replace(/^[^/]+\//, '/')`: the output directory, then the re-rooted path. */
  function OutputFile(outputDir: string, filePath: string): (r: string)
    ensures |outputDir| <= |r| <= |outputDir| + |filePath| && r[..|outputDir|] == outputDir
  {
    var rerooted := Reroot(filePath);
    assert (outputDir + rerooted)[..|outputDir|] == outputDir;
    outputDir + rerooted
  }

  /**
   * `outputFile.substring(0, outputFile.lastIndexOf('/'))`: the part of the
   * path before its last '/', or "" when it has none (lastIndexOf gives -1
   * and substring clamps it to 0).
   */
  function EnsuredDir(outputFile: string): (d: string)
    ensures NoSlash(outputFile) ==> d == ""
    ensures !NoSlash(outputFile) ==>
              |d| < |outputFile| && outputFile[..|d|] == d && outputFile[|d|] == '/' &&
              NoSlash(outputFile[|d| + 1..])
  {
    Substring(outputFile, 0, LastIndexOf(outputFile, '/'))
  }

  /** The directory made for `dir + "/" + name`, with no '/' in `name`, is `dir`. */
  lemma EnsuredDirOfChild(dir: string, name: string)
    requires NoSlash(name)
    ensures EnsuredDir(dir + "/" + name) == dir
  {
    var f := dir + "/" + name;
    assert f[|dir|] == '/';
    assert f[|dir| + 1..] == name;
    assert f[..|dir|] == dir;
  }

  /**
   * Prefixing a path that holds a '/' prefixes the directory made for it
   * by the same text.
   */
  lemma EnsuredDirShift(prefix: string, t: string)
    requires '/' in t
    ensures EnsuredDir(prefix + t) == prefix + EnsuredDir(t)
  {
    var k := LastIndexOf(t, '/');
    assert t == t[..k] + "/" + t[k + 1..];
    EnsuredDirOfChild(t[..k], t[k + 1..]);
    assert prefix + t == (prefix + t[..k]) + "/" + t[k + 1..];
    EnsuredDirOfChild(prefix + t[..k], t[k + 1..]);
  }

  /**
   * When the file path has a first segment, the file lands inside the
   * output directory and so does the directory made for it.
   */
  lemma OutputFileInsideOutputDir(outputDir: string, segment: string, rest: string)
    requires segment != "" && NoSlash(segment)
    ensures OutputFile(outputDir, segment + "/" + rest) == outputDir + "/" + rest
    ensures EnsuredDir(outputDir + "/" + rest) == outputDir + EnsuredDir("/" + rest)
  {
    RerootStripsFirstSegment(segment, rest);
    var t := "/" + rest;
    assert t[0] == '/';
    EnsuredDirShift(outputDir, t);
    AppendAssoc(outputDir, "/", rest);
  }

  /**
   * A file path with no '/' is glued to the output directory without a
   * separator, and the directory made for it is "".
   */
  lemma UnprefixedPathGluedToOutputDir(outputDir: string, filePath: string)
    requires NoSlash(outputDir) && NoSlash(filePath)
    ensures OutputFile(outputDir, filePath) == outputDir + filePath
    ensures EnsuredDir(OutputFile(outputDir, filePath)) == ""
  {
  }
}
