/**
 * The guards `compareBranchDiff` runs before it asks git for a diff
 * (src/index.ts:22-38). The two filesystem checks arrive as booleans and the
 * branch list that git reports arrives as a sequence.
 */
module Validation {
  import opened Wrappers
  import opened Strings

  /** The four errors the guards throw, each with the values its message names. */
  datatype ValidationError =
    | PathNotFound(repoPath: string)
    | NotARepository(repoPath: string)
    | BaseBranchNotFound(baseBranch: string, available: seq<string>)
    | CompareBranchNotFound(compareBranch: string, available: seq<string>)

  /** What both branch errors put between the branch name and the branch list. */
  const AvailableLabel: string := "\n可用分支: "

  /**
   * The text of the thrown `Error`. Both branch messages name the missing
   * branch, then the label, and end with the whole branch list joined with
   * ", ".
   */
  function Message(e: ValidationError): (m: string)
    ensures e.BaseBranchNotFound? ==> BranchListTail(m, e.baseBranch, e.available)
    ensures e.CompareBranchNotFound? ==> BranchListTail(m, e.compareBranch, e.available)
  {
    match e
    case PathNotFound(p) => "目标路径不存在: " + p + "\n请检查路径是否正确或是否有读取权限"
    case NotARepository(p) => "目标路径不是Git仓库: " + p + "\n请确认目录包含.git文件夹"
    case BaseBranchNotFound(b, all) =>
      var m := "源分支不存在: " + b + AvailableLabel + Join(all, ", ");
      assert m == "源分支不存在: " + (b + AvailableLabel) + Join(all, ", ");
      m
    case CompareBranchNotFound(b, all) =>
      var m := "目标分支不存在: " + b + AvailableLabel + Join(all, ", ");
      assert m == "目标分支不存在: " + (b + AvailableLabel) + Join(all, ", ");
      m
  }

  /** `m` ends with `name`, the label and the branch list joined with ", ", with something before them. */
  predicate BranchListTail(m: string, name: string, branches: seq<string>) {
    var all := Join(branches, ", ");
    |all| + |AvailableLabel| + |name| < |m| &&
    m[|m| - |all|..] == all &&
    m[|m| - |all| - |AvailableLabel| - |name|..|m| - |all|] == name + AvailableLabel
  }

  /**
   * The guards in their order: the path exists, it holds `.git`, the base
   * branch is listed, the compare branch is listed. The first that fails is
   * reported and nothing after it is looked at; None means all passed.
   */
  function Validate(pathExists: bool, gitDirExists: bool, branches: seq<string>,
                    baseBranch: string, compareBranch: string, repoPath: string): (r: Option<ValidationError>)
    ensures r.None? <==> pathExists && gitDirExists && baseBranch in branches && compareBranch in branches
    ensures r == Some(PathNotFound(repoPath)) <==> !pathExists
    ensures r == Some(NotARepository(repoPath)) <==> pathExists && !gitDirExists
    ensures r == Some(BaseBranchNotFound(baseBranch, branches)) <==>
              pathExists && gitDirExists && baseBranch !in branches
    ensures r == Some(CompareBranchNotFound(compareBranch, branches)) <==>
              pathExists && gitDirExists && baseBranch in branches && compareBranch !in branches
  {
    if !pathExists then Some(PathNotFound(repoPath))
    else if !gitDirExists then Some(NotARepository(repoPath))
    else if baseBranch !in branches then Some(BaseBranchNotFound(baseBranch, branches))
    else if compareBranch !in branches then Some(CompareBranchNotFound(compareBranch, branches))
    else None
  }

  /** A missing path is reported without looking at `.git` or at the branches. */
  lemma MissingPathChecksNothingElse(gitA: bool, gitB: bool, branchesA: seq<string>, branchesB: seq<string>,
                                     baseA: string, baseB: string, compareA: string, compareB: string,
                                     repoPath: string)
    ensures Validate(false, gitA, branchesA, baseA, compareA, repoPath)
         == Validate(false, gitB, branchesB, baseB, compareB, repoPath)
         == Some(PathNotFound(repoPath))
  {
  }

  /** A missing `.git` is reported before any branch lookup. */
  lemma MissingGitDirChecksNoBranch(branchesA: seq<string>, branchesB: seq<string>,
                                    baseA: string, baseB: string, compareA: string, compareB: string,
                                    repoPath: string)
    ensures Validate(true, false, branchesA, baseA, compareA, repoPath)
         == Validate(true, false, branchesB, baseB, compareB, repoPath)
         == Some(NotARepository(repoPath))
  {
  }

  /** An unlisted base branch is reported whatever the compare branch is. */
  lemma BaseBranchCheckedFirst(branches: seq<string>, baseBranch: string, compareA: string, compareB: string,
                               repoPath: string)
    requires baseBranch !in branches
    ensures Validate(true, true, branches, baseBranch, compareA, repoPath)
         == Validate(true, true, branches, baseBranch, compareB, repoPath)
         == Some(BaseBranchNotFound(baseBranch, branches))
  {
  }
}
