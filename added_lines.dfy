/**
 * The added-line extraction of src/index.ts:63-75: of each patch's hunks,
 * keep the lines marked as additions, drop their marker and join them with
 * newlines.
 */
module Additions {
  import opened Strings

  /** One hunk of a parsed patch: its lines, each with its one-character marker. */
  datatype Hunk = Hunk(lines: seq<string>)

  /**
   * `line.startsWith('+') && !line.startsWith('++')`: a line is kept exactly
   * when its first character is '+' and its second, if any, is not. The
   * second test keeps out a `+++` file header, and with it any added line
   * whose own text starts with '+'; context (' ') and deletion ('-') lines
   * are never kept.
   */
  predicate IsAdded(line: string)
    ensures IsAdded(line) <==> |line| >= 1 && line[0] == '+' && (|line| == 1 || line[1] != '+')
  {
    StartsWith(line, "+") && !StartsWith(line, "++")
  }

  /** What one line contributes: `line.substring(1)` if it is an added line, nothing otherwise. */
  function Contribution(line: string): (r: seq<string>)
    ensures |r| <= 1
    ensures r != [] <==> IsAdded(line)
    ensures r != [] ==> |r[0]| == |line| - 1 && line == "+" + r[0]
  {
    if IsAdded(line) then [line[1..]] else []
  }

  /** What `lines` contributes, in order: each added line without its marker. */
  function KeptLines(lines: seq<string>): (r: seq<string>)
    ensures |r| <= |lines|
  {
    if lines == [] then []
    else KeptLines(lines[..|lines| - 1]) + Contribution(lines[|lines| - 1])
  }

  /** All the lines the patch contributes, hunk by hunk and line by line: at most one per line of its hunks. */
  function AddedLines(hunks: seq<Hunk>): (r: seq<string>)
    ensures |r| <= |AllLines(hunks)|
  {
    if hunks == [] then []
    else AddedLines(hunks[..|hunks| - 1]) + KeptLines(hunks[|hunks| - 1].lines)
  }

  /** The lines of all hunks, one after the other. */
  function AllLines(hunks: seq<Hunk>): seq<string> {
    if hunks == [] then []
    else AllLines(hunks[..|hunks| - 1]) + hunks[|hunks| - 1].lines
  }

  /** Keeping lines commutes with concatenation: the order of the input is the order of the output. */
  lemma {:induction false} KeptLinesAppend(a: seq<string>, b: seq<string>)
    ensures KeptLines(a + b) == KeptLines(a) + KeptLines(b)
  {
    if b == [] {
      assert a + b == a;
    } else {
      var n := |b| - 1;
      KeptLinesAppend(a, b[..n]);
      assert (a + b)[..|a + b| - 1] == a + b[..n];
      assert (a + b)[|a + b| - 1] == b[n];
      AppendAssoc(KeptLines(a), KeptLines(b[..n]), Contribution(b[n]));
    }
  }

  /** A text is contributed exactly when some added line carries it after its marker. */
  lemma {:induction false} KeptLinesMember(lines: seq<string>, x: string)
    ensures x in KeptLines(lines) <==>
              exists i :: 0 <= i < |lines| && IsAdded(lines[i]) && lines[i][1..] == x
  {
    if lines != [] {
      var n := |lines| - 1;
      var init := lines[..n];
      KeptLinesMember(init, x);
      if x in KeptLines(init) {
        var i :| 0 <= i < |init| && IsAdded(init[i]) && init[i][1..] == x;
        assert lines[i] == init[i];
      }
      if exists i :: 0 <= i < |lines| && IsAdded(lines[i]) && lines[i][1..] == x {
        var i :| 0 <= i < |lines| && IsAdded(lines[i]) && lines[i][1..] == x;
        if i < n {
          assert init[i] == lines[i];
        }
      }
    }
  }

  /** Nothing is contributed exactly when no line is an added line. */
  lemma {:induction false} KeptLinesEmptyIff(lines: seq<string>)
    ensures KeptLines(lines) == [] <==> forall i :: 0 <= i < |lines| ==> !IsAdded(lines[i])
  {
    if lines != [] {
      var n := |lines| - 1;
      KeptLinesEmptyIff(lines[..n]);
      assert forall i :: 0 <= i < n ==> lines[i] == lines[..n][i];
    }
  }

  /** Taking hunk by hunk and then line by line is filtering the lines of all hunks in order. */
  lemma {:induction false} AddedLinesFlatten(hunks: seq<Hunk>)
    ensures AddedLines(hunks) == KeptLines(AllLines(hunks))
  {
    if hunks != [] {
      var n := |hunks| - 1;
      AddedLinesFlatten(hunks[..n]);
      KeptLinesAppend(AllLines(hunks[..n]), hunks[n].lines);
    }
  }

  /** A patch of one hunk contributes that hunk's kept lines. */
  lemma AddedLinesOfOne(h: Hunk)
    ensures AddedLines([h]) == KeptLines(h.lines)
  {
    assert [h][..0] == [];
  }

  /** One more line adds its contribution at the end. */
  lemma KeptLinesSnoc(lines: seq<string>, j: nat)
    requires j < |lines|
    ensures KeptLines(lines[..j + 1]) == KeptLines(lines[..j]) + Contribution(lines[j])
  {
    assert lines[..j + 1][..j] == lines[..j];
  }

  /** One more hunk adds its kept lines at the end. */
  lemma AddedLinesSnoc(hunks: seq<Hunk>, i: nat)
    requires i < |hunks|
    ensures AddedLines(hunks[..i + 1]) == AddedLines(hunks[..i]) + KeptLines(hunks[i].lines)
  {
    assert hunks[..i + 1][..i] == hunks[..i];
  }

  /**
   * The nested `forEach` loops pushing into `modifiedLines`, then
   * `modifiedLines.join('\n')`. The test on each line is IsAdded, whose body
   * is the source's `startsWith` test.
   */
  method ExtractContent(hunks: seq<Hunk>) returns (content: string)
    ensures content == Join(AddedLines(hunks), "\n")
  {
    var modifiedLines: seq<string> := [];
    var i := 0;
    while i < |hunks|
      invariant 0 <= i <= |hunks|
      invariant modifiedLines == AddedLines(hunks[..i])
    {
      var lines := hunks[i].lines;
      var j := 0;
      while j < |lines|
        invariant 0 <= j <= |lines|
        invariant modifiedLines == AddedLines(hunks[..i]) + KeptLines(lines[..j])
      {
        var line := lines[j];
        KeptLinesSnoc(lines, j);
        AppendAssoc(AddedLines(hunks[..i]), KeptLines(lines[..j]), Contribution(line));
        if IsAdded(line) {
          modifiedLines := modifiedLines + [line[1..]];
        }
        j := j + 1;
      }
      assert lines[..j] == lines;
      AddedLinesSnoc(hunks, i);
      i := i + 1;
    }
    assert hunks[..i] == hunks;
    content := Join(modifiedLines, "\n");
  }

  /**
   * When no line of the content contains a newline, splitting the content on
   * newlines gives back exactly the contributed lines.
   */
  lemma ContentSplitsIntoAddedLines(hunks: seq<Hunk>)
    requires AddedLines(hunks) != []
    requires forall l :: l in AllLines(hunks) ==> '\n' !in l
    ensures Split(Join(AddedLines(hunks), "\n"), '\n') == AddedLines(hunks)
  {
    AddedLinesFlatten(hunks);
    forall x | x in AddedLines(hunks) ensures '\n' !in x {
      KeptLinesMember(AllLines(hunks), x);
      var i :| 0 <= i < |AllLines(hunks)| && IsAdded(AllLines(hunks)[i]) && AllLines(hunks)[i][1..] == x;
      assert AllLines(hunks)[i] in AllLines(hunks);
    }
    SplitJoin(AddedLines(hunks), '\n');
  }
}
