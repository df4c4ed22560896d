/** The change extractor: the parsing and aggregation inside `get_git_changes`.
    It reads the name-status listing of a commit range, classifies the lines of
    each file's zero-context unified diff into additions and deletions, and
    accumulates per-file and total counts into a report.

    The calls into git are not modelled; what they answer for one request is an
    input, a `GitOracle`. */
module Changes {
  import opened Wrappers
  import opened PyStr

  /** One `(change_type, file_path)` pair of the name-status listing. */
  datatype ChangedFile = ChangedFile(changeType: string, filePath: string)

  /** One entry of a file's `changes` list; `content` is the diff line without
      its leading marker. */
  datatype LineChange = Addition(content: string) | Deletion(content: string)

  /** One element of the report's `files_changed`. */
  datatype FileChange = FileChange(
    filePath: string,
    changeType: string,
    additions: nat,
    deletions: nat,
    changes: seq<LineChange>,
    diff: string)

  /** The dictionary `get_git_changes` returns. */
  datatype ChangeReport = ChangeReport(
    filesChanged: seq<FileChange>,
    totalAdditions: nat,
    totalDeletions: nat)

  /** What the repository and git answer for one request.
      - `dirExists`: the mirror directory exists (after the preceding update);
      - `opens`: opening the repository does not raise;
      - `commits`: the references `repo.commit` resolves;
      - `nameStatus`: the output of the name-status diff, `None` when it raises;
      - `fileDiffs`: the zero-context diff of each path; a path that is not a key
        is one whose diff call raises. */
  datatype GitOracle = GitOracle(
    dirExists: bool,
    opens: bool,
    commits: set<string>,
    nameStatus: Option<string>,
    fileDiffs: map<string, string>)

  // ---------------------------------------------------------------------------
  // The name-status listing

  /** One line of the listing: blank lines and lines without a tab (after
      stripping white space at both ends) give nothing; any other line gives its
      first two tab-separated fields, exactly as they appear in the line. */
  function ParseNameStatusLine(line: string): (e: Option<ChangedFile>)
    ensures e.Some? <==> '\t' in Strip(line)
    ensures e.Some? ==>
              var s, n := Strip(line), |e.value.changeType| + 1 + |e.value.filePath|;
              && '\t' !in e.value.changeType && '\t' !in e.value.filePath
              && n <= |s| && s[..n] == e.value.changeType + "\t" + e.value.filePath
              && (n == |s| || s[n] == '\t')
  {
    var stripped := Strip(line);
    if stripped == [] then None
    else
      var parts := Split(stripped, '\t');
      SplitSeveral(stripped, '\t');
      if |parts| >= 2 then
        SplitFirstTwo(stripped, '\t');
        SplitFirstTwoFree(stripped, '\t');
        Some(ChangedFile(parts[0], parts[1]))
      else None
  }

  /** `changed_file_list`: the pairs of the listing, in the order of its lines. */
  function ChangedFiles(nameStatus: string): (files: seq<ChangedFile>)
    ensures |files| <= |Split(nameStatus, '\n')|
  {
    FilterMap(ParseNameStatusLine, Split(nameStatus, '\n'))
  }

  /** The pairs of two listings joined by a line break are those of the first
      followed by those of the second. */
  lemma ChangedFilesConcat(a: string, b: string)
    ensures ChangedFiles(a + "\n" + b) == ChangedFiles(a) + ChangedFiles(b)
  {
    SplitConcat(a, b, '\n');
    FilterMapConcat(ParseNameStatusLine, Split(a, '\n'), Split(b, '\n'));
  }

  /** A single line gives its own pair or nothing. */
  lemma ChangedFilesOfLine(line: string)
    requires '\n' !in line
    ensures ChangedFiles(line) ==
            if '\t' in Strip(line) then [ParseNameStatusLine(line).value] else []
  {
    assert Split(line, '\n') == [line];
    assert [line][1..] == [];
  }

  /** The loop of `get_git_changes` that builds `changed_file_list`. */
  method ParseChangedFiles(nameStatus: string) returns (changedFileList: seq<ChangedFile>)
    ensures changedFileList == ChangedFiles(nameStatus)
  {
    var lines := Split(nameStatus, '\n');
    changedFileList := [];
    for i := 0 to |lines|
      invariant changedFileList == FilterMap(ParseNameStatusLine, lines[..i])
    {
      assert lines[..i + 1] == lines[..i] + [lines[i]];
      FilterMapSnoc(ParseNameStatusLine, lines[..i], lines[i]);
      match ParseNameStatusLine(lines[i])
      case Some(entry) =>
        changedFileList := changedFileList + [entry];
      case None =>
    }
    assert lines[..|lines|] == lines;
  }

  // ---------------------------------------------------------------------------
  // One file's diff

  /** The classification of one diff line: a '+' line that does not start with
      "+++" or "+@@" is an addition, a '-' line that does not start with "---"
      or "-@@" a deletion, and every other line is left out. */
  function Classify(line: string): (c: Option<LineChange>)
    ensures c.Some? && c.value.Addition? <==>
              StartsWith(line, "+") && !StartsWith(line, "+++") && !StartsWith(line, "+@@")
    ensures c.Some? && c.value.Deletion? <==>
              StartsWith(line, "-") && !StartsWith(line, "---") && !StartsWith(line, "-@@")
    ensures c.Some? ==> line == Render(c.value)
  {
    if StartsWith(line, "+") && !StartsWith(line, "+++") then
      if !(StartsWith(line, "+++ ") || StartsWith(line, "+@@")) then
        Some(Addition(line[1..]))
      else None
    else if StartsWith(line, "-") && !StartsWith(line, "---") then
      if !(StartsWith(line, "--- ") || StartsWith(line, "-@@")) then
        Some(Deletion(line[1..]))
      else None
    else None
  }

  /** The diff line that carries a change: its marker followed by its content. */
  function Render(c: LineChange): string {
    match c
    case Addition(s) => "+" + s
    case Deletion(s) => "-" + s
  }

  /** A changed line is recorded as itself exactly when its own text does not
      start with a second and third marker or with "@@": an added line whose
      text begins with "++" (say `++i;`) or "@@", or a deleted line whose text
      begins with "--" or "@@", is dropped. */
  lemma ClassifyRender(c: LineChange)
    ensures Classify(Render(c)) == Some(c) <==>
            match c
            case Addition(s) => !StartsWith(s, "++") && !StartsWith(s, "@@")
            case Deletion(s) => !StartsWith(s, "--") && !StartsWith(s, "@@")
  {
    var line := Render(c);
    assert line == [line[0]] + c.content;
    match c
    case Addition(s) =>
      assert "+++" == "+" + "++" && "+@@" == "+" + "@@";
      MarkedPrefix('+', s, "++");
      MarkedPrefix('+', s, "@@");
    case Deletion(s) =>
      assert "---" == "-" + "--" && "-@@" == "-" + "@@";
      MarkedPrefix('-', s, "--");
      MarkedPrefix('-', s, "@@");
  }

  /** A marker in front of two texts does not change whether one starts with the other. */
  lemma MarkedPrefix(m: char, s: string, p: string)
    ensures StartsWith([m] + s, [m] + p) <==> StartsWith(s, p)
  {
    var t := [m] + s;
    if |p| <= |s| {
      assert t[..|p| + 1] == [m] + s[..|p|];
      if t[..|p| + 1] == [m] + p {
        assert s[..|p|] == t[..|p| + 1][1..];
      }
    }
  }

  /** `changes_content`: the recorded changes of a diff, in the order of its lines. */
  function LineChanges(diff: string): (cs: seq<LineChange>)
    ensures |cs| <= |Split(diff, '\n')|
  {
    FilterMap(Classify, Split(diff, '\n'))
  }

  /** The changes of two diff texts joined by a line break are those of the first
      followed by those of the second. */
  lemma LineChangesConcat(a: string, b: string)
    ensures LineChanges(a + "\n" + b) == LineChanges(a) + LineChanges(b)
  {
    SplitConcat(a, b, '\n');
    FilterMapConcat(Classify, Split(a, '\n'), Split(b, '\n'));
  }

  /** The number of additions in a list of changes. */
  function Additions(cs: seq<LineChange>): nat {
    if cs == [] then 0 else (if cs[0].Addition? then 1 else 0) + Additions(cs[1..])
  }

  /** The number of deletions in a list of changes. */
  function Deletions(cs: seq<LineChange>): nat {
    if cs == [] then 0 else (if cs[0].Deletion? then 1 else 0) + Deletions(cs[1..])
  }

  /** Counting is additive over concatenation. */
  lemma {:induction false} CountsConcat(a: seq<LineChange>, b: seq<LineChange>)
    ensures Additions(a + b) == Additions(a) + Additions(b)
    ensures Deletions(a + b) == Deletions(a) + Deletions(b)
  {
    if a == [] {
      assert a + b == b;
    } else {
      assert (a + b)[1..] == a[1..] + b;
      CountsConcat(a[1..], b);
    }
  }

  /** Every change is an addition or a deletion. */
  lemma {:induction false} CountsPartition(cs: seq<LineChange>)
    ensures Additions(cs) + Deletions(cs) == |cs|
  {
    if cs != [] {
      CountsPartition(cs[1..]);
    }
  }

  /** The entry of `files_changed` for one file whose diff call succeeded. */
  function FileChangeOf(changeType: string, filePath: string, diff: string): (fc: FileChange)
    ensures fc.filePath == filePath && fc.changeType == changeType && fc.diff == diff
    ensures fc.changes == LineChanges(diff)
    ensures fc.additions + fc.deletions == |fc.changes|
  {
    var cs := LineChanges(diff);
    CountsPartition(cs);
    FileChange(filePath, changeType, Additions(cs), Deletions(cs), cs, diff)
  }

  /** The loop of `get_git_changes` that classifies the lines of one file's diff
      and counts them. */
  method ParseFileDiff(changeType: string, filePath: string, fileDiff: string) returns (fc: FileChange)
    ensures fc == FileChangeOf(changeType, filePath, fileDiff)
    ensures fc.additions == Additions(fc.changes) && fc.deletions == Deletions(fc.changes)
  {
    var lines := Split(fileDiff, '\n');
    var changesContent: seq<LineChange> := [];
    var totalAdditions, totalDeletions := 0, 0;
    for i := 0 to |lines|
      invariant changesContent == FilterMap(Classify, lines[..i])
      invariant totalAdditions == Additions(changesContent)
      invariant totalDeletions == Deletions(changesContent)
    {
      assert lines[..i + 1] == lines[..i] + [lines[i]];
      FilterMapSnoc(Classify, lines[..i], lines[i]);
      match Classify(lines[i])
      case Some(Addition(content)) =>
        CountsConcat(changesContent, [Addition(content)]);
        changesContent := changesContent + [Addition(content)];
        totalAdditions := totalAdditions + 1;
      case Some(Deletion(content)) =>
        CountsConcat(changesContent, [Deletion(content)]);
        changesContent := changesContent + [Deletion(content)];
        totalDeletions := totalDeletions + 1;
      case None =>
    }
    assert lines[..|lines|] == lines;
    fc := FileChange(filePath, changeType, totalAdditions, totalDeletions, changesContent, fileDiff);
  }

  // ---------------------------------------------------------------------------
  // The report

  /** The outcome of the per-file step: `None` when the file's diff call raises
      and the file is skipped. */
  function ProcessFile(fileDiffs: map<string, string>, e: ChangedFile): (r: Option<FileChange>)
    ensures r.Some? <==> e.filePath in fileDiffs
    ensures r.Some? ==> && r.value.filePath == e.filePath && r.value.changeType == e.changeType
                        && r.value.diff == fileDiffs[e.filePath]
  {
    if e.filePath in fileDiffs then Some(FileChangeOf(e.changeType, e.filePath, fileDiffs[e.filePath]))
    else None
  }

  /** `files_changed`: the processed files, in the order of the listing. */
  function FilesChanged(fileDiffs: map<string, string>, entries: seq<ChangedFile>): (files: seq<FileChange>)
    ensures |files| <= |entries|
  {
    FilterMap(e => ProcessFile(fileDiffs, e), entries)
  }

  /** One more pair of the listing adds at most its own file at the end. */
  lemma FilesChangedStep(fileDiffs: map<string, string>, entries: seq<ChangedFile>, i: nat)
    requires i < |entries|
    ensures FilesChanged(fileDiffs, entries[..i + 1]) ==
            FilesChanged(fileDiffs, entries[..i]) +
            if entries[i].filePath in fileDiffs
            then [FileChangeOf(entries[i].changeType, entries[i].filePath, fileDiffs[entries[i].filePath])]
            else []
  {
    assert entries[..i + 1] == entries[..i] + [entries[i]];
    FilterMapSnoc(e => ProcessFile(fileDiffs, e), entries[..i], entries[i]);
  }

  /** The sum of the per-file addition counts. */
  function SumAdditions(files: seq<FileChange>): nat {
    if files == [] then 0 else files[0].additions + SumAdditions(files[1..])
  }

  /** The sum of the per-file deletion counts. */
  function SumDeletions(files: seq<FileChange>): nat {
    if files == [] then 0 else files[0].deletions + SumDeletions(files[1..])
  }

  /** Summing is additive over concatenation. */
  lemma {:induction false} SumsConcat(a: seq<FileChange>, b: seq<FileChange>)
    ensures SumAdditions(a + b) == SumAdditions(a) + SumAdditions(b)
    ensures SumDeletions(a + b) == SumDeletions(a) + SumDeletions(b)
  {
    if a == [] {
      assert a + b == b;
    } else {
      assert (a + b)[1..] == a[1..] + b;
      SumsConcat(a[1..], b);
    }
  }

  /** `get_git_changes` on the answers of git: `None` when the mirror is absent,
      the repository does not open, a commit does not resolve or the listing
      fails; otherwise the report over the files whose diff succeeded. */
  function ChangesBetween(git: GitOracle, before: string, after: string): (r: Option<ChangeReport>)
    ensures r.None? <==>
              || !git.dirExists || !git.opens
              || before !in git.commits || after !in git.commits
              || git.nameStatus.None?
  {
    if !git.dirExists || !git.opens then None
    else if before !in git.commits || after !in git.commits then None
    else if git.nameStatus.None? then None
    else
      var files := FilesChanged(git.fileDiffs, ChangedFiles(git.nameStatus.value));
      Some(ChangeReport(files, SumAdditions(files), SumDeletions(files)))
  }

  /** `get_git_changes`, with the git calls answered by `git`. */
  method GetGitChanges(git: GitOracle, before: string, after: string) returns (result: Option<ChangeReport>)
    ensures result == ChangesBetween(git, before, after)
    ensures result.Some? ==>
              && result.value.totalAdditions == SumAdditions(result.value.filesChanged)
              && result.value.totalDeletions == SumDeletions(result.value.filesChanged)
  {
    if !git.dirExists {
      return None;
    }
    if !git.opens {
      return None;
    }
    if before !in git.commits || after !in git.commits {
      return None;
    }
    if git.nameStatus.None? {
      return None;
    }
    var changedFileList := ParseChangedFiles(git.nameStatus.value);
    var filesChanged: seq<FileChange> := [];
    var totalAdditions, totalDeletions := 0, 0;
    for i := 0 to |changedFileList|
      invariant filesChanged == FilesChanged(git.fileDiffs, changedFileList[..i])
      invariant totalAdditions == SumAdditions(filesChanged)
      invariant totalDeletions == SumDeletions(filesChanged)
    {
      FilesChangedStep(git.fileDiffs, changedFileList, i);
      var entry := changedFileList[i];
      if entry.filePath in git.fileDiffs {
        var fileChange := ParseFileDiff(entry.changeType, entry.filePath, git.fileDiffs[entry.filePath]);
        SumsConcat(filesChanged, [fileChange]);
        filesChanged := filesChanged + [fileChange];
        totalAdditions := totalAdditions + fileChange.additions;
        totalDeletions := totalDeletions + fileChange.deletions;
      }
    }
    assert changedFileList[..|changedFileList|] == changedFileList;
    return Some(ChangeReport(filesChanged, totalAdditions, totalDeletions));
  }

  // ---------------------------------------------------------------------------
  // Properties of the report

  /** Every file in a report comes from the listing, carries its raw diff
      unchanged, and its counts are those of its changes, which are the
      classified lines of that diff. */
  lemma ReportedFileFaithful(git: GitOracle, before: string, after: string, f: FileChange)
    requires ChangesBetween(git, before, after).Some?
    requires f in ChangesBetween(git, before, after).value.filesChanged
    ensures ChangedFile(f.changeType, f.filePath) in ChangedFiles(git.nameStatus.value)
    ensures f.filePath in git.fileDiffs && f.diff == git.fileDiffs[f.filePath]
    ensures f.changes == LineChanges(f.diff)
    ensures f.additions == Additions(f.changes) && f.deletions == Deletions(f.changes)
  {
    var entries := ChangedFiles(git.nameStatus.value);
    FilterMapFrom(e => ProcessFile(git.fileDiffs, e), entries, f);
  }

  /** A file whose diff call fails is skipped: the report is the one the listing
      without that line would give, so the totals are unchanged. */
  lemma FailedFileSkipped(fileDiffs: map<string, string>, xs: seq<ChangedFile>, e: ChangedFile, ys: seq<ChangedFile>)
    requires e.filePath !in fileDiffs
    ensures FilesChanged(fileDiffs, xs + [e] + ys) == FilesChanged(fileDiffs, xs + ys)
  {
    var f := (x: ChangedFile) => ProcessFile(fileDiffs, x);
    FilterMapConcat(f, xs + [e], ys);
    FilterMapConcat(f, xs, [e]);
    FilterMapConcat(f, xs, ys);
    assert FilterMap(f, [e]) == [];
  }

  /** When every diff call succeeds, the report has one entry per pair of the
      listing, in the same order, each for that pair's path and change type. */
  lemma AllFilesReported(fileDiffs: map<string, string>, entries: seq<ChangedFile>)
    requires forall i :: 0 <= i < |entries| ==> entries[i].filePath in fileDiffs
    ensures |FilesChanged(fileDiffs, entries)| == |entries|
    ensures forall i :: 0 <= i < |entries| ==>
              var fc := FilesChanged(fileDiffs, entries)[i];
              fc.filePath == entries[i].filePath && fc.changeType == entries[i].changeType &&
              fc.diff == fileDiffs[entries[i].filePath]
  {
    FilterMapTotal(e => ProcessFile(fileDiffs, e), entries);
  }

  /** The report's totals count every recorded line of every reported file:
      the two totals add up to the number of entries in all `changes` lists. */
  lemma {:induction false} TotalsCountAllLines(files: seq<FileChange>)
    requires forall i :: 0 <= i < |files| ==> files[i].additions + files[i].deletions == |files[i].changes|
    ensures SumAdditions(files) + SumDeletions(files) == ChangeLines(files)
  {
    if files != [] {
      TotalsCountAllLines(files[1..]);
    }
  }

  /** The number of entries in all `changes` lists. */
  function ChangeLines(files: seq<FileChange>): nat {
    if files == [] then 0 else |files[0].changes| + ChangeLines(files[1..])
  }

  // ---------------------------------------------------------------------------
  // A one-line change, end to end

  /** A single diff line gives its own change or nothing. */
  lemma LineChangesOfLine(line: string)
    requires '\n' !in line
    ensures LineChanges(line) == if Classify(line).Some? then [Classify(line).value] else []
  {
    assert Split(line, '\n') == [line];
    assert [line][1..] == [];
  }

  /** A diff text of header lines, a hunk header, one deleted line and one added line. */
  function ReplacementDiff(header: string, hunk: string, removed: string, added: string): string {
    header + "\n" + (hunk + "\n" + (Render(Deletion(removed)) + "\n" + Render(Addition(added))))
  }

  /** A line that records nothing adds nothing in front of the rest of a diff. */
  lemma SkippedLine(line: string, rest: string)
    requires '\n' !in line && Classify(line).None?
    ensures LineChanges(line + "\n" + rest) == LineChanges(rest)
  {
    LineChangesOfLine(line);
    LineChangesConcat(line, rest);
  }

  /** A deleted line followed by an added line, each recorded as itself. */
  lemma DeletionThenAddition(removed: string, added: string)
    requires '\n' !in removed && !StartsWith(removed, "--") && !StartsWith(removed, "@@")
    requires '\n' !in added && !StartsWith(added, "++") && !StartsWith(added, "@@")
    ensures LineChanges(Render(Deletion(removed)) + "\n" + Render(Addition(added)))
            == [Deletion(removed), Addition(added)]
  {
    var d, a := Render(Deletion(removed)), Render(Addition(added));
    ClassifyRender(Deletion(removed));
    ClassifyRender(Addition(added));
    assert '\n' !in d by { assert d == ['-'] + removed; }
    assert '\n' !in a by { assert a == ['+'] + added; }
    LineChangesOfLine(d);
    LineChangesOfLine(a);
    LineChangesConcat(d, a);
  }

  /** A diff that replaces one line, after header lines that record nothing and
      a hunk header, yields the deletion and then the addition, in diff order. */
  lemma ReplacedLineChanges(header: string, hunk: string, removed: string, added: string)
    requires LineChanges(header) == []
    requires StartsWith(hunk, "@@") && '\n' !in hunk
    requires '\n' !in removed && !StartsWith(removed, "--") && !StartsWith(removed, "@@")
    requires '\n' !in added && !StartsWith(added, "++") && !StartsWith(added, "@@")
    ensures LineChanges(ReplacementDiff(header, hunk, removed, added)) == [Deletion(removed), Addition(added)]
  {
    var tail := Render(Deletion(removed)) + "\n" + Render(Addition(added));
    DeletionThenAddition(removed, added);
    assert Classify(hunk).None? by { assert hunk[0] == '@'; }
    SkippedLine(hunk, tail);
    LineChangesConcat(header, hunk + "\n" + tail);
  }

  /** A string with no white space at either end is left alone by `strip`. */
  lemma StripUnchanged(s: string)
    requires s != [] && !IsSpace(s[0]) && !IsSpace(s[|s| - 1])
    ensures Strip(s) == s
  {
  }

  /** A listing of one line `M<tab>path` names exactly that file. */
  lemma OneLineListing(changeType: string, path: string)
    requires changeType != [] && !IsSpace(changeType[0]) && '\t' !in changeType && '\n' !in changeType
    requires path != [] && !IsSpace(path[|path| - 1]) && '\t' !in path && '\n' !in path
    ensures ChangedFiles(changeType + "\t" + path) == [ChangedFile(changeType, path)]
  {
    var line := changeType + "\t" + path;
    assert '\n' !in line by {
      assert forall k :: 0 <= k < |line| ==> line[k] in changeType || line[k] == '\t' || line[k] in path;
    }
    StripUnchanged(line);
    SplitConcat(changeType, path, '\t');
    ChangedFilesOfLine(line);
  }

  /** A listing that names one file whose diff succeeds gives a report of that
      file alone, with its own counts as totals. */
  lemma OneFileReport(git: GitOracle, before: string, after: string, e: ChangedFile)
    requires git.dirExists && git.opens && before in git.commits && after in git.commits
    requires git.nameStatus.Some? && ChangedFiles(git.nameStatus.value) == [e]
    requires e.filePath in git.fileDiffs
    ensures var fc := FileChangeOf(e.changeType, e.filePath, git.fileDiffs[e.filePath]);
            ChangesBetween(git, before, after) == Some(ChangeReport([fc], fc.additions, fc.deletions))
  {
    var fc := FileChangeOf(e.changeType, e.filePath, git.fileDiffs[e.filePath]);
    var files := FilesChanged(git.fileDiffs, ChangedFiles(git.nameStatus.value));
    assert files == [fc] by {
      AllFilesReported(git.fileDiffs, [e]);
    }
    SumsOfOne(fc);
  }

  /** The totals of a report with one file are that file's counts. */
  lemma SumsOfOne(f: FileChange)
    ensures SumAdditions([f]) == f.additions && SumDeletions([f]) == f.deletions
  {
    assert [f][1..] == [];
  }

  /** The end-to-end case: one file in which one line is replaced gives a report
      with that file only, one deletion followed by one addition, and totals of
      one each. */
  lemma ReplacedLineReport(git: GitOracle, before: string, after: string,
                           changeType: string, path: string,
                           header: string, hunk: string, removed: string, added: string)
    requires git.dirExists && git.opens && before in git.commits && after in git.commits
    requires changeType != [] && !IsSpace(changeType[0]) && '\t' !in changeType && '\n' !in changeType
    requires path != [] && !IsSpace(path[|path| - 1]) && '\t' !in path && '\n' !in path
    requires git.nameStatus == Some(changeType + "\t" + path)
    requires LineChanges(header) == []
    requires StartsWith(hunk, "@@") && '\n' !in hunk
    requires '\n' !in removed && !StartsWith(removed, "--") && !StartsWith(removed, "@@")
    requires '\n' !in added && !StartsWith(added, "++") && !StartsWith(added, "@@")
    requires path in git.fileDiffs
    requires git.fileDiffs[path] == ReplacementDiff(header, hunk, removed, added)
    ensures ChangesBetween(git, before, after) ==
            Some(ChangeReport(
              [FileChange(path, changeType, 1, 1, [Deletion(removed), Addition(added)], git.fileDiffs[path])],
              1, 1))
  {
    OneLineListing(changeType, path);
    ReplacedLineChanges(header, hunk, removed, added);
    PairCounts(Deletion(removed), Addition(added));
    OneFileReport(git, before, after, ChangedFile(changeType, path));
  }

  /** The counts of a deletion followed by an addition. */
  lemma PairCounts(d: LineChange, a: LineChange)
    requires d.Deletion? && a.Addition?
    ensures Additions([d, a]) == 1 && Deletions([d, a]) == 1
  {
    assert [d, a][1..] == [a];
    assert [a][1..] == [];
    assert Additions([a]) == 1 && Deletions([a]) == 0;
    assert Additions([d, a]) == Additions([a]);
    assert Deletions([d, a]) == 1 + Deletions([a]);
  }
}
