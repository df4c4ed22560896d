# Code-review backend: repository locator and change extractor

This project models the text-processing core of `utils.py` in a small
code-review backend, and proves properties about it.

The locator is `extract_platform_and_username`. It turns a Git remote URL into
the relative path the backend stores the mirror under, `host/owner/repo`. It
accepts two URL forms:

- the HTTPS form `https://host/owner/repo`;
- the SSH form `git@host:owner/repo`.

Each form is a `re.match` of a regular expression. The model writes that match
as a left-to-right scan (`Locator.MatchUrl`), and proves the scan equal to a
reference definition of what `re.match` reports: the pattern fits a prefix of
the URL, and the last group is as long as it can be (`Locator.Greedy`).

The change extractor is the body of `get_git_changes`. Between two commits it:

1. reads the name-status listing into `(change_type, file_path)` pairs;
2. classifies the lines of each file's zero-context unified diff into additions
   and deletions;
3. builds a report with per-file entries and total counts.

Whatever git answers comes in as a value, `Changes.GitOracle`:

- whether the mirror directory exists;
- whether the repository opens;
- which commit references resolve;
- the name-status text, or `None` when that diff call raises;
- a map from path to diff text, where a path missing from the map is one whose
  diff call raises.

The three loops of the source are methods with loop invariants:

- the name-status loop (utils.py:106) is `Changes.ParseChangedFiles`;
- the per-file loop (utils.py:117) is the loop in `Changes.GetGitChanges`;
- the diff-line loop (utils.py:127) is `Changes.ParseFileDiff`.

Each is proved equal to a specification function built on `Wrappers.FilterMap`
(`ChangedFiles`, `FilesChanged` with the sums, and `FileChangeOf`). The
properties are lemmas about those functions. The two inner loops handle one line
through `Changes.ParseNameStatusLine` and `Changes.Classify`, so each rule is
defined once.

The Python string built-ins the code depends on are modelled in module
`PyStr`:

- `startswith`;
- `isspace`, as the 29 characters `str.strip()` removes;
- `strip`;
- `split` on one character;
- `replace`.

`join` is never called by the code. `PyStr.Join` is there only so that
`SplitJoin` and `JoinSplit` can state that `split` loses nothing.

### Two behaviours of the code worth knowing

The model follows the code as written in both places below, and lemmas state
the behaviour.

- `str.replace('.git', '')` removes every `.git` in the repository component,
  not only a trailing suffix. A trailing suffix is still removed, so
  `https://h/o/n` and `https://h/o/n.git` share a path
  (`Locator.GitSuffixSamePath`). But `https://github.com/o/o.github.io` is
  stored as `github.com/o/ohub.io` (`Locator.InnerGitRemoved`). A repository
  named `.git` leaves an empty last component
  (`Locator.RepoComponentCanVanish`).
- The outer test `not line.startswith('+++')` drops every line starting with
  `+++`, not only the `+++ ` file header. The same holds for `---`. So an added
  line whose own text starts with `++` (for example `++i;`) or with `@@` is not
  recorded, and neither is a deleted line starting with `--` or `@@`
  (`Changes.ClassifyRender`).

## Model

| member | source | states |
|---|---|---|
| PyStr.SkipSpace | utils.py:107 | the leading run of white space that `strip` removes ends at the first character that is not white space |
| PyStr.SkipSpaceBack | utils.py:107 | the trailing run of white space that `strip` removes starts after the last character that is not white space |
| PyStr.Strip | utils.py:107-110 | `line.strip()` neither starts nor ends with white space, is no longer than the line, and is empty exactly when the line is all white space (the `continue` test) |
| PyStr.StripSlice | utils.py:107-110 | `line.strip()` is a slice of the line with only white space on either side |
| PyStr.RunEnd | utils.py:11 | a `[^/]+`-style run from `i` stops at the first delimiter or the end of the text, and the run contains no delimiter |
| PyStr.Split | utils.py:106 | `split` always yields at least one piece |
| PyStr.SplitPieces | utils.py:110-111 | no piece contains the separator; there is exactly one piece iff the separator does not occur, and that piece is then the whole text |
| PyStr.SplitSeveral | utils.py:110-111 | `len(parts) >= 2` exactly when the stripped line contains a tab |
| PyStr.SplitFirstTwo | utils.py:110-113 | with a separator present, `parts[0]`, the separator and `parts[1]` are how the text starts, followed by its end or another separator |
| PyStr.SplitFirstTwoFree | utils.py:110-113 | with a separator present, `parts[0]` and `parts[1]` contain no separator |
| PyStr.SplitJoin | utils.py:106 | splitting loses nothing: joining the pieces with the separator gives back the text |
| PyStr.JoinSplit | utils.py:106 | joining separator-free pieces and splitting again gives back the pieces |
| PyStr.SplitConcat | utils.py:106 | the pieces of `a + sep + b` are those of `a` followed by those of `b` |
| PyStr.ReplaceNoMatch | utils.py:15 | `replace` leaves a text without an occurrence unchanged |
| PyStr.Replace | utils.py:15 | `replace(pat, '')` never lengthens the text; ReplaceNoMatch and ReplaceSplice fix its result on every string in which the pattern cannot overlap itself, as `.git` cannot |
| PyStr.ReplaceSplice | utils.py:15 | an occurrence of a pattern whose first character does not recur in it is replaced on its own, and the text on each side is replaced independently |
| Wrappers.FilterMap | utils.py:103-114 | a loop that appends a result for some elements produces at most one result per element |
| Wrappers.FilterMapConcat | utils.py:106-114 | the results for a concatenation are the results for each part, in input order |
| Wrappers.FilterMapFrom | utils.py:117-155 | every result comes from some input element |
| Wrappers.FilterMapTotal | utils.py:117-155 | when every element yields a result, the results correspond to the inputs one for one, in order |
| Locator.MatchUrl | utils.py:11-19 | a match needs the URL to start with the scheme and gives three non-empty groups, each free of the character that ends it; MatchUrlIff proves it equal to the greedy match |
| Locator.MatchUrlSound | utils.py:11-19 | groups found by the scan are groups `re.match` reports: non-empty, free of their delimiters, a prefix of the URL, with the last run maximal |
| Locator.MatchUrlComplete | utils.py:11-19 | when the pattern fits any prefix of the URL, the scan succeeds with the same host and owner and a last group that extends the given one |
| Locator.MatchUrlIff | utils.py:11-19 | the scan returns `g` if and only if `g` is the greedy match `re.match` reports |
| Locator.StoragePath | utils.py:13-16 | the path starts with host, separator, owner, separator, and is no longer than the three groups plus two separators (the repository group can only shrink) |
| Locator.ExtractPlatformAndUsername | utils.py:9-27 | a URL that starts with neither `https://` nor `git@` gives `None` |
| Locator.ExtractNoneIff | utils.py:11-27 | the result is `None` if and only if neither pattern fits any prefix of the URL |
| Locator.ExtractFromGroups | utils.py:11-24 | the result is built from the HTTPS groups when that pattern matches, and from the SSH groups only when it does not |
| Locator.HttpsPath | utils.py:11-16 | `https://host/owner/repo`, with or without further `/…` segments, gives `host/owner/repo` with every `.git` removed from `repo` |
| Locator.SshPath | utils.py:19-24 | `git@host:owner/repo`, with or without further `/…` segments, gives `host/owner/repo` with every `.git` removed from `repo` |
| Locator.RemoveGitSplice | utils.py:15 | `.git` is removed wherever it occurs in the repository group |
| Locator.RemoveTrailingGit | utils.py:15 | a trailing `.git` is removed |
| Locator.GitSuffixSamePath | utils.py:11-16 | `https://h/o/n` and `https://h/o/n.git` give the same path |
| Locator.SshSameAsHttps | utils.py:11-24 | `git@h:o/n.git` gives the same path as `https://h/o/n` when `h` contains neither `/` nor `:` |
| Locator.InnerGitRemoved | utils.py:15-16 | a `.git` inside the repository name is removed as well |
| Locator.RepoComponentCanVanish | utils.py:15-16 | a repository group that is exactly `.git` leaves an empty last path component |
| Changes.ParseNameStatusLine | utils.py:107-114 | a line yields a pair iff its stripped text contains a tab; the pair is the tab-free first two fields, exactly as the stripped line starts |
| Changes.ChangedFiles | utils.py:103-114 | `changed_file_list` has at most one pair per line of the listing; ChangedFilesConcat and ChangedFilesOfLine fix which pairs, in line order |
| Changes.ChangedFilesConcat | utils.py:106-114 | the pairs of two listings joined by a line break are the first listing's pairs followed by the second's |
| Changes.ChangedFilesOfLine | utils.py:106-114 | a single line gives its own pair when its stripped text contains a tab, and nothing otherwise |
| Changes.ParseChangedFiles | utils.py:103-114 | the loop builds `changed_file_list` as the pairs of the lines, in line order |
| Changes.OneLineListing | utils.py:106-114 | a listing `M<tab>path` names exactly that file with that change type |
| Changes.Classify | utils.py:128-143 | a line is an addition iff it starts with `+` but not `+++` or `+@@`, and a deletion iff it starts with `-` but not `---` or `-@@`; a recorded line is its marker followed by its content |
| Changes.ClassifyRender | utils.py:128-143 | a changed line is recorded as itself iff its text does not start with a doubled marker or `@@` |
| Changes.LineChanges | utils.py:123-143 | `changes_content` has at most one entry per diff line; LineChangesConcat and LineChangesOfLine fix which entries, in line order |
| Changes.LineChangesConcat | utils.py:127-143 | `changes_content` keeps diff order: the changes of joined diff texts are the first text's followed by the second's |
| Changes.SkippedLine | utils.py:127-143 | a line that is neither an addition nor a deletion adds nothing |
| Changes.DeletionThenAddition | utils.py:127-143 | a deleted line followed by an added line gives exactly those two changes, in that order |
| Changes.ReplacedLineChanges | utils.py:127-143 | a diff with headers, a hunk header and one replaced line gives the deletion and then the addition |
| Changes.CountsConcat | utils.py:135-143 | the addition and deletion counts of joined change lists add up |
| Changes.CountsPartition | utils.py:124-143 | every recorded change is counted exactly once, as an addition or as a deletion |
| Changes.FileChangeOf | utils.py:146-153 | a file entry carries its path, its change type and its raw diff unchanged, its changes are the classified lines of that diff, and its two counts add up to the number of changes |
| Changes.ParseFileDiff | utils.py:123-153 | the per-file loop yields that entry, with the counters equal to the numbers of additions and deletions in the list |
| Changes.ProcessFile | utils.py:118-162 | a file yields an entry iff its diff call succeeds, and that entry carries its path, its change type and its raw diff |
| Changes.FilesChanged | utils.py:117-162 | `files_changed` has at most one entry per pair of the listing; FilesChangedStep, FailedFileSkipped and AllFilesReported fix which entries, in listing order |
| Changes.FilesChangedStep | utils.py:117-162 | each further pair appends its file's entry when its diff succeeds, and nothing when it fails |
| Changes.SumsConcat | utils.py:155-157 | the per-file sums over joined lists of files add up |
| Changes.ChangesBetween | utils.py:76-169 | the result is `None` iff the mirror is missing, the repository does not open, a commit does not resolve or the name-status diff fails |
| Changes.GetGitChanges | utils.py:68-169 | the method computes that result, and its totals are the sums of the per-file counts |
| Changes.ReportedFileFaithful | utils.py:117-155 | every reported file comes from the listing, carries its own raw diff, and has the changes and counts of that diff |
| Changes.FailedFileSkipped | utils.py:159-162 | a file whose diff call fails is skipped: the report is the one the listing without it would give |
| Changes.AllFilesReported | utils.py:117-155 | when every diff succeeds, there is one entry per pair of the listing, in listing order, for that pair's path, change type and diff |
| Changes.TotalsCountAllLines | utils.py:146-157 | the two totals add up to the number of entries in all `changes` lists |
| Changes.OneFileReport | utils.py:117-164 | a listing of one file whose diff succeeds gives a report of that file alone, with its counts as the totals |
| Changes.ReplacedLineReport | utils.py:102-164 | one file with one replaced line gives that file alone, one deletion then one addition, and totals of one each |

## Left out

- ExtractPlatformAndUsername: its own contract only says that a URL with neither scheme prefix gives `None`. `ExtractNoneIff`, `ExtractFromGroups`, `HttpsPath` and `SshPath` give the full characterisation.
- MatchUrl: its own contract gives the shape of the groups only. `MatchUrlSound`, `MatchUrlComplete` and `MatchUrlIff` state exactly which groups it returns.
- Replace: its own contract gives the length bound only. `ReplaceNoMatch` and `ReplaceSplice` state its result.
- `clone_git_repository` and `update_git_repository` (utils.py:30-65) are not modelled. They are calls into GitPython and the file system. The effect of the update that `get_git_changes` runs first is folded into the `dirExists` input.
- The git and file-system calls are inputs of `GitOracle`, not behaviour. This covers `os.path.exists`, `Repo(...)`, `repo.commit`, and the two `repo.git.diff` calls.
- `os.path.join(repository_dir_path, repo_url)` is not modelled; only its outcome, `dirExists`, is an input.
- The separator `os.sep` is fixed to `/`.
- `print`, `traceback.print_exc` and the `__main__` block (utils.py:172-194) are output only, so they are left out.
- Exceptions other than the modelled git failures are not modelled. Such failures would come from Python itself, such as running out of memory.
- The web API and the webhook event models are not part of this model. They are routing and library wrappers with no text processing of their own.
- Strings are sequences of Unicode code points, as in Python 3. Decoding git's output into text is not modelled.
