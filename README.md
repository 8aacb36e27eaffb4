# Body filter and repository-path guard, in Dafny

This project models two small decision components of a Go MCP server for git
and GitHub, and proves properties of the model.

- **The body-text filter** (`pkg/bodyfilter/bodyfilter.go`). PR and issue
  bodies and commit messages pass through an ordered, process-wide list of
  compiled regular expressions. `SetFilterPatterns` replaces the list and skips
  patterns that fail to compile. `FilterBody` returns the empty body as it is.
  For any other body it deletes every match of every rule, in order, each rule
  working on the previous rule's output. It then replaces every run of three or
  more newlines by two and trims white space from both ends. The default rules
  are the `Co-Authored-By:` line rule and a PR-footer rule.
- **The git tools' argument logic** (`pkg/git/tools.go`):
  - `validateRepoPath` decides which repository a git tool may touch. It has
    four outcomes: default to the first allowed root, "no repository",
    "access denied" and "not a git repository".
  - The splitting of the `files` argument of `git_add`.
  - The numbered listing returned by `git_list_repositories`.

Modules:

- `Wrappers`: `Option` and `Result`.
- `Strings`: the parts of Go's `strings` package that the core calls:
  TrimSpace, Split, Contains (`c in s`) and HasPrefix, over ASCII white space.
  `Join` is not called by the core; it is the inverse of `Split` that the
  proofs use to state what splitting loses and keeps.
- `BodyFilter`: the rule list, `FilterBody`, and the co-author rule written out
  line by line. `DefaultPatterns` holds the two patterns of
  `defaultFilterPatterns`, the co-author rule and the PR-footer rule, in that
  order. The package state is the class `FilterEngine`; its constructor
  stands for the package's `init`.
- `BodyFilterExamples`: rows of the package's table of expected results,
  derived from the general lemmas.
- `GitTools`: `validateRepoPath`, the `git_add` splitter and the repository
  listing.

The functions are the specifications. The Go loops are methods proved equal to
them:

- `FilterEngine.SetFilterPatterns` and `FilterEngine.FilterBody`;
- `ValidateRepoPath`, with the search loop that stops at the first matching root;
- `TrimEach`, which trims the pieces in place in an array;
- `ListRepositories`, the builder loop.

A compiled regular expression is modelled by what `ReplaceAllString(text, "")`
does with it: a function from text to text. `regexp.Compile` is the parameter
`compile`, which returns `None` when a pattern does not compile.

For `validateRepoPath` the file system is replaced by parameters:

- `filepath.Abs` is `abs`, which returns `None` on failure.
- `gitMissing(p)` holds when `os.Stat` of `p/.git` reports that the entry does
  not exist.
- `filepath.Base` is `base`.

### Where the model follows the code rather than the stated intent

- **FilterBody is not idempotent.** The test `TestFilterBodyIdempotent`
  (`pkg/bodyfilter/bodyfilter_test.go:202-213`) says it should be, and checks
  one input. The code is not, in general; this is the second row under
  Findings. The model proves idempotence of the clean-up
  (`NormalizeIdempotent`). It proves idempotence of `Filtered` only when no
  rule matches the first result (`FilteredIdempotent`). That condition holds
  for the input the test uses.
- **Not every piece is trimmed.** `git_add` trims pieces only when it splits.
  An argument with neither a comma nor a space goes to `git add` untouched, so
  a file name followed by a tab or a newline is not trimmed (`FileListShape`).
- **An empty list of allowed roots admits every path.** With no roots,
  containment is not enforced. Only the absolute-path and `.git` checks apply
  (`UnrestrictedWithoutRoots`).

## Model

| member | source | states |
|---|---|---|
| Strings.TrimSpace | pkg/bodyfilter/bodyfilter.go:65 | the result has no white space at either end |
| Strings.TrimSpaceIsTrimOf | pkg/bodyfilter/bodyfilter.go:65 | TrimSpace removes white space, and only white space, and only from the two ends |
| Strings.TrimSpaceOfTrimmed | pkg/bodyfilter/bodyfilter.go:65 | text without white space at its ends is returned unchanged |
| Strings.TrimSpaceOfAllSpace | pkg/bodyfilter/bodyfilter.go:65 | text made only of white space trims to "" |
| Strings.Split | pkg/git/tools.go:405 | strings.Split gives one more piece than there are separators, and no piece contains the separator |
| Strings.JoinSplit | pkg/git/tools.go:405 | joining the pieces of a split with the separator gives back the original text |
| Strings.SplitJoin | pkg/git/tools.go:405 | pieces without the separator are recovered by splitting their join |
| BodyFilter.Compiled | pkg/bodyfilter/bodyfilter.go:31-41 | the rule list SetFilterPatterns builds; the lemmas below state that it keeps exactly the compiling patterns, in order |
| BodyFilter.CompiledRulesSound | pkg/bodyfilter/bodyfilter.go:31-41 | every rule kept comes from a given pattern that compiles and carries its compiled effect; never more rules than patterns |
| BodyFilter.CompiledAllCompile | pkg/bodyfilter/bodyfilter.go:31-41 | when every pattern compiles, there is one rule per pattern, in input order |
| BodyFilter.CompiledSingle | pkg/bodyfilter/bodyfilter.go:33-40 | a pattern that fails to compile is skipped; one that compiles yields exactly its rule |
| BodyFilter.CompiledAppend | pkg/bodyfilter/bodyfilter.go:33-40 | a failing pattern does not abort the rest: the rules for a concatenated list are the rules of each part, in order |
| BodyFilter.FilterEngine.constructor | pkg/bodyfilter/bodyfilter.go:12-26 | package initialisation installs exactly the compiled default patterns |
| BodyFilter.FilterEngine.SetFilterPatterns | pkg/bodyfilter/bodyfilter.go:31-41 | the whole rule set is replaced by the patterns that compile, in their input order |
| BodyFilter.FilterEngine.FilterBody | pkg/bodyfilter/bodyfilter.go:49-68 | the rule loop, collapse and trim compute exactly Filtered under the current rules |
| BodyFilter.Filtered | pkg/bodyfilter/bodyfilter.go:49-68 | "" gives ""; every result is trimmed and has no three newlines in a row |
| BodyFilter.ApplyRules | pkg/bodyfilter/bodyfilter.go:54-57 | the rule loop: each rule deletes its matches from the previous rule's output; the lemmas below state order, no-match and deletion |
| BodyFilter.ApplyRulesAppend | pkg/bodyfilter/bodyfilter.go:54-57 | the rules after any split point see only the output of the rules before it |
| BodyFilter.ApplyRulesFirst | pkg/bodyfilter/bodyfilter.go:54-57 | the first rule sees the original text and later rules see its output |
| BodyFilter.ApplyRulesUnmatched | pkg/bodyfilter/bodyfilter.go:54-57 | rules that find nothing to delete leave the text unchanged |
| BodyFilter.ApplyRulesDeletes | pkg/bodyfilter/bodyfilter.go:54-57 | deletion rules applied in sequence only delete characters |
| BodyFilter.CollapseNewlines | pkg/bodyfilter/bodyfilter.go:61-62 | the `\n{3,}` replacement by two newlines, leftmost and greedy; the lemmas below state no triple, fixpoint, per-run effect and deletion |
| BodyFilter.CollapseNewlinesNoTriple | pkg/bodyfilter/bodyfilter.go:61-62 | after the collapse no three newlines are in a row |
| BodyFilter.CollapseNewlinesUnchanged | pkg/bodyfilter/bodyfilter.go:61-62 | text without three newlines in a row is unchanged by the collapse |
| BodyFilter.CollapseNewlinesRun | pkg/bodyfilter/bodyfilter.go:61-62 | a maximal run of k newlines becomes two newlines if k >= 3 and is kept otherwise, and the text on either side is collapsed independently |
| BodyFilter.CollapseNewlinesSubsequence | pkg/bodyfilter/bodyfilter.go:61-62 | the collapse only deletes characters |
| BodyFilter.Normalize | pkg/bodyfilter/bodyfilter.go:61-65 | collapse then trim gives trimmed text with no three newlines in a row |
| BodyFilter.NormalizeIdempotent | pkg/bodyfilter/bodyfilter.go:61-65 | the clean-up tail is idempotent |
| BodyFilter.FilteredUnchanged | pkg/bodyfilter/bodyfilter.go:54-67 | text that no rule matches, with no three newlines in a row and no surrounding white space, is returned unchanged |
| BodyFilter.FilteredIdempotent | pkg/bodyfilter/bodyfilter_test.go:202-213 | filtering twice equals filtering once when no rule matches the first result |
| BodyFilter.FilteredSubsequence | pkg/bodyfilter/bodyfilter.go:49-68 | with deletion rules, the result is the input with characters deleted and is never longer |
| BodyFilter.FilteredAllSpace | pkg/bodyfilter/bodyfilter.go:65 | with deletion rules, a white-space-only body filters to "" |
| BodyFilter.DeleteCoAuthorLines | pkg/bodyfilter/bodyfilter.go:14 | the effect of `(?m)^Co-Authored-By:.*$` replaced by "": every line that starts with the label is emptied and its newline kept (CoAuthorLineByLine) |
| BodyFilter.CoAuthorLineByLine | pkg/bodyfilter/bodyfilter.go:14 | the co-author rule keeps the same lines; it empties each line that starts with "Co-Authored-By:", keeps its newline and leaves every other line as it is |
| BodyFilter.CoAuthorRemovesAll | pkg/bodyfilter/bodyfilter.go:14 | after the rule, no line starts with the label |
| BodyFilter.CoAuthorUnmatched | pkg/bodyfilter/bodyfilter.go:14 | text with no line starting with the label is unchanged; a mention of the label mid-line is kept |
| BodyFilter.CoAuthorIsDeletion | pkg/bodyfilter/bodyfilter.go:14 | the co-author rule only deletes characters |
| BodyFilter.CoAuthorAround | pkg/bodyfilter/bodyfilter.go:14 | the rule treats the text on the two sides of a newline independently |
| BodyFilter.CoAuthorBlock | pkg/bodyfilter/bodyfilter.go:14 | a block made only of co-author lines leaves exactly its newlines |
| BodyFilter.CoAuthorTrailer | pkg/bodyfilter/bodyfilter.go:14 | kept text, blank lines, then co-author lines: the rule leaves the kept text followed by newlines only |
| BodyFilter.CoAuthorBetween | pkg/bodyfilter/bodyfilter.go:14 | co-author lines between two kept paragraphs leave one run of newlines between them |
| BodyFilter.NormalizeTrailingNewlines | pkg/bodyfilter/bodyfilter.go:61-65 | trimmed text followed by any run of newlines cleans up to that text |
| BodyFilter.NormalizeBetween | pkg/bodyfilter/bodyfilter.go:61-65 | two trimmed paragraphs separated by two or more newlines clean up to the paragraphs separated by exactly one blank line |
| BodyFilter.TrailerRemoved | pkg/bodyfilter/bodyfilter.go:49-68 | trailing co-author lines are removed together with the blank lines before them |
| BodyFilter.TrailerBetween | pkg/bodyfilter/bodyfilter.go:49-68 | co-author lines between two paragraphs are removed, and exactly one blank line is left between the paragraphs |
| BodyFilter.TrailerOnly | pkg/bodyfilter/bodyfilter.go:49-68 | a body made only of co-author lines filters to "" |
| BodyFilter.Stabilized | pkg/bodyfilter/bodyfilter.go:49-68 | the corrected filter, filtering repeated until nothing changes: its result is a fixpoint of the filter and a subsequence of the body |
| BodyFilter.StabilizedIdempotent | pkg/bodyfilter/bodyfilter_test.go:202-213 | the corrected filter is idempotent, and filtering its result once more changes nothing |
| BodyFilter.StabilizedAgrees | pkg/bodyfilter/bodyfilter.go:49-68 | wherever one pass of FilterBody is already stable, the corrected filter returns the same text |
| BodyFilter.FixpointNoCoAuthorLine | pkg/bodyfilter/bodyfilter.go:14 | a text that the filter leaves unchanged has no line starting with the co-author label |
| BodyFilter.StabilizedNoCoAuthorLine | pkg/bodyfilter/bodyfilter.go:14 | no line of the corrected filter's result starts with the co-author label |
| BodyFilterExamples.ExampleSingleTrailer | pkg/bodyfilter/bodyfilter_test.go:26-29 | "Fix bug in authentication\n\nCo-Authored-By: John Doe <john@example.com>" filters to "Fix bug in authentication" |
| BodyFilterExamples.ExampleMiddle | pkg/bodyfilter/bodyfilter_test.go:39-46 | a co-author line between "This is the description" and "More content here" is removed, leaving one blank line |
| BodyFilterExamples.ExampleOnlyCoAuthors | pkg/bodyfilter/bodyfilter_test.go:84-88 | two co-author lines and nothing else filter to "" |
| BodyFilterExamples.ExampleMidLineMention | pkg/bodyfilter/bodyfilter_test.go:57-60 | "This mentions Co-Authored-By: but not at start" is returned unchanged |
| BodyFilterExamples.ExampleWhitespaceOnly | pkg/bodyfilter/bodyfilter_test.go:99-102 | "   \n\n   " filters to "" |
| BodyFilterExamples.FilteredNotIdempotent | pkg/bodyfilter/bodyfilter.go:54-65 | for any co-author line, " " + line filters to the line, and filtering that again gives "", which differs |
| BodyFilterExamples.ExampleNotIdempotent | pkg/bodyfilter/bodyfilter_test.go:202-213 | the co-author line of the test data, once indented by a blank, survives the first pass and not the second |
| BodyFilterExamples.ExampleStabilized | pkg/bodyfilter/bodyfilter_test.go:202-213 | the corrected filter removes that indented co-author line entirely |
| Strings.HasPrefix | pkg/git/tools.go:57 | `strings.HasPrefix`: the text begins with the prefix (RawPrefixAdmitsExtensions) |
| GitTools.Validate | pkg/git/tools.go:38-74 | an empty request gives the first root, or NoRepository when there are no roots; a granted non-empty request is the absolute form of the request, has a .git entry and, when roots are configured, is admitted by one of them |
| GitTools.ValidateRepoPath | pkg/git/tools.go:38-74 | the search loop with its early break decides exactly as Validate with raw string-prefix containment |
| GitTools.ValidateOutcomes | pkg/git/tools.go:47-73 | for a non-empty request, the exact condition for each of InvalidPath, AccessDenied, NotARepository and success; errors carry the absolute path, and NoRepository never occurs |
| GitTools.DeniedBeforeGitCheck | pkg/git/tools.go:55-71 | a path outside every root is denied whatever the .git check would say |
| GitTools.UnrestrictedWithoutRoots | pkg/git/tools.go:55-65 | with no roots, containment is not enforced and any absolute path with a .git entry is granted |
| GitTools.RawPrefixAdmitsExtensions | pkg/git/tools.go:57 | raw prefix containment admits every string that extends a root |
| GitTools.SiblingAdmitted | pkg/git/tools.go:55-65 | the root "/repos/app" grants "/repos/app-backup"; the segment-aware test denies it |
| GitTools.Within | pkg/git/tools.go:57 | the corrected containment test, the root itself or a path below it; WithinSegments and WithinNarrowsPrefix state it |
| GitTools.WithinSegments | pkg/git/tools.go:57 | for a root without a trailing '/', segment-aware containment admits exactly the root itself and the paths that continue it with '/' |
| GitTools.WithinNarrowsPrefix | pkg/git/tools.go:55-65 | every path the segment-aware check grants, raw prefix containment grants the same way |
| GitTools.TrimAllPieces | pkg/git/tools.go:406-408 | trimming the pieces keeps their number and trims each piece in its place |
| GitTools.TrimEach | pkg/git/tools.go:406-408 | the in-place loop leaves the array holding every original element trimmed |
| GitTools.SplitFiles | pkg/git/tools.go:402-416 | the files handed to git add are a new array holding exactly FileList of the argument |
| GitTools.FileList | pkg/git/tools.go:403-416 | the files handed to git add; FileListShape and FileListPieces state them |
| GitTools.FileListShape | pkg/git/tools.go:403-416 | comma before space: with a separator there is one file per separator plus one, each trimmed, without that separator and without a comma; without one, the argument is passed on unchanged |
| GitTools.FileListPieces | pkg/git/tools.go:404-413 | the files are the trimmed pieces between separators, and those pieces join back to the argument |
| GitTools.NatToString | pkg/git/tools.go:960 | %d gives a non-empty string of decimal digits without a leading zero |
| GitTools.NatToStringValue | pkg/git/tools.go:960 | the digits denote the number printed |
| GitTools.NatToStringInjective | pkg/git/tools.go:965 | distinct numbers print differently, so entries are told apart by their numbers |
| GitTools.Listing | pkg/git/tools.go:954-968 | the text git_list_repositories returns; ListingLines and ListingSplitsIntoLines state its lines |
| GitTools.ListRepositories | pkg/git/tools.go:954-968 | the builder loop produces exactly Listing: "No repositories configured" for no roots, else the header and one entry per root |
| GitTools.EntriesLines | pkg/git/tools.go:962-966 | the loop's output is the entry lines joined by newlines, with a final newline |
| GitTools.ListingLines | pkg/git/tools.go:954-968 | the listing is the header, a blank line, then "i. base (path)" for each root in order, numbered from 1, with a final newline |
| GitTools.ListingSplitsIntoLines | pkg/git/tools.go:954-968 | when no path or base name contains a newline, the listing has three lines more than there are roots, and line i + 2 names root i with number i + 1 |

## Left out

- The Go regular-expression engine. Each rule is modelled by the effect of deleting its matches, a function from text to text. Only the `(?m)^Co-Authored-By:.*$` rule is written out, line by line. The PR-footer rule keeps its pattern text but its effect is abstract.
- The `\n{3,}` clean-up regex. It is modelled directly by `CollapseNewlines`, a leftmost, greedy replacement of each run of three or more newlines.
- Unicode. `strings.TrimSpace` is modelled over ASCII white space (space, `\t`, `\n`, `\v`, `\f`, `\r`). Text is `seq<char>`, not UTF-8 bytes.
- The warning that `SetFilterPatterns` logs for a failing pattern, and the log output in general.
- Concurrent access to the process-wide rule list, which has no lock. It is modelled as a single `FilterEngine` object.
- `filepath.Abs`, `os.Stat` of `path/.git`, `filepath.Join` and `filepath.Base`. These are parameters, not a file-system model. As in the code, a `Stat` error other than "does not exist" counts as present.
- The text of the error messages and the wrapped `filepath.Abs` error. `PathError` keeps the kind of failure and the absolute path it names.
- The JSON argument handling, MCP tool registration and schemas of the `Git*` constructors. The call to `AddFiles` with the split list is also left out, as is the wrapping of the listing in a tool result.
- The rest of the git tools and the `gitops` command execution. These are external processes.
- BodyFilter.FilteredIdempotent: states idempotence only when no rule matches the first result, because the code is not idempotent in general (`FilteredNotIdempotent`).
- BodyFilterExamples.ExampleSingleTrailer: assumes that the rules after the co-author rule delete nothing from the kept line followed by newlines, because the footer rule's effect is abstract.
- BodyFilterExamples.ExampleMiddle: assumes that the rules after the co-author rule delete nothing from the two kept paragraphs, because the footer rule's effect is abstract.
- BodyFilterExamples.ExampleMidLineMention: assumes that the rules after the co-author rule leave that line alone, because the footer rule's effect is abstract.
- BodyFilterExamples.ExampleWhitespaceOnly: assumes that the later rules only delete characters, which holds for every replacement by "".
- BodyFilterExamples.FilteredNotIdempotent: assumes that the later rules leave the indented line and "" alone, because the footer rule's effect is abstract.
- BodyFilterExamples.ExampleOnlyCoAuthors: assumes that the rules after the co-author rule leave a run of newlines alone, because the footer rule's effect is abstract.
- BodyFilterExamples.ExampleStabilized: assumes the same as ExampleNotIdempotent, and that every rule only deletes characters.
- BodyFilter.Stabilized: is defined for deletion rules only, because only then does every pass that changes the text shorten it; every `ReplaceAllString(·, "")` is one.
- Other rows of the table of expected results, which need the footer pattern's exact semantics (`(?s)`, `\s*`, character classes). The co-author rows follow from `TrailerRemoved`, `TrailerBetween` and `TrailerOnly`.

## Findings

| source | as written | input that shows it | evidently intended | confidence | as-written member | corrected member |
|---|---|---|---|---|---|---|
| pkg/git/tools.go:57 | a path is allowed when an allowed root is a raw string prefix of it | root `/repos/app`, request `/repos/app-backup` (a sibling directory with a `.git` entry) is granted | a path is allowed only when it is the root or lies below it, i.e. the prefix ends at a path separator | high; not executed | GitTools.SiblingAdmitted | GitTools.WithinSegments |
| pkg/bodyfilter/bodyfilter.go:54-65 | the rules run once, before the trim, so a co-author line that the trim brings to column one stays in the result | `" Co-Authored-By: x"` filters to `"Co-Authored-By: x"`, and that filters to `""` | filtering is idempotent (bodyfilter_test.go:202-213) and no line of the result starts with the label | high; not executed | BodyFilterExamples.FilteredNotIdempotent | BodyFilter.StabilizedIdempotent |

The corrected containment test is `Within`. `Validate(…, Within)` is the
corrected validator. `WithinNarrowsPrefix` shows it grants only what the
original grants. `SiblingAdmitted` shows it denies the sibling that the
original grants.

The corrected filter is `Stabilized`. It repeats `Filtered` until the text no
longer changes. `StabilizedIdempotent` shows it is idempotent.
`StabilizedNoCoAuthorLine` shows that no line of its result starts with the
label. `StabilizedAgrees` shows it returns what FilterBody returns wherever one
pass is already stable. `FilteredNotIdempotent` shows the code as written
breaks both promises on one indented co-author line: the result is that line,
and a second pass deletes it.
