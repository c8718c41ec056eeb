# git-commit-analyzer, modelled in Dafny

This project models the two parts of git-commit-analyzer that hold its logic.

The first part is `src/utils/gitAnalyzer.ts`:

- the parsing half of `getGitDiff`, which turns the text of four `git diff --cached` commands into a diff summary;
- `analyzeFileChanges`, which collects the file-type tags of the modified files and puts the change into a complexity tier;
- `generateCommitMessage`, which picks a conventional-commit type, a scope, a description and a breaking-change flag, and builds the suggested message with its statistics block.

The second part is `src/utils/readmeUpdater.ts`:

- `checkChangelogExists`, `getProjectName` and `createChangelog`;
- the Markdown of one commit record (`generateCommitRecordMarkdown`);
- `updateChangelog`. It finds the first of three anchors, splices the record in after it, and rewrites the `*最后更新：…*` marker.

The modules follow the program's structure:

| file | module | models |
|---|---|---|
| `wrappers.dfy` | `Wrappers` | `Option` |
| `text.dfy` | `Text` | the JavaScript string built-ins the code relies on: `split`, `join`, `trim`, `includes`, ASCII `toLowerCase`, number rendering and `parseInt`, and the runs and searches the regular expressions reduce to |
| `diff_parser.dfy` | `DiffParser` | the `--stat`, `--name-only` and `--name-status` parsing of `getGitDiff`, as a method over the command outputs |
| `change_classifier.dfy` | `ChangeClassifier` | `analyzeFileChanges`, a method with the source's loop over the modified files |
| `message_composer.dfy` | `MessageComposer` | `generateCommitMessage`, a method that builds its result step by step as the source does |
| `changelog_text.dfy` | `ChangelogText` | the record Markdown, the changelog template, `getProjectName`, and the anchor search, splice and marker rewrite |
| `changelog_store.dfy` | `ChangelogStore` | a `Store` class whose `files` map (path to content) is the file system; `checkChangelogExists`, `createChangelog` and `updateChangelog` are its methods |

Each regular expression is written out as the search a backtracking engine makes:

- The `--stat` pattern `(\d+) insertion?.*?(\d+) deletion?` is the leftmost digit run followed by ` insertio`. Then, on the same line, the first digit run followed by ` deletio`.
- The heading anchor `<heading>\s*\n` ends just past the last newline in the white space after the heading.
- The title anchor `# .+\n` needs a non-empty rest of the line ended by `\n`.
- The marker `(\*最后更新：).+(\*)` matches at its leftmost start and ends at the last `*` of that line.

Every method is proved against a specification function. The lemmas beside the functions prove what the source promises:

- splitting and joining round-trip;
- the parsers read back the listings git prints;
- the file-type tags are distinct, in first-occurrence order, and exactly the non-empty extensions;
- the tier thresholds are strict;
- each type rule of the priority chain fires exactly when the rules before it do not and its own condition holds;
- the `!` of the subject line marks exactly a breaking change;
- the line counts can be read back from the message;
- the splice keeps the text around the record;
- only the first marker is rewritten;
- a created changelog always takes the first anchor branch;
- after an update, the written file is the changelog found from then on.

Where the source and a plain reading of its behaviour disagree, the model follows the source:

- The subject line gets `(scope)` only when the scope is truthy. A first modified path that starts with `/`, or that has no `/` and starts with `.`, has an empty scope, so no parentheses appear, although `scope` is defined. A path such as `.github/ci.yml` gets the scope `.github`.
- The marker rewrite's replacement `*最后更新：$1…$2` inserts the captured prefix again, so the rewritten marker carries the prefix twice. `MarkerReplacement` models this as written.
- A last `--stat` line with insertions but no deletions does not match the pattern, so both counts stay 0 (`DiffParser.NoDeletionWordNoCounts`).
- The file count adds the name-only list and the added and deleted lists. Added and deleted paths are therefore counted twice.

## Model

| member | source | states |
|---|---|---|
| `Text.Split` | src/utils/gitAnalyzer.ts:30 | `split` on one character is never empty, and no piece holds the separator. Text without the separator is one piece. |
| `Text.JoinSplit` | src/utils/gitAnalyzer.ts:30 | joining the pieces of a split with the separator gives the text back |
| `Text.SplitJoin` | src/utils/gitAnalyzer.ts:50 | splitting a join of separator-free pieces gives the pieces back |
| `Text.SplitAppend` | src/utils/readmeUpdater.ts:155-184 | splitting a text with a separator in it gives the pieces of the text before it followed by the pieces of the text after it |
| `Text.SplitPrepend` | src/utils/readmeUpdater.ts:157 | a separator-free text put in front of another joins the first piece of its split |
| `Text.SplitHead` | src/utils/gitAnalyzer.ts:173 | `split(sep)[0]` is the prefix up to the first separator |
| `Text.SplitLast` | src/utils/gitAnalyzer.ts:99 | the last piece of a split is the suffix after the last separator |
| `Text.JoinWithBounds` | src/utils/readmeUpdater.ts:157-183 | a join starts with its first piece and ends with its last |
| `Text.JoinWithContains` | src/utils/readmeUpdater.ts:177 | every piece occurs in the join |
| `Text.Trim` | src/utils/gitAnalyzer.ts:30 | the trimmed text neither starts nor ends with JavaScript white space, and is no longer than the input |
| `Text.TrimRemovesOnlyWhitespace` | src/utils/gitAnalyzer.ts:30 | the trimmed text is a stretch of the input with only white space before it and only white space after it |
| `Text.TrimNewlineTerminated` | src/utils/gitAnalyzer.ts:49 | trimming a listing that ends in its one newline removes just that newline |
| `Text.ToLower` | src/utils/gitAnalyzer.ts:99 | lower-casing keeps the length, leaves no capital letter, turns each capital into its small letter and leaves every other character as it is |
| `Text.ToLowerIdempotent` | src/utils/gitAnalyzer.ts:99 | lower-casing an already lower-cased text changes nothing |
| `Text.NatToString` | src/utils/gitAnalyzer.ts:216-220 | a rendered count is a non-empty run of digits without a leading zero |
| `Text.ParseNatToString` | src/utils/gitAnalyzer.ts:40-41 | `parseInt` of a rendered count gives the count |
| `Text.WhitespaceEnd` | src/utils/readmeUpdater.ts:113 | the greedy `\s*`: white space up to the result, and no white space at the result |
| `Text.LineEnd` | src/utils/readmeUpdater.ts:142 | what a greedy `.+` can take: no line terminator before the result, and one (or the end) at it |
| `Text.LastIndexOf` | src/utils/readmeUpdater.ts:142 | the backtracking of a greedy run: the last position of a character in a range, or none in the range |
| `DiffParser.LastStatLine` | src/utils/gitAnalyzer.ts:30-31 | the last line of the trimmed `--stat` output holds no newline |
| `DiffParser.FirstDeletionCount` | src/utils/gitAnalyzer.ts:38 | the lazy `.*?(\d+) deletion?`: the first position where the second group matches, and no match before it |
| `DiffParser.FirstCounts` | src/utils/gitAnalyzer.ts:38 | the leftmost position where the whole pattern matches, and no match before it |
| `DiffParser.CountsAt` | src/utils/gitAnalyzer.ts:38 | the match of the pattern at one start position; `CountsAtSound` and `CountsAtComplete` give its meaning |
| `DiffParser.StatCounts` | src/utils/gitAnalyzer.ts:37-43 | the two counts of the last `--stat` line; `StatCountsFound`, `StatCountsMeaning` and `NoDeletionWordNoCounts` give its meaning |
| `DiffParser.CountsAtComplete` | src/utils/gitAnalyzer.ts:38-42 | every match of the pattern is found when the search reaches its start, with the first count read from its first group |
| `DiffParser.CountsAtSound` | src/utils/gitAnalyzer.ts:38-42 | what the search finds is a match, and the two counts are `parseInt` of its two groups |
| `DiffParser.StatCountsFound` | src/utils/gitAnalyzer.ts:38-42 | the counts come from the leftmost match and, among matches starting there, from the one whose second group starts first |
| `DiffParser.StatCountsMeaning` | src/utils/gitAnalyzer.ts:38-39 | counts are found if and only if the pattern matches somewhere in the line |
| `DiffParser.NoDeletionWordNoCounts` | src/utils/gitAnalyzer.ts:37-43 | a line that never says ` deletio` yields no counts, so an insertions-only change is 0/0 |
| `DiffParser.NonEmptyLines` | src/utils/gitAnalyzer.ts:51 | the filter keeps only non-empty lines, and a text is among the kept lines if and only if it is a non-empty input line |
| `DiffParser.NonEmptyLinesSingle` | src/utils/gitAnalyzer.ts:51 | one line is kept if and only if it is non-empty |
| `DiffParser.NonEmptyLinesAppend` | src/utils/gitAnalyzer.ts:51 | filtering a concatenation is filtering each part in turn, so the kept lines stay in their order |
| `DiffParser.NonEmptyLinesKeepsAll` | src/utils/gitAnalyzer.ts:51 | a list without empty lines is kept as it is |
| `DiffParser.NameOnlyFiles` | src/utils/gitAnalyzer.ts:45-51 | every modified path is non-empty and on one line |
| `DiffParser.StatusPath` | src/utils/gitAnalyzer.ts:61 | `substring(2)`; `StatusFilesOfLines` and `NameStatusRoundTrip` give its meaning on a printed entry |
| `DiffParser.StatusFiles` | src/utils/gitAnalyzer.ts:60-61 | the filter on the status character and the map to paths; `StatusFilesOfLines` gives its meaning |
| `DiffParser.NameStatusFiles` | src/utils/gitAnalyzer.ts:54-70 | the added or deleted paths of the `--name-status` output; `NameStatusRoundTrip` gives its meaning |
| `DiffParser.NameOnlyRoundTrip` | src/utils/gitAnalyzer.ts:45-51 | the `--name-only` listing of some paths reads back as exactly those paths, in order |
| `DiffParser.StatusFilesOfLines` | src/utils/gitAnalyzer.ts:58-61 | filtering printed entries on their first character and dropping two characters gives the paths with that status, in order |
| `DiffParser.NameStatusRoundTrip` | src/utils/gitAnalyzer.ts:54-70 | the `--name-status` listing reads back as exactly the paths with status `A`, or `D`, in input order |
| `DiffParser.GetGitDiff` | src/utils/gitAnalyzer.ts:16-83 | both counts are 0 unless the last `--stat` line mentions insertion or deletion and the pattern matches it. The file lists are the name-only and name-status readings. `diffContent` is the diff text. |
| `ChangeClassifier.FileExtension` | src/utils/gitAnalyzer.ts:99 | an extension holds no dot, and a name without a dot is its own lower-cased extension |
| `ChangeClassifier.FileExtensionAfterLastDot` | src/utils/gitAnalyzer.ts:99 | with a dot, the extension is the lower-cased text after the last dot |
| `ChangeClassifier.DistinctExtensions` | src/utils/gitAnalyzer.ts:93-119 | the set of tags as an ordered list; `DistinctExtensionsUnique`, `DistinctExtensionsMembers` and `DistinctExtensionsPrefix` give its meaning |
| `ChangeClassifier.DistinctExtensionsUnique` | src/utils/gitAnalyzer.ts:93-103 | no tag occurs twice |
| `ChangeClassifier.DistinctExtensionsMembers` | src/utils/gitAnalyzer.ts:98-103 | a text is a tag if and only if it is the non-empty extension of some modified file |
| `ChangeClassifier.DistinctExtensionsPrefix` | src/utils/gitAnalyzer.ts:98-119 | the tags of a prefix of the file list come first, which is first-occurrence order |
| `ChangeClassifier.Tier` | src/utils/gitAnalyzer.ts:111-117 | high if and only if total > 500 or files > 10. Medium if and only if not high and total > 100 or files > 5. Low if and only if total <= 100 and files <= 5. |
| `ChangeClassifier.TierMonotone` | src/utils/gitAnalyzer.ts:106-117 | a change that is no smaller in both measures never gets a lower tier |
| `ChangeClassifier.PatternOf` | src/utils/gitAnalyzer.ts:111-117 | the change pattern of each tier; `RefactorIffHigh` states that only the high tier's pattern mentions a refactoring |
| `ChangeClassifier.AnalyzeFileChanges` | src/utils/gitAnalyzer.ts:88-123 | the loop collects exactly the distinct non-empty extensions in order. The tier follows the thresholds, and the pattern label goes with the tier. |
| `MessageComposer.ScopeOf` | src/utils/gitAnalyzer.ts:170-177 | the scope is undefined if and only if there is no modified file |
| `MessageComposer.ChooseType` | src/utils/gitAnalyzer.ts:135-167 | the if-chain gives the type and base text of the priority chain |
| `MessageComposer.SelectType` | src/utils/gitAnalyzer.ts:129-167 | the priority chain of type rules; `TestIff`, `DocsIff`, `StyleIff`, `RefactorIffHigh`, `ChoreIff`, `FeatIff`, `FixIff` and `EmptyBaseOnlyForEmptyChange` give its meaning |
| `MessageComposer.ChooseScope` | src/utils/gitAnalyzer.ts:170-177 | the scope statement gives the scope of the first modified path |
| `MessageComposer.GenerateCommitMessage` | src/utils/gitAnalyzer.ts:126-230 | the result's type, scope, description, breaking flag and empty body, and a message that is the subject line followed by the statistics block |
| `MessageComposer.TestIff` | src/utils/gitAnalyzer.ts:135-137 | `test` is chosen if and only if an added path contains "test" |
| `MessageComposer.DocsIff` | src/utils/gitAnalyzer.ts:138-140 | `docs` is chosen if and only if no test file was added and an `md` or `txt` tag is there |
| `MessageComposer.StyleIff` | src/utils/gitAnalyzer.ts:141-143 | `style` is chosen if and only if the test and docs rules do not fire and a `css` or `scss` tag is there |
| `MessageComposer.ChoreIff` | src/utils/gitAnalyzer.ts:129-167 | `chore` is chosen if and only if the first four rules do not fire and files were deleted, or no file changed at all |
| `MessageComposer.FeatIff` | src/utils/gitAnalyzer.ts:150-165 | `feat` is chosen if and only if the first five rules do not fire and files were added, or files were only modified without "fix", "bug" or "error" in the diff |
| `MessageComposer.RefactorIffHigh` | src/utils/gitAnalyzer.ts:144-146 | past the test, docs and style rules, `refactor` is chosen if and only if the tier is high |
| `MessageComposer.FixIff` | src/utils/gitAnalyzer.ts:153-162 | `fix` is chosen if and only if the first five rules do not fire, files were only modified, and the diff says "fix", "bug" or "error" |
| `MessageComposer.EmptyBaseOnlyForEmptyChange` | src/utils/gitAnalyzer.ts:129-167 | the base text is empty if and only if no rule applies: no files in any list, no doc or style tag, and no refactor pattern |
| `MessageComposer.ScopeMeaning` | src/utils/gitAnalyzer.ts:170-177 | the scope is the first path's text before its first `/`, or before its first `.` when it has no `/` |
| `MessageComposer.WithClauseExtends` | src/utils/gitAnalyzer.ts:180-181 | a clause keeps the text it extends and, for a positive count, adds that count's clause |
| `MessageComposer.DescribeClauses` | src/utils/gitAnalyzer.ts:180-189 | the description starts with the base text and holds the clause of each positive count. With no files it is the base text. |
| `MessageComposer.Describe` | src/utils/gitAnalyzer.ts:180-189 | the description with its file-count clauses; `DescribeClauses`, `DescribeNoNewline` and `DescribeNoBang` give its meaning |
| `MessageComposer.DescribeNoNewline` | src/utils/gitAnalyzer.ts:180-189 | the description stays on one line |
| `MessageComposer.StatsBlockStart` | src/utils/gitAnalyzer.ts:214-222 | the statistics block opens with a newline before its lines |
| `MessageComposer.StatsBlock` | src/utils/gitAnalyzer.ts:214-222 | the statistics block; `StatsBlockStart`, `StatsLinesNoNewline`, `MessageLines` and `MessageReportsLineCounts` give its meaning |
| `MessageComposer.StatsLinesNoNewline` | src/utils/gitAnalyzer.ts:214-222 | each statistics line is one line |
| `MessageComposer.MessageLines` | src/utils/gitAnalyzer.ts:205-227 | the message's lines are the subject line, a blank line, the heading, the seven figures and the empty text after the last newline |
| `MessageComposer.MessageReportsLineCounts` | src/utils/gitAnalyzer.ts:214-217 | the fourth and fifth lines of the message parse back to the added and deleted line counts |
| `MessageComposer.BangIffBreaking` | src/utils/gitAnalyzer.ts:209-212 | the subject ends in `!` if and only if the change is breaking, for a description that does not end in `!` |
| `MessageComposer.WithScope` | src/utils/gitAnalyzer.ts:205-208 | the type with `(scope)` when the scope is truthy; `MessageLines` and `BangIffBreaking` build on it |
| `MessageComposer.Subject` | src/utils/gitAnalyzer.ts:205-212 | the subject line; `BangIffBreaking` and `SubjectMarksBreaking` give its meaning |
| `MessageComposer.DescribeNoBang` | src/utils/gitAnalyzer.ts:180-189 | no description the composer builds ends in `!` |
| `MessageComposer.SubjectMarksBreaking` | src/utils/gitAnalyzer.ts:197-212 | the suggested subject ends in `!` if and only if the diff mentions "BREAKING CHANGE" or "breaking change" |
| `MessageComposer.SingleFileTags` | src/utils/gitAnalyzer.ts:98-103 | one path `dir/name.ext` has the single tag `ext`, lower-cased |
| `MessageComposer.SingleFileScope` | src/utils/gitAnalyzer.ts:170-175 | the scope of `dir/name.ext` is `dir` |
| `MessageComposer.SingleFileFix` | src/utils/gitAnalyzer.ts:88-177 | a small change to one non-doc, non-style file whose diff mentions "fix" gets the low tier, its `ext` tag, and `fix` scoped to `dir` |
| `ChangelogText.Backticked` | src/utils/readmeUpdater.ts:177 | one piece per path, in order, and each piece reads back as its path between two backticks |
| `ChangelogText.FileBullet` | src/utils/readmeUpdater.ts:177-181 | one bullet of paths; `BulletPresence` and `BulletListsPaths` give its meaning |
| `ChangelogText.RecordFrame` | src/utils/readmeUpdater.ts:157-183 | the record opens with `###  ` and the message and closes with the `-----` rule |
| `ChangelogText.BulletPresence` | src/utils/readmeUpdater.ts:175-182 | a file bullet is present if and only if its list is non-empty |
| `ChangelogText.BulletListsPaths` | src/utils/readmeUpdater.ts:177 | a bullet is the label and the backticked paths joined by `, `, and names every path |
| `ChangelogText.RecordLinesOneLine` | src/utils/readmeUpdater.ts:157-183 | when the fields other than the message hold no newline, each line of the template after the title holds none |
| `ChangelogText.RecordReadsBack` | src/utils/readmeUpdater.ts:155-184 | for a message of any number of lines, splitting the record at its newlines gives the title with the message's first line, then the message's other lines, then the template's lines after the title, unchanged |
| `ChangelogText.RecordReadsBackOneLine` | src/utils/readmeUpdater.ts:155-184 | for a one-line message, splitting the record at its newlines gives exactly the template's lines |
| `ChangelogText.RecordMarkdown` | src/utils/readmeUpdater.ts:155-184 | `generateCommitRecordMarkdown`; `RecordFrame`, `RecordReadsBack` and `RecordReadsBackOneLine` give its meaning |
| `ChangelogText.ProjectName` | src/utils/readmeUpdater.ts:46-58 | the project name is never empty |
| `ChangelogText.ProjectNameMeaning` | src/utils/readmeUpdater.ts:46-58 | a parsed manifest decides alone: its non-empty name, or `Unknown Project`. Otherwise a path that is non-empty and does not end in `/` gives its last `/`-segment, which is non-empty, and a path that is empty or ends in `/` gives `Unknown Project` |
| `ChangelogText.HeadingAnchorAt` | src/utils/readmeUpdater.ts:113 | a match at a position starts with the heading and ends after it, at or before the end of the text. |
| `ChangelogText.HeadingAnchorAtMeaning` | src/utils/readmeUpdater.ts:113 | the anchor matches at a position if and only if the heading is there and a newline follows within its white space. The match ends just past the last such newline. |
| `ChangelogText.FirstHeadingAnchor` | src/utils/readmeUpdater.ts:113-114 | the leftmost anchor match and its end, with no match before it, or no match anywhere |
| `ChangelogText.TitleAnchorAt` | src/utils/readmeUpdater.ts:129 | `# .+\n` matches if and only if `# ` starts a line remainder that is non-empty and ended by `\n`. The match ends after that newline. |
| `ChangelogText.FirstTitle` | src/utils/readmeUpdater.ts:129-130 | the leftmost title match, with no match before it, or no match anywhere |
| `ChangelogText.InsertionPoint` | src/utils/readmeUpdater.ts:113-138 | the insertion point lies within the text |
| `ChangelogText.SpliceKeepsText` | src/utils/readmeUpdater.ts:119 | the spliced text is the text before the point, the record, one newline and the text after the point, and the text around the record is the original |
| `ChangelogText.Splice` | src/utils/readmeUpdater.ts:118-119 | the record put in at a position; `SpliceKeepsText` gives its meaning |
| `ChangelogText.InsertRecord` | src/utils/readmeUpdater.ts:134-136 | with no anchor, the result is the record, a newline and the original text |
| `ChangelogText.AbsentHeadingNoAnchor` | src/utils/readmeUpdater.ts:113-123 | a text that never mentions a heading has no match of its anchor |
| `ChangelogText.InsertionWithoutHeadings` | src/utils/readmeUpdater.ts:127-137 | without either heading, the record goes after the first title line, or at the start when there is none |
| `ChangelogText.LatestHeadingFirst` | src/utils/readmeUpdater.ts:113-119 | a latest-records anchor decides the insertion point, wherever the other anchors are |
| `ChangelogText.HistoryHeadingSecond` | src/utils/readmeUpdater.ts:121-126 | without a latest-records anchor, a history anchor decides the insertion point |
| `ChangelogText.HeadingThenBlankLine` | src/utils/readmeUpdater.ts:113 | a heading followed by a blank line and an indented visible line: the anchor ends after the blank line |
| `ChangelogText.TemplateAnchor` | src/utils/readmeUpdater.ts:67-72 | the created document has a latest-records anchor right after its title block, ending after the blank line |
| `ChangelogText.ChangelogTemplate` | src/utils/readmeUpdater.ts:67-90 | the text `createChangelog` writes; `TemplateAnchor`, `TemplateTakesLatestBranch` and `TemplateBodyStart` give its meaning |
| `ChangelogText.TemplateTakesLatestBranch` | src/utils/readmeUpdater.ts:67-119 | updating a created document takes the first anchor branch |
| `ChangelogText.MarkerAt` | src/utils/readmeUpdater.ts:141-144 | a marker match starts with the prefix and has at least one character after it. |
| `ChangelogText.MarkerAtMeaning` | src/utils/readmeUpdater.ts:141-144 | a marker match lies within one line, has at least one character after the prefix, and ends at the last `*` of that line. No match means no prefix or no `*` after it. |
| `ChangelogText.FirstMarker` | src/utils/readmeUpdater.ts:141-144 | the leftmost marker match, with no match before it, or no match anywhere |
| `ChangelogText.NoMarkerUnchanged` | src/utils/readmeUpdater.ts:141-144 | a text without the marker prefix is left as it is |
| `ChangelogText.RewriteFirstMarker` | src/utils/readmeUpdater.ts:141-144 | only the leftmost match is replaced, by the doubled prefix, the time and `*`, and the text before and after it is kept |
| `ChangelogText.MarkerReplacement` | src/utils/readmeUpdater.ts:143 | the replacement text, with the captured prefix repeated; `RewriteFirstMarker` states where it goes |
| `ChangelogText.RewriteMarker` | src/utils/readmeUpdater.ts:141-144 | the marker rewrite; `RewriteFirstMarker` and `NoMarkerUnchanged` give its meaning |
| `ChangelogText.UpdatedText` | src/utils/readmeUpdater.ts:107-144 | the text `updateChangelog` writes; `InsertRecord`, `TemplateTakesLatestBranch` and `RewriteFirstMarker` give its meaning |
| `ChangelogStore.PathJoin` | src/utils/readmeUpdater.ts:35 | joining onto an empty directory gives the name; otherwise the result starts with the directory and ends with `/` and the name |
| `ChangelogStore.JoinAll` | src/utils/readmeUpdater.ts:34-35 | each candidate name joined onto the project path, in order |
| `ChangelogStore.FirstPresent` | src/utils/readmeUpdater.ts:34-40 | the first candidate that exists, none existing before it, or none if and only if no candidate exists |
| `ChangelogStore.Manifest` | src/utils/readmeUpdater.ts:48-53 | what reading `package.json` gives: nothing for a missing file, the parsed text otherwise; `ProjectNameMeaning` says what name follows |
| `ChangelogStore.CreatedText` | src/utils/readmeUpdater.ts:65-90 | the template for the project's name; `Store.CreateChangelog` writes it and `TemplateAnchor` gives its meaning |
| `ChangelogStore.Store.Locate` | src/utils/readmeUpdater.ts:31-41 | the changelog found; `Store.CheckChangelogExists` computes it and `FirstPresent` gives its meaning |
| `ChangelogStore.FirstPresentFirst` | src/utils/readmeUpdater.ts:34-38 | a written first candidate is the one found |
| `ChangelogStore.Store.CheckChangelogExists` | src/utils/readmeUpdater.ts:31-41 | the loop returns the first of `CHANGELOG.md`, `Changelog.md`, `changelog.md` that exists, or none |
| `ChangelogStore.Store.CreateChangelog` | src/utils/readmeUpdater.ts:64-93 | writes the template for the project's name at `CHANGELOG.md` and returns that path. No other file changes. |
| `ChangelogStore.Store.FindOrCreate` | src/utils/readmeUpdater.ts:100-104 | the changelog found, or a created one when none exists. Only a created file changes the files. |
| `ChangelogStore.Store.UpdateChangelog` | src/utils/readmeUpdater.ts:99-149 | writes the updated text, with the record spliced in and the marker rewritten, to the path found or created, and returns it. No other file changes. |
| `ChangelogStore.TargetPath` | src/utils/readmeUpdater.ts:100-104 | the written path is always one of the three candidates, and `CHANGELOG.md` when none existed |
| `ChangelogStore.BaseContent` | src/utils/readmeUpdater.ts:100-107 | the text read before the record goes in: the found file's, or the created template; `Store.FindOrCreate` gives its meaning |
| `ChangelogStore.CreatedIsLocated` | src/utils/readmeUpdater.ts:65 | a created changelog is the one found from then on |
| `ChangelogStore.RewriteKeepsLocation` | src/utils/readmeUpdater.ts:147 | rewriting the changelog found keeps it the one found |
| `ChangelogStore.UpdatedIsLocated` | src/utils/readmeUpdater.ts:99-149 | after an update, the path written is the changelog found next time |

## Left out

- The `execSync` calls are not modelled: running git is process I/O. Their outputs are string parameters of `DiffParser.GetGitDiff`. The `--name-status` command is run twice in the source, and one parameter stands for both runs.
- The error path of `getGitDiff` (a failing command turned into a thrown error) is left out with the commands themselves.
- `getGitStatus`, `getGitInfo` and `createCommitRecord` are left out: they are thin wrappers over git commands and the clock. The record they build is the `CommitRecord` datatype.
- `src/axios/index.ts`, `bin/git-commit-analyzer.js` and `tsup.config.ts` are not part of this model: they hold the network client, the interactive command line and the build configuration.
- `Date.toLocaleString('zh-CN')` is the parameter `now`. The two calls in `createChangelog` and the one in `updateChangelog` are taken to give the same text.
- `JSON.parse` and the lookup of `name` are the parameter `parse` of the store methods, which gives a `PackageManifest`. A `name` that is not a string but is truthy is not modelled. `JSON.parse` returning `null`, which makes the lookup throw, is modelled as `Unparsable`.
- `path.join` normalisation (`.`, `..`, repeated `/`) is not modelled. `ChangelogStore.PathJoin` covers a plain directory and a plain file name.
- The file system is a map from paths to contents. Directories, case-insensitive file names, permissions and read or write failures are left out.
- `toLowerCase` is modelled on ASCII letters only (`Text.ToLower`). Other letters in an extension keep their case in the model.
- Positions are counted in Unicode scalar values, not UTF-16 code units. For the searches this changes no result, because their indices come from a search over the same text.
- `DiffParser.StatusPath` drops the first two characters, where `substring(2)` drops the first two UTF-16 code units. The results differ when one of the first two characters lies outside the Basic Multilingual Plane: for `A` followed by such a character the source keeps half of its surrogate pair, and the model drops the whole character. A status line git prints starts with a status letter and a tab, so it is not affected.
- `parseInt` loses precision above 2^53. The model parses to an unbounded `nat`.
- `$` patterns other than `$1` and `$2` in the marker replacement cannot occur, since the time text is assumed free of `$`. A time text containing `$` is not modelled.
- Regular expressions are modelled only in the forms the source uses. A general regular-expression engine is out of scope.
- `MessageComposer.DescribeClauses`: proves that a positive count's clause is present. For a zero count it proves only that with no files at all the description is the base text alone. That one zero count leaves its own clause out is not stated as a separate lemma.
- `MessageComposer.SingleFileFix`: proves the scenario for paths shaped `dir/name.ext` with dot-free parts and a slash-free `dir`, not for every path.
- `ChangelogText.InsertionPoint`: its own contract states only the bound. The priority between the anchors is stated by `LatestHeadingFirst`, `HistoryHeadingSecond` and `InsertionWithoutHeadings`.
- `MessageComposer.StatsBlock` and `ChangelogText.RecordMarkdown` are written as newline joins of their lines. This is the same text as the source's concatenation of each line and its newline.
- The caller in `bin/git-commit-analyzer.js` (lines 145-159) passes the tags inside `changes` and builds `files` without `fileTypes`. The template reads `files.fileTypes`, so that call would fail at `join`. The model takes the record as its declared type says, with `files.fileTypes` present.
