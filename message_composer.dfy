/**
 * `generateCommitMessage`: the conventional-commit type, scope, description
 * and breaking-change flag of a change, and the suggested message with its
 * statistics block.
 */
module MessageComposer {
  import opened Wrappers
  import opened Text
  import opened DiffParser
  import opened ChangeClassifier

  datatype CommitType = Feat | Fix | Docs | Style | Refactor | Test | Chore

  function TypeName(t: CommitType): string
  {
    match t
    case Feat => "feat"
    case Fix => "fix"
    case Docs => "docs"
    case Style => "style"
    case Refactor => "refactor"
    case Test => "test"
    case Chore => "chore"
  }

  /** The object `generateCommitMessage` returns; `scope` is `undefined` when there is no modified file. */
  datatype CommitSuggestion = CommitSuggestion(
    commitType: CommitType,
    suggestedMessage: string,
    scope: Option<string>,
    description: string,
    body: string,
    breakingChanges: bool)

  /** `files.some((file) => file.includes(t))` */
  predicate AnyContains(files: seq<string>, t: string)
  {
    exists k :: 0 <= k < |files| && Contains(files[k], t)
  }

  const RefactorWord := "重构"
  const AddedLead := ": 新增"
  const ModifiedLead := ": 修改"
  const DeletedLead := ": 删除"
  const FilesWord := "个文件"

  // ---------------------------------------------------------------------
  // type, scope, description, breaking flag

  /**
   * The priority chain: the first rule that applies gives the type and the
   * description text it starts from.
   */
  function SelectType(info: DiffInfo, analysis: ChangeAnalysis): (CommitType, string)
  {
    if |info.addedFiles| > 0 && AnyContains(info.addedFiles, "test") then (Test, "添加测试文件")
    else if "md" in analysis.fileTypes || "txt" in analysis.fileTypes then (Docs, "更新文档")
    else if "css" in analysis.fileTypes || "scss" in analysis.fileTypes then (Style, "调整样式")
    else if Contains(analysis.changePattern, RefactorWord) then (Refactor, "重构代码")
    else if |info.deletedFiles| > 0 then (Chore, "删除文件")
    else if |info.addedFiles| > 0 then (Feat, "新增功能")
    else if |info.modifiedFiles| > 0 then
      if Contains(info.diffContent, "fix") || Contains(info.diffContent, "bug") || Contains(info.diffContent, "error")
      then (Fix, "修复问题")
      else (Feat, "功能更新")
    else (Chore, "")
  }

  /** The first modified path up to its first `/`, or up to its first `.` when it has no `/`. */
  function ScopeOf(modifiedFiles: seq<string>): (scope: Option<string>)
    ensures scope.None? <==> modifiedFiles == []
  {
    if modifiedFiles == [] then None
    else
      var mainFile := modifiedFiles[0];
      if '/' in mainFile then Some(Split(mainFile, '/')[0]) else Some(Split(mainFile, '.')[0])
  }

  /** `description += `<lead>N个文件`` when the count is positive. */
  function WithClause(description: string, lead: string, count: nat): string
  {
    if count > 0 then description + (lead + NatToString(count) + FilesWord) else description
  }

  /** The description: the base text, then the added, modified and deleted clauses, in that order. */
  function Describe(base: string, info: DiffInfo): string
  {
    var d := WithClause(base, AddedLead, |info.addedFiles|);
    var d := WithClause(d, ModifiedLead, |info.modifiedFiles|);
    WithClause(d, DeletedLead, |info.deletedFiles|)
  }

  /** The diff mentions a breaking change, in one of the two spellings looked for. */
  function IsBreaking(diffContent: string): bool
  {
    Contains(diffContent, "BREAKING CHANGE") || Contains(diffContent, "breaking change")
  }

  /** `(scope)` is appended only when the scope is truthy: an empty scope is left out like a missing one. */
  function WithScope(message: string, scope: Option<string>): string
  {
    if scope.Some? && scope.value != "" then message + ("(" + scope.value + ")") else message
  }

  /** `type(scope): description`, with `!` appended for a breaking change. */
  function Subject(t: CommitType, scope: Option<string>, description: string, breaking: bool): string
  {
    var m := WithScope(TypeName(t), scope) + (": " + description);
    if breaking then m + "!" else m
  }

  /** The lines of the statistics block; the block starts with a blank line and ends with a newline. */
  function StatsLines(info: DiffInfo, analysis: ChangeAnalysis): seq<string>
  {
    [ "",
      "",
      "变更统计信息:",
      "- 新增行数: " + NatToString(info.addedLines),
      "- 删除行数: " + NatToString(info.deletedLines),
      "- 修改文件数: " + NatToString(|info.modifiedFiles|),
      "- 新增文件数: " + NatToString(|info.addedFiles|),
      "- 删除文件数: " + NatToString(|info.deletedFiles|),
      "- 变更复杂度: " + ComplexityName(analysis.complexity),
      "- 涉及文件类型: " + JoinWith(analysis.fileTypes, ", "),
      "" ]
  }

  /**
   * `statsInfo`: the source concatenates each of these lines followed by a
   * newline, after the opening newline, which is this join.
   */
  function StatsBlock(info: DiffInfo, analysis: ChangeAnalysis): string
  {
    JoinWith(StatsLines(info, analysis), "\n")
  }

  // ---------------------------------------------------------------------
  // the composer

  /** The if-chain of `generateCommitMessage` that sets `type` and the first part of `description`. */
  method ChooseType(info: DiffInfo, analysis: ChangeAnalysis) returns (commitType: CommitType, description: string)
    ensures (commitType, description) == SelectType(info, analysis)
  {
    commitType, description := Chore, "";
    if |info.addedFiles| > 0 && AnyContains(info.addedFiles, "test") {
      commitType, description := Test, "添加测试文件";
    } else if "md" in analysis.fileTypes || "txt" in analysis.fileTypes {
      commitType, description := Docs, "更新文档";
    } else if "css" in analysis.fileTypes || "scss" in analysis.fileTypes {
      commitType, description := Style, "调整样式";
    } else if Contains(analysis.changePattern, RefactorWord) {
      commitType, description := Refactor, "重构代码";
    } else if |info.deletedFiles| > 0 {
      commitType, description := Chore, "删除文件";
    } else if |info.addedFiles| > 0 {
      commitType, description := Feat, "新增功能";
    } else if |info.modifiedFiles| > 0 {
      var mentionsFix := Contains(info.diffContent, "fix") || Contains(info.diffContent, "bug") || Contains(info.diffContent, "error");
      if mentionsFix {
        commitType, description := Fix, "修复问题";
      } else {
        commitType, description := Feat, "功能更新";
      }
    }
  }

  /** The part of `generateCommitMessage` that sets `scope` from the first modified path. */
  method ChooseScope(modifiedFiles: seq<string>) returns (scope: Option<string>)
    ensures scope == ScopeOf(modifiedFiles)
  {
    scope := None;
    if |modifiedFiles| > 0 {
      var mainFile := modifiedFiles[0];
      if '/' in mainFile {
        scope := Some(Split(mainFile, '/')[0]);
      } else {
        scope := Some(Split(mainFile, '.')[0]);
      }
    }
  }

  /** `generateCommitMessage` */
  method GenerateCommitMessage(info: DiffInfo, analysis: ChangeAnalysis) returns (s: CommitSuggestion)
    ensures (s.commitType, s.description) == (SelectType(info, analysis).0, Describe(SelectType(info, analysis).1, info))
    ensures s.scope == ScopeOf(info.modifiedFiles)
    ensures s.breakingChanges == IsBreaking(info.diffContent)
    ensures s.body == ""
    ensures s.suggestedMessage == Subject(s.commitType, s.scope, s.description, s.breakingChanges) + StatsBlock(info, analysis)
  {
    var commitType, description := ChooseType(info, analysis);
    ghost var base := description;
    var scope: Option<string>;
    var body := "";
    var breakingChanges := false;

    scope := ChooseScope(info.modifiedFiles);

    if |info.addedFiles| > 0 {
      description := description + (AddedLead + NatToString(|info.addedFiles|) + FilesWord);
    }
    if |info.modifiedFiles| > 0 {
      description := description + (ModifiedLead + NatToString(|info.modifiedFiles|) + FilesWord);
    }
    if |info.deletedFiles| > 0 {
      description := description + (DeletedLead + NatToString(|info.deletedFiles|) + FilesWord);
    }
    assert description == Describe(base, info);

    if Contains(info.diffContent, "BREAKING CHANGE") || Contains(info.diffContent, "breaking change") {
      breakingChanges := true;
    }

    var suggestedMessage := TypeName(commitType);
    if scope.Some? && scope.value != "" {
      suggestedMessage := suggestedMessage + ("(" + scope.value + ")");
    }
    suggestedMessage := suggestedMessage + (": " + description);
    if breakingChanges {
      suggestedMessage := suggestedMessage + "!";
    }
    assert suggestedMessage == Subject(commitType, scope, description, breakingChanges);
    var statsInfo := StatsBlock(info, analysis);
    if body != "" {
      suggestedMessage := suggestedMessage + ("\n\n" + body);
    }
    suggestedMessage := suggestedMessage + statsInfo;

    s := CommitSuggestion(commitType, suggestedMessage, scope, description, body, breakingChanges);
  }

  // ---------------------------------------------------------------------
  // properties of the type chain

  /** `test` is chosen exactly when an added path contains "test", whatever else the change holds. */
  lemma TestIff(info: DiffInfo, analysis: ChangeAnalysis)
    ensures SelectType(info, analysis).0 == Test <==> AnyContains(info.addedFiles, "test")
  {
  }

  /** A text that lacks the first character of `t` does not contain `t`. */
  lemma NotContainsFirstChar(s: string, t: string)
    requires |t| > 0 && t[0] !in s
    ensures !Contains(s, t)
  {
  }

  /**
   * For the classifier's own output the refactor rule fires exactly for the
   * high tier, once the test, docs and style rules have not.
   */
  lemma {:induction false} RefactorIffHigh(info: DiffInfo, analysis: ChangeAnalysis)
    requires analysis.changePattern == PatternOf(analysis.complexity)
    requires !AnyContains(info.addedFiles, "test")
    requires "md" !in analysis.fileTypes && "txt" !in analysis.fileTypes
    requires "css" !in analysis.fileTypes && "scss" !in analysis.fileTypes
    ensures SelectType(info, analysis).0 == Refactor <==> analysis.complexity == High
  {
    match analysis.complexity
    case High =>
      assert RefactorWord <= LargeRefactorLabel[3..];
      ContainsWitness(LargeRefactorLabel, RefactorWord, 3);
    case Medium =>
      NotContainsFirstChar(MediumChangeLabel, RefactorWord);
    case Low =>
      NotContainsFirstChar("", RefactorWord);
  }

  /** The diff mentions a fix, a bug or an error. */
  predicate MentionsFix(diffContent: string)
  {
    Contains(diffContent, "fix") || Contains(diffContent, "bug") || Contains(diffContent, "error")
  }

  /** No test file was added and no documentation or style tag is there: the first three rules do not fire. */
  predicate PastStyleRules(info: DiffInfo, analysis: ChangeAnalysis)
  {
    && !AnyContains(info.addedFiles, "test")
    && "md" !in analysis.fileTypes && "txt" !in analysis.fileTypes
    && "css" !in analysis.fileTypes && "scss" !in analysis.fileTypes
  }

  /** `docs` is chosen exactly when no test was added and an `md` or `txt` tag is there. */
  lemma DocsIff(info: DiffInfo, analysis: ChangeAnalysis)
    ensures SelectType(info, analysis).0 == Docs <==>
      !AnyContains(info.addedFiles, "test") && ("md" in analysis.fileTypes || "txt" in analysis.fileTypes)
  {
  }

  /** `style` is chosen exactly when neither earlier rule fires and a `css` or `scss` tag is there. */
  lemma StyleIff(info: DiffInfo, analysis: ChangeAnalysis)
    ensures SelectType(info, analysis).0 == Style <==>
      && !AnyContains(info.addedFiles, "test")
      && "md" !in analysis.fileTypes && "txt" !in analysis.fileTypes
      && ("css" in analysis.fileTypes || "scss" in analysis.fileTypes)
  {
  }

  /** `chore` is chosen exactly when, past the first four rules, files were deleted or nothing changed at all. */
  lemma ChoreIff(info: DiffInfo, analysis: ChangeAnalysis)
    ensures SelectType(info, analysis).0 == Chore <==>
      && PastStyleRules(info, analysis) && !Contains(analysis.changePattern, RefactorWord)
      && (info.deletedFiles != [] || (info.addedFiles == [] && info.modifiedFiles == []))
  {
  }

  /** `feat` is chosen exactly when, past the deletion rule, files were added, or only modified without a mention of a fix. */
  lemma FeatIff(info: DiffInfo, analysis: ChangeAnalysis)
    ensures SelectType(info, analysis).0 == Feat <==>
      && PastStyleRules(info, analysis) && !Contains(analysis.changePattern, RefactorWord)
      && info.deletedFiles == []
      && (info.addedFiles != [] || (info.modifiedFiles != [] && !MentionsFix(info.diffContent)))
  {
  }

  /** `fix` is chosen exactly when, past every earlier rule, files were only modified and the diff mentions a fix. */
  lemma FixIff(info: DiffInfo, analysis: ChangeAnalysis)
    ensures SelectType(info, analysis).0 == Fix <==>
      && PastStyleRules(info, analysis) && !Contains(analysis.changePattern, RefactorWord)
      && info.deletedFiles == [] && info.addedFiles == [] && info.modifiedFiles != []
      && MentionsFix(info.diffContent)
  {
  }

  /** Only an empty change leaves the description without a base text. */
  lemma EmptyBaseOnlyForEmptyChange(info: DiffInfo, analysis: ChangeAnalysis)
    ensures SelectType(info, analysis).1 == "" <==>
      && info.modifiedFiles == [] && info.addedFiles == [] && info.deletedFiles == []
      && "md" !in analysis.fileTypes && "txt" !in analysis.fileTypes
      && "css" !in analysis.fileTypes && "scss" !in analysis.fileTypes
      && !Contains(analysis.changePattern, RefactorWord)
  {
  }

  // ---------------------------------------------------------------------
  // properties of the scope

  /** The scope is a prefix of the first modified path that stops at its first `/`, or at its first `.` when it has no `/`. */
  lemma {:induction false} ScopeMeaning(files: seq<string>)
    requires files != []
    ensures var mainFile, scope := files[0], ScopeOf(files).value;
      && scope <= mainFile
      && ('/' in mainFile ==> '/' !in scope && |scope| < |mainFile| && mainFile[|scope|] == '/')
      && ('/' !in mainFile ==> '.' !in scope && (|scope| == |mainFile| || mainFile[|scope|] == '.'))
  {
    var mainFile := files[0];
    if '/' in mainFile {
      SplitHead(mainFile, '/');
      var h := Split(mainFile, '/')[0];
    } else {
      SplitHead(mainFile, '.');
    }
  }

  // ---------------------------------------------------------------------
  // properties of the message

  /** A clause keeps the description it extends and, for a positive count, ends with the count's clause. */
  lemma WithClauseExtends(description: string, lead: string, count: nat)
    ensures description <= WithClause(description, lead, count)
    ensures count > 0 ==> Contains(WithClause(description, lead, count), lead + NatToString(count) + FilesWord)
  {
    if count > 0 {
      var clause := lead + NatToString(count) + FilesWord;
      assert (description + clause)[|description|..] == clause;
      ContainsWitness(description + clause, clause, |description|);
    }
  }

  /**
   * The description starts with the base text and reports each non-zero file
   * count in its own clause; with no files at all it is the base text alone.
   */
  lemma DescribeClauses(base: string, info: DiffInfo)
    ensures base <= Describe(base, info)
    ensures |info.addedFiles| > 0 ==> Contains(Describe(base, info), AddedLead + NatToString(|info.addedFiles|) + FilesWord)
    ensures |info.modifiedFiles| > 0 ==> Contains(Describe(base, info), ModifiedLead + NatToString(|info.modifiedFiles|) + FilesWord)
    ensures |info.deletedFiles| > 0 ==> Contains(Describe(base, info), DeletedLead + NatToString(|info.deletedFiles|) + FilesWord)
    ensures info.addedFiles == [] && info.modifiedFiles == [] && info.deletedFiles == [] ==> Describe(base, info) == base
  {
    var d1 := WithClause(base, AddedLead, |info.addedFiles|);
    var d2 := WithClause(d1, ModifiedLead, |info.modifiedFiles|);
    var d3 := WithClause(d2, DeletedLead, |info.deletedFiles|);
    WithClauseExtends(base, AddedLead, |info.addedFiles|);
    WithClauseExtends(d1, ModifiedLead, |info.modifiedFiles|);
    WithClauseExtends(d2, DeletedLead, |info.deletedFiles|);
    if |info.addedFiles| > 0 {
      var c := AddedLead + NatToString(|info.addedFiles|) + FilesWord;
      ContainsInPrefix(d1, d2, c);
      ContainsInPrefix(d2, d3, c);
    }
    if |info.modifiedFiles| > 0 {
      ContainsInPrefix(d2, d3, ModifiedLead + NatToString(|info.modifiedFiles|) + FilesWord);
    }
  }

  /** The description stays on one line. */
  lemma DescribeNoNewline(base: string, info: DiffInfo)
    requires '\n' !in base
    ensures '\n' !in Describe(base, info)
  {
    DigitsNoNewline(NatToString(|info.addedFiles|));
    DigitsNoNewline(NatToString(|info.modifiedFiles|));
    DigitsNoNewline(NatToString(|info.deletedFiles|));
  }

  /** The statistics block is a newline, then its remaining lines joined by newlines. */
  lemma StatsBlockStart(info: DiffInfo, analysis: ChangeAnalysis)
    ensures StatsBlock(info, analysis) == "\n" + JoinWith(StatsLines(info, analysis)[1..], "\n")
  {
    var l := StatsLines(info, analysis);
    assert l[0] == "";
  }

  /** Each statistics line is one line, given file-type tags without newlines. */
  lemma StatsLinesNoNewline(info: DiffInfo, analysis: ChangeAnalysis)
    requires forall k :: 0 <= k < |analysis.fileTypes| ==> '\n' !in analysis.fileTypes[k]
    ensures var l := StatsLines(info, analysis);
      forall k :: 0 <= k < |l| ==> '\n' !in l[k]
  {
    DigitsNoNewline(NatToString(info.addedLines));
    DigitsNoNewline(NatToString(info.deletedLines));
    DigitsNoNewline(NatToString(|info.modifiedFiles|));
    DigitsNoNewline(NatToString(|info.addedFiles|));
    DigitsNoNewline(NatToString(|info.deletedFiles|));
    JoinWithFree(analysis.fileTypes, ", ", '\n');
  }

  /**
   * Splitting the suggested message into lines gives the subject line first,
   * then the lines of the statistics block: a blank line, the heading, the
   * seven figures, and the empty text after the final newline.
   */
  lemma {:induction false} MessageLines(t: CommitType, scope: Option<string>, description: string, breaking: bool,
                                        info: DiffInfo, analysis: ChangeAnalysis)
    requires '\n' !in Subject(t, scope, description, breaking)
    requires forall k :: 0 <= k < |analysis.fileTypes| ==> '\n' !in analysis.fileTypes[k]
    ensures Split(Subject(t, scope, description, breaking) + StatsBlock(info, analysis), '\n')
         == [Subject(t, scope, description, breaking)] + StatsLines(info, analysis)[1..]
  {
    var subject := Subject(t, scope, description, breaking);
    var rest := StatsLines(info, analysis)[1..];
    var j := JoinWith(rest, "\n");
    StatsBlockStart(info, analysis);
    assert subject + StatsBlock(info, analysis) == subject + ['\n'] + j;
    SplitCons(subject, '\n', j);
    StatsLinesNoNewline(info, analysis);
    SplitJoin(rest, '\n');
  }

  const AddedLinesLabel := "- 新增行数: "
  const DeletedLinesLabel := "- 删除行数: "

  /** The line counts can be read back from the message: the third and fourth lines after the subject end in them. */
  lemma MessageReportsLineCounts(t: CommitType, scope: Option<string>, description: string, breaking: bool,
                                 info: DiffInfo, analysis: ChangeAnalysis)
    requires '\n' !in Subject(t, scope, description, breaking)
    requires forall k :: 0 <= k < |analysis.fileTypes| ==> '\n' !in analysis.fileTypes[k]
    ensures var lines := Split(Subject(t, scope, description, breaking) + StatsBlock(info, analysis), '\n');
      && |lines| == 11
      && AddedLinesLabel <= lines[3] && AllDigits(lines[3][|AddedLinesLabel|..])
      && ParseDecimal(lines[3][|AddedLinesLabel|..]) == info.addedLines
      && DeletedLinesLabel <= lines[4] && AllDigits(lines[4][|DeletedLinesLabel|..])
      && ParseDecimal(lines[4][|DeletedLinesLabel|..]) == info.deletedLines
  {
    MessageLines(t, scope, description, breaking, info, analysis);
    var subject := Subject(t, scope, description, breaking);
    var lines := Split(subject + StatsBlock(info, analysis), '\n');
    assert lines[3] == AddedLinesLabel + NatToString(info.addedLines);
    assert lines[3][|AddedLinesLabel|..] == NatToString(info.addedLines);
    assert lines[4] == DeletedLinesLabel + NatToString(info.deletedLines);
    assert lines[4][|DeletedLinesLabel|..] == NatToString(info.deletedLines);
    ParseNatToString(info.addedLines);
    ParseNatToString(info.deletedLines);
  }

  /** The subject ends in `!` exactly for a breaking change, given a description that does not end in one. */
  lemma BangIffBreaking(t: CommitType, scope: Option<string>, description: string, breaking: bool)
    requires description == "" || description[|description| - 1] != '!'
    ensures var m := Subject(t, scope, description, breaking);
      |m| > 0 && (m[|m| - 1] == '!' <==> breaking)
  {
    var head := WithScope(TypeName(t), scope);
    var m := head + (": " + description);
    if description == "" {
      assert m[|m| - 1] == ' ';
    } else {
      assert m[|m| - 1] == description[|description| - 1];
    }
  }

  /** No description the composer builds ends in `!`. */
  lemma DescribeNoBang(info: DiffInfo, analysis: ChangeAnalysis)
    ensures var d := Describe(SelectType(info, analysis).1, info);
      d == "" || d[|d| - 1] != '!'
  {
    var base := SelectType(info, analysis).1;
    var d1 := WithClause(base, AddedLead, |info.addedFiles|);
    var d2 := WithClause(d1, ModifiedLead, |info.modifiedFiles|);
    var d3 := WithClause(d2, DeletedLead, |info.deletedFiles|);
    assert d1 == "" || d1[|d1| - 1] != '!';
    assert d2 == "" || d2[|d2| - 1] != '!';
  }

  /** So the suggested subject line ends in `!` exactly when the diff mentions a breaking change. */
  lemma SubjectMarksBreaking(info: DiffInfo, analysis: ChangeAnalysis)
    ensures var m := Subject(SelectType(info, analysis).0, ScopeOf(info.modifiedFiles),
                             Describe(SelectType(info, analysis).1, info), IsBreaking(info.diffContent));
      |m| > 0 && (m[|m| - 1] == '!' <==> IsBreaking(info.diffContent))
  {
    DescribeNoBang(info, analysis);
    BangIffBreaking(SelectType(info, analysis).0, ScopeOf(info.modifiedFiles),
                    Describe(SelectType(info, analysis).1, info), IsBreaking(info.diffContent));
  }

  /** One path `dir/name.ext` has the single tag `ext`, lower-cased, unless `ext` is empty. */
  lemma SingleFileTags(dir: string, name: string, ext: string)
    requires '.' !in dir && '.' !in name && '.' !in ext
    ensures DistinctExtensions([dir + "/" + name + "." + ext]) == if ToLower(ext) == "" then [] else [ToLower(ext)]
  {
    var path := dir + "/" + name + "." + ext;
    assert path == (dir + "/" + name) + ['.'] + ext;
    SplitCons(dir + "/" + name, '.', ext);
    assert FileExtension(path) == ToLower(ext);
    assert [path][..0] == [];
  }

  /** The scope of one path `dir/name.ext` is `dir`. */
  lemma SingleFileScope(dir: string, name: string, ext: string)
    requires '/' !in dir
    ensures ScopeOf([dir + "/" + name + "." + ext]) == Some(dir)
  {
    var path := dir + "/" + name + "." + ext;
    assert path == dir + ['/'] + (name + "." + ext);
    SplitCons(dir, '/', name + "." + ext);
    assert path[|dir|] == '/';
  }

  /**
   * One modified file `dir/name.ext` with a small change whose diff mentions
   * "fix": the classifier gives the low tier and the one tag `ext`, and the
   * composer a `fix` scoped to `dir` (for `src/a.ts`, +10/-2, "fix null check":
   * tag `ts`, `fix(src)`).
   */
  lemma {:induction false} SingleFileFix(dir: string, name: string, ext: string, added: nat, deleted: nat, diff: string)
    requires '/' !in dir
    requires '.' !in dir && '.' !in name && '.' !in ext && ext != ""
    requires ToLower(ext) !in ["md", "txt", "css", "scss"]
    requires added + deleted <= 100
    requires Contains(diff, "fix")
    ensures var info := DiffInfo([dir + "/" + name + "." + ext], added, deleted, [], [], diff);
      var complexity := Tier(TotalChanges(info), FileCount(info));
      var analysis := ChangeAnalysis(DistinctExtensions(info.modifiedFiles), PatternOf(complexity), complexity);
      && analysis == ChangeAnalysis([ToLower(ext)], "", Low)
      && SelectType(info, analysis) == (Fix, "修复问题")
      && ScopeOf(info.modifiedFiles) == Some(dir)
  {
    SingleFileTags(dir, name, ext);
    SingleFileScope(dir, name, ext);
    NotContainsFirstChar("", RefactorWord);
  }
}
