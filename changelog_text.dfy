/**
 * The text side of the changelog: the document `createChangelog` writes, the
 * Markdown of one commit record, where `updateChangelog` splices a record in,
 * and its rewrite of the `*最后更新：…*` marker.
 */
module ChangelogText {
  import opened Wrappers
  import opened Text

  // ---------------------------------------------------------------------
  // the commit record and its Markdown

  /** The `changes` part of a record; the last three fields may be absent. */
  datatype ChangeCounts = ChangeCounts(
    addedLines: nat,
    deletedLines: nat,
    modifiedFiles: nat,
    addedFiles: nat,
    deletedFiles: nat,
    complexity: Option<string>,
    changePattern: Option<string>,
    fridayAnalysis: Option<string>)

  datatype FileLists = FileLists(
    modified: seq<string>,
    added: seq<string>,
    deleted: seq<string>,
    fileTypes: seq<string>)

  datatype CommitRecord = CommitRecord(
    timestamp: string,
    branch: string,
    commitHash: string,
    message: string,
    changes: ChangeCounts,
    files: FileLists)

  /** A template literal prints an absent field as `undefined`. */
  function Shown(field: Option<string>): string
  {
    if field.Some? then field.value else "undefined"
  }

  /** Each path wrapped in backticks: one piece per path, which reads back as the path between two backticks. */
  function Backticked(paths: seq<string>): (r: seq<string>)
    ensures |r| == |paths|
    ensures forall k :: 0 <= k < |paths| ==>
      |r[k]| == |paths[k]| + 2 && r[k][0] == '`' && r[k][|r[k]| - 1] == '`' && r[k][1..|r[k]| - 1] == paths[k]
  {
    seq(|paths|, k requires 0 <= k < |paths| => "`" + paths[k] + "`")
  }

  /** The bullet for one list of paths: the lead and the backticked paths joined by `, `, or nothing for an empty list. */
  function FileBullet(lead: string, paths: seq<string>): string
  {
    if |paths| > 0 then lead + JoinWith(Backticked(paths), ", ") else ""
  }

  const ModifiedLabel := "- **修改**: "
  const AddedLabel := "- **新增**: "
  const DeletedLabel := "- **删除**: "
  const RecordRule := "  -----"

  /** The lines of `generateCommitRecordMarkdown`'s template, without the newlines between them. */
  function RecordLines(r: CommitRecord): seq<string>
  {
    HeaderLines(r) + CountLines(r.changes, r.files.fileTypes) + FileChangeLines(r.files)
  }

  /** The title and the commit's details. */
  function HeaderLines(r: CommitRecord): seq<string>
  {
    [ "###  " + r.message,
      "    **提交信息：**",
      "    - **时间**:" + r.timestamp,
      "    - **分支**:" + r.branch,
      "    - **提交哈希**:" + r.commitHash,
      "    " ]
  }

  /** The change statistics. */
  function CountLines(c: ChangeCounts, fileTypes: seq<string>): seq<string>
  {
    [ "    **变更统计：**",
      "    - **新增行数**:" + NatToString(c.addedLines) + " 行",
      "    - **删除行数**:" + NatToString(c.deletedLines) + " 行",
      "    - **修改文件：** " + NatToString(c.modifiedFiles) + " 个",
      "    - **新增文件：** " + NatToString(c.addedFiles) + " 个",
      "    - **删除文件：** " + NatToString(c.deletedFiles) + " 个",
      "    - **文件类型：** " + JoinWith(fileTypes, ", "),
      "    - **复杂度 ** " + Shown(c.complexity),
      "    - ** 变更样式：** " + Shown(c.changePattern),
      "    - ** Friday分析:** " + Shown(c.fridayAnalysis),
      "   " ]
  }

  /** The bullets of changed paths and the closing rule. */
  function FileChangeLines(f: FileLists): seq<string>
  {
    [ "    **文件变更：**",
      "    " + FileBullet(ModifiedLabel, f.modified),
      "",
      "    " + FileBullet(AddedLabel, f.added),
      "    " + FileBullet(DeletedLabel, f.deleted),
      RecordRule ]
  }

  /** `generateCommitRecordMarkdown`: the template's lines joined by newlines, with no newline at the end. */
  function RecordMarkdown(r: CommitRecord): string
  {
    JoinWith(RecordLines(r), "\n")
  }

  /** The record opens with `###  ` and the message, and closes with the `-----` rule. */
  lemma RecordFrame(r: CommitRecord)
    ensures "###  " + r.message <= RecordMarkdown(r)
    ensures var md := RecordMarkdown(r);
      |RecordRule| <= |md| && md[|md| - |RecordRule|..] == RecordRule
  {
    JoinWithBounds(RecordLines(r), "\n");
  }

  /** The text fields of a record other than its message, which are printed as they are, hold no newline. */
  predicate OneLineDetails(r: CommitRecord)
  {
    && '\n' !in r.timestamp && '\n' !in r.branch && '\n' !in r.commitHash
    && '\n' !in Shown(r.changes.complexity) && '\n' !in Shown(r.changes.changePattern)
    && '\n' !in Shown(r.changes.fridayAnalysis)
    && (forall k :: 0 <= k < |r.files.fileTypes| ==> '\n' !in r.files.fileTypes[k])
    && (forall k :: 0 <= k < |r.files.modified| ==> '\n' !in r.files.modified[k])
    && (forall k :: 0 <= k < |r.files.added| ==> '\n' !in r.files.added[k])
    && (forall k :: 0 <= k < |r.files.deleted| ==> '\n' !in r.files.deleted[k])
  }

  /** A bullet of newline-free paths is one line. */
  lemma BulletOneLine(lead: string, paths: seq<string>)
    requires '\n' !in lead
    requires forall k :: 0 <= k < |paths| ==> '\n' !in paths[k]
    ensures '\n' !in FileBullet(lead, paths)
  {
    var b := Backticked(paths);
    forall k | 0 <= k < |b| ensures '\n' !in b[k] {
      assert b[k] == "`" + paths[k] + "`";
    }
    JoinWithFree(b, ", ", '\n');
  }

  /** Each line of the record template after the title is one line when the fields other than the message are. */
  lemma RecordLinesOneLine(r: CommitRecord)
    requires OneLineDetails(r)
    ensures forall k :: 1 <= k < |RecordLines(r)| ==> '\n' !in RecordLines(r)[k]
  {
    var h, c, f := HeaderLines(r), CountLines(r.changes, r.files.fileTypes), FileChangeLines(r.files);
    HeaderLinesOneLine(r);
    CountLinesOneLine(r.changes, r.files.fileTypes);
    FileChangeLinesOneLine(r.files);
    var all := h + c + f;
    forall k | 1 <= k < |all| ensures '\n' !in all[k] {
      if k < |h| {
        assert all[k] == h[k];
      } else if k < |h| + |c| {
        assert all[k] == c[k - |h|];
      } else {
        assert all[k] == f[k - |h| - |c|];
      }
    }
  }

  lemma HeaderLinesOneLine(r: CommitRecord)
    requires '\n' !in r.timestamp && '\n' !in r.branch && '\n' !in r.commitHash
    ensures forall k :: 1 <= k < |HeaderLines(r)| ==> '\n' !in HeaderLines(r)[k]
  {
  }

  lemma FileChangeLinesOneLine(f: FileLists)
    requires forall k :: 0 <= k < |f.modified| ==> '\n' !in f.modified[k]
    requires forall k :: 0 <= k < |f.added| ==> '\n' !in f.added[k]
    requires forall k :: 0 <= k < |f.deleted| ==> '\n' !in f.deleted[k]
    ensures forall k :: 0 <= k < |FileChangeLines(f)| ==> '\n' !in FileChangeLines(f)[k]
  {
    BulletOneLine(ModifiedLabel, f.modified);
    BulletOneLine(AddedLabel, f.added);
    BulletOneLine(DeletedLabel, f.deleted);
  }

  lemma CountLinesOneLine(c: ChangeCounts, fileTypes: seq<string>)
    requires '\n' !in Shown(c.complexity) && '\n' !in Shown(c.changePattern) && '\n' !in Shown(c.fridayAnalysis)
    requires forall k :: 0 <= k < |fileTypes| ==> '\n' !in fileTypes[k]
    ensures forall k :: 0 <= k < |CountLines(c, fileTypes)| ==> '\n' !in CountLines(c, fileTypes)[k]
  {
    DigitsNoNewline(NatToString(c.addedLines));
    DigitsNoNewline(NatToString(c.deletedLines));
    DigitsNoNewline(NatToString(c.modifiedFiles));
    DigitsNoNewline(NatToString(c.addedFiles));
    DigitsNoNewline(NatToString(c.deletedFiles));
    JoinWithFree(fileTypes, ", ", '\n');
  }

  /**
   * Splitting a record at its newlines gives back the template's lines, with
   * the message's own lines in place of the title's message: the title line
   * holds the message's first line, the message's other lines follow, and then
   * the template's lines after the title, unchanged. Only the fields other than
   * the message need to be one line; a suggested commit message never is.
   */
  lemma RecordReadsBack(r: CommitRecord)
    requires OneLineDetails(r)
    ensures var m := Split(r.message, '\n');
      Split(RecordMarkdown(r), '\n') == ["###  " + m[0]] + m[1..] + RecordLines(r)[1..]
  {
    var lines := RecordLines(r);
    var rest := lines[1..];
    RecordLinesOneLine(r);
    forall k | 0 <= k < |rest| ensures '\n' !in rest[k] {
      assert rest[k] == lines[k + 1];
    }
    assert RecordMarkdown(r) == ("###  " + r.message) + ['\n'] + JoinWith(rest, "\n");
    SplitAppend("###  " + r.message, '\n', JoinWith(rest, "\n"));
    SplitPrepend("###  ", '\n', r.message);
    SplitJoin(rest, '\n');
  }

  /** For a one-line message the record is exactly the template's lines. */
  lemma RecordReadsBackOneLine(r: CommitRecord)
    requires OneLineDetails(r) && '\n' !in r.message
    ensures Split(RecordMarkdown(r), '\n') == RecordLines(r)
  {
    RecordReadsBack(r);
    assert RecordLines(r) == [RecordLines(r)[0]] + RecordLines(r)[1..];
  }

  /** A bullet is there exactly when its list is non-empty. */
  lemma BulletPresence(lead: string, paths: seq<string>)
    requires lead != ""
    ensures FileBullet(lead, paths) == "" <==> paths == []
  {
  }

  /** A bullet names every path of its list in backticks, in the order of the list. */
  lemma {:induction false} BulletListsPaths(lead: string, paths: seq<string>)
    requires |paths| > 0
    ensures FileBullet(lead, paths) == lead + JoinWith(Backticked(paths), ", ")
    ensures forall k :: 0 <= k < |paths| ==> Contains(FileBullet(lead, paths), "`" + paths[k] + "`")
  {
    var joined := JoinWith(Backticked(paths), ", ");
    forall k | 0 <= k < |paths| ensures Contains(FileBullet(lead, paths), "`" + paths[k] + "`") {
      JoinWithContains(Backticked(paths), ", ", k);
      var i :| 0 <= i <= |joined| && Backticked(paths)[k] <= joined[i..];
      assert (lead + joined)[|lead| + i..] == joined[i..];
      ContainsWitness(lead + joined, "`" + paths[k] + "`", |lead| + i);
    }
  }

  // ---------------------------------------------------------------------
  // the document createChangelog writes

  const LatestHeading := "## 📝 最新提交记录"
  const HistoryHeading := "## 📝 提交历史"
  const MarkerPrefix := "*最后更新："

  /** The template up to the latest-records heading (its text is written in short pieces, which the verifier handles far more cheaply than one long literal). */
  function TemplateHead(projectName: string): string
  {
    "# " + projectName
    + " 变更日志\n\n  此文件" + "由git-commit-" + "analyzer自动生成" + "，用于记录项目的变更历史"
    + "。\n  \n  "
  }

  /** The template after the latest-records heading and the blank line and indent that follow it. */
  function TemplateBody(projectName: string, now: string): string
  {
    "<!-- "
    + ("这里将自动插入最新的提交" + "记录 -->\n\n  --" + "-\n\n  ## 📝 项目" + "信息\n\n  - **项目"
       + "名称**: "
       + projectName
       + "\n  - **创建时间*" + "*: "
       + now
       + "\n  - **工具版本*" + "*: Git Commi" + "t Analyzer v" + "1.0.0\n\n  ## "
       + "📈 提交统计\n\n  <!" + "-- 这里将自动插入提交" + "统计信息 -->\n  \n" + "  ---\n\n  "
       + MarkerPrefix + now + "*\n  ")
  }

  /** The content `createChangelog` writes, with both timestamps taken to be `now`. */
  function ChangelogTemplate(projectName: string, now: string): string
  {
    TemplateHead(projectName) + (LatestHeading + ("\n\n  " + TemplateBody(projectName, now)))
  }

  /** `'Unknown Project'`, what a falsy name falls back to. */
  const UnknownProject := "Unknown Project"

  /** What reading `package.json` gives: no file, text `JSON.parse` rejects (or `null`), or an object with an optional string `name`. */
  datatype PackageManifest = Absent | Unparsable | Parsed(name: Option<string>)

  /** `getProjectName` */
  function ProjectName(projectPath: string, manifest: PackageManifest): (name: string)
    ensures name != ""
  {
    if manifest.Parsed? then
      if manifest.name.Some? && manifest.name.value != "" then manifest.name.value else UnknownProject
    else
      var dirName := Last(Split(projectPath, '/'));
      if dirName != "" then dirName else UnknownProject
  }

  /**
   * A parsed manifest decides the name on its own; otherwise the name is the
   * text after the last `/` of the path, when that is not empty.
   */
  lemma ProjectNameMeaning(projectPath: string, manifest: PackageManifest)
    ensures manifest.Parsed? && manifest.name.Some? && manifest.name.value != "" ==>
      ProjectName(projectPath, manifest) == manifest.name.value
    ensures manifest.Parsed? && (manifest.name.None? || manifest.name.value == "") ==>
      ProjectName(projectPath, manifest) == UnknownProject
    ensures !manifest.Parsed? && projectPath != "" && projectPath[|projectPath| - 1] != '/' ==>
      var name := ProjectName(projectPath, manifest);
      && 0 < |name| <= |projectPath| && '/' !in name && projectPath[|projectPath| - |name|..] == name
      && (|name| == |projectPath| || projectPath[|projectPath| - |name| - 1] == '/')
    ensures !manifest.Parsed? && (projectPath == "" || projectPath[|projectPath| - 1] == '/') ==>
      ProjectName(projectPath, manifest) == UnknownProject
  {
    SplitLast(projectPath, '/');
  }

  // ---------------------------------------------------------------------
  // the anchors: `<heading>\s*\n` and `# .+\n`

  /**
   * The end of a match of `<heading>\s*\n` starting at `i`: the greedy `\s*`
   * gives back characters until a newline follows, so the match ends just
   * past the last newline of the white space after the heading.
   */
  function HeadingAnchorAt(s: string, heading: string, i: nat): (r: Option<nat>)
    requires i <= |s|
    ensures r.Some? ==> heading <= s[i..] && i + |heading| < r.value <= |s|
  {
    if heading <= s[i..] then
      var p := i + |heading|;
      match LastIndexOf(s, '\n', p, WhitespaceEnd(s, p))
      case Some(n) => Some(n + 1)
      case None => None
    else None
  }

  /**
   * The anchor matches at `i` exactly when the heading is there and a newline
   * follows within the white space after it; the match ends just past the
   * last such newline.
   */
  lemma HeadingAnchorAtMeaning(s: string, heading: string, i: nat)
    requires i <= |s|
    ensures var r := HeadingAnchorAt(s, heading, i);
      r.Some? <==> (heading <= s[i..] &&
        exists m :: i + |heading| <= m < WhitespaceEnd(s, i + |heading|) && s[m] == '\n')
    ensures var r := HeadingAnchorAt(s, heading, i);
      r.Some? ==>
        && i + |heading| < r.value <= WhitespaceEnd(s, i + |heading|)
        && s[r.value - 1] == '\n'
        && forall m :: r.value <= m < WhitespaceEnd(s, i + |heading|) ==> s[m] != '\n'
  {
  }

  /** The leftmost match of `<heading>\s*\n` at or after `lo`: its start and its end. */
  function FirstHeadingAnchor(s: string, heading: string, lo: nat): (r: Option<(nat, nat)>)
    requires lo <= |s|
    ensures r.Some? ==> lo <= r.value.0 <= |s| && HeadingAnchorAt(s, heading, r.value.0) == Some(r.value.1)
    ensures r.Some? ==> forall i :: lo <= i < r.value.0 ==> HeadingAnchorAt(s, heading, i).None?
    ensures r.None? ==> forall i :: lo <= i <= |s| ==> HeadingAnchorAt(s, heading, i).None?
    decreases |s| - lo
  {
    match HeadingAnchorAt(s, heading, lo)
    case Some(e) => Some((lo, e))
    case None => if lo == |s| then None else FirstHeadingAnchor(s, heading, lo + 1)
  }

  /**
   * The end of a match of `# .+\n` starting at `i`: `.` stops at a line
   * terminator, so the match is the rest of the line, which must not be empty
   * and must be ended by `\n`.
   */
  function TitleAnchorAt(s: string, i: nat): (r: Option<nat>)
    requires i <= |s|
    ensures r.Some? <==> "# " <= s[i..] && i + 2 < LineEnd(s, i + 2) < |s| && s[LineEnd(s, i + 2)] == '\n'
    ensures r.Some? ==> r.value == LineEnd(s, i + 2) + 1
  {
    if "# " <= s[i..] then
      var t := LineEnd(s, i + 2);
      if i + 2 < t < |s| && s[t] == '\n' then Some(t + 1) else None
    else None
  }

  /** The leftmost match of `# .+\n` at or after `lo`: its start and its end. */
  function FirstTitle(s: string, lo: nat): (r: Option<(nat, nat)>)
    requires lo <= |s|
    ensures r.Some? ==> lo <= r.value.0 <= |s| && TitleAnchorAt(s, r.value.0) == Some(r.value.1)
    ensures r.Some? ==> forall i :: lo <= i < r.value.0 ==> TitleAnchorAt(s, i).None?
    ensures r.None? ==> forall i :: lo <= i <= |s| ==> TitleAnchorAt(s, i).None?
    decreases |s| - lo
  {
    match TitleAnchorAt(s, lo)
    case Some(e) => Some((lo, e))
    case None => if lo == |s| then None else FirstTitle(s, lo + 1)
  }

  /** Where the record goes: after the first anchor found, trying the three in priority order; none at all means the start. */
  function InsertionPoint(s: string): (k: nat)
    ensures k <= |s|
  {
    match FirstHeadingAnchor(s, LatestHeading, 0)
    case Some((_, e)) => e
    case None =>
      match FirstHeadingAnchor(s, HistoryHeading, 0)
      case Some((_, e)) => e
      case None =>
        match FirstTitle(s, 0)
        case Some((_, e)) => e
        case None => 0
  }

  /** `slice(0, k) + record + "\n" + slice(k)` */
  function Splice(s: string, k: nat, record: string): string
    requires k <= |s|
  {
    s[..k] + record + "\n" + s[k..]
  }

  /** The record and one newline are inserted at `k`, and the text around them is kept. */
  lemma SpliceKeepsText(s: string, k: nat, record: string)
    requires k <= |s|
    ensures var r := Splice(s, k, record);
      && |r| == |s| + |record| + 1
      && r[..k] == s[..k]
      && r[k..k + |record|] == record
      && r[k + |record|] == '\n'
      && r[k + |record| + 1..] == s[k..]
      && r[..k] + r[k + |record| + 1..] == s
  {
    assert s[..k] + s[k..] == s;
  }

  /** The record spliced in after the first anchor found; with no anchor, `record + "\n" + content`. */
  function InsertRecord(s: string, record: string): (r: string)
    ensures InsertionPoint(s) == 0 ==> r == record + "\n" + s
  {
    var r := Splice(s, InsertionPoint(s), record);
    assert InsertionPoint(s) == 0 ==> s[..0] == [] && s[0..] == s;
    r
  }

  /** A document that never mentions `heading` has no match of its anchor. */
  lemma {:induction false} AbsentHeadingNoAnchor(s: string, heading: string)
    requires !Contains(s, heading)
    ensures FirstHeadingAnchor(s, heading, 0).None?
  {
    if FirstHeadingAnchor(s, heading, 0).Some? {
      var i := FirstHeadingAnchor(s, heading, 0).value.0;
      ContainsWitness(s, heading, i);
    }
  }

  /** Without either heading the record goes after the first `# ` title line, or at the start when there is none. */
  lemma InsertionWithoutHeadings(s: string)
    requires !Contains(s, LatestHeading) && !Contains(s, HistoryHeading)
    ensures FirstTitle(s, 0).Some? ==> InsertionPoint(s) == FirstTitle(s, 0).value.1
    ensures FirstTitle(s, 0).None? ==> InsertionPoint(s) == 0
  {
    AbsentHeadingNoAnchor(s, LatestHeading);
    AbsentHeadingNoAnchor(s, HistoryHeading);
  }

  /** The latest-records heading takes precedence wherever the other anchors are. */
  lemma LatestHeadingFirst(s: string)
    requires FirstHeadingAnchor(s, LatestHeading, 0).Some?
    ensures InsertionPoint(s) == FirstHeadingAnchor(s, LatestHeading, 0).value.1
  {
  }

  /** Without a latest-records anchor, a history anchor decides where the record goes. */
  lemma HistoryHeadingSecond(s: string)
    requires FirstHeadingAnchor(s, LatestHeading, 0).None?
    requires FirstHeadingAnchor(s, HistoryHeading, 0).Some?
    ensures InsertionPoint(s) == FirstHeadingAnchor(s, HistoryHeading, 0).value.1
  {
  }

  /** A heading followed by a blank line and an indented line: the anchor ends after the blank line. */
  lemma HeadingThenBlankLine(x: string, heading: string, y: string)
    requires |y| > 0 && !IsWhitespace(y[0])
    ensures var s := x + (heading + ("\n\n  " + y));
      |x| + |heading| + 2 <= |s| && HeadingAnchorAt(s, heading, |x|) == Some(|x| + |heading| + 2)
  {
    var s := x + (heading + ("\n\n  " + y));
    var i := |x|;
    assert s[i..] == heading + ("\n\n  " + y);
    var p := i + |heading|;
    assert s[p..] == "\n\n  " + y;
    assert s[p] == '\n' && s[p + 1] == '\n' && s[p + 2] == ' ' && s[p + 3] == ' ' && s[p + 4] == y[0];
    assert WhitespaceEnd(s, p + 4) == p + 4;
    assert WhitespaceEnd(s, p) == p + 4;
  }

  /** The template body starts with a visible character, so the white space after the heading ends there. */
  lemma TemplateBodyStart(projectName: string, now: string)
    ensures |TemplateBody(projectName, now)| > 0 && TemplateBody(projectName, now)[0] == '<'
  {
  }

  /** A created document has a match of the latest-records anchor, ending after the blank line that follows the heading. */
  lemma TemplateAnchor(projectName: string, now: string)
    ensures var s, i := ChangelogTemplate(projectName, now), |TemplateHead(projectName)|;
      i + |LatestHeading| + 2 <= |s| && HeadingAnchorAt(s, LatestHeading, i) == Some(i + |LatestHeading| + 2)
  {
    TemplateBodyStart(projectName, now);
    HeadingThenBlankLine(TemplateHead(projectName), LatestHeading, TemplateBody(projectName, now));
  }

  /** So updating a created document always takes the first branch: the record goes right after the latest-records heading. */
  lemma TemplateTakesLatestBranch(projectName: string, now: string)
    ensures var s := ChangelogTemplate(projectName, now);
      FirstHeadingAnchor(s, LatestHeading, 0).Some? && InsertionPoint(s) == FirstHeadingAnchor(s, LatestHeading, 0).value.1
  {
    TemplateAnchor(projectName, now);
  }

  // ---------------------------------------------------------------------
  // the `(\*最后更新：).+(\*)` marker

  /**
   * The end of a match of `(\*最后更新：).+(\*)` starting at `i`: the greedy
   * `.+` runs to the end of the line and gives back characters until a `*`
   * follows, so the match ends at the last `*` of the line that leaves at
   * least one character after the prefix.
   */
  function MarkerAt(s: string, prefix: string, i: nat): (r: Option<nat>)
    requires i <= |s|
    ensures r.Some? ==> prefix <= s[i..] && i + |prefix| + 1 < r.value <= |s|
  {
    if prefix <= s[i..] then
      var q := i + |prefix|;
      var t := LineEnd(s, q);
      if q < t then
        match LastIndexOf(s, '*', q + 1, t)
        case Some(m) => Some(m + 1)
        case None => None
      else None
    else None
  }

  /**
   * A marker match stays on the line of its prefix, leaves at least one
   * character after the prefix and ends at the last `*` of that line; there
   * is none when the prefix is missing or no `*` follows it on its line.
   */
  lemma MarkerAtMeaning(s: string, prefix: string, i: nat)
    requires i <= |s|
    ensures var r := MarkerAt(s, prefix, i);
      r.Some? ==>
        && i + |prefix| + 1 < r.value <= LineEnd(s, i + |prefix|)
        && s[r.value - 1] == '*'
        && forall m :: r.value <= m < LineEnd(s, i + |prefix|) ==> s[m] != '*'
    ensures MarkerAt(s, prefix, i).None? <==> (!(prefix <= s[i..]) ||
      forall m :: i + |prefix| + 1 <= m < LineEnd(s, i + |prefix|) ==> s[m] != '*')
  {
  }

  /** The leftmost marker match at or after `lo`: its start and its end. */
  function FirstMarker(s: string, prefix: string, lo: nat): (r: Option<(nat, nat)>)
    requires lo <= |s|
    ensures r.Some? ==> lo <= r.value.0 <= |s| && MarkerAt(s, prefix, r.value.0) == Some(r.value.1)
    ensures r.Some? ==> forall i :: lo <= i < r.value.0 ==> MarkerAt(s, prefix, i).None?
    ensures r.None? ==> forall i :: lo <= i <= |s| ==> MarkerAt(s, prefix, i).None?
    decreases |s| - lo
  {
    match MarkerAt(s, prefix, lo)
    case Some(e) => Some((lo, e))
    case None => if lo == |s| then None else FirstMarker(s, prefix, lo + 1)
  }

  /** The replacement text `*最后更新：$1<now>$2`: `$1` is the prefix again and `$2` the closing `*`. */
  function MarkerReplacement(now: string): string
  {
    MarkerPrefix + MarkerPrefix + now + "*"
  }

  /** `replace` with a non-global pattern: only the leftmost match is rewritten. */
  function RewriteMarker(s: string, now: string): string
  {
    match FirstMarker(s, MarkerPrefix, 0)
    case Some((i, e)) => s[..i] + MarkerReplacement(now) + s[e..]
    case None => s
  }

  /** The marker prefix lies within one line. */
  lemma MarkerPrefixOneLine()
    ensures forall k :: 0 <= k < |MarkerPrefix| ==> !IsLineTerminator(MarkerPrefix[k])
  {
  }

  /** A document with no marker prefix is left as it is. */
  lemma {:induction false} NoMarkerUnchanged(s: string, now: string)
    requires !Contains(s, MarkerPrefix)
    ensures RewriteMarker(s, now) == s
  {
    if FirstMarker(s, MarkerPrefix, 0).Some? {
      var i := FirstMarker(s, MarkerPrefix, 0).value.0;
      ContainsWitness(s, MarkerPrefix, i);
    }
  }

  /**
   * With a match, the text before the leftmost match and after its end is
   * kept, the match lies within one line, and the doubled prefix and `now`
   * take its place.
   */
  lemma {:induction false} RewriteFirstMarker(s: string, now: string)
    requires FirstMarker(s, MarkerPrefix, 0).Some?
    ensures var (i, e) := FirstMarker(s, MarkerPrefix, 0).value;
      var r := RewriteMarker(s, now);
      && i < e <= |s|
      && (forall m :: i <= m < e ==> !IsLineTerminator(s[m]))
      && (forall j :: 0 <= j < i ==> MarkerAt(s, MarkerPrefix, j).None?)
      && r == s[..i] + MarkerReplacement(now) + s[e..]
      && r[..i] == s[..i]
      && r[i..i + |MarkerReplacement(now)|] == MarkerReplacement(now)
      && r[i + |MarkerReplacement(now)|..] == s[e..]
  {
    var (i, e) := FirstMarker(s, MarkerPrefix, 0).value;
    MarkerAtMeaning(s, MarkerPrefix, i);
    MarkerPrefixOneLine();
    forall m | i <= m < i + |MarkerPrefix| ensures !IsLineTerminator(s[m]) {
      assert s[m] == MarkerPrefix[m - i];
    }
  }

  // ---------------------------------------------------------------------
  // updateChangelog's new text

  /** The text `updateChangelog` writes back: the record spliced in, then the marker rewritten. */
  function UpdatedText(existing: string, record: CommitRecord, now: string): string
  {
    RewriteMarker(InsertRecord(existing, RecordMarkdown(record)), now)
  }
}
