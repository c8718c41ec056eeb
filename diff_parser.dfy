/**
 * The parsing half of `getGitDiff`: the text printed by `git diff --cached`,
 * by `git diff --cached --stat`, by `--name-only` and by `--name-status`
 * comes in as four strings, and a `DiffInfo` comes out.
 */
module DiffParser {
  import opened Wrappers
  import opened Text

  /** What one run of the analyzer knows about the staged changes. */
  datatype DiffInfo = DiffInfo(
    modifiedFiles: seq<string>,
    addedLines: nat,
    deletedLines: nat,
    addedFiles: seq<string>,
    deletedFiles: seq<string>,
    diffContent: string)

  // ---------------------------------------------------------------------
  // the --stat summary line and its pattern `(\d+) insertion?.*?(\d+) deletion?`

  /** In `insertion?` the `?` applies to the final `n` only, so the literal the pattern needs is this one. */
  const InsertionWord := " insertio"
  const DeletionWord := " deletio"

  /** The last line of the trimmed `--stat` output. */
  function LastStatLine(statOutput: string): (line: string)
    ensures '\n' !in line
  {
    Last(Split(Trim(statOutput), '\n'))
  }

  /** A run of digits, as a slice. */
  lemma DigitsBetween(line: string, i: nat, e: nat)
    requires i <= e <= |line|
    requires forall m :: i <= m < e ==> IsDigit(line[m])
    ensures AllDigits(line[i..e])
  {
    assert forall k :: 0 <= k < e - i ==> line[i..e][k] == line[i + k];
  }

  /**
   * The second group tried at position `j`: the greedy `(\d+)` takes the whole
   * digit run starting there, and ` deletio` must follow it.
   */
  function DeletionCountAt(line: string, j: nat): Option<nat>
  {
    if j < |line| && IsDigit(line[j]) then
      var f := DigitsEnd(line, j);
      DigitsBetween(line, j, f);
      if DeletionWord <= line[f..] then Some(ParseDecimal(line[j..f])) else None
    else None
  }

  /** The search of the lazy `.*?`: the first position in `[lo, hi)` where the second group succeeds, with its count. */
  function FirstDeletionCount(line: string, lo: nat, hi: nat): (r: Option<(nat, nat)>)
    ensures r.Some? ==> lo <= r.value.0 < hi && DeletionCountAt(line, r.value.0) == Some(r.value.1)
    ensures r.Some? ==> forall j :: lo <= j < r.value.0 ==> DeletionCountAt(line, j).None?
    ensures r.None? ==> forall j :: lo <= j < hi ==> DeletionCountAt(line, j).None?
    decreases hi - lo
  {
    if lo >= hi then None
    else match DeletionCountAt(line, lo)
      case Some(d) => Some((lo, d))
      case None => FirstDeletionCount(line, lo + 1, hi)
  }

  /**
   * The whole pattern tried at position `i`. The lazy `.*?` makes the second
   * group start at the first position, on the same line, where it succeeds.
   * (Whether `n?` takes the `n` does not matter: `.*?` can take it as well, and
   * an `n` is not a digit.)
   */
  function CountsAt(line: string, i: nat): Option<(nat, nat)>
  {
    if i < |line| && IsDigit(line[i]) then
      var e := DigitsEnd(line, i);
      DigitsBetween(line, i, e);
      if InsertionWord <= line[e..] then
        var p := e + |InsertionWord|;
        match FirstDeletionCount(line, p, LineEnd(line, p))
        case Some((_, d)) => Some((ParseDecimal(line[i..e]), d))
        case None => None
      else None
    else None
  }

  /** The search for the leftmost match: the first position in `[lo, |line|)` where the pattern matches. */
  function FirstCounts(line: string, lo: nat): (r: Option<(nat, (nat, nat))>)
    ensures r.Some? ==> lo <= r.value.0 < |line| && CountsAt(line, r.value.0) == Some(r.value.1)
    ensures r.Some? ==> forall i :: lo <= i < r.value.0 ==> CountsAt(line, i).None?
    ensures r.None? ==> forall i :: lo <= i < |line| ==> CountsAt(line, i).None?
    decreases |line| - lo
  {
    if lo >= |line| then None
    else match CountsAt(line, lo)
      case Some(c) => Some((lo, c))
      case None => FirstCounts(line, lo + 1)
  }

  /** `line.match(...)`: the leftmost match, as the two parsed counts. */
  function StatCounts(line: string): Option<(nat, nat)>
  {
    match FirstCounts(line, 0)
    case Some((_, c)) => Some(c)
    case None => None
  }

  /** The pattern matches `line` with its first group at `[i, e)` and its second group at `[j, f)`. */
  ghost predicate CountsMatch(line: string, i: nat, e: nat, j: nat, f: nat)
  {
    && i < e && e + |InsertionWord| <= j < f <= |line|
    && (forall m :: i <= m < e ==> IsDigit(line[m])) && AllDigits(line[i..e])
    && InsertionWord <= line[e..]
    && (forall m :: e + |InsertionWord| <= m < j ==> !IsLineTerminator(line[m]))
    && (forall m :: j <= m < f ==> IsDigit(line[m])) && AllDigits(line[j..f])
    && DeletionWord <= line[f..]
  }

  /** A match at `i` is found when the search gets to `i`. */
  lemma CountsAtComplete(line: string, i: nat, e: nat, j: nat, f: nat)
    requires CountsMatch(line, i, e, j, f)
    ensures CountsAt(line, i).Some?
    ensures CountsAt(line, i).value.0 == ParseDecimal(line[i..e])
    ensures DigitsEnd(line, i) == e
    ensures var p := e + |InsertionWord|;
      var r := FirstDeletionCount(line, p, LineEnd(line, p));
      r.Some? && r.value.0 <= j
  {
    assert line[e] == ' ';
    DigitsEndUnique(line, i, e);
    assert line[f] == ' ';
    DigitsEndUnique(line, j, f);
    var p := e + |InsertionWord|;
    var t := LineEnd(line, p);
    assert !IsLineTerminator(line[j]);
    assert DeletionCountAt(line, j).Some?;
  }

  /** What `CountsAt` finds is a match whose second group starts where the lazy search stops. */
  lemma CountsAtSound(line: string, i: nat) returns (e: nat, j: nat, f: nat)
    requires CountsAt(line, i).Some?
    ensures CountsMatch(line, i, e, j, f)
    ensures CountsAt(line, i).value == (ParseDecimal(line[i..e]), ParseDecimal(line[j..f]))
    ensures e == DigitsEnd(line, i)
    ensures var p := e + |InsertionWord|;
      var r := FirstDeletionCount(line, p, LineEnd(line, p));
      r.Some? && r.value.0 == j
  {
    e := DigitsEnd(line, i);
    assert InsertionWord <= line[e..];
    var p := e + |InsertionWord|;
    var t := LineEnd(line, p);
    var inner := FirstDeletionCount(line, p, t);
    assert inner.Some?;
    j := inner.value.0;
    assert p <= j < t;
    assert forall m :: p <= m < j ==> !IsLineTerminator(line[m]);
    assert DeletionCountAt(line, j) == Some(inner.value.1);
    f := DigitsEnd(line, j);
    assert DeletionWord <= line[f..];
    DigitsBetween(line, i, e);
    DigitsBetween(line, j, f);
    assert inner.value.1 == ParseDecimal(line[j..f]);
    assert CountsAt(line, i) == Some((ParseDecimal(line[i..e]), inner.value.1));
  }

  /**
   * When the counts are found they come from the leftmost match, and of the
   * matches starting there, from the one whose second group starts first.
   */
  lemma StatCountsFound(line: string) returns (i: nat, e: nat, j: nat, f: nat)
    requires StatCounts(line).Some?
    ensures CountsMatch(line, i, e, j, f)
    ensures StatCounts(line).value == (ParseDecimal(line[i..e]), ParseDecimal(line[j..f]))
    ensures forall i': nat, e': nat, j': nat, f': nat :: CountsMatch(line, i', e', j', f') ==> i <= i' && (i' == i ==> j <= j')
  {
    i := FirstCounts(line, 0).value.0;
    e, j, f := CountsAtSound(line, i);
    forall i': nat, e': nat, j': nat, f': nat | CountsMatch(line, i', e', j', f')
      ensures i <= i' && (i' == i ==> j <= j')
    {
      CountsAtComplete(line, i', e', j', f');
    }
  }

  /** The counts are found exactly when the pattern matches somewhere in the line. */
  lemma StatCountsMeaning(line: string)
    ensures StatCounts(line).Some? <==> exists i: nat, e: nat, j: nat, f: nat :: CountsMatch(line, i, e, j, f)
  {
    if StatCounts(line).Some? {
      var i, e, j, f := StatCountsFound(line);
    } else {
      forall i: nat, e: nat, j: nat, f: nat | CountsMatch(line, i, e, j, f) ensures false {
        CountsAtComplete(line, i, e, j, f);
      }
    }
  }

  /** A last line that never says ` deletio` (git prints only the insertions when nothing was deleted) yields no counts. */
  lemma NoDeletionWordNoCounts(line: string)
    requires !Contains(line, DeletionWord)
    ensures StatCounts(line) == None
  {
    if StatCounts(line).Some? {
      var i, e, j, f := StatCountsFound(line);
      ContainsWitness(line, DeletionWord, f);
    }
  }

  // ---------------------------------------------------------------------
  // the --name-only and --name-status listings

  /** `.filter((file) => file.length > 0)` */
  function NonEmptyLines(lines: seq<string>): (r: seq<string>)
    ensures forall k :: 0 <= k < |r| ==> |r[k]| > 0
    ensures forall x :: x in r <==> x in lines && |x| > 0
  {
    if lines == [] then []
    else (if |lines[0]| > 0 then [lines[0]] else []) + NonEmptyLines(lines[1..])
  }

  /** The modified files: the non-empty lines of the trimmed `--name-only` output, in order. */
  function NameOnlyFiles(nameOnlyOutput: string): (files: seq<string>)
    ensures forall k :: 0 <= k < |files| ==> |files[k]| > 0 && '\n' !in files[k]
  {
    var lines := Split(Trim(nameOnlyOutput), '\n');
    var files := NonEmptyLines(lines);
    assert forall k :: 0 <= k < |files| ==> files[k] in lines;
    files
  }

  /** `line.substring(2)`: a line shorter than two characters gives the empty path. */
  function StatusPath(line: string): string
  {
    if |line| >= 2 then line[2..] else ""
  }

  /** `.filter((line) => line.startsWith(code)).map((line) => line.substring(2))` */
  function StatusFiles(lines: seq<string>, code: char): seq<string>
  {
    if lines == [] then []
    else
      (if |lines[0]| > 0 && lines[0][0] == code then [StatusPath(lines[0])] else [])
      + StatusFiles(lines[1..], code)
  }

  /** The paths of the trimmed `--name-status` output whose status starts with `code`, in order. */
  function NameStatusFiles(nameStatusOutput: string, code: char): seq<string>
  {
    StatusFiles(Split(Trim(nameStatusOutput), '\n'), code)
  }

  /**
   * `getGitDiff` once the four commands have run. The counts stay 0 unless the
   * last `--stat` line mentions `insertion` or `deletion` and the pattern matches it.
   */
  method GetGitDiff(diffOutput: string, statOutput: string, nameOnlyOutput: string, nameStatusOutput: string)
    returns (info: DiffInfo)
    ensures info.diffContent == diffOutput
    ensures info.modifiedFiles == NameOnlyFiles(nameOnlyOutput)
    ensures info.addedFiles == NameStatusFiles(nameStatusOutput, 'A')
    ensures info.deletedFiles == NameStatusFiles(nameStatusOutput, 'D')
    ensures var line := LastStatLine(statOutput);
      if (Contains(line, "insertion") || Contains(line, "deletion")) && StatCounts(line).Some?
      then (info.addedLines, info.deletedLines) == StatCounts(line).value
      else info.addedLines == 0 && info.deletedLines == 0
  {
    var lastLine := LastStatLine(statOutput);
    var addedLines, deletedLines := 0, 0;
    if Contains(lastLine, "insertion") || Contains(lastLine, "deletion") {
      var counts := StatCounts(lastLine);
      if counts.Some? {
        addedLines, deletedLines := counts.value.0, counts.value.1;
      }
    }
    var modifiedFiles := NameOnlyFiles(nameOnlyOutput);
    var addedFiles := NameStatusFiles(nameStatusOutput, 'A');
    var deletedFiles := NameStatusFiles(nameStatusOutput, 'D');
    info := DiffInfo(modifiedFiles, addedLines, deletedLines, addedFiles, deletedFiles, diffOutput);
  }

  // ---------------------------------------------------------------------
  // the listings git prints, and reading them back

  /** A listing as git prints it: one line per entry, each ended by a newline. */
  function Listing(lines: seq<string>): string
  {
    if lines == [] then "" else JoinWith(lines, "\n") + "\n"
  }

  /** A join of non-empty pieces starts with the first character of the first piece and ends with the last character of the last. */
  lemma {:induction false} JoinEnds(parts: seq<string>, sep: string)
    requires |parts| >= 1 && forall k :: 0 <= k < |parts| ==> |parts[k]| > 0
    ensures var s := JoinWith(parts, sep);
      |s| > 0 && s[0] == parts[0][0] && s[|s| - 1] == Last(Last(parts))
    decreases |parts|
  {
    if |parts| > 1 {
      JoinEnds(parts[1..], sep);
    }
  }

  /** The filter keeps a list without empty lines as it is. */
  /** The filter works line by line: a line is kept if and only if it is non-empty. */
  lemma NonEmptyLinesSingle(line: string)
    ensures NonEmptyLines([line]) == if |line| > 0 then [line] else []
  {
  }

  /** Filtering two lists one after the other is filtering their concatenation, so the kept lines keep their order. */
  lemma {:induction false} NonEmptyLinesAppend(a: seq<string>, b: seq<string>)
    ensures NonEmptyLines(a + b) == NonEmptyLines(a) + NonEmptyLines(b)
    decreases |a|
  {
    if a == [] {
      assert a + b == b;
    } else {
      assert (a + b)[1..] == a[1..] + b;
      NonEmptyLinesAppend(a[1..], b);
    }
  }

  lemma {:induction false} NonEmptyLinesKeepsAll(lines: seq<string>)
    requires forall k :: 0 <= k < |lines| ==> |lines[k]| > 0
    ensures NonEmptyLines(lines) == lines
    decreases |lines|
  {
    if lines != [] {
      NonEmptyLinesKeepsAll(lines[1..]);
      assert [lines[0]] + lines[1..] == lines;
    }
  }

  /** Reading back the `--name-only` listing of some paths gives those paths. */
  lemma NameOnlyRoundTrip(paths: seq<string>)
    requires forall k :: 0 <= k < |paths| ==> |paths[k]| > 0 && '\n' !in paths[k]
    requires |paths| > 0 ==> !IsWhitespace(paths[0][0]) && !IsWhitespace(Last(Last(paths)))
    ensures NameOnlyFiles(Listing(paths)) == paths
  {
    if paths == [] {
      assert Trim("") == "";
    } else {
      var x := JoinWith(paths, "\n");
      JoinEnds(paths, "\n");
      TrimNewlineTerminated(x);
      SplitJoin(paths, '\n');
      NonEmptyLinesKeepsAll(paths);
    }
  }

  /** One entry of a `--name-status` listing. */
  datatype StatusEntry = StatusEntry(code: char, path: string)

  /** How git prints an entry: the status letter, a tab, the path. */
  function StatusLine(entry: StatusEntry): string
  {
    [entry.code] + "\t" + entry.path
  }

  function StatusLines(entries: seq<StatusEntry>): (lines: seq<string>)
    ensures |lines| == |entries|
    ensures forall k :: 0 <= k < |entries| ==> lines[k] == StatusLine(entries[k])
  {
    seq(|entries|, k requires 0 <= k < |entries| => StatusLine(entries[k]))
  }

  /** The paths of the entries with status `code`, in order. */
  function PathsWithStatus(entries: seq<StatusEntry>, code: char): seq<string>
  {
    if entries == [] then []
    else (if entries[0].code == code then [entries[0].path] else []) + PathsWithStatus(entries[1..], code)
  }

  /** Filtering printed entries by their first character and cutting off two characters recovers the paths. */
  lemma {:induction false} StatusFilesOfLines(entries: seq<StatusEntry>, code: char)
    ensures StatusFiles(StatusLines(entries), code) == PathsWithStatus(entries, code)
    decreases |entries|
  {
    if entries != [] {
      StatusFilesOfLines(entries[1..], code);
      assert StatusLines(entries)[1..] == StatusLines(entries[1..]);
      assert StatusPath(StatusLine(entries[0])) == entries[0].path;
    }
  }

  /** Reading back a `--name-status` listing gives the paths with the requested status, in order. */
  lemma NameStatusRoundTrip(entries: seq<StatusEntry>, code: char)
    requires forall k :: 0 <= k < |entries| ==> !IsWhitespace(entries[k].code) && '\n' !in entries[k].path
    requires |entries| > 0 ==> |Last(entries).path| > 0 && !IsWhitespace(Last(Last(entries).path))
    ensures NameStatusFiles(Listing(StatusLines(entries)), code) == PathsWithStatus(entries, code)
  {
    var lines := StatusLines(entries);
    if entries == [] {
      assert lines == [] && Listing(lines) == "";
      assert Trim("") == "";
      assert StatusFiles([""], code) == [];
    } else {
      forall k | 0 <= k < |lines| ensures '\n' !in lines[k] && |lines[k]| > 0 {
        assert lines[k] == [entries[k].code] + "\t" + entries[k].path;
      }
      var l := Last(lines);
      assert l == [Last(entries).code] + "\t" + Last(entries).path;
      assert Last(l) == Last(Last(entries).path);
      assert lines[0][0] == entries[0].code;
      var x := JoinWith(lines, "\n");
      JoinEnds(lines, "\n");
      TrimNewlineTerminated(x);
      assert Listing(lines) == x + "\n";
      SplitJoin(lines, '\n');
      assert Split(Trim(Listing(lines)), '\n') == lines;
    }
    StatusFilesOfLines(entries, code);
  }
}
