/**
 * `analyzeFileChanges`: the file-type tags of the modified files, and the
 * complexity tier with its change-pattern label.
 */
module ChangeClassifier {
  import opened Text
  import opened DiffParser

  datatype Complexity = Low | Medium | High

  /** How a tier is printed in the commit message and the changelog. */
  function ComplexityName(c: Complexity): string
  {
    match c
    case Low => "low"
    case Medium => "medium"
    case High => "high"
  }

  const LargeRefactorLabel := "大规模重构"
  const MediumChangeLabel := "中等规模修改"

  datatype ChangeAnalysis = ChangeAnalysis(fileTypes: seq<string>, changePattern: string, complexity: Complexity)

  /**
   * `file.split('.').pop()?.toLowerCase()`: the lower-cased text after the last
   * dot. A name without a dot gives the whole lower-cased name; only a name
   * ending in a dot gives the empty string.
   */
  function FileExtension(file: string): (ext: string)
    ensures '.' !in ext
    ensures '.' !in file ==> ext == ToLower(file)
  {
    var segment := Last(Split(file, '.'));
    var ext := ToLower(segment);
    assert forall k :: 0 <= k < |ext| ==> ext[k] != '.' by {
      forall k | 0 <= k < |ext| ensures ext[k] != '.' {
        assert segment[k] != '.';
      }
    }
    ext
  }

  /** When the name has a dot, the extension is the lower-cased text after its last dot. */
  lemma FileExtensionAfterLastDot(file: string)
    requires '.' in file
    ensures var seg := Last(Split(file, '.'));
      && |seg| < |file| && file[|file| - |seg| - 1] == '.' && file[|file| - |seg|..] == seg
      && FileExtension(file) == ToLower(seg)
  {
    SplitLast(file, '.');
  }

  /** `Array.from(set)` after adding every non-empty extension to an initially empty `Set`: first occurrences, in order. */
  function DistinctExtensions(files: seq<string>): seq<string>
    decreases |files|
  {
    if files == [] then []
    else
      var types := DistinctExtensions(files[..|files| - 1]);
      var ext := FileExtension(Last(files));
      if ext != "" && ext !in types then types + [ext] else types
  }

  predicate NoDuplicates<T(==)>(s: seq<T>)
  {
    forall a, b :: 0 <= a < b < |s| ==> s[a] != s[b]
  }

  /** No tag occurs twice. */
  lemma {:induction false} DistinctExtensionsUnique(files: seq<string>)
    ensures NoDuplicates(DistinctExtensions(files))
    decreases |files|
  {
    if files != [] {
      var init := files[..|files| - 1];
      DistinctExtensionsUnique(init);
      var types := DistinctExtensions(init);
      var ext := FileExtension(Last(files));
      if ext != "" && ext !in types {
        var all := types + [ext];
        assert DistinctExtensions(files) == all;
        forall a, b | 0 <= a < b < |all| ensures all[a] != all[b] {
          if b == |types| {
            assert all[a] == types[a] && all[b] == ext;
            assert types[a] in types;
          } else {
            assert all[a] == types[a] && all[b] == types[b];
          }
        }
      }
    }
  }

  /** The tags are exactly the non-empty extensions of the files. */
  lemma {:induction false} DistinctExtensionsMembers(files: seq<string>)
    ensures forall x :: x in DistinctExtensions(files) <==>
      x != "" && exists k :: 0 <= k < |files| && FileExtension(files[k]) == x
    decreases |files|
  {
    if files != [] {
      var init := files[..|files| - 1];
      DistinctExtensionsMembers(init);
      forall x ensures x in DistinctExtensions(files) <==>
        x != "" && exists k :: 0 <= k < |files| && FileExtension(files[k]) == x
      {
        if x != "" && exists k :: 0 <= k < |files| && FileExtension(files[k]) == x {
          var k :| 0 <= k < |files| && FileExtension(files[k]) == x;
          if k < |init| {
            assert init[k] == files[k];
          }
        }
        if x in DistinctExtensions(init) {
          var k :| 0 <= k < |init| && FileExtension(init[k]) == x;
          assert files[k] == init[k];
        }
      }
    }
  }

  /** More files only append tags: the tags of every prefix of the list come first, which is first-occurrence order. */
  lemma {:induction false} DistinctExtensionsPrefix(files: seq<string>, n: nat)
    requires n <= |files|
    ensures DistinctExtensions(files[..n]) <= DistinctExtensions(files)
    decreases |files|
  {
    if n < |files| {
      var init := files[..|files| - 1];
      DistinctExtensionsPrefix(init, n);
      assert init[..n] == files[..n];
    } else {
      assert files[..n] == files;
    }
  }

  /**
   * The complexity tier of a change: two strict thresholds each on the changed
   * line count and on the file count, so 500, 10, 100 and 5 themselves fall to
   * the lower tier.
   */
  function Tier(totalChanges: nat, fileCount: nat): (c: Complexity)
    ensures c == High <==> totalChanges > 500 || fileCount > 10
    ensures c == Medium <==> totalChanges <= 500 && fileCount <= 10 && (totalChanges > 100 || fileCount > 5)
    ensures c == Low <==> totalChanges <= 100 && fileCount <= 5
  {
    if totalChanges > 500 || fileCount > 10 then High
    else if totalChanges > 100 || fileCount > 5 then Medium
    else Low
  }

  function Rank(c: Complexity): nat
  {
    match c
    case Low => 0
    case Medium => 1
    case High => 2
  }

  /** A bigger change never gets a lower tier. */
  lemma TierMonotone(t1: nat, n1: nat, t2: nat, n2: nat)
    requires t1 <= t2 && n1 <= n2
    ensures Rank(Tier(t1, n1)) <= Rank(Tier(t2, n2))
  {
  }

  /** The label that goes with each tier. */
  function PatternOf(c: Complexity): string
  {
    match c
    case High => LargeRefactorLabel
    case Medium => MediumChangeLabel
    case Low => ""
  }

  function TotalChanges(info: DiffInfo): nat
  {
    info.addedLines + info.deletedLines
  }

  /** The file count of the source: the name-only list already holds the added and deleted paths, so they count twice. */
  function FileCount(info: DiffInfo): nat
  {
    |info.modifiedFiles| + |info.addedFiles| + |info.deletedFiles|
  }

  /** `analyzeFileChanges` */
  method AnalyzeFileChanges(info: DiffInfo) returns (analysis: ChangeAnalysis)
    ensures analysis.fileTypes == DistinctExtensions(info.modifiedFiles)
    ensures analysis.complexity == Tier(TotalChanges(info), FileCount(info))
    ensures analysis.changePattern == PatternOf(analysis.complexity)
  {
    var files := info.modifiedFiles;
    var fileTypes: seq<string> := [];
    var k := 0;
    while k < |files|
      invariant 0 <= k <= |files|
      invariant fileTypes == DistinctExtensions(files[..k])
    {
      var ext := FileExtension(files[k]);
      if ext != "" && ext !in fileTypes {
        fileTypes := fileTypes + [ext];
      }
      assert files[..k + 1][..k] == files[..k];
      k := k + 1;
    }
    assert files[..k] == files;

    var changePattern := "";
    var complexity := Low;
    var totalChanges := info.addedLines + info.deletedLines;
    var fileCount := |info.modifiedFiles| + |info.addedFiles| + |info.deletedFiles|;
    if totalChanges > 500 || fileCount > 10 {
      complexity := High;
      changePattern := LargeRefactorLabel;
    } else if totalChanges > 100 || fileCount > 5 {
      complexity := Medium;
      changePattern := MediumChangeLabel;
    }
    analysis := ChangeAnalysis(fileTypes, changePattern, complexity);
  }
}
