/**
 * The file-system side of `readmeUpdater.ts`: finding the changelog of a
 * project, creating it from the template, and writing an updated copy back.
 * The file system is a map from paths to file contents.
 */
module ChangelogStore {
  import opened Wrappers
  import opened Text
  import opened ChangelogText

  /** `path.join(dir, name)` for a plain file name: no separator after an empty directory or one that already ends in `/`. */
  function PathJoin(dir: string, name: string): (p: string)
    ensures dir == "" ==> p == name
    ensures dir != "" ==> dir <= p && |p| > |name| && p[|p| - |name|..] == name && p[|p| - |name| - 1] == '/'
  {
    if dir == "" then name
    else if dir[|dir| - 1] == '/' then dir + name
    else dir + "/" + name
  }

  /** The names tried, in this order. */
  const ChangelogNames := ["CHANGELOG.md", "Changelog.md", "changelog.md"]

  /** The name a created changelog gets. */
  const NewChangelogName := "CHANGELOG.md"

  const ManifestName := "package.json"

  /** Each name joined onto the directory. */
  function JoinAll(dir: string, names: seq<string>): (r: seq<string>)
    ensures |r| == |names|
    ensures forall k :: 0 <= k < |names| ==> r[k] == PathJoin(dir, names[k])
  {
    if names == [] then [] else [PathJoin(dir, names[0])] + JoinAll(dir, names[1..])
  }

  /** The three paths `checkChangelogExists` tries, in order. */
  function Candidates(projectPath: string): seq<string>
  {
    JoinAll(projectPath, ChangelogNames)
  }

  /** The first candidate path that exists. */
  function FirstPresent(files: map<string, string>, candidates: seq<string>): (r: Option<string>)
    ensures r.Some? ==> r.value in files && r.value in candidates
    ensures r.Some? ==> exists k :: (0 <= k < |candidates| && candidates[k] == r.value &&
      forall j :: 0 <= j < k ==> candidates[j] !in files)
    ensures r.None? <==> forall k :: 0 <= k < |candidates| ==> candidates[k] !in files
  {
    if candidates == [] then None
    else if candidates[0] in files then Some(candidates[0])
    else
      var r := FirstPresent(files, candidates[1..]);
      assert r.Some? ==> exists k :: (0 <= k < |candidates| && candidates[k] == r.value &&
        forall j :: 0 <= j < k ==> candidates[j] !in files) by {
        if r.Some? {
          var k :| 0 <= k < |candidates[1..]| && candidates[1..][k] == r.value &&
            forall j :: 0 <= j < k ==> candidates[1..][j] !in files;
          assert candidates[k + 1] == r.value;
          forall j | 0 <= j < k + 1 ensures candidates[j] !in files {
            if j > 0 {
              assert candidates[j] == candidates[1..][j - 1];
            }
          }
        }
      }
      assert r.None? ==> forall k :: 0 <= k < |candidates| ==> candidates[k] !in files by {
        if r.None? {
          forall k | 0 <= k < |candidates| ensures candidates[k] !in files {
            if k > 0 {
              assert candidates[k] == candidates[1..][k - 1];
            }
          }
        }
      }
      r
  }

  /** A file that exists always wins over those after it, and whether it exists is all that matters. */
  lemma FirstPresentFirst(files: map<string, string>, candidates: seq<string>, content: string)
    requires |candidates| > 0
    ensures FirstPresent(files[candidates[0] := content], candidates) == Some(candidates[0])
  {
  }

  /** What reading `package.json` gives, with `parse` standing for `JSON.parse` and the `name` lookup. */
  function Manifest(files: map<string, string>, projectPath: string, parse: string -> PackageManifest): PackageManifest
  {
    var p := PathJoin(projectPath, ManifestName);
    if p in files then parse(files[p]) else Absent
  }

  /** The template `createChangelog` fills in with the project's name. */
  function CreatedText(files: map<string, string>, projectPath: string, parse: string -> PackageManifest, now: string): string
  {
    ChangelogTemplate(ProjectName(projectPath, Manifest(files, projectPath, parse)), now)
  }

  class Store {
    /** The files of the file system, by path. */
    var files: map<string, string>

    constructor(initial: map<string, string>)
      ensures files == initial
    {
      files := initial;
    }

    /** `checkChangelogExists` as a value: the first of the three names that exists in the project directory. */
    function Locate(projectPath: string): Option<string>
      reads this
    {
      FirstPresent(files, Candidates(projectPath))
    }

    /** `checkChangelogExists` */
    method CheckChangelogExists(projectPath: string) returns (found: Option<string>)
      ensures found == Locate(projectPath)
      ensures found.Some? ==> found.value in files
    {
      var names := ChangelogNames;
      ghost var candidates := Candidates(projectPath);
      var k := 0;
      while k < |names|
        invariant 0 <= k <= |names|
        invariant forall j :: 0 <= j < k ==> candidates[j] !in files
      {
        var filePath := PathJoin(projectPath, names[k]);
        if filePath in files {
          found := Some(filePath);
          assert candidates[k] == filePath;
          return;
        }
        k := k + 1;
      }
      found := None;
    }

    /** `createChangelog`: writes the template for the project's name and returns its path. */
    method CreateChangelog(projectPath: string, parse: string -> PackageManifest, now: string) returns (path: string)
      modifies this
      ensures path == PathJoin(projectPath, NewChangelogName)
      ensures files == old(files)[path := CreatedText(old(files), projectPath, parse, now)]
    {
      path := PathJoin(projectPath, NewChangelogName);
      var content := CreatedText(files, projectPath, parse, now);
      files := files[path := content];
    }

    /** The first step of `updateChangelog`: the changelog found, created from the template when there is none. */
    method FindOrCreate(projectPath: string, parse: string -> PackageManifest, now: string) returns (path: string)
      modifies this
      ensures path == TargetPath(old(files), projectPath)
      ensures files == old(files)[path := BaseContent(old(files), projectPath, parse, now)]
    {
      var found := CheckChangelogExists(projectPath);
      if found.None? {
        path := CreateChangelog(projectPath, parse, now);
      } else {
        path := found.value;
        UpdateSame(files, path);
      }
    }

    /**
     * `updateChangelog`: the changelog found, or a created one, gets the
     * record spliced in and its marker rewritten; no other file changes.
     */
    method UpdateChangelog(record: CommitRecord, projectPath: string, parse: string -> PackageManifest, now: string)
      returns (path: string)
      modifies this
      ensures path == TargetPath(old(files), projectPath)
      ensures files == old(files)[path := UpdatedText(BaseContent(old(files), projectPath, parse, now), record, now)]
    {
      path := FindOrCreate(projectPath, parse, now);
      var existingContent := files[path];
      var newRecord := RecordMarkdown(record);
      var updateContent := InsertRecord(existingContent, newRecord);
      updateContent := RewriteMarker(updateContent, now);
      UpdateTwice(old(files), path, existingContent, updateContent);
      files := files[path := updateContent];
    }
  }

  /** Writing back what a path holds changes nothing. */
  lemma UpdateSame<K, V>(m: map<K, V>, k: K)
    requires k in m
    ensures m[k := m[k]] == m
  {
  }

  /** A second write to a path replaces the first. */
  lemma UpdateTwice<K, V>(m: map<K, V>, k: K, a: V, b: V)
    ensures m[k := a][k := b] == m[k := b]
  {
  }

  /** The path `updateChangelog` writes: the changelog found, or else the one it creates, which is the first candidate. */
  function TargetPath(files: map<string, string>, projectPath: string): (path: string)
    ensures path in Candidates(projectPath)
    ensures FirstPresent(files, Candidates(projectPath)).None? ==> path == Candidates(projectPath)[0]
  {
    match FirstPresent(files, Candidates(projectPath))
    case Some(p) => p
    case None => PathJoin(projectPath, NewChangelogName)
  }

  /** The text the changelog holds before the record goes in: what is there, or the template for a new one. */
  function BaseContent(files: map<string, string>, projectPath: string, parse: string -> PackageManifest, now: string): string
  {
    match FirstPresent(files, Candidates(projectPath))
    case Some(p) => files[p]
    case None => CreatedText(files, projectPath, parse, now)
  }

  /** The path a created changelog gets is the first candidate, so it is the one found from then on. */
  lemma CreatedIsLocated(files: map<string, string>, projectPath: string, content: string)
    ensures var path := PathJoin(projectPath, NewChangelogName);
      FirstPresent(files[path := content], Candidates(projectPath)) == Some(path)
  {
    var c := Candidates(projectPath);
    assert c[0] == PathJoin(projectPath, NewChangelogName);
    FirstPresentFirst(files, c, content);
  }

  /** Writing the changelog that was found keeps it the one found. */
  lemma {:induction false} RewriteKeepsLocation(files: map<string, string>, candidates: seq<string>, content: string)
    requires FirstPresent(files, candidates).Some?
    ensures var path := FirstPresent(files, candidates).value;
      FirstPresent(files[path := content], candidates) == Some(path)
  {
    var path := FirstPresent(files, candidates).value;
    if candidates[0] !in files {
      assert candidates[0] != path;
      RewriteKeepsLocation(files, candidates[1..], content);
    }
  }

  /** After an update the path written is the changelog found next time, whether it was found or created. */
  lemma UpdatedIsLocated(files: map<string, string>, projectPath: string, content: string)
    ensures var path := TargetPath(files, projectPath);
      FirstPresent(files[path := content], Candidates(projectPath)) == Some(path)
  {
    if FirstPresent(files, Candidates(projectPath)).Some? {
      RewriteKeepsLocation(files, Candidates(projectPath), content);
    } else {
      CreatedIsLocated(files, projectPath, content);
    }
  }
}
