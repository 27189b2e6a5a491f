/** The path and content helpers of src/vsCodeUtilities.ts, over an abstract
    file system. Paths are `fsPath` strings with `/` as separator. */
module VsCodeUtilities {

  /** `vscode.FileType`, with `Unknown` and `SymbolicLink` folded into `Other`. */
  datatype FileType = File | Directory | Other

  /** The workspace file system as `stat`, `readFile` and `readDirectory` see
      it. A path missing from a map makes that call throw. `contents` holds
      the text `TextDecoder` yields for the file's bytes. */
  datatype FileSystem = FileSystem(
    stat: map<string, FileType>,
    contents: map<string, string>,
    listings: map<string, seq<(string, FileType)>>)

  /** One `{relativePath, source}` entry. */
  datatype FileContent = FileContent(relativePath: string, source: string)

  /** How the promise `getFileOrDirectoryContent` returns settles. */
  datatype Settled = Resolved(entries: seq<FileContent>) | Rejected

  /** `Uri.joinPath` on plain segments: an empty segment adds nothing. */
  function JoinPath(base: string, segment: string): (r: string)
    ensures segment == "" ==> r == base
    ensures base == "" ==> r == segment
    ensures base != "" && segment != "" ==> r == base + "/" + segment
  {
    if segment == "" then base
    else if base == "" then segment
    else base + "/" + segment
  }

  /** Joining is associative, so a child of `rel` inside the workspace is the
      workspace joined with `rel` joined with the child's name. */
  lemma JoinPathAssociative(a: string, b: string, c: string)
    ensures JoinPath(JoinPath(a, b), c) == JoinPath(a, JoinPath(b, c))
  {
    if a != "" && b != "" && c != "" {
      assert (a + "/" + b) + "/" + c == a + "/" + (b + "/" + c);
    }
  }

  /** A workspace folder's `fsPath`: not empty, no trailing separator. */
  predicate IsWorkspacePath(workspacePath: string)
  {
    workspacePath != "" && workspacePath[|workspacePath| - 1] != '/'
  }

  /** `filePath` is the workspace itself or lies strictly below it. */
  predicate Inside(workspacePath: string, filePath: string)
  {
    filePath == workspacePath ||
    (|filePath| > |workspacePath| + 1 && workspacePath + "/" <= filePath)
  }

  /** `getRelativePath` as written: a plain `startsWith` test, then `slice`
      past the prefix and one more character (`slice` beyond the end gives
      the empty string). */
  function GetRelativePathAsWritten(workspacePath: string, filePath: string): (r: string)
    ensures workspacePath <= filePath && |workspacePath| < |filePath| ==> r == filePath[|workspacePath| + 1..]
    ensures workspacePath <= filePath && |workspacePath| == |filePath| ==> r == ""
    ensures !(workspacePath <= filePath) ==> r == filePath
  {
    if workspacePath <= filePath then
      (if |workspacePath| + 1 <= |filePath| then filePath[|workspacePath| + 1..] else "")
    else filePath
  }

  /** The as-written test accepts a sibling folder whose name extends the
      workspace's: the path is cut one character into the sibling's name. */
  lemma SiblingFolderIsCut()
    ensures !Inside("/ws", "/wsx/a.js")
    ensures GetRelativePathAsWritten("/ws", "/wsx/a.js") == "/a.js"
    ensures GetRelativePath("/ws", "/wsx/a.js") == "/wsx/a.js"
  {
    assert "/ws" <= "/wsx/a.js";
    assert "/wsx/a.js"[4..] == "/a.js";
    assert !("/ws" + "/" <= "/wsx/a.js") by {
      assert ("/ws" + "/")[3] == '/' && "/wsx/a.js"[3] == 'x';
    }
  }

  /** `getRelativePath` with the separator checked: a path inside the
      workspace loses the workspace prefix and its separator, any other path
      is returned unchanged. */
  function GetRelativePath(workspacePath: string, filePath: string): (r: string)
    ensures filePath == workspacePath ==> r == ""
    ensures Inside(workspacePath, filePath) && filePath != workspacePath ==>
      r != "" && workspacePath + "/" + r == filePath
    ensures !Inside(workspacePath, filePath) ==> r == filePath
  {
    if filePath == workspacePath then ""
    else if |filePath| > |workspacePath| + 1 && workspacePath + "/" <= filePath then filePath[|workspacePath| + 1..]
    else filePath
  }

  /** On every path inside the workspace the corrected helper agrees with the
      code as written, so only paths outside the workspace are affected. */
  lemma CorrectionAgreesInside(workspacePath: string, filePath: string)
    requires Inside(workspacePath, filePath)
    ensures GetRelativePath(workspacePath, filePath) == GetRelativePathAsWritten(workspacePath, filePath)
  {
    if filePath != workspacePath {
      assert workspacePath <= workspacePath + "/";
    }
  }

  /** Relativising a path joined onto the workspace gives the joined segment back. */
  lemma RelativeOfJoined(workspacePath: string, rel: string)
    requires IsWorkspacePath(workspacePath)
    ensures Inside(workspacePath, JoinPath(workspacePath, rel))
    ensures GetRelativePath(workspacePath, JoinPath(workspacePath, rel)) == rel
  {
    if rel != "" {
      var joined := workspacePath + "/" + rel;
      assert (workspacePath + "/") + rel == joined;
      assert joined[|workspacePath| + 1..] == rel;
    }
  }

  /** Joining the relative path of a path inside the workspace onto the
      workspace gives the path back. */
  lemma JoinedOfRelative(workspacePath: string, filePath: string)
    requires IsWorkspacePath(workspacePath) && Inside(workspacePath, filePath)
    ensures JoinPath(workspacePath, GetRelativePath(workspacePath, filePath)) == filePath
  {
    if filePath != workspacePath {
      var rel := filePath[|workspacePath| + 1..];
      assert filePath == filePath[..|workspacePath| + 1] + rel;
      assert filePath[..|workspacePath| + 1] == workspacePath + "/";
    }
  }

  /** A directory child's path, relativised: the corrected helper and the code
      as written agree, and both give the child's path relative to the
      workspace. */
  lemma ChildPathAgrees(workspacePath: string, relativePath: string, name: string)
    requires IsWorkspacePath(workspacePath)
    ensures var childPath := JoinPath(JoinPath(workspacePath, relativePath), name);
      && GetRelativePath(workspacePath, childPath) == GetRelativePathAsWritten(workspacePath, childPath)
      && GetRelativePath(workspacePath, childPath) == JoinPath(relativePath, name)
  {
    JoinPathAssociative(workspacePath, relativePath, name);
    RelativeOfJoined(workspacePath, JoinPath(relativePath, name));
    CorrectionAgreesInside(workspacePath, JoinPath(JoinPath(workspacePath, relativePath), name));
  }

  /** With an empty workspace path the code as written drops the first
      character of a child's path, which the corrected helper keeps. */
  lemma EmptyWorkspaceCutsChild()
    ensures JoinPath(JoinPath("", "src"), "a.js") == "src/a.js"
    ensures GetRelativePathAsWritten("", "src/a.js") == "rc/a.js"
    ensures GetRelativePath("", "src/a.js") == "src/a.js"
  {
    assert "src/a.js"[1..] == "rc/a.js";
    assert !("/" <= "src/a.js") by {
      assert "/"[0] != "src/a.js"[0];
    }
  }

  /** `getSourceFromRelativePath`: the decoded content of the file at the
      workspace joined with `relativePath`, or `""` when reading fails. */
  function GetSourceFromRelativePath(fs: FileSystem, workspacePath: string, relativePath: string): (r: string)
    ensures JoinPath(workspacePath, relativePath) in fs.contents ==> r == fs.contents[JoinPath(workspacePath, relativePath)]
    ensures JoinPath(workspacePath, relativePath) !in fs.contents ==> r == ""
  {
    var fileUri := JoinPath(workspacePath, relativePath);
    if fileUri in fs.contents then fs.contents[fileUri] else ""
  }

  /** The names of the `File` entries of a directory listing, in listing order. */
  function FileNames(listing: seq<(string, FileType)>): (names: seq<string>)
    ensures |names| <= |listing|
  {
    if listing == [] then []
    else FileNames(listing[..|listing| - 1]) +
         (if listing[|listing| - 1].1 == File then [listing[|listing| - 1].0] else [])
  }

  /** Filtering distributes over concatenation, so the kept names keep their
      listing order. */
  lemma {:induction false} FileNamesAppend(front: seq<(string, FileType)>, back: seq<(string, FileType)>)
    ensures FileNames(front + back) == FileNames(front) + FileNames(back)
    decreases |back|
  {
    if back == [] {
      assert front + back == front;
    } else {
      assert (front + back)[..|front + back| - 1] == front + back[..|back| - 1];
      FileNamesAppend(front, back[..|back| - 1]);
    }
  }

  /** A name is kept exactly when the listing has it as a `File`. */
  lemma {:induction false} FileNamesMembership(listing: seq<(string, FileType)>, name: string)
    ensures name in FileNames(listing) <==> (name, File) in listing
  {
    if listing != [] {
      var front := listing[..|listing| - 1];
      FileNamesMembership(front, name);
      assert listing == front + [listing[|listing| - 1]];
    }
  }

  /** The child `name` of `directory` can be read. */
  predicate Readable(fs: FileSystem, directory: string, name: string)
  {
    JoinPath(directory, name) in fs.contents
  }

  /** Every child in `names` can be read. */
  predicate AllReadable(fs: FileSystem, directory: string, names: seq<string>)
  {
    forall i :: 0 <= i < |names| ==> Readable(fs, directory, names[i])
  }

  /** The entry of a readable child: its workspace-relative path and content. */
  function ChildEntry(fs: FileSystem, workspacePath: string, directory: string, name: string): FileContent
    requires Readable(fs, directory, name)
  {
    FileContent(GetRelativePath(workspacePath, JoinPath(directory, name)), fs.contents[JoinPath(directory, name)])
  }

  /** Reading every named child of `directory`, relativised against the
      workspace; rejected as soon as one read fails (`Promise.all`). */
  function ReadFiles(fs: FileSystem, workspacePath: string, directory: string, names: seq<string>): (r: Settled)
    ensures r.Resolved? ==> |r.entries| == |names|
  {
    if names == [] then Resolved([])
    else
      var front := ReadFiles(fs, workspacePath, directory, names[..|names| - 1]);
      var name := names[|names| - 1];
      if front.Rejected? || !Readable(fs, directory, name) then Rejected
      else Resolved(front.entries + [ChildEntry(fs, workspacePath, directory, name)])
  }

  /** All of a non-empty list is readable iff all but the last is and the last is. */
  lemma AllReadableSnoc(fs: FileSystem, directory: string, names: seq<string>)
    requires names != []
    ensures AllReadable(fs, directory, names) <==>
            AllReadable(fs, directory, names[..|names| - 1]) && Readable(fs, directory, names[|names| - 1])
  {
    var front := names[..|names| - 1];
    if AllReadable(fs, directory, front) && Readable(fs, directory, names[|names| - 1]) {
      forall i | 0 <= i < |names|
        ensures Readable(fs, directory, names[i])
      {
        if i < |front| {
          assert names[i] == front[i];
        }
      }
    }
  }

  /** The reads reject exactly when some child cannot be read. */
  lemma {:induction false} ReadFilesRejects(fs: FileSystem, workspacePath: string, directory: string, names: seq<string>)
    ensures ReadFiles(fs, workspacePath, directory, names).Rejected? <==> !AllReadable(fs, directory, names)
  {
    if names != [] {
      ReadFilesRejects(fs, workspacePath, directory, names[..|names| - 1]);
      AllReadableSnoc(fs, directory, names);
    }
  }

  /** When the reads succeed, the i-th entry is the i-th child's. */
  lemma {:induction false} ReadFilesEntry(fs: FileSystem, workspacePath: string, directory: string, names: seq<string>, i: nat)
    requires ReadFiles(fs, workspacePath, directory, names).Resolved? && i < |names|
    ensures Readable(fs, directory, names[i])
    ensures ReadFiles(fs, workspacePath, directory, names).entries[i] == ChildEntry(fs, workspacePath, directory, names[i])
  {
    var n := |names| - 1;
    var front := names[..n];
    var r := ReadFiles(fs, workspacePath, directory, names);
    var rf := ReadFiles(fs, workspacePath, directory, front);
    assert rf.Resolved? && Readable(fs, directory, names[n]);
    assert r.entries == rf.entries + [ChildEntry(fs, workspacePath, directory, names[n])];
    if i < n {
      ReadFilesEntry(fs, workspacePath, directory, front, i);
      assert names[i] == front[i];
      assert r.entries[i] == rf.entries[i];
    } else {
      assert r.entries[i] == ChildEntry(fs, workspacePath, directory, names[n]);
    }
  }

  /** When the reads succeed, every entry is its child's. */
  lemma ReadFilesEntries(fs: FileSystem, workspacePath: string, directory: string, names: seq<string>)
    ensures ReadFiles(fs, workspacePath, directory, names).Resolved? ==>
            forall i :: 0 <= i < |names| ==>
              && Readable(fs, directory, names[i])
              && ReadFiles(fs, workspacePath, directory, names).entries[i] == ChildEntry(fs, workspacePath, directory, names[i])
  {
    if ReadFiles(fs, workspacePath, directory, names).Resolved? {
      forall i | 0 <= i < |names|
        ensures Readable(fs, directory, names[i])
        ensures ReadFiles(fs, workspacePath, directory, names).entries[i] == ChildEntry(fs, workspacePath, directory, names[i])
      {
        ReadFilesEntry(fs, workspacePath, directory, names, i);
      }
    }
  }

  /** `getFileOrDirectoryContent`. A file gives one entry with its content
      (empty when unreadable); a directory gives one entry per direct `File`
      child, in listing order; anything else, or a failing `stat` or
      `readDirectory`, gives one entry with empty source. A failing read of a
      child is not caught: the returned promise rejects. */
  function GetFileOrDirectoryContent(fs: FileSystem, workspacePath: string, relativePath: string): (r: Settled)
    ensures var uri := JoinPath(workspacePath, relativePath);
      && (uri !in fs.stat ==> r == Resolved([FileContent(relativePath, "")]))
      && (uri in fs.stat && fs.stat[uri] == Other ==> r == Resolved([FileContent(relativePath, "")]))
      && (uri in fs.stat && fs.stat[uri] == File && uri in fs.contents ==>
            r == Resolved([FileContent(relativePath, fs.contents[uri])]))
      && (uri in fs.stat && fs.stat[uri] == File && uri !in fs.contents ==>
            r == Resolved([FileContent(relativePath, "")]))
      && (uri in fs.stat && fs.stat[uri] == Directory && uri !in fs.listings ==>
            r == Resolved([FileContent(relativePath, "")]))
      && (uri in fs.stat && fs.stat[uri] == Directory && uri in fs.listings ==>
            var names := FileNames(fs.listings[uri]);
            && (r.Rejected? <==> !AllReadable(fs, uri, names))
            && (r.Resolved? ==>
                  && |r.entries| == |names|
                  && forall i :: 0 <= i < |names| ==>
                       Readable(fs, uri, names[i]) && r.entries[i] == ChildEntry(fs, workspacePath, uri, names[i])))
  {
    var uri := JoinPath(workspacePath, relativePath);
    if uri !in fs.stat then Resolved([FileContent(relativePath, "")])
    else match fs.stat[uri]
      case File =>
        if uri in fs.contents then Resolved([FileContent(relativePath, fs.contents[uri])])
        else Resolved([FileContent(relativePath, "")])
      case Directory =>
        if uri !in fs.listings then Resolved([FileContent(relativePath, "")])
        else
          var names := FileNames(fs.listings[uri]);
          ReadFilesRejects(fs, workspacePath, uri, names);
          ReadFilesEntries(fs, workspacePath, uri, names);
          ReadFiles(fs, workspacePath, uri, names)
      case Other => Resolved([FileContent(relativePath, "")])
  }

  /** For a file, the single entry carries what `getSourceFromRelativePath`
      reads for the same path. */
  lemma FileAgreesWithGetSource(fs: FileSystem, workspacePath: string, relativePath: string)
    requires JoinPath(workspacePath, relativePath) in fs.stat
    requires fs.stat[JoinPath(workspacePath, relativePath)] == File
    ensures GetFileOrDirectoryContent(fs, workspacePath, relativePath)
         == Resolved([FileContent(relativePath, GetSourceFromRelativePath(fs, workspacePath, relativePath))])
  {
  }

  /** The entries of a directory carry workspace-relative paths: the
      directory's own relative path joined with the child's name. */
  lemma DirectoryEntriesAreWorkspaceRelative(fs: FileSystem, workspacePath: string, relativePath: string)
    requires IsWorkspacePath(workspacePath)
    requires JoinPath(workspacePath, relativePath) in fs.stat
    requires fs.stat[JoinPath(workspacePath, relativePath)] == Directory
    requires JoinPath(workspacePath, relativePath) in fs.listings
    ensures var r := GetFileOrDirectoryContent(fs, workspacePath, relativePath);
      var names := FileNames(fs.listings[JoinPath(workspacePath, relativePath)]);
      r.Resolved? ==> forall i :: 0 <= i < |names| ==>
        && JoinPath(workspacePath, JoinPath(relativePath, names[i])) in fs.contents
        && r.entries[i] == FileContent(JoinPath(relativePath, names[i]),
                                       fs.contents[JoinPath(workspacePath, JoinPath(relativePath, names[i]))])
  {
    var uri := JoinPath(workspacePath, relativePath);
    var names := FileNames(fs.listings[uri]);
    forall i | 0 <= i < |names|
      ensures JoinPath(uri, names[i]) == JoinPath(workspacePath, JoinPath(relativePath, names[i]))
      ensures GetRelativePath(workspacePath, JoinPath(uri, names[i])) == JoinPath(relativePath, names[i])
    {
      JoinPathAssociative(workspacePath, relativePath, names[i]);
      RelativeOfJoined(workspacePath, JoinPath(relativePath, names[i]));
    }
  }

  /** A non-file entry of a listing (a subdirectory, say) contributes
      nothing: directories are not descended into. */
  lemma NonFileEntriesIgnored(listing: seq<(string, FileType)>, name: string, kind: FileType)
    requires kind != File
    ensures FileNames(listing + [(name, kind)]) == FileNames(listing)
    ensures FileNames([(name, kind)] + listing) == FileNames(listing)
  {
    assert FileNames([(name, kind)]) == [];
    FileNamesAppend(listing, [(name, kind)]);
    FileNamesAppend([(name, kind)], listing);
  }

  /** A workspace `/ws` whose folder `src` holds two files and a subdirectory. */
  const ScenarioFileSystem := FileSystem(
    map["/ws/src" := Directory],
    map["/ws/src/a.js" := "A", "/ws/src/b.js" := "B", "/ws/src/sub/c.js" := "C"],
    map["/ws/src" := [("a.js", File), ("sub", Directory), ("b.js", File)]])

  const ScenarioListing := [("a.js", File), ("sub", Directory), ("b.js", File)]

  lemma ScenarioFileNames()
    ensures FileNames(ScenarioListing) == ["a.js", "b.js"]
  {
    var listing := ScenarioListing;
    assert listing[..2][..1] == [("a.js", File)];
    assert listing[..2] == [("a.js", File), ("sub", Directory)];
  }

  lemma ScenarioReads()
    ensures ReadFiles(ScenarioFileSystem, "/ws", "/ws/src", ["a.js", "b.js"])
         == Resolved([FileContent("src/a.js", "A"), FileContent("src/b.js", "B")])
  {
    var fs := ScenarioFileSystem;
    var pathA := JoinPath("/ws/src", "a.js");
    var pathB := JoinPath("/ws/src", "b.js");
    assert pathA == "/ws/src/a.js" && pathB == "/ws/src/b.js";
    RelativeOfJoined("/ws", "src/a.js");
    RelativeOfJoined("/ws", "src/b.js");
    assert GetRelativePath("/ws", pathA) == "src/a.js";
    assert GetRelativePath("/ws", pathB) == "src/b.js";
    assert fs.contents[pathA] == "A" && fs.contents[pathB] == "B";
    assert ["a.js", "b.js"][..1] == ["a.js"];
    assert ReadFiles(fs, "/ws", "/ws/src", ["a.js"]) == Resolved([FileContent("src/a.js", "A")]);
  }

  /** Reading `src`: the two files are read, in listing order, with paths
      relative to the workspace; the subdirectory is not descended into. */
  lemma DirectoryScenario()
    ensures GetFileOrDirectoryContent(ScenarioFileSystem, "/ws", "src")
         == Resolved([FileContent("src/a.js", "A"), FileContent("src/b.js", "B")])
  {
    assert JoinPath("/ws", "src") == "/ws/src";
    assert ScenarioFileSystem.listings["/ws/src"] == ScenarioListing;
    ScenarioFileNames();
    ScenarioReads();
  }
}
