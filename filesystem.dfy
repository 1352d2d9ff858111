/**
 * The workspace file service of backend/src/services/fileSystem.ts apart from
 * the tree builder: the path traversal guard, the language of a file, and the
 * read, write, create and delete operations over a model of the disk.
 */
module FileSystem {
  import opened Results
  import opened Strings
  import Paths
  import ErrorHandler

  // ---------------------------------------------------------------- the guard

  /** `path.join(this.workspaceRoot, p)`. */
  function FullPath(root: string, p: string): string {
    Paths.JoinPaths([root, p])
  }

  /**
   * The guard of read, write, writeBuffer, createFolder and delete: the normalised
   * full path must start with the root, as a string prefix.
   */
  predicate InsideRoot(root: string, p: string) {
    StartsWith(Paths.Normalize(FullPath(root, p)), root)
  }

  const TraversalMessage := "Access denied: Path traversal detected"

  const TraversalError := ErrorHandler.PlainError(TraversalMessage, None)

  /** The error middleware answers a rejected path with 403. */
  lemma TraversalErrorIs403()
    ensures ErrorHandler.HandleError(TraversalError).status == 403
  {
    var before := "Access denied: ";
    assert TraversalMessage == before + ErrorHandler.PathTraversalMarker + " detected";
    assert TraversalMessage[|before|..|before| + |ErrorHandler.PathTraversalMarker|] == ErrorHandler.PathTraversalMarker;
    assert OccursAt(TraversalMessage, ErrorHandler.PathTraversalMarker, |before|);
    ContainsIff(TraversalMessage, ErrorHandler.PathTraversalMarker);
  }

  /** A workspace root and a relative path made of plain segments pass the guard. */
  lemma PlainPathsPass(rootSegs: seq<string>, relSegs: seq<string>)
    requires |rootSegs| >= 1 && Paths.AllPlain(rootSegs)
    requires |relSegs| >= 1 && Paths.AllPlain(relSegs)
    ensures var root := "/" + Join(rootSegs, '/');
      && FullPath(root, Join(relSegs, '/')) == root + "/" + Join(relSegs, '/')
      && InsideRoot(root, Join(relSegs, '/'))
  {
    var root := "/" + Join(rootSegs, '/');
    var rel := Join(relSegs, '/');
    Paths.JoinPlain(rootSegs, relSegs);
    Paths.JoinAppend(rootSegs, relSegs);
    Paths.ConcatAssoc(Join(rootSegs, '/'), rel);
    Paths.AllPlainAppend(rootSegs, relSegs);
    Paths.NormalizeAbsolutePlain(rootSegs + relSegs);
    assert (root + "/" + rel)[..|root|] == root;
  }

  /** The empty path names the root itself and passes, so `delete('')` removes the whole workspace. */
  lemma EmptyPathIsRoot(rootSegs: seq<string>)
    requires |rootSegs| >= 1 && Paths.AllPlain(rootSegs)
    ensures var root := "/" + Join(rootSegs, '/');
      FullPath(root, "") == root && InsideRoot(root, "")
  {
    var root := "/" + Join(rootSegs, '/');
    assert [root, ""][1..] == [""];
    assert [""][1..] == [];
    assert Paths.Glue([root, ""]) == root;
    Paths.NormalizeAbsolutePlain(rootSegs);
  }

  /** The segments "/<up>/../<target>" splits into, after the leading empty one. */
  lemma ClimbSegments(up: seq<string>, target: seq<string>)
    requires |up| >= 1 && Paths.AllPlain(up) && |target| >= 1 && Paths.AllPlain(target)
    ensures Split("/" + Join(up, '/') + "/" + ("../" + Join(target, '/')), '/') == [""] + (up + ([".."] + target))
  {
    var tail := [".."] + target;
    var steps := up + tail;
    var rel := Join(target, '/');
    Paths.JoinAppend(up, tail);
    assert tail[1..] == target;
    assert Join(tail, '/') == "../" + rel;
    ShapeOfClimb(Join(up, '/'), "../" + rel);
    forall k | 0 <= k < |steps| ensures '/' !in steps[k] {
      if k < |up| {
        assert steps[k] == up[k];
      } else {
        assert steps[k] == tail[k - |up|];
      }
    }
    SplitJoin(steps, '/');
    SplitAt("", Join(steps, '/'), '/');
  }

  lemma ShapeOfClimb(a: string, b: string)
    ensures "/" + a + "/" + b == "" + ['/'] + (a + "/" + b)
  {
  }

  /** Resolving "<up>/../<target>" drops the last segment of `up`. */
  lemma ClimbResolve(parent: seq<string>, name: string, target: seq<string>)
    requires Paths.AllPlain(parent) && Paths.Plain(name) && Paths.AllPlain(target)
    ensures Paths.Resolve([], [""] + (parent + [name] + ([".."] + target)), true) == parent + target
  {
    var up := parent + [name];
    var tail := [".."] + target;
    var steps := up + tail;
    assert ([""] + steps)[0] == "";
    assert ([""] + steps)[1..] == steps;
    assert Paths.Resolve([], [""] + steps, true) == Paths.Resolve([], steps, true);
    Paths.ResolveAppend([], up, tail, true);
    Paths.AllPlainAppend(parent, [name]);
    Paths.ResolvePlain([], up, true);
    assert [] + up == up;
    assert up[..|up| - 1] == parent;
    assert Paths.Step(up, "..", true) == parent;
    assert tail[0] == ".." && tail[1..] == target;
    assert Paths.Resolve(up, tail, true) == Paths.Resolve(parent, target, true);
    Paths.ResolvePlain(parent, target, true);
  }

  /**
   * Climbing out of the root with "..": from root "/<parent>/<name>", the path
   * "../<target>" leads to "/<parent>/<target>", already in normal form.
   */
  lemma ClimbOut(parent: seq<string>, name: string, target: seq<string>)
    requires |parent| >= 1 && Paths.AllPlain(parent) && Paths.Plain(name)
    requires |target| >= 1 && Paths.AllPlain(target)
    ensures FullPath("/" + Join(parent + [name], '/'), "../" + Join(target, '/')) == "/" + Join(parent + target, '/')
    ensures Paths.Normalize("/" + Join(parent + target, '/')) == "/" + Join(parent + target, '/')
  {
    var up := parent + [name];
    Paths.AllPlainAppend(parent, [name]);
    var root := "/" + Join(up, '/');
    var rel := Join(target, '/');
    var p := "../" + rel;
    Paths.GlueTwo(root, p);
    var s := root + "/" + p;
    ClimbSegments(up, target);
    ClimbResolve(parent, name, target);
    Paths.AllPlainAppend(parent, target);
    Paths.JoinNonEmpty(parent + target, '/');
    Paths.JoinNonEmpty(target, '/');
    assert s[|s| - 1] == rel[|rel| - 1];
    assert Paths.Normalize(s) == "/" + Join(parent + target, '/');
    Paths.NormalizeAbsolutePlain(parent + target);
  }

  /** "/<parent>/<x>/<rest>" is "/<parent>/" followed by x, "/" and the rest. */
  lemma JoinShape(parent: seq<string>, x: string, rest: seq<string>)
    requires |parent| >= 1 && |rest| >= 1
    ensures "/" + Join(parent + ([x] + rest), '/') == ("/" + Join(parent, '/') + "/") + x + ("/" + Join(rest, '/'))
    ensures "/" + Join(parent + [x], '/') == ("/" + Join(parent, '/') + "/") + x
  {
    var pj := Join(parent, '/');
    var rj := Join(rest, '/');
    Paths.JoinAppend(parent, [x] + rest);
    Paths.JoinAppend(parent, [x]);
    assert ([x] + rest)[1..] == rest;
    assert Join([x] + rest, '/') == x + "/" + rj;
    assert Join([x], '/') == x;
    Regroup(pj, x, rj);
  }

  lemma Regroup(a: string, b: string, c: string)
    ensures "/" + (a + "/" + (b + "/" + c)) == ("/" + a + "/") + b + ("/" + c)
    ensures "/" + (a + "/" + b) == ("/" + a + "/") + b
  {
  }

  /**
   * The guard is a string-prefix test: from root "/<parent>/<name>", the path
   * "../<name><extra>/<rest>" passes, although with a non-empty `extra` it leads
   * into the sibling folder "<name><extra>", outside the workspace.
   */
  lemma SiblingPrefixPasses(parent: seq<string>, name: string, extra: string, rest: seq<string>)
    requires |parent| >= 1 && Paths.AllPlain(parent) && Paths.Plain(name) && Paths.Plain(name + extra)
    requires |rest| >= 1 && Paths.AllPlain(rest)
    ensures var root := "/" + Join(parent + [name], '/');
      var p := "../" + Join([name + extra] + rest, '/');
      && FullPath(root, p) == "/" + Join(parent + ([name + extra] + rest), '/')
      && InsideRoot(root, p)
      && (extra != "" ==> !StartsWith(FullPath(root, p), root + "/"))
  {
    var target := [name + extra] + rest;
    forall k | 0 <= k < |target| ensures Paths.Plain(target[k]) {
      if k > 0 {
        assert target[k] == rest[k - 1];
      }
    }
    ClimbOut(parent, name, target);
    JoinShape(parent, name + extra, rest);
    JoinShape(parent, name, rest);
    var prefix := "/" + Join(parent, '/') + "/";
    PrefixFacts(prefix, name, extra, "/" + Join(rest, '/'));
    if extra != "" {
      assert extra[0] in name + extra;
    }
  }

  lemma PrefixFacts(prefix: string, name: string, extra: string, tail: string)
    ensures StartsWith(prefix + (name + extra) + tail, prefix + name)
    ensures extra != "" ==> (prefix + (name + extra) + tail)[|prefix + name|] == extra[0]
    ensures (prefix + name + "/")[|prefix + name|] == '/'
  {
    assert prefix + (name + extra) + tail == (prefix + name) + (extra + tail);
  }

  /** Climbing out to a folder whose name starts differently from the root's is refused. */
  lemma EscapeRefused(parent: seq<string>, name: string, other: string, rest: seq<string>)
    requires |parent| >= 1 && Paths.AllPlain(parent) && Paths.Plain(name) && Paths.Plain(other)
    requires other[0] != name[0]
    requires |rest| >= 1 && Paths.AllPlain(rest)
    ensures !InsideRoot("/" + Join(parent + [name], '/'), "../" + Join([other] + rest, '/'))
  {
    var target := [other] + rest;
    forall k | 0 <= k < |target| ensures Paths.Plain(target[k]) {
      if k > 0 {
        assert target[k] == rest[k - 1];
      }
    }
    ClimbOut(parent, name, target);
    JoinShape(parent, other, rest);
    JoinShape(parent, name, rest);
    var prefix := "/" + Join(parent, '/') + "/";
    DifferAt(prefix, name, other, "/" + Join(rest, '/'));
  }

  lemma DifferAt(prefix: string, name: string, other: string, tail: string)
    requires name != "" && other != "" && other[0] != name[0]
    ensures !StartsWith(prefix + other + tail, prefix + name)
  {
    assert (prefix + other + tail)[|prefix|] == other[0];
    assert (prefix + name)[|prefix|] == name[0];
  }

  // ---------------------------------------------------------------- languages

  /** The extension table of `getLanguageFromPath`. */
  const LanguageTable: map<string, string> := map[
    ".ts" := "typescript", ".tsx" := "typescriptreact", ".js" := "javascript", ".jsx" := "javascriptreact",
    ".json" := "json", ".css" := "css", ".scss" := "scss", ".html" := "html", ".md" := "markdown",
    ".py" := "python", ".java" := "java", ".c" := "c", ".cpp" := "cpp", ".h" := "c", ".hpp" := "cpp",
    ".xml" := "xml", ".yaml" := "yaml", ".yml" := "yaml", ".sh" := "shellscript", ".bash" := "shellscript"]

  /** `getLanguageFromPath`: the lower-cased extension looked up in the table, else "plaintext". */
  function LanguageOf(p: string): (language: string)
    ensures language == "plaintext" || language in LanguageTable.Values
  {
    var ext := ToLower(Paths.Extname(p));
    if ext in LanguageTable then LanguageTable[ext] else "plaintext"
  }

  /** The extension of "<base>.<x>" is ".<x>" when x holds no '.' or '/' and base does not end in '/'. */
  lemma ExtnameOfSuffix(base: string, x: string)
    requires base != "" && base[|base| - 1] != '/'
    requires x != "" && '.' !in x && '/' !in x
    ensures Paths.Extname(base + "." + x) == "." + x
  {
    var s := base + "." + x;
    forall k | |base| < k < |s| ensures s[k] != '/' && s[k] != '.' {
      assert s[k] == x[k - |base| - 1];
      assert x[k - |base| - 1] in x;
    }
    assert s[|base| - 1] == base[|base| - 1];
    assert s[|base|] == '.';
    var end := Paths.TrimEnd(s);
    assert end == |s|;
    var start := Paths.BaseStart(s, end);
    assert start < |base|;
    var d := Paths.LastDot(s, start, end);
    assert d == Results.Some(|base|);
    assert |s[start..end]| >= 3;
    assert s[|base|..] == "." + x;
  }

  /** A file named "<base>.<x>" gets the language of ".<x>", whatever the case of x. */
  lemma LanguageOfName(base: string, x: string)
    requires base != "" && base[|base| - 1] != '/'
    requires x != "" && '.' !in x && '/' !in x
    ensures LanguageOf(base + "." + x) ==
      if ToLower("." + x) in LanguageTable then LanguageTable[ToLower("." + x)] else "plaintext"
  {
    ExtnameOfSuffix(base, x);
  }

  /** ".TSX" is looked up as ".tsx": "App.TSX" is a TypeScript React file. */
  lemma UpperCaseExtension(base: string)
    requires base != "" && base[|base| - 1] != '/'
    ensures LanguageOf(base + ".TSX") == "typescriptreact"
  {
    assert base + ".TSX" == base + "." + "TSX";
    LanguageOfName(base, "TSX");
    TsxLowered();
  }

  lemma TsxLowered()
    ensures ToLower("." + "TSX") == ".tsx"
    ensures ".tsx" in LanguageTable && LanguageTable[".tsx"] == "typescriptreact"
  {
    var l := ToLower(".TSX");
    assert l[0] == '.' && l[1] == 't' && l[2] == 's' && l[3] == 'x';
  }

  /** A name without extension, such as a dotfile, is plain text. */
  lemma NoExtensionIsPlaintext(p: string)
    requires Paths.Extname(p) == ""
    ensures LanguageOf(p) == "plaintext"
  {
    assert ToLower("") == "";
    assert "" !in LanguageTable;
  }

  // ---------------------------------------------------------------- the disk

  /**
   * The part of the disk the service touches, keyed by normalised absolute path:
   * file contents and the set of folders.
   */
  datatype Disk = Disk(files: map<string, string>, folders: set<string>)

  /** `a` names a folder on the way to `p`: a proper prefix of `p` that ends just before a '/'. */
  predicate IsAncestor(a: string, p: string) {
    0 < |a| < |p| && p[|a|] == '/' && p[..|a|] == a
  }

  /** The folders `mkdir(path.dirname(p), { recursive: true })` creates (the root '/' aside). */
  function Ancestors(p: string): (r: set<string>)
    ensures forall a :: a in r <==> IsAncestor(a, p)
  {
    var r := set i | 0 < i < |p| && p[i] == '/' :: p[..i];
    assert forall a :: IsAncestor(a, p) ==> p[..|a|] in r;
    r
  }

  lemma AncestorTransitive(a: string, b: string, c: string)
    requires IsAncestor(a, b) && IsAncestor(b, c)
    ensures IsAncestor(a, c)
  {
    assert c[..|b|][..|a|] == c[..|a|];
    assert c[|a|] == c[..|b|][|a|];
  }

  /** A disk as a file system can hold it: no path is both a file and a folder, and every parent exists. */
  predicate WellFormed(d: Disk) {
    && d.files.Keys !! d.folders
    && (forall f :: f in d.files ==> Ancestors(f) <= d.folders)
    && (forall g :: g in d.folders ==> Ancestors(g) <= d.folders)
  }

  datatype FileContent = FileContent(path: string, content: string, language: string)

  /** What a write, folder creation or deletion leaves: the disk, and the error it threw, if any. */
  datatype Outcome = Outcome(disk: Disk, error: Option<ErrorHandler.Error>)

  const NotFound := ErrorHandler.PlainError("ENOENT: no such file or directory", Some("ENOENT"))
  const IsFolder := ErrorHandler.PlainError("EISDIR: illegal operation on a directory", Some("EISDIR"))
  const NotFolder := ErrorHandler.PlainError("ENOTDIR: not a directory", Some("ENOTDIR"))
  const AlreadyFile := ErrorHandler.PlainError("EEXIST: file already exists", Some("EEXIST"))

  /** The full path ends in '/' after a name: the system calls then require a folder there. */
  predicate Trailing(full: string) {
    |full| > 1 && full[|full| - 1] == '/'
  }

  /** The entry a full path names: a trailing '/' names the same entry as the path without it. */
  function Key(full: string): (k: string)
    ensures Trailing(full) ==> full == k + "/"
    ensures !Trailing(full) ==> k == full
  {
    if Trailing(full) then full[..|full| - 1] else full
  }

  /**
   * `readFile`: the guard, then the text of the file the full path names, with the
   * language of the requested path. A folder answers EISDIR; a file named with a
   * trailing '/', or a path that runs through a file, answers ENOTDIR.
   */
  function ReadFile(root: string, d: Disk, p: string): (r: Result<FileContent, ErrorHandler.Error>)
    ensures !InsideRoot(root, p) ==> r == Err(TraversalError)
    ensures r.Ok? <==> InsideRoot(root, p) && !Trailing(FullPath(root, p)) && Key(FullPath(root, p)) in d.files
    ensures r.Ok? ==>
      && r.value.path == p
      && r.value.content == d.files[Key(FullPath(root, p))]
      && r.value.language == LanguageOf(p)
    ensures InsideRoot(root, p) && Key(FullPath(root, p)) in d.folders && Key(FullPath(root, p)) !in d.files ==>
      r == Err(IsFolder)
    ensures InsideRoot(root, p) && Trailing(FullPath(root, p)) && Key(FullPath(root, p)) in d.files ==> r == Err(NotFolder)
    ensures InsideRoot(root, p) && Key(FullPath(root, p)) !in d.files && Key(FullPath(root, p)) !in d.folders ==>
      r == Err(if Ancestors(Key(FullPath(root, p))) !! d.files.Keys then NotFound else NotFolder)
  {
    if !InsideRoot(root, p) then Err(TraversalError)
    else
      var full := FullPath(root, p);
      var k := Key(full);
      if k in d.files then
        if Trailing(full) then Err(NotFolder) else Ok(FileContent(p, d.files[k], LanguageOf(p)))
      else if k in d.folders then Err(IsFolder)
      else if Ancestors(k) !! d.files.Keys then Err(NotFound)
      else Err(NotFolder)
  }

  /** `fs.mkdir(dir, { recursive: true })` for every folder in `dirs`, which must not be files. */
  function MakeFolders(d: Disk, dirs: set<string>): (r: Result<Disk, ErrorHandler.Error>)
    ensures r.Ok? <==> dirs !! d.files.Keys
    ensures r.Ok? ==> r.value == Disk(d.files, d.folders + dirs)
    ensures r.Err? ==> r.error == NotFolder
  {
    if dirs !! d.files.Keys then Ok(Disk(d.files, d.folders + dirs)) else Err(NotFolder)
  }

  /**
   * `writeFile` and `writeBuffer`: the guard, the parent folders of the entry, then
   * the content. After the parents were made, a folder at the full path fails the
   * write with EISDIR, and so does a trailing '/' (ENOTDIR when a file is there).
   */
  function WriteFile(root: string, d: Disk, p: string, content: string): (r: Outcome)
    ensures !InsideRoot(root, p) ==> r == Outcome(d, Some(TraversalError))
    ensures r.error.None? <==>
      && InsideRoot(root, p)
      && !Trailing(FullPath(root, p))
      && Ancestors(FullPath(root, p)) !! d.files.Keys
      && FullPath(root, p) !in d.folders
    ensures r.error.None? ==>
      r.disk == Disk(d.files[FullPath(root, p) := content], d.folders + Ancestors(FullPath(root, p)))
    ensures InsideRoot(root, p) && Trailing(FullPath(root, p)) && Ancestors(Key(FullPath(root, p))) !! d.files.Keys ==>
      r.error == Some(if Key(FullPath(root, p)) in d.files && Key(FullPath(root, p)) !in d.folders then NotFolder else IsFolder)
  {
    if !InsideRoot(root, p) then Outcome(d, Some(TraversalError))
    else
      var full := FullPath(root, p);
      var k := Key(full);
      match MakeFolders(d, Ancestors(k))
      case Err(e) => Outcome(d, Some(e))
      case Ok(d') =>
        if k in d'.folders then Outcome(d', Some(IsFolder))
        else if Trailing(full) then Outcome(d', Some(if k in d'.files then NotFolder else IsFolder))
        else Outcome(Disk(d'.files[k := content], d'.folders), None)
  }

  /**
   * `writeBuffer`: the same guard and parent folders as `writeFile`; the bytes are
   * taken as the text they spell, so what was written reads back.
   */
  function WriteBuffer(root: string, d: Disk, p: string, buffer: string): (r: Outcome)
    ensures !InsideRoot(root, p) ==> r == Outcome(d, Some(TraversalError))
    ensures Trailing(FullPath(root, p)) ==> r.error.Some?
    ensures r.error.None? ==> ReadFile(root, r.disk, p).Ok? && ReadFile(root, r.disk, p).value.content == buffer
  {
    WriteFile(root, d, p, buffer)
  }

  /** `createFile`: a write of the empty text. */
  function CreateFile(root: string, d: Disk, p: string): (r: Outcome)
    ensures !InsideRoot(root, p) ==> r == Outcome(d, Some(TraversalError))
    ensures Trailing(FullPath(root, p)) ==> r.error.Some?
    ensures r.error.None? ==> ReadFile(root, r.disk, p).Ok? && ReadFile(root, r.disk, p).value.content == ""
  {
    WriteFile(root, d, p, "")
  }

  /**
   * `createFolder`: the guard, then the folder and its parents; an existing folder is
   * no error, an existing file answers EEXIST and a file among the parents ENOTDIR.
   */
  function CreateFolder(root: string, d: Disk, p: string): (r: Outcome)
    ensures !InsideRoot(root, p) ==> r == Outcome(d, Some(TraversalError))
    ensures r.error.None? <==> InsideRoot(root, p) && (Ancestors(Key(FullPath(root, p))) + {Key(FullPath(root, p))}) !! d.files.Keys
    ensures r.error.None? ==> r.disk == Disk(d.files, d.folders + Ancestors(Key(FullPath(root, p))) + {Key(FullPath(root, p))})
    ensures r.error.Some? ==> r.disk == d
    ensures InsideRoot(root, p) && Key(FullPath(root, p)) in d.files ==> r.error == Some(AlreadyFile)
  {
    if !InsideRoot(root, p) then Outcome(d, Some(TraversalError))
    else
      var k := Key(FullPath(root, p));
      if k in d.files then Outcome(d, Some(AlreadyFile))
      else match MakeFolders(d, Ancestors(k) + {k})
        case Err(e) => Outcome(d, Some(e))
        case Ok(d') => Outcome(d', None)
  }

  /** `x` is `top` or lies below it. */
  predicate Within(x: string, top: string) {
    x == top || IsAncestor(top, x)
  }

  /** `fs.rm(top, { recursive: true })`: the folder and everything below it. */
  function RemoveTree(d: Disk, top: string): (r: Disk)
    ensures forall f :: f in r.files <==> f in d.files && !Within(f, top)
    ensures forall f :: f in r.files ==> r.files[f] == d.files[f]
    ensures forall g :: g in r.folders <==> g in d.folders && !Within(g, top)
  {
    Disk(map f | f in d.files && !Within(f, top) :: d.files[f],
         set g | g in d.folders && !Within(g, top))
  }

  /**
   * `delete`: the guard, then `stat`; a folder is removed with its contents, a file
   * unlinked. A file named with a trailing '/', or a path that runs through a
   * file, fails the `stat` with ENOTDIR.
   */
  function Delete(root: string, d: Disk, p: string): (r: Outcome)
    ensures !InsideRoot(root, p) ==> r == Outcome(d, Some(TraversalError))
    ensures r.error.None? <==>
      && InsideRoot(root, p)
      && (Key(FullPath(root, p)) in d.folders || (!Trailing(FullPath(root, p)) && Key(FullPath(root, p)) in d.files))
    ensures r.error.Some? ==> r.disk == d
    ensures r.error.None? ==> Key(FullPath(root, p)) !in r.disk.files && Key(FullPath(root, p)) !in r.disk.folders
    ensures InsideRoot(root, p) && Key(FullPath(root, p)) !in d.files && Key(FullPath(root, p)) !in d.folders ==>
      r.error == Some(if Ancestors(Key(FullPath(root, p))) !! d.files.Keys then NotFound else NotFolder)
  {
    if !InsideRoot(root, p) then Outcome(d, Some(TraversalError))
    else
      var full := FullPath(root, p);
      var k := Key(full);
      if k in d.folders then Outcome(RemoveTree(d, k), None)
      else if k !in d.files then Outcome(d, Some(if Ancestors(k) !! d.files.Keys then NotFound else NotFolder))
      else if Trailing(full) then Outcome(d, Some(NotFolder))
      else Outcome(Disk(d.files - {k}, d.folders), None)
  }

  // ---------------------------------------------------------------- properties of the disk operations

  lemma AncestorsOfAncestor(a: string, p: string)
    requires IsAncestor(a, p)
    ensures Ancestors(a) <= Ancestors(p)
  {
    forall b | b in Ancestors(a) ensures b in Ancestors(p) {
      AncestorTransitive(b, a, p);
    }
  }

  /** Writing keeps the disk well formed, whether or not the write itself fails. */
  lemma WriteKeepsWellFormed(root: string, d: Disk, p: string, content: string)
    requires WellFormed(d)
    ensures WellFormed(WriteFile(root, d, p, content).disk)
  {
    var k := Key(FullPath(root, p));
    var r := WriteFile(root, d, p, content);
    if InsideRoot(root, p) && Ancestors(k) !! d.files.Keys {
      assert d.folders + Ancestors(k) <= r.disk.folders;
      forall a | a in Ancestors(k) ensures Ancestors(a) <= r.disk.folders {
        AncestorsOfAncestor(a, k);
      }
    }
  }

  /** Creating a folder keeps the disk well formed. */
  lemma CreateFolderKeepsWellFormed(root: string, d: Disk, p: string)
    requires WellFormed(d)
    ensures WellFormed(CreateFolder(root, d, p).disk)
  {
    var k := Key(FullPath(root, p));
    var r := CreateFolder(root, d, p);
    if r.error.None? {
      forall a | a in Ancestors(k) ensures Ancestors(a) <= r.disk.folders {
        AncestorsOfAncestor(a, k);
      }
    }
  }

  /** Deleting keeps the disk well formed: a removed folder takes everything below it along. */
  lemma DeleteKeepsWellFormed(root: string, d: Disk, p: string)
    requires WellFormed(d)
    ensures WellFormed(Delete(root, d, p).disk)
  {
    var k := Key(FullPath(root, p));
    var r := Delete(root, d, p);
    if r.error.None? && k in d.folders {
      var e := r.disk;
      forall x, a | (x in e.files || x in e.folders) && a in Ancestors(x) ensures a in e.folders {
        assert a in d.folders;
        AncestorWithin(a, k, x);
      }
    }
  }

  lemma AncestorWithin(a: string, top: string, x: string)
    requires IsAncestor(a, x)
    ensures Within(a, top) ==> Within(x, top)
  {
    if a != top && IsAncestor(top, a) {
      AncestorTransitive(top, a, x);
    }
  }

  /** What a successful write stored reads back, with the language of the path. */
  lemma ReadAfterWrite(root: string, d: Disk, p: string, content: string)
    requires WriteFile(root, d, p, content).error.None?
    ensures ReadFile(root, WriteFile(root, d, p, content).disk, p) == Ok(FileContent(p, content, LanguageOf(p)))
  {
  }

  /** A created file reads back empty. */
  lemma CreateThenRead(root: string, d: Disk, p: string)
    requires CreateFile(root, d, p).error.None?
    ensures ReadFile(root, CreateFile(root, d, p).disk, p).Ok?
    ensures ReadFile(root, CreateFile(root, d, p).disk, p).value.content == ""
  {
    ReadAfterWrite(root, d, p, "");
  }

  /** A write changes no other file. */
  lemma WriteLeavesOtherFiles(root: string, d: Disk, p: string, content: string, q: string)
    requires WriteFile(root, d, p, content).error.None?
    requires InsideRoot(root, q) && Key(FullPath(root, q)) != FullPath(root, p) && Key(FullPath(root, q)) in d.files
    ensures ReadFile(root, WriteFile(root, d, p, content).disk, q) == ReadFile(root, d, q)
  {
  }

  /** Writing the same content twice leaves the disk as one write does. */
  lemma WriteIdempotent(root: string, d: Disk, p: string, content: string)
    requires WellFormed(d) && WriteFile(root, d, p, content).error.None?
    ensures var once := WriteFile(root, d, p, content);
      WriteFile(root, once.disk, p, content) == once
  {
    var full := FullPath(root, p);
    var once := WriteFile(root, d, p, content);
    assert Ancestors(full) !! once.disk.files.Keys by {
      forall a | a in Ancestors(full) ensures a !in once.disk.files {
        assert a != full;
      }
    }
    assert once.disk.folders + Ancestors(full) == once.disk.folders;
    assert once.disk.files[full := content] == once.disk.files;
  }

  /** A created file that is deleted again is gone: reading it answers ENOENT. */
  lemma DeleteAfterCreate(root: string, d: Disk, p: string)
    requires WellFormed(d) && CreateFile(root, d, p).error.None?
    ensures var created := CreateFile(root, d, p).disk;
      && Delete(root, created, p).error.None?
      && ReadFile(root, Delete(root, created, p).disk, p) == Err(NotFound)
  {
  }

  /** Deleting a folder removes every file and folder below it. */
  lemma DeleteFolderEmptiesIt(root: string, d: Disk, p: string)
    requires InsideRoot(root, p) && Key(FullPath(root, p)) in d.folders
    ensures var r := Delete(root, d, p);
      && r.error.None?
      && (forall f :: f in r.disk.files ==> !IsAncestor(Key(FullPath(root, p)), f))
      && (forall g :: g in r.disk.folders ==> !IsAncestor(Key(FullPath(root, p)), g))
  {
  }

  /**
   * Two paths naming the same folder, with or without a trailing '/', are one entry
   * to `delete` and `createFolder`, and `readFile` answers EISDIR for both.
   */
  lemma SlashNamesSameFolder(root: string, d: Disk, p: string, q: string)
    requires WellFormed(d) && InsideRoot(root, p) && InsideRoot(root, q)
    requires Key(FullPath(root, p)) == Key(FullPath(root, q)) && Key(FullPath(root, p)) in d.folders
    ensures Delete(root, d, p) == Delete(root, d, q)
    ensures Delete(root, d, p).error.None?
    ensures CreateFolder(root, d, p) == CreateFolder(root, d, q)
    ensures ReadFile(root, d, p) == ReadFile(root, d, q) == Err(IsFolder)
  {
  }

  /** A path the guard refuses leaves the disk alone under every operation and answers 403. */
  lemma RefusedEverywhere(root: string, d: Disk, p: string, content: string)
    requires !InsideRoot(root, p)
    ensures ReadFile(root, d, p) == Err(TraversalError)
    ensures WriteFile(root, d, p, content) == Outcome(d, Some(TraversalError))
    ensures CreateFile(root, d, p) == Outcome(d, Some(TraversalError))
    ensures CreateFolder(root, d, p) == Outcome(d, Some(TraversalError))
    ensures Delete(root, d, p) == Outcome(d, Some(TraversalError))
    ensures ErrorHandler.HandleError(TraversalError).status == 403
  {
    TraversalErrorIs403();
  }

  lemma AbsentFirstChar(s: string, pat: string)
    requires pat != [] && pat[0] !in s
    ensures !Contains(s, pat)
  {
    forall i ensures !OccursAt(s, pat, i) {
      if 0 <= i && i + |pat| <= |s| {
        assert s[i..i + |pat|][0] == s[i];
        assert s[i] in s;
      }
    }
    ContainsIff(s, pat);
  }

  /** The error of a missing file answers 404. */
  lemma NotFoundIs404()
    ensures ErrorHandler.HandleError(NotFound).status == 404
  {
    assert 'P' !in NotFound.message;
    AbsentFirstChar(NotFound.message, ErrorHandler.PathTraversalMarker);
  }

  /** Reading a path that is neither a file nor a folder answers 404. */
  lemma MissingFileIs404(root: string, d: Disk, p: string)
    requires InsideRoot(root, p) && Key(FullPath(root, p)) !in d.files && Key(FullPath(root, p)) !in d.folders
    requires Ancestors(Key(FullPath(root, p))) !! d.files.Keys
    ensures ReadFile(root, d, p) == Err(NotFound)
    ensures ErrorHandler.HandleError(ReadFile(root, d, p).error).status == 404
  {
    NotFoundIs404();
  }

  /** The error of a path through a file answers 500. */
  lemma NotFolderIs500()
    ensures ErrorHandler.HandleError(NotFolder).status == 500
  {
    assert 'P' !in NotFolder.message;
    AbsentFirstChar(NotFolder.message, ErrorHandler.PathTraversalMarker);
  }

  /** A path that runs through a file is not a missing path: reading or deleting it answers ENOTDIR, 500. */
  lemma PathThroughFileIs500(root: string, d: Disk, p: string, f: string)
    requires WellFormed(d) && InsideRoot(root, p)
    requires f in d.files && IsAncestor(f, Key(FullPath(root, p)))
    ensures ReadFile(root, d, p) == Err(NotFolder)
    ensures Delete(root, d, p) == Outcome(d, Some(NotFolder))
    ensures ErrorHandler.HandleError(ReadFile(root, d, p).error).status == 500
  {
    var k := Key(FullPath(root, p));
    assert f in Ancestors(k);
    NotFolderIs500();
  }
}
