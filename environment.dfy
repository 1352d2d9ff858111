/**
 * Project environment detection (backend/src/services/environment.ts): a pure
 * classification of a workspace from the names at its root and the names inside
 * each immediate subdirectory.
 */
module Environment {
  import opened Results
  import opened Strings

  datatype ProjectEnvironment = Python | Node | Multi | Base

  datatype EnvironmentResult = EnvironmentResult(environment: ProjectEnvironment, reason: string)

  /**
   * One entry of the workspace root as the directory read and `statSync` see it:
   * its name and, when it is a directory, the names it contains.
   */
  datatype RootEntry = RootEntry(name: string, subFiles: Option<seq<string>>)

  function Names(root: seq<RootEntry>): (files: seq<string>)
    ensures |files| == |root|
    ensures forall i :: 0 <= i < |root| ==> files[i] == root[i].name
  {
    if root == [] then [] else [root[0].name] + Names(root[1..])
  }

  /** `files.some(f => suffixes.some(x => f.endsWith(x)))`, scanned left to right. */
  function SomeEndsWith(files: seq<string>, suffixes: seq<string>): bool {
    if files == [] then false
    else AnyEndsWith(files[0], suffixes) || SomeEndsWith(files[1..], suffixes)
  }

  function AnyEndsWith(f: string, suffixes: seq<string>): bool {
    if suffixes == [] then false
    else EndsWith(f, suffixes[0]) || AnyEndsWith(f, suffixes[1..])
  }

  const PythonManifests: seq<string> := ["requirements.txt", "setup.py", "pyproject.toml", "Pipfile"]
  const PythonSuffixes: seq<string> := [".py"]
  const NodeSuffixes: seq<string> := [".js", ".ts", ".jsx", ".tsx"]

  predicate HasPython(files: seq<string>) {
    "requirements.txt" in files || "setup.py" in files || "pyproject.toml" in files || "Pipfile" in files
    || SomeEndsWith(files, PythonSuffixes)
  }

  predicate HasNode(files: seq<string>) {
    "package.json" in files || SomeEndsWith(files, NodeSuffixes)
  }

  /** The early-return scan over the root entries for a directory holding package.json. */
  function SubdirHasPackageJson(root: seq<RootEntry>): bool {
    if root == [] then false
    else if root[0].subFiles.Some? && "package.json" in root[0].subFiles.value then true
    else SubdirHasPackageJson(root[1..])
  }

  function DetectEnvironment(root: seq<RootEntry>): EnvironmentResult {
    var files := Names(root);
    var hasPython := HasPython(files);
    var hasNode := HasNode(files);
    if !hasNode && SubdirHasPackageJson(root) then
      EnvironmentResult(Node, "Found package.json in subdirectory")
    else if hasPython && hasNode then
      EnvironmentResult(Multi, "Found both Python and Node.js files")
    else if hasPython then
      EnvironmentResult(Python, "Found Python files")
    else if hasNode then
      EnvironmentResult(Node, "Found Node.js/JavaScript files")
    else
      EnvironmentResult(Node, "Default to Node.js environment")
  }

  /** The `some` scan finds a name exactly when one of the names carries one of the suffixes. */
  lemma {:induction false} SomeEndsWithIff(files: seq<string>, suffixes: seq<string>)
    ensures SomeEndsWith(files, suffixes) <==>
      exists i :: 0 <= i < |files| && AnyEndsWith(files[i], suffixes)
  {
    if files != [] {
      SomeEndsWithIff(files[1..], suffixes);
      if SomeEndsWith(files[1..], suffixes) {
        var i :| 0 <= i < |files[1..]| && AnyEndsWith(files[1..][i], suffixes);
        assert files[i + 1] == files[1..][i];
      }
      if exists i :: 0 <= i < |files| && AnyEndsWith(files[i], suffixes) {
        var i :| 0 <= i < |files| && AnyEndsWith(files[i], suffixes);
        if i > 0 {
          assert files[1..][i - 1] == files[i];
        }
      }
    }
  }

  predicate PythonSource(f: string) {
    EndsWith(f, ".py")
  }

  predicate NodeSource(f: string) {
    EndsWith(f, ".js") || EndsWith(f, ".ts") || EndsWith(f, ".jsx") || EndsWith(f, ".tsx")
  }

  lemma AnyEndsWithFour(f: string, a: string, b: string, c: string, d: string)
    ensures AnyEndsWith(f, [a, b, c, d]) <==> EndsWith(f, a) || EndsWith(f, b) || EndsWith(f, c) || EndsWith(f, d)
  {
    assert [a, b, c, d][1..] == [b, c, d];
    assert [b, c, d][1..] == [c, d];
    assert [c, d][1..] == [d];
    assert [d][1..] == [];
    assert AnyEndsWith(f, [d]) == EndsWith(f, d);
    assert AnyEndsWith(f, [c, d]) == (EndsWith(f, c) || EndsWith(f, d));
    assert AnyEndsWith(f, [b, c, d]) == (EndsWith(f, b) || EndsWith(f, c) || EndsWith(f, d));
  }

  lemma SuffixLists(f: string)
    ensures AnyEndsWith(f, PythonSuffixes) <==> PythonSource(f)
    ensures AnyEndsWith(f, NodeSuffixes) <==> NodeSource(f)
  {
    AnyEndsWithFour(f, ".js", ".ts", ".jsx", ".tsx");
    assert PythonSuffixes[1..] == [];
  }

  /** hasPython holds iff a Python manifest is at the root or a root name ends in ".py". */
  lemma HasPythonIff(files: seq<string>)
    ensures HasPython(files) <==>
      (exists m :: m in PythonManifests && m in files)
      || (exists i :: 0 <= i < |files| && PythonSource(files[i]))
  {
    SomeEndsWithIff(files, PythonSuffixes);
    forall i | 0 <= i < |files| ensures AnyEndsWith(files[i], PythonSuffixes) <==> PythonSource(files[i]) {
      SuffixLists(files[i]);
    }
  }

  /** hasNode holds iff package.json is at the root or a root name ends in .js, .ts, .jsx or .tsx. */
  lemma HasNodeIff(files: seq<string>)
    ensures HasNode(files) <==>
      "package.json" in files || (exists i :: 0 <= i < |files| && NodeSource(files[i]))
  {
    SomeEndsWithIff(files, NodeSuffixes);
    forall i | 0 <= i < |files| ensures AnyEndsWith(files[i], NodeSuffixes) <==> NodeSource(files[i]) {
      SuffixLists(files[i]);
    }
  }

  /** The scan finds a package.json exactly when some immediate subdirectory holds one. */
  lemma {:induction false} SubdirHasPackageJsonIff(root: seq<RootEntry>)
    ensures SubdirHasPackageJson(root) <==>
      exists i :: 0 <= i < |root| && root[i].subFiles.Some? && "package.json" in root[i].subFiles.value
  {
    if root != [] {
      SubdirHasPackageJsonIff(root[1..]);
      if SubdirHasPackageJson(root[1..]) {
        var i :| 0 <= i < |root[1..]| && root[1..][i].subFiles.Some? && "package.json" in root[1..][i].subFiles.value;
        assert root[i + 1] == root[1..][i];
      }
      if exists i :: 0 <= i < |root| && root[i].subFiles.Some? && "package.json" in root[i].subFiles.value {
        var i :| 0 <= i < |root| && root[i].subFiles.Some? && "package.json" in root[i].subFiles.value;
        if i > 0 {
          assert root[1..][i - 1] == root[i];
        }
      }
    }
  }

  /**
   * The complete decision table: the subdirectory scan (taken only when no Node
   * marker is at the root) wins over Python markers; both kinds of marker give
   * Multi; one kind gives that kind; no marker defaults to Node; Base never occurs.
   */
  lemma DetectEnvironmentTable(root: seq<RootEntry>)
    ensures var files := Names(root);
      var py := HasPython(files);
      var node := HasNode(files);
      var sub := exists i :: 0 <= i < |root| && root[i].subFiles.Some? && "package.json" in root[i].subFiles.value;
      var env := DetectEnvironment(root).environment;
      && (env == Multi <==> py && node)
      && (env == Python <==> py && !node && !sub)
      && (env == Node <==> (!py && !node) || (!py && node) || (!node && sub))
      && env != Base
  {
    SubdirHasPackageJsonIff(root);
  }

  /** A package.json one level down classifies as Node even beside Python manifests. */
  lemma SubdirPackageJsonWins(root: seq<RootEntry>, i: nat)
    requires i < |root| && root[i].subFiles.Some? && "package.json" in root[i].subFiles.value
    requires !HasNode(Names(root))
    ensures DetectEnvironment(root).environment == Node
    ensures DetectEnvironment(root).reason == "Found package.json in subdirectory"
  {
    SubdirHasPackageJsonIff(root);
  }

  /** Subdirectories are consulted only when the root has no Node marker. */
  lemma SubdirIgnoredWithRootNode(root: seq<RootEntry>, other: seq<RootEntry>)
    requires Names(root) == Names(other)
    requires HasNode(Names(root))
    ensures DetectEnvironment(root) == DetectEnvironment(other)
  {
  }

  /** `getContainerImage`: the image tag for each environment. */
  function GetContainerImage(environment: ProjectEnvironment): (image: string)
    ensures StartsWith(image, "codeblocking/")
  {
    match environment
    case Python => "codeblocking/python"
    case Node => "codeblocking/node"
    case Multi => "codeblocking/multi"
    case Base => "codeblocking/base"
  }

  /** The image map is total and gives four different images. */
  lemma GetContainerImageInjective(a: ProjectEnvironment, b: ProjectEnvironment)
    ensures GetContainerImage(a) == GetContainerImage(b) <==> a == b
  {
    if a != b {
      var ia, ib := GetContainerImage(a), GetContainerImage(b);
      assert ia[13..] != ib[13..];
    }
  }

  /** The environment's name as the source's string union spells it. */
  function EnvironmentName(e: ProjectEnvironment): string {
    match e
    case Python => "python"
    case Node => "node"
    case Multi => "multi"
    case Base => "base"
  }
}
