/**
 * `FileSystemService.getFileTree` (backend/src/services/fileSystem.ts): list a
 * directory, drop hidden and generated entries, recurse into folders and sort
 * the nodes folders first, then by name.
 */
module FileTree {
  import opened Results
  import opened Strings
  import Paths

  /** What reading a directory yields: an error, or its entries in listing order. */
  datatype Dir = Unreadable | Listed(entries: seq<Entry>)
  datatype Entry = Entry(name: string, kind: Kind)
  datatype Kind = File | Folder(contents: Dir)

  /** `FileNode`; `children` is present exactly on folders. */
  datatype FileNode = FileNode(id: string, name: string, isFolder: bool, path: string, children: Option<seq<FileNode>>)

  /** Entries the tree leaves out: dot-names, node_modules, __pycache__, target and build. */
  predicate Hidden(name: string) {
    StartsWith(name, ".") || name in {"node_modules", "__pycache__", "target", "build"}
  }

  // ---------------------------------------------------------------- ordering

  /** Code-unit lexicographic order on names. */
  predicate LexLe(a: string, b: string)
    decreases |a|
  {
    a == [] || (b != [] && (a[0] < b[0] || (a[0] == b[0] && LexLe(a[1..], b[1..]))))
  }

  lemma {:induction false} LexLeTotal(a: string, b: string)
    decreases |a|
    ensures LexLe(a, b) || LexLe(b, a)
  {
    if a != [] && b != [] && a[0] == b[0] {
      LexLeTotal(a[1..], b[1..]);
    }
  }

  /** The comparator of the sort: folders before files, then by name. */
  predicate NodeLe(a: FileNode, b: FileNode) {
    if a.isFolder != b.isFolder then a.isFolder else LexLe(a.name, b.name)
  }

  lemma NodeLeTotal(a: FileNode, b: FileNode)
    ensures NodeLe(a, b) || NodeLe(b, a)
  {
    LexLeTotal(a.name, b.name);
  }

  predicate Sorted(s: seq<FileNode>) {
    forall i :: 0 < i < |s| ==> NodeLe(s[i - 1], s[i])
  }

  function Insert(x: FileNode, s: seq<FileNode>): (r: seq<FileNode>)
    ensures |r| == |s| + 1
  {
    if s == [] then [x]
    else if NodeLe(x, s[0]) then [x] + s
    else [s[0]] + Insert(x, s[1..])
  }

  lemma {:induction false} InsertSorted(x: FileNode, s: seq<FileNode>)
    requires Sorted(s)
    ensures Sorted(Insert(x, s))
    ensures multiset(Insert(x, s)) == multiset(s) + multiset{x}
    ensures Insert(x, s)[0] == x || (s != [] && Insert(x, s)[0] == s[0])
  {
    if s != [] && !NodeLe(x, s[0]) {
      InsertSorted(x, s[1..]);
      NodeLeTotal(x, s[0]);
      var r := Insert(x, s);
      assert r == [s[0]] + Insert(x, s[1..]);
      forall i | 0 < i < |r| ensures NodeLe(r[i - 1], r[i]) {
        if i == 1 {
          assert r[1] == Insert(x, s[1..])[0];
        }
      }
      assert s == [s[0]] + s[1..];
    }
  }

  /** `nodes.sort(comparator)`, as an insertion sort. */
  function SortNodes(s: seq<FileNode>): (r: seq<FileNode>)
    ensures |r| == |s|
  {
    if s == [] then [] else Insert(s[|s| - 1], SortNodes(s[..|s| - 1]))
  }

  /** The sort returns a permutation of its input, ordered by the comparator. */
  lemma {:induction false} SortNodesCorrect(s: seq<FileNode>)
    ensures Sorted(SortNodes(s))
    ensures multiset(SortNodes(s)) == multiset(s)
  {
    if s != [] {
      SortNodesCorrect(s[..|s| - 1]);
      InsertSorted(s[|s| - 1], SortNodes(s[..|s| - 1]));
      assert s == s[..|s| - 1] + [s[|s| - 1]];
    }
  }

  // ---------------------------------------------------------------- the tree

  /** `path.join(dirPath, entry.name)`. */
  function RelativePath(dirPath: string, name: string): string {
    Paths.JoinPaths([dirPath, name])
  }

  /** The tree `getFileTree(dirPath)` returns when the directory reads as `dir`. */
  function Tree(dir: Dir, dirPath: string): seq<FileNode>
    decreases dir, 1
  {
    match dir
    case Unreadable => []
    case Listed(entries) => SortNodes(Built(dir, |entries|, dirPath))
  }

  /** The nodes pushed for the first `n` entries, in listing order. */
  function Built(dir: Dir, n: nat, dirPath: string): seq<FileNode>
    requires dir.Listed? && n <= |dir.entries|
    decreases dir, 0, n
  {
    if n == 0 then []
    else
      var entry := dir.entries[n - 1];
      assert entry in dir.entries;
      Built(dir, n - 1, dirPath) + (if Hidden(entry.name) then [] else [NodeOf(dir, entry, dirPath)])
  }

  /** The node of one kept entry; a folder's children are its own tree. */
  function NodeOf(dir: Dir, entry: Entry, dirPath: string): (node: FileNode)
    requires dir.Listed? && entry in dir.entries
    decreases dir, 0, 0
  {
    var rel := RelativePath(dirPath, entry.name);
    match entry.kind
    case File => FileNode(rel, entry.name, false, rel, None)
    case Folder(sub) => FileNode(rel, entry.name, true, rel, Some(Tree(sub, rel)))
  }

  /**
   * `getFileTree`: one node per kept entry, pushed in listing order, folders
   * filled by a recursive call, then sorted; a directory that cannot be read gives [].
   */
  method GetFileTree(dir: Dir, dirPath: string) returns (nodes: seq<FileNode>)
    ensures nodes == Tree(dir, dirPath)
    decreases dir
  {
    if dir.Unreadable? {
      return [];
    }
    var entries := dir.entries;
    var pushed: seq<FileNode> := [];
    var i := 0;
    while i < |entries|
      invariant 0 <= i <= |entries|
      invariant pushed == Built(dir, i, dirPath)
    {
      var entry := entries[i];
      if !Hidden(entry.name) {
        var relativePath := RelativePath(dirPath, entry.name);
        var node: FileNode;
        if entry.kind.Folder? {
          assert entry in dir.entries;
          var children := GetFileTree(entry.kind.contents, relativePath);
          node := FileNode(relativePath, entry.name, true, relativePath, Some(children));
        } else {
          node := FileNode(relativePath, entry.name, false, relativePath, None);
        }
        assert node == NodeOf(dir, entry, dirPath);
        pushed := pushed + [node];
      }
      i := i + 1;
    }
    nodes := SortNodes(pushed);
  }

  /** The entries a listing keeps, in listing order. */
  function Kept(entries: seq<Entry>): (r: seq<Entry>)
    ensures |r| <= |entries|
  {
    if entries == [] then []
    else Kept(entries[..|entries| - 1]) + (if Hidden(entries[|entries| - 1].name) then [] else [entries[|entries| - 1]])
  }

  /** The node a kept entry becomes, its children aside. */
  predicate Describes(node: FileNode, entry: Entry, dirPath: string) {
    && node.name == entry.name
    && node.id == RelativePath(dirPath, entry.name)
    && node.path == node.id
    && node.isFolder == entry.kind.Folder?
    && node.children.Some? == entry.kind.Folder?
  }

  lemma {:induction false} BuiltDescribesKept(dir: Dir, n: nat, dirPath: string)
    requires dir.Listed? && n <= |dir.entries|
    ensures |Built(dir, n, dirPath)| == |Kept(dir.entries[..n])|
    ensures forall i :: 0 <= i < |Built(dir, n, dirPath)| ==>
      Describes(Built(dir, n, dirPath)[i], Kept(dir.entries[..n])[i], dirPath)
  {
    if n > 0 {
      BuiltDescribesKept(dir, n - 1, dirPath);
      assert dir.entries[..n][..n - 1] == dir.entries[..n - 1];
    }
  }

  lemma {:induction false} KeptNotHidden(entries: seq<Entry>)
    ensures forall i :: 0 <= i < |Kept(entries)| ==> !Hidden(Kept(entries)[i].name)
    ensures forall e :: e in entries && !Hidden(e.name) ==> e in Kept(entries)
  {
    if entries != [] {
      KeptNotHidden(entries[..|entries| - 1]);
      assert entries == entries[..|entries| - 1] + [entries[|entries| - 1]];
    }
  }

  /**
   * The tree of a readable directory: sorted folders first and by name, and a
   * permutation of the nodes of the kept entries, each with id and path equal to
   * `join(dirPath, name)` and children exactly when it is a folder; no hidden entry
   * appears and every entry that is not hidden does.
   */
  lemma TreeOfListing(entries: seq<Entry>, dirPath: string)
    ensures var nodes := Tree(Listed(entries), dirPath);
      var pushed := Built(Listed(entries), |entries|, dirPath);
      && Sorted(nodes)
      && multiset(nodes) == multiset(pushed)
      && |pushed| == |Kept(entries)|
      && (forall i :: 0 <= i < |pushed| ==> Describes(pushed[i], Kept(entries)[i], dirPath))
      && (forall i :: 0 <= i < |Kept(entries)| ==> !Hidden(Kept(entries)[i].name))
      && (forall e :: e in entries && !Hidden(e.name) ==> e in Kept(entries))
  {
    var dir := Listed(entries);
    SortNodesCorrect(Built(dir, |entries|, dirPath));
    BuiltDescribesKept(dir, |entries|, dirPath);
    assert entries[..|entries|] == entries;
    KeptNotHidden(entries);
  }

  /** A directory that cannot be read gives the empty list. */
  lemma UnreadableIsEmpty(dirPath: string)
    ensures Tree(Unreadable, dirPath) == []
  {
  }

  /** No node of the returned list has a hidden name. */
  lemma {:induction false} NoHiddenNode(dir: Dir, dirPath: string, node: FileNode)
    requires node in Tree(dir, dirPath)
    ensures !Hidden(node.name)
    decreases dir
  {
    var entries := dir.entries;
    TreeOfListing(entries, dirPath);
    var pushed := Built(dir, |entries|, dirPath);
    assert node in multiset(pushed);
    var i :| 0 <= i < |pushed| && pushed[i] == node;
  }
}
