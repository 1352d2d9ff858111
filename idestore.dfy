/**
 * The editor part of the IDE store (frontend/src/store/ide-store.ts): the list of
 * open tabs, the active file and its buffer, the set of unsaved files and the two
 * layout toggles. Each action replaces some fields with values computed from the
 * old ones; the pure functions below compute those values.
 */
module IdeStore {
  import opened Results

  predicate NoDuplicates(s: seq<string>) {
    forall i, j :: 0 <= i < j < |s| ==> s[i] != s[j]
  }

  /** `openFiles.includes(f) ? openFiles : [...openFiles, f]`. */
  function Opened(files: seq<string>, f: string): (r: seq<string>)
    ensures f in r
    ensures forall x :: x in r <==> x in files || x == f
    ensures f in files ==> r == files
    ensures f !in files ==> |r| == |files| + 1 && r[..|files|] == files
  {
    if f in files then files else files + [f]
  }

  /** `openFiles.filter(id => id !== f)`. */
  function Without(files: seq<string>, f: string): (r: seq<string>)
    ensures f !in r
    ensures forall x :: x in r <==> x in files && x != f
    ensures |r| <= |files|
  {
    if files == [] then []
    else if files[|files| - 1] == f then Without(files[..|files| - 1], f)
    else Without(files[..|files| - 1], f) + [files[|files| - 1]]
  }

  /** The active file after `closeFile(f)`: the last remaining tab when the active one closes. */
  function NextActive(active: Option<string>, remaining: seq<string>, f: string): (r: Option<string>)
    ensures active != Some(f) ==> r == active
    ensures active == Some(f) && remaining == [] ==> r == None
    ensures active == Some(f) && remaining != [] ==> r == Some(remaining[|remaining| - 1])
  {
    if active == Some(f) then
      if |remaining| > 0 then Some(remaining[|remaining| - 1]) else None
    else active
  }

  /** JavaScript truthiness of `activeFile`: null and the empty string are falsy. */
  predicate Truthy(active: Option<string>) {
    active.Some? && active.value != ""
  }

  /** The tab list never holds a file twice once it is opened through `openFile`. */
  lemma OpenedNoDuplicates(files: seq<string>, f: string)
    requires NoDuplicates(files)
    ensures NoDuplicates(Opened(files, f))
  {
  }

  lemma {:induction false} WithoutNoDuplicates(files: seq<string>, f: string)
    requires NoDuplicates(files)
    ensures NoDuplicates(Without(files, f))
  {
    if files != [] {
      var init := files[..|files| - 1];
      var last := files[|files| - 1];
      assert NoDuplicates(init) by {
        forall i, j | 0 <= i < j < |init| ensures init[i] != init[j] {
          assert init[i] == files[i] && init[j] == files[j];
        }
      }
      assert last !in init by {
        forall k | 0 <= k < |init| ensures init[k] != last {
          assert init[k] == files[k];
        }
      }
      WithoutNoDuplicates(init, f);
    }
  }

  /** Filtering a list in which `f` does not occur changes nothing. */
  lemma {:induction false} WithoutAbsent(files: seq<string>, f: string)
    requires f !in files
    ensures Without(files, f) == files
  {
    if files != [] {
      assert files[|files| - 1] in files;
      WithoutAbsent(files[..|files| - 1], f);
    }
  }

  lemma {:induction false} WithoutAppend(a: seq<string>, b: seq<string>, f: string)
    ensures Without(a + b, f) == Without(a, f) + Without(b, f)
    decreases |b|
  {
    if b == [] {
      assert a + b == a;
    } else {
      var b' := b[..|b| - 1];
      assert (a + b)[..|a + b| - 1] == a + b';
      WithoutAppend(a, b', f);
    }
  }

  /**
   * `closeFile` keeps the other tabs in their order: in a list without duplicates,
   * filtering `f` out splices out its one position.
   */
  lemma ClosedSplice(files: seq<string>, i: nat)
    requires NoDuplicates(files) && i < |files|
    ensures Without(files, files[i]) == files[..i] + files[i + 1..]
  {
    var f := files[i];
    assert files == files[..i] + [f] + files[i + 1..];
    WithoutAppend(files[..i] + [f], files[i + 1..], f);
    WithoutAppend(files[..i], [f], f);
    assert Without([f], f) == [] by {
      assert [f][..0] == [];
    }
    WithoutAbsent(files[..i], f);
    assert f !in files[i + 1..] by {
      forall k | i + 1 <= k < |files| ensures files[k] != f {
      }
    }
    WithoutAbsent(files[i + 1..], f);
  }

  /** Closing a freshly opened tab gives back the tabs there were before. */
  lemma CloseUndoesOpen(files: seq<string>, f: string)
    requires f !in files
    ensures Without(Opened(files, f), f) == files
  {
    WithoutAppend(files, [f], f);
    assert [f][..0] == [];
    WithoutAbsent(files, f);
  }

  /** Closing a tab keeps the active file among the open ones, if it was. */
  lemma CloseKeepsActiveOpen(files: seq<string>, active: Option<string>, f: string)
    ensures active == None || active.value in files ==>
      var rest := Without(files, f);
      var next := NextActive(active, rest, f);
      next == None || next.value in rest
  {
    var rest := Without(files, f);
    if active == Some(f) && rest != [] {
      assert rest[|rest| - 1] in rest;
    }
  }

  /** The store, as `useIdeStore` creates it. */
  class Store {
    var openFiles: seq<string>
    var activeFile: Option<string>
    var activeFileContent: string
    var activeFileLanguage: string
    var unsavedFiles: set<string>
    var isTerminalOpen: bool
    var isSidebarOpen: bool

    /** What `openFile` and `closeFile` preserve: no tab twice. */
    ghost predicate Valid()
      reads this
    {
      NoDuplicates(openFiles)
    }

    /** The active file, when there is one, is an open tab. `setActiveFile` can break this. */
    ghost predicate ActiveIsOpen()
      reads this
    {
      activeFile == None || activeFile.value in openFiles
    }

    constructor()
      ensures Valid() && ActiveIsOpen()
      ensures openFiles == [] && activeFile == None && activeFileContent == ""
      ensures activeFileLanguage == "plaintext" && unsavedFiles == {}
      ensures isTerminalOpen && isSidebarOpen
    {
      openFiles := [];
      activeFile := None;
      activeFileContent := "";
      activeFileLanguage := "plaintext";
      unsavedFiles := {};
      isTerminalOpen := true;
      isSidebarOpen := true;
    }

    /** `openFile`: append the tab when absent; the file becomes active either way. */
    method OpenFile(f: string)
      requires Valid()
      modifies this
      ensures Valid() && ActiveIsOpen()
      ensures openFiles == Opened(old(openFiles), f) && activeFile == Some(f)
      ensures activeFileContent == old(activeFileContent) && activeFileLanguage == old(activeFileLanguage)
      ensures unsavedFiles == old(unsavedFiles)
      ensures isTerminalOpen == old(isTerminalOpen) && isSidebarOpen == old(isSidebarOpen)
    {
      OpenedNoDuplicates(openFiles, f);
      if f !in openFiles {
        openFiles := openFiles + [f];
      }
      activeFile := Some(f);
    }

    /** `closeFile`: drop the tab; closing the active one activates the last tab left, or none. */
    method CloseFile(f: string)
      requires Valid()
      modifies this
      ensures Valid()
      ensures old(ActiveIsOpen()) ==> ActiveIsOpen()
      ensures openFiles == Without(old(openFiles), f)
      ensures activeFile == NextActive(old(activeFile), openFiles, f)
      ensures activeFileContent == old(activeFileContent) && activeFileLanguage == old(activeFileLanguage)
      ensures unsavedFiles == old(unsavedFiles)
      ensures isTerminalOpen == old(isTerminalOpen) && isSidebarOpen == old(isSidebarOpen)
    {
      WithoutNoDuplicates(openFiles, f);
      CloseKeepsActiveOpen(openFiles, activeFile, f);
      var remaining := Without(openFiles, f);
      var next := activeFile;
      if activeFile == Some(f) {
        next := if |remaining| > 0 then Some(remaining[|remaining| - 1]) else None;
      }
      openFiles := remaining;
      activeFile := next;
    }

    /** `setActiveFile`: only the active file changes; the tab list is not touched. */
    method SetActiveFile(f: string)
      modifies this
      ensures activeFile == Some(f)
      ensures openFiles == old(openFiles) && unsavedFiles == old(unsavedFiles)
      ensures activeFileContent == old(activeFileContent) && activeFileLanguage == old(activeFileLanguage)
      ensures isTerminalOpen == old(isTerminalOpen) && isSidebarOpen == old(isSidebarOpen)
    {
      activeFile := Some(f);
    }

    /** `setActiveFileContent`: new buffer text; a (truthy) active file becomes unsaved. */
    method SetActiveFileContent(content: string)
      modifies this
      ensures activeFileContent == content
      ensures unsavedFiles == if Truthy(old(activeFile)) then old(unsavedFiles) + {old(activeFile).value} else old(unsavedFiles)
      ensures openFiles == old(openFiles) && activeFile == old(activeFile)
      ensures activeFileLanguage == old(activeFileLanguage)
      ensures isTerminalOpen == old(isTerminalOpen) && isSidebarOpen == old(isSidebarOpen)
    {
      if Truthy(activeFile) {
        unsavedFiles := unsavedFiles + {activeFile.value};
      }
      activeFileContent := content;
    }

    /** `markUnsaved(f, unsaved)`: add or remove exactly `f`. */
    method MarkUnsaved(f: string, unsaved: bool)
      modifies this
      ensures unsavedFiles == if unsaved then old(unsavedFiles) + {f} else old(unsavedFiles) - {f}
      ensures forall g :: g != f ==> (g in unsavedFiles <==> g in old(unsavedFiles))
      ensures openFiles == old(openFiles) && activeFile == old(activeFile)
      ensures activeFileContent == old(activeFileContent) && activeFileLanguage == old(activeFileLanguage)
      ensures isTerminalOpen == old(isTerminalOpen) && isSidebarOpen == old(isSidebarOpen)
    {
      if unsaved {
        unsavedFiles := unsavedFiles + {f};
      } else {
        unsavedFiles := unsavedFiles - {f};
      }
    }

    /**
     * `saveActiveFile`: with a truthy active file, send its path and the buffer to the
     * write endpoint (`request`); `writeOk` is whether the response reported success.
     */
    method SaveActiveFile(writeOk: bool) returns (request: Option<(string, string)>)
      modifies this
      ensures !Truthy(old(activeFile)) ==> request == None && unsavedFiles == old(unsavedFiles)
      ensures Truthy(old(activeFile)) ==> request == Some((old(activeFile).value, old(activeFileContent)))
      ensures unsavedFiles == if Truthy(old(activeFile)) && writeOk then old(unsavedFiles) - {old(activeFile).value} else old(unsavedFiles)
      ensures openFiles == old(openFiles) && activeFile == old(activeFile)
      ensures activeFileContent == old(activeFileContent) && activeFileLanguage == old(activeFileLanguage)
      ensures isTerminalOpen == old(isTerminalOpen) && isSidebarOpen == old(isSidebarOpen)
    {
      if !Truthy(activeFile) {
        return None;
      }
      request := Some((activeFile.value, activeFileContent));
      if writeOk {
        unsavedFiles := unsavedFiles - {activeFile.value};
      }
    }

    method ToggleTerminal()
      modifies this
      ensures isTerminalOpen == !old(isTerminalOpen)
      ensures openFiles == old(openFiles) && activeFile == old(activeFile) && unsavedFiles == old(unsavedFiles)
      ensures activeFileContent == old(activeFileContent) && activeFileLanguage == old(activeFileLanguage)
      ensures isSidebarOpen == old(isSidebarOpen)
    {
      isTerminalOpen := !isTerminalOpen;
    }

    method ToggleSidebar()
      modifies this
      ensures isSidebarOpen == !old(isSidebarOpen)
      ensures openFiles == old(openFiles) && activeFile == old(activeFile) && unsavedFiles == old(unsavedFiles)
      ensures activeFileContent == old(activeFileContent) && activeFileLanguage == old(activeFileLanguage)
      ensures isTerminalOpen == old(isTerminalOpen)
    {
      isSidebarOpen := !isSidebarOpen;
    }
  }

  /** Toggling the terminal or the sidebar twice restores the store. */
  method TogglesAreInvolutions(s: Store)
    modifies s
    ensures s.isTerminalOpen == old(s.isTerminalOpen) && s.isSidebarOpen == old(s.isSidebarOpen)
    ensures s.openFiles == old(s.openFiles) && s.activeFile == old(s.activeFile)
    ensures s.unsavedFiles == old(s.unsavedFiles) && s.activeFileContent == old(s.activeFileContent)
  {
    s.ToggleTerminal();
    s.ToggleTerminal();
    s.ToggleSidebar();
    s.ToggleSidebar();
  }

  /** `setActiveFile` on a file that is not open leaves an active file with no tab. */
  method ActiveWithoutTab() returns (s: Store)
    ensures s.activeFile == Some("main.ts") && s.openFiles == []
    ensures !s.ActiveIsOpen()
  {
    s := new Store();
    s.SetActiveFile("main.ts");
  }

  /** Edits after a successful save mark the file unsaved again; the save cleared it. */
  method EditSaveEdit(s: Store, f: string, first: string, second: string) returns (afterSave: bool, afterEdit: bool)
    requires s.Valid() && f != ""
    modifies s
    ensures !afterSave && afterEdit
  {
    s.OpenFile(f);
    s.SetActiveFileContent(first);
    var request := s.SaveActiveFile(true);
    afterSave := f in s.unsavedFiles;
    s.SetActiveFileContent(second);
    afterEdit := f in s.unsavedFiles;
  }
}
