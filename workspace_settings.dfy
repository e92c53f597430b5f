/** The settings of crates/workspace/src/settings.rs: a workspace's recent files, open
    tabs and expanded directories, and the global list of recent workspaces. Both recent
    lists are most-recent-first, without repeats, and capped. */
module Settings {
  import opened Wrappers
  import opened RustPath

  const RECENT_FILES_CAP: nat := 20
  const RECENT_WORKSPACES_CAP: nat := 10

  /** `Vec::retain(|q| q != p)`: the entries other than `p`, in order. */
  function Remove(xs: seq<Path>, p: Path): (r: seq<Path>)
    ensures |r| <= |xs|
    ensures forall q :: q in r <==> q in xs && q != p
  {
    if xs == [] then []
    else
      var init := Remove(xs[..|xs| - 1], p);
      if xs[|xs| - 1] == p then init else init + [xs[|xs| - 1]]
  }

  /** `a` is `b` with some entries left out, the rest in their order. */
  predicate Subsequence(a: seq<Path>, b: seq<Path>)
    decreases |b|
  {
    if a == [] then true
    else if b == [] then false
    else if a[|a| - 1] == b[|b| - 1] then Subsequence(a[..|a| - 1], b[..|b| - 1])
    else Subsequence(a, b[..|b| - 1])
  }

  /** A subsequence stays one when its last entry is dropped. */
  lemma {:induction false} SubsequenceDropLast(a: seq<Path>, b: seq<Path>)
    requires a != [] && Subsequence(a, b)
    ensures Subsequence(a[..|a| - 1], b)
    decreases |b|, 1
  {
    var a' := a[..|a| - 1];
    if a[|a| - 1] == b[|b| - 1] {
      SubsequenceExtend(a', b[..|b| - 1], b[|b| - 1]);
      assert b[..|b| - 1] + [b[|b| - 1]] == b;
    } else {
      SubsequenceDropLast(a, b[..|b| - 1]);
      SubsequenceExtend(a', b[..|b| - 1], b[|b| - 1]);
      assert b[..|b| - 1] + [b[|b| - 1]] == b;
    }
  }

  /** A subsequence of `b` is one of `b` with an entry added at the end. */
  lemma {:induction false} SubsequenceExtend(a: seq<Path>, b: seq<Path>, y: Path)
    requires Subsequence(a, b)
    ensures Subsequence(a, b + [y])
    decreases |b|, 2
  {
    assert (b + [y])[..|b|] == b;
    if a != [] && a[|a| - 1] == y {
      SubsequenceDropLast(a, b);
    }
  }

  /** `retain` keeps the order of what it keeps. */
  lemma {:induction false} RemoveKeepsOrder(xs: seq<Path>, p: Path)
    ensures Subsequence(Remove(xs, p), xs)
  {
    if xs != [] {
      var init := xs[..|xs| - 1];
      RemoveKeepsOrder(init, p);
      if xs[|xs| - 1] == p {
        SubsequenceExtend(Remove(init, p), init, p);
        assert init + [p] == xs;
      } else {
        var r := Remove(xs, p);
        assert r[..|r| - 1] == Remove(init, p);
      }
    }
  }

  /** The list after `p` is used: `p` moved (or put) in front, the list cut at `cap`. */
  function AddRecent(list: seq<Path>, p: Path, cap: nat): seq<Path>
  {
    var l := [p] + Remove(list, p);
    if |l| > cap then l[..cap] else l
  }

  /** The list is at most `cap` long; with a nonzero cap, `p` comes first and occurs
      once, and after it come the other entries, the most recent ones first, in their old
      order. */
  lemma AddRecentProperties(list: seq<Path>, p: Path, cap: nat)
    ensures |AddRecent(list, p, cap)| == if 1 + |Remove(list, p)| > cap then cap else 1 + |Remove(list, p)|
    ensures cap > 0 ==>
      (AddRecent(list, p, cap)[0] == p && p !in AddRecent(list, p, cap)[1..] &&
       AddRecent(list, p, cap)[1..] == Remove(list, p)[..|AddRecent(list, p, cap)| - 1])
    ensures Subsequence(Remove(list, p), list)
  {
    RemoveKeepsOrder(list, p);
    var r := AddRecent(list, p, cap);
    var l := [p] + Remove(list, p);
    if cap > 0 {
      assert r == l[..|r|];
      assert r[1..] == l[1..|r|];
      assert l[1..] == Remove(list, p);
    }
  }

  /** Without repeats before, none after. */
  lemma AddRecentNoRepeats(list: seq<Path>, p: Path, cap: nat)
    requires NoRepeats(list)
    ensures NoRepeats(AddRecent(list, p, cap))
  {
    RemoveNoRepeats(list, p);
    var rest := Remove(list, p);
    var l := [p] + rest;
    forall i, j | 0 <= i < j < |l| ensures l[i] != l[j] {
      assert l[j] == rest[j - 1] && rest[j - 1] in rest;
      if i > 0 { assert l[i] == rest[i - 1]; }
    }
  }

  predicate NoRepeats(xs: seq<Path>)
  {
    forall i, j :: 0 <= i < j < |xs| ==> xs[i] != xs[j]
  }

  lemma {:induction false} RemoveNoRepeats(xs: seq<Path>, p: Path)
    requires NoRepeats(xs)
    ensures NoRepeats(Remove(xs, p))
  {
    if xs != [] {
      var init := xs[..|xs| - 1];
      RemoveNoRepeats(init, p);
      assert xs[|xs| - 1] !in init;
    }
  }

  /** `test_recent_files`: a, b, a leaves two entries, a first. */
  lemma RecentFilesExample(a: Path, b: Path)
    requires a != b
    ensures AddRecent(AddRecent(AddRecent([], a, RECENT_FILES_CAP), b, RECENT_FILES_CAP), a, RECENT_FILES_CAP) == [a, b]
  {
    assert Remove([], a) == [];
    assert AddRecent([], a, RECENT_FILES_CAP) == [a];
    assert Remove([a], b) == [a] by { assert [a][..0] == []; }
    assert AddRecent([a], b, RECENT_FILES_CAP) == [b, a];
    assert Remove([b, a], a) == [b] by { assert [b, a][..1] == [b]; assert [b][..0] == []; }
  }

  /** `retain`, `insert(0, ..)` and `truncate` on a recent list. */
  method AddRecentTo(list: seq<Path>, p: Path, cap: nat) returns (r: seq<Path>)
    ensures r == AddRecent(list, p, cap)
  {
    r := [];
    for i := 0 to |list|
      invariant r == Remove(list[..i], p)
    {
      assert list[..i + 1][..i] == list[..i];
      if list[i] != p {
        r := r + [list[i]];
      }
    }
    assert list[..|list|] == list;
    r := [p] + r;
    if |r| > cap {
      r := r[..cap];
    }
  }

  class WorkspaceSettings {
    var root: Path
    var recentFiles: seq<Path>
    var lastOpenTabs: seq<Path>
    var activeTabIndex: Option<nat>
    var expandedDirs: seq<Path>

    /** `WorkspaceSettings::new`: the root and nothing else. */
    constructor(root: Path)
      ensures this.root == root && recentFiles == [] && lastOpenTabs == []
      ensures activeTabIndex == Option.None && expandedDirs == []
    {
      this.root := root;
      recentFiles := [];
      lastOpenTabs := [];
      activeTabIndex := Option.None;
      expandedDirs := [];
    }

    /** `add_recent_file`: `path` moved to the front, at most 20 entries kept. */
    method AddRecentFile(path: Path)
      modifies this
      ensures recentFiles == AddRecent(old(recentFiles), path, RECENT_FILES_CAP)
      ensures root == old(root) && lastOpenTabs == old(lastOpenTabs)
      ensures activeTabIndex == old(activeTabIndex) && expandedDirs == old(expandedDirs)
    {
      recentFiles := AddRecentTo(recentFiles, path, RECENT_FILES_CAP);
    }

    /** `set_open_tabs`: the tabs and the active index, nothing else. */
    method SetOpenTabs(tabs: seq<Path>, active: Option<nat>)
      modifies this
      ensures lastOpenTabs == tabs && activeTabIndex == active
      ensures root == old(root) && recentFiles == old(recentFiles) && expandedDirs == old(expandedDirs)
    {
      lastOpenTabs := tabs;
      activeTabIndex := active;
    }

    /** `set_expanded_dirs`: the expanded directories, nothing else. */
    method SetExpandedDirs(dirs: seq<Path>)
      modifies this
      ensures expandedDirs == dirs
      ensures root == old(root) && recentFiles == old(recentFiles)
      ensures lastOpenTabs == old(lastOpenTabs) && activeTabIndex == old(activeTabIndex)
    {
      expandedDirs := dirs;
    }
  }

  class GlobalSettings {
    var recentWorkspaces: seq<Path>

    /** `GlobalSettings::default`: no recent workspace. */
    constructor()
      ensures recentWorkspaces == []
    {
      recentWorkspaces := [];
    }

    /** `add_recent_workspace`: `root` moved to the front, at most 10 entries kept. */
    method AddRecentWorkspace(root: Path)
      modifies this
      ensures recentWorkspaces == AddRecent(old(recentWorkspaces), root, RECENT_WORKSPACES_CAP)
    {
      recentWorkspaces := AddRecentTo(recentWorkspaces, root, RECENT_WORKSPACES_CAP);
    }
  }
}
