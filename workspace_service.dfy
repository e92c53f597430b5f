/** The workspace service of crates/workspace/src/lib.rs: it inserts walked paths into a
    file tree, toggles the expansion of directories, keeps the settings' list of expanded
    directories in step with the tree, and hands the explorer its flattened view. What
    the file system says (whether a path is a directory) is passed in. */
module Workspace {
  import opened Wrappers
  import opened RustPath
  import opened FileTree
  import opened Settings

  // ----- inserting a path -----

  /** `children.iter().position(|c| c.name == name)`: the index of the first child named
      `name`, or `|cs|`. */
  function ChildNamed(cs: seq<TreeNode>, name: seq<char>): (k: nat)
    ensures k <= |cs|
    ensures k < |cs| ==> cs[k].name == name
    ensures forall j :: 0 <= j < k ==> cs[j].name != name
  {
    if cs == [] then 0 else if cs[0].name == name then 0 else 1 + ChildNamed(cs[1..], name)
  }

  /** The node `insert_path` makes for a component that is missing: a directory or a file
      at `full`. */
  function NewNode(full: Path, isDir: bool): (n: TreeNode)
    ensures n.path == full && n.children == [] && !n.expanded
    ensures n.kind == if isDir then Directory else File
    ensures full != [] ==> n.name == full[|full| - 1]
  {
    if isDir then DirectoryNode(full) else FileNode(full)
  }

  /** The walk of `insert_path` from `cur`, with `prefix` the workspace root joined with
      the components walked so far and `rest` the components still to walk: descend into
      the first child with the next name, or push a new node and descend into it. Only the
      last component's node asks `lastIsDir`; the others are directories. */
  function InsertComponents(cur: TreeNode, prefix: Path, rest: seq<seq<char>>, lastIsDir: bool): (r: TreeNode)
    ensures r.(children := cur.children) == cur
    decreases |rest|
  {
    if rest == [] then cur
    else
      var full := prefix + [rest[0]];
      var k := ChildNamed(cur.children, rest[0]);
      if k < |cur.children| then
        cur.(children := cur.children[k := InsertComponents(cur.children[k], full, rest[1..], lastIsDir)])
      else
        var isDir := if |rest| == 1 then lastIsDir else true;
        cur.(children := cur.children + [InsertComponents(NewNode(full, isDir), full, rest[1..], lastIsDir)])
  }

  /** `insert_path(root_node, path)` in a workspace rooted at `wsRoot`, where `isDir` is
      what the file system says of `path`: a path not under the root changes nothing, and
      the root itself has no components to walk. */
  function InsertedPath(wsRoot: Path, node: TreeNode, path: Path, isDir: bool): (r: TreeNode)
    ensures StripPrefix(path, wsRoot).None? ==> r == node
    ensures path == wsRoot ==> r == node
    ensures r.(children := node.children) == node
  {
    match StripPrefix(path, wsRoot)
    case None => node
    case Some(relative) => InsertComponents(node, wsRoot, relative, isDir)
  }

  /** A step of the walk: the node left behind and the child index taken (its number of
      children when a new child was pushed). */
  datatype Frame = Frame(parent: TreeNode, index: nat)

  /** The parent of a frame with `x` put back in the place the walk left. */
  function Plug(f: Frame, x: TreeNode): TreeNode
  {
    if f.index < |f.parent.children| then f.parent.(children := f.parent.children[f.index := x])
    else f.parent.(children := f.parent.children + [x])
  }

  /** The whole tree from the frames walked, innermost last, and the node reached. */
  function Rebuild(stack: seq<Frame>, x: TreeNode): TreeNode
    decreases |stack|
  {
    if stack == [] then x else Rebuild(stack[..|stack| - 1], Plug(stack[|stack| - 1], x))
  }

  lemma RebuildPush(stack: seq<Frame>, f: Frame, x: TreeNode)
    ensures Rebuild(stack + [f], x) == Rebuild(stack, Plug(f, x))
  {
    assert (stack + [f])[..|stack|] == stack;
  }

  /** `insert_path`: walk down the components, then put the changed nodes back in place
      from the innermost out (the mutable `current` reference of the source). */
  method InsertPath(wsRoot: Path, node: TreeNode, path: Path, isDir: bool) returns (r: TreeNode)
    ensures r == InsertedPath(wsRoot, node, path, isDir)
  {
    var relative: Path;
    match StripPrefix(path, wsRoot) {
      case None => return node;
      case Some(rel) => relative := rel;
    }
    var stack: seq<Frame> := [];
    var current := node;
    var prefix := wsRoot;
    var i := 0;
    while i < |relative|
      invariant 0 <= i <= |relative|
      invariant Rebuild(stack, InsertComponents(current, prefix, relative[i..], isDir)) ==
                InsertComponents(node, wsRoot, relative, isDir)
      decreases |relative| - i
    {
      var name := relative[i];
      var fullPath := prefix + [name];
      var nodeIsDir := if i == |relative| - 1 then isDir else true;
      var k := ChildNamed(current.children, name);
      var rest := relative[i..];
      assert rest[0] == name && rest[1..] == relative[i + 1..];
      RebuildPush(stack, Frame(current, k), InsertComponents(
        if k < |current.children| then current.children[k] else NewNode(fullPath, nodeIsDir),
        fullPath, relative[i + 1..], isDir));
      stack := stack + [Frame(current, k)];
      if k < |current.children| {
        current := current.children[k];
      } else {
        current := NewNode(fullPath, nodeIsDir);
      }
      prefix := fullPath;
      i := i + 1;
    }
    assert relative[i..] == [];
    r := current;
    while stack != []
      invariant Rebuild(stack, r) == InsertComponents(node, wsRoot, relative, isDir)
      decreases |stack|
    {
      r := Plug(stack[|stack| - 1], r);
      stack := stack[..|stack| - 1];
    }
  }

  /** A first child with a name keeps being the first after the slot is refilled by a
      node of the same name or one more child is pushed. */
  lemma ChildNamedUpdate(cs: seq<TreeNode>, name: seq<char>, x: TreeNode)
    requires ChildNamed(cs, name) < |cs| && x.name == name
    ensures ChildNamed(cs[ChildNamed(cs, name) := x], name) == ChildNamed(cs, name)
  {
    var k := ChildNamed(cs, name);
    var cs' := cs[k := x];
    ChildNamedIs(cs', name, k);
  }

  lemma ChildNamedPush(cs: seq<TreeNode>, name: seq<char>, x: TreeNode)
    requires ChildNamed(cs, name) == |cs| && x.name == name
    ensures ChildNamed(cs + [x], name) == |cs|
  {
    ChildNamedIs(cs + [x], name, |cs|);
  }

  /** The first child named `name` is at `k` when `k` has the name and no child before
      it has. */
  lemma {:induction false} ChildNamedIs(cs: seq<TreeNode>, name: seq<char>, k: nat)
    requires k < |cs| && cs[k].name == name
    requires forall j :: 0 <= j < k ==> cs[j].name != name
    ensures ChildNamed(cs, name) == k
    decreases k
  {
    if k > 0 {
      ChildNamedIs(cs[1..], name, k - 1);
    }
  }

  /** Inserting a path a second time changes nothing: the walk finds every component
      already there, so no duplicate child is added. */
  lemma {:induction false} InsertComponentsIdempotent(cur: TreeNode, prefix: Path, rest: seq<seq<char>>, d: bool)
    ensures InsertComponents(InsertComponents(cur, prefix, rest, d), prefix, rest, d) == InsertComponents(cur, prefix, rest, d)
    decreases |rest|
  {
    if rest != [] {
      var full := prefix + [rest[0]];
      var cs := cur.children;
      var k := ChildNamed(cs, rest[0]);
      var r := InsertComponents(cur, prefix, rest, d);
      if k < |cs| {
        var c' := InsertComponents(cs[k], full, rest[1..], d);
        InsertComponentsIdempotent(cs[k], full, rest[1..], d);
        assert c'.name == cs[k].name;
        ChildNamedUpdate(cs, rest[0], c');
        assert r.children == cs[k := c'];
        assert r.children[k := InsertComponents(c', full, rest[1..], d)] == r.children;
      } else {
        var isDir := if |rest| == 1 then d else true;
        var c' := InsertComponents(NewNode(full, isDir), full, rest[1..], d);
        InsertComponentsIdempotent(NewNode(full, isDir), full, rest[1..], d);
        assert c'.name == rest[0];
        ChildNamedPush(cs, rest[0], c');
        assert r.children == cs + [c'];
        assert r.children[|cs| := InsertComponents(c', full, rest[1..], d)] == r.children;
      }
    }
  }

  lemma InsertIdempotent(wsRoot: Path, node: TreeNode, path: Path, isDir: bool)
    ensures InsertedPath(wsRoot, InsertedPath(wsRoot, node, path, isDir), path, isDir) ==
            InsertedPath(wsRoot, node, path, isDir)
  {
    match StripPrefix(path, wsRoot)
    case None =>
    case Some(relative) => InsertComponentsIdempotent(node, wsRoot, relative, isDir);
  }

  /** The nodes a path not yet in the tree adds: one per component, from `prefix` joined
      with the first on. */
  function Chain(prefix: Path, rest: seq<seq<char>>, lastIsDir: bool): (c: TreeNode)
    requires rest != []
    ensures Count(c) == |rest|
    decreases |rest|
  {
    var full := prefix + [rest[0]];
    if |rest| == 1 then NewNode(full, lastIsDir)
    else
      var child := Chain(full, rest[1..], lastIsDir);
      assert CountAll([child]) == Count(child) + CountAll([]);
      NewNode(full, true).(children := [child])
  }

  /** When no child has the first name, the walk pushes the chain of new nodes. */
  lemma {:induction false} FreshComponents(cur: TreeNode, prefix: Path, rest: seq<seq<char>>, d: bool)
    requires rest != [] && ChildNamed(cur.children, rest[0]) == |cur.children|
    ensures InsertComponents(cur, prefix, rest, d) == cur.(children := cur.children + [Chain(prefix, rest, d)])
    decreases |rest|
  {
    var full := prefix + [rest[0]];
    if |rest| > 1 {
      var n := NewNode(full, true);
      FreshComponents(n, full, rest[1..], d);
      assert n.children + [Chain(full, rest[1..], d)] == [Chain(full, rest[1..], d)];
    }
  }

  /** The chain has one node per component, in order: the `i`-th at the prefix joined
      with the first `i + 1` components, collapsed, and a directory except the last, whose
      kind is what `lastIsDir` says. */
  lemma {:induction false} ChainShape(prefix: Path, rest: seq<seq<char>>, lastIsDir: bool)
    requires rest != []
    ensures forall i :: 0 <= i < |rest| ==> ChainNodeAt(Nodes(Chain(prefix, rest, lastIsDir)), prefix, rest, lastIsDir, i)
    decreases |rest|
  {
    var full := prefix + [rest[0]];
    var c := Chain(prefix, rest, lastIsDir);
    if |rest| > 1 {
      ChainShape(full, rest[1..], lastIsDir);
      var child := Chain(full, rest[1..], lastIsDir);
      assert Nodes(c) == [c] + Nodes(child) by {
        assert NodesAll([child]) == Nodes(child) + NodesAll([]);
      }
      forall i | 0 <= i < |rest|
        ensures ChainNodeAt(Nodes(c), prefix, rest, lastIsDir, i)
      {
        if i > 0 {
          assert ChainNodeAt(Nodes(child), full, rest[1..], lastIsDir, i - 1);
          assert full + rest[1..][..i] == prefix + rest[..i + 1];
        }
      }
    } else {
      assert Nodes(c) == [c];
    }
  }

  predicate ChainNodeAt(ns: seq<TreeNode>, prefix: Path, rest: seq<seq<char>>, lastIsDir: bool, i: nat)
    requires i < |rest|
  {
    i < |ns| && ns[i].path == prefix + rest[..i + 1] && !ns[i].expanded &&
    ns[i].kind == (if i == |rest| - 1 && !lastIsDir then File else Directory)
  }

  /** A path under the root whose first component is not yet a child of the root node
      adds the chain of its components, ending at the path itself. */
  lemma FreshPathInserted(wsRoot: Path, node: TreeNode, path: Path, isDir: bool)
    requires StripPrefix(path, wsRoot).Some? && StripPrefix(path, wsRoot).value != []
    requires ChildNamed(node.children, StripPrefix(path, wsRoot).value[0]) == |node.children|
    ensures var relative := StripPrefix(path, wsRoot).value;
      InsertedPath(wsRoot, node, path, isDir) == node.(children := node.children + [Chain(wsRoot, relative, isDir)]) &&
      Nodes(Chain(wsRoot, relative, isDir))[|relative| - 1].path == path
  {
    var relative := StripPrefix(path, wsRoot).value;
    FreshComponents(node, wsRoot, relative, isDir);
    ChainShape(wsRoot, relative, isDir);
    assert ChainNodeAt(Nodes(Chain(wsRoot, relative, isDir)), wsRoot, relative, isDir, |relative| - 1);
    assert relative[..|relative|] == relative;
  }

  /** No two children of any node share a name. */
  predicate DistinctNames(t: TreeNode)
    decreases t
  {
    (forall i, j :: 0 <= i < j < |t.children| ==> t.children[i].name != t.children[j].name) &&
    forall i :: 0 <= i < |t.children| ==> DistinctNames(t.children[i])
  }

  /** Insertion keeps child names distinct. */
  lemma {:induction false} InsertKeepsNamesDistinct(cur: TreeNode, prefix: Path, rest: seq<seq<char>>, d: bool)
    requires DistinctNames(cur)
    ensures DistinctNames(InsertComponents(cur, prefix, rest, d))
    decreases |rest|
  {
    if rest != [] {
      var full := prefix + [rest[0]];
      var cs := cur.children;
      var k := ChildNamed(cs, rest[0]);
      if k < |cs| {
        var c' := InsertComponents(cs[k], full, rest[1..], d);
        InsertKeepsNamesDistinct(cs[k], full, rest[1..], d);
        ReplaceKeepsDistinct(cur, k, c');
      } else {
        var isDir := if |rest| == 1 then d else true;
        var c' := InsertComponents(NewNode(full, isDir), full, rest[1..], d);
        InsertKeepsNamesDistinct(NewNode(full, isDir), full, rest[1..], d);
        PushKeepsDistinct(cur, c');
      }
    }
  }

  lemma ReplaceKeepsDistinct(cur: TreeNode, k: nat, x: TreeNode)
    requires DistinctNames(cur) && k < |cur.children| && x.name == cur.children[k].name && DistinctNames(x)
    ensures DistinctNames(cur.(children := cur.children[k := x]))
  {
  }

  lemma PushKeepsDistinct(cur: TreeNode, x: TreeNode)
    requires DistinctNames(cur) && DistinctNames(x)
    requires forall j :: 0 <= j < |cur.children| ==> cur.children[j].name != x.name
    ensures DistinctNames(cur.(children := cur.children + [x]))
  {
  }

  lemma InsertPathKeepsNamesDistinct(wsRoot: Path, node: TreeNode, path: Path, isDir: bool)
    requires DistinctNames(node)
    ensures DistinctNames(InsertedPath(wsRoot, node, path, isDir))
  {
    match StripPrefix(path, wsRoot)
    case None =>
    case Some(relative) => InsertKeepsNamesDistinct(node, wsRoot, relative, isDir);
  }

  // ----- expanded directories -----

  /** `collect_expanded`: an expanded directory's path, then what each child yields in
      turn; nothing for a file or a collapsed directory. */
  function ExpandedDirs(n: TreeNode): seq<Path>
    decreases n
  {
    if n.kind == Directory && n.expanded then [n.path] + ExpandedDirsAll(n.children) else []
  }

  function ExpandedDirsAll(ts: seq<TreeNode>): seq<Path>
    decreases ts
  {
    if ts == [] then [] else ExpandedDirs(ts[0]) + ExpandedDirsAll(ts[1..])
  }

  lemma {:induction false} ExpandedDirsAllAppend(a: seq<TreeNode>, b: seq<TreeNode>)
    ensures ExpandedDirsAll(a + b) == ExpandedDirsAll(a) + ExpandedDirsAll(b)
    decreases |a|
  {
    if a == [] {
      assert a + b == b;
    } else {
      var c := a + b;
      assert c[0] == a[0] && c[1..] == a[1..] + b;
      ExpandedDirsAllAppend(a[1..], b);
    }
  }

  /** The paths of the expanded directories among some items, in order. */
  function OpenDirs(items: seq<FlatTreeItem>): seq<Path>
  {
    if items == [] then []
    else (if items[0].node.kind == Directory && items[0].node.expanded then [items[0].node.path] else []) + OpenDirs(items[1..])
  }

  lemma {:induction false} OpenDirsAppend(a: seq<FlatTreeItem>, b: seq<FlatTreeItem>)
    ensures OpenDirs(a + b) == OpenDirs(a) + OpenDirs(b)
    decreases |a|
  {
    if a == [] {
      assert a + b == b;
    } else {
      OpenDirsAppend(a[1..], b);
      assert (a + b)[1..] == a[1..] + b;
    }
  }

  /** What `collect_expanded` yields is exactly the expanded directories the explorer
      shows, in the order it shows them: nothing inside a collapsed directory counts. */
  lemma {:induction false} ExpandedAreShown(n: TreeNode, depth: nat)
    ensures ExpandedDirs(n) == OpenDirs(Shown(n, depth))
    decreases n
  {
    var item := FlatTreeItem(n, depth, true);
    if n.kind == Directory && n.expanded {
      OpenDirsAppend([item], ShownAll(n.children, depth + 1));
      ExpandedAllAreShown(n.children, depth + 1);
    } else {
      assert Shown(n, depth) == [item];
    }
  }

  lemma {:induction false} ExpandedAllAreShown(ts: seq<TreeNode>, depth: nat)
    ensures ExpandedDirsAll(ts) == OpenDirs(ShownAll(ts, depth))
    decreases ts
  {
    if ts != [] {
      ExpandedAreShown(ts[0], depth);
      ExpandedAllAreShown(ts[1..], depth);
      OpenDirsAppend(Shown(ts[0], depth), ShownAll(ts[1..], depth));
    }
  }

  /** Hence they are the expanded directories among the visible items of the flattened
      view. */
  lemma ExpandedAreVisible(n: TreeNode)
    ensures ExpandedDirs(n) == OpenDirs(Visible(FlatItems(n, 0, true)))
  {
    ExpandedAreShown(n, 0);
    VisibleIsShown(n, 0);
  }

  /** `collect_expanded`. */
  method CollectExpanded(node: TreeNode) returns (result: seq<Path>)
    ensures result == ExpandedDirs(node)
    decreases node
  {
    result := [];
    if node.kind == Directory && node.expanded {
      result := result + [node.path];
      for i := 0 to |node.children|
        invariant result == [node.path] + ExpandedDirsAll(node.children[..i])
      {
        ExpandedDirsAllAppend(node.children[..i], [node.children[i]]);
        assert node.children[..i + 1] == node.children[..i] + [node.children[i]];
        assert ExpandedDirsAll([node.children[i]]) == ExpandedDirs(node.children[i]);
        var sub := CollectExpanded(node.children[i]);
        result := result + sub;
      }
      assert node.children[..|node.children|] == node.children;
    }
  }

  // ----- toggling -----

  /** `toggle_expand` acts only when the tree holds a node with the path (the first in
      preorder) and that node is a directory. */
  predicate CanToggle(t: TreeNode, path: Path)
  {
    FindByPath(t, path).Some? && FindByPath(t, path).value.kind == Directory
  }

  /** The tree with the `expanded` flag of the first node with `path` flipped. */
  function Toggled(t: TreeNode, path: Path): TreeNode
    requires FindByPath(t, path).Some?
  {
    WithExpanded(t, path, !FindByPath(t, path).value.expanded)
  }

  /** Setting the flag through a path changes only what `find_by_path` then returns, and
      only its flag. */
  lemma {:induction false} FindAfterSet(t: TreeNode, target: Path, v: bool)
    ensures FindByPath(WithExpanded(t, target, v), target) ==
      match FindByPath(t, target) case None => FindByPath(t, target) case Some(n) => Some(n.(expanded := v))
    ensures FindByPath(t, target).None? ==> WithExpanded(t, target, v) == t
    decreases t, 1
  {
    if t.path != target {
      FindAllAfterSet(t.children, target, v);
    }
  }

  lemma {:induction false} FindAllAfterSet(ts: seq<TreeNode>, target: Path, v: bool)
    ensures FindAll(WithExpandedAll(ts, target, v), target) ==
      match FindAll(ts, target) case None => FindAll(ts, target) case Some(n) => Some(n.(expanded := v))
    ensures FindAll(ts, target).None? ==> WithExpandedAll(ts, target, v) == ts
    decreases ts, 0
  {
    if ts != [] {
      var r := WithExpandedAll(ts, target, v);
      FindAfterSet(ts[0], target, v);
      if FindByPath(ts[0], target).Some? {
        assert r[0] == WithExpanded(ts[0], target, v);
      } else {
        FindAllAfterSet(ts[1..], target, v);
        assert r[0] == ts[0] && r[1..] == WithExpandedAll(ts[1..], target, v);
      }
    }
  }

  /** Setting the flag twice through the same path is setting it once, to the second
      value. */
  lemma {:induction false} SetTwice(t: TreeNode, target: Path, v: bool, w: bool)
    ensures WithExpanded(WithExpanded(t, target, v), target, w) == WithExpanded(t, target, w)
    decreases t, 1
  {
    if t.path != target {
      SetAllTwice(t.children, target, v, w);
    }
  }

  lemma {:induction false} SetAllTwice(ts: seq<TreeNode>, target: Path, v: bool, w: bool)
    ensures WithExpandedAll(WithExpandedAll(ts, target, v), target, w) == WithExpandedAll(ts, target, w)
    decreases ts, 0
  {
    if ts != [] {
      var r := WithExpandedAll(ts, target, v);
      FindAfterSet(ts[0], target, v);
      if FindByPath(ts[0], target).Some? {
        SetTwice(ts[0], target, v, w);
        assert r[0] == WithExpanded(ts[0], target, v) && r[1..] == ts[1..];
      } else {
        SetAllTwice(ts[1..], target, v, w);
        assert r[0] == ts[0] && r[1..] == WithExpandedAll(ts[1..], target, v);
      }
    }
  }

  /** Setting the flag of the found node to the value it has changes nothing. */
  lemma {:induction false} SetSame(t: TreeNode, target: Path)
    requires FindByPath(t, target).Some?
    ensures WithExpanded(t, target, FindByPath(t, target).value.expanded) == t
    decreases t, 1
  {
    if t.path != target {
      SetAllSame(t.children, target);
    }
  }

  lemma {:induction false} SetAllSame(ts: seq<TreeNode>, target: Path)
    requires FindAll(ts, target).Some?
    ensures WithExpandedAll(ts, target, FindAll(ts, target).value.expanded) == ts
    decreases ts, 0
  {
    var v := FindAll(ts, target).value.expanded;
    if FindByPath(ts[0], target).Some? {
      SetSame(ts[0], target);
    } else {
      SetAllSame(ts[1..], target);
    }
  }

  /** Toggling flips exactly the flag of the first node with the path, keeps it toggleable,
      and toggling again restores the tree. */
  lemma ToggleTwice(t: TreeNode, path: Path)
    requires CanToggle(t, path)
    ensures FindByPath(Toggled(t, path), path) == Some(FindByPath(t, path).value.(expanded := !FindByPath(t, path).value.expanded))
    ensures CanToggle(Toggled(t, path), path)
    ensures ChangedAt(Nodes(t), Nodes(Toggled(t, path)), path, !FindByPath(t, path).value.expanded)
    ensures Toggled(Toggled(t, path), path) == t
  {
    var n := FindByPath(t, path).value;
    FindAfterSet(t, path, !n.expanded);
    FindIsFirst(t, path);
    WithExpandedMarks(t, path, !n.expanded);
    SetTwice(t, path, !n.expanded, n.expanded);
    SetSame(t, path);
  }

  // ----- the service -----

  class WorkspaceService {
    const root: Path
    var tree: Option<TreeNode>
    const settings: WorkspaceSettings

    /** The service as `open` leaves it: no tree yet, and the settings it loaded or made. */
    constructor(root: Path, settings: WorkspaceSettings)
      ensures this.root == root && tree == Option.None && this.settings == settings
    {
      this.root := root;
      tree := Option.None;
      this.settings := settings;
    }

    /** `flat_tree`: the view without the root, or nothing before a tree is built. */
    method FlatTree() returns (items: seq<FlatTreeItem>)
      ensures tree.None? ==> items == []
      ensures tree.Some? ==> items == FlatItemsAll(tree.value.children, 0, true)
    {
      items := [];
      if tree.Some? {
        items := FlattenTree(tree.value, false);
      }
    }

    /** `update_expanded_dirs`: the settings' expanded directories become what
        `collect_expanded` yields for the tree; without a tree nothing changes. */
    method UpdateExpandedDirs()
      modifies settings
      ensures tree.Some? ==> settings.expandedDirs == ExpandedDirs(tree.value)
      ensures tree.None? ==> settings.expandedDirs == old(settings.expandedDirs)
      ensures settings.root == old(settings.root) && settings.recentFiles == old(settings.recentFiles)
      ensures settings.lastOpenTabs == old(settings.lastOpenTabs) && settings.activeTabIndex == old(settings.activeTabIndex)
    {
      if tree.Some? {
        var expanded := CollectExpanded(tree.value);
        settings.SetExpandedDirs(expanded);
      }
    }

    /** `toggle_expand`: flip a directory found by path and record the expanded
        directories; with no tree, no such node, or a file, nothing changes. */
    method ToggleExpand(path: Path)
      modifies this, settings
      ensures old(tree).Some? && CanToggle(old(tree).value, path) ==>
        tree == Some(Toggled(old(tree).value, path)) && settings.expandedDirs == ExpandedDirs(tree.value)
      ensures !(old(tree).Some? && CanToggle(old(tree).value, path)) ==>
        tree == old(tree) && settings.expandedDirs == old(settings.expandedDirs)
      ensures settings.root == old(settings.root) && settings.recentFiles == old(settings.recentFiles)
      ensures settings.lastOpenTabs == old(settings.lastOpenTabs) && settings.activeTabIndex == old(settings.activeTabIndex)
    {
      if tree.Some? {
        match FindByPath(tree.value, path) {
          case Some(node) =>
            if node.kind == Directory {
              tree := Some(WithExpanded(tree.value, path, !node.expanded));
              UpdateExpandedDirs();
            }
          case None =>
        }
      }
    }
  }
}
