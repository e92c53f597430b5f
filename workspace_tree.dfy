/** The file tree of crates/workspace/src/tree.rs: nodes with a name, a path, a kind, the
    children and an expanded flag; sorting, search by path, counting, flattening, and the
    flattened view the explorer draws. A tree is owned by value, so an operation that
    changes it in place is a function returning the changed tree. */
module FileTree {
  import opened Wrappers
  import opened RustStr
  import opened RustPath

  datatype NodeKind = File | Directory

  datatype TreeNode = TreeNode(name: seq<char>, path: Path, kind: NodeKind, children: seq<TreeNode>, expanded: bool)

  /** `TreeNode::file`: a childless, collapsed file named by its last path component
      (empty for the root). */
  function FileNode(path: Path): (n: TreeNode)
    ensures n.path == path && n.kind == File && n.children == [] && !n.expanded
    ensures n.name == if path == [] then [] else path[|path| - 1]
  {
    TreeNode(match FileName(path) case Some(s) => s case None => [], path, File, [], false)
  }

  /** `TreeNode::directory`: a childless, collapsed directory named by its last path
      component, or by the whole path for the root. */
  function DirectoryNode(path: Path): (n: TreeNode)
    ensures n.path == path && n.kind == Directory && n.children == [] && !n.expanded
    ensures n.name == if path == [] then "/" else path[|path| - 1]
  {
    TreeNode(match FileName(path) case Some(s) => s case None => Display(path), path, Directory, [], false)
  }

  /** `count`: the node and all nodes below it. */
  function Count(t: TreeNode): nat
    decreases t
  {
    1 + CountAll(t.children)
  }

  function CountAll(ts: seq<TreeNode>): nat
    decreases ts
  {
    if ts == [] then 0 else Count(ts[0]) + CountAll(ts[1..])
  }

  /** The nodes of the tree in preorder: a node, then the nodes of each child in turn. */
  function Nodes(t: TreeNode): (r: seq<TreeNode>)
    ensures |r| == Count(t) && r[0] == t
    decreases t
  {
    [t] + NodesAll(t.children)
  }

  function NodesAll(ts: seq<TreeNode>): (r: seq<TreeNode>)
    ensures |r| == CountAll(ts)
    decreases ts
  {
    if ts == [] then [] else Nodes(ts[0]) + NodesAll(ts[1..])
  }

  /** The paths of some nodes. */
  function Paths(ns: seq<TreeNode>): (r: seq<Path>)
    ensures |r| == |ns| && forall i :: 0 <= i < |ns| ==> r[i] == ns[i].path
  {
    seq(|ns|, i requires 0 <= i < |ns| => ns[i].path)
  }

  lemma PathsAppend(a: seq<TreeNode>, b: seq<TreeNode>)
    ensures Paths(a + b) == Paths(a) + Paths(b)
  {
  }

  /** `flatten`: the path of the node, then the paths below each child in turn. */
  function Flatten(t: TreeNode): (r: seq<Path>)
    ensures |r| == Count(t) && r[0] == t.path
    decreases t
  {
    [t.path] + FlattenAll(t.children)
  }

  function FlattenAll(ts: seq<TreeNode>): (r: seq<Path>)
    ensures |r| == CountAll(ts)
    decreases ts
  {
    if ts == [] then [] else Flatten(ts[0]) + FlattenAll(ts[1..])
  }

  /** `flatten` lists the paths of the nodes in preorder. */
  lemma {:induction false} FlattenIsPreorder(t: TreeNode)
    ensures Flatten(t) == Paths(Nodes(t))
    decreases t
  {
    FlattenAllIsPreorder(t.children);
    PathsAppend([t], NodesAll(t.children));
  }

  lemma {:induction false} FlattenAllIsPreorder(ts: seq<TreeNode>)
    ensures FlattenAll(ts) == Paths(NodesAll(ts))
    decreases ts
  {
    if ts != [] {
      FlattenIsPreorder(ts[0]);
      FlattenAllIsPreorder(ts[1..]);
      PathsAppend(Nodes(ts[0]), NodesAll(ts[1..]));
    }
  }

  // ----- search by path -----

  /** The index of the first node of `ns` with path `target`, or `|ns|`. */
  function FirstIndex(ns: seq<TreeNode>, target: Path): (k: nat)
    ensures k <= |ns|
    ensures k < |ns| ==> ns[k].path == target
    ensures forall j :: 0 <= j < k ==> ns[j].path != target
  {
    if ns == [] then 0 else if ns[0].path == target then 0 else 1 + FirstIndex(ns[1..], target)
  }

  lemma {:induction false} FirstIndexAppend(a: seq<TreeNode>, b: seq<TreeNode>, target: Path)
    ensures FirstIndex(a + b, target) ==
      if FirstIndex(a, target) < |a| then FirstIndex(a, target) else |a| + FirstIndex(b, target)
  {
    if a != [] {
      FirstIndexAppend(a[1..], b, target);
      assert (a + b)[1..] == a[1..] + b;
    } else {
      assert a + b == b;
    }
  }

  /** `find_by_path`: the node itself when its path is the target, else the first hit
      among the children in turn. */
  function FindByPath(t: TreeNode, target: Path): Option<TreeNode>
    decreases t
  {
    if t.path == target then Some(t) else FindAll(t.children, target)
  }

  function FindAll(ts: seq<TreeNode>, target: Path): Option<TreeNode>
    decreases ts
  {
    if ts == [] then Option.None
    else match FindByPath(ts[0], target)
      case Some(n) => Some(n)
      case None => FindAll(ts[1..], target)
  }

  /** `find_by_path` finds the first node in preorder with the target path, and nothing
      exactly when no node has it. */
  lemma {:induction false} FindIsFirst(t: TreeNode, target: Path)
    ensures FindByPath(t, target).Some? <==> FirstIndex(Nodes(t), target) < Count(t)
    ensures FindByPath(t, target).Some? ==> FindByPath(t, target).value == Nodes(t)[FirstIndex(Nodes(t), target)]
    decreases t
  {
    FindAllIsFirst(t.children, target);
    FirstIndexAppend([t], NodesAll(t.children), target);
  }

  lemma {:induction false} FindAllIsFirst(ts: seq<TreeNode>, target: Path)
    ensures FindAll(ts, target).Some? <==> FirstIndex(NodesAll(ts), target) < CountAll(ts)
    ensures FindAll(ts, target).Some? ==> FindAll(ts, target).value == NodesAll(ts)[FirstIndex(NodesAll(ts), target)]
    decreases ts
  {
    if ts != [] {
      FindIsFirst(ts[0], target);
      FindAllIsFirst(ts[1..], target);
      FirstIndexAppend(Nodes(ts[0]), NodesAll(ts[1..]), target);
    }
  }

  /** A path is found exactly when `flatten` lists it. */
  lemma FindIffFlattened(t: TreeNode, target: Path)
    ensures FindByPath(t, target).Some? <==> target in Flatten(t)
    ensures FindByPath(t, target).Some? ==> FindByPath(t, target).value.path == target
  {
    FindIsFirst(t, target);
    FlattenIsPreorder(t);
    var ns := Nodes(t);
    if target in Flatten(t) {
      var j :| 0 <= j < |ns| && Paths(ns)[j] == target;
      assert ns[j].path == target;
    }
  }

  // ----- changing the node found by path -----

  /** `find_by_path_mut(target)` followed by setting `expanded` to `v` on the node it
      finds. */
  function WithExpanded(t: TreeNode, target: Path, v: bool): TreeNode
    decreases t
  {
    if t.path == target then t.(expanded := v) else t.(children := WithExpandedAll(t.children, target, v))
  }

  function WithExpandedAll(ts: seq<TreeNode>, target: Path, v: bool): seq<TreeNode>
    decreases ts
  {
    if ts == [] then []
    else if FindByPath(ts[0], target).Some? then [WithExpanded(ts[0], target, v)] + ts[1..]
    else [ts[0]] + WithExpandedAll(ts[1..], target, v)
  }

  /** What of a node the explorer shows and keeps: its path, kind and expanded flag. */
  datatype Mark = Mark(path: Path, kind: NodeKind, expanded: bool)

  function Marks(ns: seq<TreeNode>): (r: seq<Mark>)
    ensures |r| == |ns| && forall i :: 0 <= i < |ns| ==> r[i] == Mark(ns[i].path, ns[i].kind, ns[i].expanded)
  {
    seq(|ns|, i requires 0 <= i < |ns| => Mark(ns[i].path, ns[i].kind, ns[i].expanded))
  }

  lemma MarksAppend(a: seq<TreeNode>, b: seq<TreeNode>)
    ensures Marks(a + b) == Marks(a) + Marks(b)
  {
  }

  /** `after` is `before` with the flag of the first node with path `target` set to `v`,
      as far as the marks of the nodes tell. */
  predicate ChangedAt(before: seq<TreeNode>, after: seq<TreeNode>, target: Path, v: bool)
  {
    var k := FirstIndex(before, target);
    k < |before| && Marks(after) == Marks(before)[k := Mark(target, before[k].kind, v)]
  }

  /** Setting the flag through the path changes the first node in preorder with that path
      and no other node; without such a node the tree is unchanged. */
  lemma {:induction false} WithExpandedMarks(t: TreeNode, target: Path, v: bool)
    ensures FirstIndex(Nodes(t), target) == Count(t) ==> WithExpanded(t, target, v) == t
    ensures FirstIndex(Nodes(t), target) < Count(t) ==> ChangedAt(Nodes(t), Nodes(WithExpanded(t, target, v)), target, v)
    decreases t, 2
  {
    FirstIndexAppend([t], NodesAll(t.children), target);
    var t' := WithExpanded(t, target, v);
    if t.path == target {
      MarksAppend([t], NodesAll(t.children));
      MarksAppend([t'], NodesAll(t.children));
    } else {
      WithExpandedAllMarks(t.children, target, v);
      if FirstIndex(NodesAll(t.children), target) < CountAll(t.children) {
        assert Marks([t']) == Marks([t]);
        UpdateRight([t], NodesAll(t.children), NodesAll(t'.children), target, v);
        MarksAppend([t'], NodesAll(t'.children));
        MarksAppend([t], NodesAll(t'.children));
      }
    }
  }

  lemma {:induction false} WithExpandedAllMarks(ts: seq<TreeNode>, target: Path, v: bool)
    ensures FirstIndex(NodesAll(ts), target) == CountAll(ts) ==> WithExpandedAll(ts, target, v) == ts
    ensures FirstIndex(NodesAll(ts), target) < CountAll(ts) ==>
      ChangedAt(NodesAll(ts), NodesAll(WithExpandedAll(ts, target, v)), target, v)
    decreases ts, 1
  {
    if ts != [] {
      var a := Nodes(ts[0]);
      var b := NodesAll(ts[1..]);
      FirstIndexAppend(a, b, target);
      FindIsFirst(ts[0], target);
      var r := WithExpandedAll(ts, target, v);
      if FindByPath(ts[0], target).Some? {
        WithExpandedMarks(ts[0], target, v);
        assert r[0] == WithExpanded(ts[0], target, v) && r[1..] == ts[1..];
        UpdateLeft(a, Nodes(r[0]), b, target, v);
      } else {
        WithExpandedAllMarks(ts[1..], target, v);
        assert r[0] == ts[0] && r[1..] == WithExpandedAll(ts[1..], target, v);
        if FirstIndex(b, target) < |b| {
          UpdateRight(a, b, NodesAll(r[1..]), target, v);
        }
      }
    }
  }

  /** A change within the first part is a change in the whole. */
  lemma UpdateLeft(a: seq<TreeNode>, a': seq<TreeNode>, b: seq<TreeNode>, target: Path, v: bool)
    requires ChangedAt(a, a', target, v)
    ensures ChangedAt(a + b, a' + b, target, v)
  {
    FirstIndexAppend(a, b, target);
    MarksAppend(a, b);
    MarksAppend(a', b);
  }

  /** A change within the second part, when the first has no node with the path, is a
      change in the whole. */
  lemma UpdateRight(a: seq<TreeNode>, b: seq<TreeNode>, b': seq<TreeNode>, target: Path, v: bool)
    requires FirstIndex(a, target) == |a| && ChangedAt(b, b', target, v)
    ensures ChangedAt(a + b, a + b', target, v)
  {
    FirstIndexAppend(a, b, target);
    MarksAppend(a, b);
    MarksAppend(a, b');
    var k := FirstIndex(b, target);
    assert (a + b)[|a| + k] == b[k];
    UpdateAfter(Marks(a), Marks(b), k, Mark(target, b[k].kind, v));
  }

  /** Changing the element at `k` of the second part changes the whole at its offset. */
  lemma UpdateAfter(x: seq<Mark>, y: seq<Mark>, k: nat, m: Mark)
    requires k < |y|
    ensures x + y[k := m] == (x + y)[|x| + k := m]
  {
  }

  // ----- sorting -----

  /** `str::cmp`: `a` does not come after `b` in lexicographic order of scalar values
      (which is the order of their UTF-8 bytes). */
  predicate LexLe(a: seq<char>, b: seq<char>)
  {
    a == [] || (b != [] && (a[0] < b[0] || (a[0] == b[0] && LexLe(a[1..], b[1..]))))
  }

  lemma {:induction false} LexLeTotal(a: seq<char>, b: seq<char>)
    ensures LexLe(a, b) || LexLe(b, a)
    decreases |a|
  {
    if a != [] && b != [] && a[0] == b[0] {
      LexLeTotal(a[1..], b[1..]);
    }
  }

  lemma {:induction false} LexLeTransitive(a: seq<char>, b: seq<char>, c: seq<char>)
    requires LexLe(a, b) && LexLe(b, c)
    ensures LexLe(a, c)
    decreases |a|
  {
    if a != [] && a[0] == b[0] && b[0] == c[0] {
      LexLeTransitive(a[1..], b[1..], c[1..]);
    }
  }

  /** The comparator of `sort_children` does not answer Greater: a directory before a
      file, and otherwise the lowercased names in order. */
  predicate NotAfter(a: TreeNode, b: TreeNode)
  {
    if a.kind == Directory && b.kind == File then true
    else if a.kind == File && b.kind == Directory then false
    else LexLe(ToLower(a.name), ToLower(b.name))
  }

  lemma NotAfterTotal(a: TreeNode, b: TreeNode)
    ensures NotAfter(a, b) || NotAfter(b, a)
  {
    LexLeTotal(ToLower(a.name), ToLower(b.name));
  }

  lemma NotAfterTransitive(a: TreeNode, b: TreeNode, c: TreeNode)
    requires NotAfter(a, b) && NotAfter(b, c)
    ensures NotAfter(a, c)
  {
    if a.kind == b.kind && b.kind == c.kind {
      LexLeTransitive(ToLower(a.name), ToLower(b.name), ToLower(c.name));
    }
  }

  /** Each node is not after the next. */
  predicate Sorted(xs: seq<TreeNode>)
  {
    forall i :: 0 < i < |xs| ==> NotAfter(xs[i - 1], xs[i])
  }

  /** `x` put before the first node it is not after: the step of a stable insertion
      sort. */
  function Insert(x: TreeNode, xs: seq<TreeNode>): (r: seq<TreeNode>)
    ensures |r| == |xs| + 1 && multiset(r) == multiset(xs) + multiset{x}
    ensures r[0] == x || (xs != [] && r[0] == xs[0])
    ensures Sorted(xs) ==> Sorted(r)
  {
    if xs == [] then [x]
    else if NotAfter(x, xs[0]) then [x] + xs
    else
      NotAfterTotal(x, xs[0]);
      assert xs == [xs[0]] + xs[1..];
      [xs[0]] + Insert(x, xs[1..])
  }

  /** `slice::sort_by` with the comparator of `sort_children`: stable, so nodes the
      comparator finds equal keep their order. */
  function SortBy(xs: seq<TreeNode>): (r: seq<TreeNode>)
    ensures |r| == |xs| && multiset(r) == multiset(xs) && Sorted(r)
  {
    if xs == [] then []
    else
      assert xs == [xs[0]] + xs[1..];
      Insert(xs[0], SortBy(xs[1..]))
  }

  /** `sort_children`, with each child's own children sorted too. The children's
      subtrees are sorted before the children themselves, which the source does the other
      way round; `SortOrderIrrelevant` shows the two agree. */
  function SortChildren(t: TreeNode): TreeNode
    decreases t
  {
    t.(children := SortBy(SortEach(t.children)))
  }

  function SortEach(ts: seq<TreeNode>): (r: seq<TreeNode>)
    ensures |r| == |ts|
    decreases ts
  {
    if ts == [] then [] else [SortChildren(ts[0])] + SortEach(ts[1..])
  }

  lemma {:induction false} SortEachAt(ts: seq<TreeNode>, i: nat)
    requires i < |ts|
    ensures SortEach(ts)[i] == SortChildren(ts[i])
    decreases i
  {
    if i > 0 {
      SortEachAt(ts[1..], i - 1);
    }
  }

  /** Sorting a subtree keeps the name and the kind its parent sorts by. */
  lemma SortKeepsKey(t: TreeNode)
    ensures SortChildren(t).name == t.name && SortChildren(t).kind == t.kind
    ensures SortChildren(t).path == t.path && SortChildren(t).expanded == t.expanded
  {
  }

  /** The comparator sees a sorted subtree as it saw the subtree. */
  lemma NotAfterSorted(x: TreeNode, y: TreeNode)
    ensures NotAfter(SortChildren(x), SortChildren(y)) == NotAfter(x, y)
  {
    SortKeepsKey(x);
    SortKeepsKey(y);
  }

  lemma {:induction false} InsertCommutes(x: TreeNode, xs: seq<TreeNode>)
    ensures Insert(SortChildren(x), SortEach(xs)) == SortEach(Insert(x, xs))
    decreases |xs|
  {
    var fx := SortChildren(x);
    var ys := SortEach(xs);
    if xs == [] {
      assert SortEach([x]) == [fx];
    } else {
      NotAfterSorted(x, xs[0]);
      if NotAfter(x, xs[0]) {
        assert Insert(fx, ys) == [fx] + ys;
        assert Insert(x, xs) == [x] + xs;
        assert SortEach([x] + xs) == [fx] + ys;
      } else {
        InsertCommutes(x, xs[1..]);
        assert Insert(fx, ys) == [ys[0]] + Insert(fx, ys[1..]);
        var rest := Insert(x, xs[1..]);
        assert Insert(x, xs) == [xs[0]] + rest;
        assert SortEach([xs[0]] + rest) == [SortChildren(xs[0])] + SortEach(rest);
      }
    }
  }

  /** Sorting the children first and their subtrees then, as the source does, gives the
      children `SortChildren` gives. */
  lemma {:induction false} SortOrderIrrelevant(cs: seq<TreeNode>)
    ensures SortBy(SortEach(cs)) == SortEach(SortBy(cs))
    decreases |cs|
  {
    if cs != [] {
      SortOrderIrrelevant(cs[1..]);
      InsertCommutes(cs[0], SortBy(cs[1..]));
    }
  }

  /** Every child list in the tree is sorted. */
  predicate SortedTree(t: TreeNode)
    decreases t
  {
    Sorted(t.children) && forall i :: 0 <= i < |t.children| ==> SortedTree(t.children[i])
  }

  lemma {:induction false} SortChildrenSorts(t: TreeNode)
    ensures SortedTree(SortChildren(t))
    decreases t, 1
  {
    var ys := SortEach(t.children);
    forall i | 0 <= i < |ys| ensures SortedTree(ys[i]) {
      SortChildrenSorts(t.children[i]);
      SortEachAt(t.children, i);
    }
    var zs := SortBy(ys);
    forall i | 0 <= i < |zs| ensures SortedTree(zs[i]) {
      assert zs[i] in multiset(ys);
    }
  }

  /** In a sorted child list no file comes before a directory, and nodes of one kind are
      in order of their lowercased names. */
  lemma SortedOrder(xs: seq<TreeNode>)
    requires Sorted(xs)
    ensures forall i, j :: 0 <= i < j < |xs| && xs[j].kind == Directory ==> xs[i].kind == Directory
    ensures forall i, j :: 0 <= i < j < |xs| && xs[i].kind == xs[j].kind ==>
      LexLe(ToLower(xs[i].name), ToLower(xs[j].name))
  {
    forall i, j | 0 <= i < j < |xs| ensures NotAfter(xs[i], xs[j]) {
      SortedPairs(xs, i, j);
    }
  }

  lemma {:induction false} SortedPairs(xs: seq<TreeNode>, i: nat, j: nat)
    requires Sorted(xs) && i < j < |xs|
    ensures NotAfter(xs[i], xs[j])
    decreases j - i
  {
    if i + 1 < j {
      SortedPairs(xs, i, j - 1);
      NotAfterTransitive(xs[i], xs[j - 1], xs[j]);
    }
  }

  /** Inserting a node adds its paths to those the list flattens to. */
  lemma {:induction false} InsertFlattens(x: TreeNode, xs: seq<TreeNode>)
    ensures multiset(FlattenAll(Insert(x, xs))) == multiset(Flatten(x)) + multiset(FlattenAll(xs))
    decreases |xs|
  {
    if xs != [] && !NotAfter(x, xs[0]) {
      InsertFlattens(x, xs[1..]);
      assert Insert(x, xs)[1..] == Insert(x, xs[1..]);
    } else if xs != [] {
      assert Insert(x, xs)[1..] == xs;
    }
  }

  lemma {:induction false} SortByFlattens(xs: seq<TreeNode>)
    ensures multiset(FlattenAll(SortBy(xs))) == multiset(FlattenAll(xs))
    decreases |xs|
  {
    if xs != [] {
      SortByFlattens(xs[1..]);
      InsertFlattens(xs[0], SortBy(xs[1..]));
    }
  }

  /** Sorting moves nodes but keeps every one of them: the same paths, as often, and so
      the same count. */
  lemma {:induction false} SortKeepsNodes(t: TreeNode)
    ensures multiset(Flatten(SortChildren(t))) == multiset(Flatten(t))
    ensures Count(SortChildren(t)) == Count(t)
    decreases t, 1
  {
    SortEachKeepsNodes(t.children);
    SortByFlattens(SortEach(t.children));
    assert |multiset(Flatten(SortChildren(t)))| == |multiset(Flatten(t))|;
  }

  lemma {:induction false} SortEachKeepsNodes(ts: seq<TreeNode>)
    ensures multiset(FlattenAll(SortEach(ts))) == multiset(FlattenAll(ts))
    decreases ts, 0
  {
    if ts != [] {
      SortKeepsNodes(ts[0]);
      SortEachKeepsNodes(ts[1..]);
    }
  }

  /** `test_sort_children`: "src" comes first, then "a.rs", then "z.rs". */
  lemma SortExample(z: TreeNode, src: TreeNode, a: TreeNode)
    requires z == FileNode(["test", "z.rs"]) && src == DirectoryNode(["test", "src"]) && a == FileNode(["test", "a.rs"])
    ensures SortChildren(DirectoryNode(["test"]).(children := [z, src, a])).children == [src, a, z]
  {
    assert ToLower(a.name)[0] == 'a' && ToLower(z.name)[0] == 'z';
    assert !NotAfter(z, a) && NotAfter(src, a) && !NotAfter(z, src);
    SortLeaves(z, src, a);
    SortThree(z, src, a);
  }

  /** Childless nodes are sorted already. */
  lemma SortLeaves(x: TreeNode, y: TreeNode, w: TreeNode)
    requires x.children == [] && y.children == [] && w.children == []
    ensures SortEach([x, y, w]) == [x, y, w]
  {
    assert SortEach([]) == [] && SortBy([]) == [];
    assert SortChildren(x) == x && SortChildren(y) == y && SortChildren(w) == w;
    assert [x, y, w][1..] == [y, w] && [y, w][1..] == [w] && [w][1..] == [];
    assert SortEach([w]) == [w] + SortEach([]);
    assert SortEach([y, w]) == [y] + SortEach([w]);
    assert SortEach([x, y, w]) == [x] + SortEach([y, w]);
  }

  /** Three nodes, the last of which goes first and the first last. */
  lemma SortThree(x: TreeNode, y: TreeNode, w: TreeNode)
    requires !NotAfter(x, w) && NotAfter(y, w) && !NotAfter(x, y)
    ensures SortBy([x, y, w]) == [y, w, x]
  {
    assert [x, y, w][1..] == [y, w];
    SortTwo(y, w);
    InsertPastTwo(x, y, w);
  }

  lemma SortTwo(y: TreeNode, w: TreeNode)
    requires NotAfter(y, w)
    ensures SortBy([y, w]) == [y, w]
  {
    assert [y, w][1..] == [w] && [w][1..] == [];
    assert SortBy([w]) == Insert(w, []) == [w];
  }

  lemma InsertPastTwo(x: TreeNode, y: TreeNode, w: TreeNode)
    requires !NotAfter(x, w) && !NotAfter(x, y)
    ensures Insert(x, [y, w]) == [y, w, x]
  {
    assert [y, w][1..] == [w] && [w][1..] == [];
    assert Insert(x, [w]) == [w] + Insert(x, []) == [w, x];
  }

  // ----- the explorer's flattened view -----

  /** `FlatTreeItem`: a node with its depth and whether it is shown. */
  datatype FlatTreeItem = FlatTreeItem(node: TreeNode, depth: nat, visible: bool)

  /** What `flatten_recursive` appends for `n`: the node, then, for a directory, each
      child's items one level deeper, shown only when `n` is shown and expanded. */
  function FlatItems(n: TreeNode, depth: nat, visible: bool): seq<FlatTreeItem>
    decreases n
  {
    [FlatTreeItem(n, depth, visible)] +
    (if n.kind == Directory then FlatItemsAll(n.children, depth + 1, visible && n.expanded) else [])
  }

  function FlatItemsAll(ts: seq<TreeNode>, depth: nat, visible: bool): seq<FlatTreeItem>
    decreases ts
  {
    if ts == [] then [] else FlatItems(ts[0], depth, visible) + FlatItemsAll(ts[1..], depth, visible)
  }

  lemma {:induction false} FlatItemsAllAppend(a: seq<TreeNode>, b: seq<TreeNode>, depth: nat, visible: bool)
    ensures FlatItemsAll(a + b, depth, visible) == FlatItemsAll(a, depth, visible) + FlatItemsAll(b, depth, visible)
    decreases |a|
  {
    if a == [] {
      assert a + b == b;
    } else {
      var c := a + b;
      assert c[0] == a[0] && c[1..] == a[1..] + b;
      FlatItemsAllAppend(a[1..], b, depth, visible);
      var x, y, z := FlatItems(a[0], depth, visible), FlatItemsAll(a[1..], depth, visible), FlatItemsAll(b, depth, visible);
      assert FlatItemsAll(c, depth, visible) == x + (y + z);
      assert x + (y + z) == (x + y) + z;
    }
  }

  /** One child more: its items go after those of the children before it. */
  lemma FlatItemsAllStep(ts: seq<TreeNode>, i: nat, depth: nat, visible: bool)
    requires i < |ts|
    ensures FlatItemsAll(ts[..i + 1], depth, visible) == FlatItemsAll(ts[..i], depth, visible) + FlatItems(ts[i], depth, visible)
  {
    FlatItemsAllAppend(ts[..i], [ts[i]], depth, visible);
    assert ts[..i + 1] == ts[..i] + [ts[i]];
    assert [ts[i]][1..] == [];
    assert FlatItemsAll([ts[i]], depth, visible) == FlatItems(ts[i], depth, visible) + [];
  }

  /** `flatten_tree`: the root's items, or without the root each child's items from
      depth 0. */
  function FlatView(root: TreeNode, includeRoot: bool): seq<FlatTreeItem>
  {
    if includeRoot then FlatItems(root, 0, true) else FlatItemsAll(root.children, 0, true)
  }

  /** `flatten_recursive`: push the node's item, then recurse into a directory's
      children. */
  method FlattenRecursive(node: TreeNode, depth: nat, visible: bool, result: seq<FlatTreeItem>)
    returns (out: seq<FlatTreeItem>)
    ensures out == result + FlatItems(node, depth, visible)
    decreases node
  {
    out := result + [FlatTreeItem(node, depth, visible)];
    if node.kind == Directory {
      var childVisible := visible && node.expanded;
      ghost var head := out;
      for i := 0 to |node.children|
        invariant out == head + FlatItemsAll(node.children[..i], depth + 1, childVisible)
      {
        FlatItemsAllStep(node.children, i, depth + 1, childVisible);
        out := FlattenRecursive(node.children[i], depth + 1, childVisible, out);
      }
      assert node.children[..|node.children|] == node.children;
    }
  }

  /** `flatten_tree`. */
  method FlattenTree(root: TreeNode, includeRoot: bool) returns (result: seq<FlatTreeItem>)
    ensures result == FlatView(root, includeRoot)
  {
    result := [];
    if includeRoot {
      result := FlattenRecursive(root, 0, true, result);
    } else {
      for i := 0 to |root.children|
        invariant result == FlatItemsAll(root.children[..i], 0, true)
      {
        FlatItemsAllStep(root.children, i, 0, true);
        result := FlattenRecursive(root.children[i], 0, true, result);
      }
      assert root.children[..|root.children|] == root.children;
    }
  }

  /** Files have no children (the nodes `file` makes have none). */
  predicate FilesAreLeaves(t: TreeNode)
    decreases t
  {
    (t.kind == File ==> t.children == []) && forall i :: 0 <= i < |t.children| ==> FilesAreLeaves(t.children[i])
  }

  /** Each node's distance from `t`, in preorder. */
  function Depths(t: TreeNode): (r: seq<nat>)
    ensures |r| == Count(t)
    decreases t
  {
    [0] + Plus(DepthsAll(t.children), 1)
  }

  function DepthsAll(ts: seq<TreeNode>): (r: seq<nat>)
    ensures |r| == CountAll(ts)
    decreases ts
  {
    if ts == [] then [] else Depths(ts[0]) + DepthsAll(ts[1..])
  }

  function Plus(xs: seq<nat>, d: nat): (r: seq<nat>)
    ensures |r| == |xs| && forall i :: 0 <= i < |xs| ==> r[i] == xs[i] + d
  {
    seq(|xs|, i requires 0 <= i < |xs| => xs[i] + d)
  }

  function ItemNodes(items: seq<FlatTreeItem>): (r: seq<TreeNode>)
    ensures |r| == |items| && forall i :: 0 <= i < |items| ==> r[i] == items[i].node
  {
    seq(|items|, i requires 0 <= i < |items| => items[i].node)
  }

  function ItemDepths(items: seq<FlatTreeItem>): (r: seq<nat>)
    ensures |r| == |items| && forall i :: 0 <= i < |items| ==> r[i] == items[i].depth
  {
    seq(|items|, i requires 0 <= i < |items| => items[i].depth)
  }

  lemma ItemsAppend(a: seq<FlatTreeItem>, b: seq<FlatTreeItem>)
    ensures ItemNodes(a + b) == ItemNodes(a) + ItemNodes(b)
    ensures ItemDepths(a + b) == ItemDepths(a) + ItemDepths(b)
  {
  }

  lemma PlusAppend(a: seq<nat>, b: seq<nat>, d: nat)
    ensures Plus(a + b, d) == Plus(a, d) + Plus(b, d)
  {
  }

  lemma PlusPlus(a: seq<nat>, d: nat, e: nat)
    ensures Plus(Plus(a, d), e) == Plus(a, d + e)
  {
  }

  /** With files as leaves, the items are the nodes in preorder, each at the start depth
      plus its distance from the start node. */
  lemma {:induction false} FlatItemsPreorder(n: TreeNode, depth: nat, visible: bool)
    requires FilesAreLeaves(n)
    ensures ItemNodes(FlatItems(n, depth, visible)) == Nodes(n)
    ensures ItemDepths(FlatItems(n, depth, visible)) == Plus(Depths(n), depth)
    decreases n
  {
    var rest := FlatItemsAll(n.children, depth + 1, visible && n.expanded);
    assert FlatItems(n, depth, visible) == [FlatTreeItem(n, depth, visible)] + rest by {
      if n.kind == File { assert n.children == []; }
    }
    FlatItemsAllPreorder(n.children, depth + 1, visible && n.expanded);
    ConsItem(FlatTreeItem(n, depth, visible), rest, NodesAll(n.children), DepthsAll(n.children));
  }

  lemma ConsItem(item: FlatTreeItem, rest: seq<FlatTreeItem>, nodes: seq<TreeNode>, depths: seq<nat>)
    requires ItemNodes(rest) == nodes && ItemDepths(rest) == Plus(depths, item.depth + 1)
    ensures ItemNodes([item] + rest) == [item.node] + nodes
    ensures ItemDepths([item] + rest) == Plus([0] + Plus(depths, 1), item.depth)
  {
    ItemsAppend([item], rest);
    PlusAppend([0], Plus(depths, 1), item.depth);
    PlusPlus(depths, 1, item.depth);
    assert ItemNodes([item]) == [item.node];
    assert ItemDepths([item]) == [item.depth] == Plus([0], item.depth);
  }

  lemma {:induction false} FlatItemsAllPreorder(ts: seq<TreeNode>, depth: nat, visible: bool)
    requires forall i :: 0 <= i < |ts| ==> FilesAreLeaves(ts[i])
    ensures ItemNodes(FlatItemsAll(ts, depth, visible)) == NodesAll(ts)
    ensures ItemDepths(FlatItemsAll(ts, depth, visible)) == Plus(DepthsAll(ts), depth)
    decreases ts
  {
    if ts != [] {
      FlatItemsPreorder(ts[0], depth, visible);
      FlatItemsAllPreorder(ts[1..], depth, visible);
      ItemsAppend(FlatItems(ts[0], depth, visible), FlatItemsAll(ts[1..], depth, visible));
      PlusAppend(Depths(ts[0]), DepthsAll(ts[1..]), depth);
    }
  }

  /** The items that are shown. */
  function Visible(items: seq<FlatTreeItem>): seq<FlatTreeItem>
  {
    if items == [] then [] else (if items[0].visible then [items[0]] else []) + Visible(items[1..])
  }

  lemma {:induction false} VisibleAppend(a: seq<FlatTreeItem>, b: seq<FlatTreeItem>)
    ensures Visible(a + b) == Visible(a) + Visible(b)
    decreases |a|
  {
    if a == [] {
      assert a + b == b;
    } else {
      VisibleAppend(a[1..], b);
      assert (a + b)[1..] == a[1..] + b;
    }
  }

  /** What the explorer shows from `n` on: the node, and below an expanded directory the
      children's shown items one level deeper. */
  function Shown(n: TreeNode, depth: nat): seq<FlatTreeItem>
    decreases n
  {
    [FlatTreeItem(n, depth, true)] +
    (if n.kind == Directory && n.expanded then ShownAll(n.children, depth + 1) else [])
  }

  function ShownAll(ts: seq<TreeNode>, depth: nat): seq<FlatTreeItem>
    decreases ts
  {
    if ts == [] then [] else Shown(ts[0], depth) + ShownAll(ts[1..], depth)
  }

  /** Below a hidden item nothing is shown. */
  lemma {:induction false} HiddenStaysHidden(n: TreeNode, depth: nat)
    ensures Visible(FlatItems(n, depth, false)) == []
    decreases n
  {
    var rest := if n.kind == Directory then FlatItemsAll(n.children, depth + 1, false) else [];
    HiddenAllStayHidden(n.children, depth + 1);
    VisibleAppend([FlatTreeItem(n, depth, false)], rest);
  }

  lemma {:induction false} HiddenAllStayHidden(ts: seq<TreeNode>, depth: nat)
    ensures Visible(FlatItemsAll(ts, depth, false)) == []
    decreases ts
  {
    if ts != [] {
      HiddenStaysHidden(ts[0], depth);
      HiddenAllStayHidden(ts[1..], depth);
      VisibleAppend(FlatItems(ts[0], depth, false), FlatItemsAll(ts[1..], depth, false));
    }
  }

  /** An item is shown exactly when every directory above it, from the start node on, is
      expanded: the shown items are those of the tree cut below collapsed directories. */
  lemma {:induction false} VisibleIsShown(n: TreeNode, depth: nat)
    ensures Visible(FlatItems(n, depth, true)) == Shown(n, depth)
    decreases n
  {
    var rest := if n.kind == Directory then FlatItemsAll(n.children, depth + 1, n.expanded) else [];
    VisibleAppend([FlatTreeItem(n, depth, true)], rest);
    if n.kind == Directory {
      if n.expanded {
        VisibleAllIsShown(n.children, depth + 1);
      } else {
        HiddenAllStayHidden(n.children, depth + 1);
      }
    }
  }

  lemma {:induction false} VisibleAllIsShown(ts: seq<TreeNode>, depth: nat)
    ensures Visible(FlatItemsAll(ts, depth, true)) == ShownAll(ts, depth)
    decreases ts
  {
    if ts != [] {
      VisibleIsShown(ts[0], depth);
      VisibleAllIsShown(ts[1..], depth);
      VisibleAppend(FlatItems(ts[0], depth, true), FlatItemsAll(ts[1..], depth, true));
    }
  }
}
