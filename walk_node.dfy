/**
 * The walk-detection trie: one `Node` per directory, keyed by path component.
 *
 * The tree is owned by value (a parent owns its children outright and nothing else
 * refers to them), so the in-place updates of the original are modelled as functions
 * from the old tree to the new one. A mutable reference returned by a lookup becomes
 * the new tree together with the path, or path suffix, that locates the node.
 */
module WalkNode {
  import opened Wrappers

  /** Kind of access pattern a walk describes. */
  datatype WalkType = File | Directory

  /** A confirmed walk: `depth` path components below its root are covered. */
  datatype Walk = Walk(depth: nat)

  type Component = string

  /** A repository-relative path, already split into its components. */
  type Path = seq<Component>

  /**
   * The crate's `interesting_metadata(threshold, total_files, total_dirs)`: whether a
   * node's directory-size hints are worth keeping. Its definition lives outside this
   * model, so every operation that consults it receives it as a parameter.
   */
  type Interesting = (nat, Option<nat>, Option<nat>) -> bool

  datatype Node = Node(
    fileWalk: Option<Walk>,
    dirWalk: Option<Walk>,
    lastAccess: Option<nat>,
    children: map<Component, Node>,
    advancedFileChildren: set<Component>,
    advancedDirChildren: set<Component>,
    totalFiles: Option<nat>,
    totalDirs: Option<nat>,
    seenFiles: set<Component>,
    seenDirs: set<Component>)

  /** `WalkNode::default()`: no walks, no children, no hints, nothing seen. */
  function EmptyNode(): Node {
    Node(None, None, None, map[], {}, {}, None, None, {}, {})
  }

  /** The two nodes agree on everything except their children. */
  predicate SameExceptChildren(a: Node, b: Node) {
    a.(children := b.children) == b
  }

  /** The two nodes agree on everything except their walks and their children. */
  predicate SameBookkeeping(a: Node, b: Node) {
    a.(fileWalk := b.fileWalk, dirWalk := b.dirWalk, children := b.children) == b
  }

  /** File-dominates-Directory: a node never keeps a directory walk its file walk covers. */
  predicate DominationOk(n: Node) {
    !(n.fileWalk.Some? && n.dirWalk.Some? && n.fileWalk.value.depth >= n.dirWalk.value.depth)
  }

  // ---------------------------------------------------------------------------------
  // Per-node accessors
  // ---------------------------------------------------------------------------------

  /** The walk of exactly kind `t` rooted at `n`. */
  function GetWalkForType(n: Node, t: WalkType): Option<Walk> {
    match t
    case File => n.fileWalk
    case Directory => n.dirWalk
  }

  /**
   * The most powerful walk covering kind `t` at `n`: a file walk also covers directory
   * listings, so a Directory query falls back to the directory walk only when there is
   * no file walk.
   */
  function GetDominatingWalk(n: Node, t: WalkType): Option<Walk> {
    match t
    case File => n.fileWalk
    case Directory => if n.fileWalk.Some? then n.fileWalk else n.dirWalk
  }

  /** Whether `n`'s dominating walk covers a walk of depth `depth` rooted at `path` below `n`. */
  predicate Contains(n: Node, t: WalkType, path: Path, depth: nat) {
    var w := GetDominatingWalk(n, t);
    w.Some? && w.value.depth >= |path| + depth
  }

  /** A file walk covers at least as much as it would as a directory walk. */
  lemma FileContainsImpliesDirectoryContains(n: Node, path: Path, depth: nat)
    requires Contains(n, File, path, depth)
    ensures Contains(n, Directory, path, depth)
    ensures GetDominatingWalk(n, Directory) == n.fileWalk
  {
  }

  /**
   * Set (or clear, with `None`) the walk of kind `t`. Setting a file walk at least as
   * deep as the directory walk drops the directory walk; nothing else changes.
   */
  function SetWalkForType(n: Node, t: WalkType, w: Option<Walk>): (r: Node)
    ensures GetWalkForType(r, t) == w
    ensures t == Directory ==> r.fileWalk == n.fileWalk
    ensures t == File ==>
              r.dirWalk == if w.Some? && n.dirWalk.Some? && w.value.depth >= n.dirWalk.value.depth then None else n.dirWalk
    ensures t == File && w.Some? ==> DominationOk(r)
    ensures r.children == n.children && SameBookkeeping(r, n)
  {
    match t
    case File =>
      var n1 := n.(fileWalk := w);
      if w.Some? && n1.dirWalk.Some? && w.value.depth >= n1.dirWalk.value.depth then n1.(dirWalk := None) else n1
    case Directory => n.(dirWalk := w)
  }

  function AdvancedChildren(n: Node, t: WalkType): set<Component> {
    match t
    case File => n.advancedFileChildren
    case Directory => n.advancedDirChildren
  }

  /** Record `name` as an advanced child for kind `t`; returns the node and the set's new size. */
  function InsertAdvancedChild(n: Node, t: WalkType, name: Component): (r: (Node, nat))
    ensures AdvancedChildren(r.0, t) == AdvancedChildren(n, t) + {name}
    ensures r.1 == |AdvancedChildren(r.0, t)|
    ensures r.0 == SetAdvancedChildren(n, t, AdvancedChildren(r.0, t))
  {
    match t
    case File =>
      var n1 := n.(advancedFileChildren := n.advancedFileChildren + {name});
      (n1, |n1.advancedFileChildren|)
    case Directory =>
      var n1 := n.(advancedDirChildren := n.advancedDirChildren + {name});
      (n1, |n1.advancedDirChildren|)
  }

  /** Replace the advanced-children set of kind `t`. */
  function SetAdvancedChildren(n: Node, t: WalkType, s: set<Component>): (r: Node)
    ensures AdvancedChildren(r, t) == s
    ensures r.children == n.children && r.fileWalk == n.fileWalk && r.dirWalk == n.dirWalk
  {
    match t
    case File => n.(advancedFileChildren := s)
    case Directory => n.(advancedDirChildren := s)
  }

  function ClearAdvancedChildren(n: Node, t: WalkType): (r: Node)
    ensures AdvancedChildren(r, t) == {}
    ensures r == SetAdvancedChildren(n, t, {})
  {
    match t
    case File => n.(advancedFileChildren := {})
    case Directory => n.(advancedDirChildren := {})
  }

  /**
   * Whether this directory counts as walked for kind `t`: enough distinct names were
   * seen, or the directory-size hint says it is smaller than the threshold.
   */
  predicate IsWalked(n: Node, t: WalkType, dirWalkThreshold: nat) {
    match t
    case File =>
      |n.seenFiles| >= dirWalkThreshold || (n.totalFiles.Some? && n.totalFiles.value < dirWalkThreshold)
    case Directory =>
      |n.seenDirs| >= dirWalkThreshold || (n.totalDirs.Some? && n.totalDirs.value < dirWalkThreshold)
  }

  /** Seeing one more distinct name never turns a walked directory back into an unwalked one. */
  lemma {:induction false} IsWalkedMonotoneInObservations(n: Node, t: WalkType, threshold: nat, name: Component)
    requires IsWalked(n, t, threshold)
    ensures IsWalked(n.(seenFiles := n.seenFiles + {name}, seenDirs := n.seenDirs + {name}), t, threshold)
  {
    assert n.seenFiles <= n.seenFiles + {name};
    assert n.seenDirs <= n.seenDirs + {name};
    SubsetCard(n.seenFiles, n.seenFiles + {name});
    SubsetCard(n.seenDirs, n.seenDirs + {name});
  }

  lemma {:induction false} SubsetCard<T>(a: set<T>, b: set<T>)
    requires a <= b
    ensures |a| <= |b|
    decreases a
  {
    if a != {} {
      var x :| x in a;
      SubsetCard(a - {x}, b - {x});
    }
  }

  // ---------------------------------------------------------------------------------
  // Navigation
  // ---------------------------------------------------------------------------------

  /** `get_node`: the node at `path`, if every node along it exists. */
  function GetNode(n: Node, path: Path): Option<Node>
    decreases |path|
  {
    if path == [] then Some(n)
    else if path[0] in n.children then GetNode(n.children[path[0]], path[1..])
    else None
  }

  /** The walk of kind `t` rooted at the node at `path`, if both exist. */
  function WalkAt(n: Node, path: Path, t: WalkType): Option<Walk> {
    match GetNode(n, path)
    case None => None
    case Some(x) => GetWalkForType(x, t)
  }

  /** The node at `path`, or a default node when it does not exist (`entry().or_default()`). */
  function NodeOrDefault(n: Node, path: Path): Node {
    match GetNode(n, path)
    case None => EmptyNode()
    case Some(x) => x
  }

  lemma GetNodeCons(n: Node, c: Component, q: Path)
    ensures GetNode(n, [c] + q) == if c in n.children then GetNode(n.children[c], q) else None
  {
    assert ([c] + q)[1..] == q;
  }

  /** Looking up `p + q` is looking up `p`, then `q` from there. */
  lemma {:induction false} GetNodeAppend(n: Node, p: Path, q: Path)
    ensures GetNode(n, p + q) == match GetNode(n, p) case None => None case Some(x) => GetNode(x, q)
    decreases |p|
  {
    if p == [] {
      assert p + q == q;
    } else {
      assert (p + q)[0] == p[0];
      assert (p + q)[1..] == p[1..] + q;
      if p[0] in n.children {
        GetNodeAppend(n.children[p[0]], p[1..], q);
      }
    }
  }

  /** The node at one more component of a route, seen from the child the route enters. */
  lemma GetNodePrefixStep(n: Node, path: Path, i: nat)
    requires 0 < |path| && i < |path|
    ensures GetNode(n, path[..i + 1]) ==
      if path[0] in n.children then GetNode(n.children[path[0]], path[1..][..i]) else None
    ensures path[i + 1..] == path[1..][i..]
  {
    assert path[..i + 1] == [path[0]] + path[1..][..i];
    GetNodeCons(n, path[0], path[1..][..i]);
  }

  /** Nodes with the same children have the same strict descendants. */
  lemma SameChildrenSameDescendants(a: Node, b: Node, p: Path)
    requires a.children == b.children && |p| >= 1
    ensures GetNode(a, p) == GetNode(b, p)
    ensures WalkAt(a, p, File) == WalkAt(b, p, File) && WalkAt(a, p, Directory) == WalkAt(b, p, Directory)
  {
  }

  /** A default node has no descendants and no walks. */
  lemma EmptyNodeHasNothing(p: Path, t: WalkType)
    ensures p != [] ==> GetNode(EmptyNode(), p) == None
    ensures WalkAt(EmptyNode(), p, t) == None
    ensures NodeOrDefault(EmptyNode(), p) == EmptyNode()
  {
  }

  /**
   * `get_walk`: the dominating walk of kind `t` of the node exactly at `root`; `None`
   * when that node does not exist or holds no such walk.
   */
  function GetWalk(n: Node, t: WalkType, root: Path): (r: Option<Walk>)
    ensures r == match GetNode(n, root) case None => None case Some(x) => GetDominatingWalk(x, t)
    decreases |root|
  {
    if root == [] then GetDominatingWalk(n, t)
    else if root[0] in n.children then GetWalk(n.children[root[0]], t, root[1..])
    else None
  }

  /** The node reached after `i` components of `path` exists and covers the remaining components. */
  predicate RouteContains(n: Node, t: WalkType, path: Path, i: nat, depth: nat)
    requires i <= |path|
  {
    GetNode(n, path[..i]).Some? && Contains(GetNode(n, path[..i]).value, t, path[i..], depth)
  }

  /** Some node from `n` down to `path` covers a walk of depth `depth` rooted at `path`. */
  predicate ContainedOnRoute(n: Node, t: WalkType, path: Path, depth: nat) {
    exists i :: 0 <= i <= |path| && RouteContains(n, t, path, i, depth)
  }

  lemma {:induction false} RouteContainsStep(n: Node, t: WalkType, path: Path, i: nat, depth: nat)
    requires 0 < |path| && i < |path|
    ensures RouteContains(n, t, path, i + 1, depth) <==>
      path[0] in n.children && RouteContains(n.children[path[0]], t, path[1..], i, depth)
  {
    GetNodePrefixStep(n, path, i);
  }

  lemma {:induction false} ContainedOnRouteStep(n: Node, t: WalkType, path: Path, depth: nat)
    requires path != []
    ensures ContainedOnRoute(n, t, path, depth) <==>
      Contains(n, t, path, depth) ||
      (path[0] in n.children && ContainedOnRoute(n.children[path[0]], t, path[1..], depth))
  {
    assert path[..0] == [] && path[0..] == path;
    assert RouteContains(n, t, path, 0, depth) <==> Contains(n, t, path, depth);
    if ContainedOnRoute(n, t, path, depth) {
      var i :| 0 <= i <= |path| && RouteContains(n, t, path, i, depth);
      if i > 0 {
        RouteContainsStep(n, t, path, i - 1, depth);
        assert RouteContains(n.children[path[0]], t, path[1..], i - 1, depth);
      }
    }
    if path[0] in n.children && ContainedOnRoute(n.children[path[0]], t, path[1..], depth) {
      var i :| 0 <= i <= |path[1..]| && RouteContains(n.children[path[0]], t, path[1..], i, depth);
      RouteContainsStep(n, t, path, i, depth);
      assert RouteContains(n, t, path, i + 1, depth);
    }
  }

  /** A default node covers nothing anywhere below it. */
  lemma {:induction false} EmptyNodeContainsNothing(t: WalkType, path: Path, depth: nat)
    ensures !ContainedOnRoute(EmptyNode(), t, path, depth)
  {
  }

  /**
   * `get_containing_node`: searching from the root towards `dir`, the first node whose
   * dominating walk covers the rest of `dir`, with that rest.
   */
  function GetContainingNode(n: Node, t: WalkType, dir: Path): (r: Option<(Node, Path)>)
    ensures r.Some? ==> ContainingAt(n, t, dir, r.value.0, r.value.1)
    ensures r.None? <==> !ContainedOnRoute(n, t, dir, 0)
    decreases |dir|
  {
    if dir == [] then
      if GetDominatingWalk(n, t).Some? then Some((n, dir)) else None
    else if Contains(n, t, dir, 0) then Some((n, dir))
    else if dir[0] in n.children then
      var r := GetContainingNode(n.children[dir[0]], t, dir[1..]);
      ContainedOnRouteStep(n, t, dir, 0);
      if r.Some? then
        GetContainingNodeStep(n, t, dir, r.value.0, r.value.1);
        r
      else r
    else
      ContainedOnRouteStep(n, t, dir, 0);
      None
  }

  /**
   * `x` is the node reached after the first `|dir| - |rest|` components of `dir`, whose walk
   * covers `rest`, and no node before it on the route covers what is left of `dir`.
   */
  predicate ContainingAt(n: Node, t: WalkType, dir: Path, x: Node, rest: Path) {
    |rest| <= |dir| &&
    var i := |dir| - |rest|;
    rest == dir[i..] && GetNode(n, dir[..i]) == Some(x) && RouteContains(n, t, dir, i, 0) &&
    forall j :: 0 <= j < i ==> !RouteContains(n, t, dir, j, 0)
  }

  /** Lifts one level of `GetContainingNode`'s postcondition from a child to its parent. */
  lemma {:induction false} GetContainingNodeStep(n: Node, t: WalkType, dir: Path, x: Node, rest: Path)
    requires dir != [] && dir[0] in n.children && !Contains(n, t, dir, 0)
    requires ContainingAt(n.children[dir[0]], t, dir[1..], x, rest)
    ensures ContainingAt(n, t, dir, x, rest)
  {
    var c := n.children[dir[0]];
    var i := |dir| - 1 - |rest|;
    GetNodePrefixStep(n, dir, i);
    RouteContainsStep(n, t, dir, i, 0);
    forall j | 0 <= j < i + 1 ensures !RouteContains(n, t, dir, j, 0) {
      if j == 0 {
        assert dir[..0] == [] && dir[0..] == dir;
      } else {
        RouteContainsStep(n, t, dir, j - 1, 0);
      }
    }
  }

  // ---------------------------------------------------------------------------------
  // Creating nodes along a route
  // ---------------------------------------------------------------------------------

  /** The tree `n` with the node at `p` replaced by `x`, creating default nodes along `p`. */
  function Replace(n: Node, p: Path, x: Node): Node
    decreases |p|
  {
    if p == [] then x
    else
      var child := if p[0] in n.children then n.children[p[0]] else EmptyNode();
      n.(children := n.children[p[0] := Replace(child, p[1..], x)])
  }

  /**
   * What `Replace` changes: below `p` the tree is `x`'s; a node strictly above `p` keeps
   * everything but its children (a missing one appears as a default node); every path
   * that leaves the route is untouched.
   */
  lemma {:induction false} ReplaceAt(n: Node, p: Path, x: Node, q: Path)
    ensures p <= q ==> GetNode(Replace(n, p, x), q) == GetNode(x, q[|p|..])
    ensures q < p ==>
      GetNode(Replace(n, p, x), q).Some? && SameExceptChildren(GetNode(Replace(n, p, x), q).value, NodeOrDefault(n, q))
    ensures !(p <= q) && !(q < p) ==> GetNode(Replace(n, p, x), q) == GetNode(n, q)
    decreases |p|
  {
    if p == [] {
      assert q[|p|..] == q;
    } else if q == [] {
      assert q < p;
    } else {
      var child := if p[0] in n.children then n.children[p[0]] else EmptyNode();
      var r := Replace(n, p, x);
      assert r.children[p[0]] == Replace(child, p[1..], x);
      if q[0] == p[0] {
        ReplaceAt(child, p[1..], x, q[1..]);
        assert p <= q <==> p[1..] <= q[1..];
        assert q < p <==> q[1..] < p[1..];
        if p <= q { assert q[|p|..] == q[1..][|p[1..]|..]; }
        if p[0] !in n.children {
          if q[1..] != [] {
            assert GetNode(child, q[1..]) == None;
          }
        }
      } else {
        assert !(p <= q) && !(q < p);
      }
    }
  }

  /**
   * `get_or_create_node`: the tree with the node at `dir` present, creating default nodes
   * along the way; an existing node at `dir` is kept as it is.
   */
  function GetOrCreateNode(n: Node, dir: Path): (r: Node)
    ensures r == Replace(n, dir, NodeOrDefault(n, dir))
    ensures GetNode(r, dir) == Some(NodeOrDefault(n, dir))
    decreases |dir|
  {
    if dir == [] then n
    else
      var child := if dir[0] in n.children then n.children[dir[0]] else EmptyNode();
      var r := n.(children := n.children[dir[0] := GetOrCreateNode(child, dir[1..])]);
      assert NodeOrDefault(child, dir[1..]) == NodeOrDefault(n, dir) by {
        if dir[0] !in n.children { EmptyNodeHasNothing(dir[1..], File); }
      }
      ReplaceAt(n, dir, NodeOrDefault(n, dir), dir);
      r
  }

  /**
   * `get_or_create_owning_node`: walk from the root towards `dir`, creating missing nodes,
   * and stop at the first node whose dominating walk covers the rest of `dir`, or at the
   * node for `dir` itself. The result is the new tree and the rest of `dir` below the
   * node it stopped at. Only the nodes passed on the way are created.
   */
  function GetOrCreateOwningNode(n: Node, t: WalkType, dir: Path): (r: (Node, Path))
    ensures OwningResult(n, t, dir, r)
    decreases |dir|
  {
    if dir == [] then (n, dir)
    else if Contains(n, t, dir, 0) then
      assert dir[..0] == [] && dir[0..] == dir;
      (n, dir)
    else
      var child := if dir[0] in n.children then n.children[dir[0]] else EmptyNode();
      var (c, rest) := GetOrCreateOwningNode(child, t, dir[1..]);
      OwningNodeStep(n, t, dir, child, c, rest);
      (n.(children := n.children[dir[0] := c]), rest)
  }

  /**
   * `r` is what `get_or_create_owning_node` promises for `dir`: the rest of `dir` below the
   * node it stopped at `i` levels down, the tree with the nodes on the way created, a walk
   * covering the rest (unless nothing is left), and no covering walk higher up.
   */
  predicate OwningResult(n: Node, t: WalkType, dir: Path, r: (Node, Path)) {
    && |r.1| <= |dir|
    && var i := |dir| - |r.1|;
      r.1 == dir[i..] &&
      r.0 == GetOrCreateNode(n, dir[..i]) &&
      (r.1 == [] || Contains(NodeOrDefault(n, dir[..i]), t, r.1, 0)) &&
      forall j :: 0 <= j < i ==> !Contains(NodeOrDefault(n, dir[..j]), t, dir[j..], 0)
  }

  /** Lifts `OwningResult` one level, from the child to its parent. */
  lemma {:induction false} OwningNodeStep(n: Node, t: WalkType, dir: Path, child: Node, c: Node, rest: Path)
    requires dir != [] && !Contains(n, t, dir, 0)
    requires child == if dir[0] in n.children then n.children[dir[0]] else EmptyNode()
    requires OwningResult(child, t, dir[1..], (c, rest))
    ensures OwningResult(n, t, dir, (n.(children := n.children[dir[0] := c]), rest))
  {
    var i := |dir| - 1 - |rest|;
    forall j | 0 <= j <= i
      ensures NodeOrDefault(n, dir[..j + 1]) == NodeOrDefault(child, dir[1..][..j])
      ensures dir[j + 1..] == dir[1..][j..]
    {
      GetNodePrefixStep(n, dir, j);
      if dir[0] !in n.children { EmptyNodeHasNothing(dir[1..][..j], File); }
    }
    assert dir[..i + 1][1..] == dir[1..][..i];
    assert dir[..i + 1][0] == dir[0];
    assert dir[..0] == [] && dir[0..] == dir;
    forall j | 0 <= j < i + 1 ensures !Contains(NodeOrDefault(n, dir[..j]), t, dir[j..], 0) {
      if j > 0 {
        assert NodeOrDefault(n, dir[..(j - 1) + 1]) == NodeOrDefault(child, dir[1..][..j - 1]);
        assert dir[(j - 1) + 1..] == dir[1..][j - 1..];
      }
    }
  }

  // ---------------------------------------------------------------------------------
  // Pruning contained walks (`remove_contained`)
  // ---------------------------------------------------------------------------------

  /**
   * A walk `dist` levels below the node being pruned at level `level` survives exactly
   * when it reaches that level: `depth + dist >= level`.
   */
  function Survivor(w: Option<Walk>, dist: nat, level: nat): Option<Walk> {
    if w.Some? && w.value.depth + dist >= level then w else None
  }

  /** `retain`'s test: the node holds a walk, has children, or carries useful size hints. */
  predicate Keepable(x: Node, threshold: nat, interesting: Interesting) {
    x.fileWalk.Some? || x.dirWalk.Some? || x.children != map[] || interesting(threshold, x.totalFiles, x.totalDirs)
  }

  /**
   * `inner`'s work on one child at level `level`: the child keeps its walk of kind `t`
   * only when that walk is at least `level` deep, and while `level > 0` its own children
   * are pruned at `level - 1`. The flag says whether the child advanced.
   */
  function PruneChild(c: Node, t: WalkType, level: nat, threshold: nat, interesting: Interesting): (Node, bool)
    decreases c, 2
  {
    var w := GetWalkForType(c, t);
    var advanced := w.Some? && w.value.depth >= level;
    var c1 := if advanced then c else SetWalkForType(c, t, None);
    if level > 0 then
      var below := PruneChildren(c, t, level - 1, threshold, interesting);
      (c1.(children := below.0), advanced || below.1 != {})
    else (c1, advanced)
  }

  /**
   * `inner` on the children of `n` at level `level`: the children `retain` keeps (each
   * pruned) and the names of the children that advanced.
   */
  function PruneChildren(n: Node, t: WalkType, level: nat, threshold: nat, interesting: Interesting)
    : (map<Component, Node>, set<Component>)
    decreases n, 1
  {
    var pruned := PrunedChildren(n, t, level, threshold, interesting);
    (map k | k in pruned && Keepable(pruned[k].0, threshold, interesting) :: pruned[k].0,
     set k | k in pruned && pruned[k].1)
  }

  /** Every child of `n`, pruned at level `level`, with its flag. */
  function PrunedChildren(n: Node, t: WalkType, level: nat, threshold: nat, interesting: Interesting)
    : map<Component, (Node, bool)>
    decreases n, 0
  {
    map k | k in n.children :: PruneChild(n.children[k], t, level, threshold, interesting)
  }

  /** What `PruneChildren` says about one child `k` of `n`. */
  lemma PruneChildrenAt(n: Node, t: WalkType, level: nat, threshold: nat, interesting: Interesting, k: Component)
    ensures var parts := PruneChildren(n, t, level, threshold, interesting);
      && (k in parts.0 <==> k in n.children && Keepable(PruneChild(n.children[k], t, level, threshold, interesting).0, threshold, interesting))
      && (k in parts.0 ==> parts.0[k] == PruneChild(n.children[k], t, level, threshold, interesting).0)
      && (k in parts.1 <==> k in n.children && PruneChild(n.children[k], t, level, threshold, interesting).1)
  {
  }

  /**
   * `remove_contained(t, depth, threshold)`: prune the walks of kind `t` contained in a
   * walk of depth `depth` at `n`, and record the children that advanced.
   */
  function RemoveContained(n: Node, t: WalkType, depth: nat, threshold: nat, interesting: Interesting): Node {
    var (children, advanced) := PruneChildren(n, t, depth, threshold, interesting);
    SetAdvancedChildren(n.(children := children), t, AdvancedChildren(n, t) + advanced)
  }

  /**
   * A child advanced at level `level`: some node of its subtree at most `level` below it
   * holds a walk of kind `t` that reaches the level.
   */
  ghost predicate Advanced(c: Node, t: WalkType, level: nat) {
    exists q :: |q| <= level && Survivor(WalkAt(c, q, t), |q|, level).Some?
  }

  lemma PruneChildZero(c: Node, t: WalkType, threshold: nat, interesting: Interesting)
    ensures PruneChild(c, t, 0, threshold, interesting).0 == c
  {
    if GetWalkForType(c, t).None? {
      assert SetWalkForType(c, t, None) == c;
    }
  }

  /** A node `retain` drops holds nothing anywhere below it. */
  lemma UnkeepableHasNoWalks(z: Node, threshold: nat, interesting: Interesting, q: Path, k: WalkType)
    requires !Keepable(z, threshold, interesting)
    ensures WalkAt(z, q, k) == None
    ensures q != [] ==> GetNode(z, q) == None
  {
  }

  /** Walks after pruning a child: those of kind `t` survive iff they reach the level; the rest stay. */
  lemma {:induction false} PruneChildWalks(c: Node, t: WalkType, level: nat, threshold: nat, interesting: Interesting,
                                           q: Path, k: WalkType)
    ensures WalkAt(PruneChild(c, t, level, threshold, interesting).0, q, k) ==
            if k == t then Survivor(WalkAt(c, q, t), |q|, level) else WalkAt(c, q, k)
    decreases |q|
  {
    var r := PruneChild(c, t, level, threshold, interesting).0;
    if q == [] {
    } else if level == 0 {
      PruneChildZero(c, t, threshold, interesting);
    } else {
      assert q == [q[0]] + q[1..];
      GetNodeCons(r, q[0], q[1..]);
      GetNodeCons(c, q[0], q[1..]);
      PruneChildrenAt(c, t, level - 1, threshold, interesting, q[0]);
      if q[0] in c.children {
        var z := PruneChild(c.children[q[0]], t, level - 1, threshold, interesting).0;
        PruneChildWalks(c.children[q[0]], t, level - 1, threshold, interesting, q[1..], k);
        if !Keepable(z, threshold, interesting) {
          UnkeepableHasNoWalks(z, threshold, interesting, q[1..], k);
        }
      }
    }
  }

  lemma AdvancedOwn(c: Node, t: WalkType, level: nat)
    requires GetWalkForType(c, t).Some? && GetWalkForType(c, t).value.depth >= level
    ensures Advanced(c, t, level)
  {
    assert Survivor(WalkAt(c, [], t), 0, level).Some?;
  }

  lemma AdvancedFromChild(c: Node, t: WalkType, level: nat, k: Component)
    requires level > 0 && k in c.children && Advanced(c.children[k], t, level - 1)
    ensures Advanced(c, t, level)
  {
    var q :| |q| <= level - 1 && Survivor(WalkAt(c.children[k], q, t), |q|, level - 1).Some?;
    GetNodeCons(c, k, q);
    assert Survivor(WalkAt(c, [k] + q, t), |[k] + q|, level).Some?;
  }

  lemma AdvancedToChild(c: Node, t: WalkType, level: nat)
    requires Advanced(c, t, level)
    requires !(GetWalkForType(c, t).Some? && GetWalkForType(c, t).value.depth >= level)
    ensures level > 0 && exists k :: k in c.children && Advanced(c.children[k], t, level - 1)
  {
    var q :| |q| <= level && Survivor(WalkAt(c, q, t), |q|, level).Some?;
    assert q != [];
    assert q == [q[0]] + q[1..];
    GetNodeCons(c, q[0], q[1..]);
    assert Survivor(WalkAt(c.children[q[0]], q[1..], t), |q[1..]|, level - 1).Some?;
  }

  /** The flag `PruneChild` returns is exactly `Advanced`. */
  lemma {:induction false} PruneChildAdvanced(c: Node, t: WalkType, level: nat, threshold: nat, interesting: Interesting)
    ensures PruneChild(c, t, level, threshold, interesting).1 <==> Advanced(c, t, level)
    decreases c
  {
    var w := GetWalkForType(c, t);
    var own := w.Some? && w.value.depth >= level;
    if own {
      AdvancedOwn(c, t, level);
    } else if level > 0 {
      var below := PruneChildren(c, t, level - 1, threshold, interesting).1;
      assert PruneChild(c, t, level, threshold, interesting).1 == (below != {});
      if below != {} {
        var k :| k in below;
        PruneChildrenAt(c, t, level - 1, threshold, interesting, k);
        PruneChildAdvanced(c.children[k], t, level - 1, threshold, interesting);
        AdvancedFromChild(c, t, level, k);
      }
      if Advanced(c, t, level) {
        AdvancedToChild(c, t, level);
        var k :| k in c.children && Advanced(c.children[k], t, level - 1);
        PruneChildAdvanced(c.children[k], t, level - 1, threshold, interesting);
        PruneChildrenAt(c, t, level - 1, threshold, interesting, k);
        assert k in below;
      }
    } else if Advanced(c, t, level) {
      AdvancedToChild(c, t, level);
    }
  }

  /** Pruning never creates nodes and keeps every surviving node's bookkeeping. */
  lemma {:induction false} PruneChildBookkeeping(c: Node, t: WalkType, level: nat, threshold: nat, interesting: Interesting,
                                                 q: Path)
    requires GetNode(PruneChild(c, t, level, threshold, interesting).0, q).Some?
    ensures GetNode(c, q).Some?
    ensures SameBookkeeping(GetNode(PruneChild(c, t, level, threshold, interesting).0, q).value, GetNode(c, q).value)
    decreases |q|
  {
    var r := PruneChild(c, t, level, threshold, interesting).0;
    if q == [] {
    } else if level == 0 {
      PruneChildZero(c, t, threshold, interesting);
    } else {
      assert q == [q[0]] + q[1..];
      GetNodeCons(r, q[0], q[1..]);
      GetNodeCons(c, q[0], q[1..]);
      PruneChildrenAt(c, t, level - 1, threshold, interesting, q[0]);
      PruneChildBookkeeping(c.children[q[0]], t, level - 1, threshold, interesting, q[1..]);
    }
  }

  /** Every node left within the pruned levels is one `retain` would keep. */
  lemma {:induction false} PruneChildNoEmpty(c: Node, t: WalkType, level: nat, threshold: nat, interesting: Interesting,
                                             q: Path)
    requires 1 <= |q| <= level
    requires GetNode(PruneChild(c, t, level, threshold, interesting).0, q).Some?
    ensures Keepable(GetNode(PruneChild(c, t, level, threshold, interesting).0, q).value, threshold, interesting)
    decreases |q|
  {
    var r := PruneChild(c, t, level, threshold, interesting).0;
    assert q == [q[0]] + q[1..];
    GetNodeCons(r, q[0], q[1..]);
    PruneChildrenAt(c, t, level - 1, threshold, interesting, q[0]);
    if |q| > 1 {
      PruneChildNoEmpty(c.children[q[0]], t, level - 1, threshold, interesting, q[1..]);
    }
  }

  /** Pruning never drops a node whose size hints are interesting. */
  lemma {:induction false} PruneChildKeepsHinted(c: Node, t: WalkType, level: nat, threshold: nat, interesting: Interesting,
                                                 q: Path)
    requires GetNode(c, q).Some?
    requires interesting(threshold, GetNode(c, q).value.totalFiles, GetNode(c, q).value.totalDirs)
    ensures GetNode(PruneChild(c, t, level, threshold, interesting).0, q).Some?
    decreases |q|
  {
    var r := PruneChild(c, t, level, threshold, interesting).0;
    if q == [] {
    } else if level == 0 {
      PruneChildZero(c, t, threshold, interesting);
    } else {
      assert q == [q[0]] + q[1..];
      GetNodeCons(r, q[0], q[1..]);
      GetNodeCons(c, q[0], q[1..]);
      PruneChildrenAt(c, t, level - 1, threshold, interesting, q[0]);
      var z := PruneChild(c.children[q[0]], t, level - 1, threshold, interesting).0;
      PruneChildKeepsHinted(c.children[q[0]], t, level - 1, threshold, interesting, q[1..]);
      if q[1..] == [] {
        PruneChildBookkeeping(c.children[q[0]], t, level - 1, threshold, interesting, []);
        assert Keepable(z, threshold, interesting);
      } else {
        assert GetNode(z, q[1..]).Some?;
        assert z.children != map[];
      }
    }
  }

  /** Below the pruned levels the tree is unchanged. */
  lemma {:induction false} PruneChildDeep(c: Node, t: WalkType, level: nat, threshold: nat, interesting: Interesting,
                                          q: Path)
    requires |q| > level
    ensures GetNode(PruneChild(c, t, level, threshold, interesting).0, q) == GetNode(c, q)
    decreases |q|
  {
    var r := PruneChild(c, t, level, threshold, interesting).0;
    if level == 0 {
      PruneChildZero(c, t, threshold, interesting);
    } else {
      assert q == [q[0]] + q[1..];
      GetNodeCons(r, q[0], q[1..]);
      GetNodeCons(c, q[0], q[1..]);
      PruneChildrenAt(c, t, level - 1, threshold, interesting, q[0]);
      if q[0] in c.children {
        var z := PruneChild(c.children[q[0]], t, level - 1, threshold, interesting).0;
        PruneChildDeep(c.children[q[0]], t, level - 1, threshold, interesting, q[1..]);
        if !Keepable(z, threshold, interesting) {
          UnkeepableHasNoWalks(z, threshold, interesting, q[1..], t);
        }
      }
    }
  }

  /** `RemoveContained` sees the same subtrees as pruning `n` itself one level higher. */
  lemma RemoveContainedAsPruneChild(n: Node, t: WalkType, depth: nat, threshold: nat, interesting: Interesting, p: Path)
    requires |p| >= 1
    ensures GetNode(RemoveContained(n, t, depth, threshold, interesting), p) ==
            GetNode(PruneChild(n, t, depth + 1, threshold, interesting).0, p)
  {
    SameChildrenSameDescendants(RemoveContained(n, t, depth, threshold, interesting),
                                PruneChild(n, t, depth + 1, threshold, interesting).0, p);
  }

  /**
   * The walks after `remove_contained(t, depth)` at `n`: a walk of kind `t` at distance
   * `|p| >= 1` survives iff it is not contained in a walk of depth `depth` at `n`, that is
   * iff `depth' + |p| > depth`; walks of the other kind stay.
   */
  lemma RemoveContainedWalks(n: Node, t: WalkType, depth: nat, threshold: nat, interesting: Interesting,
                             p: Path, k: WalkType)
    requires |p| >= 1
    ensures WalkAt(RemoveContained(n, t, depth, threshold, interesting), p, k) ==
            if k == t then Survivor(WalkAt(n, p, t), |p|, depth + 1) else WalkAt(n, p, k)
  {
    RemoveContainedAsPruneChild(n, t, depth, threshold, interesting, p);
    PruneChildWalks(n, t, depth + 1, threshold, interesting, p, k);
  }

  /**
   * `remove_contained` leaves `n`'s own walks and bookkeeping alone, except that it adds
   * exactly the children that advanced to the advanced set of kind `t`.
   */
  lemma RemoveContainedOwnFields(n: Node, t: WalkType, depth: nat, threshold: nat, interesting: Interesting)
    ensures var r := RemoveContained(n, t, depth, threshold, interesting);
      && r.(children := n.children) == SetAdvancedChildren(n, t, AdvancedChildren(r, t))
      && AdvancedChildren(r, t) == AdvancedChildren(n, t) + set c | c in n.children && Advanced(n.children[c], t, depth)
  {
    forall c
      ensures c in PruneChildren(n, t, depth, threshold, interesting).1 <==> c in n.children && Advanced(n.children[c], t, depth)
    {
      PruneChildrenAt(n, t, depth, threshold, interesting, c);
      if c in n.children {
        PruneChildAdvanced(n.children[c], t, depth, threshold, interesting);
      }
    }
  }

  /**
   * The nodes after `remove_contained(t, depth)` at `n`: none is created and each keeps
   * its bookkeeping; within `depth + 1` levels only nodes `retain` keeps remain; nodes
   * with interesting size hints stay; deeper subtrees are unchanged.
   */
  lemma RemoveContainedNodes(n: Node, t: WalkType, depth: nat, threshold: nat, interesting: Interesting, p: Path)
    requires |p| >= 1
    ensures var r := RemoveContained(n, t, depth, threshold, interesting);
      && (GetNode(r, p).Some? ==> GetNode(n, p).Some? && SameBookkeeping(GetNode(r, p).value, GetNode(n, p).value))
      && (|p| <= depth + 1 && GetNode(r, p).Some? ==> Keepable(GetNode(r, p).value, threshold, interesting))
      && (GetNode(n, p).Some? && interesting(threshold, GetNode(n, p).value.totalFiles, GetNode(n, p).value.totalDirs)
          ==> GetNode(r, p).Some?)
      && (|p| > depth + 1 ==> GetNode(r, p) == GetNode(n, p))
  {
    var r := RemoveContained(n, t, depth, threshold, interesting);
    RemoveContainedAsPruneChild(n, t, depth, threshold, interesting, p);
    if GetNode(r, p).Some? {
      PruneChildBookkeeping(n, t, depth + 1, threshold, interesting, p);
      if |p| <= depth + 1 {
        PruneChildNoEmpty(n, t, depth + 1, threshold, interesting, p);
      }
    }
    if GetNode(n, p).Some? && interesting(threshold, GetNode(n, p).value.totalFiles, GetNode(n, p).value.totalDirs) {
      PruneChildKeepsHinted(n, t, depth + 1, threshold, interesting, p);
    }
    if |p| > depth + 1 {
      PruneChildDeep(n, t, depth + 1, threshold, interesting, p);
    }
  }

  // ---------------------------------------------------------------------------------
  // How far below a node its walks reach (termination measure for promotion)
  // ---------------------------------------------------------------------------------

  function Max(a: nat, b: nat): nat {
    if a >= b then a else b
  }

  /** The largest `depth + distance` over the walks of kind `t` strictly below `n`; 0 if none. */
  ghost function Reach(n: Node, t: WalkType): nat
    decreases n, 1
  {
    ReachOver(n, t, n.children.Keys)
  }

  ghost function ReachOver(n: Node, t: WalkType, keys: set<Component>): nat
    requires keys <= n.children.Keys
    decreases n, 0, keys
  {
    if keys == {} then 0
    else
      var k := Pick(keys);
      Max(ChildReach(n.children[k], t), ReachOver(n, t, keys - {k}))
  }

  /** Some member of a non-empty set. */
  ghost function Pick(keys: set<Component>): (k: Component)
    requires keys != {}
    ensures k in keys
  {
    var k :| k in keys; k
  }

  /** The reach of child `c` as seen from its parent. */
  ghost function ChildReach(c: Node, t: WalkType): nat
    decreases c, 2
  {
    var own := if GetWalkForType(c, t).Some? then GetWalkForType(c, t).value.depth + 1 else 0;
    var below := Reach(c, t);
    Max(own, if below > 0 then below + 1 else 0)
  }

  lemma {:induction false} ReachOverUpper(n: Node, t: WalkType, keys: set<Component>, k: Component)
    requires keys <= n.children.Keys && k in keys
    ensures ChildReach(n.children[k], t) <= ReachOver(n, t, keys)
    decreases keys
  {
    var k0 := Pick(keys);
    if k0 != k {
      ReachOverUpper(n, t, keys - {k0}, k);
    }
  }

  lemma {:induction false} ReachOverLeast(n: Node, t: WalkType, keys: set<Component>, bound: nat)
    requires keys <= n.children.Keys
    requires forall k :: k in keys ==> ChildReach(n.children[k], t) <= bound
    ensures ReachOver(n, t, keys) <= bound
    decreases keys
  {
    if keys != {} {
      var k0 := Pick(keys);
      ReachOverLeast(n, t, keys - {k0}, bound);
    }
  }

  /** Every walk strictly below `n` is within its reach. */
  lemma {:induction false} ReachBound(n: Node, t: WalkType, p: Path)
    requires |p| >= 1 && WalkAt(n, p, t).Some?
    ensures WalkAt(n, p, t).value.depth + |p| <= Reach(n, t)
    decreases |p|
  {
    assert p == [p[0]] + p[1..];
    GetNodeCons(n, p[0], p[1..]);
    var c := n.children[p[0]];
    ReachOverUpper(n, t, n.children.Keys, p[0]);
    if |p| > 1 {
      ReachBound(c, t, p[1..]);
    }
  }

  /** The reach is the least bound on `depth + distance` of the walks strictly below `n`. */
  lemma {:induction false} ReachLeast(n: Node, t: WalkType, bound: nat)
    requires forall p :: |p| >= 1 && WalkAt(n, p, t).Some? ==> WalkAt(n, p, t).value.depth + |p| <= bound
    ensures Reach(n, t) <= bound
    decreases n
  {
    forall k | k in n.children ensures ChildReach(n.children[k], t) <= bound {
      var c := n.children[k];
      GetNodeCons(n, k, []);
      assert [k] + [] == [k];
      var below: nat := if bound > 0 then bound - 1 else 0;
      forall q | |q| >= 1 && WalkAt(c, q, t).Some? ensures WalkAt(c, q, t).value.depth + |q| <= below {
        GetNodeCons(n, k, q);
        assert WalkAt(n, [k] + q, t) == WalkAt(c, q, t);
      }
      ReachLeast(c, t, below);
    }
    ReachOverLeast(n, t, n.children.Keys, bound);
  }

  // ---------------------------------------------------------------------------------
  // Inserting a walk (`insert_walk`)
  // ---------------------------------------------------------------------------------

  function Other(t: WalkType): WalkType {
    match t
    case File => Directory
    case Directory => File
  }

  /**
   * One round of `insert_walk` at the walk root: set the walk of depth `depth`, clear the
   * advanced set of its kind, then prune the contained walks below.
   */
  function InsertRound(n: Node, t: WalkType, depth: nat, threshold: nat, interesting: Interesting): Node {
    RemoveContained(ClearAdvancedChildren(SetWalkForType(n, t, Some(Walk(depth))), t), t, depth, threshold, interesting)
  }

  /**
   * `insert_walk(t, root, walk, threshold)`. Nothing changes when the node on the way
   * covers the walk; otherwise descend to `root`, creating nodes, and run rounds there,
   * each one level deeper than the last, while at least `threshold` children advanced.
   */
  function InsertWalk(n: Node, t: WalkType, root: Path, w: Walk, threshold: nat, interesting: Interesting): Node
    requires threshold > 0
    decreases |root|, Reach(n, t) - w.depth
  {
    if Contains(n, t, root, w.depth) then n
    else if root == [] then
      var n2 := InsertRound(n, t, w.depth, threshold, interesting);
      if |AdvancedChildren(n2, t)| >= threshold then
        PromotionBound(n, t, w.depth, threshold, interesting);
        InsertWalk(n2, t, root, Walk(w.depth + 1), threshold, interesting)
      else n2
    else
      var child := if root[0] in n.children then n.children[root[0]] else EmptyNode();
      n.(children := n.children[root[0] := InsertWalk(child, t, root[1..], w, threshold, interesting)])
  }

  /**
   * A round that promotes needs a walk `depth + 1` levels away from the root, so `depth`
   * stays below the reach, which pruning never increases.
   */
  lemma PromotionBound(n: Node, t: WalkType, depth: nat, threshold: nat, interesting: Interesting)
    requires threshold > 0
    requires |AdvancedChildren(InsertRound(n, t, depth, threshold, interesting), t)| >= threshold
    ensures depth + 1 <= Reach(n, t)
    ensures Reach(InsertRound(n, t, depth, threshold, interesting), t) <= Reach(n, t)
  {
    PromotionNeedsReach(n, t, depth, threshold, interesting);
    RoundKeepsReach(n, t, depth, threshold, interesting);
  }

  lemma PromotionNeedsReach(n: Node, t: WalkType, depth: nat, threshold: nat, interesting: Interesting)
    requires AdvancedChildren(InsertRound(n, t, depth, threshold, interesting), t) != {}
    ensures depth + 1 <= Reach(n, t)
  {
    var n1 := ClearAdvancedChildren(SetWalkForType(n, t, Some(Walk(depth))), t);
    RemoveContainedOwnFields(n1, t, depth, threshold, interesting);
    var c :| c in AdvancedChildren(InsertRound(n, t, depth, threshold, interesting), t);
    assert c in n1.children && Advanced(n1.children[c], t, depth);
    var q :| |q| <= depth && Survivor(WalkAt(n1.children[c], q, t), |q|, depth).Some?;
    GetNodeCons(n1, c, q);
    GetNodeCons(n, c, q);
    assert WalkAt(n, [c] + q, t) == WalkAt(n1.children[c], q, t);
    ReachBound(n, t, [c] + q);
  }

  lemma RoundKeepsReach(n: Node, t: WalkType, depth: nat, threshold: nat, interesting: Interesting)
    ensures Reach(InsertRound(n, t, depth, threshold, interesting), t) <= Reach(n, t)
  {
    var n1 := ClearAdvancedChildren(SetWalkForType(n, t, Some(Walk(depth))), t);
    var n2 := InsertRound(n, t, depth, threshold, interesting);
    forall p | |p| >= 1 && WalkAt(n2, p, t).Some? ensures WalkAt(n2, p, t).value.depth + |p| <= Reach(n, t) {
      RemoveContainedWalks(n1, t, depth, threshold, interesting, p, t);
      SameChildrenSameDescendants(n1, n, p);
      ReachBound(n, t, p);
    }
    ReachLeast(n2, t, Reach(n, t));
  }

  /**
   * What the rounds at the walk root leave, relative to the tree `n` before them, once the
   * walk settled at depth `d`: the walk, the domination rule, the pruned walks below, no
   * node created and bookkeeping kept, only keepable nodes within the pruned levels, and
   * nodes with interesting hints kept.
   */
  ghost predicate PrunedFrom(n: Node, r: Node, t: WalkType, d: nat, threshold: nat, interesting: Interesting) {
    && GetWalkForType(r, t) == Some(Walk(d))
    && (t == Directory ==> r.fileWalk == n.fileWalk)
    && (t == File ==> r.dirWalk == if n.dirWalk.Some? && d >= n.dirWalk.value.depth then None else n.dirWalk)
    && DominationOk(r)
    && SameBookkeeping(SetAdvancedChildren(r, t, AdvancedChildren(n, t)), n)
    && (forall p :: |p| >= 1 ==> WalkAt(r, p, t) == Survivor(WalkAt(n, p, t), |p|, d + 1))
    && (forall p :: |p| >= 1 ==> WalkAt(r, p, Other(t)) == WalkAt(n, p, Other(t)))
    && (forall p :: |p| >= 1 && GetNode(r, p).Some? ==>
          GetNode(n, p).Some? && SameBookkeeping(GetNode(r, p).value, GetNode(n, p).value))
    && (forall p :: 1 <= |p| <= d + 1 && GetNode(r, p).Some? ==> Keepable(GetNode(r, p).value, threshold, interesting))
    && (forall p :: |p| >= 1 && GetNode(n, p).Some? && interesting(threshold, GetNode(n, p).value.totalFiles, GetNode(n, p).value.totalDirs)
          ==> GetNode(r, p).Some?)
  }

  /**
   * The advanced set of kind `t` at `r` is exactly the children with a walk that reaches
   * one level past a walk of depth `d` at `r`.
   */
  ghost predicate AdvancedExactly(r: Node, t: WalkType, d: nat) {
    AdvancedChildren(r, t) == set c | c in r.children && Advanced(r.children[c], t, d)
  }

  /** After pruning below a walk of depth `d`, a child advanced before iff it advances now. */
  lemma AdvancedAfterPrune(n1: Node, t: WalkType, d: nat, threshold: nat, interesting: Interesting, c: Component)
    ensures var n2 := RemoveContained(n1, t, d, threshold, interesting);
      (c in n1.children && Advanced(n1.children[c], t, d)) <==> (c in n2.children && Advanced(n2.children[c], t, d))
  {
    var n2 := RemoveContained(n1, t, d, threshold, interesting);
    if c in n1.children && Advanced(n1.children[c], t, d) {
      var q :| |q| <= d && Survivor(WalkAt(n1.children[c], q, t), |q|, d).Some?;
      RemoveContainedWalks(n1, t, d, threshold, interesting, [c] + q, t);
      GetNodeCons(n1, c, q);
      GetNodeCons(n2, c, q);
      assert Survivor(WalkAt(n2.children[c], q, t), |q|, d).Some?;
    }
    if c in n2.children && Advanced(n2.children[c], t, d) {
      var q :| |q| <= d && Survivor(WalkAt(n2.children[c], q, t), |q|, d).Some?;
      RemoveContainedWalks(n1, t, d, threshold, interesting, [c] + q, t);
      GetNodeCons(n1, c, q);
      GetNodeCons(n2, c, q);
      assert Survivor(WalkAt(n1.children[c], q, t), |q|, d).Some?;
    }
  }

  /** One round at a node that does not cover the walk. */
  lemma {:induction false} InsertRoundSpec(n: Node, t: WalkType, d: nat, threshold: nat, interesting: Interesting)
    requires !Contains(n, t, [], d)
    ensures PrunedFrom(n, InsertRound(n, t, d, threshold, interesting), t, d, threshold, interesting)
    ensures AdvancedExactly(InsertRound(n, t, d, threshold, interesting), t, d)
  {
    var n1 := ClearAdvancedChildren(SetWalkForType(n, t, Some(Walk(d))), t);
    var r := InsertRound(n, t, d, threshold, interesting);
    RemoveContainedOwnFields(n1, t, d, threshold, interesting);
    forall p | |p| >= 1
      ensures WalkAt(r, p, t) == Survivor(WalkAt(n, p, t), |p|, d + 1)
      ensures WalkAt(r, p, Other(t)) == WalkAt(n, p, Other(t))
      ensures GetNode(r, p).Some? ==> GetNode(n, p).Some? && SameBookkeeping(GetNode(r, p).value, GetNode(n, p).value)
      ensures |p| <= d + 1 && GetNode(r, p).Some? ==> Keepable(GetNode(r, p).value, threshold, interesting)
      ensures GetNode(n, p).Some? && interesting(threshold, GetNode(n, p).value.totalFiles, GetNode(n, p).value.totalDirs)
              ==> GetNode(r, p).Some?
    {
      SameChildrenSameDescendants(n1, n, p);
      RemoveContainedWalks(n1, t, d, threshold, interesting, p, t);
      RemoveContainedWalks(n1, t, d, threshold, interesting, p, Other(t));
      RemoveContainedNodes(n1, t, d, threshold, interesting, p);
    }
    forall c ensures (c in n1.children && Advanced(n1.children[c], t, d)) <==> (c in r.children && Advanced(r.children[c], t, d)) {
      AdvancedAfterPrune(n1, t, d, threshold, interesting, c);
    }
  }

  /**
   * The final state of `insert_walk` at its root, settled at depth `d`: pruned from `n`,
   * with fewer than `threshold` children advanced, which are exactly those with a walk
   * reaching past depth `d`.
   */
  ghost predicate SettledAt(n: Node, r: Node, t: WalkType, d: nat, threshold: nat, interesting: Interesting) {
    PrunedFrom(n, r, t, d, threshold, interesting) && AdvancedExactly(r, t, d) && |AdvancedChildren(r, t)| < threshold
  }

  /** Two settled rounds, the second at least as deep, compose into one. */
  lemma PrunedFromCompose(n: Node, m: Node, r: Node, t: WalkType, d1: nat, d2: nat, threshold: nat, interesting: Interesting)
    requires d1 <= d2
    requires PrunedFrom(n, m, t, d1, threshold, interesting) && PrunedFrom(m, r, t, d2, threshold, interesting)
    ensures PrunedFrom(n, r, t, d2, threshold, interesting)
  {
    forall p | |p| >= 1 && GetNode(n, p).Some? &&
          interesting(threshold, GetNode(n, p).value.totalFiles, GetNode(n, p).value.totalDirs)
      ensures GetNode(r, p).Some?
    {
      assert GetNode(m, p).Some?;
      assert SameBookkeeping(GetNode(m, p).value, GetNode(n, p).value);
    }
  }

  /**
   * `insert_walk` at its root, for a walk the node does not cover: the walk settles at
   * some depth `d` no smaller than requested, the tree below is pruned accordingly, and
   * fewer than `threshold` children are left advanced, which are exactly those with a
   * walk reaching past depth `d`.
   */
  lemma {:induction false} InsertWalkAtRoot(n: Node, t: WalkType, w: Walk, threshold: nat, interesting: Interesting)
    requires threshold > 0 && !Contains(n, t, [], w.depth)
    ensures exists d :: d >= w.depth && SettledAt(n, InsertWalk(n, t, [], w, threshold, interesting), t, d, threshold, interesting)
    decreases Reach(n, t) - w.depth
  {
    var n2 := InsertRound(n, t, w.depth, threshold, interesting);
    var r := InsertWalk(n, t, [], w, threshold, interesting);
    InsertRoundSpec(n, t, w.depth, threshold, interesting);
    InsertWalkAtRootUnfold(n, t, [], w, threshold, interesting);
    if |AdvancedChildren(n2, t)| >= threshold {
      PromotionBound(n, t, w.depth, threshold, interesting);
      PromotedNotContained(n, n2, t, w.depth, threshold, interesting);
      InsertWalkAtRoot(n2, t, Walk(w.depth + 1), threshold, interesting);
      var d :| d >= w.depth + 1 && SettledAt(n2, r, t, d, threshold, interesting);
      SettledCompose(n, n2, r, t, w.depth, d, threshold, interesting);
    } else {
      assert SettledAt(n, r, t, w.depth, threshold, interesting);
    }
  }

  lemma InsertWalkAtRootUnfold(n: Node, t: WalkType, root: Path, w: Walk, threshold: nat, interesting: Interesting)
    requires threshold > 0 && root == [] && !Contains(n, t, root, w.depth)
    ensures var n2 := InsertRound(n, t, w.depth, threshold, interesting);
      InsertWalk(n, t, root, w, threshold, interesting) ==
      if |AdvancedChildren(n2, t)| >= threshold then InsertWalk(n2, t, root, Walk(w.depth + 1), threshold, interesting) else n2
  {
    var n2 := InsertRound(n, t, w.depth, threshold, interesting);
    if |AdvancedChildren(n2, t)| >= threshold {
      assert InsertWalk(n, t, root, w, threshold, interesting) == InsertWalk(n2, t, root, Walk(w.depth + 1), threshold, interesting);
    } else {
      assert InsertWalk(n, t, root, w, threshold, interesting) == n2;
    }
  }

  /** The promoted walk is never already covered at the root, so the next round runs. */
  lemma PromotedNotContained(n: Node, n2: Node, t: WalkType, d: nat, threshold: nat, interesting: Interesting)
    requires !Contains(n, t, [], d) && PrunedFrom(n, n2, t, d, threshold, interesting)
    ensures !Contains(n2, t, [], d + 1)
  {
  }

  lemma SettledCompose(n: Node, m: Node, r: Node, t: WalkType, d1: nat, d2: nat, threshold: nat, interesting: Interesting)
    requires d1 <= d2
    requires PrunedFrom(n, m, t, d1, threshold, interesting) && SettledAt(m, r, t, d2, threshold, interesting)
    ensures SettledAt(n, r, t, d2, threshold, interesting)
  {
    PrunedFromCompose(n, m, r, t, d1, d2, threshold, interesting);
  }

  /**
   * `insert_walk` along its route: if a node from the root down to `root` covers the walk,
   * nothing changes; otherwise the node at `root` (created as needed) is replaced by
   * the result of inserting there, and every path off the route is untouched.
   */
  lemma {:induction false} InsertWalkRoute(n: Node, t: WalkType, root: Path, w: Walk, threshold: nat, interesting: Interesting)
    requires threshold > 0
    ensures ContainedOnRoute(n, t, root, w.depth) ==> InsertWalk(n, t, root, w, threshold, interesting) == n
    ensures !ContainedOnRoute(n, t, root, w.depth) ==>
      InsertWalk(n, t, root, w, threshold, interesting) ==
      Replace(n, root, InsertWalk(NodeOrDefault(n, root), t, [], w, threshold, interesting))
    decreases |root|
  {
    if root == [] {
      assert root[..0] == [] && root[0..] == root;
      if ContainedOnRoute(n, t, root, w.depth) {
        var i :| 0 <= i <= |root| && RouteContains(n, t, root, i, w.depth);
      }
    } else {
      ContainedOnRouteStep(n, t, root, w.depth);
      var child := if root[0] in n.children then n.children[root[0]] else EmptyNode();
      InsertWalkRoute(child, t, root[1..], w, threshold, interesting);
      if root[0] !in n.children {
        EmptyNodeContainsNothing(t, root[1..], w.depth);
        EmptyNodeHasNothing(root[1..], t);
      }
      assert NodeOrDefault(child, root[1..]) == NodeOrDefault(n, root);
    }
  }

  /**
   * File-dominates-Directory only drops a directory walk no deeper than the file walk,
   * so a node may keep a file walk of depth 1 beside a directory walk of depth 5. A
   * Directory query then sees the shallower file walk, a directory walk of depth 3 is
   * not contained, and inserting it replaces the deeper directory walk.
   */
  lemma ShallowFileWalkShadowsDeeperDirWalk(threshold: nat, interesting: Interesting)
    requires threshold > 0
    ensures var n := EmptyNode().(fileWalk := Some(Walk(1)), dirWalk := Some(Walk(5)));
      && DominationOk(n)
      && GetDominatingWalk(n, Directory) == Some(Walk(1))
      && !Contains(n, Directory, [], 3)
      && InsertWalk(n, Directory, [], Walk(3), threshold, interesting).dirWalk == Some(Walk(3))
  {
    var n := EmptyNode().(fileWalk := Some(Walk(1)), dirWalk := Some(Walk(5)));
    InsertWalkAtRootUnfold(n, Directory, [], Walk(3), threshold, interesting);
    InsertRoundSpec(n, Directory, 3, threshold, interesting);
  }

  // ---------------------------------------------------------------------------------
  // Garbage collection (`gc`, `clear_except_children`)
  // ---------------------------------------------------------------------------------

  /** `Instant - Instant`, which saturates at zero rather than going negative. */
  function SaturatingSub(a: nat, b: nat): nat {
    if a >= b then a - b else 0
  }

  /** A node expires when it was never accessed or not within `timeout` of `now`. */
  predicate Expired(lastAccess: Option<nat>, timeout: nat, now: nat) {
    lastAccess.None? || SaturatingSub(now, lastAccess.value) >= timeout
  }

  /**
   * `clear_except_children`: forget the walks, the access time, the advanced sets, the
   * size hints and the seen files. As in the code, the children and the seen
   * directories survive.
   */
  function ClearExceptChildren(n: Node): (r: Node)
    ensures r == EmptyNode().(children := n.children, seenDirs := n.seenDirs)
  {
    n.(fileWalk := None, dirWalk := None, lastAccess := None, advancedFileChildren := {}, advancedDirChildren := {},
       totalFiles := None, totalDirs := None, seenFiles := {})
  }

  /** The fields a node that survives `gc` ends up with (its children aside). */
  function SweptFields(x: Node, timeout: nat, now: nat): Node {
    if Expired(x.lastAccess, timeout, now) then ClearExceptChildren(x) else x
  }

  /**
   * `gc`'s `inner`: sweep the children first, dropping those not kept; then the node is
   * kept iff it has not expired or still has children, and an expired node that is kept
   * is cleared except for its children.
   */
  function Sweep(n: Node, timeout: nat, now: nat): (Node, bool)
    decreases n, 1
  {
    var children := SweepChildren(n, timeout, now);
    var expired := Expired(n.lastAccess, timeout, now);
    var keep := !expired || children != map[];
    var n1 := n.(children := children);
    (if expired && keep then ClearExceptChildren(n1) else n1, keep)
  }

  function SweepChildren(n: Node, timeout: nat, now: nat): map<Component, Node>
    decreases n, 0
  {
    map k | k in n.children && Sweep(n.children[k], timeout, now).1 :: Sweep(n.children[k], timeout, now).0
  }

  /**
   * `gc(timeout, now)`: sweep the tree; the root has no parent to remove it, so when it is
   * not kept it is cleared instead. Both counts are zero, as the code returns them.
   */
  function Gc(n: Node, timeout: nat, now: nat): (Node, nat, nat) {
    var (r, keep) := Sweep(n, timeout, now);
    (if keep then r else ClearExceptChildren(r), 0, 0)
  }

  /** Some node of the subtree, `n` itself included, has not expired. */
  ghost predicate Live(n: Node, timeout: nat, now: nat) {
    exists p :: GetNode(n, p).Some? && !Expired(GetNode(n, p).value.lastAccess, timeout, now)
  }

  /** A node is kept by `gc` exactly when something in its subtree is still fresh. */
  lemma {:induction false} SweepKeepsLive(n: Node, timeout: nat, now: nat)
    ensures Sweep(n, timeout, now).1 <==> Live(n, timeout, now)
    decreases n
  {
    var children := SweepChildren(n, timeout, now);
    if !Expired(n.lastAccess, timeout, now) {
      assert GetNode(n, []).Some?;
    } else {
      if children != map[] {
        var k :| k in children;
        SweepKeepsLive(n.children[k], timeout, now);
        var q :| GetNode(n.children[k], q).Some? && !Expired(GetNode(n.children[k], q).value.lastAccess, timeout, now);
        GetNodeCons(n, k, q);
        assert GetNode(n, [k] + q) == GetNode(n.children[k], q);
      }
      if Live(n, timeout, now) {
        var p :| GetNode(n, p).Some? && !Expired(GetNode(n, p).value.lastAccess, timeout, now);
        assert p != [];
        assert p == [p[0]] + p[1..];
        GetNodeCons(n, p[0], p[1..]);
        assert Live(n.children[p[0]], timeout, now);
        SweepKeepsLive(n.children[p[0]], timeout, now);
        assert p[0] in children;
      }
    }
  }

  /**
   * The tree after sweeping: a node below the root survives iff it existed and its
   * subtree is live, and a survivor's own fields are cleared iff it expired.
   */
  lemma {:induction false} SweepNodes(n: Node, timeout: nat, now: nat, p: Path)
    ensures p != [] ==>
      (GetNode(Sweep(n, timeout, now).0, p).Some? <==> GetNode(n, p).Some? && Live(GetNode(n, p).value, timeout, now))
    ensures (p != [] || Sweep(n, timeout, now).1) && GetNode(Sweep(n, timeout, now).0, p).Some? ==>
      GetNode(n, p).Some? &&
      SameExceptChildren(GetNode(Sweep(n, timeout, now).0, p).value, SweptFields(GetNode(n, p).value, timeout, now))
    decreases |p|
  {
    var r := Sweep(n, timeout, now).0;
    if p != [] {
      assert p == [p[0]] + p[1..];
      GetNodeCons(n, p[0], p[1..]);
      GetNodeCons(r, p[0], p[1..]);
      if p[0] in n.children {
        var c := n.children[p[0]];
        SweepKeepsLive(c, timeout, now);
        SweepNodes(c, timeout, now, p[1..]);
        if p[1..] != [] && GetNode(c, p[1..]).Some? && Live(GetNode(c, p[1..]).value, timeout, now) {
          LiveBelow(c, p[1..], timeout, now);
        }
      }
    }
  }

  /** A live node makes every ancestor live. */
  lemma LiveBelow(n: Node, p: Path, timeout: nat, now: nat)
    requires GetNode(n, p).Some? && Live(GetNode(n, p).value, timeout, now)
    ensures Live(n, timeout, now)
  {
    var x := GetNode(n, p).value;
    var q :| GetNode(x, q).Some? && !Expired(GetNode(x, q).value.lastAccess, timeout, now);
    GetNodeAppend(n, p, q);
  }

  /**
   * `gc` on the whole tree: the descendants that survive are exactly the live ones, each
   * cleared iff it expired; the root is always there, cleared iff it expired; both counts
   * are zero.
   */
  lemma GcSpec(n: Node, timeout: nat, now: nat, p: Path)
    ensures var (r, deleted, remaining) := Gc(n, timeout, now);
      && deleted == 0 && remaining == 0
      && SameExceptChildren(r, SweptFields(n, timeout, now))
      && (p != [] ==> (GetNode(r, p).Some? <==> GetNode(n, p).Some? && Live(GetNode(n, p).value, timeout, now)))
      && (p != [] && GetNode(r, p).Some? ==>
            SameExceptChildren(GetNode(r, p).value, SweptFields(GetNode(n, p).value, timeout, now)))
  {
    var (s, keep) := Sweep(n, timeout, now);
    var r := Gc(n, timeout, now).0;
    SweepNodes(n, timeout, now, p);
    if p != [] {
      SameChildrenSameDescendants(r, s, p);
    }
  }

  /**
   * `gc`'s `inner` as the code runs it: sweep each child in turn, adding its counts and
   * retaining it when it is kept, then decide about the node itself.
   */
  method GcInner(n: Node, timeout: nat, now: nat) returns (r: Node, deleted: nat, retained: nat, keep: bool)
    ensures (r, keep) == Sweep(n, timeout, now)
    ensures deleted == 0 && retained == 0
    decreases n
  {
    deleted, retained := 0, 0;
    var children: map<Component, Node> := map[];
    var todo := n.children.Keys;
    while todo != {}
      invariant todo <= n.children.Keys
      invariant children == map k | k in n.children.Keys - todo && Sweep(n.children[k], timeout, now).1 ::
                               Sweep(n.children[k], timeout, now).0
      invariant deleted == 0 && retained == 0
      decreases todo
    {
      var name :| name in todo;
      var child, d, rc, keepChild := GcInner(n.children[name], timeout, now);
      deleted, retained := deleted + d, retained + rc;
      if keepChild {
        children := children[name := child];
      }
      todo := todo - {name};
    }
    assert n.children.Keys - todo == n.children.Keys;
    assert children == SweepChildren(n, timeout, now);
    r := n.(children := children);
    var expired := Expired(n.lastAccess, timeout, now);
    keep := !expired || r.children != map[];
    if expired && keep {
      r := ClearExceptChildren(r);
    }
  }

  /** `gc` as the code runs it. */
  method GcMethod(n: Node, timeout: nat, now: nat) returns (r: Node, deleted: nat, remaining: nat)
    ensures (r, deleted, remaining) == Gc(n, timeout, now)
  {
    var keep;
    r, deleted, remaining, keep := GcInner(n, timeout, now);
    if !keep {
      r := ClearExceptChildren(r);
    }
  }

  // ---------------------------------------------------------------------------------
  // Listing walks (`child_walks`, `list_walks`)
  // ---------------------------------------------------------------------------------

  /** `child_walks`: the walks of kind `t` rooted at the immediate children, by name. */
  function ChildWalks(n: Node, t: WalkType): (r: map<Component, Walk>)
    ensures forall name :: name in r <==> WalkAt(n, [name], t).Some?
    ensures forall name :: name in r ==> WalkAt(n, [name], t) == Some(r[name])
  {
    var r := map name | name in n.children && GetWalkForType(n.children[name], t).Some? ::
      GetWalkForType(n.children[name], t).value;
    forall name ensures WalkAt(n, [name], t) == if name in n.children then GetWalkForType(n.children[name], t) else None {
      GetNodeCons(n, name, []);
      assert [name] + [] == [name];
    }
    r
  }

  /**
   * `list_walks`'s `inner`: the entries it appends for the subtree `n` found at `path`,
   * namely `(path + q, walk)` for the walk of kind `t` at every node `q` below `n`, the
   * node's own walk first, then each child's in turn. Children come in no particular
   * order, so the entries are described by what they hold: every entry is a walk of the
   * tree, every walk of the tree appears, and no path appears twice. A node's walk is
   * pushed before its children are visited, so every entry follows those of its ancestors.
   */
  method ListWalksInner(n: Node, t: WalkType, path: Path) returns (out: seq<(Path, Walk)>)
    ensures GetWalkForType(n, t).Some? ==> |out| > 0 && out[0] == (path, GetWalkForType(n, t).value)
    ensures Listing(n, t, path, out)
    ensures AncestorsFirst(out)
    decreases n
  {
    out := [];
    if GetWalkForType(n, t).Some? {
      out := [(path, GetWalkForType(n, t).value)];
      assert path[|path|..] == [];
    }
    var start := |out|;
    var todo := n.children.Keys;
    while todo != {}
      invariant todo <= n.children.Keys
      invariant start <= |out|
      invariant GetWalkForType(n, t).Some? ==> start == 1 && out[0] == (path, GetWalkForType(n, t).value)
      invariant GetWalkForType(n, t).None? ==> start == 0
      invariant PartialListing(n, t, path, n.children.Keys - todo, start, out)
      invariant AncestorsFirst(out)
      decreases todo
    {
      var name :| name in todo;
      var sub := ListWalksInner(n.children[name], t, path + [name]);
      ListStep(n, t, path, n.children.Keys - todo, start, out, name, sub);
      ListStepOrdered(n, t, path, n.children.Keys - todo, start, out, name, sub);
      assert n.children.Keys - (todo - {name}) == (n.children.Keys - todo) + {name};
      out := out + sub;
      todo := todo - {name};
    }
    assert n.children.Keys - todo == n.children.Keys;
    PartialListingComplete(n, t, path, start, out);
  }

  /** `e` is `(path + q, w)` for a walk `w` of kind `t` at `q` below `n`. */
  predicate ListedUnder(n: Node, t: WalkType, path: Path, e: (Path, Walk)) {
    path <= e.0 && WalkAt(n, e.0[|path|..], t) == Some(e.1)
  }

  /** An entry whose path is a proper prefix of another's comes before it. */
  predicate AncestorsFirst(out: seq<(Path, Walk)>) {
    forall i, j :: 0 <= i < |out| && 0 <= j < |out| && out[i].0 < out[j].0 ==> i < j
  }

  /** The entries are exactly the walks of kind `t` below `n`, prefixed by `path`, each path once. */
  ghost predicate Listing(n: Node, t: WalkType, path: Path, out: seq<(Path, Walk)>) {
    && (forall i :: 0 <= i < |out| ==> ListedUnder(n, t, path, out[i]))
    && (forall q :: WalkAt(n, q, t).Some? ==> (path + q, WalkAt(n, q, t).value) in out)
    && (forall i, j :: 0 <= i < j < |out| ==> out[i].0 != out[j].0)
  }

  /**
   * The loop's state after the children in `done`: the node's own walk (if any) before
   * `start`, then the entries of the children in `done`.
   */
  ghost predicate PartialListing(n: Node, t: WalkType, path: Path, done: set<Component>, start: nat, out: seq<(Path, Walk)>) {
    && start <= |out|
    && (start == 1 ==> out[0].0 == path)
    && start <= 1
    && (forall i :: 0 <= i < |out| ==> ListedUnder(n, t, path, out[i]))
    && (forall i :: start <= i < |out| ==> |out[i].0| > |path| && out[i].0[|path|] in done)
    && (forall k, q :: k in done && k in n.children && WalkAt(n.children[k], q, t).Some? ==>
          (path + [k] + q, WalkAt(n.children[k], q, t).value) in out[start..])
    && (forall i, j :: 0 <= i < j < |out| ==> out[i].0 != out[j].0)
  }

  lemma ListedUnderChild(n: Node, t: WalkType, path: Path, name: Component, e: (Path, Walk))
    requires name in n.children && ListedUnder(n.children[name], t, path + [name], e)
    ensures ListedUnder(n, t, path, e)
    ensures |e.0| > |path| && e.0[|path|] == name
  {
    var q := e.0[|path| + 1..];
    assert e.0[|path|..] == [name] + q;
    GetNodeCons(n, name, q);
    assert (path + [name]) <= e.0;
    assert e.0[|path|] == (path + [name])[|path|];
  }

  /** One turn of `inner`'s loop over the children keeps `PartialListing`. */
  lemma ListStep(n: Node, t: WalkType, path: Path, done: set<Component>, start: nat, out: seq<(Path, Walk)>,
                 name: Component, sub: seq<(Path, Walk)>)
    requires name in n.children && name !in done
    requires PartialListing(n, t, path, done, start, out)
    requires Listing(n.children[name], t, path + [name], sub)
    ensures PartialListing(n, t, path, done + {name}, start, out + sub)
  {
    ListStepListed(n, t, path, name, out, sub);
    ListStepDistinct(n, t, path, done, start, out, name, sub);
    ListStepCovers(n, t, path, done, start, out, name, sub);
  }

  /** The child's entries, appended, are listed under `n`, below `name`. */
  lemma ListStepListed(n: Node, t: WalkType, path: Path, name: Component, out: seq<(Path, Walk)>, sub: seq<(Path, Walk)>)
    requires name in n.children
    requires Listing(n.children[name], t, path + [name], sub)
    ensures forall i :: |out| <= i < |out + sub| ==>
              ListedUnder(n, t, path, (out + sub)[i]) && |(out + sub)[i].0| > |path| && (out + sub)[i].0[|path|] == name
  {
    var all := out + sub;
    forall i | |out| <= i < |all| ensures ListedUnder(n, t, path, all[i]) && |all[i].0| > |path| && all[i].0[|path|] == name {
      assert all[i] == sub[i - |out|];
      ListedUnderChild(n, t, path, name, sub[i - |out|]);
    }
  }

  /** Appending the child's entries keeps every path once. */
  lemma ListStepDistinct(n: Node, t: WalkType, path: Path, done: set<Component>, start: nat, out: seq<(Path, Walk)>,
                         name: Component, sub: seq<(Path, Walk)>)
    requires name in n.children && name !in done
    requires PartialListing(n, t, path, done, start, out)
    requires Listing(n.children[name], t, path + [name], sub)
    requires forall i :: |out| <= i < |out + sub| ==>
               |(out + sub)[i].0| > |path| && (out + sub)[i].0[|path|] == name
    ensures forall i, j :: 0 <= i < j < |out + sub| ==> (out + sub)[i].0 != (out + sub)[j].0
  {
    var all := out + sub;
    forall i, j | 0 <= i < j < |all| ensures all[i].0 != all[j].0 {
      if i < |out| && j >= |out| {
        if i < start {
          assert all[i].0 == path;
        } else {
          assert all[i].0[|path|] in done;
        }
      } else if i >= |out| {
        assert all[i] == sub[i - |out|] && all[j] == sub[j - |out|];
      }
    }
  }

  /**
   * Appending the child's entries keeps ancestors first: the child's paths all pass
   * through `name`, which no earlier entry's path does below `path`.
   */
  lemma ListStepOrdered(n: Node, t: WalkType, path: Path, done: set<Component>, start: nat, out: seq<(Path, Walk)>,
                        name: Component, sub: seq<(Path, Walk)>)
    requires name in n.children && name !in done
    requires PartialListing(n, t, path, done, start, out) && AncestorsFirst(out)
    requires Listing(n.children[name], t, path + [name], sub) && AncestorsFirst(sub)
    ensures AncestorsFirst(out + sub)
  {
    ListStepListed(n, t, path, name, out, sub);
    var all := out + sub;
    forall i, j | 0 <= i < |all| && 0 <= j < |all| && all[i].0 < all[j].0 ensures i < j {
      if i >= |out| && j >= |out| {
        assert all[i] == sub[i - |out|] && all[j] == sub[j - |out|];
      } else if i < |out| && j < |out| {
        assert all[i] == out[i] && all[j] == out[j];
      }
    }
  }

  /** After appending the child's entries, every walk below the children done so far is present. */
  lemma ListStepCovers(n: Node, t: WalkType, path: Path, done: set<Component>, start: nat, out: seq<(Path, Walk)>,
                       name: Component, sub: seq<(Path, Walk)>)
    requires name in n.children
    requires PartialListing(n, t, path, done, start, out)
    requires Listing(n.children[name], t, path + [name], sub)
    ensures forall k, q :: k in done + {name} && k in n.children && WalkAt(n.children[k], q, t).Some? ==>
              (path + [k] + q, WalkAt(n.children[k], q, t).value) in (out + sub)[start..]
  {
    var all := out + sub;
    forall k, q | k in done + {name} && k in n.children && WalkAt(n.children[k], q, t).Some?
      ensures (path + [k] + q, WalkAt(n.children[k], q, t).value) in all[start..]
    {
      var e := (path + [k] + q, WalkAt(n.children[k], q, t).value);
      if k == name {
        assert path + [k] + q == (path + [name]) + q;
        var i :| 0 <= i < |sub| && sub[i] == e;
        assert all[start..][|out| - start + i] == e;
      } else {
        var i :| 0 <= i < |out[start..]| && out[start..][i] == e;
        assert all[start..][i] == e;
      }
    }
  }

  /** Once every child is done, `PartialListing` is the full `Listing`. */
  lemma PartialListingComplete(n: Node, t: WalkType, path: Path, start: nat, out: seq<(Path, Walk)>)
    requires PartialListing(n, t, path, n.children.Keys, start, out)
    requires GetWalkForType(n, t).Some? ==> start == 1 && out[0] == (path, GetWalkForType(n, t).value)
    requires GetWalkForType(n, t).None? ==> start == 0
    ensures Listing(n, t, path, out)
  {
    forall q | WalkAt(n, q, t).Some? ensures (path + q, WalkAt(n, q, t).value) in out {
      if q == [] {
        assert path + q == path;
      } else {
        assert q == [q[0]] + q[1..];
        GetNodeCons(n, q[0], q[1..]);
        assert path + [q[0]] + q[1..] == path + q;
        var e := (path + q, WalkAt(n, q, t).value);
        var i :| 0 <= i < |out[start..]| && out[start..][i] == e;
        assert out[start + i] == e;
      }
    }
  }

  /**
   * `list_walks`: every walk of kind `t` in the tree, with its full path, each path once,
   * and every walk after the walks above it.
   */
  method ListWalks(n: Node, t: WalkType) returns (list: seq<(Path, Walk)>)
    ensures forall e :: e in list ==> WalkAt(n, e.0, t) == Some(e.1)
    ensures forall q :: WalkAt(n, q, t).Some? ==> (q, WalkAt(n, q, t).value) in list
    ensures forall i, j :: 0 <= i < j < |list| ==> list[i].0 != list[j].0
    ensures forall i, j :: 0 <= i < |list| && 0 <= j < |list| && list[i].0 < list[j].0 ==> i < j
  {
    list := ListWalksInner(n, t, []);
    forall e | e in list ensures WalkAt(n, e.0, t) == Some(e.1) {
      var i :| 0 <= i < |list| && list[i] == e;
      assert e.0[0..] == e.0;
    }
    forall q | WalkAt(n, q, t).Some? ensures (q, WalkAt(n, q, t).value) in list {
      assert [] + q == q;
    }
  }

  // ---------------------------------------------------------------------------------
  // `remove_contained` as the code runs it
  // ---------------------------------------------------------------------------------

  /**
   * `remove_contained`'s `inner`: visit each child once, clearing its walk of kind `t`
   * unless it reaches `depth`, pruning below it while `depth > 0`, and retaining it only
   * when `retain` keeps it; at the top level the names of the children that advanced are
   * collected and then inserted into the advanced set one by one.
   */
  method PruneInner(n: Node, t: WalkType, depth: nat, top: bool, threshold: nat, interesting: Interesting)
    returns (r: Node, anyAdvanced: bool)
    ensures var (children, advanced) := PruneChildren(n, t, depth, threshold, interesting);
      && r == (if top then SetAdvancedChildren(n.(children := children), t, AdvancedChildren(n, t) + advanced)
               else n.(children := children))
      && anyAdvanced == (advanced != {})
    decreases depth, 2
  {
    var children, newAdvanced;
    children, newAdvanced, anyAdvanced := PruneChildrenLoop(n, t, depth, top, threshold, interesting);
    r := n.(children := children);
    r := InsertAdvancedChildren(r, t, newAdvanced);
  }

  /**
   * The `retain` loop of `inner`: the children it keeps, the names it collects as
   * advanced (only at the top level) and whether any child advanced.
   */
  method PruneChildrenLoop(n: Node, t: WalkType, depth: nat, top: bool, threshold: nat, interesting: Interesting)
    returns (children: map<Component, Node>, newAdvanced: seq<Component>, anyAdvanced: bool)
    ensures children == PruneChildren(n, t, depth, threshold, interesting).0
    ensures forall x :: x in newAdvanced <==> top && x in PruneChildren(n, t, depth, threshold, interesting).1
    ensures anyAdvanced == (PruneChildren(n, t, depth, threshold, interesting).1 != {})
    decreases depth, 1
  {
    ghost var pruned := PrunedChildren(n, t, depth, threshold, interesting);
    children := map[];
    newAdvanced := [];
    anyAdvanced := false;
    var todo := n.children.Keys;
    while todo != {}
      invariant todo <= n.children.Keys
      invariant Retained(pruned, n.children.Keys - todo, top, threshold, interesting, children, newAdvanced, anyAdvanced)
      decreases todo
    {
      var name :| name in todo;
      var child, childAdvanced := PruneChildMethod(n.children[name], t, depth, threshold, interesting);
      assert pruned[name] == (child, childAdvanced);
      RetainedStep(pruned, n.children.Keys - todo, name, top, threshold, interesting, children, newAdvanced, anyAdvanced);
      if top && childAdvanced {
        newAdvanced := newAdvanced + [name];
      }
      anyAdvanced := anyAdvanced || childAdvanced;
      if Keepable(child, threshold, interesting) {
        children := children[name := child];
      }
      assert n.children.Keys - (todo - {name}) == (n.children.Keys - todo) + {name};
      todo := todo - {name};
    }
    assert n.children.Keys - todo == n.children.Keys;
    PruneChildrenParts(n, t, depth, threshold, interesting, pruned, children);
  }

  /**
   * What the `retain` loop has built once the children in `done` are visited, in terms of
   * `pruned`, each child's pruned subtree and whether it advanced.
   */
  ghost predicate Retained(pruned: map<Component, (Node, bool)>, done: set<Component>, top: bool,
                           threshold: nat, interesting: Interesting,
                           children: map<Component, Node>, newAdvanced: seq<Component>, anyAdvanced: bool) {
    && done <= pruned.Keys
    && children.Keys <= done
    && (forall k :: k in done ==> (k in children <==> Keepable(pruned[k].0, threshold, interesting)))
    && (forall k :: k in children ==> children[k] == pruned[k].0)
    && (forall x :: x in newAdvanced <==> top && x in done && pruned[x].1)
    && (anyAdvanced <==> exists k :: k in done && pruned[k].1)
  }

  /** Visiting one more child keeps `Retained`. */
  lemma RetainedStep(pruned: map<Component, (Node, bool)>, done: set<Component>, name: Component, top: bool,
                     threshold: nat, interesting: Interesting,
                     children: map<Component, Node>, newAdvanced: seq<Component>, anyAdvanced: bool)
    requires Retained(pruned, done, top, threshold, interesting, children, newAdvanced, anyAdvanced)
    requires name in pruned && name !in done
    ensures var (child, advanced) := pruned[name];
      Retained(pruned, done + {name}, top, threshold, interesting,
               if Keepable(child, threshold, interesting) then children[name := child] else children,
               if top && advanced then newAdvanced + [name] else newAdvanced,
               anyAdvanced || advanced)
  {
  }

  lemma PruneChildrenParts(n: Node, t: WalkType, depth: nat, threshold: nat, interesting: Interesting,
                           pruned: map<Component, (Node, bool)>, children: map<Component, Node>)
    requires pruned == PrunedChildren(n, t, depth, threshold, interesting)
    requires children.Keys <= n.children.Keys
    requires forall k :: k in n.children ==> (k in children <==> Keepable(pruned[k].0, threshold, interesting))
    requires forall k :: k in children ==> children[k] == pruned[k].0
    ensures PruneChildren(n, t, depth, threshold, interesting).0 == children
    ensures PruneChildren(n, t, depth, threshold, interesting).1 == set k | k in pruned && pruned[k].1
  {
  }

  /** The body of `inner`'s `retain` closure for one child. */
  method PruneChildMethod(c: Node, t: WalkType, depth: nat, threshold: nat, interesting: Interesting)
    returns (child: Node, childAdvanced: bool)
    ensures (child, childAdvanced) == PruneChild(c, t, depth, threshold, interesting)
    decreases depth, 0
  {
    child := c;
    childAdvanced := false;
    var w := GetWalkForType(child, t);
    if w.Some? && w.value.depth >= depth {
      childAdvanced := true;
    } else {
      child := SetWalkForType(child, t, None);
    }
    if depth > 0 {
      var below;
      assert PruneChildren(child, t, depth - 1, threshold, interesting) == PruneChildren(c, t, depth - 1, threshold, interesting);
      child, below := PruneInner(child, t, depth - 1, false, threshold, interesting);
      if below {
        childAdvanced := true;
      }
    }
  }

  /** The loop `for advanced in new_advanced_children { insert_advanced_child(...) }`. */
  method InsertAdvancedChildren(n: Node, t: WalkType, names: seq<Component>) returns (r: Node)
    ensures forall x :: x in AdvancedChildren(r, t) <==> x in AdvancedChildren(n, t) || x in names
    ensures r == SetAdvancedChildren(n, t, AdvancedChildren(r, t))
  {
    r := n;
    for i := 0 to |names|
      invariant forall x :: x in AdvancedChildren(r, t) <==> x in AdvancedChildren(n, t) || x in names[..i]
      invariant r == SetAdvancedChildren(n, t, AdvancedChildren(r, t))
    {
      assert names[..i + 1] == names[..i] + [names[i]];
      r := InsertAdvancedChild(r, t, names[i]).0;
    }
    assert names[..|names|] == names;
  }

  /** `remove_contained` as the code runs it. */
  method RemoveContainedMethod(n: Node, t: WalkType, depth: nat, threshold: nat, interesting: Interesting) returns (r: Node)
    ensures r == RemoveContained(n, t, depth, threshold, interesting)
  {
    var anyAdvanced;
    r, anyAdvanced := PruneInner(n, t, depth, true, threshold, interesting);
  }
}
