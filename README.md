# Sapling core pieces, modelled in Dafny

This project models six parts of the Sapling source-control system and proves properties of them.

- **Walk detection** (`walk_node.rs`). A trie of directories records confirmed "walks": file or directory accesses that cover every path some depth below a root. The model covers lookup, insertion with promotion of the walk to a deeper depth, removal of contained walks, listing, and garbage collection of stale nodes.
- **In-memory id map** (`mem_idmap.rs`). A bidirectional map between DAG ids and vertex names. The model covers the range removal, the hex-prefix lookup, and the version the map bumps or renews when it changes.
- **ISL repository cache** (`RepositoryCache.ts`). The cache keeps reference-counted repositories, one per root. The model covers lookup, the fast path of `getOrCreate`, the references handed out, clearing the cache, and counting active servers.
- **Dirstate guard** (`dirstateguard.py`). The guard saves a dirstate backup and then either discards it or restores it, exactly once.
- **`debugdiffdirs` client** (`debug_diff_dirs.rs`). The model covers the command-line arguments, the include/exclude path filter, and the loop that gathers changed directories up to a limit.
- **`edenfsctl debug subscribe`** (`subscribe.rs`). The model covers the decision whether a journal delta is reported.

## How the model is shaped

- The walk trie is a tree of owned values, so each in-place update of a `WalkNode` is a function from the old tree to the new one.
  - A mutable reference the source returns becomes the new tree together with the path that locates the node.
  - The loops of `list_walks`, `gc` and `remove_contained` are also written as methods with loop invariants. Each is proved equal to its functional model.
- `CoreMemIdMap`, `MemIdMap`, `RefCounted`, `RepositoryReferenceImpl`, `RepositoryCache`, the `Repository` seen by the cache, the dirstate and the guard are classes.
  - Their methods update fields in place.
  - Each method is specified by the state it leaves, stated against the old state.
- The rest consists of functions, with lemmas about them.

Modules:
- `Wrappers`: `Option` and `Result`.
- `Bytes`: byte strings and their lexicographic order.
- `Text`: decimal rendering of a number.
- `WalkNode`, `MemIdMap`, `RepositoryCache`, `DirstateGuard`, `DebugDiffDirs` and `Subscribe`: one module per source file.

Behaviour followed as the code has it:
- `get_walk` returns the dominating walk of the node found exactly at the given path. It does not search the ancestors of that path.
- `gc` always reports 0 deleted and 0 remaining nodes, because its counters are never incremented. The model returns `(0, 0)` too.
- `clear_except_children` keeps the node's seen directories as well as its children. It clears the seen files, the walks, the hints, the advanced sets and the access time.
- `dispose` on a `RefCounted` lowers the count on every call, so the count can go below zero. The repository itself is disposed only once.
- `have_non_hg_changes` compares bytes, so `.hgignore` counts as a Mercurial path and `a/.hg/x` does not.
- `set_walk_for_type` drops a directory walk only when the new file walk is at least as deep. So a node can keep a file walk of depth 1 beside a directory walk of depth 5. A Directory query then returns the shallower file walk. Inserting a directory walk of depth 3 at that node passes the `contains` check and replaces the depth-5 directory walk with the depth-3 one, so the directory walk does not only deepen (`ShallowFileWalkShadowsDeeperDirWalk`).

## Model

| member | source | states |
|---|---|---|
| WalkNode.GetDominatingWalk | eden/scm/lib/walkdetector/src/walk_node.rs:224-229 | No contract of its own. It is specified by FileContainsImpliesDirectoryContains and ShallowFileWalkShadowsDeeperDirWalk. |
| WalkNode.FileContainsImpliesDirectoryContains | eden/scm/lib/walkdetector/src/walk_node.rs:343-346 | A path contained for File is also contained for Directory, because the file walk dominates. |
| WalkNode.SetWalkForType | eden/scm/lib/walkdetector/src/walk_node.rs:238-253 | The walk of the kind is set. Setting a file walk drops a directory walk no deeper than it, so file-dominates-directory holds afterwards. Children and bookkeeping are unchanged. |
| WalkNode.InsertAdvancedChild | eden/scm/lib/walkdetector/src/walk_node.rs:255-270 | The advanced set of the kind gains the name, and its new size is returned. Nothing else changes. |
| WalkNode.SetAdvancedChildren | eden/scm/lib/walkdetector/src/walk_node.rs:272-277 | The advanced set of the kind becomes the given set. Children and walks are unchanged. |
| WalkNode.ClearAdvancedChildren | eden/scm/lib/walkdetector/src/walk_node.rs:279-284 | The advanced set of the kind becomes empty. Nothing else changes. |
| WalkNode.IsWalkedMonotoneInObservations | eden/scm/lib/walkdetector/src/walk_node.rs:349-364 | Observing one more entry never un-walks a node. |
| WalkNode.GetNodeAppend | eden/scm/lib/walkdetector/src/walk_node.rs:62-70 | Looking up p + q is looking up p and then q from the node found. |
| WalkNode.GetWalk | eden/scm/lib/walkdetector/src/walk_node.rs:51-59 | The result is the dominating walk of the node at exactly that path, or nothing when the path has no node. |
| WalkNode.ContainedOnRouteStep | eden/scm/lib/walkdetector/src/walk_node.rs:73-96 | A path is contained on its route iff the current node contains it, or the child on the route contains the rest. |
| WalkNode.GetContainingNode | eden/scm/lib/walkdetector/src/walk_node.rs:73-96 | If a node is returned, it is the first node on the route whose dominating walk covers the rest of the path, and the rest is returned with it. Nothing is returned iff no node on the route covers the path. |
| WalkNode.ReplaceAt | eden/scm/lib/walkdetector/src/walk_node.rs:127-144 | Replacing the node at p changes what is at or below p. The nodes above p change only in their children. All other nodes are unchanged. |
| WalkNode.GetOrCreateNode | eden/scm/lib/walkdetector/src/walk_node.rs:127-144 | The tree gets the existing-or-default node at the path, with the missing nodes on the way created. Afterwards the lookup of the path finds that node. |
| WalkNode.GetOrCreateOwningNode | eden/scm/lib/walkdetector/src/walk_node.rs:101-124 | The returned node is at the shortest prefix whose node contains the remaining suffix, or at the full path when no node does, creating nodes on the way. No earlier prefix contains its suffix. |
| WalkNode.PruneChildWalks | eden/scm/lib/walkdetector/src/walk_node.rs:289-336 | After pruning, a walk of the pruned kind survives iff it reaches past the pruning level. Walks of the other kind are untouched. |
| WalkNode.PruneChildAdvanced | eden/scm/lib/walkdetector/src/walk_node.rs:298-329 | A child is reported advanced iff some node within level of it has a walk that reaches the level. |
| WalkNode.PruneChildBookkeeping | eden/scm/lib/walkdetector/src/walk_node.rs:289-336 | Every node left after pruning was in the tree before, with the same hints, seen sets, access time and advanced sets. |
| WalkNode.PruneChildNoEmpty | eden/scm/lib/walkdetector/src/walk_node.rs:325-328 | No node within the pruned levels is left without a walk, without children and without interesting hints. |
| WalkNode.PruneChildKeepsHinted | eden/scm/lib/walkdetector/src/walk_node.rs:325-328 | A node with interesting size hints is never dropped. |
| WalkNode.PruneChildDeep | eden/scm/lib/walkdetector/src/walk_node.rs:289-336 | Nodes deeper than the pruning level are untouched. |
| WalkNode.RemoveContainedWalks | eden/scm/lib/walkdetector/src/walk_node.rs:287-339 | Below the node, a walk of the kind survives iff it reaches past depth + 1 from the node. Walks of the other kind are untouched. |
| WalkNode.RemoveContainedOwnFields | eden/scm/lib/walkdetector/src/walk_node.rs:331-338 | The node's advanced set grows by exactly the children that have a walk reaching past the depth. The node's other fields are unchanged. |
| WalkNode.RemoveContainedNodes | eden/scm/lib/walkdetector/src/walk_node.rs:287-339 | Surviving nodes existed before, with the same bookkeeping. Nodes within the pruned levels are keepable. Hinted nodes survive. Deeper nodes are unchanged. |
| WalkNode.PromotionBound | eden/scm/lib/walkdetector/src/walk_node.rs:175-186 | A round that promotes requires a walk below that reaches one level deeper. The round never increases how far walks below reach, so promotion terminates. |
| WalkNode.RoundKeepsReach | eden/scm/lib/walkdetector/src/walk_node.rs:175-186 | A round of insertion never increases how far walks below the root reach. |
| WalkNode.InsertRoundSpec | eden/scm/lib/walkdetector/src/walk_node.rs:175-186 | One round sets the walk, prunes the contained walks below it, and keeps the node's other fields. The advanced set becomes exactly the children that reach past the new depth. |
| WalkNode.InsertWalkAtRoot | eden/scm/lib/walkdetector/src/walk_node.rs:175-186 | Insertion at an uncovered root ends at some depth at least the walk's depth. There the walk is set, contained walks are pruned, the advanced set is exact, and fewer than threshold children advanced. |
| WalkNode.PromotedNotContained | eden/scm/lib/walkdetector/src/walk_node.rs:175-186 | After a round, the root does not yet contain the next deeper walk, so each promotion really inserts. |
| WalkNode.InsertWalkRoute | eden/scm/lib/walkdetector/src/walk_node.rs:148-174 | Insertion changes nothing when a node on the route already covers the walk. Otherwise it replaces the node at the root with the result of inserting there. |
| WalkNode.ShallowFileWalkShadowsDeeperDirWalk | eden/scm/lib/walkdetector/src/walk_node.rs:224-253 | A node may keep a file walk of depth 1 beside a directory walk of depth 5. A Directory query then returns the file walk, so a directory walk of depth 3 is not contained, and inserting it makes the directory walk shallower. |
| WalkNode.ClearExceptChildren | eden/scm/lib/walkdetector/src/walk_node.rs:432-441 | The result is a default node that keeps only the children and the seen directories. |
| WalkNode.SweepKeepsLive | eden/scm/lib/walkdetector/src/walk_node.rs:385-419 | A node is kept by the sweep iff some node of its subtree has not expired. |
| WalkNode.SweepNodes | eden/scm/lib/walkdetector/src/walk_node.rs:385-419 | A node below survives iff it existed and its subtree is live. A survivor is cleared iff it expired, and is otherwise unchanged apart from its children. |
| WalkNode.GcSpec | eden/scm/lib/walkdetector/src/walk_node.rs:383-429 | gc returns counts 0 and 0, clears the root if it expired, and keeps exactly the live nodes below, each cleared iff it expired. |
| WalkNode.GcInner | eden/scm/lib/walkdetector/src/walk_node.rs:385-419 | The recursive sweep method computes the same node and keep flag as the functional sweep, and leaves its counters at 0. |
| WalkNode.GcMethod | eden/scm/lib/walkdetector/src/walk_node.rs:383-429 | The method computes exactly the functional gc result. |
| WalkNode.ChildWalks | eden/scm/lib/walkdetector/src/walk_node.rs:212-219 | The map holds a child's name iff that child has a walk of the kind, and maps it to that walk. |
| WalkNode.ListWalksInner | eden/scm/lib/walkdetector/src/walk_node.rs:192-205 | The node's own walk comes first. Every entry is a walk of the subtree, every walk of the subtree is listed, and no path is listed twice. An entry whose path is a proper prefix of another's comes before it. |
| WalkNode.ListWalks | eden/scm/lib/walkdetector/src/walk_node.rs:191-210 | Every listed entry is a walk of the tree at that path, every walk of the tree is listed, and no path appears twice. Every walk comes after the walks of its ancestors, whatever the order of the children. |
| WalkNode.PruneChildMethod | eden/scm/lib/walkdetector/src/walk_node.rs:298-329 | The loop-based pruning of one child computes exactly the functional pruning. |
| WalkNode.PruneChildrenLoop | eden/scm/lib/walkdetector/src/walk_node.rs:296-330 | The retain loop keeps exactly the keepable pruned children. It collects the advanced children only at the top level, and reports whether any child advanced. |
| WalkNode.PruneInner | eden/scm/lib/walkdetector/src/walk_node.rs:289-336 | inner replaces the children with the pruned ones, adds the advanced children to the set at the top level only, and reports whether any advanced. |
| WalkNode.InsertAdvancedChildren | eden/scm/lib/walkdetector/src/walk_node.rs:331-333 | The advanced set becomes the old set plus the names, and nothing else changes. |
| WalkNode.RemoveContainedMethod | eden/scm/lib/walkdetector/src/walk_node.rs:287-339 | The method computes exactly the functional remove_contained, whose properties are the RemoveContained lemmas above. |
| MemIdMap.CoreMemIdMap.constructor | eden/scm/lib/dag/src/idmap/mem_idmap.rs:26-38 | Both maps start empty. |
| MemIdMap.CoreMemIdMap.LookupVertexId | eden/scm/lib/dag/src/idmap/mem_idmap.rs:62-64 | An id is returned iff the name is mapped, and it is the mapped id. |
| MemIdMap.CoreMemIdMap.LookupVertexName | eden/scm/lib/dag/src/idmap/mem_idmap.rs:66-68 | A name is returned iff the id is mapped, and it is the mapped name. |
| MemIdMap.CoreMemIdMap.HasVertexName | eden/scm/lib/dag/src/idmap/mem_idmap.rs:97-99 | True iff looking up the name finds an id. |
| MemIdMap.CoreMemIdMap.HasVertexId | eden/scm/lib/dag/src/idmap/mem_idmap.rs:101-103 | True iff looking up the id finds a name. |
| MemIdMap.CoreMemIdMap.LookupRange | eden/scm/lib/dag/src/idmap/mem_idmap.rs:93-95 | The entries are exactly the mapped ids between low and high inclusive, with their names, in ascending id order. |
| MemIdMap.RangeEntriesSpec | eden/scm/lib/dag/src/idmap/mem_idmap.rs:93-95 | The range function lists exactly the mapped ids in the inclusive range, ascending. |
| MemIdMap.CoreMemIdMap.InsertVertexIdName | eden/scm/lib/dag/src/idmap/mem_idmap.rs:105-108 | Both directions of the mapping are overwritten, so afterwards each looks the other up. |
| MemIdMap.CoreMemIdMap.RemoveRange | eden/scm/lib/dag/src/idmap/mem_idmap.rs:110-121 | The ids in the range are removed, and so are the names they had. The removed names are returned in id order. |
| MemIdMap.RemovedSets | eden/scm/lib/dag/src/idmap/mem_idmap.rs:110-121 | Removing the listed entries' ids and names leaves exactly the ids outside the range and the names not removed. |
| MemIdMap.CoreMemIdMap.NamesFrom | eden/scm/lib/dag/src/idmap/mem_idmap.rs:75-77 | The candidates are exactly the mapped names at or after the start name. |
| MemIdMap.ScanSpec | eden/scm/lib/dag/src/idmap/mem_idmap.rs:70-91 | At most limit names are returned. Each is a candidate whose hex starts with the prefix, a virtual id only when the prefix spells it in full. They come in strictly ascending order. |
| MemIdMap.ScanNames | eden/scm/lib/dag/src/idmap/mem_idmap.rs:77-89 | The loop over the candidates, least first, computes exactly the scan. |
| MemIdMap.LeastName | eden/scm/lib/dag/src/idmap/mem_idmap.rs:77 | The next name the ordered iteration yields is the least remaining candidate. |
| MemIdMap.CoreMemIdMap.LookupVertexesByHexPrefix | eden/scm/lib/dag/src/idmap/mem_idmap.rs:70-91 | A prefix that is not valid hex gives its decoding error. Otherwise the result is the scan of the names from the decoded start. |
| MemIdMap.ToHex | eden/scm/lib/dag/src/idmap/mem_idmap.rs:81-85 | A name's hex form has two digits per byte. |
| MemIdMap.BumpExtends | eden/scm/lib/dag/src/idmap/mem_idmap.rs:181-186 | A bumped version extends the old one and is strictly newer. |
| MemIdMap.FreshVersionIncompatible | eden/scm/lib/dag/src/idmap/mem_idmap.rs:188-190 | A version of another lineage neither extends nor is extended by the old version. |
| MemIdMap.MemIdMap.constructor | eden/scm/lib/dag/src/idmap/mem_idmap.rs:42-49 | A new map is empty, its id is "mem:" followed by the counter in decimal, and its version is fresh. |
| MemIdMap.MemIdMap.VertexIdWithMaxGroup | eden/scm/lib/dag/src/idmap/mem_idmap.rs:131-144 | An id is returned iff the name is mapped to an id whose group is at most the maximum, and it is that id. |
| MemIdMap.MemIdMap.Insert | eden/scm/lib/dag/src/idmap/mem_idmap.rs:181-186 | The id-name pair is inserted. The version is bumped: it extends the old version and is strictly newer. |
| MemIdMap.MemIdMap.RemoveRange | eden/scm/lib/dag/src/idmap/mem_idmap.rs:187-192 | The range is removed as in the core map. The version is kept iff both ends are virtual ids. Otherwise it is replaced by a version of a new lineage, incompatible with the old one in both directions. |
| RepositoryCache.EnsureTrailingPathSep | addons/isl-server/src/RepositoryCache.ts:88 | The result extends the path by at most one character and always ends in the separator. It is the path itself iff the path already ends in the separator. |
| RepositoryCache.SubPathUnderRoot | addons/isl-server/src/RepositoryCache.ts:86-89 | Every path one separator below a root is under that root. |
| RepositoryCache.SiblingNotUnderRoot | addons/isl-server/src/RepositoryCache.ts:86-89 | For any root not ending in the separator, a path that extends the root by a suffix not starting with a separator is not under it, as /repo2 is not under /repo. |
| RepositoryCache.Repository.Dispose | addons/isl-server/src/RepositoryCache.ts:56-62 | Each dispose of the repository is counted. |
| RepositoryCache.RefCounted.constructor | addons/isl-server/src/RepositoryCache.ts:45-49 | A new entry has no references and is not disposed. |
| RepositoryCache.RefCounted.Ref | addons/isl-server/src/RepositoryCache.ts:50-52 | One more reference. |
| RepositoryCache.RefCounted.Dispose | addons/isl-server/src/RepositoryCache.ts:56-62 | One reference fewer. The repository is disposed the first time the count reaches zero, and never more than once. |
| RepositoryCache.RepositoryReferenceImpl.constructor | addons/isl-server/src/RepositoryCache.ts:29-33 | A new reference is not yet disposed. |
| RepositoryCache.RepositoryReferenceImpl.Unref | addons/isl-server/src/RepositoryCache.ts:34-39 | The first unref disposes the target once. Later unrefs change nothing. |
| RepositoryCache.FirstServingSpec | addons/isl-server/src/RepositoryCache.ts:84-96 | The entry found serves the path and no earlier entry does. Nothing is found iff no entry serves the path. |
| RepositoryCache.SumUpdate | addons/isl-server/src/RepositoryCache.ts:194-200 | Raising one count by d raises the total by d. |
| RepositoryCache.RepositoryCache.constructor | addons/isl-server/src/RepositoryCache.ts:73-81 | The cache starts empty. |
| RepositoryCache.RepositoryCache.Store | addons/isl-server/src/RepositoryCache.ts:156 | A root already present keeps its place and gets the new entry. A new root goes last. The cache stays one-entry-per-root. |
| RepositoryCache.RepositoryCache.Lookup | addons/isl-server/src/RepositoryCache.ts:84-96 | The result is the first entry, in insertion order, that is not disposed and whose root is the path or a prefix of it ending in a separator. |
| RepositoryCache.RepositoryCache.CachedRepositoryForPath | addons/isl-server/src/RepositoryCache.ts:172-175 | The result is the repository of the entry lookup finds, or nothing. |
| RepositoryCache.RepositoryCache.GetOrCreateFastPath | addons/isl-server/src/RepositoryCache.ts:102-109 | When lookup finds an entry, its count rises by one and a fresh, undisposed reference to it is returned. Otherwise nothing changes. The total count rises by exactly the references handed out. |
| RepositoryCache.RepositoryCache.Reference | addons/isl-server/src/RepositoryCache.ts:107 | Referencing one entry raises its count and the total by one and changes no other entry. |
| RepositoryCache.RepositoryCache.ClearCache | addons/isl-server/src/RepositoryCache.ts:188-192 | Every entry is disposed once, with the dispose rules of the entry, and the cache becomes empty. |
| RepositoryCache.RepositoryCache.NumberOfActiveServers | addons/isl-server/src/RepositoryCache.ts:194-200 | The result is the sum of the entries' reference counts. |
| DirstateGuard.InitSpec | eden/scm/sapling/dirstateguard.py:32-38 | A new guard has saved the backup once, is active, and is not closed. |
| DirstateGuard.CloseInactive | eden/scm/sapling/dirstateguard.py:48-51 | close on an inactive guard raises and changes nothing. |
| DirstateGuard.CloseActive | eden/scm/sapling/dirstateguard.py:48-57 | close on an active guard clears the backup and leaves the guard closed and inactive. |
| DirstateGuard.ReleaseAfterClose | eden/scm/sapling/dirstateguard.py:65-66 | release after close neither restores nor raises. |
| DirstateGuard.ReleaseInactive | eden/scm/sapling/dirstateguard.py:65-71 | release on a guard that is neither closed nor active raises and changes nothing. |
| DirstateGuard.ReleaseActive | eden/scm/sapling/dirstateguard.py:59-72 | release on an active guard restores the backup once and deactivates it, without raising. |
| DirstateGuard.FinalizeSpec | eden/scm/sapling/dirstateguard.py:40-46 | Finalisation restores the backup iff the guard is still active, and always leaves it inactive. |
| DirstateGuard.StepConsistent | eden/scm/sapling/dirstateguard.py:48-72 | Each call keeps the state consistent: saved once, then cleared iff closed, restored iff neither active nor closed. |
| DirstateGuard.RunConsistent | eden/scm/sapling/dirstateguard.py:32-72 | After any sequence of calls, raising or not, the backup has been saved once and then cleared or restored at most once, never both. |
| DirstateGuard.RunStaysInactive | eden/scm/sapling/dirstateguard.py:48-72 | Once inactive, a guard stays inactive and makes no further dirstate calls. |
| DirstateGuard.Guard.constructor | eden/scm/sapling/dirstateguard.py:32-38 | The backup is named dirstate.backup.NAME.ID and saved, and the guard becomes active. |
| DirstateGuard.Guard.Close | eden/scm/sapling/dirstateguard.py:48-57 | The guard's state and the dirstate's calls follow the close step exactly, including the raise. |
| DirstateGuard.Guard.Abort | eden/scm/sapling/dirstateguard.py:59-63 | The backup is restored and the guard deactivated. |
| DirstateGuard.Guard.Release | eden/scm/sapling/dirstateguard.py:65-72 | The guard's state and the dirstate's calls follow the release step exactly, including the raise. |
| DirstateGuard.Guard.Finalize | eden/scm/sapling/dirstateguard.py:40-46 | A still-active guard is aborted, and any other guard is left as it is. |
| DebugDiffDirs.IsPathIncludedIff | eden/fs/cli_rs/sapling-client/src/debug_diff_dirs.rs:96-120 | A path is included iff there is no include list or some included root is a component prefix of it, and no excluded root is. |
| DebugDiffDirs.NoFiltersIncludeAll | eden/fs/cli_rs/sapling-client/src/debug_diff_dirs.rs:96-120 | With neither list, every path is included. |
| DebugDiffDirs.EmptyIncludesExcludeAll | eden/fs/cli_rs/sapling-client/src/debug_diff_dirs.rs:101-108 | An empty include list includes nothing. |
| DebugDiffDirs.ExcludeWins | eden/fs/cli_rs/sapling-client/src/debug_diff_dirs.rs:110-117 | A path under an excluded root is not included, whatever the include list says. |
| DebugDiffDirs.DirectoryIsPrefixOfChild | eden/fs/cli_rs/sapling-client/src/debug_diff_dirs.rs:103-105 | A directory is a prefix of every path inside it. |
| DebugDiffDirs.OtherNameIsNoPrefix | eden/fs/cli_rs/sapling-client/src/debug_diff_dirs.rs:103-105 | A directory is not a prefix of a path under a differently named directory. |
| DebugDiffDirs.SeparatorsIgnored | eden/fs/cli_rs/sapling-client/src/debug_diff_dirs.rs:103-105 | Repeated and trailing separators do not affect the prefix test. |
| DebugDiffDirs.ArgsOf | eden/fs/cli_rs/sapling-client/src/debug_diff_dirs.rs:57-67 | The arguments are debugdiffdirs --rev FIRST, then --rev SECOND when given, then path:ROOT last when given. |
| DebugDiffDirs.BuildArgs | eden/fs/cli_rs/sapling-client/src/debug_diff_dirs.rs:57-67 | The built argument list is exactly that list. |
| DebugDiffDirs.KeptMembers | eden/fs/cli_rs/sapling-client/src/debug_diff_dirs.rs:80-93 | The kept entries are exactly the successfully parsed entries whose path is included. |
| DebugDiffDirs.NormalIffWithinLimit | eden/fs/cli_rs/sapling-client/src/debug_diff_dirs.rs:80-94 | Without errors, the result is the normal list of kept entries iff there are at most limit of them, and TooManyChanges iff there are more. |
| DebugDiffDirs.ErrorOutcome | eden/fs/cli_rs/sapling-client/src/debug_diff_dirs.rs:80-93 | The first failing line, reached within the limit, is the result's error. |
| DebugDiffDirs.TooManyOutcome | eden/fs/cli_rs/sapling-client/src/debug_diff_dirs.rs:84-87 | Once limit entries are kept, the next included entry gives TooManyChanges, whatever follows. |
| DebugDiffDirs.NormalOutcome | eden/fs/cli_rs/sapling-client/src/debug_diff_dirs.rs:80-94 | All lines parsed and at most limit kept gives the normal list. |
| DebugDiffDirs.CollectStatus | eden/fs/cli_rs/sapling-client/src/debug_diff_dirs.rs:80-94 | The loop over the output lines computes exactly the outcome above. |
| DebugDiffDirs.GetDiffDirs | eden/fs/cli_rs/sapling-client/src/debug_diff_dirs.rs:49-94 | The command gets the built arguments, and the result is the limited, filtered outcome of its output. |
| DebugDiffDirs.GetDiffDirsWithIncludes | eden/fs/cli_rs/sapling-client/src/debug_diff_dirs.rs:28-44 | Same as get_diff_dirs with the given roots as include list and no exclude list. |
| Subscribe.HaveNonHgChanges | eden/fs/cli_rs/edenfs-commands/src/debug/subscribe.rs:152-154 | True iff some path does not start with the bytes .hg. |
| Subscribe.DecideShouldNotify | eden/fs/cli_rs/edenfs-commands/src/debug/subscribe.rs:156-176 | True iff the snapshot hash changed or some created, removed, unclean or changed path is not a Mercurial path. |
| Subscribe.HashChangeNotifies | eden/fs/cli_rs/edenfs-commands/src/debug/subscribe.rs:158-160 | A changed commit is always reported. |
| Subscribe.QuietDeltaIsNotReported | eden/fs/cli_rs/edenfs-commands/src/debug/subscribe.rs:156-176 | The same commit with no paths is not reported. |
| Subscribe.HgIgnoreIsHgOnly | eden/fs/cli_rs/edenfs-commands/src/debug/subscribe.rs:152-154 | .hgignore counts as a Mercurial path, because the test is a byte prefix. |
| Subscribe.NestedHgIsAChange | eden/fs/cli_rs/edenfs-commands/src/debug/subscribe.rs:152-154 | a/.hg/x is a change outside Mercurial's files. |
| WalkNode.GetNode | eden/scm/lib/walkdetector/src/walk_node.rs:62-70 | No contract of its own. It is specified by GetNodeAppend and ReplaceAt. |
| WalkNode.GetWalkForType | eden/scm/lib/walkdetector/src/walk_node.rs:231-236 | No contract of its own: it selects the walk of the kind. SetWalkForType states it after an update. |
| WalkNode.Contains | eden/scm/lib/walkdetector/src/walk_node.rs:343-346 | No contract of its own. It is specified by FileContainsImpliesDirectoryContains and ContainedOnRouteStep. |
| WalkNode.IsWalked | eden/scm/lib/walkdetector/src/walk_node.rs:349-364 | No contract of its own. It is specified by IsWalkedMonotoneInObservations. |
| WalkNode.InsertWalk | eden/scm/lib/walkdetector/src/walk_node.rs:148-188 | No contract of its own. It is specified by InsertWalkRoute, InsertWalkAtRoot, InsertRoundSpec and PromotionBound. |
| WalkNode.RemoveContained | eden/scm/lib/walkdetector/src/walk_node.rs:287-339 | No contract of its own. It is specified by RemoveContainedWalks, RemoveContainedOwnFields and RemoveContainedNodes. |
| WalkNode.Gc | eden/scm/lib/walkdetector/src/walk_node.rs:383-429 | No contract of its own. It is specified by GcSpec. |
| MemIdMap.Scan | eden/scm/lib/dag/src/idmap/mem_idmap.rs:77-89 | No contract of its own. It is specified by ScanSpec. |
| RepositoryCache.RefCounted.GetNumberOfReferences | addons/isl-server/src/RepositoryCache.ts:53-55 | No contract of its own: it reads the count whose changes Ref and Dispose state. |
| DirstateGuard.CloseStep | eden/scm/sapling/dirstateguard.py:48-57 | No contract of its own. It is specified by CloseInactive, CloseActive and StepConsistent. |
| DirstateGuard.AbortState | eden/scm/sapling/dirstateguard.py:59-63 | No contract of its own. It is specified by ReleaseActive and FinalizeSpec. |
| DirstateGuard.ReleaseStep | eden/scm/sapling/dirstateguard.py:65-72 | No contract of its own. It is specified by ReleaseAfterClose, ReleaseInactive, ReleaseActive and StepConsistent. |
| DirstateGuard.FinalizeState | eden/scm/sapling/dirstateguard.py:40-46 | No contract of its own. It is specified by FinalizeSpec. |
| DebugDiffDirs.IsPathIncluded | eden/fs/cli_rs/sapling-client/src/debug_diff_dirs.rs:96-120 | No contract of its own. It is specified by IsPathIncludedIff, NoFiltersIncludeAll, EmptyIncludesExcludeAll and ExcludeWins. |
| DebugDiffDirs.DiffDirsOf | eden/fs/cli_rs/sapling-client/src/debug_diff_dirs.rs:80-94 | No contract of its own. It is specified by NormalIffWithinLimit, ErrorOutcome, TooManyOutcome and NormalOutcome. |

## Left out

- WalkNode: `iter` (walk_node.rs:366-378) is not modelled. The same walks are listed by `list_walks`.
- WalkNode: the order of `HashMap` iteration. Listings are specified as sets of entries without duplicates, each after the entries of its ancestors, not in a particular order among siblings.
- WalkNode.InsertWalk: requires `threshold > 0`, and so do the promotion lemmas. At threshold 0 the promotion test `advanced_children_len(walk_type) >= threshold` (walk_node.rs:180-183) always holds, so the source recurses without end. The model does not describe that case.
- WalkNode: `interesting_metadata` is defined outside the file, so it is a parameter of the operations that use it.
- WalkNode: tracing and logging calls.
- WalkNode: a `Walk` carries only its depth.
- WalkNode: the clock is the `now` parameter of `gc`, and times are natural numbers.
- WalkNode: the tree is owned by value, so the in-place update of shared nodes and aliasing does not arise.
- WalkNode.InsertWalkAtRoot: the final depth is stated to exist, not computed in closed form.
- MemIdMap: `from_hex`, `Id::is_virtual` and `group` belong to other crates, so they are parameters.
- MemIdMap: `VerLink` is modelled as a lineage and a height. `bump` keeps the lineage and raises the height, and `VerLink::new` starts a new lineage given as a parameter.
- MemIdMap: the async trait wrappers `vertex_id`, `vertex_name` and `contains_*` (mem_idmap.rs:126-167) only forward to the core lookups modelled above, and are not modelled separately.
- MemIdMap: the no-op `Persist` implementation is not modelled.
- MemIdMap: `next_id` is not modelled.
- MemIdMap: the id allocator of the map counter is the `n` parameter of the constructor.
- MemIdMap.CoreMemIdMap.LookupRange: requires `low <= high`, because `BTreeMap::range` panics on a reversed range. The panic itself is not modelled.
- MemIdMap.CoreMemIdMap.RemoveRange: requires `low <= high`, because it ranges over `low..=high` (mem_idmap.rs:111-114), and `BTreeMap::range` panics on a reversed range. The panic is not modelled.
- MemIdMap.MemIdMap.RemoveRange: requires `low <= high`, for the same reason as the core map's `remove_range`. It also requires the new lineage `newRoot` to differ from the current one. This is how the model represents the fact that `VerLink::new()` never returns a version compatible with an existing one. It tracks only the current lineage, not every lineage ever handed out.
- RepositoryCache: the slow path of `getOrCreate` (creating a `Repository`, asynchronously) is not modelled. The fast path is, and the slow path is where it returns `None`.
- RepositoryCache: the event emitter and `onChangeActiveRepos` are not modelled.
- RepositoryCache: the `Repository` itself is not modelled. What the cache sees of it is its root and how often it was disposed.
- RepositoryCache: paths use `/`. Platform-specific separators are not modelled.
- DirstateGuard: the transaction passed to the dirstate calls is not modelled.
- DirstateGuard: exceptions raised by the dirstate itself are not modelled.
- DirstateGuard: the guard's Python object identity is the `id` parameter.
- DebugDiffDirs: running the `sl` process, its asynchronous output, and `process_one_status_line` are not modelled. The parsed status lines are the input.
- DebugDiffDirs: Windows path prefixes and non-UTF-8 paths are not modelled.
- Subscribe: `run`, `_make_notify_event`, the subscription stream and the output formatting helpers are I/O and are not modelled.
