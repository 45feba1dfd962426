/**
 * The repository cache of the ISL server (`addons/isl-server/src/RepositoryCache.ts`):
 * reference-counted repositories, the references handed to clients, and the cache that
 * keeps one repository per repository root.
 *
 * Paths are strings with `/` as the separator. A `Repository` is only what the cache
 * sees of it: its root, fixed at construction, and how many times it was disposed.
 */
module RepositoryCache {
  import opened Wrappers

  type Path = string

  /** The path separator `ensureTrailingPathSep` appends. */
  const Sep: char := '/'

  /** `ensureTrailingPathSep`: the path itself when it already ends in the separator, else the path and one separator. */
  function EnsureTrailingPathSep(p: Path): (r: Path)
    ensures |p| <= |r| <= |p| + 1 && r[..|p|] == p
    ensures |r| > 0 && r[|r| - 1] == Sep
    ensures r == p <==> (p != [] && p[|p| - 1] == Sep)
  {
    if p != [] && p[|p| - 1] == Sep then p else p + [Sep]
  }

  /** `dir` is the repository root itself or a path inside it (the test in `lookup`). */
  predicate UnderRoot(dir: Path, root: Path) {
    dir == root || EnsureTrailingPathSep(root) <= dir
  }

  /** Any path below a root, one separator further down, is under that root. */
  lemma SubPathUnderRoot(root: Path, rest: Path)
    requires root == [] || root[|root| - 1] != Sep
    ensures UnderRoot(root + [Sep] + rest, root)
  {
    assert EnsureTrailingPathSep(root) == root + [Sep];
    assert (root + [Sep] + rest)[..|root| + 1] == root + [Sep];
  }

  /**
   * A sibling whose name merely extends the root's last component (`/repo2` next to
   * `/repo`) is not under the root.
   */
  lemma SiblingNotUnderRoot(root: Path, suffix: Path)
    requires root == [] || root[|root| - 1] != Sep
    requires suffix != [] && suffix[0] != Sep
    ensures !UnderRoot(root + suffix, root)
  {
    assert EnsureTrailingPathSep(root) == root + [Sep];
    assert (root + suffix)[|root|] == suffix[0];
  }

  /** What the cache sees of a `Repository`: its root and the number of `dispose()` calls. */
  class Repository {
    const repoRoot: Path
    var disposeCalls: nat

    constructor(root: Path)
      ensures repoRoot == root && disposeCalls == 0
    {
      repoRoot := root;
      disposeCalls := 0;
    }

    /** `dispose()`: counted, since what disposing a repository does is not part of this model. */
    method Dispose()
      modifies this
      ensures disposeCalls == old(disposeCalls) + 1
    {
      disposeCalls := disposeCalls + 1;
    }
  }

  /** `RefCounted<Repository>`: a reference count and a disposed flag around a repository. */
  class RefCounted {
    const value: Repository
    var references: int
    var isDisposed: bool

    /**
     * The repository has been disposed exactly when the flag is set, and then only once:
     * the state `ref` and `dispose` keep.
     */
    ghost predicate Valid()
      reads this, value
    {
      value.disposeCalls == if isDisposed then 1 else 0
    }

    constructor(value: Repository)
      requires value.disposeCalls == 0
      ensures this.value == value && references == 0 && !isDisposed && Valid()
    {
      this.value := value;
      references := 0;
      isDisposed := false;
    }

    /** `ref()`: one more reference. */
    method Ref()
      modifies this
      ensures references == old(references) + 1 && isDisposed == old(isDisposed)
    {
      references := references + 1;
    }

    function GetNumberOfReferences(): int
      reads this
    {
      references
    }

    /**
     * `dispose()`: one reference fewer, even when already disposed, so the count can go
     * below zero; the repository is disposed the first time the count reaches zero, and
     * never again.
     */
    method Dispose()
      requires Valid()
      modifies this, value
      ensures references == old(references) - 1
      ensures isDisposed == (old(isDisposed) || references == 0)
      ensures value.disposeCalls == old(value.disposeCalls) + (if !old(isDisposed) && references == 0 then 1 else 0)
      ensures Valid() && value.disposeCalls <= 1
    {
      references := references - 1;
      if !isDisposed && references == 0 {
        isDisposed := true;
        value.Dispose();
      }
    }
  }

  /**
   * A `RepositoryReferenceImpl` handed out by the fast path of `getOrCreate`, whose dispose
   * function disposes the found entry once.
   */
  class RepositoryReferenceImpl {
    const target: RefCounted
    var disposed: bool

    constructor(target: RefCounted)
      ensures this.target == target && !disposed
    {
      this.target := target;
      disposed := false;
    }

    /** `unref()`: the first call marks the reference disposed and disposes the target; later calls do nothing. */
    method Unref()
      requires target.Valid()
      modifies this, target, target.value
      ensures disposed
      ensures old(disposed) ==> target.references == old(target.references) && target.isDisposed == old(target.isDisposed)
      ensures !old(disposed) ==> target.references == old(target.references) - 1 &&
                                 target.isDisposed == (old(target.isDisposed) || target.references == 0)
      ensures target.Valid() && target.value.disposeCalls <= 1
    {
      if !disposed {
        disposed := true;
        target.Dispose();
      }
    }
  }

  /** The entry serves `dir`: it is not disposed and `dir` lies under its root. */
  predicate Serves(e: RefCounted, dir: Path)
    reads e
  {
    !e.isDisposed && UnderRoot(dir, e.value.repoRoot)
  }

  /** The first entry, in the cache's insertion order, that serves `dir`. */
  function FirstServing(es: seq<RefCounted>, dir: Path): Option<RefCounted>
    reads set e | e in es
  {
    if es == [] then None
    else if Serves(es[0], dir) then Some(es[0])
    else FirstServing(es[1..], dir)
  }

  /** `FirstServing` finds a serving entry with no serving entry before it, or reports that none serves. */
  lemma {:induction false} FirstServingSpec(es: seq<RefCounted>, dir: Path)
    ensures var r := FirstServing(es, dir);
      && (r.Some? ==> exists i :: 0 <= i < |es| && es[i] == r.value && Serves(es[i], dir) &&
                                 forall j :: 0 <= j < i ==> !Serves(es[j], dir))
      && (r.None? <==> forall i :: 0 <= i < |es| ==> !Serves(es[i], dir))
  {
    if es != [] {
      FirstServingSpec(es[1..], dir);
      if !Serves(es[0], dir) {
        var r := FirstServing(es, dir);
        if r.Some? {
          var i :| 0 <= i < |es[1..]| && es[1..][i] == r.value && Serves(es[1..][i], dir) &&
                   forall j :: 0 <= j < i ==> !Serves(es[1..][j], dir);
          assert es[i + 1] == r.value;
          forall j | 0 <= j < i + 1 ensures !Serves(es[j], dir) {
            if j > 0 {
              assert es[j] == es[1..][j - 1];
            }
          }
        } else {
          forall i | 0 <= i < |es| ensures !Serves(es[i], dir) {
            if i > 0 {
              assert es[i] == es[1..][i - 1];
            }
          }
        }
      }
    }
  }

  /** What `FirstServing` finds is one of the entries. */
  lemma {:induction false} FirstServingIn(es: seq<RefCounted>, dir: Path)
    ensures FirstServing(es, dir).Some? ==> FirstServing(es, dir).value in es
  {
    if es != [] && !Serves(es[0], dir) {
      FirstServingIn(es[1..], dir);
    }
  }

  /** The sum of the reference counts of `rs`. */
  function Sum(rs: seq<int>): int {
    if rs == [] then 0 else rs[0] + Sum(rs[1..])
  }

  /** Raising one count by `d` raises the sum by `d`. */
  lemma {:induction false} SumUpdate(rs: seq<int>, k: nat, d: int)
    requires k < |rs|
    ensures Sum(rs[k := rs[k] + d]) == Sum(rs) + d
  {
    if k > 0 {
      SumUpdate(rs[1..], k - 1, d);
      assert rs[k := rs[k] + d][1..] == rs[1..][k - 1 := rs[1..][k - 1] + d];
    }
  }

  /** Sequences that differ only at `k`, by one, have sums that differ by one. */
  lemma SumBump(before: seq<int>, after: seq<int>, k: nat)
    requires |before| == |after| && k < |before| && after[k] == before[k] + 1
    requires forall i :: 0 <= i < |before| && i != k ==> after[i] == before[i]
    ensures Sum(after) == Sum(before) + 1
  {
    assert after == before[k := before[k] + 1];
    SumUpdate(before, k, 1);
  }

  lemma {:induction false} SumAppend(a: seq<int>, b: seq<int>)
    ensures Sum(a + b) == Sum(a) + Sum(b)
  {
    if a == [] {
      assert a + b == b;
    } else {
      SumAppend(a[1..], b);
      assert (a + b)[1..] == a[1..] + b;
    }
  }

  /** The reference counts of the entries, in order. */
  function Counts(es: seq<RefCounted>): (r: seq<int>)
    reads set e | e in es
    ensures |r| == |es| && forall i :: 0 <= i < |es| ==> r[i] == es[i].references
  {
    if es == [] then [] else [es[0].references] + Counts(es[1..])
  }

  /** The entries, their repositories and their roots are pairwise distinct. */
  predicate Distinct(es: seq<RefCounted>) {
    forall i, j :: 0 <= i < j < |es| ==>
      es[i] != es[j] && es[i].value != es[j].value && es[i].value.repoRoot != es[j].value.repoRoot
  }

  /** `RepositoryCache`: the `reposByRoot` map, as its entries in insertion order. */
  class RepositoryCache {
    var entries: seq<RefCounted>
    /** The entries and their repositories. */
    ghost var Repr: set<object>

    /** The entries (and their repositories) are distinct, one per root, and each keeps its dispose-once state. */
    ghost predicate Valid()
      reads this, Repr
    {
      && (forall i :: 0 <= i < |entries| ==> entries[i] in Repr && entries[i].value in Repr)
      && Distinct(entries)
      && (forall i :: 0 <= i < |entries| ==> entries[i].Valid())
    }

    constructor()
      ensures entries == [] && Valid()
    {
      entries := [];
      Repr := {};
    }

    /** The entry stored under `root`, if any. */
    function IndexOf(root: Path): (r: Option<nat>)
      reads this
      ensures r.Some? ==> r.value < |entries| && entries[r.value].value.repoRoot == root
      ensures r.None? ==> forall i :: 0 <= i < |entries| ==> entries[i].value.repoRoot != root
    {
      IndexFrom(entries, root, 0)
    }

    /**
     * `reposByRoot.set(repoRoot, internalRef)`: a root already present keeps its place and
     * gets the new entry; a new root goes last.
     */
    method Store(rc: RefCounted)
      requires Valid() && rc.Valid()
      requires rc !in entries && forall e :: e in entries ==> e.value != rc.value
      modifies this
      ensures IndexOf(rc.value.repoRoot).Some? && Valid()
      ensures old(IndexOf(rc.value.repoRoot)).Some? ==>
                entries == old(entries)[old(IndexOf(rc.value.repoRoot)).value := rc]
      ensures old(IndexOf(rc.value.repoRoot)).None? ==> entries == old(entries) + [rc]
    {
      var k := IndexOf(rc.value.repoRoot);
      Repr := Repr + {rc, rc.value};
      if k.Some? {
        ghost var es := entries;
        entries := entries[k.value := rc];
        forall i, j | 0 <= i < j < |entries|
          ensures entries[i] != entries[j] && entries[i].value != entries[j].value &&
                  entries[i].value.repoRoot != entries[j].value.repoRoot
        {
          if i == k.value {
            assert es[j] in es && es[j].value.repoRoot != es[k.value].value.repoRoot;
          } else if j == k.value {
            assert es[i] in es && es[i].value.repoRoot != es[k.value].value.repoRoot;
          }
        }
        assert entries[k.value] == rc;
        forall i | 0 <= i < |entries| ensures entries[i].Valid() {
          if i != k.value {
            assert entries[i] == es[i];
          }
        }
      } else {
        entries := entries + [rc];
        assert entries[|entries| - 1] == rc;
      }
    }

    /** `lookup(dirGuess)`: the first entry, in insertion order, that is not disposed and whose root holds `dir`. */
    method Lookup(dir: Path) returns (r: Option<RefCounted>)
      ensures r == FirstServing(entries, dir)
    {
      var i := 0;
      while i < |entries|
        invariant 0 <= i <= |entries|
        invariant FirstServing(entries[i..], dir) == FirstServing(entries, dir)
      {
        var repo := entries[i];
        assert entries[i..][1..] == entries[i + 1..];
        if dir == repo.value.repoRoot || EnsureTrailingPathSep(repo.value.repoRoot) <= dir {
          if !repo.isDisposed {
            return Some(repo);
          }
        }
        i := i + 1;
      }
      return None;
    }

    /** `cachedRepositoryForPath(path)`: the repository of the entry `lookup` finds, without creating one. */
    method CachedRepositoryForPath(path: Path) returns (r: Option<Repository>)
      ensures FirstServing(entries, path).Some? ==> r == Some(FirstServing(entries, path).value.value)
      ensures FirstServing(entries, path).None? ==> r == None
    {
      var found := Lookup(path);
      if found.Some? {
        return Some(found.value.value);
      }
      return None;
    }

    /**
     * The fast path of `getOrCreate(ctx)`: when `lookup(cwd)` finds an entry, reference it
     * once and hand out a fresh reference whose `unref` disposes it. `None` stands for
     * the slow path, which this model does not take.
     */
    method GetOrCreateFastPath(cwd: Path) returns (r: Option<RepositoryReferenceImpl>)
      requires Valid()
      modifies set e | e in entries
      ensures entries == old(entries) && Valid()
      ensures r.None? <==> old(FirstServing(entries, cwd)).None?
      ensures r.Some? ==> fresh(r.value) && !r.value.disposed && r.value.target == old(FirstServing(entries, cwd)).value
      ensures forall e :: e in entries ==>
                e.references == old(e.references) + (if r.Some? && e == r.value.target then 1 else 0) &&
                e.isDisposed == old(e.isDisposed)
      ensures r.Some? ==> Sum(Counts(entries)) == old(Sum(Counts(entries))) + 1
      ensures r.None? ==> Sum(Counts(entries)) == old(Sum(Counts(entries)))
    {
      var found := Lookup(cwd);
      if found.Some? {
        FirstServingIn(entries, cwd);
        var reference := new RepositoryReferenceImpl(found.value);
        Reference(found.value);
        return Some(reference);
      }
      return None;
    }

    /** `ref()` on the entry `rc`, which leaves the cache valid and raises the sum of the counts by one. */
    method Reference(rc: RefCounted)
      requires Valid() && rc in entries
      modifies rc
      ensures Valid()
      ensures rc.references == old(rc.references) + 1
      ensures forall e :: e in entries ==> e.isDisposed == old(e.isDisposed)
      ensures forall e :: e in entries && e != rc ==> e.references == old(e.references)
      ensures Sum(Counts(entries)) == old(Sum(Counts(entries))) + 1
    {
      ghost var before := Counts(entries);
      ghost var k :| 0 <= k < |entries| && entries[k] == rc;
      rc.Ref();
      assert entries[k].Valid();
      forall i | 0 <= i < |entries| && i != k
        ensures entries[i].references == before[i]
      {
        assert entries[i] != entries[k];
      }
      SumBump(before, Counts(entries), k);
    }

    /** `clearCache()`: dispose every entry once, in insertion order, then forget them all. */
    method ClearCache()
      requires Valid()
      modifies this, set e | e in entries, set e | e in entries :: e.value
      ensures entries == []
      ensures forall e :: e in old(entries) ==>
                e.references == old(e.references) - 1 && e.isDisposed == (old(e.isDisposed) || e.references == 0) &&
                e.value.disposeCalls == old(e.value.disposeCalls) + (if !old(e.isDisposed) && e.references == 0 then 1 else 0) &&
                e.Valid()
    {
      var es := entries;
      for k := 0 to |es|
        invariant entries == es
        invariant forall i :: 0 <= i < k ==>
                    es[i].references == old(es[i].references) - 1 &&
                    es[i].isDisposed == (old(es[i].isDisposed) || es[i].references == 0) &&
                    es[i].value.disposeCalls ==
                      old(es[i].value.disposeCalls) + (if !old(es[i].isDisposed) && es[i].references == 0 then 1 else 0) &&
                    es[i].Valid()
        invariant forall i :: k <= i < |es| ==>
                    es[i].references == old(es[i].references) && es[i].isDisposed == old(es[i].isDisposed) &&
                    es[i].value.disposeCalls == old(es[i].value.disposeCalls)
      {
        es[k].Dispose();
      }
      entries := [];
    }

    /** `numberOfActiveServers()`: the sum of the entries' reference counts. */
    method NumberOfActiveServers() returns (numActive: int)
      ensures numActive == Sum(Counts(entries))
    {
      numActive := 0;
      for i := 0 to |entries|
        invariant numActive == Sum(Counts(entries[..i]))
      {
        assert entries[..i + 1] == entries[..i] + [entries[i]];
        assert Counts(entries[..i + 1]) == Counts(entries[..i]) + [entries[i].references];
        SumAppend(Counts(entries[..i]), [entries[i].references]);
        numActive := numActive + entries[i].GetNumberOfReferences();
      }
      assert entries[..|entries|] == entries;
    }
  }

  /** The first index at or after `from` whose entry has root `root`. */
  function IndexFrom(es: seq<RefCounted>, root: Path, from: nat): (r: Option<nat>)
    requires from <= |es|
    ensures r.Some? ==> from <= r.value < |es| && es[r.value].value.repoRoot == root
    ensures r.None? ==> forall i :: from <= i < |es| ==> es[i].value.repoRoot != root
    decreases |es| - from
  {
    if from == |es| then None
    else if es[from].value.repoRoot == root then Some(from)
    else IndexFrom(es, root, from + 1)
  }
}
