/**
 * The in-memory id map of the `dag` crate (`eden/scm/lib/dag/src/idmap/mem_idmap.rs`):
 * a bi-directional mapping between integer ids and vertex names (byte strings), kept
 * in two ordered maps, plus the map version that `MemIdMap` maintains on top of it.
 *
 * `Id` is a natural number ordered as the crate orders ids. `Id::group`, `Id::is_virtual`
 * and `Vertex::from_hex` are defined elsewhere in the crate, so the operations that
 * need them take them as parameters.
 */
module MemIdMap {
  import opened Wrappers
  import opened Bytes
  import opened Text

  type Id = nat

  /** A vertex name. */
  type Vertex = Bytes

  // ---------------------------------------------------------------------------------
  // The ordered key sets of the two `BTreeMap`s
  // ---------------------------------------------------------------------------------

  /** A non-empty set of names has a least element in byte order. */
  lemma {:induction false} MinExists(s: set<Vertex>)
    requires s != {}
    ensures exists m :: m in s && forall v :: v in s ==> LexLe(m, v)
    decreases |s|
  {
    var x :| x in s;
    var smaller := s - {x};
    if smaller == {} {
      LeastOfAdded(x, {}, x);
      assert s == {} + {x};
    } else {
      MinExists(smaller);
      var m :| m in smaller && forall v :: v in smaller ==> LexLe(m, v);
      LeastOfAdded(x, smaller, m);
      assert s == smaller + {x};
    }
  }

  /** Adding `x` to a set whose least element is `m` makes the lesser of `x` and `m` least. */
  lemma LeastOfAdded(x: Vertex, smaller: set<Vertex>, m: Vertex)
    requires smaller == {} ==> m == x
    requires smaller != {} ==> m in smaller
    requires forall v :: v in smaller ==> LexLe(m, v)
    ensures var w := if LexLe(x, m) then x else m;
      w in smaller + {x} && forall v :: v in smaller + {x} ==> LexLe(w, v)
  {
    LexLeReflexive(x);
    LexLeTotal(x, m);
    if LexLe(x, m) {
      forall v | v in smaller ensures LexLe(x, v) {
        LexLeTransitive(x, m, v);
      }
    }
  }

  /** The least name of a non-empty set in byte order: the first key a `BTreeMap` range yields. */
  ghost function MinOf(s: set<Vertex>): (m: Vertex)
    requires s != {}
    ensures m in s && forall v :: v in s ==> LexLe(m, v)
  {
    MinExists(s);
    var m :| m in s && forall v :: v in s ==> LexLe(m, v); m
  }

  /** The least element is unique: any name below every other one is `MinOf`. */
  lemma MinOfUnique(s: set<Vertex>, v: Vertex)
    requires v in s && forall w :: w in s ==> LexLe(v, w)
    ensures v == MinOf(s)
  {
    LexLeAntisymmetric(v, MinOf(s));
  }

  // ---------------------------------------------------------------------------------
  // Hex rendering of names, as `Vertex::to_hex` writes it
  // ---------------------------------------------------------------------------------

  /** The ASCII lower-case hex digit for `d < 16`. */
  function HexDigit(d: int): byte
    requires 0 <= d < 16
  {
    if d < 10 then (48 + d) as byte else (87 + d) as byte
  }

  /** `to_hex`: two lower-case hex digits per byte, high nibble first. */
  function ToHex(v: Vertex): (r: Bytes)
    ensures |r| == 2 * |v|
  {
    if v == [] then []
    else [HexDigit(v[0] as int / 16), HexDigit(v[0] as int % 16)] + ToHex(v[1..])
  }

  // ---------------------------------------------------------------------------------
  // `lookup_range` and the prefix scan as functions of the maps
  // ---------------------------------------------------------------------------------

  /** The entries of `m` with `low <= id <= high`, in ascending id order. */
  function RangeEntries(m: map<Id, Vertex>, low: Id, high: Id): seq<(Id, Vertex)>
    decreases high + 1 - low
  {
    if low > high then []
    else (if low in m then [(low, m[low])] else []) + RangeEntries(m, low + 1, high)
  }

  /** `RangeEntries` holds exactly the entries in the range, strictly ascending by id. */
  lemma {:induction false} RangeEntriesSpec(m: map<Id, Vertex>, low: Id, high: Id)
    ensures forall e :: e in RangeEntries(m, low, high) <==> e.0 in m && low <= e.0 <= high && m[e.0] == e.1
    ensures forall i, j :: 0 <= i < j < |RangeEntries(m, low, high)| ==>
              RangeEntries(m, low, high)[i].0 < RangeEntries(m, low, high)[j].0
    decreases high + 1 - low
  {
    if low <= high {
      RangeEntriesSpec(m, low + 1, high);
      var r := RangeEntries(m, low, high);
      var rest := RangeEntries(m, low + 1, high);
      forall i, j | 0 <= i < j < |r| ensures r[i].0 < r[j].0 {
        if low in m && i == 0 {
          assert r[j] in rest;
        }
      }
    }
  }

  /** The names of a list of entries, in order. */
  function Names(entries: seq<(Id, Vertex)>): (r: seq<Vertex>)
    ensures |r| == |entries| && forall i :: 0 <= i < |r| ==> r[i] == entries[i].1
  {
    if entries == [] then [] else [entries[0].1] + Names(entries[1..])
  }

  /** The name is mapped to a virtual id. */
  predicate IsVirtualName(v: Vertex, name2id: map<Vertex, Id>, isVirtual: Id -> bool) {
    v in name2id && isVirtual(name2id[v])
  }

  /** A name that the prefix scan steps over: a virtual id whose hex the prefix does not spell in full. */
  predicate Skipped(v: Vertex, name2id: map<Vertex, Id>, hexPrefix: Bytes, isVirtual: Id -> bool) {
    IsVirtualName(v, name2id, isVirtual) && |hexPrefix| != 2 * |v|
  }

  /**
   * The loop of `lookup_vertexes_by_hex_prefix` over the candidate names, least first:
   * stop once `limit` names are collected; skip a virtual id unless the prefix spells the
   * whole name; stop at the first name whose hex does not start with the prefix; collect
   * the rest.
   */
  ghost function Scan(names: set<Vertex>, name2id: map<Vertex, Id>, hexPrefix: Bytes, limit: nat,
                      isVirtual: Id -> bool): seq<Vertex>
    decreases |names|
  {
    if names == {} || limit == 0 then []
    else
      var v := MinOf(names);
      if Skipped(v, name2id, hexPrefix, isVirtual) then Scan(names - {v}, name2id, hexPrefix, limit, isVirtual)
      else if !(hexPrefix <= ToHex(v)) then []
      else [v] + Scan(names - {v}, name2id, hexPrefix, limit - 1, isVirtual)
  }

  /**
   * What the scan promises: at most `limit` names, each one a candidate, strictly
   * ascending; each name's hex starts with the prefix; and a name under a virtual id is
   * returned only when the prefix is its whole hex.
   */
  lemma ScanSpec(names: set<Vertex>, name2id: map<Vertex, Id>, hexPrefix: Bytes, limit: nat,
                 isVirtual: Id -> bool)
    ensures var r := Scan(names, name2id, hexPrefix, limit, isVirtual);
      && |r| <= limit
      && (forall v :: v in r ==> v in names && hexPrefix <= ToHex(v))
      && (forall v :: v in r && IsVirtualName(v, name2id, isVirtual) ==> ToHex(v) == hexPrefix)
      && (forall i, j :: 0 <= i < j < |r| ==> LexLt(r[i], r[j]))
  {
    ScanMembers(names, name2id, hexPrefix, limit, isVirtual);
    ScanAscending(names, name2id, hexPrefix, limit, isVirtual);
  }

  /** The length bound and what each name the scan returns satisfies. */
  lemma {:induction false} ScanMembers(names: set<Vertex>, name2id: map<Vertex, Id>, hexPrefix: Bytes, limit: nat,
                                       isVirtual: Id -> bool)
    ensures var r := Scan(names, name2id, hexPrefix, limit, isVirtual);
      && |r| <= limit
      && (forall v :: v in r ==> v in names && hexPrefix <= ToHex(v) &&
                                 (IsVirtualName(v, name2id, isVirtual) ==> ToHex(v) == hexPrefix))
    decreases |names|
  {
    if names != {} && limit != 0 {
      var v := MinOf(names);
      var others := names - {v};
      if Skipped(v, name2id, hexPrefix, isVirtual) {
        ScanMembers(others, name2id, hexPrefix, limit, isVirtual);
      } else if hexPrefix <= ToHex(v) {
        ScanMembers(others, name2id, hexPrefix, limit - 1, isVirtual);
      }
    }
  }

  /** The scan returns its names in strictly ascending order. */
  lemma {:induction false} ScanAscending(names: set<Vertex>, name2id: map<Vertex, Id>, hexPrefix: Bytes, limit: nat,
                                         isVirtual: Id -> bool)
    ensures Ascending(Scan(names, name2id, hexPrefix, limit, isVirtual))
    decreases |names|
  {
    if names != {} && limit != 0 {
      var v := MinOf(names);
      var others := names - {v};
      if Skipped(v, name2id, hexPrefix, isVirtual) {
        ScanAscending(others, name2id, hexPrefix, limit, isVirtual);
        assert Scan(names, name2id, hexPrefix, limit, isVirtual) == Scan(others, name2id, hexPrefix, limit, isVirtual);
      } else if hexPrefix <= ToHex(v) {
        ScanAscending(others, name2id, hexPrefix, limit - 1, isVirtual);
        ScanMembers(others, name2id, hexPrefix, limit - 1, isVirtual);
        var rest := Scan(others, name2id, hexPrefix, limit - 1, isVirtual);
        assert Scan(names, name2id, hexPrefix, limit, isVirtual) == [v] + rest;
        AscendingCons(v, rest, others);
      }
    }
  }

  /** Strictly ascending in the byte order. */
  predicate Ascending(r: seq<Vertex>) {
    forall i, j :: 0 <= i < j < |r| ==> LexLt(r[i], r[j])
  }

  /** A name below every name of `rest` extends an ascending `rest` to an ascending sequence. */
  lemma AscendingCons(v: Vertex, rest: seq<Vertex>, others: set<Vertex>)
    requires forall u :: u in others ==> LexLe(v, u) && u != v
    requires forall u :: u in rest ==> u in others
    requires Ascending(rest)
    ensures Ascending([v] + rest)
  {
    var r := [v] + rest;
    forall i, j | 0 <= i < j < |r| ensures LexLt(r[i], r[j]) {
      if i == 0 {
        assert r[j] == rest[j - 1] && rest[j - 1] in others;
      } else {
        assert r[i] == rest[i - 1] && r[j] == rest[j - 1];
      }
    }
  }

  /** `Scan` with the names collected so far carried along: the loop's own view of it. */
  ghost function ScanAcc(acc: seq<Vertex>, names: set<Vertex>, name2id: map<Vertex, Id>, hexPrefix: Bytes, left: nat,
                         isVirtual: Id -> bool): seq<Vertex>
    decreases |names|
  {
    if names == {} || left == 0 then acc
    else
      var v := MinOf(names);
      if Skipped(v, name2id, hexPrefix, isVirtual) then ScanAcc(acc, names - {v}, name2id, hexPrefix, left, isVirtual)
      else if !(hexPrefix <= ToHex(v)) then acc
      else ScanAcc(acc + [v], names - {v}, name2id, hexPrefix, left - 1, isVirtual)
  }

  /** Carrying the collected names along is the same as appending the scan of the rest. */
  lemma {:induction false} ScanAccIsScan(acc: seq<Vertex>, names: set<Vertex>, name2id: map<Vertex, Id>,
                                         hexPrefix: Bytes, left: nat, isVirtual: Id -> bool)
    ensures ScanAcc(acc, names, name2id, hexPrefix, left, isVirtual) ==
            acc + Scan(names, name2id, hexPrefix, left, isVirtual)
    decreases |names|
  {
    if names == {} || left == 0 {
      assert acc + [] == acc;
    } else {
      var v := MinOf(names);
      if Skipped(v, name2id, hexPrefix, isVirtual) {
        ScanAccIsScan(acc, names - {v}, name2id, hexPrefix, left, isVirtual);
      } else if !(hexPrefix <= ToHex(v)) {
        assert acc + [] == acc;
      } else {
        ScanAccIsScan(acc + [v], names - {v}, name2id, hexPrefix, left - 1, isVirtual);
        var rest := Scan(names - {v}, name2id, hexPrefix, left - 1, isVirtual);
        assert acc + ([v] + rest) == (acc + [v]) + rest;
      }
    }
  }

  // ---------------------------------------------------------------------------------
  // `CoreMemIdMap`
  // ---------------------------------------------------------------------------------

  class CoreMemIdMap {
    var id2name: map<Id, Vertex>
    var name2id: map<Vertex, Id>

    /** `CoreMemIdMap::default()`: both maps empty. */
    constructor()
      ensures id2name == map[] && name2id == map[]
    {
      id2name := map[];
      name2id := map[];
    }

    function LookupVertexId(name: Vertex): (r: Option<Id>)
      reads this
      ensures r.Some? <==> name in name2id
      ensures r.Some? ==> name2id[name] == r.value
    {
      if name in name2id then Some(name2id[name]) else None
    }

    function LookupVertexName(id: Id): (r: Option<Vertex>)
      reads this
      ensures r.Some? <==> id in id2name
      ensures r.Some? ==> id2name[id] == r.value
    {
      if id in id2name then Some(id2name[id]) else None
    }

    function HasVertexName(name: Vertex): (r: bool)
      reads this
      ensures r <==> LookupVertexId(name).Some?
    {
      name in name2id
    }

    function HasVertexId(id: Id): (r: bool)
      reads this
      ensures r <==> LookupVertexName(id).Some?
    {
      id in id2name
    }

    /**
     * `lookup_range(low, high)`: the entries with `low <= id <= high`, ascending by id.
     * `BTreeMap::range` panics when `low > high`, so callers must not ask for that.
     */
    function LookupRange(low: Id, high: Id): (r: seq<(Id, Vertex)>)
      requires low <= high
      reads this
      ensures forall e :: e in r <==> e.0 in id2name && low <= e.0 <= high && id2name[e.0] == e.1
      ensures forall i, j :: 0 <= i < j < |r| ==> r[i].0 < r[j].0
    {
      RangeEntriesSpec(id2name, low, high);
      RangeEntries(id2name, low, high)
    }

    /** `insert_vertex_id_name`: map the name to the id and the id to the name. */
    method InsertVertexIdName(id: Id, name: Vertex)
      modifies this
      ensures name2id == old(name2id)[name := id]
      ensures id2name == old(id2name)[id := name]
      ensures LookupVertexId(name) == Some(id) && LookupVertexName(id) == Some(name)
    {
      name2id := name2id[name := id];
      id2name := id2name[id := name];
    }

    /**
     * `remove_range(low, high)`: remove every id in the range from `id2name` and every
     * name it mapped to from `name2id`; return those names in ascending id order.
     */
    method RemoveRange(low: Id, high: Id) returns (removed: seq<Vertex>)
      requires low <= high
      modifies this
      ensures removed == Names(old(LookupRange(low, high)))
      ensures id2name == map i | i in old(id2name) && !(low <= i <= high) :: old(id2name)[i]
      ensures name2id == map v | v in old(name2id) && v !in removed :: old(name2id)[v]
    {
      var toRemove := LookupRange(low, high);
      ghost var id2name0, name2id0 := id2name, name2id;
      for k := 0 to |toRemove|
        invariant id2name == id2name0 - IdSet(toRemove[..k])
        invariant name2id == name2id0 - NameSet(toRemove[..k])
      {
        RemoveOneMore(id2name0, name2id0, toRemove, k);
        id2name := id2name - {toRemove[k].0};
        name2id := name2id - {toRemove[k].1};
      }
      assert toRemove[..|toRemove|] == toRemove;
      removed := Names(toRemove);
      RemovedSets(id2name0, name2id0, low, high, toRemove, removed);
    }

    /** The names at or above `start` in byte order: the keys `range(start..)` visits. */
    function NamesFrom(start: Vertex): (r: set<Vertex>)
      reads this
      ensures forall v :: v in r <==> v in name2id && LexLe(start, v)
    {
      set v | v in name2id && LexLe(start, v)
    }

    /**
     * `lookup_vertexes_by_hex_prefix(hex_prefix, limit)`: decode the prefix (failing as
     * `from_hex` fails), then scan the names from the decoded one upwards.
     */
    method LookupVertexesByHexPrefix(hexPrefix: Bytes, limit: nat, fromHex: Bytes -> Result<Vertex, string>,
                                     isVirtual: Id -> bool)
      returns (r: Result<seq<Vertex>, string>)
      ensures fromHex(hexPrefix).Err? ==> r == Err(fromHex(hexPrefix).error)
      ensures fromHex(hexPrefix).Ok? ==>
        r == Ok(Scan(NamesFrom(fromHex(hexPrefix).value), name2id, hexPrefix, limit, isVirtual))
    {
      var decoded := fromHex(hexPrefix);
      if decoded.Err? {
        return Err(decoded.error);
      }
      var result := ScanNames(name2id, NamesFrom(decoded.value), hexPrefix, limit, isVirtual);
      return Ok(result);
    }
  }

  /**
   * The loop of `lookup_vertexes_by_hex_prefix`: visit `names` from the least upwards,
   * pushing, skipping or stopping as `Scan` describes.
   */
  method ScanNames(name2id: map<Vertex, Id>, names: set<Vertex>, hexPrefix: Bytes, limit: nat, isVirtual: Id -> bool)
    returns (result: seq<Vertex>)
    requires names <= name2id.Keys
    ensures result == Scan(names, name2id, hexPrefix, limit, isVirtual)
  {
    var remaining := names;
    ghost var target := ScanAcc([], names, name2id, hexPrefix, limit, isVirtual);
    ghost var left := limit;
    result := [];
    while remaining != {}
      invariant remaining <= name2id.Keys
      invariant |result| + left == limit
      invariant ScanAcc(result, remaining, name2id, hexPrefix, left, isVirtual) == target
      decreases |remaining|
    {
      var vertex := LeastName(remaining);
      var id := name2id[vertex];
      if |result| >= limit {
        break;
      }
      if isVirtual(id) && |hexPrefix| != 2 * |vertex| {
        remaining := remaining - {vertex};
        continue;
      }
      if !(hexPrefix <= ToHex(vertex)) {
        break;
      }
      result := result + [vertex];
      remaining := remaining - {vertex};
      left := left - 1;
    }
    ScanAccIsScan([], names, name2id, hexPrefix, limit, isVirtual);
    assert [] + Scan(names, name2id, hexPrefix, limit, isVirtual) == Scan(names, name2id, hexPrefix, limit, isVirtual);
  }

  /** The least name of a non-empty set: the next key the range iterator yields. */
  method LeastName(names: set<Vertex>) returns (v: Vertex)
    requires names != {}
    ensures v == MinOf(names)
  {
    MinExists(names);
    v :| v in names && forall w :: w in names ==> LexLe(v, w);
    MinOfUnique(names, v);
  }

  function IdSet(entries: seq<(Id, Vertex)>): set<Id> {
    set e | e in entries :: e.0
  }

  function NameSet(entries: seq<(Id, Vertex)>): set<Vertex> {
    set e | e in entries :: e.1
  }

  /** Removing one more entry's id and name extends the removed prefix by that entry. */
  lemma RemoveOneMore(id2name: map<Id, Vertex>, name2id: map<Vertex, Id>, entries: seq<(Id, Vertex)>, k: nat)
    requires k < |entries|
    ensures id2name - IdSet(entries[..k]) - {entries[k].0} == id2name - IdSet(entries[..k + 1])
    ensures name2id - NameSet(entries[..k]) - {entries[k].1} == name2id - NameSet(entries[..k + 1])
  {
    assert entries[..k + 1] == entries[..k] + [entries[k]];
    assert IdSet(entries[..k + 1]) == IdSet(entries[..k]) + {entries[k].0};
    assert NameSet(entries[..k + 1]) == NameSet(entries[..k]) + {entries[k].1};
  }

  /** Subtracting the removed ids and names is the same as filtering by the range. */
  lemma RemovedSets(id2name: map<Id, Vertex>, name2id: map<Vertex, Id>, low: Id, high: Id,
                    toRemove: seq<(Id, Vertex)>, removed: seq<Vertex>)
    requires forall e :: e in toRemove <==> e.0 in id2name && low <= e.0 <= high && id2name[e.0] == e.1
    requires removed == Names(toRemove)
    ensures id2name - IdSet(toRemove) == map i | i in id2name && !(low <= i <= high) :: id2name[i]
    ensures name2id - NameSet(toRemove) == map v | v in name2id && v !in removed :: name2id[v]
  {
    forall i | i in id2name && low <= i <= high ensures i in IdSet(toRemove) {
      assert (i, id2name[i]) in toRemove;
    }
    forall v ensures v in NameSet(toRemove) <==> v in removed {
      if v in NameSet(toRemove) {
        var e :| e in toRemove && e.1 == v;
        var k :| 0 <= k < |toRemove| && toRemove[k] == e;
        assert removed[k] == v;
      }
      if v in removed {
        var k :| 0 <= k < |removed| && removed[k] == v;
        assert toRemove[k] in toRemove;
      }
    }
  }

  lemma {:induction false} NamesAppend(a: seq<(Id, Vertex)>, b: seq<(Id, Vertex)>)
    ensures Names(a + b) == Names(a) + Names(b)
  {
  }

  // ---------------------------------------------------------------------------------
  // `MemIdMap`: the core plus a map id and a version
  // ---------------------------------------------------------------------------------

  /**
   * A `VerLink` seen from outside: a version belongs to a lineage (`root`) and moves
   * forward within it with each bump; `VerLink::new()` starts a new lineage.
   */
  datatype Version = Version(root: nat, height: nat)

  function Bump(v: Version): (r: Version)
    ensures r.root == v.root && r.height > v.height
  {
    v.(height := v.height + 1)
  }

  /** The version `VerLink::new()` returns, for the fresh lineage `root`. */
  function FreshVersion(root: nat): Version {
    Version(root, 0)
  }

  /** `a` is compatible with `b` and at least as new: same lineage, no lower. */
  predicate Extends(a: Version, b: Version) {
    a.root == b.root && a.height >= b.height
  }

  lemma BumpExtends(v: Version)
    ensures Extends(Bump(v), v) && !Extends(v, Bump(v))
  {
  }

  /** A version of another lineage is incompatible with `v` in both directions. */
  lemma FreshVersionIncompatible(v: Version, root: nat)
    requires root != v.root
    ensures !Extends(FreshVersion(root), v) && !Extends(v, FreshVersion(root))
  {
  }

  class MemIdMap {
    var core: CoreMemIdMap
    var mapId: string
    var mapVersion: Version

    /**
     * `MemIdMap::new()`: an empty core, the map id `mem:<n>` for the `n` the process-wide
     * counter hands out, and a version in the fresh lineage `root`.
     */
    constructor(n: nat, root: nat)
      ensures fresh(core) && core.id2name == map[] && core.name2id == map[]
      ensures mapId == "mem:" + Decimal(n) && mapVersion == FreshVersion(root)
    {
      core := new CoreMemIdMap();
      mapId := "mem:" + Decimal(n);
      mapVersion := FreshVersion(root);
    }

    /**
     * `vertex_id_with_max_group`: the id of `name` when it has one and that id's group is
     * at most `maxGroup`; otherwise nothing.
     */
    function VertexIdWithMaxGroup(name: Vertex, maxGroup: nat, group: Id -> nat): (r: Option<Id>)
      reads this, core
      ensures r.Some? <==> name in core.name2id && group(core.name2id[name]) <= maxGroup
      ensures r.Some? ==> r.value == core.name2id[name]
    {
      match core.LookupVertexId(name)
      case Some(id) => if group(id) <= maxGroup then Some(id) else None
      case None => None
    }

    /** `insert`: record the pair in the core and bump the version. */
    method Insert(id: Id, name: Vertex)
      modifies this, core
      ensures core == old(core) && mapId == old(mapId)
      ensures core.name2id == old(core.name2id)[name := id] && core.id2name == old(core.id2name)[id := name]
      ensures mapVersion == Bump(old(mapVersion))
      ensures Extends(mapVersion, old(mapVersion)) && !Extends(old(mapVersion), mapVersion)
    {
      core.InsertVertexIdName(id, name);
      mapVersion := Bump(mapVersion);
    }

    /**
     * `remove_range`: start a fresh version lineage `newRoot` unless both ends of the
     * range are virtual ids, then remove the range from the core. `VerLink::new()` hands
     * out a lineage no existing version belongs to, so `newRoot` differs from the current one.
     */
    method RemoveRange(low: Id, high: Id, isVirtual: Id -> bool, newRoot: nat) returns (removed: seq<Vertex>)
      requires low <= high
      requires newRoot != mapVersion.root
      modifies this, core
      ensures core == old(core) && mapId == old(mapId)
      ensures mapVersion == if isVirtual(low) && isVirtual(high) then old(mapVersion) else FreshVersion(newRoot)
      ensures !(isVirtual(low) && isVirtual(high)) ==>
                !Extends(mapVersion, old(mapVersion)) && !Extends(old(mapVersion), mapVersion)
      ensures removed == Names(old(core.LookupRange(low, high)))
      ensures core.id2name == map i | i in old(core.id2name) && !(low <= i <= high) :: old(core.id2name)[i]
      ensures core.name2id == map v | v in old(core.name2id) && v !in removed :: old(core.name2id)[v]
    {
      if !(isVirtual(low) && isVirtual(high)) {
        FreshVersionIncompatible(mapVersion, newRoot);
        mapVersion := FreshVersion(newRoot);
      }
      removed := core.RemoveRange(low, high);
    }
  }
}
