/**
 * The directory-difference query of the EdenFS Sapling client
 * (`eden/fs/cli_rs/sapling-client/src/debug_diff_dirs.rs`): the arguments of
 * `sl debugdiffdirs`, the include/exclude filter applied to each status line, and the
 * limit on how many lines are returned.
 *
 * The command's output is given as the sequence of what reading and parsing each line
 * produced: an error, a line that is not a status line, or a status entry.
 */
module DebugDiffDirs {
  import opened Wrappers

  /** A component of a Unix path, as `Path::components` yields them. */
  datatype Component = RootDir | CurDir | Named(name: string)

  /** The pieces of `s` between separators, empty ones included. */
  function SplitParts(s: string): (r: seq<string>)
    ensures |r| >= 1
    decreases |s|
  {
    if s == [] then [""]
    else if s[0] == '/' then [""] + SplitParts(s[1..])
    else
      var rest := SplitParts(s[1..]);
      [[s[0]] + rest[0]] + rest[1..]
  }

  /** The named components among `parts`: repeated separators and `.` leave nothing. */
  function Normals(parts: seq<string>): (r: seq<Component>)
    ensures forall i :: 0 <= i < |r| ==> r[i].Named? && r[i].name != "" && r[i].name != "."
  {
    if parts == [] then []
    else if parts[0] == "" || parts[0] == "." then Normals(parts[1..])
    else [Named(parts[0])] + Normals(parts[1..])
  }

  /**
   * `Path::new(s).components()`: a leading separator is the root; a leading `.` of a
   * relative path is kept; elsewhere `.` and empty pieces are dropped.
   */
  function Components(s: string): seq<Component> {
    if s != [] && s[0] == '/' then [RootDir] + Normals(SplitParts(s[1..]))
    else
      var parts := SplitParts(s);
      if parts[0] == "." then [CurDir] + Normals(parts[1..]) else Normals(parts)
  }

  /** `Path::starts_with`: `base`'s components are a prefix of `path`'s, whole components only. */
  predicate StartsWith(path: string, base: string) {
    Components(base) <= Components(path)
  }

  /** Some root of `roots` is a component-wise prefix of `path` (the `any` in `is_path_included`). */
  predicate AnyStartsWith(path: string, roots: seq<string>)
    decreases |roots|
  {
    roots != [] && (StartsWith(path, roots[0]) || AnyStartsWith(path, roots[1..]))
  }

  /** `any` finds a root exactly when some root of the list is a prefix of the path. */
  lemma {:induction false} AnyStartsWithIff(path: string, roots: seq<string>)
    ensures AnyStartsWith(path, roots) <==> exists root :: root in roots && StartsWith(path, root)
    decreases |roots|
  {
    if roots != [] {
      AnyStartsWithIff(path, roots[1..]);
      assert forall root :: root in roots <==> root == roots[0] || root in roots[1..];
    }
  }

  /**
   * `is_path_included`: with an include list some included root must be a prefix of the
   * path, and with an exclude list no excluded root may be.
   */
  function IsPathIncluded(path: string, included: Option<seq<string>>, excluded: Option<seq<string>>): bool {
    if !(included.None? || AnyStartsWith(path, included.value)) then false
    else if excluded.Some? && AnyStartsWith(path, excluded.value) then false
    else true
  }

  /** A path is included iff no list rules it out: some included root and no excluded root is a prefix of it. */
  lemma IsPathIncludedIff(path: string, included: Option<seq<string>>, excluded: Option<seq<string>>)
    ensures IsPathIncluded(path, included, excluded) <==>
              (included.None? || exists root :: root in included.value && StartsWith(path, root)) &&
              !(excluded.Some? && exists root :: root in excluded.value && StartsWith(path, root))
  {
    if included.Some? {
      AnyStartsWithIff(path, included.value);
    }
    if excluded.Some? {
      AnyStartsWithIff(path, excluded.value);
    }
  }

  /** Without an include and an exclude list every path is included. */
  lemma NoFiltersIncludeAll(path: string)
    ensures IsPathIncluded(path, None, None)
  {
  }

  /** An empty include list includes no path. */
  lemma EmptyIncludesExcludeAll(path: string, excluded: Option<seq<string>>)
    ensures !IsPathIncluded(path, Some([]), excluded)
  {
  }

  /** A path some excluded root is a prefix of is excluded, whatever the include list says. */
  lemma ExcludeWins(path: string, included: Option<seq<string>>, excluded: seq<string>, root: string)
    requires root in excluded && StartsWith(path, root)
    ensures !IsPathIncluded(path, included, Some(excluded))
  {
    IsPathIncludedIff(path, included, Some(excluded));
  }

  /** A piece with no separator is one part. */
  lemma {:induction false} SplitPartsPiece(a: string)
    requires forall i :: 0 <= i < |a| ==> a[i] != '/'
    ensures SplitParts(a) == [a]
    decreases |a|
  {
    if a != [] {
      SplitPartsPiece(a[1..]);
      assert [a[0]] + a[1..] == a;
    }
  }

  /** Splitting at the first separator: the piece before it, then the parts after it. */
  lemma {:induction false} SplitPartsAt(a: string, b: string)
    requires forall i :: 0 <= i < |a| ==> a[i] != '/'
    ensures SplitParts(a + "/" + b) == [a] + SplitParts(b)
    decreases |a|
  {
    if a == [] {
      assert a + "/" + b == "/" + b;
      assert ("/" + b)[1..] == b;
    } else {
      SplitPartsAt(a[1..], b);
      assert (a + "/" + b)[1..] == a[1..] + "/" + b;
      assert [a[0]] + a[1..] == a;
    }
  }

  /** The components of a relative path `a/b` of two named pieces. */
  lemma TwoComponents(a: string, b: string)
    requires a != "" && a != "." && b != "" && b != "."
    requires forall i :: 0 <= i < |a| ==> a[i] != '/'
    requires forall i :: 0 <= i < |b| ==> b[i] != '/'
    ensures Components(a) == [Named(a)]
    ensures Components(a + "/" + b) == [Named(a), Named(b)]
  {
    SplitPartsPiece(a);
    SplitPartsPiece(b);
    SplitPartsAt(a, b);
    assert (a + "/" + b)[0] == a[0];
    assert Normals([b]) == [Named(b)];
    assert Normals([a, b]) == [Named(a)] + Normals([a, b][1..]);
    assert [a, b][1..] == [b];
  }

  /** A named piece is a prefix of itself followed by a separator and another piece. */
  lemma DirectoryIsPrefixOfChild(a: string, b: string)
    requires a != "" && a != "." && b != "" && b != "."
    requires forall i :: 0 <= i < |a| ==> a[i] != '/'
    requires forall i :: 0 <= i < |b| ==> b[i] != '/'
    ensures StartsWith(a + "/" + b, a)
  {
    TwoComponents(a, b);
  }

  /** Only whole components match: a different first piece, even one extending `a`, has no prefix `a`. */
  lemma OtherNameIsNoPrefix(a: string, b: string, c: string)
    requires a != "" && a != "." && b != "" && b != "." && c != "" && c != "." && a != b
    requires forall i :: 0 <= i < |a| ==> a[i] != '/'
    requires forall i :: 0 <= i < |b| ==> b[i] != '/'
    requires forall i :: 0 <= i < |c| ==> c[i] != '/'
    ensures !StartsWith(b + "/" + c, a)
  {
    TwoComponents(b, c);
    TwoComponents(a, c);
    assert Components(b + "/" + c)[0] == Named(b) != Named(a);
  }

  /** Repeated and trailing separators do not count: `a/` is a prefix of `a//b`. */
  lemma SeparatorsIgnored(a: string, b: string)
    requires a != "" && a != "." && b != "" && b != "."
    requires forall i :: 0 <= i < |a| ==> a[i] != '/'
    requires forall i :: 0 <= i < |b| ==> b[i] != '/'
    ensures StartsWith(a + "//" + b, a + "/")
  {
    SplitPartsPiece(a);
    SplitPartsPiece("");
    SplitPartsPiece(b);
    assert a + "/" == a + "/" + "";
    SplitPartsAt(a, "");
    assert "/" + b == "" + "/" + b;
    SplitPartsAt("", b);
    assert a + "//" + b == a + "/" + ("/" + b);
    SplitPartsAt(a, "/" + b);
    assert (a + "/")[0] == a[0] && (a + "//" + b)[0] == a[0];
    assert Normals([a, ""]) == [Named(a)] + Normals([a, ""][1..]);
    assert [a, ""][1..] == [""];
    assert Normals([a, "", b]) == [Named(a)] + Normals([a, "", b][1..]);
    assert [a, "", b][1..] == ["", b];
  }

  /**
   * The arguments of `sl`: `debugdiffdirs --rev <first>`, then `--rev <second>` when
   * there is a second revision, then `path:<root>` when there is a root.
   */
  function ArgsOf(first: string, second: Option<string>, root: Option<string>): (args: seq<string>)
    ensures |args| == 3 + (if second.Some? then 2 else 0) + (if root.Some? then 1 else 0)
    ensures args[..3] == ["debugdiffdirs", "--rev", first]
    ensures second.Some? ==> args[3..5] == ["--rev", second.value]
    ensures root.Some? ==> args[|args| - 1] == "path:" + root.value
  {
    ["debugdiffdirs", "--rev", first] +
    (if second.Some? then ["--rev", second.value] else []) +
    (if root.Some? then ["path:" + root.value] else [])
  }

  /** The argument building of `get_diff_dirs`, pushing onto the vector. */
  method BuildArgs(first: string, second: Option<string>, root: Option<string>) returns (args: seq<string>)
    ensures args == ArgsOf(first, second, root)
  {
    args := ["debugdiffdirs", "--rev", first];
    if second.Some? {
      args := args + ["--rev"];
      args := args + [second.value];
    }
    if root.Some? {
      args := args + ["path:" + root.value];
    }
  }

  /** The status code of a status line; its meaning is not part of this model. */
  datatype Status = Status(code: char)

  /** A status line, as `process_one_status_line` returns it: the status and the path. */
  datatype Entry = Entry(status: Status, path: string)

  /** What reading and parsing one output line gave: an error, a non-status line, or an entry. */
  type Line = Result<Option<Entry>, string>

  /** `SaplingGetDiffDirsResult`. */
  datatype DiffDirs = Normal(entries: seq<Entry>) | TooManyChanges

  /** The index of the first line that failed, or the number of lines when none did. */
  function FirstError(lines: seq<Line>): (n: nat)
    ensures n <= |lines| && (n < |lines| ==> lines[n].Err?)
    ensures forall i :: 0 <= i < n ==> lines[i].Ok?
  {
    if lines == [] then 0
    else if lines[0].Err? then 0
    else 1 + FirstError(lines[1..])
  }

  /** The filter `get_diff_dirs` applies to each status line's path. */
  function Filter(included: Option<seq<string>>, excluded: Option<seq<string>>): string -> bool {
    path => IsPathIncluded(path, included, excluded)
  }

  /** The entry of `line`, when it holds one whose path is included. */
  function Keep(line: Line, filter: string -> bool): seq<Entry> {
    if line.Ok? && line.value.Some? && filter(line.value.value.path)
    then [line.value.value] else []
  }

  /** The included entries among `lines`, in order. */
  function Kept(lines: seq<Line>, filter: string -> bool): seq<Entry>
    decreases |lines|
  {
    if lines == [] then []
    else Kept(lines[..|lines| - 1], filter) + Keep(lines[|lines| - 1], filter)
  }

  /**
   * The result of `get_diff_dirs` on the output `lines`: `TooManyChanges` as soon as more
   * than `limit` included entries precede any failed line; otherwise the first failure,
   * or `Normal` with every included entry in order.
   */
  function DiffDirsOf(lines: seq<Line>, limit: nat, filter: string -> bool)
    : Result<DiffDirs, string>
  {
    var n := FirstError(lines);
    var kept := Kept(lines[..n], filter);
    if |kept| > limit then Ok(TooManyChanges)
    else if n < |lines| then Err(lines[n].error)
    else Ok(Normal(kept))
  }

  /** An entry is kept exactly when some line holds it and its path is included. */
  lemma {:induction false} KeptMembers(lines: seq<Line>, filter: string -> bool, e: Entry)
    ensures e in Kept(lines, filter) <==>
              (exists i :: 0 <= i < |lines| && lines[i] == Ok(Some(e))) && filter(e.path)
    decreases |lines|
  {
    if lines != [] {
      var init := lines[..|lines| - 1];
      KeptMembers(init, filter, e);
      if exists i :: 0 <= i < |lines| && lines[i] == Ok(Some(e)) {
        var i :| 0 <= i < |lines| && lines[i] == Ok(Some(e));
        if i < |lines| - 1 {
          assert init[i] == lines[i];
        }
      }
      forall i | 0 <= i < |init| && init[i] == Ok(Some(e))
        ensures lines[i] == Ok(Some(e))
      {
      }
    }
  }

  /** More lines never keep fewer entries. */
  lemma {:induction false} KeptGrows(lines: seq<Line>, j: nat, filter: string -> bool)
    requires j <= |lines|
    ensures |Kept(lines[..j], filter)| <= |Kept(lines, filter)|
    decreases |lines|
  {
    if j < |lines| {
      var init := lines[..|lines| - 1];
      assert init[..j] == lines[..j];
      KeptGrows(init, j, filter);
    } else {
      assert lines[..j] == lines;
    }
  }

  /** Without failed lines: `Normal` with the included entries iff there are at most `limit` of them. */
  lemma NormalIffWithinLimit(lines: seq<Line>, limit: nat, filter: string -> bool)
    requires forall i :: 0 <= i < |lines| ==> lines[i].Ok?
    ensures var r := DiffDirsOf(lines, limit, filter);
      && (|Kept(lines, filter)| <= limit <==> r == Ok(Normal(Kept(lines, filter))))
      && (|Kept(lines, filter)| > limit <==> r == Ok(TooManyChanges))
  {
    assert lines[..|lines|] == lines;
  }

  /** The read loop of `get_diff_dirs`, with its early return once the limit is passed. */
  method CollectStatus(lines: seq<Line>, limit: nat, filter: string -> bool)
    returns (r: Result<DiffDirs, string>)
    ensures r == DiffDirsOf(lines, limit, filter)
  {
    var status: seq<Entry> := [];
    var i := 0;
    while i < |lines|
      invariant 0 <= i <= |lines|
      invariant forall j :: 0 <= j < i ==> lines[j].Ok?
      invariant status == Kept(lines[..i], filter) && |status| <= limit
    {
      KeptStep(lines, i, filter);
      match lines[i]
      case Err(e) =>
        ErrorOutcome(lines, i, limit, filter);
        return Err(e);
      case Ok(line) =>
        if line.Some? && filter(line.value.path) {
          if |status| >= limit {
            TooManyOutcome(lines, i, limit, filter);
            return Ok(TooManyChanges);
          }
          status := status + [line.value];
        }
      i := i + 1;
    }
    assert lines[..|lines|] == lines;
    NormalOutcome(lines, limit, filter);
    return Ok(Normal(status));
  }

  /** One more line keeps its entry, if it holds an included one. */
  lemma KeptStep(lines: seq<Line>, i: nat, filter: string -> bool)
    requires i < |lines|
    ensures Kept(lines[..i + 1], filter) == Kept(lines[..i], filter) + Keep(lines[i], filter)
  {
    assert lines[..i + 1][..i] == lines[..i];
  }

  /** A failed line met within the limit is the outcome. */
  lemma ErrorOutcome(lines: seq<Line>, i: nat, limit: nat, filter: string -> bool)
    requires i < |lines| && lines[i].Err? && forall j :: 0 <= j < i ==> lines[j].Ok?
    requires |Kept(lines[..i], filter)| <= limit
    ensures DiffDirsOf(lines, limit, filter) == Err(lines[i].error)
  {
    assert FirstError(lines) == i;
  }

  /** An included entry met with `limit` entries already kept makes the outcome `TooManyChanges`. */
  lemma TooManyOutcome(lines: seq<Line>, i: nat, limit: nat, filter: string -> bool)
    requires i < |lines| && forall j :: 0 <= j < i ==> lines[j].Ok?
    requires lines[i].Ok? && lines[i].value.Some? && filter(lines[i].value.value.path)
    requires |Kept(lines[..i], filter)| >= limit
    ensures DiffDirsOf(lines, limit, filter) == Ok(TooManyChanges)
  {
    var n := FirstError(lines);
    assert n > i;
    KeptStep(lines, i, filter);
    KeptGrows(lines[..n], i + 1, filter);
    assert lines[..n][..i + 1] == lines[..i + 1];
  }

  /** With no failed line, every included entry within the limit is the outcome. */
  lemma NormalOutcome(lines: seq<Line>, limit: nat, filter: string -> bool)
    requires forall j :: 0 <= j < |lines| ==> lines[j].Ok?
    requires |Kept(lines, filter)| <= limit
    ensures DiffDirsOf(lines, limit, filter) == Ok(Normal(Kept(lines, filter)))
  {
    assert FirstError(lines) == |lines|;
    assert lines[..|lines|] == lines;
  }

  /**
   * `get_diff_dirs`: the arguments it runs `sl` with, and its result on the lines that
   * run printed.
   */
  method GetDiffDirs(first: string, second: Option<string>, limit: nat, root: Option<string>,
                     included: Option<seq<string>>, excluded: Option<seq<string>>, output: seq<Line>)
    returns (args: seq<string>, r: Result<DiffDirs, string>)
    ensures args == ArgsOf(first, second, root)
    ensures r == DiffDirsOf(output, limit, Filter(included, excluded))
  {
    args := BuildArgs(first, second, root);
    r := CollectStatus(output, limit, Filter(included, excluded));
  }

  /** `get_diff_dirs_with_includes`: `get_diff_dirs` with the include list and no exclude list. */
  method GetDiffDirsWithIncludes(first: string, second: Option<string>, limit: nat, root: Option<string>,
                                 includedRoots: seq<string>, output: seq<Line>)
    returns (args: seq<string>, r: Result<DiffDirs, string>)
    ensures args == ArgsOf(first, second, root)
    ensures r == DiffDirsOf(output, limit, Filter(Some(includedRoots), None))
  {
    args, r := GetDiffDirs(first, second, limit, root, Some(includedRoots), None, output);
  }
}
