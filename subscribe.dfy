/**
 * The notification filter of `edenfsctl debug subscribe`
 * (`eden/fs/cli_rs/edenfs-commands/src/debug/subscribe.rs`): a journal delta is reported
 * when the commit changed or when some changed path lies outside Mercurial's own files.
 */
module Subscribe {
  import opened Bytes

  /** A journal position; only the snapshot hash takes part in the decision. */
  datatype JournalPosition = JournalPosition(mountGeneration: int, sequenceNumber: nat, snapshotHash: Bytes)

  /** A `FileDelta` between two journal positions, paths given as raw bytes. */
  datatype FileDelta = FileDelta(
    fromPosition: JournalPosition,
    toPosition: JournalPosition,
    changedPaths: seq<Bytes>,
    createdPaths: seq<Bytes>,
    removedPaths: seq<Bytes>,
    uncleanPaths: seq<Bytes>,
    snapshotTransitions: seq<Bytes>)

  /** The bytes of `.hg`. */
  const HgPrefix: Bytes := [46, 104, 103]

  /** The path is Mercurial's own: its bytes start with `.hg`. */
  predicate IsHgPath(p: Bytes) {
    HgPrefix <= p
  }

  /** `have_non_hg_changes`: some path of `changes` does not start with `.hg`. */
  function HaveNonHgChanges(changes: seq<Bytes>): (r: bool)
    ensures r <==> exists i :: 0 <= i < |changes| && !IsHgPath(changes[i])
  {
    if changes == [] then false
    else if !IsHgPath(changes[0]) then true
    else
      var rest := HaveNonHgChanges(changes[1..]);
      assert forall i :: 0 < i < |changes| ==> changes[i] == changes[1..][i - 1];
      rest
  }

  /**
   * `decide_should_notify`: report when the snapshot hash changed, or when a created,
   * removed, unclean or changed path is not one of Mercurial's own.
   */
  function DecideShouldNotify(changes: FileDelta): (r: bool)
    ensures r <==> changes.fromPosition.snapshotHash != changes.toPosition.snapshotHash ||
                   exists p :: p in changes.createdPaths + changes.removedPaths + changes.uncleanPaths + changes.changedPaths &&
                               !IsHgPath(p)
  {
    if changes.fromPosition.snapshotHash != changes.toPosition.snapshotHash then true
    else if HaveNonHgChanges(changes.createdPaths) then true
    else if HaveNonHgChanges(changes.removedPaths) then true
    else if HaveNonHgChanges(changes.uncleanPaths) then true
    else if HaveNonHgChanges(changes.changedPaths) then true
    else false
  }

  /** A changed commit is always reported. */
  lemma HashChangeNotifies(changes: FileDelta)
    requires changes.fromPosition.snapshotHash != changes.toPosition.snapshotHash
    ensures DecideShouldNotify(changes)
  {
  }

  /** An empty list has no change outside Mercurial's files. */
  lemma EmptyHasNoChanges()
    ensures !HaveNonHgChanges([])
  {
  }

  /** With the same commit and no changed paths at all, nothing is reported. */
  lemma QuietDeltaIsNotReported(from: JournalPosition, to: JournalPosition, transitions: seq<Bytes>)
    requires from.snapshotHash == to.snapshotHash
    ensures !DecideShouldNotify(FileDelta(from, to, [], [], [], [], transitions))
  {
  }

  /** `.hgignore` counts as Mercurial's own: the test is a byte prefix, not a path component. */
  lemma HgIgnoreIsHgOnly()
    ensures !HaveNonHgChanges([[46, 104, 103, 105, 103, 110, 111, 114, 101]])
  {
    var p: Bytes := [46, 104, 103, 105, 103, 110, 111, 114, 101];
    assert p[..3] == HgPrefix;
  }

  /** `a/.hg/x` is a change outside Mercurial's files: only a leading `.hg` counts. */
  lemma NestedHgIsAChange()
    ensures HaveNonHgChanges([[97, 47, 46, 104, 103, 47, 120]])
  {
    var p: Bytes := [97, 47, 46, 104, 103, 47, 120];
    assert p[0] != HgPrefix[0];
  }
}
