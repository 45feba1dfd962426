/**
 * The dirstate guard of Sapling (`eden/scm/sapling/dirstateguard.py`): it saves a backup of
 * the dirstate when created, and either discards that backup (`close`) or puts it back
 * (`release` before `close`, or finalisation of a guard still active).
 *
 * The dirstate is seen only through the backup calls the guard makes on it, kept as a log
 * of actions; the transaction each call receives is not part of this model.
 */
module DirstateGuard {
  import opened Wrappers
  import opened Text

  /** A call the guard makes on the dirstate, with the backup name it passes. */
  datatype Action = SaveBackup(name: string) | ClearBackup(name: string) | RestoreBackup(name: string)

  /** What the guard's calls change: its two flags and the dirstate's log of backup calls. */
  datatype State = State(active: bool, closed: bool, log: seq<Action>)

  /** The outcome of a call: the new state, and the `Abort` message when the call raised. */
  datatype Step = Step(state: State, abort: Option<string>)

  /** The name of the backup file: `dirstate.backup.<name>.<id>`, `id` being the guard's object identity. */
  function BackupName(name: string, id: nat): string {
    "dirstate.backup." + name + "." + Decimal(id)
  }

  /** `__init__`: save the backup under `backup`, then become active. */
  function InitState(log: seq<Action>, backup: string): State {
    State(true, false, log + [SaveBackup(backup)])
  }

  /** `close()`: an inactive guard raises; an active one clears the backup and is closed. */
  function CloseStep(s: State, backup: string): Step {
    if !s.active then Step(s, Some("can't close already inactivated backup: " + backup))
    else Step(State(false, true, s.log + [ClearBackup(backup)]), None)
  }

  /** `_abort()`: restore the backup and become inactive. */
  function AbortState(s: State, backup: string): State {
    State(false, s.closed, s.log + [RestoreBackup(backup)])
  }

  /** `release()`: nothing once closed; otherwise abort, or raise when already inactive. */
  function ReleaseStep(s: State, backup: string): Step {
    if s.closed then Step(s, None)
    else if !s.active then Step(s, Some("can't release already inactivated backup: " + backup))
    else Step(AbortState(s, backup), None)
  }

  /** `__del__`: abort a guard that is still active. */
  function FinalizeState(s: State, backup: string): State {
    if s.active then AbortState(s, backup) else s
  }

  /** The calls a caller can make on a guard. */
  datatype Op = Close | Release | Finalize

  /** The state after the calls `ops`, in order, whether or not they raise. */
  function Run(s: State, ops: seq<Op>, backup: string): State
    decreases |ops|
  {
    if ops == [] then s
    else
      var next := match ops[0]
        case Close => CloseStep(s, backup).state
        case Release => ReleaseStep(s, backup).state
        case Finalize => FinalizeState(s, backup);
      Run(next, ops[1..], backup)
  }

  /**
   * The states a guard created over the log `base` can reach: saved once, then at most one
   * of clearing (exactly when closed) and restoring (exactly when neither active nor closed).
   */
  predicate Consistent(s: State, base: seq<Action>, backup: string) {
    && !(s.active && s.closed)
    && s.log == base + [SaveBackup(backup)] +
                (if s.active then [] else if s.closed then [ClearBackup(backup)] else [RestoreBackup(backup)])
  }

  /** After construction the backup is saved, the guard is active and not closed. */
  lemma InitSpec(log: seq<Action>, backup: string)
    ensures var s := InitState(log, backup);
      s.active && !s.closed && s.log == log + [SaveBackup(backup)] && Consistent(s, log, backup)
  {
  }

  /** `close()` on an inactive guard raises `Abort` and changes nothing. */
  lemma CloseInactive(s: State, backup: string)
    requires !s.active
    ensures CloseStep(s, backup).abort.Some? && CloseStep(s, backup).state == s
  {
  }

  /** `close()` on an active guard does not raise, clears the backup, and leaves it closed and inactive. */
  lemma CloseActive(s: State, backup: string)
    requires s.active
    ensures var t := CloseStep(s, backup);
      t.abort.None? && t.state.log == s.log + [ClearBackup(backup)] && !t.state.active && t.state.closed
  {
  }

  /** `release()` after `close()` neither restores nor raises. */
  lemma ReleaseAfterClose(s: State, backup: string)
    requires s.active
    ensures var c := CloseStep(s, backup).state;
      ReleaseStep(c, backup) == Step(c, None)
  {
  }

  /** `release()` on a guard neither closed nor active raises `Abort` and changes nothing. */
  lemma ReleaseInactive(s: State, backup: string)
    requires !s.closed && !s.active
    ensures ReleaseStep(s, backup).abort.Some? && ReleaseStep(s, backup).state == s
  {
  }

  /** `release()` on an active (hence not closed) guard restores the backup once, without raising, and deactivates it. */
  lemma ReleaseActive(s: State, backup: string)
    requires s.active && !s.closed
    ensures var t := ReleaseStep(s, backup);
      t.abort.None? && t.state.log == s.log + [RestoreBackup(backup)] && !t.state.active && !t.state.closed
  {
  }

  /** Finalisation restores the backup exactly when the guard is still active. */
  lemma FinalizeSpec(s: State, backup: string)
    ensures FinalizeState(s, backup).log == s.log + (if s.active then [RestoreBackup(backup)] else [])
    ensures !FinalizeState(s, backup).active
  {
  }

  /** Each call keeps a guard's state consistent. */
  lemma StepConsistent(s: State, base: seq<Action>, backup: string)
    requires Consistent(s, base, backup)
    ensures Consistent(CloseStep(s, backup).state, base, backup)
    ensures Consistent(ReleaseStep(s, backup).state, base, backup)
    ensures Consistent(FinalizeState(s, backup), base, backup)
  {
  }

  /**
   * Whatever calls follow the construction, in whatever order and whether they raise or
   * not, the backup is saved once and then cleared or restored at most once, never both.
   */
  lemma {:induction false} RunConsistent(s: State, ops: seq<Op>, base: seq<Action>, backup: string)
    requires Consistent(s, base, backup)
    ensures Consistent(Run(s, ops, backup), base, backup)
    decreases |ops|
  {
    if ops != [] {
      StepConsistent(s, base, backup);
      var next := match ops[0]
        case Close => CloseStep(s, backup).state
        case Release => ReleaseStep(s, backup).state
        case Finalize => FinalizeState(s, backup);
      RunConsistent(next, ops[1..], base, backup);
    }
  }

  /** Once deactivated, a guard stays inactive whatever is called next. */
  lemma {:induction false} RunStaysInactive(s: State, ops: seq<Op>, backup: string)
    requires !s.active
    ensures !Run(s, ops, backup).active && Run(s, ops, backup).log == s.log
    decreases |ops|
  {
    if ops != [] {
      RunStaysInactive(s, ops[1..], backup);
    }
  }

  /** `repo.dirstate`, as the log of backup calls it receives. */
  class Dirstate {
    var log: seq<Action>

    constructor()
      ensures log == []
    {
      log := [];
    }

    method SaveBackup(backup: string)
      modifies this
      ensures log == old(log) + [Action.SaveBackup(backup)]
    {
      log := log + [Action.SaveBackup(backup)];
    }

    method ClearBackup(backup: string)
      modifies this
      ensures log == old(log) + [Action.ClearBackup(backup)]
    {
      log := log + [Action.ClearBackup(backup)];
    }

    method RestoreBackup(backup: string)
      modifies this
      ensures log == old(log) + [Action.RestoreBackup(backup)]
    {
      log := log + [Action.RestoreBackup(backup)];
    }
  }

  /** `dirstateguard`: the `_active` and `_closed` flags over one backup of `dirstate`. */
  class Guard {
    const dirstate: Dirstate
    const backupName: string
    var active: bool
    var closed: bool

    function Snapshot(): State
      reads this, dirstate
    {
      State(active, closed, dirstate.log)
    }

    /** `dirstateguard(repo, name)`, for a guard whose object identity is `id`. */
    constructor(dirstate: Dirstate, name: string, id: nat)
      modifies dirstate
      ensures this.dirstate == dirstate && backupName == BackupName(name, id)
      ensures Snapshot() == InitState(old(dirstate.log), backupName)
    {
      this.dirstate := dirstate;
      active := false;
      closed := false;
      backupName := BackupName(name, id);
      new;
      dirstate.SaveBackup(backupName);
      active := true;
    }

    /** `close()`; the result is the message of the `Abort` it raises, if it raises. */
    method Close() returns (abort: Option<string>)
      modifies this, dirstate
      ensures CloseStep(old(Snapshot()), backupName) == Step(Snapshot(), abort)
    {
      if !active {
        return Some("can't close already inactivated backup: " + backupName);
      }
      dirstate.ClearBackup(backupName);
      active := false;
      closed := true;
      return None;
    }

    /** `_abort()`. */
    method Abort()
      modifies this, dirstate
      ensures Snapshot() == AbortState(old(Snapshot()), backupName)
    {
      dirstate.RestoreBackup(backupName);
      active := false;
    }

    /** `release()`; the result is the message of the `Abort` it raises, if it raises. */
    method Release() returns (abort: Option<string>)
      modifies this, dirstate
      ensures ReleaseStep(old(Snapshot()), backupName) == Step(Snapshot(), abort)
    {
      if !closed {
        if !active {
          return Some("can't release already inactivated backup: " + backupName);
        }
        Abort();
      }
      return None;
    }

    /** `__del__()`. */
    method Finalize()
      modifies this, dirstate
      ensures Snapshot() == FinalizeState(old(Snapshot()), backupName)
    {
      if active {
        Abort();
      }
    }
  }
}
