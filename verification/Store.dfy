/** The store object over its durable storage, with every write allowed to fail, to
    succeed, or to succeed and be reported as failed.

    The storage keeps, for the proofs only, the run of protocol states its writes
    went through. Every method leaves a legal run of module Protocol behind, so what
    is proved of all runs holds at every exit of every method; a crash is an exit
    after which the store object is dropped. */
module UtxoStore {
  import opened Wrappers
  import opened Ledger
  import opened Spending
  import opened Database
  import opened Protocol
  import opened Consistency
  import opened Recovery
  import opened Spender

  datatype StoreError =
    | InconsistentState
    | SaveFailed
    | TransactionFailed
    | RemoveFailed
    | CannotBuild(reason: BuildError)

  /** The database keys and the checkpoint file. */
  class Storage {
    var hash: Option<Hash>
    var height: int
    var entries: Entries
    var index: Pairs
    var checkpoint: Option<Checkpoint>

    /** Whether all its writes succeed and say so. */
    const reliable: bool

    ghost const env: Env
    ghost var run: seq<Sys>

    /** How many writes were reported as failed. */
    ghost var faults: nat

    ghost function Contents(): Db
      reads this
    {
      Db(hash, height, entries, index)
    }

    ghost function Now(): Sys
      requires |run| > 0
      reads this
    {
      run[|run| - 1]
    }

    ghost predicate Valid()
      reads this
    {
      ValidEnv(env) && Run(env, run) && Now().db == Contents() && Now().cell == checkpoint
    }

    /** A fresh storage holding the base database. */
    constructor (ghost env: Env, base: Db, reliable: bool)
      requires ValidEnv(env) && base == env.base
      ensures Valid() && this.env == env && this.reliable == reliable && run == [Sys(base, None, Down)] && checkpoint == None
    {
      hash, height, entries, index := base.hash, base.height, base.entries, base.index;
      checkpoint := None;
      this.env, this.reliable := env, reliable;
      run := [Sys(base, None, Down)];
    }

    /** Records the step that the last write made. */
    ghost method Record(phase: Phase)
      requires ValidEnv(env) && Run(env, run)
      requires Next(env, Now(), Sys(Contents(), checkpoint, phase))
      modifies this`run
      ensures Valid() && Now().phase == phase
      ensures run == old(run) + [Sys(Contents(), checkpoint, phase)]
      ensures Applied(run) == Applied(old(run)) + (if Applies(old(Now()), Now()) then 1 else 0)
    {
      var s := Sys(Contents(), checkpoint, phase);
      RunExtends(env, run, s);
      run := run + [s];
    }

    /** One write to the database, made or not whatever it reports. */
    method Write(w: Write) returns (ok: bool)
      modifies this`hash, this`height, this`entries, this`index, this`faults
      ensures (faults == old(faults) + if ok then 0 else 1) && (reliable ==> ok)
      ensures Contents() == Apply(old(Contents()), w) || (!ok && Contents() == old(Contents()))
    {
      var before, after: bool := *, *;
      if before && !reliable {
        faults := faults + 1;
        return false;
      }
      match w {
        case SetHash(h) => hash := Some(h);
        case SetHeight(n) => height := n;
        case RemoveRefs(a, ids) => index := index - PairsAt(a, ids);
        case AddRefs(a, ids) => index := index + PairsAt(a, ids);
        case DeleteEntry(t) => entries := entries - {t};
        case SetEntry(t, e) => entries := entries[t := e];
      }
      if after && !reliable {
        faults := faults + 1;
        return false;
      }
      return true;
    }

    method SaveCheckpoint(cp: Checkpoint) returns (ok: bool)
      modifies this`checkpoint, this`faults
      ensures (faults == old(faults) + if ok then 0 else 1) && (reliable ==> ok)
      ensures checkpoint == Some(cp) || (!ok && checkpoint == old(checkpoint))
    {
      var before, after: bool := *, *;
      if before && !reliable {
        faults := faults + 1;
        return false;
      }
      checkpoint := Some(cp);
      if after && !reliable {
        faults := faults + 1;
        return false;
      }
      return true;
    }

    method RemoveLatestCheckpoint() returns (ok: bool)
      modifies this`checkpoint, this`faults
      ensures (faults == old(faults) + if ok then 0 else 1) && (reliable ==> ok)
      ensures checkpoint == None || (!ok && checkpoint == old(checkpoint))
    {
      var before, after: bool := *, *;
      if before && !reliable {
        faults := faults + 1;
        return false;
      }
      checkpoint := None;
      if after && !reliable {
        faults := faults + 1;
        return false;
      }
      return true;
    }
  }

  lemma RunExtends(env: Env, run: seq<Sys>, s: Sys)
    requires Run(env, run) && Next(env, run[|run| - 1], s)
    ensures Run(env, run + [s])
    ensures Applied(run + [s]) == Applied(run) + (if Applies(run[|run| - 1], s) then 1 else 0)
  {
    var all := run + [s];
    forall i | 0 <= i < |all| - 1 ensures Next(env, all[i], all[i + 1]) {
      if i < |run| - 1 {
        assert all[i] == run[i] && all[i + 1] == run[i + 1];
      }
    }
    assert all[..|all| - 1] == run;
  }

  /** What the invariant of runs says at the current state. */
  lemma RunFacts(env: Env, run: seq<Sys>)
    requires ValidEnv(env) && Run(env, run)
    ensures Applied(run) <= |env.chain|
    ensures run[|run| - 1].phase.Ready? ==> run[|run| - 1].db == StateAt(env, Applied(run))
    ensures run[|run| - 1].phase.RollingBack? ==> run[|run| - 1].phase.cp.prev.Some?
    ensures run[|run| - 1].phase.RollingBack? ==>
              AllRestoring(run[|run| - 1].phase.cp, run[|run| - 1].phase.log) && RefsDisjoint(run[|run| - 1].phase.cp)
    ensures run[|run| - 1].phase.RollingBack? && Complete(run[|run| - 1].phase.cp, run[|run| - 1].phase.log) ==>
              run[|run| - 1].db == StateAt(env, Applied(run))
    ensures run[|run| - 1].phase.Saved? ==> Commit(run[|run| - 1].db, run[|run| - 1].phase.cp) != run[|run| - 1].db
    ensures run[|run| - 1].cell.Some? ==> RefsDisjoint(run[|run| - 1].cell.value)
  {
    hide ValidEnv, StateAt, Next, Init, Rollback;
    RunKeeps(env, run);
    var s, n := run[|run| - 1], Applied(run);
    if s.phase.RollingBack? && Complete(s.phase.cp, s.phase.log) {
      SettledIsRolledBack(s.db, s.phase.cp);
    }
    if s.cell.Some? {
      if IsCheckpoint(env, n, s.cell.value) {
        CheckpointFacts(env, n, s.cell.value);
      } else {
        CheckpointFacts(env, n - 1, s.cell.value);
      }
    }
  }

  /** The block of the checkpoint is applied, and counted once. */
  ghost predicate TookEffect(cp: Checkpoint, was: Db, n: nat, now: Db, m: nat) {
    now == Commit(was, cp) && m == n + 1
  }

  ghost predicate AtHeight(env: Env, db: Db, n: nat) {
    n <= |env.chain| && db == StateAt(env, n)
  }

  class Store {
    const disk: Storage
    var isConsist: bool

    /** The flag is set exactly while the protocol serves. */
    ghost predicate Valid()
      reads this, disk
    {
      disk.Valid() && (if isConsist then disk.Now().phase == Ready else disk.Now().phase in {Down, Refusing})
    }

    /** A new process over existing storage: whatever ran before is gone. */
    constructor (disk: Storage)
      requires disk.Valid()
      modifies disk`run
      ensures this.disk == disk && Valid() && !isConsist && disk.Now().phase == Down
      ensures disk.Contents() == old(disk.Contents()) && disk.checkpoint == old(disk.checkpoint)
      ensures Applied(disk.run) == Applied(old(disk.run))
    {
      RunFacts(disk.env, disk.run);
      this.disk := disk;
      isConsist := false;
      new;
      disk.Record(Down);
    }

    // --------------------------------------------------------------- recovery

    /** One write of a rollback. On failure the process is lost, the write made or not. */
    method Restore(w: Write, ghost cp: Checkpoint) returns (ok: bool)
      requires disk.Valid() && disk.Now().phase.RollingBack? && disk.Now().phase.cp == cp
      requires Restoring(cp, w) && (disk.Now().phase.log == [] ==> w.SetHash?)
      modifies disk
      ensures (disk.faults == old(disk.faults) + if ok then 0 else 1) && (disk.reliable ==> ok)
      ensures disk.Valid() && disk.checkpoint == old(disk.checkpoint) && Applied(disk.run) == Applied(old(disk.run))
      ensures ok ==> disk.Now().phase == RollingBack(cp, old(disk.Now().phase.log) + [w])
                     && disk.Contents() == Apply(old(disk.Contents()), w)
      ensures !ok ==> disk.Now().phase == Down
                      && (disk.Contents() == Apply(old(disk.Contents()), w) || disk.Contents() == old(disk.Contents()))
    {
      ghost var log := disk.Now().phase.log;
      ghost var before := disk.Now();
      ok := disk.Write(w);
      if disk.Contents() == before.db && !ok {
        disk.Record(Down);
      } else {
        ghost var s := Sys(disk.Contents(), disk.checkpoint, RollingBack(cp, log + [w]));
        assert RollbackWrite(before, s, w);
        disk.Record(RollingBack(cp, log + [w]));
        if !ok {
          disk.Record(Down);
        }
      }
    }

    /** In the middle of a rollback, `was` being the database when it began. */
    ghost predicate RollingBackFrom(cp: Checkpoint, was: Db)
      reads disk
    {
      disk.Valid() && disk.Now().phase.RollingBack? && disk.Now().phase.cp == cp
      && disk.Contents() == ApplyAll(was, disk.Now().phase.log)
    }

    ghost function Log(): seq<Write>
      requires |disk.run| > 0 && disk.Now().phase.RollingBack?
      reads disk
    {
      disk.Now().phase.log
    }

    method RestoreNext(w: Write, ghost cp: Checkpoint, ghost was: Db) returns (ok: bool)
      requires RollingBackFrom(cp, was) && Restoring(cp, w) && (Log() == [] ==> w.SetHash?)
      modifies disk
      ensures (disk.faults == old(disk.faults) + if ok then 0 else 1) && (disk.reliable ==> ok)
      ensures disk.Valid() && disk.checkpoint == old(disk.checkpoint) && Applied(disk.run) == Applied(old(disk.run))
      ensures ok ==> RollingBackFrom(cp, was) && Log() == old(Log()) + [w]
      ensures !ok ==> disk.Now().phase == Down
    {
      ghost var log := Log();
      ok := Restore(w, cp);
      assert (log + [w])[..|log|] == log;
    }

    method RemoveNewReferences(cp: Checkpoint, ghost was: Db) returns (ok: bool)
      requires RollingBackFrom(cp, was) && cp.prev.Some? && Log() != []
      modifies disk
      ensures (disk.faults == old(disk.faults) + if ok then 0 else 1) && (disk.reliable ==> ok)
      ensures disk.Valid() && disk.checkpoint == old(disk.checkpoint) && Applied(disk.run) == Applied(old(disk.run))
      ensures ok ==> RollingBackFrom(cp, was) && old(Log()) <= Log()
      ensures ok ==> forall a :: a in cp.references ==> RemoveRefs(a, cp.references[a]) in Log()
      ensures !ok ==> disk.Now().phase == Down
    {
      var left := cp.references.Keys;
      while left != {}
        invariant left <= cp.references.Keys
        invariant RollingBackFrom(cp, was) && old(Log()) <= Log()
        invariant disk.checkpoint == old(disk.checkpoint) && Applied(disk.run) == Applied(old(disk.run))
        invariant disk.faults == old(disk.faults)
        invariant forall a :: a in cp.references && a !in left ==> RemoveRefs(a, cp.references[a]) in Log()
        decreases left
      {
        var a :| a in left;
        ok := RestoreNext(RemoveRefs(a, cp.references[a]), cp, was);
        if !ok {
          return;
        }
        left := left - {a};
      }
      ok := true;
    }

    method AddDroppedReferences(cp: Checkpoint, ghost was: Db) returns (ok: bool)
      requires RollingBackFrom(cp, was) && cp.prev.Some? && Log() != []
      modifies disk
      ensures (disk.faults == old(disk.faults) + if ok then 0 else 1) && (disk.reliable ==> ok)
      ensures disk.Valid() && disk.checkpoint == old(disk.checkpoint) && Applied(disk.run) == Applied(old(disk.run))
      ensures ok ==> RollingBackFrom(cp, was) && old(Log()) <= Log()
      ensures ok ==> forall a :: a in cp.dereferenced ==> AddRefs(a, cp.dereferenced[a]) in Log()
      ensures !ok ==> disk.Now().phase == Down
    {
      var left := cp.dereferenced.Keys;
      while left != {}
        invariant left <= cp.dereferenced.Keys
        invariant RollingBackFrom(cp, was) && old(Log()) <= Log()
        invariant disk.checkpoint == old(disk.checkpoint) && Applied(disk.run) == Applied(old(disk.run))
        invariant disk.faults == old(disk.faults)
        invariant forall a :: a in cp.dereferenced && a !in left ==> AddRefs(a, cp.dereferenced[a]) in Log()
        decreases left
      {
        var a :| a in left;
        ok := RestoreNext(AddRefs(a, cp.dereferenced[a]), cp, was);
        if !ok {
          return;
        }
        left := left - {a};
      }
      ok := true;
    }

    method DeleteNewEntries(cp: Checkpoint, ghost was: Db) returns (ok: bool)
      requires RollingBackFrom(cp, was) && cp.prev.Some? && Log() != []
      modifies disk
      ensures (disk.faults == old(disk.faults) + if ok then 0 else 1) && (disk.reliable ==> ok)
      ensures disk.Valid() && disk.checkpoint == old(disk.checkpoint) && Applied(disk.run) == Applied(old(disk.run))
      ensures ok ==> RollingBackFrom(cp, was) && old(Log()) <= Log()
      ensures ok ==> forall t :: t in cp.updated && t !in cp.before ==> DeleteEntry(t) in Log()
      ensures !ok ==> disk.Now().phase == Down
    {
      var left := cp.updated.Keys;
      while left != {}
        invariant left <= cp.updated.Keys
        invariant RollingBackFrom(cp, was) && old(Log()) <= Log()
        invariant disk.checkpoint == old(disk.checkpoint) && Applied(disk.run) == Applied(old(disk.run))
        invariant disk.faults == old(disk.faults)
        invariant forall t :: t in cp.updated && t !in cp.before && t !in left ==> DeleteEntry(t) in Log()
        decreases left
      {
        var t :| t in left;
        if t !in cp.before {
          ok := RestoreNext(DeleteEntry(t), cp, was);
          if !ok {
            return;
          }
        }
        left := left - {t};
      }
      ok := true;
    }

    method RestoreOldEntries(cp: Checkpoint, ghost was: Db) returns (ok: bool)
      requires RollingBackFrom(cp, was) && cp.prev.Some? && Log() != []
      modifies disk
      ensures (disk.faults == old(disk.faults) + if ok then 0 else 1) && (disk.reliable ==> ok)
      ensures disk.Valid() && disk.checkpoint == old(disk.checkpoint) && Applied(disk.run) == Applied(old(disk.run))
      ensures ok ==> RollingBackFrom(cp, was) && old(Log()) <= Log()
      ensures ok ==> forall t :: t in cp.before ==> SetEntry(t, cp.before[t]) in Log()
      ensures !ok ==> disk.Now().phase == Down
    {
      var left := cp.before.Keys;
      while left != {}
        invariant left <= cp.before.Keys
        invariant RollingBackFrom(cp, was) && old(Log()) <= Log()
        invariant disk.checkpoint == old(disk.checkpoint) && Applied(disk.run) == Applied(old(disk.run))
        invariant disk.faults == old(disk.faults)
        invariant forall t :: t in cp.before && t !in left ==> SetEntry(t, cp.before[t]) in Log()
        decreases left
      {
        var t :| t in left;
        ok := RestoreNext(SetEntry(t, cp.before[t]), cp, was);
        if !ok {
          return;
        }
        left := left - {t};
      }
      ok := true;
    }

    method RestoreBlockInfo(cp: Checkpoint) returns (ok: bool)
      requires disk.Valid() && disk.Now().phase == RollingBack(cp, []) && cp.prev.Some?
      modifies disk
      ensures (disk.faults == old(disk.faults) + if ok then 0 else 1) && (disk.reliable ==> ok)
      ensures disk.Valid() && disk.checkpoint == old(disk.checkpoint) && Applied(disk.run) == Applied(old(disk.run))
      ensures ok ==> RollingBackFrom(cp, old(disk.Contents()))
                     && Log() == [SetHash(cp.prev.value.hash), SetHeight(cp.prev.value.height)]
      ensures !ok ==> disk.Now().phase == Down
    {
      ghost var was := disk.Contents();
      ok := RestoreNext(SetHash(cp.prev.value.hash), cp, was);
      if ok {
        ok := RestoreNext(SetHeight(cp.prev.value.height), cp, was);
      }
    }

    method RestoreReferences(cp: Checkpoint, ghost was: Db) returns (ok: bool)
      requires RollingBackFrom(cp, was) && cp.prev.Some? && Log() != []
      modifies disk
      ensures (disk.faults == old(disk.faults) + if ok then 0 else 1) && (disk.reliable ==> ok)
      ensures disk.Valid() && disk.checkpoint == old(disk.checkpoint) && Applied(disk.run) == Applied(old(disk.run))
      ensures ok ==> RollingBackFrom(cp, was) && old(Log()) <= Log()
      ensures ok ==> forall a :: a in cp.references ==> RemoveRefs(a, cp.references[a]) in Log()
      ensures ok ==> forall a :: a in cp.dereferenced ==> AddRefs(a, cp.dereferenced[a]) in Log()
      ensures !ok ==> disk.Now().phase == Down
    {
      ok := RemoveNewReferences(cp, was);
      if ok {
        ok := AddDroppedReferences(cp, was);
      }
    }

    method RestoreTransactions(cp: Checkpoint, ghost was: Db) returns (ok: bool)
      requires RollingBackFrom(cp, was) && cp.prev.Some? && Log() != []
      modifies disk
      ensures (disk.faults == old(disk.faults) + if ok then 0 else 1) && (disk.reliable ==> ok)
      ensures disk.Valid() && disk.checkpoint == old(disk.checkpoint) && Applied(disk.run) == Applied(old(disk.run))
      ensures ok ==> RollingBackFrom(cp, was) && old(Log()) <= Log()
      ensures ok ==> forall t :: t in cp.updated && t !in cp.before ==> DeleteEntry(t) in Log()
      ensures ok ==> forall t :: t in cp.before ==> SetEntry(t, cp.before[t]) in Log()
      ensures !ok ==> disk.Now().phase == Down
    {
      ok := DeleteNewEntries(cp, was);
      if ok {
        ok := RestoreOldEntries(cp, was);
      }
    }

    /** The rollback, write by write: hash, height, new references, dropped
        references, new entries, old entries. */
    method DownCheckpoint(cp: Checkpoint) returns (ok: bool)
      requires disk.Valid() && disk.Now().phase == RollingBack(cp, []) && cp.prev.Some?
      modifies disk
      ensures (disk.faults == old(disk.faults) + if ok then 0 else 1) && (disk.reliable ==> ok)
      ensures disk.Valid() && disk.checkpoint == old(disk.checkpoint) && Applied(disk.run) == Applied(old(disk.run))
      ensures ok ==> disk.Contents() == Rollback(old(disk.Contents()), cp)
      ensures ok ==> disk.Now().phase.RollingBack? && disk.Now().phase.cp == cp && Complete(cp, Log())
      ensures !ok ==> disk.Now().phase == Down
    {
      hide ValidEnv, Rollback, Next, Init;
      ghost var was := disk.Contents();
      ok := RestoreBlockInfo(cp);
      if !ok {
        return;
      }
      ghost var info := Log();
      ok := RestoreReferences(cp, was);
      if !ok {
        return;
      }
      ok := RestoreTransactions(cp, was);
      if !ok {
        return;
      }
      LogIsComplete(cp, info, Log());
      RunFacts(disk.env, disk.run);
      CompleteRollback(was, cp, Log());
    }

    /** What a restart does with a leftover checkpoint: accept it, or roll it back.
        After a rollback the store keeps refusing until it is started again. */
    method CheckConsistencyAndTryToFix() returns (ok: bool)
      requires Valid() && !isConsist && disk.Now().phase == Down
      modifies this`isConsist, disk
      ensures Valid() && Applied(disk.run) == Applied(old(disk.run))
      ensures isConsist ==> ok
      ensures ok ==> disk.checkpoint == None && AtHeight(disk.env, disk.Contents(), Applied(disk.run))
      ensures ok && old(disk.checkpoint) == None ==> isConsist && disk.Contents() == old(disk.Contents())
      ensures ok && old(disk.checkpoint).Some? ==>
                var db, cp := old(disk.Contents()), old(disk.checkpoint).value;
                if Commit(db, cp) == db then isConsist && disk.Contents() == db
                else !isConsist && cp.prev.Some? && disk.Contents() == Rollback(db, cp)
      ensures !ok && disk.faults == old(disk.faults) ==>
                old(disk.checkpoint).Some? && disk.Contents() == old(disk.Contents()) && disk.checkpoint == old(disk.checkpoint)
                && (disk.hash.None? || CanGiveUp(disk.Contents(), disk.checkpoint.value))
      ensures old(disk.checkpoint).Some? && (old(disk.hash).None? || MustGiveUp(old(disk.Contents()), old(disk.checkpoint).value)) ==>
                !ok && disk.faults == old(disk.faults)
      ensures old(disk.checkpoint) == None || (disk.env.atomic && disk.faults == old(disk.faults)) ==> ok
      ensures disk.reliable ==> disk.faults == old(disk.faults)
    {
      hide CanGiveUp, MustGiveUp, Commit, Rollback, ValidEnv, Run, Applied;
      if disk.env.atomic {
        AtomicDecides(disk.env, disk.run);
      }
      RunFacts(disk.env, disk.run);
      if disk.checkpoint.None? {
        disk.Record(Ready);
        isConsist := true;
        RunFacts(disk.env, disk.run);
        return true;
      }
      var cp := disk.checkpoint.value;
      var db := Db(disk.hash, disk.height, disk.entries, disk.index);
      var check := IsConsistenceWithCheckpoint(db, cp);
      if check.Failure? {
        assert db == disk.Contents() && (check.error.BlockHashNotFound? || check.error.EntryNotFound?);
        return false;
      }
      if check.value {
        ok := AcceptCheckpoint(cp);
      } else {
        ok := RejectCheckpoint(cp);
      }
    }

    /** Starting the program: a new store over the storage, and its check. When no write
        fails and the check decides, as it does when transactions are atomic, the first
        start leaves no checkpoint; a start that finds none serves. */
    static method New(disk: Storage) returns (store: Store, ok: bool)
      requires disk.Valid()
      modifies disk
      ensures fresh(store) && store.disk == disk && store.Valid() && Applied(disk.run) == Applied(old(disk.run))
      ensures ok ==> disk.checkpoint == None && AtHeight(disk.env, disk.Contents(), Applied(disk.run))
      ensures old(disk.checkpoint) == None ==> ok && store.isConsist
      ensures disk.faults == old(disk.faults) ==>
                (disk.env.atomic || AtHeight(disk.env, old(disk.Contents()), Applied(old(disk.run))) ==> ok)
      ensures disk.reliable ==> disk.faults == old(disk.faults)
      ensures ok && old(disk.checkpoint).Some? ==>
                var db, cp := old(disk.Contents()), old(disk.checkpoint).value;
                if Commit(db, cp) == db then store.isConsist && disk.Contents() == db
                else !store.isConsist && cp.prev.Some? && disk.Contents() == Rollback(db, cp)
    {
      if AtHeight(disk.env, disk.Contents(), Applied(disk.run)) {
        WholeStateDecides(disk.env, disk.run);
      }
      store := new Store(disk);
      ok := store.CheckConsistencyAndTryToFix();
    }

    method AcceptCheckpoint(cp: Checkpoint) returns (ok: bool)
      requires Valid() && !isConsist && disk.Now().phase == Down
      requires disk.checkpoint == Some(cp) && Commit(disk.Contents(), cp) == disk.Contents()
      modifies this`isConsist, disk
      ensures (disk.faults == old(disk.faults) + if ok then 0 else 1) && (disk.reliable ==> ok)
      ensures Valid() && Applied(disk.run) == Applied(old(disk.run)) && disk.Contents() == old(disk.Contents())
      ensures ok <==> isConsist
      ensures ok ==> disk.checkpoint == None && AtHeight(disk.env, disk.Contents(), Applied(disk.run))
    {
      hide ValidEnv, Commit, Rollback, Build, Init;
      disk.Record(Accepted);
      ghost var accepted := disk.Now();
      ok := disk.RemoveLatestCheckpoint();
      if disk.checkpoint == None {
        assert Accept(accepted, Sys(disk.Contents(), None, Ready));
        disk.Record(Ready);
      }
      RunFacts(disk.env, disk.run);
      if ok {
        isConsist := true;
      } else {
        disk.Record(Down);
      }
    }

    method RejectCheckpoint(cp: Checkpoint) returns (ok: bool)
      requires Valid() && !isConsist && disk.Now().phase == Down
      requires disk.checkpoint == Some(cp) && Commit(disk.Contents(), cp) != disk.Contents()
      modifies disk
      ensures (disk.faults == old(disk.faults) + if ok then 0 else 1) && (disk.reliable ==> ok)
      ensures ok ==> cp.prev.Some? && disk.Contents() == Rollback(old(disk.Contents()), cp)
      ensures Valid() && Applied(disk.run) == Applied(old(disk.run))
      ensures ok ==> disk.checkpoint == None && AtHeight(disk.env, disk.Contents(), Applied(disk.run))
    {
      disk.Record(RollingBack(cp, []));
      RunFacts(disk.env, disk.run);
      ok := DownCheckpoint(cp);
      if !ok {
        return;
      }
      RunFacts(disk.env, disk.run);
      ghost var rolled := disk.Now();
      ok := disk.RemoveLatestCheckpoint();
      if disk.checkpoint == None {
        assert RollbackDone(rolled, Sys(disk.Contents(), None, Refusing));
        disk.Record(Refusing);
        RunFacts(disk.env, disk.run);
      } else {
        disk.Record(Down);
      }
    }

    // ----------------------------------------------------------------- commit

    /** The block's transaction: its commands take effect together or not at all, and
        either may be reported as a failure. A failure stops the store. */
    method SpendOutputsWithNewBlockInfo(cp: Checkpoint) returns (ok: bool)
      requires disk.Valid() && isConsist && disk.Now().phase == Saved(cp)
      modifies this`isConsist, disk
      ensures (disk.faults == old(disk.faults) + if ok then 0 else 1) && (disk.reliable ==> ok)
      ensures disk.Valid() && disk.checkpoint == old(disk.checkpoint) && isConsist == ok
      ensures ok ==> disk.Now().phase == Committed && disk.Contents() == Commit(old(disk.Contents()), cp)
      ensures !ok ==> disk.Now().phase == Refusing
      ensures TookEffect(cp, old(disk.Contents()), Applied(old(disk.run)), disk.Contents(), Applied(disk.run))
              || (!ok && disk.Contents() == old(disk.Contents()) && Applied(disk.run) == Applied(old(disk.run)))
    {
      hide ValidEnv, Run, Applied, Commit, RollbackWrite, Save, Accept, RollbackDone, Remove;
      RunFacts(disk.env, disk.run);
      var db := Db(disk.hash, disk.height, disk.entries, disk.index);
      var staged := StageCommit(db, cp);
      var before, after: bool := *, *;
      if before && !disk.reliable {
        isConsist := false;
        disk.faults := disk.faults + 1;
        disk.Record(Refusing);
        return false;
      }
      disk.hash, disk.height, disk.entries, disk.index := staged.hash, staged.height, staged.entries, staged.index;
      if after && !disk.reliable {
        isConsist := false;
        disk.faults := disk.faults + 1;
        disk.Record(Refusing);
        return false;
      }
      disk.Record(Committed);
      return true;
    }

    /** Saves the checkpoint of the next block. A failed save leaves the store serving. */
    method SaveBeforeUpdate(cp: Checkpoint, ghost k: nat) returns (ok: bool)
      requires Valid() && isConsist
      requires k < |disk.env.chain| && Build(disk.Contents(), disk.env.chain[k]) == Success(cp)
      modifies disk
      ensures (disk.faults == old(disk.faults) + if ok then 0 else 1) && (disk.reliable ==> ok)
      ensures disk.Valid() && disk.Contents() == old(disk.Contents()) && Applied(disk.run) == Applied(old(disk.run))
      ensures disk.checkpoint == Some(cp) || (!ok && disk.checkpoint == old(disk.checkpoint))
      ensures disk.Now().phase == if ok then Saved(cp) else Ready
    {
      ghost var before := disk.Now();
      ok := disk.SaveCheckpoint(cp);
      if disk.checkpoint == Some(cp) {
        ghost var phase := if ok then Saved(cp) else Ready;
        assert Save(disk.env, before, Sys(disk.Contents(), disk.checkpoint, phase), k);
        disk.Record(phase);
      }
    }

    method RemoveAfterUpdate() returns (ok: bool)
      requires disk.Valid() && isConsist && disk.Now().phase == Committed
      modifies disk
      ensures (disk.faults == old(disk.faults) + if ok then 0 else 1) && (disk.reliable ==> ok)
      ensures Valid() && disk.Contents() == old(disk.Contents()) && Applied(disk.run) == Applied(old(disk.run))
      ensures disk.checkpoint == None || (!ok && disk.checkpoint == old(disk.checkpoint))
    {
      ghost var before := disk.Now();
      ok := disk.RemoveLatestCheckpoint();
      assert Remove(before, Sys(disk.Contents(), disk.checkpoint, Ready));
      disk.Record(Ready);
    }

    /** Save, commit, remove. Every way out is listed with what it leaves durable. */
    method CommitCheckpoint(cp: Checkpoint, ghost k: nat) returns (r: Result<(), StoreError>)
      requires Valid()
      requires isConsist ==> k < |disk.env.chain| && Build(disk.Contents(), disk.env.chain[k]) == Success(cp)
      modifies this`isConsist, disk
      ensures Valid()
      ensures r == Failure(InconsistentState) <==> !old(isConsist)
      ensures !old(isConsist) ==> disk.run == old(disk.run) && disk.Contents() == old(disk.Contents()) && !isConsist
      ensures r == Failure(SaveFailed) ==>
                isConsist && disk.Contents() == old(disk.Contents()) && Applied(disk.run) == Applied(old(disk.run))
      ensures r == Failure(TransactionFailed) ==> !isConsist && disk.checkpoint == Some(cp)
      ensures r == Failure(TransactionFailed) ==>
                TookEffect(cp, old(disk.Contents()), Applied(old(disk.run)), disk.Contents(), Applied(disk.run))
                || (disk.Contents() == old(disk.Contents()) && Applied(disk.run) == Applied(old(disk.run)))
      ensures r == Failure(RemoveFailed) || r.Success? ==>
                isConsist && TookEffect(cp, old(disk.Contents()), Applied(old(disk.run)), disk.Contents(), Applied(disk.run))
      ensures r.Success? ==> disk.checkpoint == None
      ensures r.Failure? ==> !r.error.CannotBuild?
      ensures disk.faults == old(disk.faults) + if r.Failure? && old(isConsist) then 1 else 0
      ensures disk.reliable && old(isConsist) ==> r.Success?
    {
      if !isConsist {
        return Failure(InconsistentState);
      }
      RunFacts(disk.env, disk.run);
      var saved := SaveBeforeUpdate(cp, k);
      if !saved {
        return Failure(SaveFailed);
      }
      var committed := SpendOutputsWithNewBlockInfo(cp);
      RunFacts(disk.env, disk.run);
      if !committed {
        return Failure(TransactionFailed);
      }
      var removed := RemoveAfterUpdate();
      if !removed {
        return Failure(RemoveFailed);
      }
      return Success(());
    }

    // ---------------------------------------------------------------- service

    /** Builds the checkpoint of a chain block and commits it. Success and, after it,
        `NoDiff` mean that the block is applied; no outcome applies it twice. Served the
        next block or the last one, it fails only together with a write. A store that serves
        goes on serving unless the block's transaction fails. */
    method AddFromBlock(block: Block, ghost k: nat) returns (r: Result<(), StoreError>)
      requires Valid() && k < |disk.env.chain| && disk.env.chain[k] == block
      modifies this`isConsist, disk
      ensures Valid()
      ensures Applied(disk.run) == Applied(old(disk.run)) || (Applied(old(disk.run)) == k && Applied(disk.run) == k + 1)
      ensures r.Success? ==> Applied(old(disk.run)) == k && Applied(disk.run) == k + 1
      ensures r == Failure(CannotBuild(NoDiff)) <==> old(isConsist) && Applied(old(disk.run)) == k + 1
      ensures r.Failure? && r.error.CannotBuild? ==> disk.run == old(disk.run)
      ensures !old(isConsist) ==> r == Failure(InconsistentState) && disk.run == old(disk.run) && !isConsist
      ensures r.Success? ==> isConsist && disk.checkpoint == None
      ensures r == Failure(SaveFailed) ==> isConsist && Applied(disk.run) == k
      ensures r == Failure(RemoveFailed) ==> isConsist && Applied(disk.run) == k + 1
      ensures old(isConsist) ==> (isConsist <==> r != Failure(TransactionFailed))
      ensures disk.faults >= old(disk.faults) && (disk.reliable ==> disk.faults == old(disk.faults))
      ensures old(isConsist) && disk.faults == old(disk.faults) ==> isConsist
      ensures old(isConsist) && Applied(old(disk.run)) == k && r.Failure? ==> disk.faults == old(disk.faults) + 1
    {
      hide ValidEnv, Run, Applied, Commit, Build, StateAt;
      if !isConsist {
        return Failure(InconsistentState);
      }
      RunFacts(disk.env, disk.run);
      ghost var n := Applied(disk.run);
      OnlyNextBlockBuilds(disk.env, n, k);
      var db := Db(disk.hash, disk.height, disk.entries, disk.index);
      var cp := NewCheckpointFromNextBlock(db, block);
      if cp.Failure? {
        NoDiffMeansApplied(disk.env, n, k);
        return Failure(CannotBuild(cp.error));
      }
      r := CommitCheckpoint(cp.value, k);
    }

    /** The address lookup: refused unless the store serves, and then a full scan of
        the coins the rule gives at the height of the store. */
    method GetUnspentOutputsByAddress(a: Address) returns (r: Result<seq<UtxoEntry>, StoreError>)
      requires Valid()
      ensures r.Failure? <==> !isConsist
      ensures r.Failure? ==> r.error == InconsistentState
      ensures r.Success? ==> Applied(disk.run) <= |disk.env.chain|
                             && Lists(r.value, FullScan(CoinsAt(disk.env, Applied(disk.run)), a))
    {
      if !isConsist {
        return Failure(InconsistentState);
      }
      ServingStateAnswersByTheRule(disk.env, disk.run, a);
      var list := Consistency.GetUnspentOutputsByAddress(Db(disk.hash, disk.height, disk.entries, disk.index), a);
      return Success(list);
    }

    /** The scanner: each delivered block is retried until it is handled, a block
        that is already stored counting as handled. Blocks come in chain order from the
        last stored one or the next one. `attempts` bounds the tries, which the program
        does not; a store that goes on serving needs no more of them than one a block
        and one a failed write. */
    method Start(blocks: seq<Block>, ghost first: nat, attempts: nat) returns (handled: nat)
      requires Valid() && first + |blocks| <= |disk.env.chain|
      requires blocks == disk.env.chain[first..first + |blocks|]
      modifies this`isConsist, disk
      ensures Valid() && handled <= |blocks| && disk.faults >= old(disk.faults)
      ensures handled == |blocks| && handled > 0 ==> Applied(disk.run) == first + handled
      ensures 0 < handled < |blocks| ==> first + handled <= Applied(disk.run) <= first + handled + 1
      ensures Applied(old(disk.run)) <= Applied(disk.run)
      ensures old(isConsist) && disk.faults == old(disk.faults) ==> isConsist
      ensures disk.reliable ==> disk.faults == old(disk.faults)
      ensures disk.reliable && old(isConsist) && first <= Applied(old(disk.run)) <= first + 1 && attempts >= |blocks| ==>
                handled == |blocks| && isConsist
      ensures isConsist && first <= Applied(old(disk.run)) <= first + 1 ==>
                (attempts >= |blocks| + (disk.faults - old(disk.faults)) ==> handled == |blocks|)
    {
      handled := 0;
      var tries := attempts;
      ghost var near := first <= Applied(disk.run) <= first + 1;
      while handled < |blocks|
        invariant handled <= |blocks| && Valid() && disk.faults >= old(disk.faults)
        invariant handled > 0 ==> Applied(disk.run) == first + handled
        invariant Applied(old(disk.run)) <= Applied(disk.run)
        invariant old(isConsist) && disk.faults == old(disk.faults) ==> isConsist
        invariant disk.reliable ==> disk.faults == old(disk.faults)
        invariant near ==> first + handled <= Applied(disk.run) <= first + handled + 1
        invariant near && isConsist ==> attempts - tries <= handled + (disk.faults - old(disk.faults))
      {
        var done := false;
        while !done
          invariant Valid() && Applied(old(disk.run)) <= Applied(disk.run) && disk.faults >= old(disk.faults)
          invariant old(isConsist) && disk.faults == old(disk.faults) ==> isConsist
          invariant disk.reliable ==> disk.faults == old(disk.faults)
          invariant done ==> Applied(disk.run) == first + handled + 1
          invariant handled > 0 ==> first + handled <= Applied(disk.run) <= first + handled + 1
          invariant near ==> first + handled <= Applied(disk.run) <= first + handled + 1
          invariant near && isConsist ==>
                      attempts - tries <= handled + (if done then 1 else 0) + (disk.faults - old(disk.faults))
          decreases !done, tries
        {
          if tries == 0 {
            return;
          }
          tries := tries - 1;
          done := Handle(blocks[handled], first + handled);
        }
        handled := handled + 1;
      }
    }

    /** One try: an already stored block is a handled one. */
    method Handle(block: Block, ghost k: nat) returns (done: bool)
      requires Valid() && k < |disk.env.chain| && disk.env.chain[k] == block
      modifies this`isConsist, disk
      ensures Valid() && disk.faults >= old(disk.faults) && (isConsist ==> old(isConsist))
      ensures Applied(disk.run) == Applied(old(disk.run)) || (Applied(old(disk.run)) == k && Applied(disk.run) == k + 1)
      ensures old(isConsist) && disk.faults == old(disk.faults) ==> isConsist
      ensures disk.reliable ==> disk.faults == old(disk.faults)
      ensures done ==> Applied(disk.run) == k + 1
      ensures old(isConsist) && k <= Applied(old(disk.run)) <= k + 1 && !done ==> disk.faults > old(disk.faults)
    {
      var r := AddFromBlock(block, k);
      done := r.Success? || r == Failure(CannotBuild(NoDiff));
    }
  }

  lemma NoDiffMeansApplied(env: Env, n: nat, k: nat)
    requires ValidEnv(env) && n <= |env.chain| && k < |env.chain|
    ensures Build(StateAt(env, n), env.chain[k]) == Failure(NoDiff) <==> k + 1 == n
  {
    StateRepresents(env, n);
    assert ValidLink(env, k);
  }

  lemma LogIsComplete(cp: Checkpoint, info: seq<Write>, log: seq<Write>)
    requires cp.prev.Some?
    requires info == [SetHash(cp.prev.value.hash), SetHeight(cp.prev.value.height)] && info <= log
    requires forall a :: a in cp.references ==> RemoveRefs(a, cp.references[a]) in log
    requires forall a :: a in cp.dereferenced ==> AddRefs(a, cp.dereferenced[a]) in log
    requires forall t :: t in cp.updated && t !in cp.before ==> DeleteEntry(t) in log
    requires forall t :: t in cp.before ==> SetEntry(t, cp.before[t]) in log
    ensures Complete(cp, log)
  {
    assert log[0] == info[0] && log[1] == info[1];
  }
}
