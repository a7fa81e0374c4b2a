/** When a restart can decide what to do with the checkpoint it finds. */
module Recovery {
  import opened Wrappers
  import opened Ledger
  import opened Spending
  import opened Database
  import opened Protocol
  import opened Consistency

  /** A checkpoint that is applied, or of another block than the stored one, is decided on. */
  lemma NoReasonToGiveUp(db: Db, cp: Checkpoint)
    requires Commit(db, cp) == db || db.hash != Some(cp.next.hash)
    ensures !CanGiveUp(db, cp)
  {
    if Commit(db, cp) == db {
      forall t | t in cp.updated && !AllSpent(cp.updated[t].outputs) ensures t in db.entries {
        assert t in Commit(db, cp).entries;
      }
    }
  }

  lemma CellIsNeighbour(env: Env, s: Sys, n: nat)
    requires n <= |env.chain| && InvAt(env, s, n) && s.cell.Some?
    ensures IsCheckpoint(env, n, s.cell.value) || (n > 0 && IsCheckpoint(env, n - 1, s.cell.value))
  {
    hide StateAt, Rollback, Commit, Settled;
  }

  lemma NeighbourDecides(env: Env, n: nat, cp: Checkpoint)
    requires ValidEnv(env) && n <= |env.chain|
    requires IsCheckpoint(env, n, cp) || (n > 0 && IsCheckpoint(env, n - 1, cp))
    ensures Commit(StateAt(env, n), cp) == StateAt(env, n) || StateAt(env, n).hash != Some(cp.next.hash)
  {
    hide ValidEnv, StateAt, Commit, Matches, RefsDisjoint;
    if IsCheckpoint(env, n, cp) {
      CheckpointFacts(env, n, cp);
    } else {
      CheckpointFacts(env, n - 1, cp);
      CommitIdempotent(StateAt(env, n - 1), cp);
    }
  }

  /** Only a torn database keeps a restart from deciding: whenever the database is a
      chain state, there is a block hash, and a leftover checkpoint is either applied or
      has another block hash as its new one. */
  lemma WholeStateDecides(env: Env, run: seq<Sys>)
    requires ValidEnv(env) && Run(env, run) && Applied(run) <= |env.chain|
    requires run[|run| - 1].db == StateAt(env, Applied(run))
    ensures var s := run[|run| - 1];
            s.db.hash.Some? && forall cp :: s.cell == Some(cp) ==>
              (Commit(s.db, cp) == s.db || s.db.hash != Some(cp.next.hash)) && !CanGiveUp(s.db, cp)
  {
    hide InvAt, StateAt, IsCheckpoint, CanGiveUp, Commit, Represents, Next, Init, Applied;
    var s, n := run[|run| - 1], Applied(run);
    RunKeeps(env, run);
    StateRepresents(env, n);
    if s.cell.Some? {
      CellIsNeighbour(env, s, n);
      NeighbourDecides(env, n, s.cell.value);
      NoReasonToGiveUp(s.db, s.cell.value);
    }
  }

  /** With atomic transactions a restart always decides. */
  lemma AtomicDecides(env: Env, run: seq<Sys>)
    requires ValidEnv(env) && Run(env, run) && env.atomic
    ensures var s := run[|run| - 1];
            s.db.hash.Some? && forall cp :: s.cell == Some(cp) ==>
              (Commit(s.db, cp) == s.db || s.db.hash != Some(cp.next.hash)) && !CanGiveUp(s.db, cp)
  {
    AtomicCrashSafety(env, run);
    CrashSafety(env, run);
    WholeStateDecides(env, run);
  }

  /** A commit of which only one entry was not written. */
  function TornWithout(db: Db, cp: Checkpoint, t: TxId): Db {
    Commit(db, cp).(entries := Commit(db, cp).entries - {t})
  }

  /** A transaction torn before a new live entry leaves a database on which a restart
      gives up. */
  lemma TornGivesUp(env: Env, s: Sys, cp: Checkpoint, t: TxId)
    requires !env.atomic && s.phase == Saved(cp) && RefsDisjoint(cp)
    requires t in cp.updated && !AllSpent(cp.updated[t].outputs) && t !in s.db.entries
    ensures var torn := TornWithout(s.db, cp, t);
            Next(env, s, Sys(torn, s.cell, Down)) && MustGiveUp(torn, cp)
  {
    var torn := TornWithout(s.db, cp, t);
    TornIsMixed(s.db, cp, t);
    assert Transact(env, s, Sys(torn, s.cell, Down));
    assert MissingLive(torn, cp, t);
  }

  lemma TornIsMixed(db: Db, cp: Checkpoint, t: TxId)
    requires t in cp.updated && t !in db.entries
    ensures Mixed(db, cp, TornWithout(db, cp, t))
  {
  }
}
