/** The commit protocol as a machine of single durable effects, with a crash
    possible between any two of them, and what holds in every run of it.

    A block's checkpoint is saved, its transaction committed, the checkpoint
    removed. A restart that finds a checkpoint either accepts it or rolls it back
    write by write. Deliveries of chain blocks come in any order, any number of
    times. With `atomic` false a failing transaction may leave any mixture of old
    and new values behind. */
module Protocol {
  import opened Wrappers
  import opened Ledger
  import opened Spending
  import opened Database

  /** A fixed chain continuing a base database. */
  datatype Env = Env(base: Db, coins: Utxos, known: set<TxId>, chain: seq<Block>, atomic: bool)

  ghost function CoinsAt(env: Env, n: nat): Utxos
    requires n <= |env.chain|
  {
    if n == 0 then env.coins
    else ApplyTxs(CoinsAt(env, n - 1), env.chain[n - 1].txs, env.chain[n - 1].height)
  }

  ghost function KnownAt(env: Env, n: nat): set<TxId>
    requires n <= |env.chain|
  {
    if n == 0 then env.known else KnownAt(env, n - 1) + Ids(env.chain[n - 1].txs)
  }

  ghost predicate ValidLink(env: Env, n: nat)
    requires n < |env.chain|
  {
    && env.chain[n].height == env.base.height + n + 1
    && Some(env.chain[n].hash) != (if n == 0 then env.base.hash else Some(env.chain[n - 1].hash))
    && ValidBlock(CoinsAt(env, n), KnownAt(env, n), env.chain[n])
  }

  /** The base stores a block and represents its coins; every block of the chain is
      valid by the rule, at the next height, with another hash than its parent. */
  ghost predicate ValidEnv(env: Env) {
    && env.base.hash.Some?
    && Represents(env.base, env.coins, env.known)
    && forall n :: 0 <= n < |env.chain| ==> ValidLink(env, n)
  }

  /** The database after the first `n` blocks. */
  ghost function StateAt(env: Env, n: nat): Db
    requires n <= |env.chain|
  {
    if n == 0 then env.base
    else
      match Build(StateAt(env, n - 1), env.chain[n - 1])
      case Success(cp) => Commit(StateAt(env, n - 1), cp)
      case Failure(_) => StateAt(env, n - 1)
  }

  lemma StateStep(env: Env, n: nat)
    requires ValidEnv(env) && n < |env.chain|
    requires Represents(StateAt(env, n), CoinsAt(env, n), KnownAt(env, n))
    requires StateAt(env, n).hash.Some? && StateAt(env, n).height == env.base.height + n
    ensures Build(StateAt(env, n), env.chain[n]).Success?
    ensures StateAt(env, n + 1) == Commit(StateAt(env, n), Build(StateAt(env, n), env.chain[n]).value)
    ensures StateAt(env, n + 1).height == env.chain[n].height && StateAt(env, n + 1).hash == Some(env.chain[n].hash)
    ensures Represents(StateAt(env, n + 1), CoinsAt(env, n + 1), KnownAt(env, n + 1))
  {
    assert ValidLink(env, n);
    BuildSucceeds(StateAt(env, n), CoinsAt(env, n), KnownAt(env, n), env.chain[n]);
    CommitRepresents(StateAt(env, n), CoinsAt(env, n), KnownAt(env, n), env.chain[n]);
  }

  /** The chain state represents the coins of the rule at every height. */
  lemma {:induction false} StateRepresents(env: Env, n: nat)
    requires ValidEnv(env) && n <= |env.chain|
    ensures Represents(StateAt(env, n), CoinsAt(env, n), KnownAt(env, n))
    ensures StateAt(env, n).height == env.base.height + n
    ensures StateAt(env, n).hash == if n == 0 then env.base.hash else Some(env.chain[n - 1].hash)
  {
    hide Represents, Build, Commit, ValidBlock;
    if n > 0 {
      StateRepresents(env, n - 1);
      StateStep(env, n - 1);
      assert ValidLink(env, n - 1);
    }
  }

  /** At height n only the next block of the chain yields a checkpoint: a block
      already stored or one too far ahead is refused. */
  lemma OnlyNextBlockBuilds(env: Env, n: nat, k: nat)
    requires ValidEnv(env) && n <= |env.chain| && k < |env.chain|
    ensures Build(StateAt(env, n), env.chain[k]).Success? <==> k == n
    ensures k + 1 == n ==> Build(StateAt(env, n), env.chain[k]) == Failure(NoDiff)
  {
    StateRepresents(env, n);
    assert ValidLink(env, k);
    if k == n {
      BuildSucceeds(StateAt(env, n), CoinsAt(env, n), KnownAt(env, n), env.chain[n]);
    }
  }

  ghost predicate IsCheckpoint(env: Env, n: nat, cp: Checkpoint) {
    n < |env.chain| && Build(StateAt(env, n), env.chain[n]) == Success(cp)
  }

  lemma CheckpointFacts(env: Env, n: nat, cp: Checkpoint)
    requires ValidEnv(env) && IsCheckpoint(env, n, cp)
    ensures Matches(StateAt(env, n), cp) && RefsDisjoint(cp)
    ensures StateAt(env, n + 1) == Commit(StateAt(env, n), cp)
    ensures Some(cp.next.hash) != StateAt(env, n).hash
  {
    StateRepresents(env, n);
    assert ValidLink(env, n);
    BuildSucceeds(StateAt(env, n), CoinsAt(env, n), KnownAt(env, n), env.chain[n]);
  }

  // ------------------------------------------------------------- the machine

  /** Where the process is. Only `Ready` serves and accepts blocks. */
  datatype Phase =
    | Down
    | Ready
    | Refusing
    | Saved(cp: Checkpoint)
    | Committed
    | Accepted
    | RollingBack(cp: Checkpoint, log: seq<Write>)

  datatype Sys = Sys(db: Db, cell: Option<Checkpoint>, phase: Phase)

  ghost predicate Init(env: Env, s: Sys) {
    s == Sys(env.base, None, Down)
  }

  /** The database that a transaction which did not report success may leave. */
  ghost predicate TornCommit(env: Env, db: Db, cp: Checkpoint, now: Db) {
    now == db || now == Commit(db, cp) || (!env.atomic && Mixed(db, cp, now))
  }

  ghost predicate Start(s: Sys, s': Sys) {
    s.phase == Down &&
    match s.cell
    case None => s' == s.(phase := Ready)
    case Some(cp) => s' == s.(phase := if Commit(s.db, cp) == s.db then Accepted else RollingBack(cp, []))
  }

  ghost predicate Accept(s: Sys, s': Sys) {
    s.phase == Accepted && s' == Sys(s.db, None, Ready)
  }

  ghost predicate RollbackWrite(s: Sys, s': Sys, w: Write) {
    && s.phase.RollingBack?
    && Restoring(s.phase.cp, w)
    && (s.phase.log == [] ==> w.SetHash?)
    && s' == Sys(Apply(s.db, w), s.cell, RollingBack(s.phase.cp, s.phase.log + [w]))
  }

  ghost predicate RollbackDone(s: Sys, s': Sys) {
    s.phase.RollingBack? && Complete(s.phase.cp, s.phase.log) && s' == Sys(s.db, None, Refusing)
  }

  ghost predicate Save(env: Env, s: Sys, s': Sys, k: nat) {
    && s.phase == Ready && k < |env.chain| && Build(s.db, env.chain[k]).Success?
    && var cp := Build(s.db, env.chain[k]).value;
       s' == Sys(s.db, Some(cp), Saved(cp)) || s' == Sys(s.db, Some(cp), Ready)
  }

  ghost predicate Transact(env: Env, s: Sys, s': Sys) {
    && s.phase.Saved?
    && (s' == Sys(Commit(s.db, s.phase.cp), s.cell, Committed)
        || (TornCommit(env, s.db, s.phase.cp, s'.db) && s'.cell == s.cell && s'.phase in {Refusing, Down}))
  }

  ghost predicate Remove(s: Sys, s': Sys) {
    s.phase == Committed && (s' == Sys(s.db, None, Ready) || s' == s.(phase := Ready))
  }

  ghost predicate Next(env: Env, s: Sys, s': Sys) {
    || s' == s
    || s' == s.(phase := Down)
    || Start(s, s')
    || Accept(s, s')
    || (exists w :: RollbackWrite(s, s', w))
    || RollbackDone(s, s')
    || (exists k :: Save(env, s, s', k))
    || Transact(env, s, s')
    || Remove(s, s')
  }

  ghost predicate Run(env: Env, run: seq<Sys>) {
    && |run| > 0 && Init(env, run[0])
    && forall i :: 0 <= i < |run| - 1 ==> Next(env, run[i], run[i + 1])
  }

  // ---------------------------------------------------------------- invariant

  /** The database is the chain state at n, with at most a checkpoint of the block
      before or after it left over. */
  ghost predicate Clean(env: Env, s: Sys, n: nat) {
    && n <= |env.chain| && s.db == StateAt(env, n)
    && (s.cell.Some? ==> IsCheckpoint(env, n, s.cell.value) || (n > 0 && IsCheckpoint(env, n - 1, s.cell.value)))
  }

  /** Completing the rollback of the saved checkpoint gives the chain state at n,
      and a restart will do so. */
  ghost predicate Pending(env: Env, s: Sys, n: nat) {
    && n < |env.chain| && s.cell.Some? && IsCheckpoint(env, n, s.cell.value)
    && s.cell.value.prev.Some?
    && Rollback(s.db, s.cell.value) == StateAt(env, n)
    && Commit(s.db, s.cell.value) != s.db
  }

  ghost predicate InvAt(env: Env, s: Sys, n: nat) {
    && n <= |env.chain|
    && (env.atomic ==> s.db == StateAt(env, n))
    && match s.phase
       case Down => Clean(env, s, n) || Pending(env, s, n)
       case Refusing => Clean(env, s, n) || Pending(env, s, n)
       case Ready => Clean(env, s, n)
       case Saved(cp) => Clean(env, s, n) && s.cell == Some(cp) && IsCheckpoint(env, n, cp)
       case Committed => Clean(env, s, n) && s.cell.Some? && n > 0 && IsCheckpoint(env, n - 1, s.cell.value)
       case Accepted => Clean(env, s, n)
       case RollingBack(cp, log) =>
         && Pending(env, s, n) && s.cell == Some(cp) && AllRestoring(cp, log)
         && (forall w :: w in log ==> Settled(s.db, w))
         && (log != [] ==> s.db.hash == Some(cp.prev.value.hash))
  }

  lemma StartKeeps(env: Env, s: Sys, s': Sys, n: nat)
    requires ValidEnv(env) && InvAt(env, s, n) && Start(s, s')
    ensures InvAt(env, s', n)
  {
    hide ValidEnv, ValidLink, StateAt, Represents, Commit, Rollback, Build, RefsDisjoint;
    if s.cell.Some? {
      var cp := s.cell.value;
      if Clean(env, s, n) && IsCheckpoint(env, n, cp) {
        CheckpointFacts(env, n, cp);
        assert Mixed(s.db, cp, s.db);
        MixedRollsBack(s.db, cp, s.db);
      } else if Clean(env, s, n) {
        CheckpointFacts(env, n - 1, cp);
        CommitIdempotent(StateAt(env, n - 1), cp);
      }
    }
  }

  lemma RollbackWriteKeeps(env: Env, s: Sys, s': Sys, n: nat, w: Write)
    requires ValidEnv(env) && InvAt(env, s, n) && RollbackWrite(s, s', w)
    ensures InvAt(env, s', n)
  {
    var cp := s.phase.cp;
    CheckpointFacts(env, n, cp);
    RestoringAbsorbed(s.db, cp, w);
    if env.atomic {
      RestoringIsIdle(s.db, cp, w);
    }
    forall v | v in s'.phase.log ensures Settled(s'.db, v) {
      SettledStays(s.db, cp, w, v);
    }
    assert s'.db.hash == Some(cp.prev.value.hash);
  }

  lemma RollbackDoneKeeps(env: Env, s: Sys, s': Sys, n: nat)
    requires ValidEnv(env) && InvAt(env, s, n) && RollbackDone(s, s')
    ensures InvAt(env, s', n) && Clean(env, s', n)
  {
    SettledIsRolledBack(s.db, s.phase.cp);
  }

  lemma SaveKeeps(env: Env, s: Sys, s': Sys, n: nat, k: nat)
    requires ValidEnv(env) && InvAt(env, s, n) && Save(env, s, s', k)
    ensures InvAt(env, s', n)
  {
    OnlyNextBlockBuilds(env, n, k);
  }

  lemma TransactKeeps(env: Env, s: Sys, s': Sys, n: nat)
    requires ValidEnv(env) && InvAt(env, s, n) && Transact(env, s, s')
    ensures InvAt(env, s', if s'.db == Commit(s.db, s.phase.cp) then n + 1 else n)
  {
    var cp := s.phase.cp;
    CheckpointFacts(env, n, cp);
    if s'.db == Commit(s.db, cp) {
      assert Clean(env, s', n + 1);
    } else if s'.db != s.db {
      MixedRollsBack(s.db, cp, s'.db);
      CommitAbsorbsRollback(s'.db, cp);
      assert Pending(env, s', n);
    }
  }

  /** The step is a transaction taking full effect. */
  ghost predicate Applies(s: Sys, s': Sys) {
    s.phase.Saved? && s'.db == Commit(s.db, s.phase.cp)
  }

  /** Every step keeps the invariant: at the next height when a commit takes effect,
      at the same height otherwise. */
  lemma StepKeeps(env: Env, s: Sys, s': Sys, n: nat)
    requires ValidEnv(env) && InvAt(env, s, n) && Next(env, s, s')
    ensures InvAt(env, s', if Applies(s, s') then n + 1 else n)
  {
    if s.phase.Saved? {
      CheckpointFacts(env, n, s.phase.cp);
    }
    if s' == s || s' == s.(phase := Down) || Accept(s, s') || Remove(s, s') {
    } else if Start(s, s') {
      StartKeeps(env, s, s', n);
    } else if RollbackDone(s, s') {
      RollbackDoneKeeps(env, s, s', n);
    } else if Transact(env, s, s') {
      TransactKeeps(env, s, s', n);
    } else if exists w :: RollbackWrite(s, s', w) {
      var w :| RollbackWrite(s, s', w);
      RollbackWriteKeeps(env, s, s', n, w);
    } else {
      var k :| Save(env, s, s', k);
      SaveKeeps(env, s, s', n, k);
    }
  }

  /** How many transactions took full effect in a run. */
  ghost function Applied(run: seq<Sys>): nat {
    if |run| <= 1 then 0
    else Applied(run[..|run| - 1]) + (if Applies(run[|run| - 2], run[|run| - 1]) then 1 else 0)
  }

  lemma RunPrefix(env: Env, run: seq<Sys>)
    requires Run(env, run) && |run| > 1
    ensures Run(env, run[..|run| - 1]) && Next(env, run[|run| - 2], run[|run| - 1])
  {
    var n := |run| - 1;
    assert Next(env, run[n - 1], run[n - 1 + 1]);
    forall i | 0 <= i < n - 1 ensures Next(env, run[..n][i], run[..n][i + 1]) {
      assert run[..n][i] == run[i] && run[..n][i + 1] == run[i + 1];
    }
  }

  lemma InitHolds(env: Env, s: Sys)
    requires ValidEnv(env) && Init(env, s)
    ensures InvAt(env, s, 0)
  {
  }

  lemma LastStep(env: Env, run: seq<Sys>)
    requires ValidEnv(env) && Run(env, run) && |run| > 1
    requires InvAt(env, run[|run| - 2], Applied(run[..|run| - 1]))
    ensures InvAt(env, run[|run| - 1], Applied(run))
  {
    hide Next, InvAt, ValidEnv, Run;
    RunPrefix(env, run);
    StepKeeps(env, run[|run| - 2], run[|run| - 1], Applied(run[..|run| - 1]));
  }

  /** Whole-run invariant: after any run, the height the store is at, or is being
      brought back to, is the number of transactions that took effect. */
  lemma {:induction false} RunKeeps(env: Env, run: seq<Sys>)
    requires ValidEnv(env) && Run(env, run)
    ensures InvAt(env, run[|run| - 1], Applied(run))
    decreases |run|
  {
    if |run| == 1 {
      InitHolds(env, run[0]);
    } else {
      var init := run[..|run| - 1];
      RunPrefix(env, run);
      RunKeeps(env, init);
      assert init[|init| - 1] == run[|run| - 2];
      LastStep(env, run);
    }
  }

  /** Whole-run crash safety: the database is the chain state after the blocks
      applied, or completing the rollback of the saved checkpoint makes it so. */
  lemma CrashSafety(env: Env, run: seq<Sys>)
    requires ValidEnv(env) && Run(env, run)
    ensures Applied(run) <= |env.chain|
    ensures var s := run[|run| - 1];
            s.db == StateAt(env, Applied(run))
            || (s.cell.Some? && s.cell.value.prev.Some? && Rollback(s.db, s.cell.value) == StateAt(env, Applied(run)))
  {
    RunKeeps(env, run);
  }

  /** With atomic transactions the database is never anything but a chain state. */
  lemma AtomicCrashSafety(env: Env, run: seq<Sys>)
    requires ValidEnv(env) && env.atomic && Run(env, run)
    ensures Applied(run) <= |env.chain| && run[|run| - 1].db == StateAt(env, Applied(run))
  {
    RunKeeps(env, run);
  }

  /** Exactly-once application: whatever is delivered, retried or restarted, the
      transaction that takes effect next is that of the next block of the chain. */
  lemma AppliesInOrder(env: Env, run: seq<Sys>)
    requires ValidEnv(env) && Run(env, run) && |run| > 1
    requires Applies(run[|run| - 2], run[|run| - 1])
    ensures var n := Applied(run[..|run| - 1]);
            && n < |env.chain| && Applied(run) == n + 1
            && run[|run| - 2].db == StateAt(env, n)
            && run[|run| - 1].db == StateAt(env, n + 1)
            && run[|run| - 1].db.height == env.chain[n].height && run[|run| - 1].db.hash == Some(env.chain[n].hash)
  {
    hide Next, Run, ValidEnv, RefsDisjoint;
    var n := |run| - 1;
    RunPrefix(env, run);
    RunKeeps(env, run[..n]);
    assert run[..n][n - 1] == run[n - 1];
    CheckpointFacts(env, Applied(run[..n]), run[n - 1].phase.cp);
  }

  /** End to end: whenever the store serves, its height counts the blocks applied,
      its coins are the rule's, and an address lookup is a full scan of them. */
  lemma ServingStateAnswersByTheRule(env: Env, run: seq<Sys>, a: Address)
    requires ValidEnv(env) && Run(env, run) && run[|run| - 1].phase.Ready?
    ensures var s, n := run[|run| - 1], Applied(run);
            && n <= |env.chain| && s.db.height == env.base.height + n
            && Unspent(s.db.entries) == CoinsAt(env, n)
            && IndexLookup(s.db, a) == FullScan(CoinsAt(env, n), a)
  {
    RunKeeps(env, run);
    var n := Applied(run);
    StateRepresents(env, n);
    LookupIsFullScan(StateAt(env, n), CoinsAt(env, n), KnownAt(env, n), a);
  }

  /** The store's total is the base's plus everything created, less everything spent. */
  ghost function CreatedUpTo(env: Env, n: nat): nat
    requires n <= |env.chain|
  {
    if n == 0 then 0 else CreatedUpTo(env, n - 1) + BlockCreated(env.chain[n - 1].txs)
  }

  ghost function SpentUpTo(env: Env, n: nat): nat
    requires ValidEnv(env) && n <= |env.chain|
  {
    if n == 0 then 0
    else
      assert ValidLink(env, n - 1);
      SpentUpTo(env, n - 1) + BlockSpent(CoinsAt(env, n - 1), env.chain[n - 1].txs, env.chain[n - 1].height)
  }

  /** Value conservation over the chain, measured on the stored entries. */
  lemma {:induction false} StoredValueConserved(env: Env, n: nat)
    requires ValidEnv(env) && n <= |env.chain|
    ensures Value(Unspent(StateAt(env, n).entries)) + SpentUpTo(env, n) == Value(env.coins) + CreatedUpTo(env, n)
  {
    hide StateAt, Build, Commit, PaidPairs, ApplyTxs, Value, BlockCreated, BlockSpent;
    StateRepresents(env, n);
    if n > 0 {
      StateRepresents(env, n - 1);
      StoredValueConserved(env, n - 1);
      assert ValidLink(env, n - 1);
      ValueConserved(CoinsAt(env, n - 1), KnownAt(env, n - 1), env.chain[n - 1].txs, env.chain[n - 1].height);
    }
  }
}
