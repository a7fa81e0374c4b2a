/** The stored database, the checkpoint of one block, and what committing a
    checkpoint and rolling it back do to the database. */
module Database {
  import opened Wrappers
  import opened Ledger
  import opened Spending

  datatype BlockPoint = BlockPoint(height: int, hash: Hash)

  /** The undo record of one block. `prev` is missing only for the first block ever. */
  datatype Checkpoint = Checkpoint(
    prev: Option<BlockPoint>,
    next: BlockPoint,
    before: Entries,
    dereferenced: Refs,
    updated: Entries,
    references: Refs)

  /** The durable contents. The address index is a relation: a stored set that
      becomes empty is the same as no set. */
  datatype Db = Db(hash: Option<Hash>, height: int, entries: Entries, index: Pairs)

  /** `NilOutput` is the run-time failure of reading an output that is not there. */
  datatype BuildError = NoDiff | NextBlockTooFar | OutputsNotFound | OutputNotFound | NilOutput

  /** The pairs that the live outputs of some entries pay. */
  ghost function PaidPairs(entries: Entries): (r: Pairs)
    ensures forall a, t :: (a, t) in r <==> t in entries && Pays(entries[t].outputs, a)
  {
    var r := set t, v, k | t in entries && 0 <= v < |entries[t].outputs| && entries[t].outputs[v].Some?
                           && 0 <= k < |entries[t].outputs[v].value.addresses|
                         :: (entries[t].outputs[v].value.addresses[k], t);
    assert forall a, t :: t in entries && Pays(entries[t].outputs, a) ==> (a, t) in r by {
      forall a, t | t in entries && Pays(entries[t].outputs, a)
        ensures (a, t) in r
      {
        var v :| 0 <= v < |entries[t].outputs| && entries[t].outputs[v].Some? && a in entries[t].outputs[v].value.addresses;
      }
    }
    r
  }

  ghost function DereferencedPairs(before: Entries, txs: seq<Tx>): (r: Pairs)
    ensures forall a, t :: (a, t) in r <==> Dereferenced(before, txs, a, t)
  {
    var r := set p | p in PaidPairs(before) && Dereferenced(before, txs, p.0, p.1);
    assert forall a, t :: Dereferenced(before, txs, a, t) ==> (a, t) in r by {
      forall a, t | Dereferenced(before, txs, a, t)
        ensures (a, t) in r
      {
        CountZero(before[t].outputs, a);
      }
    }
    r
  }

  /** The checkpoint the indexer builds for the next block, or why it refuses. */
  ghost function Build(db: Db, block: Block): Result<Checkpoint, BuildError> {
    var next := BlockPoint(block.height, block.hash);
    if db.hash.None? then Success(Checkpoint(None, next, map[], map[], map[], map[]))
    else if block.height == db.height then Failure(NoDiff)
    else if db.height + 1 != block.height then Failure(NextBlockTooFar)
    else if !AllResolve(db.entries, block.txs) then Failure(OutputsNotFound)
    else
      var before := Before(db.entries, block.txs);
      var trouble := BlockTrouble(before, block.txs);
      if trouble.Some? then Failure(if trouble.value.NothingThere? then NilOutput else OutputNotFound)
      else
        match SpendTxs(before, block.txs, block.height)
        case Failure(_) => Failure(OutputNotFound)
        case Success(updated) =>
          Success(Checkpoint(
            Some(BlockPoint(db.height, db.hash.value)), next, before,
            GroupByAddress(DereferencedPairs(before, block.txs)), updated, GroupByAddress(NewPairs(block.txs))))
  }

  /** The database after the block's transaction: the up migration. */
  function Commit(db: Db, cp: Checkpoint): Db {
    Db(Some(cp.next.hash), cp.next.height, CommitEntries(db.entries, cp.updated),
       (db.index + PairsOf(cp.references)) - PairsOf(cp.dereferenced))
  }

  /** The down migration, as one step. */
  function Rollback(db: Db, cp: Checkpoint): Db
    requires cp.prev.Some?
  {
    Db(Some(cp.prev.value.hash), cp.prev.value.height,
       (db.entries - (cp.updated.Keys - cp.before.Keys)) + cp.before,
       (db.index - PairsOf(cp.references)) + PairsOf(cp.dereferenced))
  }

  /** The checkpoint describes this database: its before-image is what is stored,
      what it adds is new, what it drops is there. */
  predicate Matches(db: Db, cp: Checkpoint) {
    && cp.prev.Some? && db.hash == Some(cp.prev.value.hash) && db.height == cp.prev.value.height
    && cp.before.Keys <= cp.updated.Keys
    && db.entries + cp.before == db.entries
    && db.entries.Keys * cp.updated.Keys <= cp.before.Keys <= db.entries.Keys
    && PairsOf(cp.references) !! db.index
    && PairsOf(cp.dereferenced) <= db.index
  }

  /** Rolling back a commit restores the database exactly when the checkpoint's
      record of it is right; the condition is also necessary. */
  lemma RollbackExactIff(db: Db, cp: Checkpoint)
    requires cp.prev.Some?
    ensures Rollback(Commit(db, cp), cp) == db <==>
            && db.hash == Some(cp.prev.value.hash) && db.height == cp.prev.value.height
            && db.entries + cp.before == db.entries
            && db.entries.Keys * cp.updated.Keys <= cp.before.Keys <= db.entries.Keys
            && PairsOf(cp.references) * db.index <= PairsOf(cp.dereferenced) <= db.index
  {
    var r := Rollback(Commit(db, cp), cp);
    assert r.index == db.index <==> PairsOf(cp.references) * db.index <= PairsOf(cp.dereferenced) <= db.index;
    assert r.entries == db.entries <==>
           db.entries + cp.before == db.entries && db.entries.Keys * cp.updated.Keys <= cp.before.Keys <= db.entries.Keys by {
      if r.entries == db.entries {
        assert cp.before.Keys <= r.entries.Keys;
        assert forall t :: t in cp.before ==> r.entries[t] == cp.before[t];
        assert forall t :: t in db.entries && t in cp.updated && t !in cp.before ==> t !in r.entries;
      }
    }
  }

  /** Replaying after rolling back is replaying: the rollback touches nothing that
      the commit does not write. */
  lemma CommitAbsorbsRollback(db: Db, cp: Checkpoint)
    requires cp.prev.Some? && cp.before.Keys <= cp.updated.Keys
    ensures Commit(Rollback(db, cp), cp) == Commit(db, cp)
  {
    assert CommitEntries(Rollback(db, cp).entries, cp.updated) == CommitEntries(db.entries, cp.updated);
    assert Commit(Rollback(db, cp), cp).index == Commit(db, cp).index;
  }

  // ------------------------------------------------------- rollback by writes

  /** One durable write. */
  datatype Write =
    | SetHash(hash: Hash)
    | SetHeight(height: int)
    | RemoveRefs(address: Address, ids: set<TxId>)
    | AddRefs(address: Address, ids: set<TxId>)
    | DeleteEntry(id: TxId)
    | SetEntry(id: TxId, entry: Entry)

  function PairsAt(a: Address, ids: set<TxId>): (r: Pairs)
    ensures forall p :: p in r <==> p.0 == a && p.1 in ids
  {
    set t | t in ids :: (a, t)
  }

  function Apply(db: Db, w: Write): Db {
    match w
    case SetHash(h) => db.(hash := Some(h))
    case SetHeight(n) => db.(height := n)
    case RemoveRefs(a, ids) => db.(index := db.index - PairsAt(a, ids))
    case AddRefs(a, ids) => db.(index := db.index + PairsAt(a, ids))
    case DeleteEntry(t) => db.(entries := db.entries - {t})
    case SetEntry(t, e) => db.(entries := db.entries[t := e])
  }

  function ApplyAll(db: Db, log: seq<Write>): Db {
    if |log| == 0 then db else Apply(ApplyAll(db, log[..|log| - 1]), log[|log| - 1])
  }

  /** The writes the rollback of a checkpoint consists of. */
  predicate Restoring(cp: Checkpoint, w: Write) {
    cp.prev.Some? &&
    match w
    case SetHash(h) => h == cp.prev.value.hash
    case SetHeight(n) => n == cp.prev.value.height
    case RemoveRefs(a, ids) => a in cp.references && ids == cp.references[a]
    case AddRefs(a, ids) => a in cp.dereferenced && ids == cp.dereferenced[a]
    case DeleteEntry(t) => t in cp.updated && t !in cp.before
    case SetEntry(t, e) => t in cp.before && e == cp.before[t]
  }

  ghost predicate AllRestoring(cp: Checkpoint, log: seq<Write>) {
    forall i :: 0 <= i < |log| ==> Restoring(cp, log[i])
  }

  ghost predicate Complete(cp: Checkpoint, log: seq<Write>) {
    forall w :: Restoring(cp, w) ==> w in log
  }

  /** The write would change nothing. */
  predicate Settled(db: Db, w: Write) {
    match w
    case SetHash(h) => db.hash == Some(h)
    case SetHeight(n) => db.height == n
    case RemoveRefs(a, ids) => PairsAt(a, ids) !! db.index
    case AddRefs(a, ids) => PairsAt(a, ids) <= db.index
    case DeleteEntry(t) => t !in db.entries
    case SetEntry(t, e) => t in db.entries && db.entries[t] == e
  }

  predicate RefsDisjoint(cp: Checkpoint) {
    PairsOf(cp.references) !! PairsOf(cp.dereferenced)
  }

  lemma RestoringAbsorbed(db: Db, cp: Checkpoint, w: Write)
    requires Restoring(cp, w) && RefsDisjoint(cp)
    ensures Rollback(Apply(db, w), cp) == Rollback(db, cp)
  {
    var a, b := Rollback(Apply(db, w), cp), Rollback(db, cp);
    match w
    case SetHash(_) =>
    case SetHeight(_) =>
    case RemoveRefs(x, ids) =>
      assert PairsAt(x, ids) <= PairsOf(cp.references);
      assert a.index == b.index;
    case AddRefs(x, ids) =>
      assert PairsAt(x, ids) <= PairsOf(cp.dereferenced);
      assert a.index == b.index;
    case DeleteEntry(t) => assert a.entries == b.entries;
    case SetEntry(t, e) => assert a.entries == b.entries;
  }

  lemma SettledStays(db: Db, cp: Checkpoint, w: Write, other: Write)
    requires Restoring(cp, w) && Restoring(cp, other) && RefsDisjoint(cp)
    requires Settled(db, other) || w == other
    ensures Settled(Apply(db, w), other)
  {
    if w.AddRefs? && other.RemoveRefs? {
      assert PairsAt(w.address, w.ids) <= PairsOf(cp.dereferenced);
      assert PairsAt(other.address, other.ids) <= PairsOf(cp.references);
    }
    if w.RemoveRefs? && other.AddRefs? {
      assert PairsAt(w.address, w.ids) <= PairsOf(cp.references);
      assert PairsAt(other.address, other.ids) <= PairsOf(cp.dereferenced);
    }
  }

  lemma SettledIsRolledBack(db: Db, cp: Checkpoint)
    requires cp.prev.Some?
    requires forall w :: Restoring(cp, w) ==> Settled(db, w)
    ensures Rollback(db, cp) == db
  {
    var r := Rollback(db, cp);
    assert Restoring(cp, SetHash(cp.prev.value.hash)) && Restoring(cp, SetHeight(cp.prev.value.height));
    forall a, t | a in cp.references && t in cp.references[a] ensures (a, t) !in db.index {
      assert Restoring(cp, RemoveRefs(a, cp.references[a]));
      assert (a, t) in PairsAt(a, cp.references[a]);
    }
    forall a, t | a in cp.dereferenced && t in cp.dereferenced[a] ensures (a, t) in db.index {
      assert Restoring(cp, AddRefs(a, cp.dereferenced[a]));
      assert (a, t) in PairsAt(a, cp.dereferenced[a]);
    }
    assert r.index == db.index;
    forall t | t in cp.before ensures t in db.entries && db.entries[t] == cp.before[t] {
      assert Restoring(cp, SetEntry(t, cp.before[t]));
    }
    forall t | t in cp.updated && t !in cp.before ensures t !in db.entries {
      assert Restoring(cp, DeleteEntry(t));
    }
    assert r.entries == db.entries;
  }

  /** Stopping a rollback after any of its writes, in any order, does not change
      what completing it leads to. */
  lemma {:induction false} PartialRollback(db: Db, cp: Checkpoint, log: seq<Write>)
    requires cp.prev.Some? && RefsDisjoint(cp) && AllRestoring(cp, log)
    ensures Rollback(ApplyAll(db, log), cp) == Rollback(db, cp)
    ensures forall w :: w in log ==> Settled(ApplyAll(db, log), w)
    decreases |log|
  {
    var n := |log| - 1;
    if n >= 0 {
      PartialRollback(db, cp, log[..n]);
      var mid := ApplyAll(db, log[..n]);
      RestoringAbsorbed(mid, cp, log[n]);
      forall w | w in log ensures Settled(ApplyAll(db, log), w) {
        SettledStays(mid, cp, log[n], w);
      }
    }
  }

  /** A complete set of restoring writes, in any order and with any repetition, is
      the down migration. */
  lemma CompleteRollback(db: Db, cp: Checkpoint, log: seq<Write>)
    requires cp.prev.Some? && RefsDisjoint(cp) && AllRestoring(cp, log) && Complete(cp, log)
    ensures ApplyAll(db, log) == Rollback(db, cp)
  {
    PartialRollback(db, cp, log);
    SettledIsRolledBack(ApplyAll(db, log), cp);
  }

  /** Every key and index pair the checkpoint touches holds its old or its new
      value, everything else its old value. */
  predicate Mixed(db: Db, cp: Checkpoint, now: Db) {
    && (now.hash == db.hash || now.hash == Some(cp.next.hash))
    && (now.height == db.height || now.height == cp.next.height)
    && (forall t :: t in db.entries.Keys + now.entries.Keys + cp.updated.Keys ==>
          || Lookup(now.entries, t) == Lookup(db.entries, t)
          || (t in cp.updated && Lookup(now.entries, t) == Lookup(Commit(db, cp).entries, t)))
    && (forall p :: p in db.index + now.index + PairsOf(cp.references) + PairsOf(cp.dereferenced) ==>
          || (p in now.index <==> p in db.index)
          || ((p in PairsOf(cp.references) || p in PairsOf(cp.dereferenced)) && (p in now.index <==> p in Commit(db, cp).index)))
  }

  /** From any such mixture the rollback gives back precisely the old database. */
  lemma MixedRollsBack(db: Db, cp: Checkpoint, now: Db)
    requires Matches(db, cp) && Mixed(db, cp, now)
    ensures Rollback(now, cp) == db
  {
    var r := Rollback(now, cp);
    forall t ensures Lookup(r.entries, t) == Lookup(db.entries, t) {
      if t in cp.before {
        assert (db.entries + cp.before)[t] == cp.before[t];
      }
    }
    assert r.entries.Keys == db.entries.Keys by {
      assert forall t :: t in r.entries <==> Lookup(r.entries, t).Some?;
    }
    assert r.entries == db.entries by {
      assert forall t :: t in r.entries ==> Lookup(r.entries, t) == Some(r.entries[t]);
    }
    assert r.index == db.index;
  }

  // ------------------------------------------- the database against the rule

  /** The database stands for the unspent outputs `u`: its index refers to every
      address they pay, its entries are never fully spent, its ids are known. */
  ghost predicate Represents(db: Db, u: Utxos, known: set<TxId>) {
    && Unspent(db.entries) == u
    && db.entries.Keys <= known
    && (forall p :: p in db.index ==> p.1 in known)
    && PaidPairs(db.entries) <= db.index
    && (forall t :: t in db.entries ==> !AllSpent(db.entries[t].outputs))
  }

  lemma {:induction false} InputsThin(m: Entries, inputs: seq<Input>)
    requires SpendInputs(m, inputs).Success?
    ensures var r := SpendInputs(m, inputs).value;
            r.Keys == m.Keys && forall t :: t in m ==> Thinned(r[t].outputs, m[t].outputs)
    decreases |inputs|
  {
    if |inputs| > 0 {
      InputsThin(m, inputs[..|inputs| - 1]);
    }
  }

  lemma {:induction false} BlockThins(m: Entries, txs: seq<Tx>, height: int)
    requires SpendTxs(m, txs, height).Success? && FreshIds(m.Keys, txs)
    ensures var r := SpendTxs(m, txs, height).value;
            && (forall t :: t in m ==> t in r && Thinned(r[t].outputs, m[t].outputs))
            && (forall j :: 0 <= j < |txs| ==> txs[j].id in r && Thinned(r[txs[j].id].outputs, SpendableOutputs(txs[j])))
    decreases |txs|
  {
    var n := |txs| - 1;
    if n >= 0 {
      BlockThins(m, txs[..n], height);
      InputsThin(AddTx(SpendTxs(m, txs[..n], height).value, txs[n], height), txs[n].inputs);
      assert forall j :: 0 <= j < n ==> txs[..n][j] == txs[j];
    }
  }

  lemma ThinnedPays(now: Outputs, was: Outputs, a: Address)
    requires Thinned(now, was) && Pays(now, a)
    ensures Pays(was, a)
  {
    var v :| 0 <= v < |now| && now[v].Some? && a in now[v].value.addresses;
    assert was[v].Some?;
  }

  lemma TouchedStored(stored: Entries, txs: seq<Tx>)
    ensures Touched(stored, txs) <= stored.Keys
  {
  }

  /** What the last transaction of a valid block spends is live in what the earlier ones
      leave. */
  lemma LastSpendsLive(stored: Entries, before: Entries, txs: seq<Tx>, height: int, i: nat)
    requires FreshIds(stored.Keys, txs) && ValidTxs(Unspent(stored), txs, height) && |txs| > 0
    requires stored + before == stored && before.Keys <= stored.Keys && Touched(stored, txs) <= before.Keys
    requires i < |txs[|txs| - 1].inputs| && txs[|txs| - 1].inputs[i].Spending?
    ensures SpendTxs(before, txs[..|txs| - 1], height).Success?
    ensures Live(stored + SpendTxs(before, txs[..|txs| - 1], height).value, txs[|txs| - 1].inputs[i].outpoint)
  {
    hide Created, Touched, Before, SpendTxs;
    var init := txs[..|txs| - 1];
    TouchedGrows(stored, txs, i);
    ValidTxsSucceed(stored, before, init, height);
    SpendTxsRefinesRule(stored, before, init, height);
    assert txs[|txs| - 1].inputs[i].outpoint in SpentBy(txs[|txs| - 1].inputs);
  }

  /** The last transaction of a valid block names no output of the before-image but
      live ones. */
  lemma LastInputNoTrouble(stored: Entries, before: Entries, txs: seq<Tx>, height: int, i: nat)
    requires FreshIds(stored.Keys, txs) && ValidTxs(Unspent(stored), txs, height) && |txs| > 0
    requires stored + before == stored && before.Keys <= stored.Keys && Touched(stored, txs) <= before.Keys
    requires i < |txs[|txs| - 1].inputs| && txs[|txs| - 1].inputs[i].Spending?
    ensures InputTrouble(before, Ids(txs), txs[|txs| - 1].inputs[i]) == None
  {
    hide Created, Touched, Before, SpendTxs, ValidTxs, Unspent, ApplyTxs;
    var init, p := txs[..|txs| - 1], txs[|txs| - 1].inputs[i].outpoint;
    if p.txid !in Ids(txs) {
      LastSpendsLive(stored, before, txs, height, i);
      TouchedGrows(stored, txs, i);
      SpendTxsKeys(before, init, height);
      BlockThins(before, init, height);
      assert Ids(init) <= Ids(txs);
    }
  }

  lemma TouchedGrows(stored: Entries, txs: seq<Tx>, i: nat)
    requires |txs| > 0 && i < |txs[|txs| - 1].inputs|
    ensures Touched(stored, txs[..|txs| - 1]) <= Touched(stored, txs)
    ensures var input := txs[|txs| - 1].inputs[i];
            input.Spending? && input.outpoint.txid in stored ==> input.outpoint.txid in Touched(stored, txs)
  {
  }

  lemma {:induction false} NoInputTrouble(before: Entries, ids: set<TxId>, inputs: seq<Input>)
    requires forall i :: 0 <= i < |inputs| ==> InputTrouble(before, ids, inputs[i]) == None
    ensures InputsTrouble(before, ids, inputs) == None
    decreases |inputs|
  {
    if |inputs| > 0 {
      NoInputTrouble(before, ids, inputs[..|inputs| - 1]);
    }
  }

  /** A valid block gives the counters no trouble. */
  lemma {:induction false} ValidNoTrouble(stored: Entries, before: Entries, txs: seq<Tx>, height: int)
    requires FreshIds(stored.Keys, txs) && ValidTxs(Unspent(stored), txs, height)
    requires stored + before == stored && before.Keys <= stored.Keys && Touched(stored, txs) <= before.Keys
    ensures BlockTrouble(before, txs) == None
    decreases |txs|
  {
    if |txs| > 0 {
      hide InputTrouble, ApplyTxs, Unspent;
      var inputs := txs[|txs| - 1].inputs;
      ValidNoTrouble(stored, before, txs[..|txs| - 1], height);
      TouchedFewer(stored, txs);
      forall i | 0 <= i < |inputs| ensures InputTrouble(before, Ids(txs), inputs[i]) == None {
        if inputs[i].Spending? {
          LastInputNoTrouble(stored, before, txs, height, i);
        } else {
          CoinbaseNoTrouble(before, Ids(txs), inputs[i]);
        }
      }
      NoInputTrouble(before, Ids(txs), inputs);
    }
  }

  lemma CoinbaseNoTrouble(before: Entries, ids: set<TxId>, input: Input)
    requires input.Coinbase?
    ensures InputTrouble(before, ids, input) == None
  {
  }

  lemma TouchedFewer(stored: Entries, txs: seq<Tx>)
    requires |txs| > 0
    ensures Touched(stored, txs[..|txs| - 1]) <= Touched(stored, txs)
  {
  }

  /** A valid next block always yields a checkpoint, and it describes the database. */
  lemma BuildSucceeds(db: Db, u: Utxos, known: set<TxId>, block: Block)
    requires Represents(db, u, known) && ValidBlock(u, known, block)
    requires db.hash.Some? && block.height == db.height + 1
    ensures Build(db, block).Success? && Matches(db, Build(db, block).value)
    ensures var cp := Build(db, block).value;
            && cp.before == Before(db.entries, block.txs)
            && SpendTxs(cp.before, block.txs, block.height) == Success(cp.updated)
            && cp.dereferenced == GroupByAddress(DereferencedPairs(cp.before, block.txs))
            && cp.references == GroupByAddress(NewPairs(block.txs))
            && cp.next == BlockPoint(block.height, block.hash)
  {
    var before := Before(db.entries, block.txs);
    TouchedStored(db.entries, block.txs);
    ValidTxsSucceed(db.entries, before, block.txs, block.height);
    ValidNoTrouble(db.entries, before, block.txs, block.height);
    var cp := Build(db, block).value;
    SpendTxsKeys(before, block.txs, block.height);
    assert cp.updated.Keys == before.Keys + Ids(block.txs);
    assert PairsOf(cp.references) !! db.index;
    forall a, t | (a, t) in PairsOf(cp.dereferenced)
      ensures (a, t) in db.index
    {
      CountZero(before[t].outputs, a);
    }
  }

  /** An address that an updated entry still pays was paid by it before, or is paid
      by the block itself. */
  lemma UpdatedPays(stored: Entries, before: Entries, txs: seq<Tx>, height: int, a: Address, t: TxId)
    requires FreshIds(before.Keys, txs) && SpendTxs(before, txs, height).Success?
    requires var updated := SpendTxs(before, txs, height).value; t in updated && Pays(updated[t].outputs, a)
    ensures (t in before && Pays(before[t].outputs, a)) || (a, t) in NewPairs(txs)
  {
    var updated := SpendTxs(before, txs, height).value;
    BlockThins(before, txs, height);
    SpendTxsKeys(before, txs, height);
    if t in before {
      ThinnedPays(updated[t].outputs, before[t].outputs, a);
    } else {
      var j :| 0 <= j < |txs| && txs[j].id == t;
      ThinnedPays(updated[t].outputs, SpendableOutputs(txs[j]), a);
    }
  }

  /** Committing keeps the index a cover of every address paid. */
  lemma CommitCovers(db: Db, u: Utxos, known: set<TxId>, block: Block, a: Address, t: TxId)
    requires Represents(db, u, known) && ValidBlock(u, known, block)
    requires db.hash.Some? && block.height == db.height + 1
    requires Build(db, block).Success?
    requires (a, t) in PaidPairs(Commit(db, Build(db, block).value).entries)
    ensures (a, t) in Commit(db, Build(db, block).value).index
  {
    hide Build, Before, Rollback, Touched, Created, ValidTxs;
    var cp := Build(db, block).value;
    BuildSucceeds(db, u, known, block);
    if t in cp.updated {
      DereferenceExact(db.entries, cp.before, block.txs, block.height, a, t);
      assert (a, t) !in PairsOf(cp.dereferenced);
      UpdatedPays(db.entries, cp.before, block.txs, block.height, a, t);
      if t in cp.before {
        assert (a, t) in PaidPairs(db.entries) || (a, t) in PairsOf(cp.references);
      }
    }
  }

  /** The coins stored after a commit are those the rule gives. */
  lemma CommitCoins(db: Db, u: Utxos, known: set<TxId>, block: Block)
    requires Represents(db, u, known) && ValidBlock(u, known, block)
    requires db.hash.Some? && block.height == db.height + 1
    ensures Build(db, block).Success?
    ensures Unspent(Commit(db, Build(db, block).value).entries) == ApplyTxs(u, block.txs, block.height)
  {
    BuildSucceeds(db, u, known, block);
    hide Build, Before, Rollback, Touched, Created, ValidTxs, CommitEntries, Unspent, ApplyTxs, PaidPairs;
    var cp := Build(db, block).value;
    DropSpentKeepsUnspent(db.entries, cp.updated);
    SpendTxsRefinesRule(db.entries, cp.before, block.txs, block.height);
  }

  /** Block application refines the UTXO rule: for a valid block the commit leaves
      exactly the coins the rule gives, drops fully spent entries and keeps the
      index a cover. */
  lemma CommitRepresents(db: Db, u: Utxos, known: set<TxId>, block: Block)
    requires Represents(db, u, known) && ValidBlock(u, known, block)
    requires db.hash.Some? && block.height == db.height + 1
    ensures Build(db, block).Success?
    ensures Represents(Commit(db, Build(db, block).value), ApplyTxs(u, block.txs, block.height), known + Ids(block.txs))
  {
    CommitCoins(db, u, known, block);
    BuildSucceeds(db, u, known, block);
    hide Build, Before, Rollback, Touched, Created, ValidTxs, Unspent, ApplyTxs, PaidPairs, NewPairs, FreshIds;
    var cp := Build(db, block).value;
    var after := Commit(db, cp);
    SpendTxsKeys(cp.before, block.txs, block.height);
    forall p | p in PaidPairs(after.entries) ensures p in after.index {
      CommitCovers(db, u, known, block, p.0, p.1);
    }
    forall p | p in after.index ensures p.1 in known + Ids(block.txs) {
      assert p == (p.0, p.1);
    }
  }

  /** Committing twice is committing once. */
  lemma CommitIdempotent(db: Db, cp: Checkpoint)
    ensures Commit(Commit(db, cp), cp) == Commit(db, cp)
  {
    assert CommitEntries(Commit(db, cp).entries, cp.updated) == CommitEntries(db.entries, cp.updated);
    assert Commit(Commit(db, cp), cp).index == Commit(db, cp).index;
  }

  /** On the database it describes, no write of a checkpoint's rollback changes anything. */
  lemma RestoringIsIdle(db: Db, cp: Checkpoint, w: Write)
    requires Matches(db, cp) && Restoring(cp, w)
    ensures Apply(db, w) == db
  {
    match w
    case SetHash(_) =>
    case SetHeight(_) =>
    case RemoveRefs(a, ids) => assert PairsAt(a, ids) <= PairsOf(cp.references);
    case AddRefs(a, ids) => assert PairsAt(a, ids) <= PairsOf(cp.dereferenced);
    case DeleteEntry(t) =>
    case SetEntry(t, e) => assert (db.entries + cp.before)[t] == e;
  }

  // ------------------------------------------------------------ address lookup

  /** What a full scan of the unspent outputs for an address finds. */
  function FullScan(u: Utxos, a: Address): Utxos {
    map p | p in u && a in u[p].output.addresses :: u[p]
  }

  /** What the lookup through the index finds. */
  function IndexLookup(db: Db, a: Address): Utxos {
    map p | p in LivePoints(db.entries) && (a, p.txid) in db.index && a in LiveCoin(db.entries, p).output.addresses
      :: LiveCoin(db.entries, p)
  }

  /** The lookup answers like a full scan whenever the index covers what is paid,
      however many stale pairs it has. */
  lemma LookupIsFullScan(db: Db, u: Utxos, known: set<TxId>, a: Address)
    requires Represents(db, u, known)
    ensures IndexLookup(db, a) == FullScan(u, a)
  {
    forall p | p in FullScan(u, a) ensures p in IndexLookup(db, a) {
      assert db.entries[p.txid].outputs[p.vout].Some?;
      assert (a, p.txid) in PaidPairs(db.entries);
    }
  }
}
