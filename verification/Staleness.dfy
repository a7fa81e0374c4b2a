/** Index pairs that no live output pays any more, and where they come from. */
module Staleness {
  import opened Ledger
  import opened Spending
  import opened Database

  /** The pairs of the index that no live output pays. */
  ghost function Stale(db: Db): Pairs {
    db.index - PaidPairs(db.entries)
  }

  /** What a commit makes of one pair of an updated transaction. */
  lemma PairAfter(db: Db, u: Utxos, known: set<TxId>, block: Block, a: Address, t: TxId)
    requires Represents(db, u, known) && ValidBlock(u, known, block)
    requires db.hash.Some? && block.height == db.height + 1
    requires Build(db, block).Success? && t in Build(db, block).value.updated
    ensures var cp := Build(db, block).value;
            var after := Commit(db, cp);
            && ((a, t) in after.index <==>
                ((a, t) in db.index || (a, t) in NewPairs(block.txs)) && !Dereferenced(cp.before, block.txs, a, t))
            && ((a, t) in PaidPairs(after.entries) <==> Pays(cp.updated[t].outputs, a))
            && ((a, t) in PaidPairs(db.entries) <==> t in cp.before && Pays(cp.before[t].outputs, a))
  {
    hide Build, Before, Touched, Rollback, Dereferenced, Represents, ValidTxs;
    BuildSucceeds(db, u, known, block);
    var cp := Build(db, block).value;
    assert (a, t) in DereferencedPairs(cp.before, block.txs) <==> Dereferenced(cp.before, block.txs, a, t);
    assert t in db.entries ==> t in cp.before;
    assert t in cp.before ==> db.entries[t] == cp.before[t];
  }

  lemma StaleAtUpdated(db: Db, u: Utxos, known: set<TxId>, block: Block, a: Address, t: TxId)
    requires Represents(db, u, known) && ValidBlock(u, known, block)
    requires db.hash.Some? && block.height == db.height + 1
    requires Build(db, block).Success? && t in Build(db, block).value.updated
    ensures var after := Commit(db, Build(db, block).value);
            (a, t) in Stale(after) <==>
            (a, t) in Stale(db) || ((a, t) in NewPairs(block.txs) && (a, t) !in PaidPairs(after.entries))
  {
    BuildSucceeds(db, u, known, block);
    PairAfter(db, u, known, block, a, t);
    hide Before, Touched, Rollback, Commit, Build, Dereferenced, Pays;
    var cp := Build(db, block).value;
    DereferenceExact(db.entries, cp.before, block.txs, block.height, a, t);
    if Pays(cp.updated[t].outputs, a) {
      UpdatedPays(db.entries, cp.before, block.txs, block.height, a, t);
    }
  }

  lemma StaleAtOther(db: Db, u: Utxos, known: set<TxId>, block: Block, a: Address, t: TxId)
    requires Represents(db, u, known) && ValidBlock(u, known, block)
    requires db.hash.Some? && block.height == db.height + 1
    requires Build(db, block).Success? && t !in Build(db, block).value.updated
    ensures (a, t) in Stale(Commit(db, Build(db, block).value)) <==> (a, t) in Stale(db)
    ensures (a, t) !in NewPairs(block.txs)
  {
    hide Build, Before, Rollback, Touched, Created, ValidTxs, Represents;
    BuildSucceeds(db, u, known, block);
    var cp := Build(db, block).value;
    SpendTxsKeys(cp.before, block.txs, block.height);
    assert (a, t) in PaidPairs(Commit(db, cp).entries) <==> (a, t) in PaidPairs(db.entries);
  }

  /** A commit adds the new pairs that nothing stored pays, and leaves no other behind. */
  lemma StaleByEntries(db: Db, u: Utxos, known: set<TxId>, block: Block)
    requires Represents(db, u, known) && ValidBlock(u, known, block)
    requires db.hash.Some? && block.height == db.height + 1
    requires Build(db, block).Success?
    ensures Stale(Commit(db, Build(db, block).value))
         == Stale(db) + (NewPairs(block.txs) - PaidPairs(Commit(db, Build(db, block).value).entries))
  {
    var after := Commit(db, Build(db, block).value);
    forall p: (Address, TxId)
      ensures p in Stale(after) <==> p in Stale(db) + (NewPairs(block.txs) - PaidPairs(after.entries))
    {
      if p.1 in Build(db, block).value.updated {
        StaleAtUpdated(db, u, known, block, p.0, p.1);
      } else {
        StaleAtOther(db, u, known, block, p.0, p.1);
      }
    }
  }

  // ------------------------------------------------ in terms of the block alone

  /** Every spendable output of one transaction that pays the address is named by an
      input of the block. */
  ghost predicate SpentInBlock(txs: seq<Tx>, j: nat, a: Address)
    requires j < |txs|
  {
    forall v :: 0 <= v < |txs[j].outputs| && txs[j].outputs[v].spendable && a in txs[j].outputs[v].output.addresses ==>
      OutPoint(txs[j].id, v) in BlockSpends(txs)
  }

  /** The pairs of a block all of whose outputs the block itself spends. */
  ghost function LeftStale(txs: seq<Tx>): Pairs {
    set p | p in NewPairs(txs) && forall j :: 0 <= j < |txs| && txs[j].id == p.1 ==> SpentInBlock(txs, j, p.0)
  }

  /** A stored transaction pays an address exactly when it has a coin that does. */
  lemma PaidByCoin(entries: Entries, a: Address, t: TxId)
    ensures (a, t) in PaidPairs(entries) <==>
            exists p :: p in Unspent(entries) && p.txid == t && a in Unspent(entries)[p].output.addresses
  {
    if (a, t) in PaidPairs(entries) {
      var v :| 0 <= v < |entries[t].outputs| && entries[t].outputs[v].Some? && a in entries[t].outputs[v].value.addresses;
      assert OutPoint(t, v) in Unspent(entries);
    }
  }

  /** What a coin of a new transaction is: an output that the block does not spend. */
  lemma NewCoinIs(u: Utxos, known: set<TxId>, txs: seq<Tx>, height: int, j: nat, p: OutPoint)
    requires FreshIds(known, txs) && ValidTxs(u, txs, height) && forall q :: q in u ==> q.txid in known
    requires j < |txs| && p.txid == txs[j].id
    ensures p in ApplyTxs(u, txs, height) <==>
            p.vout < |txs[j].outputs| && txs[j].outputs[p.vout].spendable && p !in BlockSpends(txs)
    ensures p in ApplyTxs(u, txs, height) ==> ApplyTxs(u, txs, height)[p].output == txs[j].outputs[p.vout].output
  {
    hide ApplyTxs, ValidTxs, FreshIds, BlockSpends;
    assert p == OutPoint(txs[j].id, p.vout);
    if p in ApplyTxs(u, txs, height) {
      NewCoinsCreated(u, known, txs, height, j, p);
    }
    if p in Created(txs[j], height) {
      CreatedSurvives(u, known, txs, height, j, p);
    }
  }

  /** A transaction of the block still pays an address exactly when some output of it
      that pays the address is not named by the block. */
  lemma StillPays(entries: Entries, u: Utxos, known: set<TxId>, txs: seq<Tx>, height: int, j: nat, a: Address)
    requires FreshIds(known, txs) && ValidTxs(u, txs, height) && forall q :: q in u ==> q.txid in known
    requires Unspent(entries) == ApplyTxs(u, txs, height) && j < |txs|
    ensures (a, txs[j].id) in PaidPairs(entries) <==> !SpentInBlock(txs, j, a)
  {
    hide ApplyTxs, ValidTxs, FreshIds, BlockSpends, Unspent;
    PaidByCoin(entries, a, txs[j].id);
    forall p: OutPoint | p.txid == txs[j].id
      ensures p in Unspent(entries) <==>
              p.vout < |txs[j].outputs| && txs[j].outputs[p.vout].spendable && p !in BlockSpends(txs)
      ensures p in Unspent(entries) ==> Unspent(entries)[p].output == txs[j].outputs[p.vout].output
    {
      NewCoinIs(u, known, txs, height, j, p);
    }
    if !SpentInBlock(txs, j, a) {
      var v :| 0 <= v < |txs[j].outputs| && txs[j].outputs[v].spendable && a in txs[j].outputs[v].output.addresses
               && OutPoint(txs[j].id, v) !in BlockSpends(txs);
      assert OutPoint(txs[j].id, v) in Unspent(entries);
    }
    if (a, txs[j].id) in PaidPairs(entries) {
      var p :| p in Unspent(entries) && p.txid == txs[j].id && a in Unspent(entries)[p].output.addresses;
      assert p == OutPoint(txs[j].id, p.vout);
    }
  }

  /** Stale index pairs are exactly accounted for: a commit adds the pairs all of whose
      outputs the block both creates and spends, and leaves no other one behind. */
  lemma StaleExactly(db: Db, u: Utxos, known: set<TxId>, block: Block)
    requires Represents(db, u, known) && ValidBlock(u, known, block)
    requires db.hash.Some? && block.height == db.height + 1
    ensures Build(db, block).Success?
    ensures Stale(Commit(db, Build(db, block).value)) == Stale(db) + LeftStale(block.txs)
    ensures Stale(db) !! LeftStale(block.txs)
  {
    CommitRepresents(db, u, known, block);
    StaleByEntries(db, u, known, block);
    var entries := Commit(db, Build(db, block).value).entries;
    forall p: (Address, TxId) ensures p in NewPairs(block.txs) - PaidPairs(entries) <==> p in LeftStale(block.txs) {
      NewPairLeft(entries, u, known, block, p);
    }
    forall p | p in NewPairs(block.txs) ensures p !in db.index {
      assert p == (p.0, p.1);
    }
  }

  lemma NewPairLeft(entries: Entries, u: Utxos, known: set<TxId>, block: Block, p: (Address, TxId))
    requires ValidBlock(u, known, block) && forall q :: q in u ==> q.txid in known
    requires Unspent(entries) == ApplyTxs(u, block.txs, block.height)
    ensures p in NewPairs(block.txs) - PaidPairs(entries) <==> p in LeftStale(block.txs)
  {
    forall j | 0 <= j < |block.txs| && block.txs[j].id == p.1
      ensures p in PaidPairs(entries) <==> !SpentInBlock(block.txs, j, p.0)
    {
      StillPays(entries, u, known, block.txs, block.height, j, p.0);
    }
    if p in NewPairs(block.txs) {
      assert p == (p.0, p.1);
      var j :| 0 <= j < |block.txs| && block.txs[j].id == p.1 && Pays(SpendableOutputs(block.txs[j]), p.0);
    }
  }

  /** A commit adds no stale pair exactly when each address that a transaction of the
      block pays is paid by an output of it that the block does not spend. */
  lemma AddsNoneExactly(db: Db, u: Utxos, known: set<TxId>, block: Block)
    requires Represents(db, u, known) && ValidBlock(u, known, block)
    requires db.hash.Some? && block.height == db.height + 1
    ensures Build(db, block).Success?
    ensures Stale(Commit(db, Build(db, block).value)) == Stale(db) <==>
            forall j, a :: 0 <= j < |block.txs| && Pays(SpendableOutputs(block.txs[j]), a) ==> !SpentInBlock(block.txs, j, a)
  {
    hide NewPairs, SpentInBlock, LeftStale, Represents, ValidTxs;
    StaleExactly(db, u, known, block);
    NoneLeft(block.txs);
  }

  lemma NoneLeft(txs: seq<Tx>)
    requires FreshIds({}, txs)
    ensures LeftStale(txs) == {} <==>
            forall j, a :: 0 <= j < |txs| && Pays(SpendableOutputs(txs[j]), a) ==> !SpentInBlock(txs, j, a)
  {
    if LeftStale(txs) == {} {
      forall j, a | 0 <= j < |txs| && Pays(SpendableOutputs(txs[j]), a) ensures !SpentInBlock(txs, j, a) {
        assert (a, txs[j].id) in NewPairs(txs) && (a, txs[j].id) !in LeftStale(txs);
      }
    } else {
      var p :| p in LeftStale(txs);
      assert p == (p.0, p.1);
      var j :| 0 <= j < |txs| && txs[j].id == p.1 && Pays(SpendableOutputs(txs[j]), p.0);
      assert SpentInBlock(txs, j, p.0);
    }
  }
}
