/** Concrete chains on which the less obvious behaviours occur. */
module Witnesses {
  import opened Wrappers
  import opened Ledger
  import opened Spending
  import opened Database
  import opened Protocol
  import opened Consistency
  import opened Recovery
  import opened Staleness

  /** A store that holds a block and no output. */
  function Bare(): Db {
    Db(Some("g"), 0, map[], {})
  }

  lemma BareRepresents()
    ensures Represents(Bare(), map[], {})
  {
    assert Unspent(Bare().entries) == map[];
  }

  /** Creates one output that pays the addresses. */
  function Funding(id: TxId, addresses: seq<Address>): Tx {
    Tx(id, [Coinbase], [TxOut(true, Output([], 0, addresses))])
  }

  function Burning(id: TxId, p: OutPoint): Tx {
    Tx(id, [Input.Spending(p)], [])
  }

  function Fleeting(): Block {
    Block(1, "h", [Funding("t", ["a"]), Burning("s", OutPoint("t", 0))])
  }

  lemma FleetingIsValid()
    ensures ValidBlock(map[], {}, Fleeting())
  {
    var txs := Fleeting().txs;
    var mid := ApplyTxs(map[], txs[..1], 1);
    assert txs[..1] == [txs[0]] && txs[..1][..0] == [] && txs[..|txs| - 1] == txs[..1];
    assert ValidTx(map[], txs[0]) && ValidTxs(map[], txs[..1], 1);
    assert mid == ApplyTx(map[], txs[0], 1);
    assert OutPoint("t", 0) in Created(txs[0], 1) && OutPoint("t", 0) in mid;
    assert SpentBy(txs[1].inputs) == {OutPoint("t", 0)} by { assert txs[1].inputs[0].Spending?; }
    assert ValidTx(mid, txs[1]);
  }

  lemma FleetingLeavesStale()
    ensures ("a", "t") in LeftStale(Fleeting().txs)
  {
    var txs := Fleeting().txs;
    assert SpendableOutputs(txs[0])[0] == Some(txs[0].outputs[0].output) && txs[0].id == "t";
    assert Pays(SpendableOutputs(txs[0]), "a");
    assert ("a", "t") in NewPairs(txs);
    assert OutPoint("t", 0) in SpentBy(txs[1].inputs) by { assert txs[1].inputs[0].Spending?; }
    assert OutPoint("t", 0) in BlockSpends(txs);
    assert SpentInBlock(txs, 0, "a");
  }

  /** A block that spends what it creates leaves a stale pair in the index. */
  lemma StaleOccurs()
    ensures Represents(Bare(), map[], {}) && ValidBlock(map[], {}, Fleeting())
    ensures Stale(Bare()) == {} && Build(Bare(), Fleeting()).Success?
    ensures ("a", "t") in Stale(Commit(Bare(), Build(Bare(), Fleeting()).value))
  {
    hide LeftStale, ValidBlock, Represents, Build, Commit;
    BareRepresents();
    FleetingIsValid();
    FleetingLeavesStale();
    StaleExactly(Bare(), map[], {}, Fleeting());
  }

  // ------------------------------------------------------- a restart gives up

  function Lasting(): Block {
    Block(1, "h", [Funding("t", [])])
  }

  function TornEnv(): Env {
    Env(Bare(), map[], {}, [Lasting()], false)
  }

  lemma TornEnvIsValid()
    ensures ValidEnv(TornEnv())
  {
    var env := TornEnv();
    BareRepresents();
    assert Lasting().txs[..0] == [];
    assert ValidTx(map[], Lasting().txs[0]);
    assert ValidLink(env, 0);
  }

  lemma LastingLeavesOutput()
    ensures Build(Bare(), Lasting()).Success?
    ensures var cp := Build(Bare(), Lasting()).value; "t" in cp.updated && !AllSpent(cp.updated["t"].outputs)
  {
    TornEnvIsValid();
    assert ValidLink(TornEnv(), 0);
    BuildSucceeds(Bare(), map[], {}, Lasting());
    var cp, tx := Build(Bare(), Lasting()).value, Lasting().txs[0];
    assert Lasting().txs[..0] == [] && tx.inputs[..0] == [];
    assert SpendInputs(AddTx(cp.before, tx, 1), tx.inputs) == Success(AddTx(cp.before, tx, 1));
    assert cp.updated == AddTx(cp.before, tx, 1);
    assert cp.updated["t"].outputs[0].Some?;
  }

  /** A run of a process that starts, saves a checkpoint, tears its transaction and
      dies. The check of every restart after it gives up. */
  lemma GivesUpOccurs() returns (run: seq<Sys>)
    ensures ValidEnv(TornEnv()) && Run(TornEnv(), run)
    ensures var s := run[|run| - 1]; s.phase == Down && s.cell.Some? && MustGiveUp(s.db, s.cell.value)
  {
    hide Build, MustGiveUp, InvAt, AllSpent, Mixed, Represents;
    var env := TornEnv();
    TornEnvIsValid();
    LastingLeavesOutput();
    StateRepresents(env, 0);
    var cp := Build(Bare(), Lasting()).value;
    CheckpointFacts(env, 0, cp);
    var down, ready := Sys(Bare(), None, Down), Sys(Bare(), None, Ready);
    var saved := Sys(Bare(), Some(cp), Saved(cp));
    assert Start(down, ready) && Save(env, ready, saved, 0);
    TornGivesUp(env, saved, cp, "t");
    run := [down, ready, saved, Sys(TornWithout(Bare(), cp, "t"), Some(cp), Down)];
  }
}
