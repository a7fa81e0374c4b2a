/** Transactions, blocks and the plain UTXO rule they obey.

    This module is independent of how the indexer stores anything: it says what
    the set of unspent outputs is after a list of transactions, and which blocks
    are valid continuations. The store is compared against it. */
module Ledger {
  type TxId = string
  type Address = string
  type Hash = string

  /** A stored output. `addresses` is the list its script pays; extracting it from
      the script is not modelled, so the list travels with the output. */
  datatype Output = Output(script: seq<int>, amount: nat, addresses: seq<Address>)

  datatype OutPoint = OutPoint(txid: TxId, vout: nat)

  /** An output of a block's transaction; `spendable` is false for data carriers. */
  datatype TxOut = TxOut(spendable: bool, output: Output)

  datatype Input = Coinbase | Spending(outpoint: OutPoint)

  datatype Tx = Tx(id: TxId, inputs: seq<Input>, outputs: seq<TxOut>)

  datatype Block = Block(height: int, hash: Hash, txs: seq<Tx>)

  /** An unspent output together with the height of the block that created it. */
  datatype Coin = Coin(output: Output, height: int)

  type Utxos = map<OutPoint, Coin>

  // ---------------------------------------------------------------- the rule

  function Created(tx: Tx, height: int): Utxos {
    map v | 0 <= v < |tx.outputs| && tx.outputs[v].spendable
      :: OutPoint(tx.id, v) := Coin(tx.outputs[v].output, height)
  }

  function SpentBy(inputs: seq<Input>): set<OutPoint> {
    set i | 0 <= i < |inputs| && inputs[i].Spending? :: inputs[i].outpoint
  }

  /** One transaction: add its spendable outputs, remove what it spends. */
  function ApplyTx(u: Utxos, tx: Tx, height: int): Utxos {
    (u + Created(tx, height)) - SpentBy(tx.inputs)
  }

  function ApplyTxs(u: Utxos, txs: seq<Tx>, height: int): Utxos {
    if |txs| == 0 then u
    else ApplyTx(ApplyTxs(u, txs[..|txs| - 1], height), txs[|txs| - 1], height)
  }

  // ---------------------------------------------------------------- validity

  predicate DistinctSpends(inputs: seq<Input>) {
    forall i, j :: 0 <= i < j < |inputs| && inputs[i].Spending? ==> inputs[i] != inputs[j]
  }

  /** Every input spends a coin that exists, and no coin twice. */
  predicate ValidTx(u: Utxos, tx: Tx) {
    SpentBy(tx.inputs) <= u.Keys && DistinctSpends(tx.inputs)
  }

  predicate ValidTxs(u: Utxos, txs: seq<Tx>, height: int) {
    |txs| == 0 ||
    (ValidTxs(u, txs[..|txs| - 1], height) &&
     ValidTx(ApplyTxs(u, txs[..|txs| - 1], height), txs[|txs| - 1]))
  }

  function Ids(txs: seq<Tx>): set<TxId> {
    set j | 0 <= j < |txs| :: txs[j].id
  }

  /** Transaction ids are new (BIP 30): unused before the block and distinct in it. */
  predicate FreshIds(known: set<TxId>, txs: seq<Tx>) {
    (forall j :: 0 <= j < |txs| ==> txs[j].id !in known) &&
    (forall i, j :: 0 <= i < j < |txs| ==> txs[i].id != txs[j].id)
  }

  predicate ValidBlock(u: Utxos, known: set<TxId>, block: Block) {
    FreshIds(known, block.txs) && ValidTxs(u, block.txs, block.height)
  }

  // ------------------------------------------------------------ conservation

  ghost function Value(u: Utxos): nat {
    if u == map[] then 0
    else
      var p :| p in u;
      u[p].output.amount + Value(u - {p})
  }

  lemma {:induction false} ValueRemove(u: Utxos, p: OutPoint)
    requires p in u
    ensures Value(u) == u[p].output.amount + Value(u - {p})
    decreases |u|
  {
    var q :| q in u && Value(u) == u[q].output.amount + Value(u - {q});
    if q != p {
      ValueRemove(u - {q}, p);
      ValueRemove(u - {p}, q);
      assert u - {q} - {p} == u - {p} - {q};
    }
  }

  lemma ValueAdd(u: Utxos, p: OutPoint, c: Coin)
    requires p !in u
    ensures Value(u[p := c]) == Value(u) + c.output.amount
  {
    ValueRemove(u[p := c], p);
    assert u[p := c] - {p} == u;
  }

  function CreatedValue(outputs: seq<TxOut>): nat {
    if |outputs| == 0 then 0
    else
      var last := outputs[|outputs| - 1];
      CreatedValue(outputs[..|outputs| - 1]) + (if last.spendable then last.output.amount else 0)
  }

  function SpentValue(u: Utxos, inputs: seq<Input>): nat
    requires SpentBy(inputs) <= u.Keys
  {
    if |inputs| == 0 then 0
    else
      var last := inputs[|inputs| - 1];
      assert SpentBy(inputs[..|inputs| - 1]) <= SpentBy(inputs);
      assert last.Spending? ==> last.outpoint in SpentBy(inputs);
      SpentValue(u, inputs[..|inputs| - 1]) + (if last.Spending? then u[last.outpoint].output.amount else 0)
  }

  lemma CreatedStep(tx: Tx, height: int)
    requires |tx.outputs| > 0
    ensures var n := |tx.outputs| - 1;
            var shorter := Created(tx.(outputs := tx.outputs[..n]), height);
            OutPoint(tx.id, n) !in shorter
            && Created(tx, height) == if tx.outputs[n].spendable
                                      then shorter[OutPoint(tx.id, n) := Coin(tx.outputs[n].output, height)]
                                      else shorter
  {
    var n := |tx.outputs| - 1;
    var init := tx.outputs[..n];
    assert forall v :: 0 <= v < n ==> init[v] == tx.outputs[v];
    var shorter := Created(tx.(outputs := init), height);
    var all := Created(tx, height);
    forall p | p in all
      ensures p == OutPoint(tx.id, n) || (p in shorter && shorter[p] == all[p])
    {
      assert p == OutPoint(tx.id, p.vout) && p.vout <= n;
      if p.vout < n { assert init[p.vout].spendable; }
    }
  }

  lemma UnionStep(u: Utxos, c: Utxos, p: OutPoint)
    requires p in c && p !in u
    ensures p !in u + (c - {p}) && u + c == (u + (c - {p}))[p := c[p]]
  {
  }

  lemma {:induction false} ValueUnion(u: Utxos, c: Utxos)
    requires u.Keys !! c.Keys
    ensures Value(u + c) == Value(u) + Value(c)
    decreases |c|
  {
    if c == map[] {
      assert u + c == u;
    } else {
      var p :| p in c;
      ValueUnion(u, c - {p});
      ValueRemove(c, p);
      UnionStep(u, c, p);
      ValueAdd(u + (c - {p}), p, c[p]);
    }
  }

  lemma {:induction false} CreatedValueIsValue(tx: Tx, height: int)
    ensures Value(Created(tx, height)) == CreatedValue(tx.outputs)
    decreases |tx.outputs|
  {
    if |tx.outputs| > 0 {
      var n := |tx.outputs| - 1;
      CreatedValueIsValue(tx.(outputs := tx.outputs[..n]), height);
      CreatedStep(tx, height);
      ValueAdd(Created(tx.(outputs := tx.outputs[..n]), height), OutPoint(tx.id, n), Coin(tx.outputs[n].output, height));
    }
  }

  lemma {:induction false} SpendConserves(u: Utxos, more: Utxos, inputs: seq<Input>)
    requires SpentBy(inputs) <= u.Keys && DistinctSpends(inputs)
    requires forall p :: p in u ==> p in more && more[p] == u[p]
    ensures Value(more - SpentBy(inputs)) + SpentValue(u, inputs) == Value(more)
    decreases |inputs|
  {
    var n := |inputs|;
    if n == 0 {
      assert more - SpentBy(inputs) == more;
    } else {
      var init, last := inputs[..n - 1], inputs[n - 1];
      assert SpentBy(init) <= SpentBy(inputs);
      SpendConserves(u, more, init);
      if last.Spending? {
        var rest := more - SpentBy(init);
        assert last.outpoint in SpentBy(inputs);
        assert last.outpoint !in SpentBy(init);
        ValueRemove(rest, last.outpoint);
        assert SpentBy(inputs) == SpentBy(init) + {last.outpoint};
        assert more - SpentBy(inputs) == rest - {last.outpoint};
      } else {
        assert SpentBy(inputs) == SpentBy(init);
      }
    }
  }

  function BlockCreated(txs: seq<Tx>): nat {
    if |txs| == 0 then 0
    else BlockCreated(txs[..|txs| - 1]) + CreatedValue(txs[|txs| - 1].outputs)
  }

  function BlockSpent(u: Utxos, txs: seq<Tx>, height: int): nat
    requires ValidTxs(u, txs, height)
  {
    if |txs| == 0 then 0
    else BlockSpent(u, txs[..|txs| - 1], height)
         + SpentValue(ApplyTxs(u, txs[..|txs| - 1], height), txs[|txs| - 1].inputs)
  }

  /** Ids used so far stay the only ids under which coins are recorded. */
  lemma {:induction false} CoinIdsKnown(u: Utxos, known: set<TxId>, txs: seq<Tx>, height: int)
    requires forall p :: p in u ==> p.txid in known
    ensures forall p :: p in ApplyTxs(u, txs, height) ==> p.txid in known + Ids(txs)
    decreases |txs|
  {
    var n := |txs|;
    if n > 0 {
      CoinIdsKnown(u, known, txs[..n - 1], height);
      assert txs[n - 1].id in Ids(txs);
      assert Ids(txs[..n - 1]) <= Ids(txs);
    }
  }

  /** Value conservation over a valid block: nothing is created but the spendable
      outputs, nothing is lost but the outputs spent. */
  lemma {:induction false} ValueConserved(u: Utxos, known: set<TxId>, txs: seq<Tx>, height: int)
    requires FreshIds(known, txs) && ValidTxs(u, txs, height)
    requires forall p :: p in u ==> p.txid in known
    ensures Value(ApplyTxs(u, txs, height)) + BlockSpent(u, txs, height) == Value(u) + BlockCreated(txs)
    decreases |txs|
  {
    hide SpentValue, CreatedValue, Value;
    var n := |txs|;
    if n > 0 {
      var init, last := txs[..n - 1], txs[n - 1];
      ValueConserved(u, known, init, height);
      CoinIdsKnown(u, known, init, height);
      var mid := ApplyTxs(u, init, height);
      CreatedValueIsValue(last, height);
      ValueUnion(mid, Created(last, height));
      SpendConserves(mid, mid + Created(last, height), last.inputs);
    }
  }

  // ------------------------------------------------- spent where it was created

  /** Everything the inputs of a block name. */
  function BlockSpends(txs: seq<Tx>): set<OutPoint> {
    if |txs| == 0 then {} else BlockSpends(txs[..|txs| - 1]) + SpentBy(txs[|txs| - 1].inputs)
  }

  lemma {:induction false} SpendsKnown(u: Utxos, known: set<TxId>, txs: seq<Tx>, height: int)
    requires ValidTxs(u, txs, height) && forall p :: p in u ==> p.txid in known
    ensures forall p :: p in BlockSpends(txs) ==> p.txid in known + Ids(txs)
    decreases |txs|
  {
    var n := |txs|;
    if n > 0 {
      SpendsKnown(u, known, txs[..n - 1], height);
      CoinIdsKnown(u, known, txs[..n - 1], height);
      assert Ids(txs[..n - 1]) <= Ids(txs);
    }
  }

  /** An output that a valid block creates is left after it exactly when no input of
      the block names it. */
  lemma {:induction false} CreatedSurvives(u: Utxos, known: set<TxId>, txs: seq<Tx>, height: int, j: nat, p: OutPoint)
    requires FreshIds(known, txs) && ValidTxs(u, txs, height) && forall q :: q in u ==> q.txid in known
    requires j < |txs| && p in Created(txs[j], height)
    ensures p in ApplyTxs(u, txs, height) <==> p !in BlockSpends(txs)
    decreases |txs|
  {
    var n := |txs| - 1;
    var init := txs[..n];
    CoinIdsKnown(u, known, init, height);
    if j < n {
      CreatedSurvives(u, known, init, height, j, p);
    } else {
      SpendsKnown(u, known, init, height);
      assert p.txid !in known + Ids(init);
    }
  }

  /** Coins recorded under a transaction of the block are outputs it created. */
  lemma {:induction false} NewCoinsCreated(u: Utxos, known: set<TxId>, txs: seq<Tx>, height: int, j: nat, p: OutPoint)
    requires FreshIds(known, txs) && forall q :: q in u ==> q.txid in known
    requires j < |txs| && p.txid == txs[j].id && p in ApplyTxs(u, txs, height)
    ensures p in Created(txs[j], height) && ApplyTxs(u, txs, height)[p] == Created(txs[j], height)[p]
    decreases |txs|
  {
    var n := |txs| - 1;
    if j < n {
      NewCoinsCreated(u, known, txs[..n], height, j, p);
    } else {
      CoinIdsKnown(u, known, txs[..n], height);
    }
  }
}
