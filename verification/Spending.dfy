/** Turning a block into new transaction entries: the pure account.

    An entry lists a transaction's outputs by position, `None` marking a spent or
    unspendable one. The functions here say what the loops of the spending code
    compute; the lemmas say that this is the UTXO rule of module Ledger. */
module Spending {
  import opened Wrappers
  import opened Ledger

  type Outputs = seq<Option<Output>>

  datatype Entry = Entry(height: int, outputs: Outputs)

  type Entries = map<TxId, Entry>

  datatype SpendError = SpendingOutputNotFound

  // ---------------------------------------------------- what entries denote

  predicate Live(entries: Entries, p: OutPoint) {
    p.txid in entries && p.vout < |entries[p.txid].outputs| && entries[p.txid].outputs[p.vout].Some?
  }

  function LiveCoin(entries: Entries, p: OutPoint): Coin
    requires Live(entries, p)
  {
    Coin(entries[p.txid].outputs[p.vout].value, entries[p.txid].height)
  }

  function LivePoints(entries: Entries): (s: set<OutPoint>)
    ensures forall p :: p in s <==> Live(entries, p)
  {
    var s := set t, v | t in entries && 0 <= v < |entries[t].outputs| && entries[t].outputs[v].Some? :: OutPoint(t, v);
    assert forall p :: Live(entries, p) ==> p == OutPoint(p.txid, p.vout);
    s
  }

  /** The set of unspent outputs a collection of entries stands for. */
  function Unspent(entries: Entries): Utxos {
    map p | p in LivePoints(entries) :: LiveCoin(entries, p)
  }

  predicate AllSpent(outputs: Outputs) {
    forall v :: 0 <= v < |outputs| ==> outputs[v].None?
  }

  // ---------------------------------------------------------- spending rules

  function SpendableOutputs(tx: Tx): (r: Outputs)
    ensures |r| == |tx.outputs|
  {
    seq(|tx.outputs|, v requires 0 <= v < |tx.outputs| =>
      if tx.outputs[v].spendable then Some(tx.outputs[v].output) else None)
  }

  function SpendInput(m: Entries, input: Input): Result<Entries, SpendError> {
    if input.Coinbase? then Success(m)
    else
      var p := input.outpoint;
      if p.txid !in m || |m[p.txid].outputs| < p.vout + 1 then Failure(SpendingOutputNotFound)
      else Success(m[p.txid := m[p.txid].(outputs := m[p.txid].outputs[p.vout := None])])
  }

  function SpendInputs(m: Entries, inputs: seq<Input>): Result<Entries, SpendError> {
    if |inputs| == 0 then Success(m)
    else
      var m1 :- SpendInputs(m, inputs[..|inputs| - 1]);
      SpendInput(m1, inputs[|inputs| - 1])
  }

  function AddTx(m: Entries, tx: Tx, height: int): Entries {
    m[tx.id := Entry(height, SpendableOutputs(tx))]
  }

  function SpendTxs(m: Entries, txs: seq<Tx>, height: int): Result<Entries, SpendError> {
    if |txs| == 0 then Success(m)
    else
      var m1 :- SpendTxs(m, txs[..|txs| - 1], height);
      SpendInputs(AddTx(m1, txs[|txs| - 1], height), txs[|txs| - 1].inputs)
  }

  /** Ids of the stored transactions that the inputs mention. */
  function TouchedBy(stored: Entries, inputs: seq<Input>): set<TxId> {
    set i | 0 <= i < |inputs| && inputs[i].Spending? && inputs[i].outpoint.txid in stored :: inputs[i].outpoint.txid
  }

  function Touched(stored: Entries, txs: seq<Tx>): set<TxId> {
    if |txs| == 0 then {}
    else Touched(stored, txs[..|txs| - 1]) + TouchedBy(stored, txs[|txs| - 1].inputs)
  }

  /** Every input names a stored transaction or one of the block up to itself. */
  predicate Resolves(stored: Entries, ids: set<TxId>, inputs: seq<Input>) {
    forall i :: 0 <= i < |inputs| && inputs[i].Spending? ==>
      inputs[i].outpoint.txid in stored || inputs[i].outpoint.txid in ids
  }

  predicate AllResolve(stored: Entries, txs: seq<Tx>) {
    |txs| == 0 ||
    (AllResolve(stored, txs[..|txs| - 1]) && Resolves(stored, Ids(txs), txs[|txs| - 1].inputs))
  }

  /** The before-image of a block. */
  function Before(stored: Entries, txs: seq<Tx>): Entries {
    map t | t in Touched(stored, txs) && t in stored :: stored[t]
  }

  /** What committing new entries leaves stored: fully spent ones are dropped. */
  function CommitEntries(stored: Entries, updated: Entries): Entries {
    map t | t in stored.Keys + updated.Keys && !(t in updated && AllSpent(updated[t].outputs))
      :: if t in updated then updated[t] else stored[t]
  }

  // -------------------------------------------------------------- refinement

  lemma DropSpentKeepsUnspent(stored: Entries, updated: Entries)
    ensures Unspent(CommitEntries(stored, updated)) == Unspent(stored + updated)
  {
    var a, b := CommitEntries(stored, updated), stored + updated;
    forall p ensures Live(a, p) <==> Live(b, p) {
    }
  }

  lemma AddTxAt(m: Entries, tx: Tx, height: int, p: OutPoint)
    requires tx.id !in m
    ensures Live(AddTx(m, tx, height), p) <==> Live(m, p) || p in Created(tx, height)
    ensures Live(m, p) ==> p !in Created(tx, height) && LiveCoin(AddTx(m, tx, height), p) == LiveCoin(m, p)
    ensures p in Created(tx, height) ==> LiveCoin(AddTx(m, tx, height), p) == Created(tx, height)[p]
  {
    assert p == OutPoint(p.txid, p.vout);
  }

  lemma AddTxUnspent(m: Entries, tx: Tx, height: int)
    requires tx.id !in m
    ensures Unspent(AddTx(m, tx, height)) == Unspent(m) + Created(tx, height)
  {
    hide AddTx, Created, Live, LiveCoin;
    forall p
      ensures p in Unspent(AddTx(m, tx, height)) <==> p in Unspent(m) + Created(tx, height)
      ensures p in Unspent(AddTx(m, tx, height)) ==> Unspent(AddTx(m, tx, height))[p] == (Unspent(m) + Created(tx, height))[p]
    {
      AddTxAt(m, tx, height, p);
    }
  }

  lemma SpendInputUnspent(m: Entries, input: Input)
    requires SpendInput(m, input).Success?
    ensures Unspent(SpendInput(m, input).value) == Unspent(m) - SpentBy([input])
  {
    if input.Spending? {
      var q, a := input.outpoint, SpendInput(m, input).value;
      forall p ensures Live(a, p) <==> Live(m, p) && p != q {
      }
      assert SpentBy([input]) == {q} by { assert [input][0] == input; }
      assert Unspent(a).Keys == Unspent(m).Keys - {q};
    } else {
      assert SpentBy([input]) == {};
    }
  }

  lemma SpendInputOverlay(stored: Entries, m: Entries, input: Input)
    requires SpendInput(m, input).Success?
    ensures SpendInput(stored + m, input) == Success(stored + SpendInput(m, input).value)
    ensures SpendInput(m, input).value.Keys == m.Keys
  {
    if input.Spending? {
      assert stored + SpendInput(m, input).value == SpendInput(stored + m, input).value;
    }
  }

  lemma SpentByStep(u: Utxos, inputs: seq<Input>)
    requires |inputs| > 0
    ensures u - SpentBy(inputs) == u - SpentBy(inputs[..|inputs| - 1]) - SpentBy([inputs[|inputs| - 1]])
  {
    var n := |inputs| - 1;
    assert [inputs[n]][0] == inputs[n];
    assert SpentBy(inputs) == SpentBy(inputs[..n]) + SpentBy([inputs[n]]);
  }

  lemma {:induction false} SpendInputsUnspent(stored: Entries, m: Entries, inputs: seq<Input>)
    requires SpendInputs(m, inputs).Success?
    ensures Unspent(stored + SpendInputs(m, inputs).value) == Unspent(stored + m) - SpentBy(inputs)
    ensures SpendInputs(m, inputs).value.Keys == m.Keys
    decreases |inputs|
  {
    var n := |inputs| - 1;
    if n < 0 {
      assert SpentBy(inputs) == {};
    } else {
      var m1 := SpendInputs(m, inputs[..n]).value;
      SpendInputsUnspent(stored, m, inputs[..n]);
      SpendInputOverlay(stored, m1, inputs[n]);
      SpendInputUnspent(stored + m1, inputs[n]);
      SpentByStep(Unspent(stored + m), inputs);
    }
  }

  lemma {:induction false} SpendTxsKeys(m: Entries, txs: seq<Tx>, height: int)
    requires SpendTxs(m, txs, height).Success?
    ensures SpendTxs(m, txs, height).value.Keys == m.Keys + Ids(txs)
    decreases |txs|
  {
    var n := |txs|;
    if n > 0 {
      var init, last := txs[..n - 1], txs[n - 1];
      SpendTxsKeys(m, init, height);
      SpendInputsUnspent(map[], AddTx(SpendTxs(m, init, height).value, last, height), last.inputs);
      assert Ids(txs) == Ids(init) + {last.id};
    }
  }

  /** Refinement: whenever the spending loop succeeds on a block with fresh ids,
      storing its result over what was stored is exactly the UTXO rule, double
      spends included. */
  lemma {:induction false} SpendTxsRefinesRule(stored: Entries, m: Entries, txs: seq<Tx>, height: int)
    requires SpendTxs(m, txs, height).Success?
    requires FreshIds(stored.Keys + m.Keys, txs)
    ensures Unspent(stored + SpendTxs(m, txs, height).value) == ApplyTxs(Unspent(stored + m), txs, height)
    decreases |txs|
  {
    var n := |txs|;
    if n > 0 {
      var init, last := txs[..n - 1], txs[n - 1];
      SpendTxsRefinesRule(stored, m, init, height);
      SpendTxsKeys(m, init, height);
      var m1 := SpendTxs(m, init, height).value;
      AddTxUnspent(stored + m1, last, height);
      assert stored + AddTx(m1, last, height) == AddTx(stored + m1, last, height);
      SpendInputsUnspent(stored, AddTx(m1, last, height), last.inputs);
    }
  }

  // ------------------------------------------------ valid blocks are accepted

  predicate SameShape(a: Entries, b: Entries) {
    a.Keys == b.Keys && forall t :: t in a ==> |a[t].outputs| == |b[t].outputs| && a[t].height == b[t].height
  }

  lemma {:induction false} InRangeInputsSucceed(m: Entries, inputs: seq<Input>)
    requires forall i :: 0 <= i < |inputs| && inputs[i].Spending? ==>
               inputs[i].outpoint.txid in m && inputs[i].outpoint.vout < |m[inputs[i].outpoint.txid].outputs|
    ensures SpendInputs(m, inputs).Success? && SameShape(m, SpendInputs(m, inputs).value)
    decreases |inputs|
  {
    if |inputs| > 0 {
      InRangeInputsSucceed(m, inputs[..|inputs| - 1]);
    }
  }

  lemma ValidInputsInRange(stored: Entries, m: Entries, tx: Tx, height: int)
    requires SpentBy(tx.inputs) <= Unspent(stored + m).Keys
    requires TouchedBy(stored, tx.inputs) <= m.Keys && tx.id !in m
    ensures Resolves(stored, m.Keys, tx.inputs)
    ensures forall i :: 0 <= i < |tx.inputs| && tx.inputs[i].Spending? ==>
              var p := tx.inputs[i].outpoint;
              p.txid in AddTx(m, tx, height) && p.vout < |AddTx(m, tx, height)[p.txid].outputs|
  {
    forall i | 0 <= i < |tx.inputs| && tx.inputs[i].Spending?
      ensures var p := tx.inputs[i].outpoint; p.txid in m && p.vout < |m[p.txid].outputs|
    {
      var p := tx.inputs[i].outpoint;
      assert p in SpentBy(tx.inputs);
      assert Live(stored + m, p);
      assert p.txid in stored ==> p.txid in TouchedBy(stored, tx.inputs);
    }
  }

  /** A valid block is never refused: all its inputs resolve and the spending
      loop succeeds on any before-image that covers what the block touches. */
  lemma {:induction false} ValidTxsSucceed(stored: Entries, m: Entries, txs: seq<Tx>, height: int)
    requires FreshIds(stored.Keys, txs) && ValidTxs(Unspent(stored), txs, height)
    requires stored + m == stored && m.Keys <= stored.Keys && Touched(stored, txs) <= m.Keys
    ensures AllResolve(stored, txs) && SpendTxs(m, txs, height).Success?
    decreases |txs|
  {
    hide Unspent, Created, ApplyTx, Before;
    var n := |txs| - 1;
    if n >= 0 {
      var init, last := txs[..n], txs[n];
      ValidTxsSucceed(stored, m, init, height);
      var m1 := SpendTxs(m, init, height).value;
      SpendTxsRefinesRule(stored, m, init, height);
      SpendTxsKeys(m, init, height);
      assert Ids(txs) == Ids(init) + {last.id};
      ValidInputsInRange(stored, m1, last, height);
      InRangeInputsSucceed(AddTx(m1, last, height), last.inputs);
    }
  }

  // ------------------------------------------------------ address references

  type Pairs = set<(Address, TxId)>

  /** References as the checkpoint carries them: a set of ids for each address. */
  type Refs = map<Address, set<TxId>>

  function GroupByAddress(pairs: Pairs): (r: Refs)
    ensures forall a, t :: a in r && t in r[a] <==> (a, t) in pairs
    ensures forall a :: a in r ==> r[a] != {}
  {
    var r: Refs := map a | a in AddressesOf(pairs) :: set p | p in pairs && p.0 == a :: p.1;
    assert forall a, t :: (a, t) in pairs ==> (a, t).0 in AddressesOf(pairs) && (a, t).1 in r[(a, t).0];
    r
  }

  function AddressesOf(pairs: Pairs): set<Address> {
    set p | p in pairs :: p.0
  }

  function PairsOf(refs: Refs): (r: Pairs)
    ensures forall a, t :: (a, t) in r <==> a in refs && t in refs[a]
  {
    set a, t | a in refs && t in refs[a] :: (a, t)
  }

  ghost predicate Pays(outputs: Outputs, a: Address) {
    exists v :: 0 <= v < |outputs| && outputs[v].Some? && a in outputs[v].value.addresses
  }

  lemma PaysStep(list: Outputs, v: nat, a: Address)
    requires v < |list|
    ensures Pays(list[..v + 1], a) <==> Pays(list[..v], a) || (list[v].Some? && a in list[v].value.addresses)
  {
    assert forall i :: 0 <= i < v ==> list[..v][i] == list[..v + 1][i];
    assert list[..v + 1][v] == list[v];
  }

  /** The pairs the block's own spendable outputs pay, in-block spends included. */
  function NewPairs(txs: seq<Tx>): (r: Pairs)
    ensures forall a, t :: (a, t) in r <==> exists j :: 0 <= j < |txs| && txs[j].id == t && Pays(SpendableOutputs(txs[j]), a)
  {
    var r := set j, v, k | 0 <= j < |txs| && 0 <= v < |txs[j].outputs| && txs[j].outputs[v].spendable
                           && 0 <= k < |txs[j].outputs[v].output.addresses|
                         :: (txs[j].outputs[v].output.addresses[k], txs[j].id);
    assert forall a, t :: (exists j :: 0 <= j < |txs| && txs[j].id == t && Pays(SpendableOutputs(txs[j]), a)) ==> (a, t) in r by {
      forall a, t | exists j :: 0 <= j < |txs| && txs[j].id == t && Pays(SpendableOutputs(txs[j]), a)
        ensures (a, t) in r
      {
        var j :| 0 <= j < |txs| && txs[j].id == t && Pays(SpendableOutputs(txs[j]), a);
        var v :| 0 <= v < |txs[j].outputs| && SpendableOutputs(txs[j])[v].Some? && a in SpendableOutputs(txs[j])[v].value.addresses;
        assert txs[j].outputs[v].spendable && a in txs[j].outputs[v].output.addresses;
      }
    }
    assert forall p :: p in r ==> exists j :: 0 <= j < |txs| && txs[j].id == p.1 && Pays(SpendableOutputs(txs[j]), p.0) by {
      forall p | p in r
        ensures exists j :: 0 <= j < |txs| && txs[j].id == p.1 && Pays(SpendableOutputs(txs[j]), p.0)
      {
        var j, v, k :| 0 <= j < |txs| && 0 <= v < |txs[j].outputs| && txs[j].outputs[v].spendable
                       && 0 <= k < |txs[j].outputs[v].output.addresses|
                       && p == (txs[j].outputs[v].output.addresses[k], txs[j].id);
        assert SpendableOutputs(txs[j])[v] == Some(txs[j].outputs[v].output);
      }
    }
    r
  }

  /** How often the live outputs of one entry name an address. */
  function Count(outputs: Outputs, a: Address): nat {
    if |outputs| == 0 then 0
    else Count(outputs[..|outputs| - 1], a) + Weight(outputs[|outputs| - 1], a)
  }

  function Weight(output: Option<Output>, a: Address): nat {
    if output.None? then 0 else multiset(output.value.addresses)[a]
  }

  /** How often the outputs of entry `t` that `inputs` spend name an address; inputs
      that name a transaction in `ids` are passed over. */
  function SpentCount(before: Entries, ids: set<TxId>, inputs: seq<Input>, a: Address, t: TxId): nat {
    if |inputs| == 0 then 0
    else SpentCount(before, ids, inputs[..|inputs| - 1], a, t) + SpentWeight(before, ids, inputs[|inputs| - 1], a, t)
  }

  function SpentWeight(before: Entries, ids: set<TxId>, input: Input, a: Address, t: TxId): nat {
    if input.Spending? && input.outpoint.txid == t && t !in ids && Live(before, input.outpoint)
    then Weight(before[t].outputs[input.outpoint.vout], a) else 0
  }

  function BlockSpentCount(before: Entries, txs: seq<Tx>, a: Address, t: TxId): nat {
    if |txs| == 0 then 0
    else BlockSpentCount(before, txs[..|txs| - 1], a, t) + SpentCount(before, Ids(txs), txs[|txs| - 1].inputs, a, t)
  }

  /** Why the counters cannot be kept: an input names no output of the before-image, or
      one that is already spent, whose addresses the program cannot read. */
  datatype Trouble = NoSuchOutput | NothingThere

  function InputTrouble(before: Entries, ids: set<TxId>, input: Input): Option<Trouble> {
    if input.Coinbase? || input.outpoint.txid in ids then None
    else
      var p := input.outpoint;
      if p.txid !in before || |before[p.txid].outputs| < p.vout + 1 then Some(NoSuchOutput)
      else if before[p.txid].outputs[p.vout].None? then Some(NothingThere)
      else None
  }

  function InputsTrouble(before: Entries, ids: set<TxId>, inputs: seq<Input>): Option<Trouble> {
    var n := |inputs| - 1;
    if n < 0 then None
    else
      match InputsTrouble(before, ids, inputs[..n])
      case Some(e) => Some(e)
      case None => InputTrouble(before, ids, inputs[n])
  }

  /** The first trouble in a block, inputs that name earlier transactions of the block
      or their own being passed over. */
  function BlockTrouble(before: Entries, txs: seq<Tx>): Option<Trouble> {
    var n := |txs| - 1;
    if n < 0 then None
    else
      match BlockTrouble(before, txs[..n])
      case Some(e) => Some(e)
      case None => InputsTrouble(before, Ids(txs), txs[n].inputs)
  }

  /** The pairs whose count reaches zero once the block's spends are subtracted. */
  ghost predicate Dereferenced(before: Entries, txs: seq<Tx>, a: Address, t: TxId) {
    t in before && Count(before[t].outputs, a) > 0 && Count(before[t].outputs, a) == BlockSpentCount(before, txs, a, t)
  }

  lemma {:induction false} CountZero(outputs: Outputs, a: Address)
    ensures Count(outputs, a) > 0 <==> Pays(outputs, a)
    decreases |outputs|
  {
    var n := |outputs| - 1;
    if n >= 0 {
      CountZero(outputs[..n], a);
      if Pays(outputs[..n], a) {
        var v :| 0 <= v < n && outputs[..n][v].Some? && a in outputs[..n][v].value.addresses;
        assert outputs[v] == outputs[..n][v];
      }
      if Pays(outputs, a) && Weight(outputs[n], a) == 0 {
        var v :| 0 <= v < |outputs| && outputs[v].Some? && a in outputs[v].value.addresses;
        assert v < n && outputs[..n][v] == outputs[v];
      }
    }
  }

  lemma {:induction false} CountSpend(outputs: Outputs, v: nat, a: Address)
    requires v < |outputs|
    ensures Count(outputs[v := None], a) + Weight(outputs[v], a) == Count(outputs, a)
    decreases |outputs|
  {
    var n := |outputs| - 1;
    if v < n {
      CountSpend(outputs[..n], v, a);
      assert outputs[v := None][..n] == outputs[..n][v := None];
    } else {
      assert outputs[v := None][..n] == outputs[..n];
    }
  }

  /** `now` is `old` with some outputs spent. */
  predicate Thinned(now: Outputs, was: Outputs) {
    |now| == |was| && forall v :: 0 <= v < |now| ==> now[v].None? || now[v] == was[v]
  }

  lemma {:induction false} InputsCount(before: Entries, m: Entries, ids: set<TxId>, inputs: seq<Input>, a: Address, t: TxId)
    requires SpendInputs(m, inputs).Success? && DistinctSpends(inputs)
    requires t in before && t in m && t !in ids && Thinned(m[t].outputs, before[t].outputs)
    requires forall i :: 0 <= i < |inputs| && inputs[i].Spending? && inputs[i].outpoint.txid == t ==> Live(m, inputs[i].outpoint)
    ensures var r := SpendInputs(m, inputs).value;
            t in r && Thinned(r[t].outputs, before[t].outputs)
            && Count(r[t].outputs, a) + SpentCount(before, ids, inputs, a, t) == Count(m[t].outputs, a)
    decreases |inputs|
  {
    var n := |inputs| - 1;
    if n >= 0 {
      InputsCount(before, m, ids, inputs[..n], a, t);
      var m1, last := SpendInputs(m, inputs[..n]).value, inputs[n];
      if last.Spending? && last.outpoint.txid == t {
        SpendInputsUnspent(map[], m, inputs[..n]);
        assert map[] + m == m && map[] + m1 == m1;
        assert last.outpoint !in SpentBy(inputs[..n]) by {
          assert forall i :: 0 <= i < n && inputs[..n][i].Spending? ==> inputs[i] != last;
        }
        assert Unspent(m1) == Unspent(m) - SpentBy(inputs[..n]);
        assert last.outpoint in Unspent(m);
        assert last.outpoint in Unspent(m1);
        CountSpend(m1[t].outputs, last.outpoint.vout, a);
      }
    }
  }

  lemma {:induction false} BlockCount(stored: Entries, before: Entries, txs: seq<Tx>, height: int, a: Address, t: TxId)
    requires FreshIds(stored.Keys, txs) && ValidTxs(Unspent(stored), txs, height)
    requires stored + before == stored && before.Keys <= stored.Keys
    requires SpendTxs(before, txs, height).Success? && t in before
    ensures var r := SpendTxs(before, txs, height).value;
            t in r && Thinned(r[t].outputs, before[t].outputs)
            && Count(r[t].outputs, a) + BlockSpentCount(before, txs, a, t) == Count(before[t].outputs, a)
    decreases |txs|
  {
    var n := |txs| - 1;
    if n >= 0 {
      var last := txs[n];
      BlockCount(stored, before, txs[..n], height, a, t);
      var m1 := SpendTxs(before, txs[..n], height).value;
      SpendTxsRefinesRule(stored, before, txs[..n], height);
      forall i | 0 <= i < |last.inputs| && last.inputs[i].Spending? && last.inputs[i].outpoint.txid == t
        ensures Live(AddTx(m1, last, height), last.inputs[i].outpoint)
      {
        assert last.inputs[i].outpoint in SpentBy(last.inputs);
        assert Live(stored + m1, last.inputs[i].outpoint);
      }
      InputsCount(before, AddTx(m1, last, height), Ids(txs), last.inputs, a, t);
    }
  }

  /** Dereference exactness: on a valid block the counting finds precisely the pairs
      that were paid before the block and are paid by nothing after it. */
  lemma DereferenceExact(stored: Entries, before: Entries, txs: seq<Tx>, height: int, a: Address, t: TxId)
    requires FreshIds(stored.Keys, txs) && ValidTxs(Unspent(stored), txs, height)
    requires stored + before == stored && before.Keys <= stored.Keys
    requires SpendTxs(before, txs, height).Success?
    ensures var after := SpendTxs(before, txs, height).value;
            Dereferenced(before, txs, a, t) <==>
            t in before && t in after && Pays(before[t].outputs, a) && !Pays(after[t].outputs, a)
  {
    if t in before {
      BlockCount(stored, before, txs, height, a, t);
      CountZero(before[t].outputs, a);
      CountZero(SpendTxs(before, txs, height).value[t].outputs, a);
    }
  }
}
