/** The loops that turn a block into new entries, over output lists held in arrays
    that are updated in place, each proved against module Spending. */
module Spender {
  import opened Wrappers
  import opened Ledger
  import opened Spending
  import opened Database

  /** A transaction's outputs as the indexer holds them in memory. */
  class TransactionOutputs {
    const height: int
    const outputs: array<Option<Output>>

    constructor (height: int, list: Outputs)
      ensures this.height == height && fresh(outputs) && outputs[..] == list
    {
      this.height := height;
      outputs := new Option<Output>[|list|](i requires 0 <= i < |list| => list[i]);
    }
  }

  type Objects = map<TxId, TransactionOutputs>

  ghost function Arrays(m: Objects): set<object> {
    set t | t in m :: m[t].outputs
  }

  ghost function View(m: Objects): Entries
    reads Arrays(m)
  {
    map t | t in m :: Entry(m[t].height, m[t].outputs[..])
  }

  /** No two entries share their output list. */
  ghost predicate Separate(m: Objects) {
    forall t, u :: t in m && u in m && t != u ==> m[t].outputs != m[u].outputs
  }

  // ------------------------------------------------ failing prefixes stay failing

  lemma {:induction false} InputsFail(m: Entries, inputs: seq<Input>, k: nat)
    requires k <= |inputs| && SpendInputs(m, inputs[..k]).Failure?
    ensures SpendInputs(m, inputs).Failure?
    decreases |inputs|
  {
    if k == |inputs| {
      assert inputs[..k] == inputs;
    } else {
      assert inputs[..|inputs| - 1][..k] == inputs[..k];
      InputsFail(m, inputs[..|inputs| - 1], k);
    }
  }

  lemma {:induction false} TxsFail(m: Entries, txs: seq<Tx>, height: int, k: nat)
    requires k <= |txs| && SpendTxs(m, txs[..k], height).Failure?
    ensures SpendTxs(m, txs, height).Failure?
    decreases |txs|
  {
    if k == |txs| {
      assert txs[..k] == txs;
    } else {
      assert txs[..|txs| - 1][..k] == txs[..k];
      TxsFail(m, txs[..|txs| - 1], height, k);
    }
  }

  // ------------------------------------------------------------------ methods

  method GetAllSpendableOutputs(tx: Tx) returns (list: Outputs)
    ensures list == SpendableOutputs(tx) && |list| == |tx.outputs|
    ensures forall v :: 0 <= v < |list| ==> list[v] == if tx.outputs[v].spendable then Some(tx.outputs[v].output) else None
  {
    list := [];
    for i := 0 to |tx.outputs|
      invariant list == SpendableOutputs(tx)[..i]
    {
      list := list + [if tx.outputs[i].spendable then Some(tx.outputs[i].output) else None];
    }
  }

  /** The copies the spending loop works on: same contents, no shared list. */
  method CopyEntries(spending: Objects) returns (copies: Objects)
    ensures View(copies) == View(spending) && Separate(copies) && fresh(Arrays(copies))
  {
    copies := map[];
    var left := spending.Keys;
    while left != {}
      invariant left <= spending.Keys && copies.Keys == spending.Keys - left
      invariant Separate(copies) && forall t :: t in copies ==> fresh(copies[t].outputs)
      invariant forall t :: t in copies ==>
                  copies[t].height == spending[t].height && copies[t].outputs[..] == spending[t].outputs[..]
      decreases left
    {
      var t :| t in left;
      var copy := new TransactionOutputs(spending[t].height, spending[t].outputs[..]);
      copies := copies[t := copy];
      left := left - {t};
    }
  }

  /** Marks an output as spent in place. */
  method SpendInPlace(m: Objects, p: OutPoint)
    requires Separate(m) && p.txid in m && p.vout < m[p.txid].outputs.Length
    modifies m[p.txid].outputs
    ensures Success(View(m)) == SpendInput(old(View(m)), Spending(p))
  {
    m[p.txid].outputs[p.vout] := None;
    assert View(m) == old(View(m))[p.txid := old(View(m))[p.txid].(outputs := m[p.txid].outputs[..])];
  }

  /** The inputs of one transaction, spent one after the other. */
  method SpendAllInputs(m: Objects, inputs: seq<Input>) returns (ok: bool)
    requires Separate(m)
    modifies Arrays(m)
    ensures ok <==> SpendInputs(old(View(m)), inputs).Success?
    ensures ok ==> Success(View(m)) == SpendInputs(old(View(m)), inputs)
  {
    for i := 0 to |inputs|
      invariant SpendInputs(old(View(m)), inputs[..i]) == Success(View(m))
    {
      assert inputs[..i + 1][..i] == inputs[..i];
      if inputs[i].Spending? {
        var p := inputs[i].outpoint;
        if p.txid !in m || m[p.txid].outputs.Length < p.vout + 1 {
          InputsFail(old(View(m)), inputs, i + 1);
          return false;
        }
        SpendInPlace(m, p);
      }
    }
    assert inputs[..|inputs|] == inputs;
    return true;
  }

  /** A block's transaction joins the working entries and spends its inputs. */
  method SpendTransaction(m: Objects, tx: Tx, height: int) returns (ok: bool, r: Objects)
    requires Separate(m)
    modifies Arrays(m)
    ensures ok <==> SpendInputs(AddTx(old(View(m)), tx, height), tx.inputs).Success?
    ensures ok ==> SpendInputs(AddTx(old(View(m)), tx, height), tx.inputs) == Success(View(r))
    ensures Separate(r) && fresh(Arrays(r) - Arrays(m))
  {
    var list := GetAllSpendableOutputs(tx);
    var own := new TransactionOutputs(height, list);
    r := m[tx.id := own];
    assert View(r) == AddTx(old(View(m)), tx, height);
    ok := SpendAllInputs(r, tx.inputs);
  }

  /** The transactions of the block, one after the other, on the working copies. */
  method SpendTransactions(copies: Objects, txs: seq<Tx>, height: int) returns (ok: bool, m: Objects)
    requires Separate(copies)
    modifies Arrays(copies)
    ensures ok <==> SpendTxs(old(View(copies)), txs, height).Success?
    ensures ok ==> SpendTxs(old(View(copies)), txs, height) == Success(View(m))
    ensures Separate(m) && fresh(Arrays(m) - Arrays(copies))
  {
    m := copies;
    for j := 0 to |txs|
      invariant Separate(m) && fresh(Arrays(m) - Arrays(copies))
      invariant SpendTxs(old(View(copies)), txs[..j], height) == Success(View(m))
    {
      assert txs[..j + 1][..j] == txs[..j];
      ok, m := SpendTransaction(m, txs[j], height);
      if !ok {
        TxsFail(old(View(copies)), txs, height, j + 1);
        return;
      }
    }
    assert txs[..|txs|] == txs;
    ok := true;
  }

  /** Copies the before-image and applies the block to the copies: the lists of the
      before-image itself are not written. */
  method SpendAllOutputs(spending: Objects, txs: seq<Tx>, height: int) returns (r: Result<Objects, SpendError>)
    ensures View(spending) == old(View(spending))
    ensures r.Success? <==> SpendTxs(View(spending), txs, height).Success?
    ensures r.Success? ==> SpendTxs(View(spending), txs, height) == Success(View(r.value))
    ensures r.Success? ==> fresh(Arrays(r.value)) && Separate(r.value)
  {
    ghost var before := View(spending);
    var copies: Objects := CopyEntries(spending);
    assert View(spending) == before && View(copies) == before;
    var ok, m := SpendTransactions(copies, txs, height);
    assert View(spending) == before;
    r := if ok then Success(m) else Failure(SpendingOutputNotFound);
  }

  // ------------------------------------------------------ the before-image

  function StoredAt(stored: Entries, ids: set<TxId>): Entries {
    map t | t in ids && t in stored :: stored[t]
  }

  lemma {:induction false} ResolvePrefix(stored: Entries, txs: seq<Tx>, k: nat)
    requires k <= |txs| && !AllResolve(stored, txs[..k])
    ensures !AllResolve(stored, txs)
    decreases |txs|
  {
    if k == |txs| {
      assert txs[..k] == txs;
    } else {
      assert txs[..|txs| - 1][..k] == txs[..k];
      ResolvePrefix(stored, txs[..|txs| - 1], k);
    }
  }

  lemma TouchedStep(stored: Entries, inputs: seq<Input>, i: nat)
    requires i < |inputs|
    ensures TouchedBy(stored, inputs[..i + 1])
         == TouchedBy(stored, inputs[..i])
            + (if inputs[i].Spending? && inputs[i].outpoint.txid in stored then {inputs[i].outpoint.txid} else {})
  {
    assert inputs[..i + 1] == inputs[..i] + [inputs[i]];
  }

  /** Reads a stored transaction: a fresh object with its outputs. */
  method GetOutputsByTxID(stored: Entries, m: Objects, ghost seen: set<TxId>, t: TxId) returns (r: Objects)
    requires t in stored && Separate(m) && View(m) == StoredAt(stored, seen)
    ensures Separate(r) && View(r) == StoredAt(stored, seen + {t}) && fresh(Arrays(r) - Arrays(m))
  {
    var entry := new TransactionOutputs(stored[t].height, stored[t].outputs);
    r := m[t := entry];
    assert View(r) == View(m)[t := stored[t]];
    assert StoredAt(stored, seen + {t}) == StoredAt(stored, seen)[t := stored[t]];
  }

  /** One transaction's part of the before-image: each stored transaction its inputs
      mention is read again, one of the block itself may be missing. */
  method ExtractFromInputs(stored: Entries, sofar: Objects, ghost seen: set<TxId>, ids: set<TxId>, inputs: seq<Input>)
    returns (ok: bool, m: Objects)
    requires Separate(sofar) && View(sofar) == StoredAt(stored, seen)
    ensures ok <==> Resolves(stored, ids, inputs)
    ensures ok ==> Separate(m) && View(m) == StoredAt(stored, seen + TouchedBy(stored, inputs))
    ensures ok ==> fresh(Arrays(m) - Arrays(sofar))
  {
    m := sofar;
    ghost var touched := seen;
    for i := 0 to |inputs|
      invariant Separate(m) && fresh(Arrays(m) - Arrays(sofar))
      invariant touched == seen + TouchedBy(stored, inputs[..i]) && View(m) == StoredAt(stored, touched)
      invariant Resolves(stored, ids, inputs[..i])
    {
      TouchedStep(stored, inputs, i);
      if inputs[i].Spending? {
        var t := inputs[i].outpoint.txid;
        if t in stored {
          m := GetOutputsByTxID(stored, m, touched, t);
          touched := touched + {t};
        } else if t !in ids {
          return false, m;
        }
      }
    }
    assert inputs[..|inputs|] == inputs;
    ok := true;
  }

  method ExtractSpendingOutputsFromBlock(stored: Entries, txs: seq<Tx>) returns (r: Result<Objects, BuildError>)
    ensures r.Success? <==> AllResolve(stored, txs)
    ensures r.Success? ==> View(r.value) == Before(stored, txs) && Separate(r.value) && fresh(Arrays(r.value))
    ensures r.Failure? ==> r.error == OutputsNotFound
  {
    var m: Objects := map[];
    var ids: set<TxId> := {};
    for j := 0 to |txs|
      invariant ids == Ids(txs[..j]) && AllResolve(stored, txs[..j])
      invariant Separate(m) && fresh(Arrays(m)) && View(m) == StoredAt(stored, Touched(stored, txs[..j]))
    {
      assert txs[..j + 1][..j] == txs[..j];
      ids := ids + {txs[j].id};
      assert ids == Ids(txs[..j + 1]);
      var ok, more := ExtractFromInputs(stored, m, Touched(stored, txs[..j]), ids, txs[j].inputs);
      if !ok {
        ResolvePrefix(stored, txs, j + 1);
        return Failure(OutputsNotFound);
      }
      m := more;
    }
    assert txs[..|txs|] == txs;
    r := Success(m);
  }

  // --------------------------------------------------------- address counting

  type Counts = map<Address, map<TxId, int>>

  predicate Listed(c: Counts, a: Address, t: TxId) {
    a in c && t in c[a]
  }

  function Tally(c: Counts, a: Address, t: TxId): int {
    if Listed(c, a, t) then c[a][t] else 0
  }

  function Bump(c: Counts, a: Address, t: TxId, step: int): (r: Counts)
    ensures forall x, y :: Tally(r, x, y) == Tally(c, x, y) + (if x == a && y == t then step else 0)
    ensures forall x, y :: Listed(r, x, y) <==> Listed(c, x, y) || (x == a && y == t)
  {
    var inner: map<TxId, int> := if a in c then c[a] else map[];
    c[a := inner[t := Tally(c, a, t) + step]]
  }

  lemma MultisetPrefix(addresses: seq<Address>, k: nat, a: Address)
    requires k < |addresses|
    ensures multiset(addresses[..k + 1])[a] == multiset(addresses[..k])[a] + (if addresses[k] == a then 1 else 0)
  {
    assert addresses[..k + 1] == addresses[..k] + [addresses[k]];
  }

  /** A count added or taken off. */
  function Times(step: int, count: int): int {
    if step == 1 then count else -count
  }

  method CountOutput(c0: Counts, t: TxId, addresses: seq<Address>, step: int) returns (c: Counts)
    requires step == 1 || step == -1
    ensures forall x, y :: Tally(c, x, y) == Tally(c0, x, y) + (if y == t then Times(step, multiset(addresses)[x]) else 0)
    ensures forall x, y :: Listed(c, x, y) <==> Listed(c0, x, y) || (y == t && x in addresses)
  {
    c := c0;
    assert addresses[..0] == [] && Times(step, 0) == 0;
    for k := 0 to |addresses|
      invariant forall x, y :: Tally(c, x, y) == Tally(c0, x, y) + (if y == t then Times(step, multiset(addresses[..k])[x]) else 0)
      invariant forall x, y :: Listed(c, x, y) <==> Listed(c0, x, y) || (y == t && x in addresses[..k])
    {
      ghost var was := c;
      c := Bump(c, addresses[k], t, step);
      forall x, y
        ensures Tally(c, x, y) == Tally(c0, x, y) + (if y == t then Times(step, multiset(addresses[..k + 1])[x]) else 0)
      {
        MultisetPrefix(addresses, k, x);
        assert Tally(was, x, y) == Tally(c0, x, y) + (if y == t then Times(step, multiset(addresses[..k])[x]) else 0);
      }
    }
    assert addresses[..|addresses|] == addresses;
  }

  method CountEntry(c0: Counts, t: TxId, outputs: array<Option<Output>>) returns (c: Counts)
    requires forall x :: !Listed(c0, x, t)
    ensures forall x, y :: y != t ==> Tally(c, x, y) == Tally(c0, x, y) && (Listed(c, x, y) <==> Listed(c0, x, y))
    ensures forall x :: Tally(c, x, t) == Count(outputs[..], x) && (Listed(c, x, t) <==> Count(outputs[..], x) > 0)
  {
    c := c0;
    for v := 0 to outputs.Length
      invariant forall x, y :: y != t ==> Tally(c, x, y) == Tally(c0, x, y) && (Listed(c, x, y) <==> Listed(c0, x, y))
      invariant forall x :: Tally(c, x, t) == Count(outputs[..v], x) && (Listed(c, x, t) <==> Count(outputs[..v], x) > 0)
    {
      assert outputs[..v + 1][..v] == outputs[..v];
      if outputs[v].Some? {
        ghost var was := c;
        c := CountOutput(c, t, outputs[v].value.addresses, 1);
        forall x
          ensures Tally(c, x, t) == Count(outputs[..v + 1], x) && (Listed(c, x, t) <==> Count(outputs[..v + 1], x) > 0)
        {
          assert Tally(was, x, t) == Count(outputs[..v], x);
        }
      }
    }
    assert outputs[..outputs.Length] == outputs[..];
  }

  ghost predicate CountsListed(c: Counts, before: Entries) {
    forall x, y :: Listed(c, x, y) <==> y in before && Count(before[y].outputs, x) > 0
  }

  /** For each address and transaction, how often its live outputs name the address. */
  method CountAddressOutputs(m: Objects, ghost before: Entries) returns (c: Counts)
    requires before == View(m)
    ensures forall x, y :: y in before ==> Tally(c, x, y) == Count(before[y].outputs, x)
    ensures CountsListed(c, before)
  {
    c := map[];
    var left := m.Keys;
    while left != {}
      invariant left <= m.Keys
      invariant forall x, y :: y in before && y !in left ==> Tally(c, x, y) == Count(before[y].outputs, x)
      invariant forall x, y :: Listed(c, x, y) <==> y in before && y !in left && Count(before[y].outputs, x) > 0
      decreases left
    {
      var t :| t in left;
      c := CountEntry(c, t, m[t].outputs);
      left := left - {t};
    }
  }

  // ------------------------------------------------------------ dereferencing

  /** Subtracts one spent output, or tells why it cannot. */
  method SubtractInput(c0: Counts, spending: Objects, ghost before: Entries, ids: set<TxId>, input: Input)
    returns (trouble: Option<Trouble>, c: Counts)
    requires before == View(spending) && CountsListed(c0, before)
    ensures trouble == InputTrouble(before, ids, input)
    ensures trouble == None ==> forall x, y :: Tally(c, x, y) == Tally(c0, x, y) - SpentWeight(before, ids, input, x, y)
    ensures trouble == None ==> CountsListed(c, before)
  {
    c := c0;
    trouble := None;
    if input.Spending? && input.outpoint.txid !in ids {
      var p := input.outpoint;
      if p.txid !in spending || spending[p.txid].outputs.Length < p.vout + 1 {
        return Some(NoSuchOutput), c;
      }
      if spending[p.txid].outputs[p.vout].None? {
        return Some(NothingThere), c;
      }
      var addresses := spending[p.txid].outputs[p.vout].value.addresses;
      forall x | x in addresses ensures Listed(c, x, p.txid) {
        CountZero(before[p.txid].outputs, x);
      }
      c := CountOutput(c, p.txid, addresses, -1);
    }
  }

  lemma SpentCountStep(before: Entries, ids: set<TxId>, inputs: seq<Input>, i: nat, a: Address, t: TxId)
    requires i < |inputs|
    ensures SpentCount(before, ids, inputs[..i + 1], a, t)
         == SpentCount(before, ids, inputs[..i], a, t) + SpentWeight(before, ids, inputs[i], a, t)
  {
    assert inputs[..i + 1][..i] == inputs[..i];
  }

  lemma BlockSpentCountStep(before: Entries, txs: seq<Tx>, j: nat, a: Address, t: TxId)
    requires j < |txs|
    ensures BlockSpentCount(before, txs[..j + 1], a, t)
         == BlockSpentCount(before, txs[..j], a, t) + SpentCount(before, Ids(txs[..j + 1]), txs[j].inputs, a, t)
  {
    assert txs[..j + 1][..j] == txs[..j];
  }

  /** The first trouble decides, whatever comes after it. */
  lemma {:induction false} InputsTroubleStays(before: Entries, ids: set<TxId>, inputs: seq<Input>, i: nat)
    requires i <= |inputs| && InputsTrouble(before, ids, inputs[..i]).Some?
    ensures InputsTrouble(before, ids, inputs) == InputsTrouble(before, ids, inputs[..i])
    decreases |inputs|
  {
    if i == |inputs| {
      assert inputs[..i] == inputs;
    } else {
      assert inputs[..|inputs| - 1][..i] == inputs[..i];
      InputsTroubleStays(before, ids, inputs[..|inputs| - 1], i);
    }
  }

  lemma {:induction false} BlockTroubleStays(before: Entries, txs: seq<Tx>, j: nat)
    requires j <= |txs| && BlockTrouble(before, txs[..j]).Some?
    ensures BlockTrouble(before, txs) == BlockTrouble(before, txs[..j])
    decreases |txs|
  {
    if j == |txs| {
      assert txs[..j] == txs;
    } else {
      assert txs[..|txs| - 1][..j] == txs[..j];
      BlockTroubleStays(before, txs[..|txs| - 1], j);
    }
  }

  method SubtractInputs(c0: Counts, spending: Objects, ghost before: Entries, ids: set<TxId>, inputs: seq<Input>)
    returns (trouble: Option<Trouble>, c: Counts)
    requires before == View(spending) && CountsListed(c0, before)
    ensures trouble == InputsTrouble(before, ids, inputs)
    ensures trouble == None ==> forall x, y :: Tally(c, x, y) == Tally(c0, x, y) - SpentCount(before, ids, inputs, x, y)
    ensures trouble == None ==> CountsListed(c, before)
  {
    c := c0;
    for i := 0 to |inputs|
      invariant forall x, y :: Tally(c, x, y) == Tally(c0, x, y) - SpentCount(before, ids, inputs[..i], x, y)
      invariant CountsListed(c, before) && InputsTrouble(before, ids, inputs[..i]) == None
    {
      ghost var was := c;
      assert inputs[..i + 1][..i] == inputs[..i];
      trouble, c := SubtractInput(c, spending, before, ids, inputs[i]);
      if trouble != None {
        InputsTroubleStays(before, ids, inputs, i + 1);
        return;
      }
      forall x, y ensures Tally(c, x, y) == Tally(c0, x, y) - SpentCount(before, ids, inputs[..i + 1], x, y) {
        SpentCountStep(before, ids, inputs, i, x, y);
        assert Tally(was, x, y) == Tally(c0, x, y) - SpentCount(before, ids, inputs[..i], x, y);
      }
    }
    assert inputs[..|inputs|] == inputs;
    trouble := None;
  }

  lemma GroupUnique(r: Refs, pairs: Pairs)
    requires forall a, t :: InRefs(r, a, t) <==> (a, t) in pairs
    requires forall a :: a in r ==> r[a] != {}
    ensures r == GroupByAddress(pairs)
  {
    var g := GroupByAddress(pairs);
    forall a ensures a in r <==> a in g {
      if a in r {
        var t :| t in r[a];
        assert InRefs(r, a, t);
      }
      if a in g {
        var t :| t in g[a];
        assert InRefs(r, a, t);
      }
    }
    forall a | a in r ensures r[a] == g[a] {
      assert forall t :: t in r[a] <==> InRefs(r, a, t);
    }
  }

  predicate InRefs(r: Refs, a: Address, t: TxId) {
    a in r && t in r[a]
  }

  function AddRef(r: Refs, a: Address, t: TxId): (r': Refs)
    requires forall x :: x in r ==> r[x] != {}
    ensures forall x, y :: InRefs(r', x, y) <==> InRefs(r, x, y) || (x == a && y == t)
    ensures forall x :: x in r' ==> r'[x] != {}
  {
    var ids := if a in r then r[a] else {};
    assert t in ids + {t};
    r[a := ids + {t}]
  }

  method CollectZerosOf(c: Counts, a: Address, r0: Refs) returns (r: Refs)
    requires a in c && forall x :: x in r0 ==> r0[x] != {}
    ensures forall x, y :: InRefs(r, x, y) <==> InRefs(r0, x, y) || (x == a && Listed(c, x, y) && Tally(c, x, y) == 0)
    ensures forall x :: x in r ==> r[x] != {}
  {
    r := r0;
    var left := c[a].Keys;
    while left != {}
      invariant left <= c[a].Keys
      invariant forall x, y :: InRefs(r, x, y) <==>
                  InRefs(r0, x, y) || (x == a && y !in left && Listed(c, x, y) && Tally(c, x, y) == 0)
      invariant forall x :: x in r ==> r[x] != {}
      decreases left
    {
      var t :| t in left;
      assert Listed(c, a, t) && Tally(c, a, t) == c[a][t];
      if c[a][t] == 0 {
        r := AddRef(r, a, t);
      }
      left := left - {t};
    }
  }

  /** The pairs whose count is zero, grouped by address. */
  method CollectZeros(c: Counts) returns (r: Refs)
    ensures forall x, y :: InRefs(r, x, y) <==> Listed(c, x, y) && Tally(c, x, y) == 0
    ensures forall x :: x in r ==> r[x] != {}
  {
    r := map[];
    var left := c.Keys;
    while left != {}
      invariant left <= c.Keys
      invariant forall x, y :: InRefs(r, x, y) <==> x !in left && Listed(c, x, y) && Tally(c, x, y) == 0
      invariant forall x :: x in r ==> r[x] != {}
      decreases left
    {
      var a :| a in left;
      r := CollectZerosOf(c, a, r);
      left := left - {a};
    }
  }

  lemma IdsStep(txs: seq<Tx>, j: nat)
    requires j < |txs|
    ensures Ids(txs[..j + 1]) == Ids(txs[..j]) + {txs[j].id}
  {
    assert txs[..j + 1] == txs[..j] + [txs[j]];
    assert forall t :: t in Ids(txs[..j + 1]) ==> t in Ids(txs[..j]) + {txs[j].id};
    assert txs[..j + 1][j].id in Ids(txs[..j + 1]);
    assert forall i :: 0 <= i < j ==> txs[..j + 1][i] == txs[..j][i];
  }

  /** The counts left when the whole block is subtracted. */
  method SubtractBlock(c0: Counts, spending: Objects, ghost before: Entries, txs: seq<Tx>)
    returns (trouble: Option<Trouble>, c: Counts)
    requires before == View(spending) && CountsListed(c0, before)
    ensures trouble == BlockTrouble(before, txs)
    ensures trouble == None ==> forall x, y :: Tally(c, x, y) == Tally(c0, x, y) - BlockSpentCount(before, txs, x, y)
    ensures trouble == None ==> CountsListed(c, before)
  {
    c := c0;
    var ids: set<TxId> := {};
    for j := 0 to |txs|
      invariant ids == Ids(txs[..j])
      invariant forall x, y :: Tally(c, x, y) == Tally(c0, x, y) - BlockSpentCount(before, txs[..j], x, y)
      invariant CountsListed(c, before) && BlockTrouble(before, txs[..j]) == None
    {
      ids := ids + {txs[j].id};
      IdsStep(txs, j);
      assert txs[..j + 1][..j] == txs[..j];
      ghost var was := c;
      trouble, c := SubtractInputs(c, spending, before, ids, txs[j].inputs);
      if trouble != None {
        BlockTroubleStays(before, txs, j + 1);
        return;
      }
      forall x, y ensures Tally(c, x, y) == Tally(c0, x, y) - BlockSpentCount(before, txs[..j + 1], x, y) {
        BlockSpentCountStep(before, txs, j, x, y);
        assert Tally(was, x, y) == Tally(c0, x, y) - BlockSpentCount(before, txs[..j], x, y);
      }
    }
    assert txs[..|txs|] == txs;
    trouble := None;
  }

  lemma ZerosAreDereferenced(c: Counts, rest: Counts, before: Entries, txs: seq<Tx>, refs: Refs)
    requires forall x, y :: y in before ==> Tally(c, x, y) == Count(before[y].outputs, x)
    requires forall x, y :: Tally(rest, x, y) == Tally(c, x, y) - BlockSpentCount(before, txs, x, y)
    requires CountsListed(rest, before)
    requires forall x, y :: InRefs(refs, x, y) <==> Listed(rest, x, y) && Tally(rest, x, y) == 0
    requires forall x :: x in refs ==> refs[x] != {}
    ensures refs == GroupByAddress(DereferencedPairs(before, txs))
  {
    forall x, y ensures InRefs(refs, x, y) <==> (x, y) in DereferencedPairs(before, txs) {
      assert Tally(rest, x, y) == Tally(c, x, y) - BlockSpentCount(before, txs, x, y);
    }
    GroupUnique(refs, DereferencedPairs(before, txs));
  }

  /** The references a block drops, found by counting, or the first trouble met. */
  method DerefAddresses(spending: Objects, ghost before: Entries, txs: seq<Tx>) returns (r: Result<Refs, Trouble>)
    requires before == View(spending)
    ensures r == match BlockTrouble(before, txs)
                 case Some(e) => Failure(e)
                 case None => Success(GroupByAddress(DereferencedPairs(before, txs)))
  {
    var c := CountAddressOutputs(spending, before);
    var trouble, rest := SubtractBlock(c, spending, before, txs);
    if trouble.Some? {
      return Failure(trouble.value);
    }
    var refs := CollectZeros(rest);
    ZerosAreDereferenced(c, rest, before, txs, refs);
    r := Success(refs);
  }

  // --------------------------------------------------------------- references

  method AddReferences(r0: Refs, addresses: seq<Address>, t: TxId) returns (r: Refs)
    requires forall x :: x in r0 ==> r0[x] != {}
    ensures forall x, y :: InRefs(r, x, y) <==> InRefs(r0, x, y) || (y == t && x in addresses)
    ensures forall x :: x in r ==> r[x] != {}
  {
    r := r0;
    for k := 0 to |addresses|
      invariant forall x, y :: InRefs(r, x, y) <==> InRefs(r0, x, y) || (y == t && x in addresses[..k])
      invariant forall x :: x in r ==> r[x] != {}
    {
      assert addresses[..k + 1] == addresses[..k] + [addresses[k]];
      r := AddRef(r, addresses[k], t);
    }
    assert addresses[..|addresses|] == addresses;
  }

  method AddOutputReferences(r0: Refs, list: Outputs, t: TxId) returns (r: Refs)
    requires forall x :: x in r0 ==> r0[x] != {}
    ensures forall x, y :: InRefs(r, x, y) <==> InRefs(r0, x, y) || (y == t && Pays(list, x))
    ensures forall x :: x in r ==> r[x] != {}
  {
    r := r0;
    for v := 0 to |list|
      invariant forall x, y :: InRefs(r, x, y) <==> InRefs(r0, x, y) || (y == t && Pays(list[..v], x))
      invariant forall x :: x in r ==> r[x] != {}
    {
      forall x
        ensures Pays(list[..v + 1], x) <==> Pays(list[..v], x) || (list[v].Some? && x in list[v].value.addresses)
      {
        PaysStep(list, v, x);
      }
      if list[v].Some? {
        r := AddReferences(r, list[v].value.addresses, t);
      }
    }
    assert list[..|list|] == list;
  }

  /** The references a block adds: every address its spendable outputs pay. */
  method ExtractAddressReferencesFromOutputs(txs: seq<Tx>) returns (r: Refs)
    ensures r == GroupByAddress(NewPairs(txs))
  {
    r := map[];
    for j := 0 to |txs|
      invariant forall x, y :: InRefs(r, x, y) <==> exists i :: 0 <= i < j && txs[i].id == y && Pays(SpendableOutputs(txs[i]), x)
      invariant forall x :: x in r ==> r[x] != {}
    {
      var list := GetAllSpendableOutputs(txs[j]);
      r := AddOutputReferences(r, list, txs[j].id);
    }
    GroupUnique(r, NewPairs(txs));
  }

  // ------------------------------------------------------- the next checkpoint

  /** The checkpoint of a block over the stored database, or the reason there is none. */
  method NewCheckpointFromNextBlock(db: Db, block: Block) returns (r: Result<Checkpoint, BuildError>)
    ensures r == Build(db, block)
    ensures db.hash.None? ==>
              r == Success(Checkpoint(None, BlockPoint(block.height, block.hash), map[], map[], map[], map[]))
    ensures db.hash.Some? && block.height == db.height ==> r == Failure(NoDiff)
    ensures db.hash.Some? && block.height != db.height && block.height != db.height + 1 ==> r == Failure(NextBlockTooFar)
  {
    var next := BlockPoint(block.height, block.hash);
    if db.hash.None? {
      return Success(Checkpoint(None, next, map[], map[], map[], map[]));
    }
    if block.height == db.height {
      return Failure(NoDiff);
    }
    if db.height + 1 != block.height {
      return Failure(NextBlockTooFar);
    }
    var spending :- ExtractSpendingOutputsFromBlock(db.entries, block.txs);
    var before := map t | t in spending :: Entry(spending[t].height, spending[t].outputs[..]);
    assert before == View(spending) == Before(db.entries, block.txs);
    var dereferenced := DerefAddresses(spending, before, block.txs);
    if dereferenced.Failure? {
      return Failure(if dereferenced.error.NothingThere? then NilOutput else OutputNotFound);
    }
    var updated := SpendAllOutputs(spending, block.txs, block.height);
    if updated.Failure? {
      return Failure(OutputNotFound);
    }
    var entries := map t | t in updated.value :: Entry(updated.value[t].height, updated.value[t].outputs[..]);
    var references := ExtractAddressReferencesFromOutputs(block.txs);
    return Success(Checkpoint(Some(BlockPoint(db.height, db.hash.value)), next, before, dereferenced.value, entries, references));
  }
}
