/** What the builder of checkpoints answers, said of the inputs and outputs of the block
    themselves: which blocks it refuses and why, and what it makes of the others. */
module Refusals {
  import opened Wrappers
  import opened Ledger
  import opened Spending
  import opened Database

  // -------------------------------------------------------- the first block ever

  /** On a store without a block any block is taken as the first one: nothing of it is
      stored but its hash and its height. */
  lemma FirstBlock(db: Db, block: Block)
    requires db.hash.None?
    ensures Build(db, block)
            == Success(Checkpoint(None, BlockPoint(block.height, block.hash), map[], map[], map[], map[]))
    ensures Commit(db, Build(db, block).value) == Db(Some(block.hash), block.height, db.entries, db.index)
  {
    assert CommitEntries(db.entries, map[]) == db.entries;
  }

  // -------------------------------------------------------- what inputs can name

  /** The ids of the block up to one transaction. */
  function IdsTo(txs: seq<Tx>, j: nat): set<TxId>
    requires j < |txs|
  {
    set k | 0 <= k <= j :: txs[k].id
  }

  predicate InputAt(txs: seq<Tx>, j: int, i: int) {
    0 <= j < |txs| && 0 <= i < |txs[j].inputs| && txs[j].inputs[i].Spending?
  }

  /** The input names neither a stored transaction nor one of the block up to its own. */
  predicate NamesNothing(stored: Entries, txs: seq<Tx>, j: int, i: int) {
    InputAt(txs, j, i) &&
    var p := txs[j].inputs[i].outpoint; p.txid !in IdsTo(txs, j) && p.txid !in stored
  }

  /** It names a stored transaction at an index past its outputs. */
  predicate NamesBeyond(stored: Entries, txs: seq<Tx>, j: int, i: int) {
    InputAt(txs, j, i) &&
    var p := txs[j].inputs[i].outpoint;
    p.txid !in IdsTo(txs, j) && p.txid in stored && p.vout >= |stored[p.txid].outputs|
  }

  /** It names a stored output that is spent already, or was never spendable. */
  predicate NamesSpent(stored: Entries, txs: seq<Tx>, j: int, i: int) {
    InputAt(txs, j, i) &&
    var p := txs[j].inputs[i].outpoint;
    p.txid !in IdsTo(txs, j) && p.txid in stored && p.vout < |stored[p.txid].outputs| && stored[p.txid].outputs[p.vout].None?
  }

  /** It names a transaction of the block, the last one with that id so far, at an index
      past its outputs. */
  ghost predicate NamesBeyondOwn(txs: seq<Tx>, j: int, i: int) {
    InputAt(txs, j, i) &&
    var p := txs[j].inputs[i].outpoint;
    exists k :: 0 <= k <= j && LastWith(txs, j, k, p.txid) && p.vout >= |txs[k].outputs|
  }

  ghost predicate LastWith(txs: seq<Tx>, j: nat, k: nat, t: TxId)
    requires k <= j < |txs|
  {
    txs[k].id == t && forall l :: k < l <= j ==> txs[l].id != t
  }

  /** Inputs come in the order of their transactions, and then of their places. */
  predicate Earlier(l: int, m: int, j: int, i: int) {
    l < j || (l == j && m < i)
  }

  lemma IdsToIs(txs: seq<Tx>, j: nat)
    requires j < |txs|
    ensures Ids(txs[..j + 1]) == IdsTo(txs, j)
  {
    assert forall k :: 0 <= k <= j ==> txs[..j + 1][k] == txs[k];
  }

  lemma IdsToPrefix(txs: seq<Tx>, n: nat, j: nat)
    requires j < n <= |txs|
    ensures IdsTo(txs[..n], j) == IdsTo(txs, j)
  {
    assert forall k :: 0 <= k <= j ==> txs[..n][k] == txs[k];
  }

  // --------------------------------------------------------- inputs that resolve

  lemma {:induction false} ResolvesExactly(stored: Entries, txs: seq<Tx>)
    ensures AllResolve(stored, txs) <==> forall j, i :: !NamesNothing(stored, txs, j, i)
    decreases |txs|
  {
    var n := |txs| - 1;
    if n >= 0 {
      ResolvesExactly(stored, txs[..n]);
      IdsToIs(txs, n);
      assert txs[..n + 1] == txs;
      forall j, i | 0 <= j < n ensures NamesNothing(stored, txs, j, i) <==> NamesNothing(stored, txs[..n], j, i) {
        IdsToPrefix(txs, n, j);
      }
      if i :| 0 <= i < |txs[n].inputs| && txs[n].inputs[i].Spending?
              && txs[n].inputs[i].outpoint.txid !in stored && txs[n].inputs[i].outpoint.txid !in Ids(txs) {
        assert NamesNothing(stored, txs, n, i);
      }
    }
  }

  // ----------------------------------------------------------- the first trouble

  /** The trouble with one input, the before-image being what is asked. */
  function TroubleAt(m: Entries, txs: seq<Tx>, j: int, i: int): Option<Trouble> {
    if InputAt(txs, j, i) then InputTrouble(m, IdsTo(txs, j), txs[j].inputs[i]) else None
  }

  lemma {:induction false} InputsFirst(m: Entries, ids: set<TxId>, inputs: seq<Input>) returns (i: int)
    ensures match InputsTrouble(m, ids, inputs)
            case None => forall k :: 0 <= k < |inputs| ==> InputTrouble(m, ids, inputs[k]) == None
            case Some(e) =>
              0 <= i < |inputs| && InputTrouble(m, ids, inputs[i]) == Some(e)
              && forall k :: 0 <= k < i ==> InputTrouble(m, ids, inputs[k]) == None
    decreases |inputs|
  {
    var n := |inputs| - 1;
    i := n;
    if n >= 0 {
      var k := InputsFirst(m, ids, inputs[..n]);
      if InputsTrouble(m, ids, inputs[..n]).Some? {
        i := k;
      }
    }
  }

  lemma {:induction false} BlockFirst(m: Entries, txs: seq<Tx>) returns (j: int, i: int)
    ensures match BlockTrouble(m, txs)
            case None => forall l, k :: TroubleAt(m, txs, l, k) == None
            case Some(e) =>
              TroubleAt(m, txs, j, i) == Some(e) && forall l, k :: Earlier(l, k, j, i) ==> TroubleAt(m, txs, l, k) == None
    decreases |txs|
  {
    hide InputTrouble, InputsTrouble;
    var n := |txs| - 1;
    j, i := n, 0;
    if n >= 0 {
      var l, k := BlockFirst(m, txs[..n]);
      forall l, k | l < n ensures TroubleAt(m, txs, l, k) == TroubleAt(m, txs[..n], l, k) {
        if 0 <= l {
          IdsToPrefix(txs, n, l);
        }
      }
      assert txs[..n + 1] == txs;
      IdsToIs(txs, n);
      i := InputsFirst(m, Ids(txs), txs[n].inputs);
      CoinbasesFine(m, Ids(txs), txs[n].inputs);
      if BlockTrouble(m, txs[..n]).Some? {
        j, i := l, k;
      }
    }
  }

  lemma CoinbasesFine(m: Entries, ids: set<TxId>, inputs: seq<Input>)
    ensures forall k :: 0 <= k < |inputs| && InputTrouble(m, ids, inputs[k]).Some? ==> inputs[k].Spending?
  {
  }

  /** The before-image has what the inputs name of what is stored. */
  lemma {:induction false} TouchedExactly(stored: Entries, txs: seq<Tx>, t: TxId)
    ensures t in Touched(stored, txs) <==> t in stored && exists j, i :: InputAt(txs, j, i) && txs[j].inputs[i].outpoint.txid == t
    decreases |txs|
  {
    var n := |txs| - 1;
    if n >= 0 {
      TouchedExactly(stored, txs[..n], t);
      if j, i :| InputAt(txs[..n], j, i) && txs[..n][j].inputs[i].outpoint.txid == t {
        assert InputAt(txs, j, i);
      }
      if i :| 0 <= i < |txs[n].inputs| && txs[n].inputs[i].Spending? && txs[n].inputs[i].outpoint.txid == t {
        assert InputAt(txs, n, i);
      }
      if j, i :| InputAt(txs, j, i) && txs[j].inputs[i].outpoint.txid == t {
        if j < n {
          assert InputAt(txs[..n], j, i);
        }
      }
    }
  }

  lemma TroubleIs(stored: Entries, txs: seq<Tx>, j: int, i: int)
    requires !NamesNothing(stored, txs, j, i)
    ensures TroubleAt(Before(stored, txs), txs, j, i)
            == if NamesBeyond(stored, txs, j, i) then Some(NoSuchOutput)
               else if NamesSpent(stored, txs, j, i) then Some(NothingThere)
               else None
  {
    if InputAt(txs, j, i) {
      TouchedExactly(stored, txs, txs[j].inputs[i].outpoint.txid);
    }
  }

  // ------------------------------------------------------- lists long enough

  /** How long the list of a transaction is after some transactions of the block. */
  function ListLength(m: Entries, txs: seq<Tx>, t: TxId): int {
    var n := |txs| - 1;
    if n < 0 then if t in m then |m[t].outputs| else -1
    else if txs[n].id == t then |txs[n].outputs|
    else ListLength(m, txs[..n], t)
  }

  function EntryLength(m: Entries, t: TxId): int {
    if t in m then |m[t].outputs| else -1
  }

  ghost predicate LongEnough(m: Entries, inputs: seq<Input>) {
    forall i :: 0 <= i < |inputs| && inputs[i].Spending? ==> inputs[i].outpoint.vout < EntryLength(m, inputs[i].outpoint.txid)
  }

  lemma {:induction false} InputsSucceedExactly(m: Entries, inputs: seq<Input>)
    ensures SpendInputs(m, inputs).Success? <==> LongEnough(m, inputs)
    ensures SpendInputs(m, inputs).Success? ==> SameShape(m, SpendInputs(m, inputs).value)
    decreases |inputs|
  {
    var n := |inputs| - 1;
    if n >= 0 {
      InputsSucceedExactly(m, inputs[..n]);
    }
  }

  /** The list that the input names is long enough when its turn comes. */
  predicate InRange(m: Entries, txs: seq<Tx>, j: int, i: int) {
    InputAt(txs, j, i) ==>
      txs[j].inputs[i].outpoint.vout < ListLength(m, txs[..j + 1], txs[j].inputs[i].outpoint.txid)
  }

  lemma InRangePrefix(m: Entries, txs: seq<Tx>, n: nat, j: int, i: int)
    requires j < n <= |txs|
    ensures InRange(m, txs[..n], j, i) <==> InRange(m, txs, j, i)
  {
    if 0 <= j {
      assert txs[..n][..j + 1] == txs[..j + 1];
    }
  }

  lemma LastInRange(m: Entries, txs: seq<Tx>, n: nat, added: Entries)
    requires |txs| == n + 1 && forall t :: EntryLength(added, t) == ListLength(m, txs, t)
    ensures LongEnough(added, txs[n].inputs) <==> forall i :: InRange(m, txs, n, i)
  {
    assert txs[..n + 1] == txs;
    if LongEnough(added, txs[n].inputs) {
      forall i ensures InRange(m, txs, n, i) {
      }
    } else {
      var i :| 0 <= i < |txs[n].inputs| && txs[n].inputs[i].Spending?
               && txs[n].inputs[i].outpoint.vout >= EntryLength(added, txs[n].inputs[i].outpoint.txid);
      assert !InRange(m, txs, n, i);
    }
  }

  lemma AddTxLengths(m: Entries, txs: seq<Tx>, m1: Entries, height: int)
    requires |txs| > 0 && forall t :: EntryLength(m1, t) == ListLength(m, txs[..|txs| - 1], t)
    ensures forall t :: EntryLength(AddTx(m1, txs[|txs| - 1], height), t) == ListLength(m, txs, t)
  {
    var init := txs[..|txs| - 1];
    forall t ensures EntryLength(AddTx(m1, txs[|txs| - 1], height), t) == ListLength(m, txs, t) {
      assert EntryLength(m1, t) == ListLength(m, init, t);
    }
  }

  lemma {:induction false} TxsSucceedExactly(m: Entries, txs: seq<Tx>, height: int)
    ensures SpendTxs(m, txs, height).Success? <==> forall j, i :: InRange(m, txs, j, i)
    ensures SpendTxs(m, txs, height).Success? ==>
              forall t :: EntryLength(SpendTxs(m, txs, height).value, t) == ListLength(m, txs, t)
    decreases |txs|
  {
    hide InRange, ListLength, AddTx, LongEnough, SpendInputs;
    var n := |txs| - 1;
    if n >= 0 {
      var init, last := txs[..n], txs[n];
      TxsSucceedExactly(m, init, height);
      forall j, i | j < n ensures InRange(m, init, j, i) <==> InRange(m, txs, j, i) {
        InRangePrefix(m, txs, n, j, i);
      }
      NotInputs(m, init);
      NotInputs(m, txs);
      if SpendTxs(m, init, height).Success? {
        var m1 := SpendTxs(m, init, height).value;
        AddTxLengths(m, txs, m1, height);
        LastInRange(m, txs, n, AddTx(m1, last, height));
        InputsSucceedExactly(AddTx(m1, last, height), last.inputs);
      }
    } else {
      NotInputs(m, txs);
      NoLengths(m, txs);
    }
  }

  lemma NotInputs(m: Entries, txs: seq<Tx>)
    ensures forall j, i :: !(0 <= j < |txs|) ==> InRange(m, txs, j, i)
  {
  }

  lemma NoLengths(m: Entries, txs: seq<Tx>)
    requires |txs| == 0
    ensures forall t :: ListLength(m, txs, t) == EntryLength(m, t)
  {
  }

  lemma {:induction false} ListLengthOwn(m: Entries, txs: seq<Tx>, j: nat, t: TxId) returns (k: int)
    requires j < |txs|
    ensures t !in IdsTo(txs, j) ==> ListLength(m, txs[..j + 1], t) == EntryLength(m, t)
    ensures t in IdsTo(txs, j) ==> 0 <= k <= j && LastWith(txs, j, k, t) && ListLength(m, txs[..j + 1], t) == |txs[k].outputs|
    decreases j
  {
    assert txs[..j + 1][..j] == txs[..j];
    k := j;
    if txs[j].id != t {
      if j > 0 {
        k := ListLengthOwn(m, txs, j - 1, t);
      }
    }
  }

  // ------------------------------------------------------------ when it refuses

  /** Every input names something. */
  ghost predicate AllNameSomething(stored: Entries, txs: seq<Tx>) {
    forall j, i :: !NamesNothing(stored, txs, j, i)
  }

  /** An input names a spent output, and none before it an output that is not there. */
  ghost predicate SpentFirst(stored: Entries, txs: seq<Tx>) {
    exists j, i :: NamesSpent(stored, txs, j, i) && NoneBeyondBefore(stored, txs, j, i)
  }

  ghost predicate NoneBeyondBefore(stored: Entries, txs: seq<Tx>, j: int, i: int) {
    forall l, k :: Earlier(l, k, j, i) ==> !NamesBeyond(stored, txs, l, k)
  }

  /** No input names anything but an output that is there and, if stored, unspent. */
  ghost predicate AllNameOutputs(stored: Entries, txs: seq<Tx>) {
    forall j, i :: !NamesBeyond(stored, txs, j, i) && !NamesSpent(stored, txs, j, i) && !NamesBeyondOwn(txs, j, i)
  }

  /** On a store that has a block the builder refuses a block exactly for these reasons,
      the first of them that holds. */
  lemma RefusedExactly(db: Db, block: Block)
    requires db.hash.Some?
    ensures Build(db, block) == Failure(NoDiff) <==> block.height == db.height
    ensures Build(db, block) == Failure(NextBlockTooFar) <==> block.height != db.height && block.height != db.height + 1
    ensures Build(db, block) == Failure(OutputsNotFound) <==>
            block.height == db.height + 1 && !AllNameSomething(db.entries, block.txs)
    ensures Build(db, block) == Failure(NilOutput) <==>
            block.height == db.height + 1 && AllNameSomething(db.entries, block.txs) && SpentFirst(db.entries, block.txs)
    ensures Build(db, block) == Failure(OutputNotFound) <==>
            block.height == db.height + 1 && AllNameSomething(db.entries, block.txs)
            && !SpentFirst(db.entries, block.txs) && !AllNameOutputs(db.entries, block.txs)
  {
    hide Before, BlockTrouble, SpendTxs, AllResolve, SpentFirst, AllNameOutputs, NewPairs, GroupByAddress;
    ResolvesExactly(db.entries, block.txs);
    if AllNameSomething(db.entries, block.txs) {
      var before := Before(db.entries, block.txs);
      TroubleExactly(db.entries, block.txs);
      if BlockTrouble(before, block.txs) == None {
        SpendsUnless(db.entries, block.txs, block.height);
      }
    }
  }

  lemma TroubleExactly(stored: Entries, txs: seq<Tx>)
    requires AllNameSomething(stored, txs)
    ensures BlockTrouble(Before(stored, txs), txs) == Some(NothingThere) <==> SpentFirst(stored, txs)
    ensures BlockTrouble(Before(stored, txs), txs) == None <==>
            forall j, i :: !NamesBeyond(stored, txs, j, i) && !NamesSpent(stored, txs, j, i)
    ensures BlockTrouble(Before(stored, txs), txs) != None ==> !AllNameOutputs(stored, txs)
  {
    hide Before, BlockTrouble, InputTrouble, NamesNothing, NamesBeyond, NamesSpent, TroubleAt;
    var m := Before(stored, txs);
    var j, i := BlockFirst(m, txs);
    forall l, k
      ensures TroubleAt(m, txs, l, k)
              == if NamesBeyond(stored, txs, l, k) then Some(NoSuchOutput)
                 else if NamesSpent(stored, txs, l, k) then Some(NothingThere) else None
    {
      TroubleIs(stored, txs, l, k);
    }
    Exclusive(stored, txs);
    if l, k :| NamesSpent(stored, txs, l, k) && NoneBeyondBefore(stored, txs, l, k) {
      assert TroubleAt(m, txs, l, k) == Some(NothingThere);
      assert !Earlier(l, k, j, i);
    }
    if BlockTrouble(m, txs) == Some(NothingThere) {
      assert NamesSpent(stored, txs, j, i) && NoneBeyondBefore(stored, txs, j, i);
    }
  }

  lemma Exclusive(stored: Entries, txs: seq<Tx>)
    ensures forall j, i :: !(NamesBeyond(stored, txs, j, i) && NamesSpent(stored, txs, j, i))
  {
  }

  /** Without trouble before it, spending fails for the block's own outputs alone. */
  lemma SpendsUnless(stored: Entries, txs: seq<Tx>, height: int)
    requires AllNameSomething(stored, txs)
    requires forall j, i :: !NamesBeyond(stored, txs, j, i) && !NamesSpent(stored, txs, j, i)
    ensures SpendTxs(Before(stored, txs), txs, height).Success? <==> AllNameOutputs(stored, txs)
  {
    hide Before, SpendTxs, ListLength, LastWith;
    var m := Before(stored, txs);
    TxsSucceedExactly(m, txs, height);
    forall j, i ensures InRange(m, txs, j, i) <==> !NamesBeyondOwn(txs, j, i) {
      if InputAt(txs, j, i) {
        OwnExactly(stored, txs, j, i);
      }
    }
  }

  lemma OwnExactly(stored: Entries, txs: seq<Tx>, j: int, i: int)
    requires InputAt(txs, j, i) && !NamesNothing(stored, txs, j, i) && !NamesBeyond(stored, txs, j, i)
    ensures txs[j].inputs[i].outpoint.vout < ListLength(Before(stored, txs), txs[..j + 1], txs[j].inputs[i].outpoint.txid)
            <==> !NamesBeyondOwn(txs, j, i)
  {
    var t := txs[j].inputs[i].outpoint.txid;
    TouchedExactly(stored, txs, t);
    var k := ListLengthOwn(Before(stored, txs), txs, j, t);
    forall l | 0 <= l <= j && LastWith(txs, j, l, t) ensures t in IdsTo(txs, j) && l == k {
      assert txs[l].id == t;
    }
  }

  // --------------------------------------------------------------- what it builds

  /** Some input of the block names the output. */
  ghost predicate NamedIn(txs: seq<Tx>, p: OutPoint) {
    exists j :: 0 <= j < |txs| && Spending(p) in txs[j].inputs
  }

  lemma {:induction false} InputsSpend(m: Entries, inputs: seq<Input>, t: TxId, v: nat)
    requires SpendInputs(m, inputs).Success? && t in m && v < |m[t].outputs|
    ensures var r := SpendInputs(m, inputs).value;
            t in r && r[t].height == m[t].height && |r[t].outputs| == |m[t].outputs|
            && r[t].outputs[v] == if Spending(OutPoint(t, v)) in inputs then None else m[t].outputs[v]
    decreases |inputs|
  {
    var n := |inputs| - 1;
    if n >= 0 {
      InputsSpend(m, inputs[..n], t, v);
      assert inputs == inputs[..n] + [inputs[n]];
    }
  }

  lemma NamedStep(txs: seq<Tx>, p: OutPoint)
    requires |txs| > 0
    ensures NamedIn(txs, p) <==> NamedIn(txs[..|txs| - 1], p) || Spending(p) in txs[|txs| - 1].inputs
  {
    var n := |txs| - 1;
    if j :| 0 <= j < n && Spending(p) in txs[..n][j].inputs {
      assert txs[j] == txs[..n][j];
    }
    if j :| 0 <= j < |txs| && Spending(p) in txs[j].inputs {
      if j < n {
        assert txs[..n][j] == txs[j];
      }
    }
  }

  lemma {:induction false} OldOutputsSpent(m: Entries, txs: seq<Tx>, height: int, t: TxId, v: nat)
    requires SpendTxs(m, txs, height).Success? && FreshIds(m.Keys, txs) && t in m
    ensures var r := SpendTxs(m, txs, height).value;
            t in r && r[t].height == m[t].height && |r[t].outputs| == |m[t].outputs|
            && (v < |m[t].outputs| ==>
                  r[t].outputs[v] == if NamedIn(txs, OutPoint(t, v)) then None else m[t].outputs[v])
    decreases |txs|
  {
    hide NamedIn;
    var n := |txs| - 1;
    if n >= 0 {
      OldOutputsSpent(m, txs[..n], height, t, v);
      var added := AddTx(SpendTxs(m, txs[..n], height).value, txs[n], height);
      InputsSucceedExactly(added, txs[n].inputs);
      if v < |m[t].outputs| {
        NamedStep(txs, OutPoint(t, v));
        InputsSpend(added, txs[n].inputs, t, v);
      }
    } else {
      NothingNamed(txs, OutPoint(t, v));
    }
  }

  lemma NothingNamed(txs: seq<Tx>, p: OutPoint)
    requires |txs| == 0
    ensures !NamedIn(txs, p)
  {
  }

  /** An id that is new after some transactions was named by none of their inputs. */
  lemma NewIsUnnamed(m: Entries, txs: seq<Tx>, height: int, p: OutPoint)
    requires SpendTxs(m, txs, height).Success? && p.txid !in m && p.txid !in Ids(txs)
    ensures !NamedIn(txs, p)
  {
    TxsSucceedExactly(m, txs, height);
    if j :| 0 <= j < |txs| && Spending(p) in txs[j].inputs {
      var i :| 0 <= i < |txs[j].inputs| && txs[j].inputs[i] == Spending(p);
      assert InRange(m, txs, j, i);
      var k := ListLengthOwn(m, txs, j, p.txid);
    }
  }

  lemma {:induction false} OwnOutputsSpent(m: Entries, txs: seq<Tx>, height: int, j: nat, v: nat)
    requires SpendTxs(m, txs, height).Success? && FreshIds(m.Keys, txs) && j < |txs|
    ensures var r, t := SpendTxs(m, txs, height).value, txs[j].id;
            t in r && r[t].height == height && |r[t].outputs| == |txs[j].outputs|
            && (v < |txs[j].outputs| ==>
                  r[t].outputs[v] == if NamedIn(txs, OutPoint(t, v)) || !txs[j].outputs[v].spendable then None
                                     else Some(txs[j].outputs[v].output))
    decreases |txs|
  {
    hide NamedIn;
    var n := |txs| - 1;
    var t := txs[j].id;
    var added := AddTx(SpendTxs(m, txs[..n], height).value, txs[n], height);
    InputsSucceedExactly(added, txs[n].inputs);
    if j < n {
      OwnOutputsSpent(m, txs[..n], height, j, v);
    } else {
      NewIsUnnamed(m, txs[..n], height, OutPoint(t, v));
    }
    if v < |txs[j].outputs| {
      NamedStep(txs, OutPoint(t, v));
      InputsSpend(added, txs[n].inputs, t, v);
    }
  }

  /** Some input of the block names an output of the transaction. */
  predicate NamesTx(txs: seq<Tx>, j: int, i: int, t: TxId) {
    InputAt(txs, j, i) && txs[j].inputs[i].outpoint.txid == t
  }

  /** A spendable output of the transaction pays the address. */
  predicate PaysAt(tx: Tx, v: int, a: Address) {
    0 <= v < |tx.outputs| && tx.outputs[v].spendable && a in tx.outputs[v].output.addresses
  }

  ghost predicate Referenced(txs: seq<Tx>, a: Address, t: TxId) {
    exists j, v :: 0 <= j < |txs| && txs[j].id == t && PaysAt(txs[j], v, a)
  }

  /** What an accepted block is made into. The blocks of before and after are
      named; the before-image is what is stored of the transactions that inputs name;
      the new entries are those and the block's own transactions; and a transaction of the
      block is referenced from every address that a spendable output of it pays. */
  lemma BuiltExactly(db: Db, block: Block)
    requires db.hash.Some? && Build(db, block).Success?
    ensures var cp := Build(db, block).value;
            cp.prev == Some(BlockPoint(db.height, db.hash.value)) && cp.next == BlockPoint(block.height, block.hash)
    ensures var cp := Build(db, block).value;
            forall t :: t in cp.before <==> t in db.entries && exists j, i :: NamesTx(block.txs, j, i, t)
    ensures var cp := Build(db, block).value;
            forall t :: t in cp.before ==> cp.before[t] == db.entries[t]
    ensures var cp := Build(db, block).value;
            forall a, t :: a in cp.references && t in cp.references[a] <==> Referenced(block.txs, a, t)
    ensures var cp := Build(db, block).value;
            forall t :: t in cp.updated <==> t in cp.before || exists j :: 0 <= j < |block.txs| && block.txs[j].id == t
  {
    hide BlockTrouble, SpendTxs, AllResolve, Touched, Referenced;
    var txs, before := block.txs, Before(db.entries, block.txs);
    var cp := Build(db, block).value;
    forall t ensures t in before <==> t in db.entries && exists j, i :: NamesTx(txs, j, i, t) {
      TouchedExactly(db.entries, txs, t);
      if j, i :| InputAt(txs, j, i) && txs[j].inputs[i].outpoint.txid == t {
        assert NamesTx(txs, j, i, t);
      }
    }
    SpendTxsKeys(before, txs, block.height);
    forall a, t ensures a in cp.references && t in cp.references[a] <==> Referenced(txs, a, t) {
      NewPairsExactly(txs, a, t);
    }
  }

  lemma NewPairsExactly(txs: seq<Tx>, a: Address, t: TxId)
    ensures (a, t) in NewPairs(txs) <==> Referenced(txs, a, t)
  {
    if j :| 0 <= j < |txs| && txs[j].id == t && Pays(SpendableOutputs(txs[j]), a) {
      PaysSpendable(txs[j], a);
      var v :| PaysAt(txs[j], v, a);
    }
    if j, v :| 0 <= j < |txs| && txs[j].id == t && PaysAt(txs[j], v, a) {
      PaysSpendable(txs[j], a);
    }
  }

  lemma PaysSpendable(tx: Tx, a: Address)
    ensures Pays(SpendableOutputs(tx), a) <==> exists v :: PaysAt(tx, v, a)
  {
    if v :| 0 <= v < |tx.outputs| && SpendableOutputs(tx)[v].Some? && a in SpendableOutputs(tx)[v].value.addresses {
      assert PaysAt(tx, v, a);
    }
    if v :| PaysAt(tx, v, a) {
      assert SpendableOutputs(tx)[v] == Some(tx.outputs[v].output);
    }
  }

  /** Its new entries when its ids are new, output by output: each in its place, unless
      an input of the block names it or it is not spendable. */
  lemma UpdatedExactly(db: Db, block: Block, v: nat)
    requires db.hash.Some? && Build(db, block).Success? && FreshIds(db.entries.Keys, block.txs)
    ensures var cp := Build(db, block).value;
            forall t :: t in cp.before ==>
              t in cp.updated && cp.updated[t].height == cp.before[t].height
              && |cp.updated[t].outputs| == |cp.before[t].outputs|
              && (v < |cp.before[t].outputs| ==>
                    cp.updated[t].outputs[v] == if NamedIn(block.txs, OutPoint(t, v)) then None else cp.before[t].outputs[v])
    ensures var cp := Build(db, block).value;
            forall j :: 0 <= j < |block.txs| ==>
              var t, outputs := block.txs[j].id, block.txs[j].outputs;
              t in cp.updated && cp.updated[t].height == block.height && |cp.updated[t].outputs| == |outputs|
              && (v < |outputs| ==>
                    cp.updated[t].outputs[v] == if NamedIn(block.txs, OutPoint(t, v)) || !outputs[v].spendable then None
                                                else Some(outputs[v].output))
  {
    hide BlockTrouble, SpendTxs, AllResolve, Touched, NamedIn, NewPairs, GroupByAddress;
    var cp := Build(db, block).value;
    forall t | t in cp.before
      ensures t in cp.updated && cp.updated[t].height == cp.before[t].height
              && |cp.updated[t].outputs| == |cp.before[t].outputs|
              && (v < |cp.before[t].outputs| ==>
                    cp.updated[t].outputs[v] == if NamedIn(block.txs, OutPoint(t, v)) then None else cp.before[t].outputs[v])
    {
      OldOutputsSpent(cp.before, block.txs, block.height, t, v);
    }
    forall j | 0 <= j < |block.txs|
      ensures var t, outputs := block.txs[j].id, block.txs[j].outputs;
              t in cp.updated && cp.updated[t].height == block.height && |cp.updated[t].outputs| == |outputs|
              && (v < |outputs| ==>
                    cp.updated[t].outputs[v] == if NamedIn(block.txs, OutPoint(t, v)) || !outputs[v].spendable then None
                                                else Some(outputs[v].output))
    {
      OwnOutputsSpent(cp.before, block.txs, block.height, j, v);
    }
  }

  /** The references that a valid block drops: those of outputs that paid the address
      before, when none is left that does. */
  lemma DroppedExactly(db: Db, u: Utxos, known: set<TxId>, block: Block, a: Address, t: TxId)
    requires Represents(db, u, known) && ValidBlock(u, known, block)
    requires db.hash.Some? && block.height == db.height + 1
    ensures Build(db, block).Success?
    ensures var cp := Build(db, block).value;
            a in cp.dereferenced && t in cp.dereferenced[a] <==>
            t in cp.before && t in cp.updated && Pays(cp.before[t].outputs, a) && !Pays(cp.updated[t].outputs, a)
  {
    BuildSucceeds(db, u, known, block);
    hide Build, SpendTxs, ValidTxs, Unspent, Created, Touched;
    var cp := Build(db, block).value;
    DereferenceExact(db.entries, cp.before, block.txs, block.height, a, t);
  }
}
