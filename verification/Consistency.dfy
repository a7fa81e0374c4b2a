/** Reading the database: the restart's consistency check and the address lookup. */
module Consistency {
  import opened Wrappers
  import opened Ledger
  import opened Spending
  import opened Database

  datatype ReadError = BlockHashNotFound | EntryNotFound

  method IsAllSpent(outputs: Outputs) returns (r: bool)
    ensures r <==> AllSpent(outputs)
  {
    for v := 0 to |outputs|
      invariant forall i :: 0 <= i < v ==> outputs[i].None?
    {
      if outputs[v].Some? {
        return false;
      }
    }
    return true;
  }

  function TxIdsOf(index: Pairs, a: Address): (r: set<TxId>)
    ensures forall t :: t in r <==> (a, t) in index
  {
    var r := set p | p in index && p.0 == a :: p.1;
    assert forall t :: (a, t) in index ==> (a, t).1 in r;
    r
  }

  method AllReferenced(index: Pairs, refs: Refs) returns (r: bool)
    ensures r <==> PairsOf(refs) <= index
  {
    var left := refs.Keys;
    while left != {}
      invariant left <= refs.Keys
      invariant forall a, t :: a in refs && a !in left && t in refs[a] ==> (a, t) in index
      decreases left
    {
      var a :| a in left;
      if !(refs[a] <= TxIdsOf(index, a)) {
        ghost var t :| t in refs[a] && t !in TxIdsOf(index, a);
        assert (a, t) in PairsOf(refs);
        return false;
      }
      left := left - {a};
    }
    return true;
  }

  method NoneReferenced(index: Pairs, refs: Refs) returns (r: bool)
    ensures r <==> PairsOf(refs) !! index
  {
    var left := refs.Keys;
    while left != {}
      invariant left <= refs.Keys
      invariant forall a, t :: a in refs && a !in left && t in refs[a] ==> (a, t) !in index
      decreases left
    {
      var a :| a in left;
      if !(refs[a] !! TxIdsOf(index, a)) {
        ghost var t :| t in refs[a] && t in TxIdsOf(index, a);
        assert (a, t) in PairsOf(refs);
        return false;
      }
      left := left - {a};
    }
    return true;
  }

  /** The entry a commit would leave under an id is the one that is stored. */
  predicate EntryCurrent(entries: Entries, updated: Entries, t: TxId)
    requires t in updated
  {
    if AllSpent(updated[t].outputs) then t !in entries else t in entries && entries[t] == updated[t]
  }

  /** Hash, height and references are those that the checkpoint's block leaves. */
  predicate BlockIsNew(db: Db, cp: Checkpoint) {
    && db.hash == Some(cp.next.hash) && db.height == cp.next.height
    && PairsOf(cp.references) <= db.index && PairsOf(cp.dereferenced) !! db.index
  }

  lemma CurrentIsCommitted(db: Db, cp: Checkpoint)
    requires RefsDisjoint(cp)
    ensures Commit(db, cp) == db <==>
            BlockIsNew(db, cp) && forall t :: t in cp.updated ==> EntryCurrent(db.entries, cp.updated, t)
  {
    var c := Commit(db, cp);
    assert c.index == db.index <==> PairsOf(cp.references) <= db.index && PairsOf(cp.dereferenced) !! db.index;
    if forall t :: t in cp.updated ==> EntryCurrent(db.entries, cp.updated, t) {
      assert c.entries == db.entries;
    }
    if c.entries == db.entries {
      forall t | t in cp.updated ensures EntryCurrent(db.entries, cp.updated, t) {
        assert t in c.entries <==> !AllSpent(cp.updated[t].outputs);
      }
    }
  }

  /** A new entry that is not fully spent is not stored. */
  predicate MissingLive(db: Db, cp: Checkpoint, t: TxId) {
    t in cp.updated && !AllSpent(cp.updated[t].outputs) && t !in db.entries
  }

  ghost predicate CanGiveUp(db: Db, cp: Checkpoint) {
    BlockIsNew(db, cp) && exists t :: MissingLive(db, cp, t)
  }

  /** Besides missing entries nothing differs. */
  ghost predicate MustGiveUp(db: Db, cp: Checkpoint) {
    CanGiveUp(db, cp) && forall t :: t in cp.updated ==> EntryCurrent(db.entries, cp.updated, t) || MissingLive(db, cp, t)
  }

  /** "Already applied": the check answers yes exactly when replaying the checkpoint
      would change nothing. It gives up exactly without a block hash, or on coming to a
      missing live entry before any other difference: it may when there is one and hash,
      height and references are the new ones, and must when nothing else differs. */
  method IsConsistenceWithCheckpoint(db: Db, cp: Checkpoint) returns (r: Result<bool, ReadError>)
    requires RefsDisjoint(cp)
    ensures r == Success(true) <==> Commit(db, cp) == db
    ensures r == Failure(BlockHashNotFound) <==> db.hash.None?
    ensures r == Failure(EntryNotFound) ==> CanGiveUp(db, cp)
    ensures MustGiveUp(db, cp) ==> r == Failure(EntryNotFound)
  {
    CurrentIsCommitted(db, cp);
    if db.hash.None? {
      return Failure(BlockHashNotFound);
    }
    if db.hash.value != cp.next.hash || db.height != cp.next.height {
      return Success(false);
    }
    var all := AllReferenced(db.index, cp.references);
    if !all {
      return Success(false);
    }
    var none := NoneReferenced(db.index, cp.dereferenced);
    if !none {
      return Success(false);
    }
    var left := cp.updated.Keys;
    while left != {}
      invariant left <= cp.updated.Keys
      invariant forall t :: t in cp.updated && t !in left ==> EntryCurrent(db.entries, cp.updated, t)
      decreases left
    {
      var t :| t in left;
      var spent := IsAllSpent(cp.updated[t].outputs);
      if spent {
        if t in db.entries {
          assert !EntryCurrent(db.entries, cp.updated, t);
          return Success(false);
        }
      } else {
        if t !in db.entries {
          assert MissingLive(db, cp, t) && !EntryCurrent(db.entries, cp.updated, t);
          return Failure(EntryNotFound);
        }
        if db.entries[t] != cp.updated[t] {
          assert !EntryCurrent(db.entries, cp.updated, t);
          return Success(false);
        }
      }
      left := left - {t};
    }
    return Success(true);
  }

  // ------------------------------------------------------------------- lookup

  datatype UtxoEntry = UtxoEntry(point: OutPoint, coin: Coin)

  /** The list holds each coin of the map once and nothing else. */
  predicate Lists(r: seq<UtxoEntry>, u: Utxos) {
    && (forall i :: 0 <= i < |r| ==> r[i].point in u && r[i].coin == u[r[i].point])
    && (forall i, j :: 0 <= i < j < |r| ==> r[i].point != r[j].point)
    && (forall p :: p in u ==> exists i :: 0 <= i < |r| && r[i].point == p)
  }

  method PaysAddress(addresses: seq<Address>, a: Address) returns (found: bool)
    ensures found <==> a in addresses
  {
    for k := 0 to |addresses|
      invariant a !in addresses[..k]
    {
      if addresses[k] == a {
        return true;
      }
    }
    assert addresses[..|addresses|] == addresses;
    return false;
  }

  /** The part of a lookup found under some ids, up to an output position of one. */
  function PartOf(db: Db, a: Address, done: set<TxId>, t: TxId, v: nat): Utxos {
    map p | p in IndexLookup(db, a) && (p.txid in done || (p.txid == t && p.vout < v)) :: IndexLookup(db, a)[p]
  }

  lemma ListsAppend(r: seq<UtxoEntry>, u: Utxos, p: OutPoint, c: Coin)
    requires Lists(r, u) && p !in u
    ensures Lists(r + [UtxoEntry(p, c)], u[p := c])
  {
    var s, m := r + [UtxoEntry(p, c)], u[p := c];
    forall q | q in m ensures exists i :: 0 <= i < |s| && s[i].point == q {
      if q == p {
        assert s[|r|].point == p;
      } else {
        var i :| 0 <= i < |r| && r[i].point == q;
        assert s[i].point == q;
      }
    }
  }

  /** One more output position of an entry. */
  lemma PartMore(db: Db, a: Address, done: set<TxId>, t: TxId, v: nat)
    requires (a, t) in db.index && t in db.entries && t !in done && v < |db.entries[t].outputs|
    ensures var p, output := OutPoint(t, v), db.entries[t].outputs[v];
            var part := PartOf(db, a, done, t, v);
            p !in part && PartOf(db, a, done, t, v + 1) ==
                          if output.Some? && a in output.value.addresses
                          then part[p := Coin(output.value, db.entries[t].height)] else part
  {
    var p := OutPoint(t, v);
    assert p in IndexLookup(db, a) <==> Live(db.entries, p) && a in db.entries[t].outputs[v].value.addresses;
  }

  method LookupEntry(db: Db, a: Address, t: TxId, ghost done: set<TxId>, r0: seq<UtxoEntry>) returns (r: seq<UtxoEntry>)
    requires (a, t) in db.index && t in db.entries && t !in done
    requires Lists(r0, PartOf(db, a, done, t, 0))
    ensures Lists(r, PartOf(db, a, done, t, |db.entries[t].outputs|))
  {
    hide IndexLookup, PartOf, Lists;
    var entry := db.entries[t];
    r := r0;
    for v := 0 to |entry.outputs|
      invariant Lists(r, PartOf(db, a, done, t, v))
    {
      var p := OutPoint(t, v);
      ghost var part := PartOf(db, a, done, t, v);
      PartMore(db, a, done, t, v);
      var found := false;
      if entry.outputs[v].Some? {
        found := PaysAddress(entry.outputs[v].value.addresses, a);
      }
      if found {
        var c := Coin(entry.outputs[v].value, entry.height);
        ListsAppend(r, part, p, c);
        r := r + [UtxoEntry(p, c)];
      }
    }
  }

  lemma PartSteps(db: Db, a: Address, done: set<TxId>, t: TxId)
    requires t !in done
    ensures PartOf(db, a, done, t, 0) == PartOf(db, a, done, "", 0)
    ensures PartOf(db, a, done, t, if t in db.entries then |db.entries[t].outputs| else 0) == PartOf(db, a, done + {t}, "", 0)
  {
  }

  lemma PartBounds(db: Db, a: Address)
    ensures PartOf(db, a, {}, "", 0) == map[]
    ensures PartOf(db, a, TxIdsOf(db.index, a), "", 0) == IndexLookup(db, a)
  {
  }

  /** The lookup through the index: every live output paying the address exactly
      once; ids without an entry and outputs that pay others are passed over. */
  method GetUnspentOutputsByAddress(db: Db, a: Address) returns (r: seq<UtxoEntry>)
    ensures Lists(r, IndexLookup(db, a))
  {
    var ids := TxIdsOf(db.index, a);
    var left := ids;
    r := [];
    PartBounds(db, a);
    ghost var done: set<TxId> := {};
    while left != {}
      invariant left <= ids && done == ids - left
      invariant Lists(r, PartOf(db, a, done, "", 0))
      decreases left
    {
      var t :| t in left;
      PartSteps(db, a, done, t);
      if t in db.entries {
        r := LookupEntry(db, a, t, done, r);
      }
      left := left - {t};
      done := done + {t};
    }
    assert done == ids;
  }

  // --------------------------------------------------------- the up migration

  method StageEntries(stored: Entries, updated: Entries) returns (r: Entries)
    ensures r == CommitEntries(stored, updated)
  {
    r := stored;
    var left := updated.Keys;
    while left != {}
      invariant left <= updated.Keys
      invariant forall t :: t in updated && t !in left ==> EntryCurrent(r, updated, t)
      invariant forall t :: t !in updated || t in left ==> Lookup(r, t) == Lookup(stored, t)
      decreases left
    {
      var t :| t in left;
      var spent := IsAllSpent(updated[t].outputs);
      if spent {
        r := r - {t};
      } else {
        r := r[t := updated[t]];
      }
      left := left - {t};
    }
    forall t ensures Lookup(r, t) == Lookup(CommitEntries(stored, updated), t) {
      assert t in updated ==> EntryCurrent(r, updated, t);
    }
    LookupsEqual(r, CommitEntries(stored, updated));
  }

  lemma LookupsEqual(m: Entries, n: Entries)
    requires forall t :: Lookup(m, t) == Lookup(n, t)
    ensures m == n
  {
    forall t ensures t in m <==> t in n {
      assert Lookup(m, t) == Lookup(n, t);
    }
    forall t | t in m ensures m[t] == n[t] {
      assert Lookup(m, t) == Lookup(n, t);
    }
  }

  method StageReferences(index: Pairs, refs: Refs) returns (r: Pairs)
    ensures r == index + PairsOf(refs)
  {
    r := index;
    var left := refs.Keys;
    while left != {}
      invariant left <= refs.Keys
      invariant forall a, t :: (a, t) in r <==> (a, t) in index || (a in refs && a !in left && t in refs[a])
      decreases left
    {
      var a :| a in left;
      r := r + PairsAt(a, refs[a]);
      left := left - {a};
    }
    assert forall p: (Address, TxId) :: p in r <==> (p.0, p.1) in index + PairsOf(refs);
  }

  method StageDereferences(index: Pairs, refs: Refs) returns (r: Pairs)
    ensures r == index - PairsOf(refs)
  {
    r := index;
    var left := refs.Keys;
    while left != {}
      invariant left <= refs.Keys
      invariant forall a, t :: (a, t) in r <==> (a, t) in index && !(a in refs && a !in left && t in refs[a])
      decreases left
    {
      var a :| a in left;
      r := r - PairsAt(a, refs[a]);
      left := left - {a};
    }
    assert forall p: (Address, TxId) :: p in r <==> (p.0, p.1) in index - PairsOf(refs);
  }

  /** The commands the block's transaction queues, run on a copy. */
  method StageCommit(db: Db, cp: Checkpoint) returns (staged: Db)
    ensures staged == Commit(db, cp)
  {
    var entries := StageEntries(db.entries, cp.updated);
    var added := StageReferences(db.index, cp.references);
    var index := StageDereferences(added, cp.dereferenced);
    staged := Db(Some(cp.next.hash), cp.next.height, entries, index);
  }
}
