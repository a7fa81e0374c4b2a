/** Migrating a chainstate snapshot: grouping a stream of unspent outputs into one
    sparse list per transaction, storing the lists in batches, and resuming after an
    interruption by probing the last id of each batch. */
module Migration {
  import opened Wrappers
  import opened Ledger
  import opened Spending
  import opened Database
  import opened Staleness

  /** One unspent output of the snapshot. The index is the 64-bit one read as an int. */
  datatype Record = Record(txid: TxId, index: int, output: Output, height: int)

  type Sparse = seq<Option<Record>>

  datatype Group = Group(txid: TxId, list: Sparse)

  datatype TxEntry = TxEntry(txid: TxId, entry: Entry)

  datatype MigrateError = NoNegativePlaces | Interrupted | StoreFailed

  // -------------------------------------------------------------- sparse lists

  /** The list with `x` at `place`, padded with nothing up to it. */
  function Placed<T>(s: seq<Option<T>>, place: int, x: T): (r: seq<Option<T>>)
    ensures place >= 0 ==> place < |r| && r[place] == Some(x) && |r| == (if place < |s| then |s| else place + 1)
    ensures place >= 0 ==> forall i :: 0 <= i < |r| && i != place ==> r[i] == (if i < |s| then s[i] else None)
  {
    if place < 0 then s
    else if place < |s| then s[place := Some(x)]
    else s + seq(place - |s|, _ => None) + [Some(x)]
  }

  /** Puts an element at a place of a list, writing in place when it fits. */
  method PushElementToPlace<T>(list: array<Option<T>>, element: T, place: int)
    returns (r: Result<array<Option<T>>, MigrateError>)
    modifies list
    ensures place < 0 <==> r.Failure?
    ensures r.Failure? ==> r.error == NoNegativePlaces && list[..] == old(list[..])
    ensures r.Success? ==> r.value[..] == Placed(old(list[..]), place, element)
    ensures r.Success? ==> r.value == list || fresh(r.value)
  {
    if place < 0 {
      return Failure(NoNegativePlaces);
    }
    if list.Length > place {
      list[place] := Some(element);
      return Success(list);
    }
    var longer := new Option<T>[place + 1](_ => None);
    longer[place] := Some(element);
    for i := 0 to list.Length
      invariant forall j :: 0 <= j < i ==> longer[j] == list[j]
      invariant forall j :: i <= j < place ==> longer[j] == None
      invariant longer[place] == Some(element) && list[..] == old(list[..])
    {
      longer[i] := list[i];
    }
    assert longer[..] == Placed(old(list[..]), place, element);
    return Success(longer);
  }

  // ------------------------------------------------------------------ grouping

  /** The groups of a stream: a record continues the last group or opens a new one. */
  function Grouped(records: seq<Record>): seq<Group> {
    if |records| == 0 then []
    else
      var n := |records| - 1;
      Extended(Grouped(records[..n]), records[n])
  }

  function Extended(groups: seq<Group>, r: Record): seq<Group> {
    var n := |groups| - 1;
    if n >= 0 && groups[n].txid == r.txid
    then groups[..n] + [Group(r.txid, Placed(groups[n].list, r.index, r))]
    else groups + [Group(r.txid, Placed([], r.index, r))]
  }

  /** A later record leaves every group but the last as it is. */
  lemma {:induction false} GroupsGrow(records: seq<Record>, i: nat)
    requires i <= |records|
    ensures |Grouped(records[..i])| <= |Grouped(records)|
    ensures forall m :: 0 <= m < |Grouped(records[..i])| - 1 ==> Grouped(records)[m] == Grouped(records[..i])[m]
    ensures i > 0 ==> |Grouped(records[..i])| > 0
    decreases |records|
  {
    if i == |records| {
      assert records[..i] == records;
    } else {
      assert records[..|records| - 1][..i] == records[..i];
      GroupsGrow(records[..|records| - 1], i);
    }
  }

  ghost predicate Contiguous(records: seq<Record>) {
    forall i, j, k :: 0 <= i < j < k < |records| && records[i].txid == records[k].txid ==> records[j].txid == records[i].txid
  }

  ghost predicate UniqueKeys(records: seq<Record>) {
    forall i, j :: 0 <= i < j < |records| ==> records[i].txid != records[j].txid || records[i].index != records[j].index
  }

  ghost predicate NonNegative(records: seq<Record>) {
    forall i :: 0 <= i < |records| ==> records[i].index >= 0
  }

  ghost predicate DistinctGroups(groups: seq<Group>) {
    forall m, n :: 0 <= m < n < |groups| ==> groups[m].txid != groups[n].txid
  }

  /** What a group of a stream must be: nothing but the stream's records of one
      transaction, each at its index, and a last element that is there. */
  ghost predicate GroupOf(records: seq<Record>, g: Group) {
    && |g.list| > 0 && g.list[|g.list| - 1].Some?
    && forall i :: 0 <= i < |g.list| && g.list[i].Some? ==>
         g.list[i].value in records && g.list[i].value.txid == g.txid && g.list[i].value.index == i
  }

  lemma GroupOfGrows(records: seq<Record>, n: nat, g: Group)
    requires n <= |records| && GroupOf(records[..n], g)
    ensures GroupOf(records, g)
  {
    forall i | 0 <= i < |g.list| && g.list[i].Some? ensures g.list[i].value in records {
      assert g.list[i].value in records[..n];
    }
  }

  lemma PlacedGroup(records: seq<Record>, list: Sparse, r: Record)
    requires list == [] || GroupOf(records, Group(r.txid, list))
    requires r in records && r.index >= 0
    ensures GroupOf(records, Group(r.txid, Placed(list, r.index, r)))
  {
    var g, h := Group(r.txid, list), Placed(list, r.index, r);
    forall i | 0 <= i < |h| && h[i].Some?
      ensures h[i].value in records && h[i].value.txid == r.txid && h[i].value.index == i
    {
      if i != r.index { assert g.list[i] == h[i]; }
    }
  }

  lemma {:induction false} GroupsSound(records: seq<Record>)
    requires NonNegative(records)
    ensures forall m :: 0 <= m < |Grouped(records)| ==> GroupOf(records, Grouped(records)[m])
    decreases |records|
  {
    var n := |records| - 1;
    if n >= 0 {
      GroupsSound(records[..n]);
      var before, r := Grouped(records[..n]), records[n];
      forall m | 0 <= m < |Grouped(records)| ensures GroupOf(records, Grouped(records)[m]) {
        if m < |before| {
          GroupOfGrows(records, n, before[m]);
          if m == |before| - 1 && before[m].txid == r.txid {
            PlacedGroup(records, before[m].list, r);
          }
        } else {
          PlacedGroup(records, [], r);
        }
      }
    }
  }

  lemma LastGroupId(records: seq<Record>)
    requires |records| > 0
    ensures |Grouped(records)| > 0 && Grouped(records)[|Grouped(records)| - 1].txid == records[|records| - 1].txid
  {
  }

  lemma ExtendedIds(groups: seq<Group>, r: Record)
    ensures |groups| <= |Extended(groups, r)| <= |groups| + 1
    ensures forall m :: 0 <= m < |groups| ==> Extended(groups, r)[m].txid == groups[m].txid
    ensures |groups| < |Extended(groups, r)| ==> Extended(groups, r)[|groups|].txid == r.txid
  {
  }

  /** The id of a group is that of some record. */
  lemma {:induction false} GroupIds(records: seq<Record>, m: nat) returns (i: nat)
    requires m < |Grouped(records)|
    ensures i < |records| && records[i].txid == Grouped(records)[m].txid
    decreases |records|
  {
    var n := |records| - 1;
    ExtendedIds(Grouped(records[..n]), records[n]);
    if m < |Grouped(records[..n])| {
      i := GroupIds(records[..n], m);
    } else {
      i := n;
    }
  }

  lemma {:induction false} GroupsDistinct(records: seq<Record>)
    requires Contiguous(records)
    ensures DistinctGroups(Grouped(records))
    decreases |records|
  {
    var n := |records| - 1;
    if n >= 0 {
      GroupsDistinct(records[..n]);
      var before := Grouped(records[..n]);
      if n > 0 {
        LastGroupId(records[..n]);
      }
      if n > 0 && records[n - 1].txid != records[n].txid {
        forall m | 0 <= m < |before| ensures before[m].txid != records[n].txid {
          var i := GroupIds(records[..n], m);
          assert records[i].txid == before[m].txid;
        }
      }
      ExtendedDistinct(before, records[n]);
    }
  }

  lemma ExtendedDistinct(groups: seq<Group>, r: Record)
    requires DistinctGroups(groups)
    requires forall m :: 0 <= m < |groups| ==> groups[m].txid == r.txid ==> m == |groups| - 1
    ensures DistinctGroups(Extended(groups, r))
  {
  }

  /** A record is somewhere in the groups. */
  ghost predicate Holds(groups: seq<Group>, r: Record) {
    exists m :: 0 <= m < |groups| && HoldsAt(groups[m], r)
  }

  predicate HoldsAt(g: Group, r: Record) {
    g.txid == r.txid && 0 <= r.index < |g.list| && g.list[r.index] == Some(r)
  }

  lemma ExtendedHolds(groups: seq<Group>, r: Record, last: Record)
    requires last.index >= 0
    requires r == last || (Holds(groups, r) && (r.txid != last.txid || r.index != last.index))
    ensures Holds(Extended(groups, last), r)
  {
    var after := Extended(groups, last);
    if r == last {
      assert HoldsAt(after[|after| - 1], r);
    } else {
      var m :| 0 <= m < |groups| && HoldsAt(groups[m], r);
      assert HoldsAt(after[m], r);
    }
  }

  lemma {:induction false} GroupsComplete(records: seq<Record>, i: nat)
    requires UniqueKeys(records) && NonNegative(records) && i < |records|
    ensures Holds(Grouped(records), records[i])
    decreases |records|
  {
    var n := |records| - 1;
    if i < n {
      GroupsComplete(records[..n], i);
    }
    ExtendedHolds(Grouped(records[..n]), records[i], records[n]);
  }

  /** Grouping: for a stream whose records are contiguous by transaction, every
      transaction has exactly one group, with each output at its index, nothing
      elsewhere, and an output in the last place. */
  lemma GroupingExact(records: seq<Record>)
    requires Contiguous(records) && UniqueKeys(records) && NonNegative(records)
    ensures DistinctGroups(Grouped(records))
    ensures forall m :: 0 <= m < |Grouped(records)| ==> GroupOf(records, Grouped(records)[m])
    ensures forall r :: r in records <==> Holds(Grouped(records), r)
  {
    GroupsDistinct(records);
    GroupsSound(records);
    forall r ensures r in records <==> Holds(Grouped(records), r) {
      if i :| 0 <= i < |records| && records[i] == r {
        GroupsComplete(records, i);
      }
      if Holds(Grouped(records), r) {
        var m :| 0 <= m < |Grouped(records)| && HoldsAt(Grouped(records)[m], r);
        assert GroupOf(records, Grouped(records)[m]);
      }
    }
  }

  // ------------------------------------------------------------------- entries

  function OutputsOf(list: Sparse): (r: Outputs)
    ensures |r| == |list|
  {
    seq(|list|, i requires 0 <= i < |list| => if list[i].Some? then Some(list[i].value.output) else None)
  }

  /** A group as stored; the height is the last output's. */
  function EntryOf(g: Group): TxEntry {
    var n := |g.list| - 1;
    TxEntry(g.txid, Entry(if n >= 0 && g.list[n].Some? then g.list[n].value.height else 0, OutputsOf(g.list)))
  }

  function EntriesOf(groups: seq<Group>): (r: seq<TxEntry>)
    ensures |r| == |groups|
  {
    seq(|groups|, m requires 0 <= m < |groups| => EntryOf(groups[m]))
  }

  /** What a whole run stores, in order. */
  function AllEntries(records: seq<Record>): seq<TxEntry> {
    EntriesOf(Grouped(records))
  }

  function MapOf(list: seq<TxEntry>): (m: Entries)
    ensures m.Keys == set i | 0 <= i < |list| :: list[i].txid
  {
    if |list| == 0 then map[]
    else MapOf(list[..|list| - 1])[list[|list| - 1].txid := list[|list| - 1].entry]
  }

  predicate DistinctIds(list: seq<TxEntry>) {
    forall i, j :: 0 <= i < j < |list| ==> list[i].txid != list[j].txid
  }

  lemma {:induction false} MapOfAt(list: seq<TxEntry>, i: nat)
    requires DistinctIds(list) && i < |list|
    ensures list[i].txid in MapOf(list) && MapOf(list)[list[i].txid] == list[i].entry
    decreases |list|
  {
    if i < |list| - 1 {
      MapOfAt(list[..|list| - 1], i);
    }
  }

  lemma SliceDistinct(list: seq<TxEntry>, lo: nat, hi: nat)
    requires DistinctIds(list) && lo <= hi <= |list|
    ensures DistinctIds(list[lo..hi])
  {
  }

  lemma SliceHas(list: seq<TxEntry>, lo: nat, hi: nat, i: nat)
    requires DistinctIds(list) && lo <= i < hi <= |list|
    ensures Lookup(MapOf(list[lo..hi]), list[i].txid) == Some(list[i].entry)
  {
    SliceDistinct(list, lo, hi);
    MapOfAt(list[lo..hi], i - lo);
  }

  lemma SliceLacks(list: seq<TxEntry>, lo: nat, hi: nat, t: TxId)
    requires lo <= hi <= |list| && forall i :: lo <= i < hi ==> list[i].txid != t
    ensures Lookup(MapOf(list[lo..hi]), t) == None
  {
  }

  lemma SliceLookup(list: seq<TxEntry>, lo: nat, hi: nat, i: nat)
    requires DistinctIds(list) && lo <= hi <= |list| && i < |list|
    ensures Lookup(MapOf(list[lo..hi]), list[i].txid) == if lo <= i < hi then Some(list[i].entry) else None
  {
    if lo <= i < hi {
      SliceHas(list, lo, hi, i);
    } else {
      SliceLacks(list, lo, hi, list[i].txid);
    }
  }

  lemma MapOfSliceAt(list: seq<TxEntry>, k: nat, lo: nat, hi: nat, t: TxId)
    requires DistinctIds(list) && lo <= k <= |list| && lo <= hi <= |list|
    ensures var top := if k > hi then k else hi;
            Lookup(MapOf(list[0..k]) + MapOf(list[lo..hi]), t) == Lookup(MapOf(list[0..top]), t)
  {
    var top := if k > hi then k else hi;
    if i :| 0 <= i < |list| && list[i].txid == t {
      SliceLookup(list, 0, k, i);
      SliceLookup(list, lo, hi, i);
      SliceLookup(list, 0, top, i);
    } else {
      SliceLacks(list, 0, k, t);
      SliceLacks(list, lo, hi, t);
      SliceLacks(list, 0, top, t);
    }
  }

  /** Storing a slice over a stored prefix that reaches it gives a longer prefix. */
  lemma MapOfSlice(list: seq<TxEntry>, k: nat, lo: nat, hi: nat)
    requires DistinctIds(list) && lo <= k <= |list| && lo <= hi <= |list|
    ensures MapOf(list[..k]) + MapOf(list[lo..hi]) == MapOf(list[..if k > hi then k else hi])
  {
    var a, c := MapOf(list[..k]) + MapOf(list[lo..hi]), MapOf(list[..if k > hi then k else hi]);
    forall t ensures Lookup(a, t) == Lookup(c, t) {
      MapOfSliceAt(list, k, lo, hi, t);
      assert list[0..k] == list[..k] && list[0..if k > hi then k else hi] == list[..if k > hi then k else hi];
    }
    SameLookups(a, c);
  }

  lemma SameLookups(m: Entries, n: Entries)
    requires forall t :: Lookup(m, t) == Lookup(n, t)
    ensures m == n
  {
    forall t ensures (t in m <==> t in n) && (t in m ==> m[t] == n[t]) {
      assert Lookup(m, t) == Lookup(n, t);
    }
  }

  // ------------------------------------------------------------------- storing

  lemma PaidUnion(a: Entries, b: Entries)
    requires forall t :: t in a && t in b ==> a[t] == b[t]
    ensures PaidPairs(a + b) == PaidPairs(a) + PaidPairs(b)
  {
    forall p: (Address, TxId) ensures p in PaidPairs(a + b) <==> p in PaidPairs(a) + PaidPairs(b) {
      assert (p.0, p.1) == p;
    }
  }

  lemma SlicesAgree(list: seq<TxEntry>, k: nat, lo: nat, hi: nat, t: TxId)
    requires DistinctIds(list) && k <= |list| && lo <= hi <= |list|
    requires t in MapOf(list[..k]) && t in MapOf(list[lo..hi])
    ensures MapOf(list[..k])[t] == MapOf(list[lo..hi])[t]
  {
    assert list[0..k] == list[..k];
    var i :| 0 <= i < k && list[..k][i].txid == t;
    SliceLookup(list, 0, k, i);
    SliceLookup(list, lo, hi, i);
  }

  /** The first `k` transactions of the snapshot are stored, with their references,
      and nothing else is. */
  ghost predicate PrefixStored(entries: Entries, index: Pairs, all: seq<TxEntry>, k: nat) {
    k <= |all| && entries == MapOf(all[..k]) && index == PaidPairs(entries)
  }

  lemma BatchExtendsPrefix(entries: Entries, index: Pairs, all: seq<TxEntry>, k: nat, lo: nat, hi: nat)
    requires DistinctIds(all) && PrefixStored(entries, index, all, k) && lo <= k && lo <= hi <= |all|
    ensures var b := MapOf(all[lo..hi]);
            PrefixStored(entries + b, index + PaidPairs(b), all, if k > hi then k else hi)
  {
    var b := MapOf(all[lo..hi]);
    forall t | t in entries && t in b ensures entries[t] == b[t] {
      SlicesAgree(all, k, lo, hi, t);
    }
    PaidUnion(entries, b);
    MapOfSlice(all, k, lo, hi);
  }

  /** Probing one id of a distinct list tells whether the prefix reaches past it. */
  lemma ProbeTells(entries: Entries, index: Pairs, all: seq<TxEntry>, k: nat, i: nat)
    requires DistinctIds(all) && PrefixStored(entries, index, all, k) && i < |all|
    ensures all[i].txid in entries <==> i < k
  {
    assert all[0..k] == all[..k];
    SliceLookup(all, 0, k, i);
  }

  /** The store migrated into. */
  class Target {
    var entries: Entries
    var index: Pairs
    var hash: Option<Hash>
    var height: int

    /** Whether all requests succeed and say so. */
    const reliable: bool

    /** How many requests were reported as failed. */
    ghost var faults: nat

    constructor (reliable: bool)
      ensures entries == map[] && index == {} && hash == None && faults == 0 && this.reliable == reliable
    {
      entries, index, hash, height := map[], {}, None, 0;
      faults := 0;
      this.reliable := reliable;
    }

    ghost function Contents(): Db
      reads this
    {
      Db(hash, height, entries, index)
    }

    /** References of one transaction, each address of each live output. */
    method CreateAddressUTXOTxIdIndex(index0: Pairs, t: TxId, outputs: Outputs) returns (r: Pairs)
      ensures forall a, u :: (a, u) in r <==> (a, u) in index0 || (u == t && Pays(outputs, a))
    {
      r := index0;
      for v := 0 to |outputs|
        invariant forall a, u :: (a, u) in r <==> (a, u) in index0 || (u == t && Pays(outputs[..v], a))
      {
        forall a
          ensures Pays(outputs[..v + 1], a) <==>
                  Pays(outputs[..v], a) || (outputs[v].Some? && a in outputs[v].value.addresses)
        {
          PaysStep(outputs, v, a);
        }
        if outputs[v].Some? {
          var addresses := outputs[v].value.addresses;
          r := r + set k | 0 <= k < |addresses| :: (addresses[k], t);
        }
      }
      assert outputs[..|outputs|] == outputs;
    }

    /** Stores a batch in one transaction: all of it or nothing, and either may be
        reported as a failure. */
    method AddTransactionOutputsBatch(batch: Entries) returns (ok: bool)
      modifies this`entries, this`index, this`faults
      ensures (faults == old(faults) + if ok then 0 else 1) && (reliable ==> ok)
      ensures (entries == old(entries) + batch && index == old(index) + PaidPairs(batch))
              || (!ok && entries == old(entries) && index == old(index))
    {
      var staged, refs := entries, index;
      var left := batch.Keys;
      while left != {}
        invariant left <= batch.Keys && entries == old(entries) && index == old(index) && faults == old(faults)
        invariant forall t :: Lookup(staged, t) == if t in batch && t !in left then Some(batch[t]) else Lookup(entries, t)
        invariant forall a, t :: (a, t) in refs <==> (a, t) in index || (t in batch && t !in left && Pays(batch[t].outputs, a))
        decreases left
      {
        var t :| t in left;
        staged := staged[t := batch[t]];
        refs := CreateAddressUTXOTxIdIndex(refs, t, batch[t].outputs);
        left := left - {t};
      }
      SameLookups(staged, entries + batch);
      assert forall p: (Address, TxId) :: p in refs <==> (p.0, p.1) in index + PaidPairs(batch);
      var before, after: bool := *, *;
      if before && !reliable {
        faults := faults + 1;
        return false;
      }
      entries, index := staged, refs;
      if after && !reliable {
        faults := faults + 1;
        return false;
      }
      return true;
    }

    method SetBlockHash(h: Hash) returns (ok: bool)
      modifies this`hash, this`faults
      ensures (faults == old(faults) + if ok then 0 else 1) && (reliable ==> ok)
      ensures hash == Some(h) || (!ok && hash == old(hash))
    {
      var before, after: bool := *, *;
      if before && !reliable {
        faults := faults + 1;
        return false;
      }
      hash := Some(h);
      if after && !reliable {
        faults := faults + 1;
        return false;
      }
      return true;
    }

    method SetBlockHeight(n: int) returns (ok: bool)
      modifies this`height, this`faults
      ensures (faults == old(faults) + if ok then 0 else 1) && (reliable ==> ok)
      ensures height == n || (!ok && height == old(height))
    {
      var before, after: bool := *, *;
      if before && !reliable {
        faults := faults + 1;
        return false;
      }
      height := n;
      if after && !reliable {
        faults := faults + 1;
        return false;
      }
      return true;
    }

    /** Whether the outputs of a transaction are stored, or nothing when the request
        fails. */
    method AreExistsOutputs(t: TxId) returns (r: Option<bool>)
      modifies this`faults
      ensures (faults == old(faults) + if r.Some? then 0 else 1) && (reliable ==> r.Some?)
      ensures r.Some? ==> (r.value <==> t in entries)
    {
      var fails: bool := *;
      if fails && !reliable {
        faults := faults + 1;
        return None;
      }
      return Some(t in entries);
    }
  }

  // ----------------------------------------------------------------- migrating

  lemma AllEntriesDistinct(records: seq<Record>)
    requires Contiguous(records)
    ensures DistinctIds(AllEntries(records))
  {
    GroupsDistinct(records);
  }

  /** The groups before the last are final: as entries they are what the whole run
      stores at their positions. */
  lemma FinishedGroups(records: seq<Record>, i: nat, m: nat)
    requires i <= |records| && m + 1 < |Grouped(records[..i])|
    ensures m < |AllEntries(records)| && AllEntries(records)[m] == EntryOf(Grouped(records[..i])[m])
  {
    GroupsGrow(records, i);
  }

  method ConvertUTXOlistToTransactionOutputList(list: array<Option<Record>>) returns (r: Outputs)
    ensures r == OutputsOf(list[..]) && |r| == list.Length
    ensures forall v :: 0 <= v < |r| ==> r[v] == if list[v].Some? then Some(list[v].value.output) else None
  {
    r := [];
    for i := 0 to list.Length
      invariant r == OutputsOf(list[..i])
    {
      assert list[..i + 1] == list[..i] + [list[i]];
      r := r + [if list[i].Some? then Some(list[i].value.output) else None];
    }
    assert list[..list.Length] == list[..];
  }

  /** All batches one after the other. */
  function Flatten(batches: seq<seq<TxEntry>>): seq<TxEntry> {
    if |batches| == 0 then [] else Flatten(batches[..|batches| - 1]) + batches[|batches| - 1]
  }

  ghost predicate NonNegativeTo(records: seq<Record>, n: nat)
    requires n <= |records|
  {
    forall i :: 0 <= i < n ==> records[i].index >= 0
  }

  /** Every batch has something in it and no more than the batch size. */
  ghost predicate Sized(batches: seq<seq<TxEntry>>, size: nat) {
    size >= 1 ==> forall k :: 0 <= k < |batches| ==> 0 < |batches[k]| <= size
  }

  /** How many groups are closed once `i` records were read. */
  ghost function Closed(records: seq<Record>, i: nat): nat
    requires i <= |records|
  {
    if i == 0 then 0 else LastGroupId(records[..i]); |Grouped(records[..i])| - 1
  }

  /** The list being filled is the last group of the records read. */
  ghost predicate Filling(records: seq<Record>, i: nat, t: TxId, list: Sparse)
    requires i <= |records|
  {
    var g := Grouped(records[..i]);
    if i == 0 then list == [] else |list| > 0 && |g| > 0 && g[|g| - 1] == Group(t, list)
  }

  /** What was handed over and what waits in the batch are the first `n` transactions. */
  ghost predicate Pending(all: seq<TxEntry>, done: seq<TxEntry>, batch: seq<TxEntry>, n: nat) {
    n <= |all| && done + batch == all[..n]
  }

  /** One more record extends the groups. */
  lemma NextRecord(records: seq<Record>, i: nat)
    requires i < |records|
    ensures Grouped(records[..i + 1]) == Extended(Grouped(records[..i]), records[i])
  {
    assert records[..i + 1][..i] == records[..i];
  }

  lemma NothingPending(records: seq<Record>, all: seq<TxEntry>, size: nat)
    ensures Sized([], size) && Pending(all, Flatten([]), [], Closed(records, 0))
  {
  }

  lemma PendingFlushed(all: seq<TxEntry>, done: seq<TxEntry>, batch: seq<TxEntry>, n: nat)
    requires Pending(all, done, batch, n)
    ensures Pending(all, done + batch, [], n)
  {
    assert done + batch + [] == done + batch;
  }

  method CloseGroup(list: array<Option<Record>>, t: TxId) returns (e: TxEntry)
    requires list.Length > 0 && list[list.Length - 1].Some?
    ensures e == EntryOf(Group(t, list[..]))
    ensures e.txid == t && e.entry.height == list[list.Length - 1].value.height && |e.entry.outputs| == list.Length
    ensures forall v :: 0 <= v < list.Length ==>
              e.entry.outputs[v] == if list[v].Some? then Some(list[v].value.output) else None
  {
    var outputs := ConvertUTXOlistToTransactionOutputList(list);
    e := TxEntry(t, Entry(list[list.Length - 1].value.height, outputs));
  }

  lemma PrefixSound(records: seq<Record>, i: nat, m: nat)
    requires i <= |records| && NonNegativeTo(records, i) && m < |Grouped(records[..i])|
    ensures GroupOf(records[..i], Grouped(records[..i])[m])
  {
    GroupsSound(records[..i]);
  }

  lemma Continues(records: seq<Record>, i: nat, t: TxId, list: Sparse)
    requires 0 < i < |records| && Filling(records, i, t, list) && t == records[i].txid && records[i].index >= 0
    ensures Filling(records, i + 1, t, Placed(list, records[i].index, records[i]))
    ensures Closed(records, i + 1) == Closed(records, i)
  {
    NextRecord(records, i);
  }

  lemma Opens(records: seq<Record>, i: nat, t: TxId, list: Sparse)
    requires i < |records| && Filling(records, i, t, list) && (i == 0 || t != records[i].txid) && records[i].index >= 0
    ensures Filling(records, i + 1, records[i].txid, Placed([], records[i].index, records[i]))
    ensures Closed(records, i + 1) == if i == 0 then 0 else Closed(records, i) + 1
  {
    NextRecord(records, i);
  }

  lemma Closes(records: seq<Record>, i: nat, t: TxId, list: Sparse, done: seq<TxEntry>, batch: seq<TxEntry>)
    requires 0 < i < |records| && NonNegativeTo(records, i) && Filling(records, i, t, list) && t != records[i].txid
    requires Pending(AllEntries(records), done, batch, Closed(records, i))
    ensures |list| > 0 && list[|list| - 1].Some?
    ensures Pending(AllEntries(records), done, batch + [EntryOf(Group(t, list))], Closed(records, i) + 1)
  {
    NextRecord(records, i);
    PrefixSound(records, i, Closed(records, i));
    FinishedGroups(records, i + 1, Closed(records, i));
    PendingMore(AllEntries(records), done, batch, Closed(records, i));
  }

  lemma PendingMore(all: seq<TxEntry>, done: seq<TxEntry>, batch: seq<TxEntry>, n: nat)
    requires Pending(all, done, batch, n) && n < |all|
    ensures Pending(all, done, batch + [all[n]], n + 1)
  {
    assert done + (batch + [all[n]]) == (done + batch) + [all[n]];
  }

  /** Reads one record: a new transaction closes the list being filled. */
  method TakeRecord(records: seq<Record>, i: nat, list0: array<Option<Record>>, id0: TxId, batch0: seq<TxEntry>,
                    ghost done: seq<TxEntry>)
    returns (list: array<Option<Record>>, id: TxId, batch: seq<TxEntry>, ok: bool)
    requires i < |records| && NonNegativeTo(records, i) && Filling(records, i, id0, list0[..])
    requires Pending(AllEntries(records), done, batch0, Closed(records, i))
    modifies list0
    ensures ok <==> NonNegativeTo(records, i + 1)
    ensures ok <==> records[i].index >= 0
    ensures ok ==> (list == list0 || fresh(list)) && Filling(records, i + 1, id, list[..])
    ensures ok ==> Pending(AllEntries(records), done, batch, Closed(records, i + 1)) && |batch| <= |batch0| + 1
  {
    list, id, batch := list0, id0, batch0;
    ghost var before := list0[..];
    if id != records[i].txid {
      if list.Length > 0 {
        Closes(records, i, id, before, done, batch);
        var e := CloseGroup(list, id);
        batch := batch + [e];
      }
      id := records[i].txid;
      list := new Option<Record>[0];
    }
    ghost var filling := list[..];
    var pushed := PushElementToPlace(list, records[i], records[i].index);
    ok := pushed.Success?;
    if ok {
      list := pushed.value;
      if i > 0 && id0 == records[i].txid {
        Continues(records, i, id0, before);
      } else {
        Opens(records, i, id0, before);
        assert filling == [];
      }
    }
  }

  /** Closes the last list. */
  method TakeLast(records: seq<Record>, list: array<Option<Record>>, id: TxId, batch0: seq<TxEntry>, ghost done: seq<TxEntry>)
    returns (batch: seq<TxEntry>)
    requires NonNegativeTo(records, |records|) && Filling(records, |records|, id, list[..])
    requires Pending(AllEntries(records), done, batch0, Closed(records, |records|))
    ensures done + batch == AllEntries(records) && |batch| <= |batch0| + 1
  {
    batch := batch0;
    assert records[..|records|] == records;
    if list.Length > 0 {
      GroupsSound(records);
      var e := CloseGroup(list, id);
      batch := batch + [e];
    }
  }

  /** Whether the stream breaks off before it ends, and how many records come before. */
  predicate BreaksOff(records: seq<Record>, stopsAt: Option<nat>) {
    stopsAt.Some? && stopsAt.value <= |records|
  }

  function Taken(records: seq<Record>, stopsAt: Option<nat>): (n: nat)
    ensures n <= |records|
  {
    if BreaksOff(records, stopsAt) then stopsAt.value else |records|
  }

  class Migrator {
    const target: Target
    const batchSize: nat
    var restoredLastSavedTxID: bool

    /** What was handed over so far, and how many transactions are stored. */
    ghost var batches: seq<seq<TxEntry>>
    ghost var stored: nat

    constructor (target: Target, batchSize: nat, ghost stored: nat)
      ensures this.target == target && this.batchSize == batchSize && !restoredLastSavedTxID
      ensures this.batches == [] && this.stored == stored
    {
      this.target, this.batchSize, restoredLastSavedTxID := target, batchSize, false;
      this.batches, this.stored := [], stored;
    }

    /** The target holds the first `stored` transactions and everything handed over. */
    ghost predicate Valid(all: seq<TxEntry>)
      reads this, target
    {
      && DistinctIds(all) && PrefixStored(target.entries, target.index, all, stored)
      && Flatten(batches) <= all && |Flatten(batches)| <= stored
    }

    /** What waits in the batch is all that may be missing of the first `n`. */
    lemma NearlyABatch(all: seq<TxEntry>, batch: seq<TxEntry>, n: nat)
      requires Valid(all) && Pending(all, Flatten(batches), batch, n)
      ensures stored + |batch| >= n
    {
    }

    method UpdateUTXObatch(batch: seq<TxEntry>) returns (ok: bool)
      requires DistinctIds(batch)
      modifies target
      ensures (target.faults == old(target.faults) + if ok then 0 else 1) && (target.reliable ==> ok)
      ensures (target.entries == old(target.entries) + MapOf(batch) && target.index == old(target.index) + PaidPairs(MapOf(batch)))
              || (!ok && target.entries == old(target.entries) && target.index == old(target.index))
      ensures target.hash == old(target.hash) && target.height == old(target.height)
    {
      var m: Entries := map[];
      for i := 0 to |batch|
        invariant m == MapOf(batch[..i])
      {
        assert batch[..i + 1][..i] == batch[..i];
        m := m[batch[i].txid := batch[i].entry];
      }
      assert batch[..|batch|] == batch;
      ok := target.AddTransactionOutputsBatch(m);
    }

    /** Stores the next batch, or skips it when its last transaction is already there:
        before the first miss a stored last id means that the whole batch is stored. */
    method StoreUTXOBatch(batch: seq<TxEntry>, ghost all: seq<TxEntry>) returns (ok: bool)
      requires Valid(all) && Flatten(batches) + batch <= all
      modifies this`restoredLastSavedTxID, this`batches, this`stored, target
      ensures (target.faults == old(target.faults) + if ok then 0 else 1) && (target.reliable ==> ok)
      ensures Valid(all) && old(stored) <= stored
      ensures batches == if ok then old(batches) + [batch] else old(batches)
      ensures Flatten(batches) == if ok then old(Flatten(batches)) + batch else old(Flatten(batches))
      ensures target.hash == old(target.hash) && target.height == old(target.height)
    {
      ghost var lo := |Flatten(batches)|;
      ghost var hi := lo + |batch|;
      assert batch == all[lo..hi];
      assert (batches + [batch])[..|batches|] == batches;
      if |batch| > 0 {
        if !restoredLastSavedTxID {
          var found := target.AreExistsOutputs(batch[|batch| - 1].txid);
          if found.None? {
            return false;
          }
          assert batch[|batch| - 1] == all[hi - 1];
          ProbeTells(target.entries, target.index, all, stored, hi - 1);
          if found.value {
            batches := batches + [batch];
            return true;
          }
          restoredLastSavedTxID := true;
        }
        ok := WriteBatch(batch, all, lo);
        if !ok {
          return;
        }
      }
      batches := batches + [batch];
      ok := true;
    }

    /** Writing a batch that starts within the stored prefix. */
    method WriteBatch(batch: seq<TxEntry>, ghost all: seq<TxEntry>, ghost lo: nat) returns (ok: bool)
      requires DistinctIds(all) && PrefixStored(target.entries, target.index, all, stored)
      requires lo <= stored && lo + |batch| <= |all| && batch == all[lo..lo + |batch|]
      modifies this`stored, target
      ensures (target.faults == old(target.faults) + if ok then 0 else 1) && (target.reliable ==> ok)
      ensures PrefixStored(target.entries, target.index, all, stored) && old(stored) <= stored
      ensures ok ==> lo + |batch| <= stored
      ensures target.hash == old(target.hash) && target.height == old(target.height)
    {
      hide PrefixStored, MapOf, PaidPairs;
      ghost var hi := lo + |batch|;
      ghost var entries, index := target.entries, target.index;
      SliceDistinct(all, lo, hi);
      BatchExtendsPrefix(entries, index, all, stored, lo, hi);
      ok := UpdateUTXObatch(batch);
      if ok || (target.entries == entries + MapOf(batch) && target.index == index + PaidPairs(MapOf(batch))) {
        stored := if stored > hi then stored else hi;
      }
    }

    /** The program retries for as long as it takes. */
    method StoreWithRetries(batch: seq<TxEntry>, attempts: nat, ghost all: seq<TxEntry>) returns (ok: bool)
      requires Valid(all) && Flatten(batches) + batch <= all
      modifies this`restoredLastSavedTxID, this`batches, this`stored, target
      ensures target.faults >= old(target.faults) && (!ok ==> target.faults == old(target.faults) + attempts)
      ensures target.reliable ==> target.faults == old(target.faults)
      ensures Valid(all) && old(stored) <= stored
      ensures batches == if ok then old(batches) + [batch] else old(batches)
      ensures Flatten(batches) == if ok then old(Flatten(batches)) + batch else old(Flatten(batches))
      ensures target.hash == old(target.hash) && target.height == old(target.height)
    {
      ok := false;
      var left := attempts;
      while !ok && left > 0
        invariant Valid(all) && old(stored) <= stored && 0 <= left <= attempts
        invariant target.faults == old(target.faults) + (attempts - left) - if ok then 1 else 0
        invariant target.reliable ==> target.faults == old(target.faults)
        invariant ok ==> left < attempts
        invariant batches == if ok then old(batches) + [batch] else old(batches)
        invariant Flatten(batches) == if ok then old(Flatten(batches)) + batch else old(Flatten(batches))
        invariant target.hash == old(target.hash) && target.height == old(target.height)
        decreases left, !ok
      {
        ok := StoreUTXOBatch(batch, all);
        left := left - 1;
      }
    }

    method FlushIfFull(batch: seq<TxEntry>, attempts: nat, ghost all: seq<TxEntry>, ghost n: nat)
      returns (ok: bool, rest: seq<TxEntry>)
      requires Valid(all) && Sized(batches, batchSize) && Pending(all, Flatten(batches), batch, n)
      requires batchSize >= 1 ==> |batch| <= batchSize
      modifies this`restoredLastSavedTxID, this`batches, this`stored, target
      ensures target.faults >= old(target.faults) + if ok then 0 else attempts
      ensures target.reliable ==> target.faults == old(target.faults)
      ensures Valid(all) && old(stored) <= stored && Sized(batches, batchSize)
      ensures ok ==> Pending(all, Flatten(batches), rest, n) && (batchSize >= 1 ==> |rest| < batchSize)
      ensures target.hash == old(target.hash) && target.height == old(target.height)
    {
      ok, rest := true, batch;
      if |batch| == batchSize {
        ok := StoreWithRetries(batch, attempts, all);
        PendingFlushed(all, old(Flatten(batches)), batch, n);
        rest := [];
      }
    }

    /** Migrates the snapshot, whose stream may break off before a record or at its end.
        Wherever it stops, a prefix of its transactions is stored, no shorter than before
        and less than a batch behind; when it succeeds, it is everything, handed over once
        each in batches of at most the batch size, whatever earlier runs had stored. It
        succeeds unless the stream breaks off, an index is negative or a request fails. */
    method Migrate(records: seq<Record>, stopsAt: Option<nat>, tip: Hash, tipHeight: int, attempts: nat)
      returns (r: Result<int, MigrateError>)
      requires Contiguous(records) && batches == [] && Valid(AllEntries(records))
      modifies this`restoredLastSavedTxID, this`batches, this`stored, target
      ensures Valid(AllEntries(records)) && old(stored) <= stored && Sized(batches, batchSize)
      ensures r.Success? ==> NonNegative(records) && Flatten(batches) == AllEntries(records)
      ensures r.Success? ==>
                var all := MapOf(AllEntries(records));
                target.Contents() == Db(Some(tip), tipHeight, all, PaidPairs(all))
      ensures target.faults == old(target.faults) && attempts > 0 ==>
                r == if !NonNegativeTo(records, Taken(records, stopsAt)) then Failure(NoNegativePlaces)
                     else if BreaksOff(records, stopsAt) then Failure(Interrupted)
                     else Success(tipHeight)
      ensures target.faults >= old(target.faults) && (target.reliable ==> target.faults == old(target.faults))
      ensures r == Failure(NoNegativePlaces) ==> !NonNegativeTo(records, Taken(records, stopsAt))
      ensures r == Failure(Interrupted) ==> BreaksOff(records, stopsAt) && NonNegativeTo(records, stopsAt.value)
      ensures r == Failure(Interrupted) && batchSize >= 1 ==> stored + batchSize > Closed(records, stopsAt.value)
      ensures r == Failure(StoreFailed) ==> target.faults > old(target.faults) || attempts == 0
      ensures stored < |AllEntries(records)| ==> target.hash == old(target.hash) && target.height == old(target.height)
      ensures target.hash == old(target.hash) || (target.hash == Some(tip) && stored == |AllEntries(records)|)
      ensures target.height == old(target.height) || (target.height == tipHeight && target.hash == Some(tip))
    {
      hide DistinctIds, PrefixStored, MapOf, PaidPairs, Contiguous, AllEntries, Grouped, Flatten, Sized;
      ghost var all := AllEntries(records);
      NothingPending(records, all, batchSize);
      var list := new Option<Record>[0];
      var currentTxID: TxId := "";
      var batch: seq<TxEntry> := [];
      for i := 0 to |records|
        invariant Valid(all) && old(stored) <= stored && Sized(batches, batchSize)
        invariant target.faults >= old(target.faults) && (target.reliable ==> target.faults == old(target.faults))
        invariant target.hash == old(target.hash) && target.height == old(target.height)
        invariant fresh(list) && NonNegativeTo(records, i) && i <= Taken(records, stopsAt)
        invariant Filling(records, i, currentTxID, list[..]) && Pending(all, Flatten(batches), batch, Closed(records, i))
        invariant batchSize >= 1 ==> |batch| < batchSize
      {
        if stopsAt == Some(i) {
          NearlyABatch(all, batch, Closed(records, i));
          return Failure(Interrupted);
        }
        var pushed;
        list, currentTxID, batch, pushed := TakeRecord(records, i, list, currentTxID, batch, Flatten(batches));
        if !pushed {
          return Failure(NoNegativePlaces);
        }
        var ok;
        ok, batch := FlushIfFull(batch, attempts, all, Closed(records, i + 1));
        if !ok {
          return Failure(StoreFailed);
        }
      }
      if stopsAt == Some(|records|) {
        NearlyABatch(all, batch, Closed(records, |records|));
        return Failure(Interrupted);
      }
      batch := TakeLast(records, list, currentTxID, batch, Flatten(batches));
      r := Finish(batch, tip, tipHeight, all);
    }

    /** Stores what is left and then where the chain stands. */
    method Finish(batch: seq<TxEntry>, tip: Hash, tipHeight: int, ghost all: seq<TxEntry>) returns (r: Result<int, MigrateError>)
      requires Valid(all) && Flatten(batches) + batch == all
      requires Sized(batches, batchSize) && (batchSize >= 1 ==> |batch| <= batchSize)
      modifies this`restoredLastSavedTxID, this`batches, this`stored, target
      ensures (target.faults == old(target.faults) + if r.Success? then 0 else 1) && (target.reliable ==> r.Success?)
      ensures r.Success? ==> r.value == tipHeight
      ensures target.hash == old(target.hash) || (target.hash == Some(tip) && stored == |all|)
      ensures target.height == old(target.height) || (target.height == tipHeight && target.hash == Some(tip))
      ensures Valid(all) && old(stored) <= stored && Sized(batches, batchSize)
      ensures r.Success? ==> Flatten(batches) == all
      ensures r.Success? ==> target.Contents() == Db(Some(tip), tipHeight, MapOf(all), PaidPairs(MapOf(all)))
      ensures r.Failure? ==> r.error == StoreFailed
      ensures stored < |all| ==> target.hash == old(target.hash) && target.height == old(target.height)
    {
      hide MapOf, PaidPairs;
      if |batch| > 0 {
        assert (batches + [batch])[..|batches|] == batches;
        var ok := StoreUTXOBatch(batch, all);
        if !ok {
          return Failure(StoreFailed);
        }
      }
      assert all[..stored] == all;
      var ok := target.SetBlockHash(tip);
      if !ok {
        return Failure(StoreFailed);
      }
      ok := target.SetBlockHeight(tipHeight);
      if !ok {
        return Failure(StoreFailed);
      }
      r := Success(tipHeight);
    }
  }
  // ---------------------------------------------------------- what was migrated

  ghost predicate OneHeight(records: seq<Record>) {
    forall i, j :: 0 <= i < |records| && 0 <= j < |records| && records[i].txid == records[j].txid ==>
      records[i].height == records[j].height
  }

  /** The unspent outputs the snapshot lists. */
  ghost function SnapshotCoins(records: seq<Record>): Utxos
    requires UniqueKeys(records) && NonNegative(records)
  {
    map i | 0 <= i < |records| :: OutPoint(records[i].txid, records[i].index) := Coin(records[i].output, records[i].height)
  }

  lemma GroupHeight(records: seq<Record>, g: Group, v: nat)
    requires OneHeight(records) && GroupOf(records, g) && v < |g.list| && g.list[v].Some?
    ensures EntryOf(g).entry.height == g.list[v].value.height
  {
  }

  lemma RecordIsLive(records: seq<Record>, r: Record)
    requires Contiguous(records) && UniqueKeys(records) && NonNegative(records) && OneHeight(records) && r in records
    ensures r.index >= 0 && Live(MapOf(AllEntries(records)), OutPoint(r.txid, r.index))
    ensures LiveCoin(MapOf(AllEntries(records)), OutPoint(r.txid, r.index)) == Coin(r.output, r.height)
  {
    GroupingExact(records);
    AllEntriesDistinct(records);
    assert Holds(Grouped(records), r);
    var m :| 0 <= m < |Grouped(records)| && HoldsAt(Grouped(records)[m], r);
    assert GroupOf(records, Grouped(records)[m]);
    GroupHeight(records, Grouped(records)[m], r.index);
    MapOfAt(AllEntries(records), m);
  }

  lemma LiveIsRecord(records: seq<Record>, p: OutPoint) returns (r: Record)
    requires Contiguous(records) && UniqueKeys(records) && NonNegative(records)
    requires Live(MapOf(AllEntries(records)), p)
    ensures r in records && OutPoint(r.txid, r.index) == p
  {
    hide Contiguous, UniqueKeys, NonNegative, Grouped, Holds, DistinctGroups;
    GroupingExact(records);
    AllEntriesDistinct(records);
    var all := AllEntries(records);
    var m :| 0 <= m < |all| && all[m].txid == p.txid;
    MapOfAt(all, m);
    assert GroupOf(records, Grouped(records)[m]);
    r := Grouped(records)[m].list[p.vout].value;
  }

  lemma GroupHasLive(records: seq<Record>, g: Group)
    requires GroupOf(records, g)
    ensures !AllSpent(EntryOf(g).entry.outputs)
  {
    assert OutputsOf(g.list)[|g.list| - 1].Some?;
  }

  lemma EntryIsLive(records: seq<Record>, t: TxId)
    requires Contiguous(records) && NonNegative(records) && t in MapOf(AllEntries(records))
    ensures !AllSpent(MapOf(AllEntries(records))[t].outputs)
  {
    AllEntriesDistinct(records);
    GroupsSound(records);
    var m :| 0 <= m < |AllEntries(records)| && AllEntries(records)[m].txid == t;
    MapOfAt(AllEntries(records), m);
    GroupHasLive(records, Grouped(records)[m]);
  }

  lemma CoinsAgree(records: seq<Record>, p: OutPoint)
    requires Contiguous(records) && UniqueKeys(records) && NonNegative(records) && OneHeight(records)
    ensures var all, coins := MapOf(AllEntries(records)), SnapshotCoins(records);
            (Live(all, p) <==> p in coins) && (p in coins ==> LiveCoin(all, p) == coins[p])
  {
    hide Contiguous, OneHeight, AllEntries, MapOf, Live, LiveCoin;
    var all, coins := MapOf(AllEntries(records)), SnapshotCoins(records);
    if Live(all, p) {
      var r := LiveIsRecord(records, p);
      var i :| 0 <= i < |records| && records[i] == r;
    }
    if p in coins {
      var i :| 0 <= i < |records| && p == OutPoint(records[i].txid, records[i].index);
      RecordIsLive(records, records[i]);
    }
  }

  /** A whole migration leaves exactly the unspent outputs of the snapshot. */
  lemma MigratedIsSnapshot(records: seq<Record>)
    requires Contiguous(records) && UniqueKeys(records) && NonNegative(records) && OneHeight(records)
    ensures Unspent(MapOf(AllEntries(records))) == SnapshotCoins(records)
  {
    hide Contiguous, UniqueKeys, OneHeight, NonNegative, AllEntries, MapOf, Live, LiveCoin, SnapshotCoins;
    forall p ensures p in Unspent(MapOf(AllEntries(records))) <==> p in SnapshotCoins(records) {
      CoinsAgree(records, p);
    }
    forall p | p in SnapshotCoins(records)
      ensures Unspent(MapOf(AllEntries(records)))[p] == SnapshotCoins(records)[p]
    {
      CoinsAgree(records, p);
    }
  }

  /** So a migrated store is one that blocks can be applied to, with no stale
      reference in its index. */
  lemma MigratedStoreServes(records: seq<Record>, tip: Hash, height: int)
    requires Contiguous(records) && UniqueKeys(records) && NonNegative(records) && OneHeight(records)
    ensures var all := MapOf(AllEntries(records));
            var db := Db(Some(tip), height, all, PaidPairs(all));
            Represents(db, SnapshotCoins(records), all.Keys) && Stale(db) == {}
  {
    var all := MapOf(AllEntries(records));
    MigratedIsSnapshot(records);
    forall t | t in all ensures !AllSpent(all[t].outputs) {
      EntryIsLive(records, t);
    }
    forall p | p in PaidPairs(all) ensures p.1 in all {
      assert (p.0, p.1) in PaidPairs(all);
    }
  }
}
