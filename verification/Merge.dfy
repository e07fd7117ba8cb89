/** Merging a received fragment: last write wins, the copy already there winning a tie. */
module Merge {
  import opened Codec
  import SM = StoreModel
  import opened KVStoreClass

  /** A key and the entry received for it. */
  datatype Pair = Pair(hkey: nat, entry: Entry)

  // Two versions of a key

  /** sortVersions on two versions: the stable, strict, descending sort by timestamp. The
      first of the result wins. */
  function SortVersions(a: Entry, b: Entry): (r: seq<Entry>)
    ensures |r| == 2 && multiset(r) == multiset{a, b}
    ensures r[0].timestamp >= r[1].timestamp
    ensures a.timestamp == b.timestamp ==> r == [a, b]
  {
    if b.timestamp > a.timestamp then [b, a] else [a, b]
  }

  /** The plain map's merge. */
  function MergePair(m: map<nat, Entry>, p: Pair): map<nat, Entry> {
    if p.hkey in m && SortVersions(m[p.hkey], p.entry)[0].timestamp == m[p.hkey].timestamp then m
    else m[p.hkey := SM.Item(p.entry)]
  }

  function MergeAll(m: map<nat, Entry>, ps: seq<Pair>): map<nat, Entry>
    decreases |ps|
  {
    if ps == [] then m else MergeAll(MergePair(m, ps[0]), ps[1..])
  }

  // The engine's merge

  /** fragmentMergeFunction on the engine. */
  function MergeInto(s: SM.Store, p: Pair, now: Int64): SM.Store
    requires !SM.PutLoops(s, p.entry)
  {
    match SM.Lookup(s.tables, p.hkey)
    case None => SM.Put(s, p.hkey, p.entry, now)
    case Some(current) =>
      var touched := SM.Get(s, p.hkey, now);
      if current.timestamp >= p.entry.timestamp then touched else SM.Put(touched, p.hkey, p.entry, now)
  }

  /** A record that came out of a table of the same size. */
  predicate Transferable(s: SM.Store, e: Entry) {
    Encodable(e) && EntrySize(e) < s.tableSize
  }

  lemma MergeIntoRefines(s: SM.Store, m: map<nat, Entry>, p: Pair, now: Int64)
    requires SM.StoreInv(s) && SM.Refines(s, m) && Transferable(s, p.entry)
    ensures SM.StoreInv(MergeInto(s, p, now)) && MergeInto(s, p, now).tableSize == s.tableSize
    ensures SM.Refines(MergeInto(s, p, now), MergePair(m, p))
  {
    hide SM.StoreInv, SM.StoreRecord, SM.Get;
    SM.GetInv(s, p.hkey, now);
    var touched := SM.Get(s, p.hkey, now);
    assert touched.tableSize == s.tableSize by { GetSize(s, p.hkey, now); }
    SM.StoreRecordInv(s, p.hkey, p.entry.(lastAccess := now));
    SM.StoreRecordInv(touched, p.hkey, p.entry.(lastAccess := now));
    assert SM.View(s.tables, p.hkey) == if p.hkey in m then Some(m[p.hkey]) else None;
  }

  lemma GetSize(s: SM.Store, hkey: nat, now: Int64)
    ensures SM.Get(s, hkey, now).tableSize == s.tableSize
  {
  }

  // The join

  /** The versions of `h` that a merge of `ps` into `m` has seen. */
  ghost predicate Candidate(m: map<nat, Entry>, ps: seq<Pair>, h: nat, e: Entry) {
    (h in m && e == m[h]) || exists i :: 0 <= i < |ps| && ps[i].hkey == h && e == SM.Item(ps[i].entry)
  }

  /** `r` holds, for each key seen, a version of the greatest timestamp seen. */
  ghost predicate IsNewest(m: map<nat, Entry>, ps: seq<Pair>, r: map<nat, Entry>) {
    && (forall h, e :: Candidate(m, ps, h, e) ==> h in r && e.timestamp <= r[h].timestamp)
    && (forall h :: h in r ==> Candidate(m, ps, h, r[h]))
  }

  lemma {:induction false} MergeKeepsNewest(m: map<nat, Entry>, ps: seq<Pair>)
    ensures IsNewest(m, ps, MergeAll(m, ps))
    decreases |ps|
  {
    var r := MergeAll(m, ps);
    if ps != [] {
      var m1 := MergePair(m, ps[0]);
      MergeKeepsNewest(m1, ps[1..]);
      forall h, e | Candidate(m, ps, h, e)
        ensures h in r && e.timestamp <= r[h].timestamp
      {
        CandidateForward(m, ps, h, e);
      }
      forall h | h in r
        ensures Candidate(m, ps, h, r[h])
      {
        CandidateBack(m, ps, h, r[h]);
      }
    }
  }

  /** A version seen by the whole merge is seen by the rest of it, or something newer is. */
  lemma CandidateForward(m: map<nat, Entry>, ps: seq<Pair>, h: nat, e: Entry)
    requires ps != [] && Candidate(m, ps, h, e)
    ensures exists e' :: Candidate(MergePair(m, ps[0]), ps[1..], h, e') && e.timestamp <= e'.timestamp
  {
    var m1 := MergePair(m, ps[0]);
    if h in m && e == m[h] {
      assert Candidate(m1, ps[1..], h, m1[h]);
    } else {
      var i :| 0 <= i < |ps| && ps[i].hkey == h && e == SM.Item(ps[i].entry);
      if i == 0 {
        assert Candidate(m1, ps[1..], h, m1[h]);
      } else {
        assert ps[1..][i - 1] == ps[i];
        assert Candidate(m1, ps[1..], h, e);
      }
    }
  }

  lemma CandidateBack(m: map<nat, Entry>, ps: seq<Pair>, h: nat, e: Entry)
    requires ps != [] && Candidate(MergePair(m, ps[0]), ps[1..], h, e)
    ensures Candidate(m, ps, h, e)
  {
    if i :| 0 <= i < |ps[1..]| && ps[1..][i].hkey == h && e == SM.Item(ps[1..][i].entry) {
      assert ps[i + 1] == ps[1..][i];
    }
  }

  /** `e` is the first seen of the versions of `h` with the greatest timestamp: the one of `m`, at -1,
      or that of `ps[i]`. */
  ghost predicate FirstNewest(m: map<nat, Entry>, ps: seq<Pair>, h: nat, e: Entry, i: int) {
    && -1 <= i < |ps|
    && (if i < 0 then h in m && e == m[h] else ps[i].hkey == h && e == SM.Item(ps[i].entry))
    && (i >= 0 && h in m ==> m[h].timestamp < e.timestamp)
    && (forall j :: 0 <= j < |ps| && ps[j].hkey == h ==> ps[j].entry.timestamp <= e.timestamp)
    && (forall j :: 0 <= j < i && ps[j].hkey == h ==> ps[j].entry.timestamp < e.timestamp)
  }

  lemma PairAt(m: map<nat, Entry>, p: Pair, h: nat)
    ensures var r := MergePair(m, p);
            if h == p.hkey && (h in m ==> m[h].timestamp < p.entry.timestamp) then h in r && r[h] == SM.Item(p.entry)
            else (h in r <==> h in m) && (h in m ==> r[h] == m[h])
  {
  }

  lemma FirstNewestCons(m: map<nat, Entry>, ps: seq<Pair>, h: nat, e: Entry, k: int)
    requires ps != [] && FirstNewest(MergePair(m, ps[0]), ps[1..], h, e, k)
    ensures FirstNewest(m, ps, h, e, if k >= 0 then k + 1 else if ps[0].hkey == h && (h in m ==> m[h].timestamp < ps[0].entry.timestamp) then 0 else -1)
  {
    PairAt(m, ps[0], h);
    hide MergePair;
    forall j | 0 <= j < |ps| && ps[j].hkey == h
      ensures ps[j].entry.timestamp <= e.timestamp
      ensures j <= k ==> ps[j].entry.timestamp < e.timestamp
    {
      if j > 0 {
        assert ps[1..][j - 1] == ps[j];
      }
    }
  }

  /** Of versions with the greatest timestamp the first one seen wins. */
  lemma {:induction false} FirstOfNewest(m: map<nat, Entry>, ps: seq<Pair>, h: nat) returns (i: int)
    requires h in MergeAll(m, ps)
    ensures FirstNewest(m, ps, h, MergeAll(m, ps)[h], i)
    decreases |ps|
  {
    hide FirstNewest, MergePair;
    if ps == [] {
      i := -1;
      FirstNewestNil(m, h);
    } else {
      var k := FirstOfNewest(MergePair(m, ps[0]), ps[1..], h);
      FirstNewestCons(m, ps, h, MergeAll(m, ps)[h], k);
      i := if k >= 0 then k + 1 else if ps[0].hkey == h && (h in m ==> m[h].timestamp < ps[0].entry.timestamp) then 0 else -1;
    }
  }

  lemma FirstNewestNil(m: map<nat, Entry>, h: nat)
    requires h in m
    ensures FirstNewest(m, [], h, m[h], -1)
  {
  }

  /** Equal timestamps of a key mean equal entries. */
  ghost predicate Versioned(m: map<nat, Entry>, ps: seq<Pair>) {
    forall h, e, e' :: Candidate(m, ps, h, e) && Candidate(m, ps, h, e') && e.timestamp == e'.timestamp ==> e == e'
  }

  ghost predicate SamePairs(ps: seq<Pair>, qs: seq<Pair>) {
    forall p :: p in ps <==> p in qs
  }

  lemma SameCandidates(m: map<nat, Entry>, ps: seq<Pair>, qs: seq<Pair>, h: nat, e: Entry)
    requires SamePairs(ps, qs) && Candidate(m, ps, h, e)
    ensures Candidate(m, qs, h, e)
  {
    if i :| 0 <= i < |ps| && ps[i].hkey == h && e == SM.Item(ps[i].entry) {
      assert ps[i] in qs;
      var j :| 0 <= j < |qs| && qs[j] == ps[i];
    }
  }

  /** Merging the same pairs in any order, with any repeats, gives the same contents. */
  lemma MergeOrderIrrelevant(m: map<nat, Entry>, ps: seq<Pair>, qs: seq<Pair>)
    requires SamePairs(ps, qs) && Versioned(m, ps)
    ensures MergeAll(m, ps) == MergeAll(m, qs)
  {
    var r, r' := MergeAll(m, ps), MergeAll(m, qs);
    MergeKeepsNewest(m, ps);
    MergeKeepsNewest(m, qs);
    hide MergeAll;
    forall h | h in r
      ensures h in r' && r'[h] == r[h]
    {
      SameCandidates(m, ps, qs, h, r[h]);
      SameCandidates(m, qs, ps, h, r'[h]);
    }
    forall h | h in r'
      ensures h in r
    {
      SameCandidates(m, qs, ps, h, r'[h]);
    }
  }

  // Exported tables

  /** An iteration order over an exported table. */
  ghost predicate Ranges(t: map<nat, Entry>, ps: seq<Pair>) {
    && (forall i :: 0 <= i < |ps| ==> ps[i].hkey in t && ps[i].entry == t[ps[i].hkey])
    && (forall h :: h in t ==> Pair(h, t[h]) in ps)
  }

  ghost predicate RangesAll(ts: seq<map<nat, Entry>>, orders: seq<seq<Pair>>) {
    |ts| == |orders| && forall i :: 0 <= i < |ts| ==> Ranges(ts[i], orders[i])
  }

  function Flatten(orders: seq<seq<Pair>>): seq<Pair> {
    if orders == [] then [] else orders[0] + Flatten(orders[1..])
  }

  lemma {:induction false} FlattenIn(orders: seq<seq<Pair>>, p: Pair)
    ensures p in Flatten(orders) <==> exists i :: 0 <= i < |orders| && p in orders[i]
  {
    if orders != [] {
      FlattenIn(orders[1..], p);
      if i :| 0 <= i < |orders| && p in orders[i] {
        if i > 0 {
          assert p in orders[1..][i - 1];
        }
      }
      if i :| 0 <= i < |orders[1..]| && p in orders[1..][i] {
        assert p in orders[i + 1];
      }
    }
  }

  /** Two deliveries of the same tables: in another order, with repeats, each table iterated
      its own way. They leave the same contents. */
  lemma TableOrderIrrelevant(m: map<nat, Entry>, ts: seq<map<nat, Entry>>, us: seq<map<nat, Entry>>,
                             os: seq<seq<Pair>>, qs: seq<seq<Pair>>)
    requires RangesAll(ts, os) && RangesAll(us, qs)
    requires forall t :: t in ts <==> t in us
    requires Versioned(m, Flatten(os))
    ensures MergeAll(m, Flatten(os)) == MergeAll(m, Flatten(qs))
  {
    forall p
      ensures p in Flatten(os) <==> p in Flatten(qs)
    {
      FlattenIn(os, p);
      FlattenIn(qs, p);
      if p in Flatten(os) { PairDelivered(ts, us, os, qs, p); }
      if p in Flatten(qs) { PairDelivered(us, ts, qs, os, p); }
    }
    MergeOrderIrrelevant(m, Flatten(os), Flatten(qs));
  }

  lemma PairDelivered(ts: seq<map<nat, Entry>>, us: seq<map<nat, Entry>>, os: seq<seq<Pair>>, qs: seq<seq<Pair>>, p: Pair)
    requires RangesAll(ts, os) && RangesAll(us, qs) && (forall t :: t in ts ==> t in us)
    requires exists i :: 0 <= i < |os| && p in os[i]
    ensures exists j :: 0 <= j < |qs| && p in qs[j]
  {
    var i :| 0 <= i < |os| && p in os[i];
    assert Ranges(ts[i], os[i]) && ts[i] in us;
    var j :| 0 <= j < |us| && us[j] == ts[i];
    assert Ranges(us[j], qs[j]);
    assert p == Pair(p.hkey, us[j][p.hkey]);
  }

  // In place

  /** fragmentMergeFunction. */
  method MergeEntry(f: KVStore, p: Pair, now: Int64) returns (ok: bool)
    requires f.Valid() && SM.StoreInv(f.model) && !SM.PutLoops(f.model, p.entry) && |p.entry.value| < TWO_32
    modifies f.Repr
    ensures f.Valid() && fresh(f.Repr - old(f.Repr))
    ensures f.model == MergeInto(old(f.model), p, now)
    ensures Transferable(old(f.model), p.entry) ==> ok
  {
    hide KVStore.Owned, KVStore.Linked, KVStore.Indexed, SM.StoreInv, SM.Put, SM.Get;
    var current := f.Get(p.hkey, now);
    SM.GetInv(old(f.model), p.hkey, now);
    GetSize(old(f.model), p.hkey, now);
    if current.None? {
      GetAbsent(old(f.model), p.hkey, now);
      var status := f.Put(p.hkey, p.entry, now);
      return status.PutOk?;
    }
    var versions := SortVersions(current.value, p.entry);
    if versions[0].timestamp == current.value.timestamp {
      return true;
    }
    var status := f.Put(p.hkey, versions[0], now);
    ok := status.PutOk?;
  }

  lemma GetAbsent(s: SM.Store, hkey: nat, now: Int64)
    requires SM.Lookup(s.tables, hkey).None?
    ensures SM.Get(s, hkey, now) == s
  {
    SM.LookupAt(s.tables, hkey);
  }
}
