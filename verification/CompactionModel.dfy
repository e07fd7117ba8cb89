/** Compaction: the live entries of a table with too much garbage are moved to the head in
    bounded batches, and an emptied table is recycled. */
module CompactionModel {
  import opened Codec
  import opened TableModel
  import opened StoreModel

  /** Entries moved by one call: the callback stops once its counter exceeds 1000. */
  const BATCH: nat := 1001

  /** garbage >= 0.40 * allocated, over the rationals. */
  predicate CompactionOK(t: Tbl) {
    10 * t.garbage >= 4 * t.capacity
  }

  /** The position of the first table to compact, |ts| when there is none. */
  function FirstOver(ts: seq<Tbl>): nat {
    First(Over(ts))
  }

  /** The order in which Range hands out the keys of a table, cut at the batch limit. */
  ghost predicate IsOrder(t: Tbl, keys: seq<nat>) {
    && (forall i :: 0 <= i < |keys| ==> keys[i] in t.slots)
    && (forall i, j :: 0 <= i < j < |keys| ==> keys[i] != keys[j])
    && |keys| == if |t.slots.Keys| <= BATCH then |t.slots.Keys| else BATCH
  }

  /** A store and the position in it of the table being evicted. */
  datatype Eviction = Eviction(store: Store, pos: nat)

  function AfterMakeTable(x: Eviction): Eviction {
    var i := FirstRecycled(SealHead(x.store.tables));
    Eviction(MakeTable(x.store), if i < x.pos then x.pos - 1 else x.pos)
  }

  /** The read of the entry, which refreshes its last access. */
  function TouchEntry(x: Eviction, hkey: nat, now: Int64): Eviction
    requires x.pos < |x.store.tables|
  {
    x.(store := x.store.(tables := x.store.tables[x.pos := Touch(x.store.tables[x.pos], hkey, now)]))
  }

  function MakeRoom(x: Eviction, size: nat): Eviction
    requires x.store.tables != []
  {
    if Fits(Head(x.store), size) then x else AfterMakeTable(x)
  }

  /** The write to the head and the removal from the evicted table. */
  function WriteBack(x: Eviction, hkey: nat, e: Entry): Eviction
    requires x.pos < |x.store.tables|
  {
    var s := WriteHead(x.store, hkey, e);
    x.(store := s.(tables := s.tables[x.pos := Delete(s.tables[x.pos], hkey)]))
  }

  function MoveEntry(x: Eviction, hkey: nat, now: Int64): Eviction
    requires x.pos < |x.store.tables| && hkey in x.store.tables[x.pos].slots
  {
    var x1 := TouchEntry(x, hkey, now);
    var e := x1.store.tables[x1.pos].slots[hkey].entry;
    var x2 := MakeRoom(x1, EntrySize(e));
    if x2.pos < |x2.store.tables| then WriteBack(x2, hkey, e) else x2
  }

  function MoveEntries(x: Eviction, keys: seq<nat>, now: Int64): Eviction
    decreases |keys|
  {
    if keys == [] || x.pos >= |x.store.tables| || keys[0] !in x.store.tables[x.pos].slots then x
    else MoveEntries(MoveEntry(x, keys[0], now), keys[1..], now)
  }

  function Recycle(x: Eviction, now: Int64): Store {
    if x.pos < |x.store.tables| && x.store.tables[x.pos].inuse == 0 then
      var t := x.store.tables[x.pos];
      x.store.(index := x.store.index - {t.coefficient}, tables := x.store.tables[x.pos := Reset(t, now)])
    else x.store
  }

  /** A head is never evicted into itself: a new head comes first. */
  function BeginEviction(s: Store, i: nat): Eviction
    requires i < |s.tables|
  {
    if i == |s.tables| - 1 then AfterMakeTable(Eviction(s, i)) else Eviction(s, i)
  }

  function Evict(s: Store, i: nat, keys: seq<nat>, now: Int64): Store
    requires i < |s.tables|
  {
    Recycle(MoveEntries(BeginEviction(s, i), keys, now), now)
  }

  /** Both times in nanoseconds, compared in milliseconds. */
  predicate Expired(t: Tbl, now: int, timeout: int) {
    now / 1000000 >= (timeout + t.recycledAt) / 1000000
  }

  /** Expired recycled tables are dropped, though never the last table of the list. */
  function Cleanup(s: Store, i: nat, now: int, timeout: int): Store
    decreases |s.tables| - i
  {
    if i >= |s.tables| then s
    else if s.tables[i].state.Recycled? && Expired(s.tables[i], now, timeout) then
      if |s.tables| == 1 then s
      else Cleanup(s.(index := s.index - {s.tables[i].coefficient}, tables := RemoveAt(s.tables, i)), i, now, timeout)
    else Cleanup(s, i + 1, now, timeout)
  }

  predicate Done(s: Store) {
    FirstOver(s.tables) == |s.tables|
  }

  /** One call of Compaction; it reports Done(s). */
  function Compaction(s: Store, keys: seq<nat>, now: Int64, timeout: int): Store {
    var i := FirstOver(s.tables);
    if i < |s.tables| then Evict(s, i, keys, now) else Cleanup(s, 0, now, timeout)
  }

  // Which tables are over the garbage ratio

  function Over(ts: seq<Tbl>): (r: seq<bool>)
    ensures |r| == |ts|
  {
    seq(|ts|, i requires 0 <= i < |ts| => CompactionOK(ts[i]))
  }

  function First(b: seq<bool>): (i: nat)
    ensures i <= |b|
    ensures i < |b| ==> b[i]
    ensures forall j :: 0 <= j < i ==> !b[j]
  {
    if b == [] then 0 else if b[0] then 0 else 1 + First(b[1..])
  }

  function Count(b: seq<bool>): nat {
    if b == [] then 0 else (if b[0] then 1 else 0) + Count(b[1..])
  }

  lemma {:induction false} CountConcat(a: seq<bool>, b: seq<bool>)
    ensures Count(a + b) == Count(a) + Count(b)
  {
    if a == [] {
      assert a + b == b;
    } else {
      CountConcat(a[1..], b);
      assert (a + b)[1..] == a[1..] + b;
    }
  }

  lemma CountSplit(b: seq<bool>, i: nat)
    requires i < |b|
    ensures Count(b) == Count(b[..i]) + (if b[i] then 1 else 0) + Count(b[i + 1..])
  {
    CountConcat(b[..i], b[i..]);
    assert b == b[..i] + b[i..];
    assert b[i..][1..] == b[i + 1..];
  }

  lemma CountClear(b: seq<bool>, i: nat)
    requires i < |b| && b[i]
    ensures Count(b[i := false]) == Count(b) - 1
  {
    CountSplit(b, i);
    CountSplit(b[i := false], i);
  }

  lemma CountRemove(b: seq<bool>, i: nat)
    requires i < |b| && !b[i]
    ensures Count(RemoveAt(b, i)) == Count(b)
  {
    CountSplit(b, i);
    CountConcat(b[..i], b[i + 1..]);
  }

  lemma FirstIs(b: seq<bool>, p: nat)
    requires p < |b| && b[p] && forall j :: 0 <= j < p ==> !b[j]
    ensures First(b) == p
  {
  }

  /** Every table has less than two fifths of its bytes in garbage. */
  predicate AllBelow(ts: seq<Tbl>) {
    forall i :: 0 <= i < |ts| ==> 5 * ts[i].garbage < 2 * ts[i].capacity
  }

  /** Compaction has nothing to evict exactly when all tables are below the ratio. */
  lemma DoneIff(s: Store)
    ensures Done(s) <==> AllBelow(s.tables)
  {
    assert forall i :: 0 <= i < |s.tables| ==> Over(s.tables)[i] == (5 * s.tables[i].garbage >= 2 * s.tables[i].capacity);
  }

  /** Otherwise it evicts the first table that is not. */
  lemma EvictsFirst(s: Store, keys: seq<nat>, now: Int64, timeout: int) returns (i: nat)
    requires !AllBelow(s.tables)
    ensures i < |s.tables| && 5 * s.tables[i].garbage >= 2 * s.tables[i].capacity && AllBelow(s.tables[..i])
    ensures i == FirstOver(s.tables) && Compaction(s, keys, now, timeout) == Evict(s, i, keys, now)
  {
    DoneIff(s);
    i := FirstOver(s.tables);
    assert forall j :: 0 <= j < |s.tables| ==> Over(s.tables)[j] == (5 * s.tables[j].garbage >= 2 * s.tables[j].capacity);
  }

  /** `y` has as many tables over the ratio as `x`, and its position is the first of them if
      the position of `x` was. */
  ghost predicate SameOver(x: Eviction, y: Eviction) {
    && Count(Over(x.store.tables)) == Count(Over(y.store.tables))
    && (x.pos == FirstOver(x.store.tables) < |x.store.tables| ==> y.pos == FirstOver(y.store.tables) < |y.store.tables|)
  }

  lemma SamePattern(x: Eviction, y: Eviction)
    requires x.pos == y.pos && |x.store.tables| == |y.store.tables|
    requires forall i :: 0 <= i < |x.store.tables| ==> (CompactionOK(x.store.tables[i]) <==> CompactionOK(y.store.tables[i]))
    ensures SameOver(x, y)
  {
    assert Over(x.store.tables) == Over(y.store.tables);
  }

  lemma OverAppend(ts: seq<Tbl>, t: Tbl)
    ensures Over(ts + [t]) == Over(ts) + [CompactionOK(t)]
  {
  }

  lemma OverRemove(ts: seq<Tbl>, i: nat)
    requires i < |ts|
    ensures Over(RemoveAt(ts, i)) == RemoveAt(Over(ts), i)
  {
  }

  /** Pushing a table without garbage to the tail, out of the list or new. */
  lemma OverPush(ts: seq<Tbl>, i: nat, t: Tbl, p: nat)
    requires i <= |ts| && (i < |ts| ==> !CompactionOK(ts[i])) && !CompactionOK(t) && p < |ts| && p != i
    ensures var kept := if i < |ts| then RemoveAt(ts, i) else ts;
            && Count(Over(kept + [t])) == Count(Over(ts))
            && (FirstOver(ts) == p ==> FirstOver(kept + [t]) == if i < p then p - 1 else p)
  {
    hide CompactionOK, Over, First;
    var kept := if i < |ts| then RemoveAt(ts, i) else ts;
    OverAppend(kept, t);
    OverAt(ts);
    CountConcat(Over(kept), [false]);
    if i < |ts| {
      OverRemove(ts, i);
      CountRemove(Over(ts), i);
    }
    if FirstOver(ts) == p {
      FirstPush(Over(ts), i, p);
    }
  }

  lemma OverAt(ts: seq<Tbl>)
    ensures forall i :: 0 <= i < |ts| ==> Over(ts)[i] == CompactionOK(ts[i])
  {
  }

  lemma FirstPush(b: seq<bool>, i: nat, p: nat)
    requires i <= |b| && p < |b| && p != i && First(b) == p
    ensures var kept := if i < |b| then RemoveAt(b, i) else b; First(kept + [false]) == if i < p then p - 1 else p
  {
    var kept := if i < |b| then RemoveAt(b, i) else b;
    FirstIs(kept + [false], if i < p then p - 1 else p);
  }

  /** The tail is sealed before it is evicted, so its state does not matter. */
  predicate Evictable(x: Eviction)
    requires x.pos < |x.store.tables|
  {
    x.pos == |x.store.tables| - 1 || !x.store.tables[x.pos].state.Recycled?
  }

  lemma AfterMakeTableOver(x: Eviction)
    requires TablesInv(x.store.tables, x.store.tableSize) && RecycledClean(x.store.tables) && x.store.tableSize > 0
    requires x.pos < |x.store.tables| && Evictable(x)
    ensures SameOver(x, AfterMakeTable(x))
  {
    hide Inv, Over;
    var s := x.store;
    var sealed := SealHead(s.tables);
    var i := FirstRecycled(sealed);
    SamePattern(x, x.(store := s.(tables := sealed)));
    var t := if i < |sealed| then sealed[i].(coefficient := s.coefficient, state := ReadWrite) else NewTable(s.tableSize, s.coefficient);
    assert i < |sealed| ==> sealed[i] == s.tables[i] && s.tables[i].capacity == s.tableSize;
    OverPush(sealed, i, t, x.pos);
  }

  lemma AfterMakeTablePlace(x: Eviction)
    requires x.pos < |x.store.tables| && Evictable(x)
    ensures var y := AfterMakeTable(x);
            && y.pos < |y.store.tables| - 1
            && y.store.tables[y.pos].(state := ReadOnly) == x.store.tables[x.pos].(state := ReadOnly)
            && !y.store.tables[y.pos].state.Recycled?
  {
  }

  /** Making a table moves the evicted one by at most one place and away from the tail. */
  lemma AfterMakeTableKeeps(x: Eviction)
    requires StoreInv(x.store) && x.store.tableSize > 0
    requires x.pos < |x.store.tables| && Evictable(x)
    ensures var y := AfterMakeTable(x);
            && StoreInv(y.store) && SameView(x.store, y.store)
            && y.pos < |y.store.tables| - 1
            && y.store.tables[y.pos].(state := ReadOnly) == x.store.tables[x.pos].(state := ReadOnly)
            && !y.store.tables[y.pos].state.Recycled?
            && Clean(Head(y.store))
            && SameOver(x, y)
  {
    AfterMakeTableOver(x);
    AfterMakeTablePlace(x);
    hide StoreInv, MakeTable, SameOver;
    MakeTableInv(x.store);
  }

  /** Where WriteHead leaves each table. */
  lemma WriteHeadTables(s: Store, hkey: nat, e: Entry)
    requires s.tables != []
    ensures var ts' := WriteHead(s, hkey, e).tables; var n := |s.tables| - 1;
            && |ts'| == |s.tables|
            && ts'[n] == Append(s.tables[n], hkey, e)
            && forall i :: 0 <= i < n ==> ts'[i] == Delete(s.tables[i], hkey)
  {
  }

  /** An eviction under way: the table is in the list, not at its tail, not recycled. */
  ghost predicate Evicting(x: Eviction) {
    && StoreInv(x.store)
    && x.store.tableSize > 0
    && x.pos < |x.store.tables| - 1
    && !x.store.tables[x.pos].state.Recycled?
  }

  ghost predicate SameView(s: Store, s': Store) {
    && s.tableSize == s'.tableSize
    && forall h :: View(s.tables, h) == View(s'.tables, h)
  }

  lemma TouchKeeps(x: Eviction, hkey: nat, now: Int64)
    requires Evicting(x) && hkey in x.store.tables[x.pos].slots
    ensures var y := TouchEntry(x, hkey, now);
            Evicting(y) && SameView(x.store, y.store) && SameOver(x, y)
  {
    hide Inv, SameOver, Unique, View;
    var t := Touch(x.store.tables[x.pos], hkey, now);
    TouchInv(x.store.tables[x.pos], hkey, now);
    ReplaceTable(x.store, x.pos, t, hkey);
    ViewUnique(x.store.tables, x.pos, hkey);
    SamePattern(x, TouchEntry(x, hkey, now));
  }

  lemma MakeRoomKeeps(x: Eviction, size: nat)
    requires Evicting(x) && size < x.store.tableSize
    ensures var y := MakeRoom(x, size);
            && Evicting(y) && SameView(x.store, y.store) && SameOver(x, y)
            && y.store.tables[y.pos].(state := ReadOnly) == x.store.tables[x.pos].(state := ReadOnly)
            && Fits(Head(y.store), size)
  {
    hide View, AfterMakeTable, Inv, Unique, RecycledClean;
    AfterMakeTableKeeps(x);
    HeadCapacity(MakeRoom(x, size).store);
  }

  /** Writing an entry back to the head: it leaves its table, and no other table gains garbage. */
  lemma WriteBackKeeps(x: Eviction, hkey: nat)
    requires Evicting(x) && hkey in x.store.tables[x.pos].slots && CompactionOK(x.store.tables[x.pos])
    requires Fits(Head(x.store), EntrySize(x.store.tables[x.pos].slots[hkey].entry))
    ensures var t := x.store.tables[x.pos];
            var y := WriteBack(x, hkey, t.slots[hkey].entry);
            && Evicting(y) && SameView(x.store, y.store) && SameOver(x, y)
            && y.store.tables[y.pos] == Delete(t, hkey)
  {
    var t := x.store.tables[x.pos];
    var e := t.slots[hkey].entry;
    EntryFits(t, hkey);
    WriteBackStore(x, hkey, e);
    hide Inv, View, SameOver, Unique;
    WriteHeadInv(x.store, hkey, e);
    WriteHeadTables(x.store, hkey, e);
    forall h
      ensures View(x.store.tables, h) == View(WriteHead(x.store, hkey, e).tables, h)
    {
      WriteHeadView(x.store, hkey, e, h);
      ViewUnique(x.store.tables, x.pos, hkey);
    }
    WriteBackOver(x, hkey);
  }

  /** The engine's write already removed the entry, so the removal after it finds nothing. */
  lemma WriteBackStore(x: Eviction, hkey: nat, e: Entry)
    requires x.pos < |x.store.tables| - 1
    ensures WriteBack(x, hkey, e) == x.(store := WriteHead(x.store, hkey, e))
  {
    var s := WriteHead(x.store, hkey, e);
    WriteHeadTables(x.store, hkey, e);
    assert Delete(s.tables[x.pos], hkey) == s.tables[x.pos];
  }

  lemma WriteBackOver(x: Eviction, hkey: nat)
    requires x.pos < |x.store.tables| - 1 && Unique(x.store.tables)
    requires hkey in x.store.tables[x.pos].slots && CompactionOK(x.store.tables[x.pos])
    ensures SameOver(x, x.(store := WriteHead(x.store, hkey, x.store.tables[x.pos].slots[hkey].entry)))
  {
    var ts := x.store.tables;
    var e := ts[x.pos].slots[hkey].entry;
    WriteHeadTables(x.store, hkey, e);
    hide WriteHead, SameOver;
    forall i | 0 <= i < |ts| && i != x.pos
      ensures hkey !in ts[i].slots
    {
    }
    SamePattern(x, x.(store := WriteHead(x.store, hkey, e)));
  }

  lemma SameOverTrans(x: Eviction, y: Eviction, z: Eviction)
    requires SameOver(x, y) && SameOver(y, z)
    ensures SameOver(x, z)
  {
  }

  lemma MoveEntryKeeps(x: Eviction, hkey: nat, now: Int64)
    requires Evicting(x) && hkey in x.store.tables[x.pos].slots && CompactionOK(x.store.tables[x.pos])
    ensures var t := x.store.tables[x.pos]; var y := MoveEntry(x, hkey, now);
            && Evicting(y) && SameView(x.store, y.store) && SameOver(x, y)
            && y.store.tables[y.pos].slots.Keys == t.slots.Keys - {hkey}
            && y.store.tables[y.pos].coefficient == t.coefficient
            && CompactionOK(y.store.tables[y.pos])
  {
    hide StoreInv, View, SameOver, MakeRoom, WriteBack;
    var x1 := TouchEntry(x, hkey, now);
    TouchKeeps(x, hkey, now);
    var e := x1.store.tables[x1.pos].slots[hkey].entry;
    RecordSize(x, hkey);
    MakeRoomKeeps(x1, EntrySize(e));
    var x2 := MakeRoom(x1, EntrySize(e));
    WriteBackKeeps(x2, hkey);
    SameOverTrans(x, x1, x2);
    SameOverTrans(x, x2, WriteBack(x2, hkey, e));
  }

  /** A stored record is strictly shorter than the table it lies in. */
  lemma EntryFits(t: Tbl, hkey: nat)
    requires Inv(t) && hkey in t.slots
    ensures EntrySize(t.slots[hkey].entry) < t.capacity
    ensures Encodable(t.slots[hkey].entry)
  {
  }

  lemma RecordSize(x: Eviction, hkey: nat)
    requires Evicting(x) && hkey in x.store.tables[x.pos].slots
    ensures EntrySize(x.store.tables[x.pos].slots[hkey].entry) < x.store.tableSize
  {
    EntryFits(x.store.tables[x.pos], hkey);
  }

  lemma HeadCapacity(s: Store)
    requires StoreInv(s) && s.tables != []
    ensures Head(s).capacity == s.tableSize
  {
  }

  ghost predicate Distinct(keys: seq<nat>, from: set<nat>) {
    && (forall i :: 0 <= i < |keys| ==> keys[i] in from)
    && (forall i, j :: 0 <= i < j < |keys| ==> keys[i] != keys[j])
  }

  lemma {:induction false} MoveEntriesKeeps(x: Eviction, keys: seq<nat>, now: Int64)
    requires Evicting(x) && CompactionOK(x.store.tables[x.pos]) && Distinct(keys, x.store.tables[x.pos].slots.Keys)
    ensures var t := x.store.tables[x.pos]; var y := MoveEntries(x, keys, now);
            && Evicting(y) && SameView(x.store, y.store) && SameOver(x, y)
            && |y.store.tables[y.pos].slots.Keys| == |t.slots.Keys| - |keys|
            && y.store.tables[y.pos].slots.Keys == t.slots.Keys - Elements(keys)
            && y.store.tables[y.pos].coefficient == t.coefficient
            && CompactionOK(y.store.tables[y.pos])
    decreases |keys|
  {
    hide StoreInv, View, MoveEntry;
    if keys != [] {
      var y := MoveEntry(x, keys[0], now);
      MoveEntryKeeps(x, keys[0], now);
      DistinctTail(keys, x.store.tables[x.pos].slots.Keys);
      MoveEntriesKeeps(y, keys[1..], now);
      SameOverTrans(x, y, MoveEntries(y, keys[1..], now));
      ElementsCons(keys);
    }
  }

  function Elements(keys: seq<nat>): set<nat> {
    set k | k in keys
  }

  lemma ElementsCons(keys: seq<nat>)
    requires keys != []
    ensures Elements(keys) == {keys[0]} + Elements(keys[1..])
  {
    assert keys == [keys[0]] + keys[1..];
  }

  lemma {:induction false} MoveEntriesSnoc(x: Eviction, keys: seq<nat>, k: nat, now: Int64)
    requires Evicting(x) && CompactionOK(x.store.tables[x.pos]) && Distinct(keys + [k], x.store.tables[x.pos].slots.Keys)
    ensures var y := MoveEntries(x, keys, now);
            && y.pos < |y.store.tables| && k in y.store.tables[y.pos].slots
            && MoveEntries(x, keys + [k], now) == MoveEntry(y, k, now)
    decreases |keys|
  {
    hide StoreInv, View, MoveEntry;
    if keys == [] {
      assert keys + [k] == [k] && [k][0] == k;
      assert MoveEntries(MoveEntry(x, k, now), [], now) == MoveEntry(x, k, now);
    } else {
      assert (keys + [k])[0] == keys[0] && (keys + [k])[1..] == keys[1..] + [k];
      MoveEntryKeeps(x, keys[0], now);
      DistinctTail(keys + [k], x.store.tables[x.pos].slots.Keys);
      MoveEntriesSnoc(MoveEntry(x, keys[0], now), keys[1..], k, now);
    }
  }

  lemma DistinctTail(keys: seq<nat>, from: set<nat>)
    requires Distinct(keys, from) && keys != []
    ensures Distinct(keys[1..], from - {keys[0]})
  {
  }

  // Results

  lemma OverNotRecycled(s: Store, i: nat)
    requires StoreInv(s) && s.tableSize > 0 && i < |s.tables| && CompactionOK(s.tables[i])
    ensures Evictable(Eviction(s, i))
  {
  }

  lemma BeginEvictionKeeps(s: Store, i: nat)
    requires StoreInv(s) && s.tableSize > 0 && i < |s.tables| && CompactionOK(s.tables[i])
    ensures var x := BeginEviction(s, i);
            && Evicting(x) && SameView(s, x.store) && SameOver(Eviction(s, i), x)
            && x.store.tables[x.pos].(state := ReadOnly) == s.tables[i].(state := ReadOnly)
  {
    OverNotRecycled(s, i);
    if i == |s.tables| - 1 {
      AfterMakeTableKeeps(Eviction(s, i));
    }
  }

  /** Recycling a drained table changes no contents and takes it off the list of tables to compact. */
  lemma RecycleKeeps(x: Eviction, now: Int64)
    requires Evicting(x) && CompactionOK(x.store.tables[x.pos])
    ensures StoreInv(Recycle(x, now)) && SameView(x.store, Recycle(x, now))
    ensures x.store.tables[x.pos].inuse == 0 <==> x.store.tables[x.pos].slots.Keys == {}
    ensures x.store.tables[x.pos].inuse == 0 ==> Count(Over(Recycle(x, now).tables)) == Count(Over(x.store.tables)) - 1
  {
    var t := x.store.tables[x.pos];
    NoLiveBytes(t);
    if t.inuse == 0 {
      ResetClean(t, now);
      RecycleStore(x.store, x.pos, Reset(t, now));
      hide Inv, View, StoreInv;
      var ts' := x.store.tables[x.pos := Reset(t, now)];
      assert Over(ts') == Over(x.store.tables)[x.pos := false];
      CountClear(Over(x.store.tables), x.pos);
    }
  }

  lemma RecycleStore(s: Store, i: nat, t: Tbl)
    requires StoreInv(s) && i < |s.tables| - 1 && s.tables[i].slots == map[]
    requires Inv(t) && Clean(t) && t.capacity == s.tableSize
    ensures StoreInv(s.(tables := s.tables[i := t]))
    ensures forall h :: View(s.tables, h) == View(s.tables[i := t], h)
  {
    hide Inv;
    forall h
      ensures View(s.tables, h) == View(s.tables[i := t], h)
    {
      ViewSame(s.tables, s.tables[i := t], h);
    }
  }

  /** The clean-up removes recycled tables, whatever they hold, and leaves a live tail. */
  lemma {:induction false} CleanupInv(s: Store, i: nat, now: int, timeout: int)
    requires StoreInv(s) && i <= |s.tables|
    ensures StoreInv(Cleanup(s, i, now, timeout)) && Cleanup(s, i, now, timeout).tableSize == s.tableSize
    ensures HeadLive(s) ==> HeadLive(Cleanup(s, i, now, timeout))
    decreases |s.tables| - i
  {
    hide Inv;
    if i < |s.tables| && s.tables[i].state.Recycled? && Expired(s.tables[i], now, timeout) {
      if |s.tables| != 1 {
        UniqueRemove(s.tables, i);
        CleanupInv(s.(index := s.index - {s.tables[i].coefficient}, tables := RemoveAt(s.tables, i)), i, now, timeout);
      }
    } else if i < |s.tables| {
      CleanupInv(s, i + 1, now, timeout);
    }
  }

  /** How many tables are over the ratio, and how many live entries the first of them holds. */
  function Tables(s: Store): nat {
    Count(Over(s.tables))
  }

  function Entries(s: Store): nat {
    var i := FirstOver(s.tables);
    if i < |s.tables| then |s.tables[i].slots.Keys| else 0
  }

  lemma EvictKeeps(s: Store, keys: seq<nat>, now: Int64)
    requires StoreInv(s) && s.tableSize > 0 && !Done(s) && IsOrder(s.tables[FirstOver(s.tables)], keys)
    ensures var s' := Evict(s, FirstOver(s.tables), keys, now);
            && StoreInv(s') && SameView(s, s')
            && (Tables(s') < Tables(s) || (Tables(s') == Tables(s) && Entries(s') < Entries(s)))
  {
    hide StoreInv, View, BeginEviction, MoveEntries, IsOrder;
    var i := FirstOver(s.tables);
    BeginEvictionKeeps(s, i);
    var x := BeginEviction(s, i);
    OrderDistinct(s.tables[i], keys);
    MoveEntriesKeeps(x, keys, now);
    var y := MoveEntries(x, keys, now);
    RecycleKeeps(y, now);
    SameOverTrans(Eviction(s, i), x, y);
  }

  // The tail through an eviction

  lemma TouchHead(x: Eviction, hkey: nat, now: Int64)
    requires x.pos < |x.store.tables| && HeadLive(x.store)
    ensures HeadLive(TouchEntry(x, hkey, now).store)
  {
  }

  lemma MakeRoomHead(x: Eviction, size: nat)
    requires Evicting(x) && HeadLive(x.store)
    ensures HeadLive(MakeRoom(x, size).store) && MakeRoom(x, size).pos < |MakeRoom(x, size).store.tables| - 1
  {
    hide StoreInv, MakeTable, HeadLive;
    MakeTableInv(x.store);
    AfterMakeTablePlace(x);
  }

  lemma WriteHeadHead(s: Store, hkey: nat, e: Entry)
    requires s.tables != [] && HeadLive(s)
    ensures HeadLive(WriteHead(s, hkey, e))
  {
    WriteHeadTables(s, hkey, e);
  }

  lemma MoveEntryHead(x: Eviction, hkey: nat, now: Int64)
    requires Evicting(x) && hkey in x.store.tables[x.pos].slots && HeadLive(x.store)
    ensures HeadLive(MoveEntry(x, hkey, now).store)
  {
    hide StoreInv, View, SameOver, MakeRoom, WriteBack, WriteHead, HeadLive, Evicting;
    EvictingPlace(x);
    var x1 := TouchEntry(x, hkey, now);
    TouchKeeps(x, hkey, now);
    TouchHead(x, hkey, now);
    var e := x1.store.tables[x1.pos].slots[hkey].entry;
    MakeRoomHead(x1, EntrySize(e));
    var x2 := MakeRoom(x1, EntrySize(e));
    WriteBackStore(x2, hkey, e);
    WriteHeadHead(x2.store, hkey, e);
  }

  lemma EvictingPlace(x: Eviction)
    requires Evicting(x)
    ensures x.pos < |x.store.tables| - 1
  {
  }

  lemma {:induction false} MoveEntriesHead(x: Eviction, keys: seq<nat>, now: Int64)
    requires Evicting(x) && CompactionOK(x.store.tables[x.pos]) && HeadLive(x.store)
    ensures HeadLive(MoveEntries(x, keys, now).store)
    decreases |keys|
  {
    hide StoreInv, View, SameOver, MoveEntry, HeadLive;
    if keys != [] && keys[0] in x.store.tables[x.pos].slots {
      MoveEntryHead(x, keys[0], now);
      MoveEntryKeeps(x, keys[0], now);
      MoveEntriesHead(MoveEntry(x, keys[0], now), keys[1..], now);
    }
  }

  lemma EvictHead(s: Store, keys: seq<nat>, now: Int64)
    requires StoreInv(s) && s.tableSize > 0 && !Done(s) && IsOrder(s.tables[FirstOver(s.tables)], keys) && HeadLive(s)
    ensures HeadLive(Evict(s, FirstOver(s.tables), keys, now))
  {
    hide StoreInv, View, MoveEntries, IsOrder, MakeTable, SameOver;
    var i := FirstOver(s.tables);
    BeginEvictionKeeps(s, i);
    MakeTableInv(s);
    var x := BeginEviction(s, i);
    MoveEntriesHead(x, keys, now);
    OrderDistinct(s.tables[i], keys);
    MoveEntriesKeeps(x, keys, now);
  }

  lemma OrderDistinct(t: Tbl, keys: seq<nat>)
    requires IsOrder(t, keys)
    ensures Distinct(keys, t.slots.Keys)
    ensures |keys| <= |t.slots.Keys|
    ensures |keys| == |t.slots.Keys| || |keys| == BATCH
  {
  }

  // Repeated calls

  datatype Call = Call(order: Tbl -> seq<nat>, now: Int64)

  /** The store after `n` calls, the first of them numbered `k`. */
  function After(s: Store, calls: nat -> Call, timeout: int, k: nat, n: nat): Store
    decreases n
  {
    if n == 0 then s
    else
      var i := FirstOver(s.tables);
      var keys := if i < |s.tables| then calls(k).order(s.tables[i]) else [];
      After(Compaction(s, keys, calls(k).now, timeout), calls, timeout, k + 1, n - 1)
  }

  ghost predicate IsSchedule(calls: nat -> Call) {
    forall k: nat, t: Tbl :: IsOrder(t, calls(k).order(t))
  }

  lemma {:induction false} ReachesDone(s: Store, calls: nat -> Call, timeout: int, k: nat)
    requires StoreInv(s) && (s.tableSize > 0 || s.tables == []) && IsSchedule(calls)
    ensures exists n: nat :: Done(After(s, calls, timeout, k, n))
    decreases Tables(s), Entries(s)
  {
    hide StoreInv, Evict, Cleanup, IsOrder, First, Over, View;
    if Done(s) {
      assert Done(After(s, calls, timeout, k, 0));
    } else {
      var t := s.tables[FirstOver(s.tables)];
      assert IsOrder(t, calls(k).order(t));
      var s' := Compaction(s, calls(k).order(t), calls(k).now, timeout);
      EvictKeeps(s, calls(k).order(t), calls(k).now);
      ReachesDone(s', calls, timeout, k + 1);
      var n: nat :| Done(After(s', calls, timeout, k + 1, n));
      assert After(s, calls, timeout, k, n + 1) == After(s', calls, timeout, k + 1, n);
    }
  }

  /** With a table size of zero every table is over the ratio, always. */
  ghost predicate ZeroSized(s: Store) {
    s.tableSize == 0 && s.tables != [] && AllZero(s.tables)
  }

  lemma ZeroNotDone(s: Store)
    requires ZeroSized(s)
    ensures FirstOver(s.tables) == 0 && !Done(s)
  {
    assert Over(s.tables)[0];
  }

  lemma ZeroMakeTable(s: Store)
    requires ZeroSized(s)
    ensures ZeroSized(MakeTable(s))
  {
    var ts := SealHead(s.tables);
    var i := FirstRecycled(ts);
    forall j | 0 <= j < |ts|
      ensures ts[j].capacity == 0 && ts[j].slots == map[]
    {
      assert s.tables[j].capacity == 0;
    }
    hide SealHead, FirstRecycled;
    ZeroPush(ts, i, if i < |ts| then ts[i].(coefficient := s.coefficient, state := ReadWrite) else NewTable(0, s.coefficient));
  }

  ghost predicate AllZero(ts: seq<Tbl>) {
    forall i :: 0 <= i < |ts| ==> ts[i].capacity == 0 && ts[i].slots == map[]
  }

  lemma ZeroPush(ts: seq<Tbl>, i: nat, t: Tbl)
    requires AllZero(ts) && t.capacity == 0 && t.slots == map[]
    ensures AllZero((if i < |ts| then RemoveAt(ts, i) else ts) + [t])
  {
  }

  lemma ZeroStep(s: Store, now: Int64, timeout: int)
    requires ZeroSized(s)
    ensures ZeroSized(Compaction(s, [], now, timeout))
  {
    ZeroNotDone(s);
    ZeroMakeTable(s);
    hide MakeTable, Over, First;
    var x := BeginEviction(s, 0);
    assert ZeroSized(x.store) && MoveEntries(x, [], now) == x;
  }

  lemma {:induction false} ZeroNeverDone(s: Store, calls: nat -> Call, timeout: int, k: nat, n: nat)
    requires ZeroSized(s) && IsSchedule(calls)
    ensures !Done(After(s, calls, timeout, k, n))
    decreases n
  {
    ZeroNotDone(s);
    if n > 0 {
      var keys := calls(k).order(s.tables[0]);
      assert IsOrder(s.tables[0], keys);
      assert keys == [];
      hide Compaction, Done;
      ZeroStep(s, calls(k).now, timeout);
      ZeroNeverDone(Compaction(s, keys, calls(k).now, timeout), calls, timeout, k + 1, n - 1);
    }
  }

  lemma ZeroSizeIsZero(s: Store)
    requires StoreInv(s) && s.tableSize == 0 && s.tables != []
    ensures ZeroSized(s)
  {
    forall i | 0 <= i < |s.tables|
      ensures s.tables[i].slots == map[]
    {
      assert Inv(s.tables[i]);
      if h :| h in s.tables[i].slots {
        EntryFits(s.tables[i], h);
      }
    }
  }

  lemma ZeroKeeps(s: Store, now: Int64, timeout: int)
    requires StoreInv(s) && ZeroSized(s)
    ensures StoreInv(Compaction(s, [], now, timeout))
    ensures SameView(s, Compaction(s, [], now, timeout))
    ensures HeadLive(s) ==> HeadLive(Compaction(s, [], now, timeout))
  {
    hide MakeTable, First, Over, View, StoreInv, BeginEviction, Inv, ZeroSized;
    ZeroNotDone(s);
    ZeroBegin(s);
    var x := BeginEviction(s, 0);
    assert MoveEntries(x, [], now) == x;
    var t := x.store.tables[x.pos];
    NoLiveBytes(t);
    ResetClean(t, now);
    RecycleStore(x.store, x.pos, Reset(t, now));
    IndexFree(x.store.(tables := x.store.tables[x.pos := Reset(t, now)]), x.store.index - {t.coefficient});
  }

  lemma ZeroBegin(s: Store)
    requires StoreInv(s) && ZeroSized(s)
    ensures var x := BeginEviction(s, 0);
            && x.pos == 0 && |x.store.tables| > 1 && x.store.tables[0].slots == map[]
            && Inv(x.store.tables[0]) && x.store.tables[0].capacity == x.store.tableSize
            && StoreInv(x.store) && SameView(s, x.store) && (HeadLive(s) ==> HeadLive(x.store))
  {
    ZeroMakeTable(s);
    hide View, Inv, Unique;
    MakeTableInv(s);
  }

  lemma IndexFree(s: Store, index: set<nat>)
    requires StoreInv(s)
    ensures StoreInv(s.(index := index))
  {
  }

  // What the clean-up can lose

  predicate Droppable(t: Tbl, now: int, timeout: int) {
    t.state.Recycled? && Expired(t, now, timeout)
  }

  /** The tail holds entries in an expired recycled table, and another table stays. */
  ghost predicate TailLost(s: Store, i: nat, now: int, timeout: int) {
    && s.tables != [] && Droppable(Head(s), now, timeout) && Head(s).slots != map[]
    && exists j :: 0 <= j < |s.tables| - 1 && (j < i || !Droppable(s.tables[j], now, timeout))
  }

  /** The clean-up loop from position `i` keeps every entry unless the tail is lost, and then
      it loses what the tail holds. */
  lemma {:induction false} CleanupLoses(s: Store, i: nat, now: int, timeout: int)
    requires StoreInv(s) && i <= |s.tables|
    requires forall j :: 0 <= j < i ==> !Droppable(s.tables[j], now, timeout)
    ensures SameView(s, Cleanup(s, i, now, timeout)) <==> !TailLost(s, i, now, timeout)
    decreases |s.tables| - i
  {
    hide View, Expired;
    var n := |s.tables| - 1;
    if i <= n {
      if Droppable(s.tables[i], now, timeout) && n > 0 {
        var s' := s.(index := s.index - {s.tables[i].coefficient}, tables := RemoveAt(s.tables, i));
        if i == n {
          assert Cleanup(s', i, now, timeout) == s';
          DropTail(s);
          assert 0 < i;
        } else {
          DropClean(s, i);
          CleanupLoses(s', i, now, timeout);
          TailLostShift(s, s', i, now, timeout);
        }
      } else if !Droppable(s.tables[i], now, timeout) {
        CleanupLoses(s, i + 1, now, timeout);
      }
    }
  }

  /** The loop reaches a droppable tail: it is the last table to go, unless it is the only one. */
  lemma TailReached(s: Store, i: nat, now: int, timeout: int)
    requires i == |s.tables| - 1 && Droppable(Head(s), now, timeout)
    requires forall j :: 0 <= j < i ==> !Droppable(s.tables[j], now, timeout)
    ensures TailLost(s, i, now, timeout) <==> i > 0 && Head(s).slots != map[]
    ensures Cleanup(s, i, now, timeout).tables == if i > 0 then RemoveAt(s.tables, i) else s.tables
  {
    hide Expired;
    if i > 0 {
      var s' := s.(index := s.index - {s.tables[i].coefficient}, tables := RemoveAt(s.tables, i));
      assert Cleanup(s', i, now, timeout) == s';
      assert !Droppable(s.tables[0], now, timeout);
    }
  }

  /** A table the loop leaves in its place. */
  lemma TailLostNext(s: Store, i: nat, now: int, timeout: int)
    requires i < |s.tables| && !Droppable(s.tables[i], now, timeout)
    ensures TailLost(s, i, now, timeout) == TailLost(s, i + 1, now, timeout)
    ensures Cleanup(s, i, now, timeout) == Cleanup(s, i + 1, now, timeout)
  {
    hide Expired;
  }

  lemma CleanupEnds(s: Store, i: nat, now: int, timeout: int)
    requires i == |s.tables| && forall j :: 0 <= j < i ==> !Droppable(s.tables[j], now, timeout)
    ensures Cleanup(s, i, now, timeout) == s && !TailLost(s, i, now, timeout)
  {
  }

  lemma UniqueTables(s: Store)
    requires StoreInv(s)
    ensures Unique(s.tables)
  {
  }

  /** A droppable table before the tail goes, and takes nothing with it. */
  lemma DropNext(s: Store, i: nat, now: int, timeout: int) returns (s': Store)
    requires StoreInv(s) && i < |s.tables| - 1 && Droppable(s.tables[i], now, timeout)
    ensures s' == s.(index := s.index - {s.tables[i].coefficient}, tables := RemoveAt(s.tables, i))
    ensures StoreInv(s') && Head(s') == Head(s) && Cleanup(s, i, now, timeout) == Cleanup(s', i, now, timeout)
    ensures forall h :: View(s.tables, h) == View(s'.tables, h)
  {
    hide View, Expired, Inv, Unique;
    s' := s.(index := s.index - {s.tables[i].coefficient}, tables := RemoveAt(s.tables, i));
    DropClean(s, i);
  }

  /** Exactly the entries of a lost tail go. */
  lemma {:induction false} CleanupView(s: Store, i: nat, now: int, timeout: int, h: nat)
    requires StoreInv(s) && i <= |s.tables|
    requires forall j :: 0 <= j < i ==> !Droppable(s.tables[j], now, timeout)
    ensures View(Cleanup(s, i, now, timeout).tables, h)
         == if TailLost(s, i, now, timeout) && h in Head(s).slots then None else View(s.tables, h)
    decreases |s.tables| - i
  {
    hide View, Droppable, StoreInv, TailLost, Cleanup;
    var n := |s.tables| - 1;
    if i > n {
      CleanupEnds(s, i, now, timeout);
    } else if !Droppable(s.tables[i], now, timeout) {
      TailLostNext(s, i, now, timeout);
      CleanupView(s, i + 1, now, timeout, h);
    } else if i == n {
      TailReached(s, i, now, timeout);
      UniqueTables(s);
      TailGone(s, h);
    } else {
      var s' := DropNext(s, i, now, timeout);
      CleanupView(s', i, now, timeout, h);
      TailLostShift(s, s', i, now, timeout);
    }
  }

  lemma TailGone(s: Store, h: nat)
    requires Unique(s.tables) && s.tables != []
    ensures View(RemoveAt(s.tables, |s.tables| - 1), h) == if h in Head(s).slots then None else View(s.tables, h)
  {
    var n := |s.tables| - 1;
    if h in s.tables[n].slots {
      ViewAbsent(RemoveAt(s.tables, n), h);
    } else {
      ViewRemove(s.tables, n, h);
    }
  }

  lemma DropTail(s: Store)
    requires Unique(s.tables) && s.tables != []
    ensures var n := |s.tables| - 1;
            (forall h :: View(s.tables, h) == View(RemoveAt(s.tables, n), h)) <==> s.tables[n].slots == map[]
  {
    var n := |s.tables| - 1;
    if h :| h in s.tables[n].slots {
      ViewUnique(s.tables, n, h);
      ViewAbsent(RemoveAt(s.tables, n), h);
    } else {
      forall h
        ensures View(s.tables, h) == View(RemoveAt(s.tables, n), h)
      {
        ViewRemove(s.tables, n, h);
      }
    }
  }

  lemma DropClean(s: Store, i: nat)
    requires StoreInv(s) && i < |s.tables| - 1 && s.tables[i].state.Recycled?
    ensures StoreInv(s.(tables := RemoveAt(s.tables, i)))
    ensures forall h :: View(s.tables, h) == View(RemoveAt(s.tables, i), h)
  {
    forall h
      ensures View(s.tables, h) == View(RemoveAt(s.tables, i), h)
    {
      ViewRemove(s.tables, i, h);
    }
  }

  lemma TailLostShift(s: Store, s': Store, i: nat, now: int, timeout: int)
    requires i < |s.tables| - 1 && s'.tables == RemoveAt(s.tables, i) && Droppable(s.tables[i], now, timeout)
    ensures TailLost(s, i, now, timeout) <==> TailLost(s', i, now, timeout)
  {
    var n := |s.tables| - 1;
    assert Head(s) == Head(s');
    if TailLost(s, i, now, timeout) {
      var j :| 0 <= j < n && (j < i || !Droppable(s.tables[j], now, timeout));
      var j' := if j < i then j else j - 1;
      assert s'.tables[j'] == s.tables[j];
      assert TailLost(s', i, now, timeout);
    }
    if TailLost(s', i, now, timeout) {
      var j :| 0 <= j < n - 1 && (j < i || !Droppable(s'.tables[j], now, timeout));
      var j' := if j < i then j else j + 1;
      assert s'.tables[j] == s.tables[j'];
      assert TailLost(s, i, now, timeout);
    }
  }

  /** A live tail is never lost. */
  lemma LiveTailKept(s: Store, i: nat, now: int, timeout: int)
    requires HeadLive(s)
    ensures !TailLost(s, i, now, timeout)
  {
  }

  /** One call of Compaction leaves the contents as they are, exactly unless it cleans up and
      the tail is lost. */
  lemma CompactionKeeps(s: Store, keys: seq<nat>, now: Int64, timeout: int)
    requires StoreInv(s)
    requires !Done(s) ==> IsOrder(s.tables[FirstOver(s.tables)], keys)
    ensures StoreInv(Compaction(s, keys, now, timeout)) && Compaction(s, keys, now, timeout).tableSize == s.tableSize
    ensures SameView(s, Compaction(s, keys, now, timeout)) <==> !(Done(s) && TailLost(s, 0, now, timeout))
    ensures HeadLive(s) ==> SameView(s, Compaction(s, keys, now, timeout)) && HeadLive(Compaction(s, keys, now, timeout))
  {
    hide StoreInv, View, Evict, Cleanup, TailLost, HeadLive;
    if Done(s) {
      CleanupInv(s, 0, now, timeout);
      CleanupLoses(s, 0, now, timeout);
      if HeadLive(s) {
        LiveTailKept(s, 0, now, timeout);
      }
    } else if s.tableSize > 0 {
      EvictKeeps(s, keys, now);
      if HeadLive(s) {
        EvictHead(s, keys, now);
      }
    } else {
      ZeroSizeIsZero(s);
      assert keys == [];
      ZeroKeeps(s, now, timeout);
    }
  }

  /** Repeated calls with no write between them reach a call that reports done, whatever
      order and times they run with: exactly when the tables have a size at all. */
  lemma CompactionTerminates(s: Store, calls: nat -> Call, timeout: int)
    requires StoreInv(s) && IsSchedule(calls)
    ensures (exists n: nat :: Done(After(s, calls, timeout, 0, n))) <==> s.tableSize > 0 || s.tables == []
    ensures (exists n: nat :: AllBelow(After(s, calls, timeout, 0, n).tables)) <==> s.tableSize > 0 || s.tables == []
  {
    forall n: nat
      ensures Done(After(s, calls, timeout, 0, n)) <==> AllBelow(After(s, calls, timeout, 0, n).tables)
    {
      DoneIff(After(s, calls, timeout, 0, n));
    }
    hide Done, AllBelow;
    if s.tableSize > 0 || s.tables == [] {
      ReachesDone(s, calls, timeout, 0);
    } else {
      ZeroSizeIsZero(s);
      forall n: nat
        ensures !Done(After(s, calls, timeout, 0, n))
      {
        ZeroNeverDone(s, calls, timeout, 0, n);
      }
    }
  }
}
