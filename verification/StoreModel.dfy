/** The storage engine as a value: a list of tables, written at its tail.

    The engine is compared with a plain map from hashed key to entry. The last access time
    is bookkeeping of the reads and is left out of the comparison. */
module StoreModel {
  import opened Codec
  import opened TableModel

  datatype Store = Store(coefficient: nat, tableSize: nat, index: set<nat>, tables: seq<Tbl>)

  datatype PutStatus = PutOk | EntryTooLarge | KeyTooLarge

  function Head(s: Store): Tbl
    requires s.tables != []
  {
    s.tables[|s.tables| - 1]
  }

  function NewStore(tableSize: nat): Store {
    Store(0, tableSize, {}, [])
  }

  /** The engine of a fragment, forked from one of the same table size: it has a table before
      anything is written. */
  function Forked(tableSize: nat): Store {
    Store(1, tableSize, {0}, [NewTable(tableSize, 0)])
  }

  predicate Initial(s: Store) {
    s == NewStore(s.tableSize) || s == Forked(s.tableSize)
  }

  // Making a table

  function FirstRecycled(ts: seq<Tbl>): (i: nat)
    ensures i <= |ts|
    ensures i < |ts| ==> ts[i].state.Recycled?
    ensures forall j :: 0 <= j < i ==> !ts[j].state.Recycled?
  {
    if ts == [] then 0
    else if ts[0].state.Recycled? then 0
    else 1 + FirstRecycled(ts[1..])
  }

  function RemoveAt<T>(ts: seq<T>, i: nat): (r: seq<T>)
    requires i < |ts|
    ensures |r| == |ts| - 1
    ensures forall j :: 0 <= j < i ==> r[j] == ts[j]
    ensures forall j :: i <= j < |r| ==> r[j] == ts[j + 1]
  {
    ts[..i] + ts[i + 1..]
  }

  function SealHead(ts: seq<Tbl>): (r: seq<Tbl>)
    ensures |r| == |ts|
  {
    if ts == [] then [] else ts[|ts| - 1 := ts[|ts| - 1].(state := ReadOnly)]
  }

  /** The old head becomes read-only; a recycled table is reused when there is one. */
  function MakeTable(s: Store): Store {
    var ts := SealHead(s.tables);
    var i := FirstRecycled(ts);
    var ts' := if i < |ts| then RemoveAt(ts, i) + [ts[i].(coefficient := s.coefficient, state := ReadWrite)]
               else ts + [NewTable(s.tableSize, s.coefficient)];
    s.(tables := ts', index := s.index + {s.coefficient}, coefficient := s.coefficient + 1)
  }

  // Writing

  function DeleteFromOlder(ts: seq<Tbl>, hkey: nat): (r: seq<Tbl>)
    ensures |r| == |ts|
  {
    seq(|ts|, i requires 0 <= i < |ts| => if i < |ts| - 1 then Delete(ts[i], hkey) else ts[i])
  }

  /** Write to the head, then remove the older versions. */
  function WriteHead(s: Store, hkey: nat, e: Entry): Store
    requires s.tables != []
  {
    s.(tables := DeleteFromOlder(s.tables[|s.tables| - 1 := Append(Head(s), hkey, e)], hkey))
  }

  function EnsureTable(s: Store): Store {
    if s.tables == [] then MakeTable(s) else s
  }

  /** The loop of Put and PutRaw for a record shorter than a table: it fits the head, or it
      fits the head that one rollover makes. */
  function StoreRecord(s: Store, hkey: nat, e: Entry): Store {
    var s1 := EnsureTable(s);
    if s1.tables == [] then s1
    else if Fits(Head(s1), EntrySize(e)) then WriteHead(s1, hkey, e)
    else
      var s2 := MakeTable(s1);
      if s2.tables == [] then s2 else WriteHead(s2, hkey, e)
  }

  /** The sizes on which the retry loop of Put never ends: the size check accepts a record of
      exactly the table size, which no table accepts. */
  predicate PutLoops(s: Store, e: Entry) {
    EntrySize(e) == s.tableSize && |e.key| < MAX_KEY_LENGTH
  }

  function PutResult(s: Store, e: Entry): PutStatus {
    if EntrySize(e) > s.tableSize then EntryTooLarge
    else if |e.key| >= MAX_KEY_LENGTH then KeyTooLarge
    else PutOk
  }

  function Put(s: Store, hkey: nat, e: Entry, now: Int64): Store
    requires !PutLoops(s, e)
  {
    match PutResult(s, e)
    case EntryTooLarge => s
    case KeyTooLarge => EnsureTable(s)
    case PutOk => StoreRecord(s, hkey, e.(lastAccess := now))
  }

  function PutRawResult(s: Store, raw: seq<Byte>): PutStatus {
    if |raw| > s.tableSize then EntryTooLarge else PutOk
  }

  function PutRaw(s: Store, hkey: nat, raw: seq<Byte>): Store
    requires IsRecord(raw) && |raw| != s.tableSize
  {
    if PutRawResult(s, raw).PutOk? then StoreRecord(s, hkey, Parse(raw)) else s
  }

  // Reading

  function Item(e: Entry): Entry {
    e.(lastAccess := 0)
  }

  /** The tables are searched from the newest. */
  function Lookup(ts: seq<Tbl>, hkey: nat): Option<Entry> {
    if ts == [] then None
    else if hkey in ts[|ts| - 1].slots then Some(ts[|ts| - 1].slots[hkey].entry)
    else Lookup(ts[..|ts| - 1], hkey)
  }

  function View(ts: seq<Tbl>, hkey: nat): Option<Entry> {
    match Lookup(ts, hkey)
    case None => None
    case Some(e) => Some(Item(e))
  }

  /** The position of the table a search stops at, |ts| when there is none. */
  function Locate(ts: seq<Tbl>, hkey: nat): (i: nat)
    ensures i <= |ts|
    ensures i < |ts| ==> hkey in ts[i].slots
    ensures forall j :: 0 <= j < |ts| && (i == |ts| || i < j) ==> hkey !in ts[j].slots
  {
    if ts == [] then 0
    else if hkey in ts[|ts| - 1].slots then |ts| - 1
    else
      var i := Locate(ts[..|ts| - 1], hkey);
      if i == |ts| - 1 then |ts| else i
  }

  function Get(s: Store, hkey: nat, now: Int64): Store {
    var i := Locate(s.tables, hkey);
    if i == |s.tables| then s else s.(tables := s.tables[i := Touch(s.tables[i], hkey, now)])
  }

  function DeleteKey(s: Store, hkey: nat): Store {
    var i := Locate(s.tables, hkey);
    if i == |s.tables| then s else s.(tables := s.tables[i := Delete(s.tables[i], hkey)])
  }

  function UpdateTTL(s: Store, hkey: nat, ttl: Int64, timestamp: Int64, now: Int64): Store {
    var i := Locate(s.tables, hkey);
    if i == |s.tables| then s
    else s.(tables := s.tables[i := TableModel.UpdateTTL(s.tables[i], hkey, ttl, timestamp, now)])
  }

  // Invariant

  ghost predicate TablesInv(ts: seq<Tbl>, size: nat) {
    forall i :: 0 <= i < |ts| ==> Inv(ts[i]) && ts[i].capacity == size
  }

  /** Each key lives in at most one table. */
  ghost predicate Unique(ts: seq<Tbl>) {
    forall i, j, h :: 0 <= i < |ts| && 0 <= j < |ts| && i != j && h in ts[i].slots ==> h !in ts[j].slots
  }

  predicate Clean(t: Tbl) {
    t.slots == map[] && t.offset == 0 && t.garbage == 0 && t.offsetIndex == {}
  }

  /** A recycled table is clean, unless it is the tail: once Drop has removed the tables after
      it, writes go to the tail whatever its state. */
  ghost predicate RecycledClean(ts: seq<Tbl>) {
    forall i :: 0 <= i < |ts| - 1 && ts[i].state.Recycled? ==> Clean(ts[i])
  }

  ghost predicate StoreInv(s: Store) {
    && TablesInv(s.tables, s.tableSize)
    && Unique(s.tables)
    && RecycledClean(s.tables)
  }

  /** The tail is not recycled, as in every store no table was dropped from. */
  predicate HeadLive(s: Store) {
    s.tables != [] ==> !Head(s).state.Recycled?
  }

  /** The map `m` describes the contents of the store. */
  ghost predicate Refines(s: Store, m: map<nat, Entry>) {
    forall h :: View(s.tables, h) == if h in m then Some(m[h]) else None
  }

  // Lookups

  lemma {:induction false} LookupAt(ts: seq<Tbl>, hkey: nat)
    ensures Lookup(ts, hkey) == var i := Locate(ts, hkey); if i == |ts| then None else Some(ts[i].slots[hkey].entry)
  {
    if ts != [] && hkey !in ts[|ts| - 1].slots {
      LookupAt(ts[..|ts| - 1], hkey);
    }
  }

  /** Where a key lives does not depend on the direction of the search. */
  lemma ViewUnique(ts: seq<Tbl>, i: nat, hkey: nat)
    requires Unique(ts) && i < |ts| && hkey in ts[i].slots
    ensures Locate(ts, hkey) == i
    ensures View(ts, hkey) == Some(Item(ts[i].slots[hkey].entry))
  {
    LookupAt(ts, hkey);
  }

  lemma ViewAbsent(ts: seq<Tbl>, hkey: nat)
    requires forall i :: 0 <= i < |ts| ==> hkey !in ts[i].slots
    ensures View(ts, hkey) == None
  {
    LookupAt(ts, hkey);
  }

  ghost predicate SameAt(t: Tbl, t': Tbl, hkey: nat) {
    && (hkey in t.slots <==> hkey in t'.slots)
    && (hkey in t.slots ==> Item(t.slots[hkey].entry) == Item(t'.slots[hkey].entry))
  }

  lemma {:induction false} ViewSame(ts: seq<Tbl>, ts': seq<Tbl>, hkey: nat)
    requires |ts| == |ts'| && forall i :: 0 <= i < |ts| ==> SameAt(ts[i], ts'[i], hkey)
    ensures View(ts, hkey) == View(ts', hkey)
  {
    if ts != [] && hkey !in ts[|ts| - 1].slots {
      ViewSame(ts[..|ts| - 1], ts'[..|ts| - 1], hkey);
    }
  }

  lemma {:induction false} ViewRemove(ts: seq<Tbl>, i: nat, hkey: nat)
    requires i < |ts| && hkey !in ts[i].slots
    ensures View(RemoveAt(ts, i), hkey) == View(ts, hkey)
  {
    var n := |ts| - 1;
    if i < n {
      var r := RemoveAt(ts, i);
      assert r[n - 1] == ts[n];
      if hkey !in ts[n].slots {
        ViewRemove(ts[..n], i, hkey);
        assert r[..n - 1] == RemoveAt(ts[..n], i);
      }
    } else {
      assert RemoveAt(ts, i) == ts[..n];
    }
  }

  lemma ViewAppendClean(ts: seq<Tbl>, t: Tbl, hkey: nat)
    requires hkey !in t.slots
    ensures View(ts + [t], hkey) == View(ts, hkey)
  {
    assert (ts + [t])[..|ts|] == ts;
  }

  // What each operation keeps

  lemma SealHeadInv(s: Store)
    requires StoreInv(s)
    ensures StoreInv(s.(tables := SealHead(s.tables))) && HeadLive(s.(tables := SealHead(s.tables)))
    ensures forall h :: View(SealHead(s.tables), h) == View(s.tables, h)
  {
    hide Disjoint, Placed, Offsets, TotalSize;
    forall h
      ensures View(SealHead(s.tables), h) == View(s.tables, h)
    {
      ViewSame(s.tables, SealHead(s.tables), h);
    }
  }

  /** Moving a clean table to the tail, or adding one, changes no contents. */
  lemma PushCleanInv(s: Store, i: nat, t: Tbl)
    requires StoreInv(s) && HeadLive(s) && Clean(t) && Inv(t) && t.capacity == s.tableSize && !t.state.Recycled?
    requires i <= |s.tables| && (i < |s.tables| ==> Clean(s.tables[i]))
    ensures var ts' := (if i < |s.tables| then RemoveAt(s.tables, i) else s.tables) + [t];
            && StoreInv(s.(tables := ts')) && HeadLive(s.(tables := ts'))
            && forall h :: View(ts', h) == View(s.tables, h)
  {
    hide Inv;
    var kept := if i < |s.tables| then RemoveAt(s.tables, i) else s.tables;
    forall h
      ensures View(kept + [t], h) == View(s.tables, h)
    {
      if i < |s.tables| {
        ViewRemove(s.tables, i, h);
      }
      ViewAppendClean(kept, t, h);
    }
    UniqueRemove(s.tables, i);
  }

  lemma UniqueRemove(ts: seq<Tbl>, i: nat)
    requires Unique(ts)
    ensures i < |ts| ==> Unique(RemoveAt(ts, i))
  {
  }

  lemma MakeTableInv(s: Store)
    requires StoreInv(s)
    ensures StoreInv(MakeTable(s))
    ensures MakeTable(s).tables != [] && Clean(Head(MakeTable(s))) && HeadLive(MakeTable(s))
    ensures MakeTable(s).tableSize == s.tableSize
    ensures forall h :: View(MakeTable(s).tables, h) == View(s.tables, h)
  {
    SealHeadInv(s);
    var s1 := s.(tables := SealHead(s.tables));
    var i := FirstRecycled(s1.tables);
    if i < |s1.tables| {
      PushCleanInv(s1, i, s1.tables[i].(coefficient := s.coefficient, state := ReadWrite));
    } else {
      NewTableInv(s.tableSize, s.coefficient);
      PushCleanInv(s1, i, NewTable(s.tableSize, s.coefficient));
    }
  }

  lemma EnsureTableInv(s: Store)
    requires StoreInv(s)
    ensures StoreInv(EnsureTable(s))
    ensures EnsureTable(s).tables != []
    ensures EnsureTable(s).tableSize == s.tableSize
    ensures forall h :: View(EnsureTable(s).tables, h) == View(s.tables, h)
  {
    if s.tables == [] {
      MakeTableInv(s);
    }
  }

  lemma WriteHeadInv(s: Store, hkey: nat, e: Entry)
    requires StoreInv(s) && s.tables != [] && Encodable(e) && Fits(Head(s), EntrySize(e))
    ensures StoreInv(WriteHead(s, hkey, e))
  {
    hide Inv;
    var n := |s.tables| - 1;
    var ts' := WriteHead(s, hkey, e).tables;
    AppendInv(Head(s), hkey, e);
    forall i | 0 <= i < n
      ensures Inv(ts'[i]) && ts'[i].slots == s.tables[i].slots - {hkey}
    {
      DeleteInv(s.tables[i], hkey);
    }
  }

  lemma WriteHeadView(s: Store, hkey: nat, e: Entry, h: nat)
    requires StoreInv(s) && s.tables != [] && Encodable(e) && Fits(Head(s), EntrySize(e))
    ensures View(WriteHead(s, hkey, e).tables, h) == if h == hkey then Some(Item(e)) else View(s.tables, h)
  {
    hide Inv;
    var ts' := WriteHead(s, hkey, e).tables;
    if h != hkey {
      ViewSame(s.tables, ts', h);
    }
  }

  lemma StoreRecordInv(s: Store, hkey: nat, e: Entry)
    requires StoreInv(s) && Encodable(e) && EntrySize(e) < s.tableSize
    ensures StoreInv(StoreRecord(s, hkey, e))
    ensures StoreRecord(s, hkey, e).tableSize == s.tableSize
    ensures forall h :: View(StoreRecord(s, hkey, e).tables, h) == if h == hkey then Some(Item(e)) else View(s.tables, h)
  {
    hide MakeTable, EnsureTable;
    EnsureTableInv(s);
    var s1 := EnsureTable(s);
    MakeTableInv(s1);
    var s2 := if Fits(Head(s1), EntrySize(e)) then s1 else MakeTable(s1);
    assert Inv(Head(s2)) && Head(s2).capacity == s.tableSize;
    WriteHeadInv(s2, hkey, e);
    forall h
      ensures View(StoreRecord(s, hkey, e).tables, h) == if h == hkey then Some(Item(e)) else View(s.tables, h)
    {
      WriteHeadView(s2, hkey, e, h);
    }
  }

  /** Replacing one table by one that differs at a single key. */
  lemma ReplaceTable(s: Store, i: nat, t: Tbl, hkey: nat)
    requires StoreInv(s) && i < |s.tables| && hkey in s.tables[i].slots
    requires Inv(t) && t.capacity == s.tableSize && t.state == s.tables[i].state
    requires t.slots.Keys <= s.tables[i].slots.Keys
    requires forall h :: h != hkey ==> SameAt(s.tables[i], t, h)
    ensures StoreInv(s.(tables := s.tables[i := t]))
    ensures forall h :: View(s.tables[i := t], h) ==
                        if h != hkey then View(s.tables, h)
                        else if h in t.slots then Some(Item(t.slots[h].entry)) else None
  {
    hide Inv;
    var ts' := s.tables[i := t];
    forall h
      ensures View(ts', h) == if h != hkey then View(s.tables, h)
                              else if h in t.slots then Some(Item(t.slots[h].entry)) else None
    {
      if h != hkey {
        ViewSame(s.tables, ts', h);
      } else if h in t.slots {
        ViewUnique(ts', i, h);
      } else {
        ViewAbsent(ts', h);
      }
    }
  }

  lemma GetInv(s: Store, hkey: nat, now: Int64)
    requires StoreInv(s)
    ensures StoreInv(Get(s, hkey, now))
    ensures forall h :: View(Get(s, hkey, now).tables, h) == View(s.tables, h)
  {
    hide Inv;
    var i := Locate(s.tables, hkey);
    if i < |s.tables| {
      TouchInv(s.tables[i], hkey, now);
      ReplaceTable(s, i, Touch(s.tables[i], hkey, now), hkey);
      ViewUnique(s.tables, i, hkey);
    }
  }

  lemma DeleteKeyInv(s: Store, hkey: nat)
    requires StoreInv(s)
    ensures StoreInv(DeleteKey(s, hkey))
    ensures forall h :: View(DeleteKey(s, hkey).tables, h) == if h == hkey then None else View(s.tables, h)
  {
    hide Inv;
    var i := Locate(s.tables, hkey);
    if i < |s.tables| {
      DeleteInv(s.tables[i], hkey);
      ReplaceTable(s, i, Delete(s.tables[i], hkey), hkey);
    } else {
      ViewAbsent(s.tables, hkey);
    }
  }

  lemma UpdateTTLInv(s: Store, hkey: nat, ttl: Int64, timestamp: Int64, now: Int64)
    requires StoreInv(s)
    ensures StoreInv(UpdateTTL(s, hkey, ttl, timestamp, now))
    ensures forall h :: View(UpdateTTL(s, hkey, ttl, timestamp, now).tables, h) ==
                        if h == hkey && View(s.tables, h).Some?
                        then Some(View(s.tables, h).value.(ttl := ttl, timestamp := timestamp))
                        else View(s.tables, h)
  {
    hide Inv;
    var i := Locate(s.tables, hkey);
    if i < |s.tables| {
      TableModel.UpdateTTLInv(s.tables[i], hkey, ttl, timestamp, now);
      ReplaceTable(s, i, TableModel.UpdateTTL(s.tables[i], hkey, ttl, timestamp, now), hkey);
      ViewUnique(s.tables, i, hkey);
    } else {
      ViewAbsent(s.tables, hkey);
    }
  }

  // Termination of the retry loop

  /** The store after `n` failed attempts of the loop. */
  function Rollover(s: Store, n: nat): Store {
    if n == 0 then EnsureTable(s) else MakeTable(Rollover(s, n - 1))
  }

  lemma {:induction false} RolloverInv(s: Store, n: nat)
    requires StoreInv(s)
    ensures StoreInv(Rollover(s, n)) && Rollover(s, n).tables != [] && Rollover(s, n).tableSize == s.tableSize
    ensures n > 0 ==> Clean(Head(Rollover(s, n)))
  {
    hide StoreInv, MakeTable, EnsureTable;
    if n == 0 {
      EnsureTableInv(s);
    } else {
      RolloverInv(s, n - 1);
      MakeTableInv(Rollover(s, n - 1));
    }
  }

  /** Some attempt of the loop succeeds exactly for records shorter than a table, and then
      after at most one rollover. */
  lemma PutLoopTerminates(s: Store, size: nat)
    requires StoreInv(s)
    ensures (exists n: nat :: Rollover(s, n).tables != [] && Fits(Head(Rollover(s, n)), size)) <==> size < s.tableSize
    ensures size < s.tableSize ==> exists n: nat :: n <= 1 && Rollover(s, n).tables != [] && Fits(Head(Rollover(s, n)), size)
  {
    RolloverInv(s, 1);
    forall n: nat | size >= s.tableSize
      ensures Rollover(s, n).tables != [] && !Fits(Head(Rollover(s, n)), size)
    {
      RolloverInv(s, n);
      assert Inv(Head(Rollover(s, n)));
    }
    if size < s.tableSize {
      assert Fits(Head(Rollover(s, 1)), size);
    }
  }
}
