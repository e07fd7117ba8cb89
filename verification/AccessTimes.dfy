/** The last access time of a key: that of the last call that touched it. */
module AccessTimes {
  import opened Codec
  import opened TableModel
  import opened StoreModel
  import opened CompactionModel
  import opened StoreHistory
  import M = Merge

  /** Some table has this entry for the key. */
  ghost predicate Holds(ts: seq<Tbl>, h: nat, e: Entry) {
    exists i :: 0 <= i < |ts| && h in ts[i].slots && ts[i].slots[h].entry == e
  }

  /** What `us` has for the key, `ts` had. */
  ghost predicate Back(ts: seq<Tbl>, us: seq<Tbl>, h: nat) {
    forall e :: Holds(us, h, e) ==> Holds(ts, h, e)
  }

  /** Everything `us` has for the key was accessed at that time. */
  ghost predicate AccessedAt(us: seq<Tbl>, h: nat, now: Int64) {
    forall e :: Holds(us, h, e) ==> e.lastAccess == now
  }

  lemma HoldsLookup(ts: seq<Tbl>, h: nat)
    ensures Lookup(ts, h).Some? ==> Holds(ts, h, Lookup(ts, h).value)
  {
    LookupAt(ts, h);
  }

  lemma BackMakeTable(s: Store, h: nat)
    ensures Back(s.tables, MakeTable(s).tables, h)
  {
    var ts, r := SealHead(s.tables), MakeTable(s).tables;
    forall e | Holds(r, h, e)
      ensures Holds(s.tables, h, e)
    {
      var j :| 0 <= j < |r| && h in r[j].slots && r[j].slots[h].entry == e;
      var i := FirstRecycled(ts);
      var k := if i < |ts| then (if j == |r| - 1 then i else if j < i then j else j + 1) else j;
      assert k < |ts| && s.tables[k].slots == r[j].slots;
    }
  }

  lemma BackWriteHead(s: Store, k: nat, e: Entry, h: nat)
    requires s.tables != []
    ensures h != k ==> Back(s.tables, WriteHead(s, k, e).tables, h)
    ensures forall e' :: Holds(WriteHead(s, k, e).tables, k, e') ==> e' == e
  {
    WriteHeadTables(s, k, e);
    var r := WriteHead(s, k, e).tables;
    hide WriteHead;
    forall e' | Holds(r, h, e') && h != k
      ensures Holds(s.tables, h, e')
    {
      var j :| 0 <= j < |r| && h in r[j].slots && r[j].slots[h].entry == e';
      assert h in s.tables[j].slots && s.tables[j].slots[h].entry == e';
    }
  }

  lemma BackStoreRecord(s: Store, k: nat, e: Entry, h: nat)
    ensures h != k ==> Back(s.tables, StoreRecord(s, k, e).tables, h)
    ensures StoreRecord(s, k, e).tables != [] ==> forall e' :: Holds(StoreRecord(s, k, e).tables, k, e') ==> e' == e
    ensures Back(s.tables, EnsureTable(s).tables, h)
  {
    hide MakeTable, WriteHead, Holds;
    BackMakeTable(s, h);
    var s1 := EnsureTable(s);
    BackMakeTable(s1, h);
    if s1.tables != [] {
      BackWriteHead(s1, k, e, h);
    }
    if MakeTable(s1).tables != [] {
      BackWriteHead(MakeTable(s1), k, e, h);
    }
  }

  /** A table changed at one key. */
  lemma BackReplace(ts: seq<Tbl>, i: nat, t: Tbl, k: nat, h: nat)
    requires i < |ts| && h != k && forall g :: g in t.slots && g != k ==> g in ts[i].slots && t.slots[g].entry == ts[i].slots[g].entry
    ensures Back(ts, ts[i := t], h)
  {
    forall e | Holds(ts[i := t], h, e)
      ensures Holds(ts, h, e)
    {
      var j :| 0 <= j < |ts| && h in ts[i := t][j].slots && ts[i := t][j].slots[h].entry == e;
      assert h in ts[j].slots && ts[j].slots[h].entry == e;
    }
  }

  /** The key is changed where it is, and it is in no other table. */
  lemma ReplacedAt(ts: seq<Tbl>, i: nat, t: Tbl, k: nat, now: Int64)
    requires Unique(ts) && i < |ts| && k in ts[i].slots && k in t.slots && t.slots[k].entry.lastAccess == now
    ensures AccessedAt(ts[i := t], k, now)
  {
  }

  // Evictions

  lemma BackMoveEntry(x: Eviction, k: nat, now: Int64, h: nat)
    requires Evicting(x) && k in x.store.tables[x.pos].slots
    ensures h != k ==> Back(x.store.tables, MoveEntry(x, k, now).store.tables, h)
    ensures AccessedAt(MoveEntry(x, k, now).store.tables, k, now)
  {
    hide Inv, Unique, View, MakeTable, WriteHead, WriteBack, SameOver, Holds;
    RecordSize(x, k);
    var x1 := TouchEntry(x, k, now);
    var e := x1.store.tables[x1.pos].slots[k].entry;
    TouchKeeps(x, k, now);
    if h != k {
      BackReplace(x.store.tables, x.pos, x1.store.tables[x.pos], k, h);
    }
    BackMakeTable(x1.store, h);
    MakeTableInv(x1.store);
    AfterMakeTablePlace(x1);
    var x2 := MakeRoom(x1, EntrySize(e));
    WriteBackStore(x2, k, e);
    BackWriteHead(x2.store, k, e, h);
  }

  lemma {:induction false} BackMoveEntries(x: Eviction, keys: seq<nat>, now: Int64, h: nat)
    requires Evicting(x) && CompactionOK(x.store.tables[x.pos]) && Distinct(keys, x.store.tables[x.pos].slots.Keys)
    ensures h !in keys ==> Back(x.store.tables, MoveEntries(x, keys, now).store.tables, h)
    ensures h in keys ==> AccessedAt(MoveEntries(x, keys, now).store.tables, h, now)
    decreases |keys|
  {
    hide StoreInv, View, SameOver, MoveEntry, Holds;
    if keys != [] {
      var y := MoveEntry(x, keys[0], now);
      BackMoveEntry(x, keys[0], now, h);
      MoveEntryKeeps(x, keys[0], now);
      DistinctTail(keys, x.store.tables[x.pos].slots.Keys);
      BackMoveEntries(y, keys[1..], now, h);
      assert h in keys <==> h == keys[0] || h in keys[1..] by {
        assert keys == [keys[0]] + keys[1..];
      }
    }
  }

  lemma BackRecycle(x: Eviction, now: Int64, h: nat)
    ensures Back(x.store.tables, Recycle(x, now).tables, h)
  {
    var ts, r := x.store.tables, Recycle(x, now).tables;
    forall e | Holds(r, h, e)
      ensures Holds(ts, h, e)
    {
      var j :| 0 <= j < |r| && h in r[j].slots && r[j].slots[h].entry == e;
      assert h in ts[j].slots;
    }
  }

  lemma BackRemove(ts: seq<Tbl>, i: nat, h: nat)
    requires i < |ts|
    ensures Back(ts, RemoveAt(ts, i), h)
  {
    var r := RemoveAt(ts, i);
    forall e | Holds(r, h, e)
      ensures Holds(ts, h, e)
    {
      var j :| 0 <= j < |r| && h in r[j].slots && r[j].slots[h].entry == e;
      assert r[j] == ts[if j < i then j else j + 1];
    }
  }

  lemma {:induction false} BackCleanup(s: Store, i: nat, now: int, timeout: int, h: nat)
    ensures Back(s.tables, Cleanup(s, i, now, timeout).tables, h)
    decreases |s.tables| - i
  {
    hide Holds, Expired;
    if i < |s.tables| {
      if s.tables[i].state.Recycled? && Expired(s.tables[i], now, timeout) {
        if |s.tables| != 1 {
          BackRemove(s.tables, i, h);
          BackCleanup(s.(index := s.index - {s.tables[i].coefficient}, tables := RemoveAt(s.tables, i)), i, now, timeout, h);
        }
      } else {
        BackCleanup(s, i + 1, now, timeout, h);
      }
    }
  }

  lemma BackBegin(s: Store, i: nat, h: nat)
    requires i < |s.tables|
    ensures Back(s.tables, BeginEviction(s, i).store.tables, h)
  {
    hide Holds, MakeTable;
    BackMakeTable(s, h);
  }

  lemma CompactionAccess(s: Store, keys: seq<nat>, now: Int64, timeout: int, h: nat)
    requires StoreInv(s) && (s.tableSize > 0 || Done(s)) && (!Done(s) ==> IsOrder(s.tables[FirstOver(s.tables)], keys))
    ensures Done(s) || h !in keys ==> Back(s.tables, Compaction(s, keys, now, timeout).tables, h)
    ensures !Done(s) && h in keys ==> AccessedAt(Compaction(s, keys, now, timeout).tables, h, now)
  {
    hide StoreInv, View, BeginEviction, MoveEntries, IsOrder, SameOver, Cleanup, Recycle, Holds, First, Over;
    if Done(s) {
      BackCleanup(s, 0, now, timeout, h);
    } else {
      var i := FirstOver(s.tables);
      OverAt(s.tables);
      BeginEvictionKeeps(s, i);
      BackBegin(s, i, h);
      var x := BeginEviction(s, i);
      OrderDistinct(s.tables[i], keys);
      SlotsSame(x.store.tables[x.pos], s.tables[i]);
      BackMoveEntries(x, keys, now, h);
      BackRecycle(MoveEntries(x, keys, now), now, h);
    }
  }

  lemma SlotsSame(t: Tbl, u: Tbl)
    requires t.(state := ReadOnly) == u.(state := ReadOnly)
    ensures t.slots == u.slots
  {
  }

  // Calls

  /** The access time a call gives the key, if it touches it. A raw record brings its own. */
  ghost function Touches(s: Store, op: Op, h: nat): Option<Int64>
    requires Legal(s, op)
  {
    match op
    case OpPut(g, e, now) => if g == h && 29 + |e.key| + |e.value| < s.tableSize && |e.key| < 256 then Some(now) else None
    case OpPutRaw(g, raw) => if g == h && |raw| < s.tableSize then Some(Parse(raw).lastAccess) else None
    case OpGet(g, now) => if g == h then Some(now) else None
    case OpUpdateTTL(g, _, _, now) => if g == h then Some(now) else None
    case OpCompaction(keys, now, _) => if !AllBelow(s.tables) && h in keys then Some(now) else None
    case OpDelete(_) => None
    case OpDrop(_, _) => None
  }

  lemma PutAccess(s: Store, op: Op, h: nat)
    requires Legal(s, op) && (op.OpPut? || op.OpPutRaw?)
    ensures Touches(s, op, h).None? ==> Back(s.tables, Apply(s, op).tables, h)
    ensures Touches(s, op, h).Some? ==> AccessedAt(Apply(s, op).tables, h, Touches(s, op, h).value)
  {
    hide StoreRecord, EnsureTable, Holds;
    var e := if op.OpPut? then op.entry.(lastAccess := op.now) else Parse(op.raw);
    BackStoreRecord(s, op.hkey, e, h);
    StoreRecordSome(s, op.hkey, e);
  }

  lemma KeyAccess(s: Store, op: Op, h: nat)
    requires Unique(s.tables) && (op.OpGet? || op.OpUpdateTTL?)
    ensures h != op.hkey ==> Back(s.tables, Apply(s, op).tables, h)
    ensures AccessedAt(Apply(s, op).tables, op.hkey, op.now)
  {
    hide Holds, Unique;
    var ts, i := s.tables, Locate(s.tables, op.hkey);
    if i == |ts| {
      NowhereAccess(ts, op.hkey, op.now);
    } else {
      var t := if op.OpGet? then Touch(ts[i], op.hkey, op.now) else TableModel.UpdateTTL(ts[i], op.hkey, op.ttl, op.timestamp, op.now);
      ReplaceAccess(ts, i, t, op.hkey, op.now, h);
    }
  }

  lemma DeleteKeyAccess(s: Store, k: nat, h: nat)
    ensures Back(s.tables, DeleteKey(s, k).tables, h)
  {
    hide Delete;
    var i := Locate(s.tables, k);
    if i < |s.tables| {
      DeleteAccess(s.tables, i, k, h);
    }
  }

  lemma StepAccess(s: Store, op: Op, h: nat)
    requires StoreInv(s) && s.tableSize > 0 && Legal(s, op)
    ensures Touches(s, op, h).None? ==> Back(s.tables, Apply(s, op).tables, h)
    ensures Touches(s, op, h).Some? ==> AccessedAt(Apply(s, op).tables, h, Touches(s, op, h).value)
  {
    hide StoreInv, Holds, StoreRecord, EnsureTable, Get, DeleteKey, StoreModel.UpdateTTL, Compaction, IsOrder;
    match op
    case OpPut(_, _, _) => PutAccess(s, op, h);
    case OpPutRaw(_, _) => PutAccess(s, op, h);
    case OpGet(_, _) =>
      UniqueTables(s);
      KeyAccess(s, op, h);
    case OpUpdateTTL(_, _, _, _) =>
      UniqueTables(s);
      KeyAccess(s, op, h);
    case OpDelete(g) => DeleteKeyAccess(s, g, h);
    case OpCompaction(keys, now, timeout) =>
      DoneIff(s);
      CompactionAccess(s, keys, now, timeout, h);
    case OpDrop(i, _) => BackRemove(s.tables, i, h);
  }

  lemma StoreRecordSome(s: Store, k: nat, e: Entry)
    ensures StoreRecord(s, k, e).tables != []
  {
    hide WriteHead;
    if EnsureTable(s).tables != [] {
      WriteHeadTables(EnsureTable(s), k, e);
      WriteHeadTables(MakeTable(EnsureTable(s)), k, e);
    }
  }

  lemma ReplaceAccess(ts: seq<Tbl>, i: nat, t: Tbl, k: nat, now: Int64, h: nat)
    requires Unique(ts) && i < |ts| && k in ts[i].slots && k in t.slots && t.slots[k].entry.lastAccess == now
    requires forall g :: g in t.slots && g != k ==> g in ts[i].slots && t.slots[g].entry == ts[i].slots[g].entry
    ensures h != k ==> Back(ts, ts[i := t], h)
    ensures AccessedAt(ts[i := t], k, now)
  {
    if h != k {
      BackReplace(ts, i, t, k, h);
    }
    ReplacedAt(ts, i, t, k, now);
  }

  lemma NowhereAccess(ts: seq<Tbl>, k: nat, now: Int64)
    requires Locate(ts, k) == |ts|
    ensures AccessedAt(ts, k, now)
  {
  }

  lemma DeleteAccess(ts: seq<Tbl>, i: nat, k: nat, h: nat)
    requires i < |ts|
    ensures Back(ts, ts[i := Delete(ts[i], k)], h)
  {
    var us := ts[i := Delete(ts[i], k)];
    forall e | Holds(us, h, e)
      ensures Holds(ts, h, e)
    {
      var j :| 0 <= j < |us| && h in us[j].slots && us[j].slots[h].entry == e;
      assert h in ts[j].slots && ts[j].slots[h].entry == e;
    }
  }

  /** A merged entry, won or lost, is accessed when it is merged; no other key is. */
  lemma MergeAccess(s: Store, p: M.Pair, now: Int64, h: nat)
    requires StoreInv(s) && M.Transferable(s, p.entry)
    ensures h != p.hkey ==> Back(s.tables, M.MergeInto(s, p, now).tables, h)
    ensures AccessedAt(M.MergeInto(s, p, now).tables, p.hkey, now)
  {
    hide StoreInv, Holds, StoreRecord, EnsureTable, Lookup;
    UniqueTables(s);
    KeyAccess(s, OpGet(p.hkey, now), h);
    var touched, e := Get(s, p.hkey, now), p.entry.(lastAccess := now);
    assert Apply(s, OpGet(p.hkey, now)) == touched;
    BackStoreRecord(s, p.hkey, e, h);
    BackStoreRecord(touched, p.hkey, e, h);
    StoreRecordSome(s, p.hkey, e);
    StoreRecordSome(touched, p.hkey, e);
  }

  // Histories

  /** Call `k` of the history gives the key the access time `t`. */
  ghost predicate TouchedBy(s: Store, ops: seq<Op>, k: nat, h: nat, t: Option<Int64>)
    requires LegalRun(s, ops) && k < |ops|
  {
    LegalRun(s, ops[..k]) && Legal(Run(s, ops[..k]), ops[k]) && Touches(Run(s, ops[..k]), ops[k], h) == t
  }

  lemma TouchedLater(s: Store, ops: seq<Op>, k: nat, h: nat, t: Option<Int64>)
    requires LegalRun(s, ops) && ops != [] && k < |ops| - 1 && TouchedBy(Apply(s, ops[0]), ops[1..], k, h, t)
    ensures TouchedBy(s, ops, k + 1, h, t)
  {
    hide Apply, Legal, Touches;
    assert ops[..k + 1][0] == ops[0] && ops[..k + 1][1..] == ops[1..][..k];
  }

  lemma TouchedFirst(s: Store, ops: seq<Op>, h: nat)
    requires LegalRun(s, ops) && ops != []
    ensures TouchedBy(s, ops, 0, h, Touches(s, ops[0], h))
  {
    hide Apply, Legal, Touches;
    assert ops[..0] == [];
  }

  /** Of an entry found after the history: the last call that touched its key, at -1 none. */
  lemma {:induction false} RunAccess(s: Store, ops: seq<Op>, h: nat, e: Entry) returns (k: int)
    requires StoreInv(s) && s.tableSize > 0 && LegalRun(s, ops) && Holds(Run(s, ops).tables, h, e)
    ensures -1 <= k < |ops|
    ensures if k < 0 then Holds(s.tables, h, e) else TouchedBy(s, ops, k, h, Some(e.lastAccess))
    ensures forall j :: k < j < |ops| ==> TouchedBy(s, ops, j, h, None)
    decreases |ops|
  {
    hide StoreInv, Holds, Apply, Legal, Touches, TouchedBy;
    k := -1;
    if ops != [] {
      StepStore(s, ops[0]);
      var rest := RunAccess(Apply(s, ops[0]), ops[1..], h, e);
      forall j | 0 <= j < |ops| - 1 && TouchedBy(Apply(s, ops[0]), ops[1..], j, h, None)
        ensures TouchedBy(s, ops, j + 1, h, None)
      {
        TouchedLater(s, ops, j, h, None);
      }
      StepAccess(s, ops[0], h);
      TouchedFirst(s, ops, h);
      if rest >= 0 {
        TouchedLater(s, ops, rest, h, Some(e.lastAccess));
        k := rest + 1;
      } else if Touches(s, ops[0], h).Some? {
        k := 0;
      }
      forall j | k < j < |ops|
        ensures TouchedBy(s, ops, j, h, None)
      {
        if j > 0 {
          assert TouchedBy(Apply(s, ops[0]), ops[1..], j - 1, h, None);
        }
      }
    }
  }

  /** After any history of a new or forked engine, drops and compactions included, the last
      access of a key is the time its last touching call gave it. */
  lemma LastAccessIs(s: Store, ops: seq<Op>, h: nat) returns (k: nat)
    requires Initial(s) && s.tableSize > 0 && LegalRun(s, ops) && Lookup(Run(s, ops).tables, h).Some?
    ensures k < |ops| && TouchedBy(s, ops, k, h, Some(Lookup(Run(s, ops).tables, h).value.lastAccess))
    ensures forall j :: k < j < |ops| ==> TouchedBy(s, ops, j, h, None)
  {
    hide StoreInv, Run, LegalRun, TouchedBy, Refines;
    InitialInv(s);
    HoldsLookup(Run(s, ops).tables, h);
    var i := RunAccess(s, ops, h, Lookup(Run(s, ops).tables, h).value);
    k := i;
  }
}
