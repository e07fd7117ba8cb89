/** What the engine's calls do to its tables, in the tables' own numbers: where a record is
    written, which table is reused, what an eviction and the clean-up leave, who may be written
    to, and when a key was last accessed. */
module EngineLaws {
  import opened Codec
  import opened TableModel
  import opened StoreModel
  import opened CompactionModel
  import opened StoreHistory

  // New heads

  /** A rollover seals the tail. The first recycled table before it becomes the new one, and only
      without such a table is one added. */
  lemma MakeTableIs(s: Store) returns (i: nat)
    requires s.tables != []
    ensures var n := |s.tables| - 1;
            var r := MakeTable(s);
            var sealed := s.tables[n := s.tables[n].(state := ReadOnly)];
            && i <= n && (forall j :: 0 <= j < i ==> !s.tables[j].state.Recycled?)
            && (i < n ==> s.tables[i].state.Recycled?)
            && r.tables == (if i < n then sealed[..i] + sealed[i + 1..] + [sealed[i].(coefficient := s.coefficient, state := ReadWrite)]
                            else sealed + [NewTable(s.tableSize, s.coefficient)])
            && r.coefficient == s.coefficient + 1 && r.index == s.index + {s.coefficient} && r.tableSize == s.tableSize
  {
    var n := |s.tables| - 1;
    var sealed := s.tables[n := s.tables[n].(state := ReadOnly)];
    assert SealHead(s.tables) == sealed;
    i := FirstRecycled(sealed);
    if i < |sealed| {
      assert i != n && RemoveAt(sealed, i) == sealed[..i] + sealed[i + 1..];
      assert forall j :: 0 <= j < i ==> sealed[j] == s.tables[j];
    } else {
      i := n;
      assert forall j :: 0 <= j < n ==> sealed[j] == s.tables[j];
    }
  }

  /** A new table is empty and writable, and was never recycled. */
  lemma NewTableIs(size: nat, coefficient: nat)
    ensures var t := NewTable(size, coefficient);
            && t.coefficient == coefficient && t.capacity == size && t.state == ReadWrite
            && t.offset == 0 && t.inuse == 0 && t.garbage == 0 && t.recycledAt == 0 && t.slots == map[] && t.offsetIndex == {}
  {
  }

  /** Put does not return exactly when its checks pass and no attempt of its loop ever finds room. */
  lemma PutNeverReturns(s: Store, e: Entry)
    requires StoreInv(s)
    ensures PutLoops(s, e) <==>
              && 29 + |e.key| + |e.value| <= s.tableSize && |e.key| < 256
              && !exists n: nat :: Rollover(s, n).tables != [] && Fits(Head(Rollover(s, n)), 29 + |e.key| + |e.value|)
    ensures PutResult(s, e).PutOk? <==> 29 + |e.key| + |e.value| <= s.tableSize && |e.key| < 256
    ensures PutResult(s, e).EntryTooLarge? <==> 29 + |e.key| + |e.value| > s.tableSize
  {
    PutLoopTerminates(s, 29 + |e.key| + |e.value|);
  }

  /** A record goes behind the last one of the tail if the tail has room for it, and otherwise to
      the front of a new one. */
  lemma StoreRecordPlaces(s: Store, h: nat, e: Entry)
    requires StoreInv(s) && s.tables != [] && Encodable(e) && 29 + |e.key| + |e.value| < s.tableSize
    ensures var size := 29 + |e.key| + |e.value|;
            var r := StoreRecord(s, h, e);
            && r.tables != [] && h in Head(r).slots && Head(r).slots[h].entry == e
            && (size + Head(s).offset < s.tableSize ==>
                  |r.tables| == |s.tables| && Head(r).slots[h].offset == Head(s).offset && Head(r).offset == Head(s).offset + size)
            && (size + Head(s).offset >= s.tableSize ==> Head(r).slots[h].offset == 0 && Head(r).offset == size)
  {
    hide Inv, Unique, MakeTable, WriteHead;
    assert Head(s).capacity == s.tableSize;
    MakeTableInv(s);
    WriteHeadTables(s, h, e);
    WriteHeadTables(MakeTable(s), h, e);
    assert Head(MakeTable(s)).capacity == s.tableSize;
  }

  // Evictions

  /** The same for an entry that an eviction moves. */
  lemma MoveEntryPlaces(x: Eviction, h: nat, now: Int64)
    requires Evicting(x) && h in x.store.tables[x.pos].slots
    ensures var e := x.store.tables[x.pos].slots[h].entry;
            var size := 29 + |e.key| + |e.value|;
            var r := MoveEntry(x, h, now).store;
            && r.tables != [] && h in Head(r).slots && Head(r).slots[h].entry == e.(lastAccess := now)
            && (size + Head(x.store).offset < x.store.tableSize ==>
                  |r.tables| == |x.store.tables| && Head(r).slots[h].offset == Head(x.store).offset)
            && (size + Head(x.store).offset >= x.store.tableSize ==> Head(r).slots[h].offset == 0)
  {
    hide Inv, Unique, View, MakeTable, WriteHead, WriteBack, SameOver;
    assert Head(x.store).capacity == x.store.tableSize;
    RecordSize(x, h);
    var x1 := TouchEntry(x, h, now);
    var e := x1.store.tables[x1.pos].slots[h].entry;
    TouchKeeps(x, h, now);
    assert Head(x1.store) == Head(x.store);
    MakeTableInv(x1.store);
    AfterMakeTablePlace(x1);
    var x2 := MakeRoom(x1, EntrySize(e));
    WriteBackStore(x2, h, e);
    WriteHeadTables(x2.store, h, e);
  }

  /** A table without live entries that is not the tail is recycled by one call, and nothing
      else changes. */
  lemma DrainedRecycled(s: Store, i: nat, now: Int64)
    requires StoreInv(s) && i < |s.tables| - 1 && s.tables[i].slots == map[]
    ensures var recycled := NewTable(s.tableSize, 0).(state := Recycled, recycledAt := now);
            Evict(s, i, [], now) == s.(index := s.index - {s.tables[i].coefficient}, tables := s.tables[i := recycled])
  {
    assert Inv(s.tables[i]);
    NoLiveBytes(s.tables[i]);
    ResetClean(s.tables[i], now);
  }

  /** One call moves up to 1001 entries of the evicted table; if those were all, the table is
      recycled. */
  lemma EvictLeaves(s: Store, keys: seq<nat>, now: Int64, timeout: int) returns (i: nat, p: nat)
    requires StoreInv(s) && s.tableSize > 0 && !Done(s) && IsOrder(s.tables[FirstOver(s.tables)], keys)
    ensures i < |s.tables| && 5 * s.tables[i].garbage >= 2 * s.tables[i].capacity && AllBelow(s.tables[..i])
    ensures var t := s.tables[i];
            var r := Compaction(s, keys, now, timeout);
            && p < |r.tables|
            && (|t.slots| <= 1001 ==> r.tables[p] == NewTable(s.tableSize, 0).(state := Recycled, recycledAt := now))
            && (|t.slots| > 1001 ==>
                  && r.tables[p].coefficient == t.coefficient && |r.tables[p].slots| == |t.slots| - 1001
                  && r.tables[p].slots.Keys < t.slots.Keys)
  {
    DoneIff(s);
    i := EvictsFirst(s, keys, now, timeout);
    hide StoreInv, View, BeginEviction, MoveEntries, IsOrder, SameOver, AllBelow, First, Over, Inv;
    assert CompactionOK(s.tables[i]);
    var t := s.tables[i];
    BeginEvictionKeeps(s, i);
    var x := BeginEviction(s, i);
    OrderDistinct(t, keys);
    OrderSize(t, keys);
    MoveEntriesKeeps(x, keys, now);
    var y := MoveEntries(x, keys, now);
    RecycleKeeps(y, now);
    p := y.pos;
    TableAt(y.store, p);
    var u := y.store.tables[p];
    assert |t.slots.Keys| == |t.slots| && |u.slots.Keys| == |u.slots|;
    if u.inuse == 0 {
      ResetClean(u, now);
    } else if |t.slots| > 1001 {
      assert keys[0] in t.slots.Keys && keys[0] !in u.slots.Keys;
    }
  }

  lemma OrderSize(t: Tbl, keys: seq<nat>)
    requires IsOrder(t, keys)
    ensures |keys| == if |t.slots.Keys| <= 1001 then |t.slots.Keys| else 1001
    ensures forall k :: k in keys ==> k in t.slots && k in Elements(keys)
  {
  }

  lemma TableAt(s: Store, p: nat)
    requires StoreInv(s) && p < |s.tables|
    ensures Inv(s.tables[p]) && s.tables[p].capacity == s.tableSize
  {
  }

  // The clean-up

  /** A recycled table whose timeout has passed, to the millisecond. */
  predicate TimedOut(t: Tbl, now: int, timeout: int) {
    var limit := timeout + t.recycledAt;
    t.state.Recycled? && now >= limit - limit % 1_000_000
  }

  lemma TimedOutIff(t: Tbl, now: int, timeout: int)
    ensures TimedOut(t, now, timeout) <==> Droppable(t, now, timeout)
  {
    var limit := timeout + t.recycledAt;
    assert now / 1000000 >= limit / 1000000 <==> now >= limit - limit % 1000000;
  }

  function Staying(ts: seq<Tbl>, now: int, timeout: int): seq<Tbl> {
    if ts == [] then []
    else if TimedOut(ts[0], now, timeout) then Staying(ts[1..], now, timeout)
    else [ts[0]] + Staying(ts[1..], now, timeout)
  }

  lemma {:induction false} StayingConcat(a: seq<Tbl>, b: seq<Tbl>, now: int, timeout: int)
    ensures Staying(a + b, now, timeout) == Staying(a, now, timeout) + Staying(b, now, timeout)
  {
    hide TimedOut;
    if a == [] {
      assert a + b == b;
    } else {
      assert (a + b)[0] == a[0] && (a + b)[1..] == a[1..] + b;
      StayingConcat(a[1..], b, now, timeout);
    }
  }

  lemma {:induction false} StayingAll(ts: seq<Tbl>, now: int, timeout: int)
    requires forall i :: 0 <= i < |ts| ==> !TimedOut(ts[i], now, timeout)
    ensures Staying(ts, now, timeout) == ts
  {
    hide TimedOut;
    if ts != [] {
      assert forall i :: 0 <= i < |ts[1..]| ==> ts[1..][i] == ts[i + 1];
      StayingAll(ts[1..], now, timeout);
    }
  }

  lemma StayingRemove(ts: seq<Tbl>, i: nat, now: int, timeout: int)
    requires i < |ts| && TimedOut(ts[i], now, timeout)
    ensures Staying(RemoveAt(ts, i), now, timeout) == Staying(ts, now, timeout)
  {
    hide TimedOut;
    StayingConcat(ts[..i], ts[i..], now, timeout);
    StayingConcat(ts[..i], ts[i + 1..], now, timeout);
    assert ts == ts[..i] + ts[i..] && ts[i..][1..] == ts[i + 1..];
  }

  lemma StayingHas(ts: seq<Tbl>, i: nat, now: int, timeout: int)
    requires i < |ts| && !TimedOut(ts[i], now, timeout)
    ensures Staying(ts, now, timeout) != []
  {
    hide TimedOut;
    StayingConcat(ts[..i], ts[i..], now, timeout);
    assert ts == ts[..i] + ts[i..];
  }

  /** The clean-up loop leaves the tables that have not timed out, in their order; if there are
      none it leaves the tail. */
  lemma {:induction false} CleanupIs(s: Store, i: nat, now: int, timeout: int)
    requires i <= |s.tables| && forall j :: 0 <= j < i ==> !TimedOut(s.tables[j], now, timeout)
    ensures var kept := Staying(s.tables, now, timeout);
            Cleanup(s, i, now, timeout).tables == if kept == [] && s.tables != [] then [Head(s)] else kept
    decreases |s.tables| - i
  {
    hide TimedOut, Staying, Expired;
    var ts, n := s.tables, |s.tables| - 1;
    if i > n {
      StayingAll(ts, now, timeout);
      if ts != [] {
        StayingHas(ts, 0, now, timeout);
      }
    } else {
      TimedOutIff(ts[i], now, timeout);
      if !TimedOut(ts[i], now, timeout) {
        CleanupIs(s, i + 1, now, timeout);
      } else {
        StayingRemove(ts, i, now, timeout);
        if n == 0 {
          StayingNone(now, timeout);
          assert RemoveAt(ts, 0) == [];
        } else {
          var s' := s.(index := s.index - {ts[i].coefficient}, tables := RemoveAt(ts, i));
          CleanupIs(s', i, now, timeout);
          if i == n {
            StayingHas(ts, 0, now, timeout);
          }
        }
      }
    }
  }

  lemma StayingNone(now: int, timeout: int)
    ensures Staying([], now, timeout) == []
  {
  }

  // Drops

  /** A drop takes out one table and its coefficient, and nothing else. */
  lemma DropIs(s: Store, i: nat)
    requires i < |s.tables|
    ensures var r := Drop(s, i);
            && |r.tables| == |s.tables| - 1 && (forall j :: 0 <= j < |r.tables| ==> r.tables[j] == s.tables[if j < i then j else j + 1])
            && (forall cf :: cf in r.index <==> cf in s.index && cf != s.tables[i].coefficient)
            && r.coefficient == s.coefficient && r.tableSize == s.tableSize
  {
  }

  // Who may be written to

  /** The tail can be written to, and no other table. */
  predicate Roles(ts: seq<Tbl>) {
    ts != [] ==> ts[|ts| - 1].state.ReadWrite? && forall i :: 0 <= i < |ts| - 1 ==> !ts[i].state.ReadWrite?
  }

  /** Same tables in the same states, whatever they hold. */
  predicate SameStates(ts: seq<Tbl>, us: seq<Tbl>) {
    |ts| == |us| && forall i :: 0 <= i < |ts| ==> ts[i].state == us[i].state
  }

  lemma RolesMakeTable(s: Store)
    requires Roles(s.tables)
    ensures Roles(MakeTable(s).tables) && MakeTable(s).tables != []
  {
    if s.tables != [] {
      var i := MakeTableIs(s);
    }
  }

  lemma RolesWriteHead(s: Store, h: nat, e: Entry)
    requires s.tables != []
    ensures SameStates(s.tables, WriteHead(s, h, e).tables)
  {
    WriteHeadTables(s, h, e);
  }

  lemma RolesStoreRecord(s: Store, h: nat, e: Entry)
    requires Roles(s.tables)
    ensures Roles(StoreRecord(s, h, e).tables) && Roles(EnsureTable(s).tables)
  {
    hide MakeTable, WriteHead;
    RolesMakeTable(s);
    var s1 := EnsureTable(s);
    RolesMakeTable(s1);
    RolesWriteHead(s1, h, e);
    RolesWriteHead(MakeTable(s1), h, e);
  }

  lemma {:induction false} RolesMoveEntries(x: Eviction, keys: seq<nat>, now: Int64)
    requires Evicting(x) && CompactionOK(x.store.tables[x.pos]) && Distinct(keys, x.store.tables[x.pos].slots.Keys)
    requires Roles(x.store.tables)
    ensures Roles(MoveEntries(x, keys, now).store.tables)
    decreases |keys|
  {
    hide StoreInv, View, SameOver, MoveEntry, Roles;
    if keys != [] {
      RolesMoveEntry(x, keys[0], now);
      MoveEntryKeeps(x, keys[0], now);
      DistinctTail(keys, x.store.tables[x.pos].slots.Keys);
      RolesMoveEntries(MoveEntry(x, keys[0], now), keys[1..], now);
    }
  }

  lemma RolesMoveEntry(x: Eviction, h: nat, now: Int64)
    requires Evicting(x) && h in x.store.tables[x.pos].slots && Roles(x.store.tables)
    ensures Roles(MoveEntry(x, h, now).store.tables)
  {
    hide Inv, Unique, View, MakeTable, WriteHead, WriteBack, SameOver;
    var x1 := TouchEntry(x, h, now);
    var e := x1.store.tables[x1.pos].slots[h].entry;
    RecordSize(x, h);
    TouchKeeps(x, h, now);
    RolesMakeTable(x1.store);
    AfterMakeTablePlace(x1);
    var x2 := MakeRoom(x1, EntrySize(e));
    WriteBackStore(x2, h, e);
    RolesWriteHead(x2.store, h, e);
  }

  lemma RolesCompaction(s: Store, keys: seq<nat>, now: Int64, timeout: int)
    requires StoreInv(s) && s.tableSize > 0 && Roles(s.tables) && (!Done(s) ==> IsOrder(s.tables[FirstOver(s.tables)], keys))
    ensures Roles(Compaction(s, keys, now, timeout).tables)
  {
    hide StoreInv, View, MoveEntries, IsOrder, SameOver, MakeTable, Cleanup, Roles, First, Over;
    if Done(s) {
      RolesCleanup(s, 0, now, timeout);
    } else {
      var i := FirstOver(s.tables);
      OverAt(s.tables);
      BeginEvictionKeeps(s, i);
      RolesMakeTable(s);
      var x := BeginEviction(s, i);
      OrderDistinct(s.tables[i], keys);
      SameKeys(x.store.tables[x.pos], s.tables[i]);
      MoveEntriesKeeps(x, keys, now);
      RolesMoveEntries(x, keys, now);
      RolesRecycle(MoveEntries(x, keys, now), now);
    }
  }

  lemma SameKeys(t: Tbl, u: Tbl)
    requires t.(state := ReadOnly) == u.(state := ReadOnly)
    ensures t.slots == u.slots
  {
  }

  lemma RolesRecycle(x: Eviction, now: Int64)
    requires x.pos < |x.store.tables| - 1 && Roles(x.store.tables)
    ensures Roles(Recycle(x, now).tables)
  {
  }

  lemma {:induction false} RolesCleanup(s: Store, i: nat, now: int, timeout: int)
    requires Roles(s.tables)
    ensures Roles(Cleanup(s, i, now, timeout).tables)
    decreases |s.tables| - i
  {
    hide Expired;
    if i < |s.tables| {
      if s.tables[i].state.Recycled? && Expired(s.tables[i], now, timeout) {
        if |s.tables| != 1 {
          RolesCleanup(s.(index := s.index - {s.tables[i].coefficient}, tables := RemoveAt(s.tables, i)), i, now, timeout);
        }
      } else {
        RolesCleanup(s, i + 1, now, timeout);
      }
    }
  }

  lemma RolesStep(s: Store, op: Op)
    requires StoreInv(s) && s.tableSize > 0 && Legal(s, op) && !op.OpDrop? && Roles(s.tables)
    ensures Roles(Apply(s, op).tables)
  {
    hide StoreInv, Compaction, StoreRecord, EnsureTable;
    match op
    case OpPut(h, e, now) => RolesStoreRecord(s, h, e.(lastAccess := now));
    case OpPutRaw(h, raw) => RolesStoreRecord(s, h, Parse(raw));
    case OpCompaction(keys, now, timeout) => RolesCompaction(s, keys, now, timeout);
    case OpGet(_, _) => assert SameStates(s.tables, Apply(s, op).tables);
    case OpDelete(_) => assert SameStates(s.tables, Apply(s, op).tables);
    case OpUpdateTTL(_, _, _, _) => assert SameStates(s.tables, Apply(s, op).tables);
  }

  /** After any history without drops the tail can be written to, and no other table. */
  lemma {:induction false} RunRoles(s: Store, ops: seq<Op>)
    requires StoreInv(s) && s.tableSize > 0 && Roles(s.tables) && LegalRun(s, ops) && DropFree(ops)
    ensures Roles(Run(s, ops).tables)
    decreases |ops|
  {
    hide StoreInv, Roles, Apply, Legal;
    if ops != [] {
      StepStore(s, ops[0]);
      RolesStep(s, ops[0]);
      assert forall i :: 0 <= i < |ops[1..]| ==> ops[1..][i] == ops[i + 1];
      RunRoles(Apply(s, ops[0]), ops[1..]);
    }
  }
}
