/** Two histories of a new or forked engine with tables of a hundred bytes: one after which a scan misses
    a live entry, and one in which a compaction loses an entry. */
module StoreExamples {
  import opened Codec
  import opened TableModel
  import opened StoreModel
  import opened CompactionModel
  import opened StoreHistory

  const MINUTE: int := 60_000_000_000
  const TIMEOUT: int := 15 * MINUTE

  /** An entry of 31 bytes and one of 90: a table holds one of each only in two tables. */
  function Small(): Entry {
    Entry([1], 0, 0, 0, [2])
  }

  function Big(): Entry {
    Entry([1], 0, 0, 0, seq(60, i => 3))
  }

  lemma Sizes()
    ensures EntrySize(Small()) == 31 && EntrySize(Big()) == 90
    ensures Encodable(Small()) && Encodable(Big())
    ensures Small().(lastAccess := 0) == Small() && Big().(lastAccess := 0) == Big()
  {
  }

  // Tables

  /** One entry and nothing else. */
  function Holding(cf: nat, h: nat, e: Entry, state: TableState): Tbl {
    Tbl(cf, EntrySize(e), 100, EntrySize(e), 0, 0, state, map[h := Slot(0, e)], {0})
  }

  /** The same table after its entry was deleted. */
  function Drained(cf: nat, e: Entry, state: TableState): Tbl {
    Tbl(cf, EntrySize(e), 100, 0, EntrySize(e), 0, state, map[], {})
  }

  function RecycledTable(at: int): Tbl {
    NewTable(100, 0).(state := Recycled, recycledAt := at)
  }

  lemma AppendNew(cf: nat, h: nat, e: Entry)
    ensures Append(NewTable(100, cf), h, e) == Holding(cf, h, e, ReadWrite)
  {
  }

  lemma DeleteOnly(cf: nat, h: nat, e: Entry, state: TableState)
    ensures Delete(Holding(cf, h, e, state), h) == Drained(cf, e, state)
  {
    var t := Holding(cf, h, e, state);
    assert t.slots - {h} == map[] && t.offsetIndex - {0} == {};
  }

  lemma ResetDrained(cf: nat, e: Entry, state: TableState, now: Int64)
    ensures Reset(Drained(cf, e, state), now) == RecycledTable(now)
  {
  }

  // Calls

  /** Tables that do not hold `h`. */
  ghost predicate Without(ts: seq<Tbl>, h: nat) {
    forall i :: 0 <= i < |ts| ==> h !in ts[i].slots
  }

  /** A write for which the head has no room goes to a new table, when none is recycled. */
  lemma PutRolls(s: Store, h: nat, e: Entry)
    requires s.tableSize == 100 && s.tables != [] && Without(s.tables, h) && (e == Small() || e == Big())
    requires FirstRecycled(SealHead(s.tables)) == |s.tables| && !Fits(Head(s), EntrySize(e))
    ensures !PutLoops(s, e)
    ensures Put(s, h, e, 0) == s.(tables := SealHead(s.tables) + [Holding(s.coefficient, h, e, ReadWrite)],
                                  index := s.index + {s.coefficient}, coefficient := s.coefficient + 1)
  {
    Sizes();
    var s1 := MakeTable(s);
    var ts := SealHead(s.tables);
    assert s1.tables == ts + [NewTable(100, s.coefficient)];
    AppendNew(s.coefficient, h, e);
    WriteHeadTables(s1, h, e);
    hide Append, Delete, MakeTable, SealHead;
    var r := WriteHead(s1, h, e).tables;
    forall i | 0 <= i < |ts|
      ensures r[i] == ts[i]
    {
      DeleteAbsent(s1.tables[i], h);
    }
    assert r == ts + [Holding(s.coefficient, h, e, ReadWrite)];
  }

  lemma DeleteAbsent(t: Tbl, h: nat)
    requires h !in t.slots
    ensures Delete(t, h) == t
  {
  }

  lemma FirstPut(h: nat, e: Entry)
    requires e == Small() || e == Big()
    ensures !PutLoops(NewStore(100), e)
    ensures Put(NewStore(100), h, e, 0) == Store(1, 100, {0}, [Holding(0, h, e, ReadWrite)])
  {
    Sizes();
    var s1 := MakeTable(NewStore(100));
    assert s1 == Store(1, 100, {0}, [NewTable(100, 0)]);
    AppendNew(0, h, e);
    WriteHeadTables(s1, h, e);
    assert WriteHead(s1, h, e).tables == [Holding(0, h, e, ReadWrite)];
  }

  lemma DeleteAt(s: Store, i: nat, cf: nat, h: nat, e: Entry, state: TableState)
    requires i < |s.tables| && s.tables[i] == Holding(cf, h, e, state) && Unique(s.tables)
    ensures DeleteKey(s, h) == s.(tables := s.tables[i := Drained(cf, e, state)])
  {
    assert h in s.tables[i].slots;
    ViewUnique(s.tables, i, h);
    DeleteOnly(cf, h, e, state);
  }

  /** Compacting a drained table that is not the tail recycles it. */
  lemma CompactDrained(s: Store, i: nat, cf: nat, e: Entry, now: Int64)
    requires i < |s.tables| - 1 && s.tables[i] == Drained(cf, e, ReadOnly) && e == Big()
    requires forall j :: 0 <= j < i ==> !CompactionOK(s.tables[j])
    ensures Legal(s, OpCompaction([], now, TIMEOUT))
    ensures Compaction(s, [], now, TIMEOUT) == s.(index := s.index - {cf}, tables := s.tables[i := RecycledTable(now)])
  {
    Sizes();
    FirstIs(Over(s.tables), i);
    ResetDrained(cf, e, ReadOnly, now);
    hide Over, First, Reset;
    assert IsOrder(s.tables[i], []);
    var x := BeginEviction(s, i);
    assert MoveEntries(x, [], now) == x;
  }

  /** Compacting a drained tail starts a new tail and recycles the old one. */
  lemma CompactTail(s: Store, cf: nat, e: Entry, now: Int64)
    requires s.tables != [] && s.tableSize == 100 && Head(s) == Drained(cf, e, ReadWrite) && e == Big()
    requires FirstRecycled(SealHead(s.tables)) == |s.tables|
    requires forall j :: 0 <= j < |s.tables| - 1 ==> !CompactionOK(s.tables[j])
    ensures Legal(s, OpCompaction([], now, TIMEOUT))
    ensures Compaction(s, [], now, TIMEOUT)
         == s.(index := s.index + {s.coefficient} - {cf}, coefficient := s.coefficient + 1,
               tables := s.tables[|s.tables| - 1 := RecycledTable(now)] + [NewTable(100, s.coefficient)])
  {
    Sizes();
    var i := |s.tables| - 1;
    FirstIs(Over(s.tables), i);
    ResetDrained(cf, e, ReadOnly, now);
    hide Over, First, Reset;
    assert IsOrder(s.tables[i], []);
    var x := BeginEviction(s, i);
    assert x.pos == i && x.store.tables == SealHead(s.tables) + [NewTable(100, s.coefficient)];
    assert x.store.tables[i] == Drained(cf, e, ReadOnly);
    assert MoveEntries(x, [], now) == x;
    assert x.store.tables[i := RecycledTable(now)] == s.tables[i := RecycledTable(now)] + [NewTable(100, s.coefficient)];
  }

  // Running calls one by one

  lemma RunOne(s: Store, op: Op)
    requires Legal(s, op)
    ensures LegalRun(s, [op]) && Run(s, [op]) == Apply(s, op)
  {
    assert [op][1..] == [];
    assert Run(Apply(s, op), []) == Apply(s, op);
  }

  lemma {:induction false} RunConcat(s: Store, a: seq<Op>, b: seq<Op>)
    requires LegalRun(s, a) && LegalRun(Run(s, a), b)
    ensures LegalRun(s, a + b) && Run(s, a + b) == Run(Run(s, a), b)
    decreases |a|
  {
    hide Legal, Apply;
    if a == [] {
      assert a + b == b;
    } else {
      assert (a + b)[0] == a[0] && (a + b)[1..] == a[1..] + b;
      RunConcat(Apply(s, a[0]), a[1..], b);
    }
  }

  lemma RunSnoc(s: Store, ops: seq<Op>, op: Op)
    requires LegalRun(s, ops) && Legal(Run(s, ops), op)
    ensures LegalRun(s, ops + [op]) && Run(s, ops + [op]) == Apply(Run(s, ops), op)
  {
    RunOne(Run(s, ops), op);
    RunConcat(s, ops, [op]);
  }

  function WithRecycled(s: Store, i: nat, cf: nat, now: int): Store
    requires i < |s.tables|
  {
    s.(index := s.index - {cf}, tables := s.tables[i := RecycledTable(now)])
  }

  function WithRecycledTail(s: Store, cf: nat, now: int): Store
    requires s.tables != []
  {
    s.(index := s.index + {s.coefficient} - {cf}, coefficient := s.coefficient + 1,
       tables := s.tables[|s.tables| - 1 := RecycledTable(now)] + [NewTable(100, s.coefficient)])
  }

  /** A delete and a compaction, of the one entry of a table that is not the tail. */
  lemma DeleteCompact(s0: Store, ops: seq<Op>, i: nat, cf: nat, h: nat, now: Int64)
    requires LegalRun(s0, ops)
    requires var s := Run(s0, ops);
             && i < |s.tables| - 1 && s.tables[i] == Holding(cf, h, Big(), ReadOnly) && Unique(s.tables)
             && forall j :: 0 <= j < i ==> !CompactionOK(s.tables[j])
    ensures LegalRun(s0, ops + [OpDelete(h), OpCompaction([], now, TIMEOUT)])
    ensures Run(s0, ops + [OpDelete(h), OpCompaction([], now, TIMEOUT)]) == WithRecycled(Run(s0, ops), i, cf, now)
  {
    hide Run, LegalRun, Compaction, DeleteKey, Holding, Drained, RecycledTable, CompactionOK;
    var s := Run(s0, ops);
    DeleteAt(s, i, cf, h, Big(), ReadOnly);
    RunSnoc(s0, ops, OpDelete(h));
    var s1 := s.(tables := s.tables[i := Drained(cf, Big(), ReadOnly)]);
    CompactDrained(s1, i, cf, Big(), now);
    RunSnoc(s0, ops + [OpDelete(h)], OpCompaction([], now, TIMEOUT));
    assert ops + [OpDelete(h)] + [OpCompaction([], now, TIMEOUT)] == ops + [OpDelete(h), OpCompaction([], now, TIMEOUT)];
    assert s1.tables[i := RecycledTable(now)] == s.tables[i := RecycledTable(now)];
  }

  /** The same for the tail. */
  lemma DeleteCompactTail(s0: Store, ops: seq<Op>, cf: nat, h: nat, now: Int64)
    requires LegalRun(s0, ops)
    requires var s := Run(s0, ops);
             && s.tables != [] && s.tableSize == 100 && Head(s) == Holding(cf, h, Big(), ReadWrite) && Unique(s.tables)
             && (forall j :: 0 <= j < |s.tables| - 1 ==> !CompactionOK(s.tables[j]) && !s.tables[j].state.Recycled?)
    ensures LegalRun(s0, ops + [OpDelete(h), OpCompaction([], now, TIMEOUT)])
    ensures Run(s0, ops + [OpDelete(h), OpCompaction([], now, TIMEOUT)]) == WithRecycledTail(Run(s0, ops), cf, now)
  {
    hide Run, LegalRun, Compaction, DeleteKey, Holding, Drained, RecycledTable, CompactionOK, NewTable;
    var s := Run(s0, ops);
    var n := |s.tables| - 1;
    DeleteAt(s, n, cf, h, Big(), ReadWrite);
    RunSnoc(s0, ops, OpDelete(h));
    var s1 := s.(tables := s.tables[n := Drained(cf, Big(), ReadWrite)]);
    CompactTail(s1, cf, Big(), now);
    RunSnoc(s0, ops + [OpDelete(h)], OpCompaction([], now, TIMEOUT));
    assert ops + [OpDelete(h)] + [OpCompaction([], now, TIMEOUT)] == ops + [OpDelete(h), OpCompaction([], now, TIMEOUT)];
    assert s1.tables[n := RecycledTable(now)] == s.tables[n := RecycledTable(now)];
  }

  // A live entry beside an expired recycled table

  function ForgettingOps(): seq<Op> {
    [OpPut(7, Small(), 0), OpPut(8, Big(), 0), OpDelete(8), OpCompaction([], 0, TIMEOUT)]
  }

  /** The first table still has coefficient zero; the second was recycled. */
  function ForgettingStore(): Store {
    Store(3, 100, {0, 2}, [Holding(0, 7, Small(), ReadOnly), RecycledTable(0), NewTable(100, 2)])
  }

  lemma TwoPuts(h: nat, e: Entry, g: nat)
    requires h != g && (e == Small() || e == Big())
    ensures LegalRun(NewStore(100), [OpPut(h, e, 0), OpPut(g, Big(), 0)])
    ensures Run(NewStore(100), [OpPut(h, e, 0), OpPut(g, Big(), 0)])
         == Store(2, 100, {0, 1}, [Holding(0, h, e, ReadOnly), Holding(1, g, Big(), ReadWrite)])
  {
    Sizes();
    var s0, s1 := NewStore(100), Store(1, 100, {0}, [Holding(0, h, e, ReadWrite)]);
    FirstPut(h, e);
    RunOne(s0, OpPut(h, e, 0));
    assert SealHead(s1.tables) == [Holding(0, h, e, ReadOnly)];
    PutRolls(s1, g, Big());
    hide Put, Run, LegalRun;
    RunSnoc(s0, [OpPut(h, e, 0)], OpPut(g, Big(), 0));
    assert [OpPut(h, e, 0)] + [OpPut(g, Big(), 0)] == [OpPut(h, e, 0), OpPut(g, Big(), 0)];
    assert SealHead(s1.tables) + [Holding(1, g, Big(), ReadWrite)] == [Holding(0, h, e, ReadOnly), Holding(1, g, Big(), ReadWrite)];
  }

  lemma ForgettingRun()
    ensures LegalRun(NewStore(100), ForgettingOps()) && Run(NewStore(100), ForgettingOps()) == ForgettingStore()
    ensures LegalRun(Forked(100), ForgettingOps()) && Run(Forked(100), ForgettingOps()) == ForgettingStore()
  {
    Sizes();
    hide Run, LegalRun, Holding, RecycledTable, StoreInv, Big, Small, CompactionOK;
    var ops := [OpPut(7, Small(), 0), OpPut(8, Big(), 0)];
    TwoPuts(7, Small(), 8);
    InitialInv(NewStore(100));
    HistoryStore(NewStore(100), ops);
    UniqueOf(Run(NewStore(100), ops));
    HoldingNotOver(0, 7, Small());
    DeleteCompactTail(NewStore(100), ops, 1, 8, 0);
    assert ops + [OpDelete(8), OpCompaction([], 0, TIMEOUT)] == ForgettingOps();
    assert Run(NewStore(100), ops).tables[1 := RecycledTable(0)] + [NewTable(100, 2)] == ForgettingStore().tables;
    assert {0, 1} + {2} - {1} == {0, 2};
    ForkedAlike(100, ForgettingOps());
  }

  /** Twenty minutes later a compaction with nothing over the ratio cleans up. */
  lemma ForgettingCleanup()
    ensures Done(ForgettingStore())
    ensures Compaction(ForgettingStore(), [], 20 * MINUTE, TIMEOUT)
         == Store(3, 100, {2}, [Holding(0, 7, Small(), ReadOnly), NewTable(100, 2)])
  {
    Sizes();
    var s, now := ForgettingStore(), 20 * MINUTE;
    var r := Store(3, 100, {2}, [Holding(0, 7, Small(), ReadOnly), NewTable(100, 2)]);
    assert Over(s.tables) == [false, false, false];
    assert Done(s);
    hide Over, First;
    assert RemoveAt(s.tables, 1) == r.tables && s.index - {0} == r.index;
    assert Cleanup(r, 2, now, TIMEOUT) == r;
    assert Cleanup(r, 1, now, TIMEOUT) == r;
    assert Cleanup(s, 1, now, TIMEOUT) == r;
    assert Cleanup(s, 0, now, TIMEOUT) == r;
  }

  // A loss after a drop: two recycled tables, the older one at the tail once the head is moved away

  function LossOps(): seq<Op> {
    [OpPut(8, Big(), 0), OpPut(9, Big(), 0), OpPut(7, Small(), 0), OpDelete(9), OpCompaction([], 0, TIMEOUT),
     OpDelete(8), OpCompaction([], 10 * MINUTE, TIMEOUT)]
  }

  function LossStore(): Store {
    Store(3, 100, {2}, [RecycledTable(10 * MINUTE), RecycledTable(0), Holding(2, 7, Small(), ReadWrite)])
  }

  lemma LossPuts()
    ensures var ops := [OpPut(8, Big(), 0), OpPut(9, Big(), 0), OpPut(7, Small(), 0)];
            && LegalRun(NewStore(100), ops)
            && Run(NewStore(100), ops) == Store(3, 100, {0, 1, 2}, [Holding(0, 8, Big(), ReadOnly), Holding(1, 9, Big(), ReadOnly), Holding(2, 7, Small(), ReadWrite)])
  {
    Sizes();
    var s0, ops := NewStore(100), [OpPut(8, Big(), 0), OpPut(9, Big(), 0)];
    TwoPuts(8, Big(), 9);
    hide Run, LegalRun, Put;
    var s2 := Run(s0, ops);
    var sealed := [Holding(0, 8, Big(), ReadOnly), Holding(1, 9, Big(), ReadOnly)];
    assert SealHead(s2.tables) == sealed;
    assert FirstRecycled(sealed) == 2;
    PutRolls(s2, 7, Small());
    RunSnoc(s0, ops, OpPut(7, Small(), 0));
    assert ops + [OpPut(7, Small(), 0)] == [OpPut(8, Big(), 0), OpPut(9, Big(), 0), OpPut(7, Small(), 0)];
    assert sealed + [Holding(2, 7, Small(), ReadWrite)] == [Holding(0, 8, Big(), ReadOnly), Holding(1, 9, Big(), ReadOnly), Holding(2, 7, Small(), ReadWrite)];
  }

  lemma LossFirst()
    ensures LegalRun(NewStore(100), LossOps()[..5])
    ensures Run(NewStore(100), LossOps()[..5])
         == Store(3, 100, {0, 2}, [Holding(0, 8, Big(), ReadOnly), RecycledTable(0), Holding(2, 7, Small(), ReadWrite)])
  {
    hide Run, LegalRun, Holding, RecycledTable, StoreInv, Big, Small, CompactionOK;
    var ops := [OpPut(8, Big(), 0), OpPut(9, Big(), 0), OpPut(7, Small(), 0)];
    LossPuts();
    InitialInv(NewStore(100));
    HistoryStore(NewStore(100), ops);
    var s := Run(NewStore(100), ops);
    UniqueOf(s);
    HoldingNotOver(0, 8, Big());
    DeleteCompact(NewStore(100), ops, 1, 1, 9, 0);
    assert ops + [OpDelete(9), OpCompaction([], 0, TIMEOUT)] == LossOps()[..5];
    assert s.tables[1 := RecycledTable(0)] == [Holding(0, 8, Big(), ReadOnly), RecycledTable(0), Holding(2, 7, Small(), ReadWrite)];
    assert {0, 1, 2} - {1} == {0, 2};
  }

  lemma HoldingNotOver(cf: nat, h: nat, e: Entry)
    ensures var t := Holding(cf, h, e, ReadOnly); !CompactionOK(t) && !t.state.Recycled?
  {
  }

  lemma UniqueOf(s: Store)
    requires StoreInv(s)
    ensures Unique(s.tables)
  {
  }

  lemma LossRun()
    ensures LegalRun(NewStore(100), LossOps()) && Run(NewStore(100), LossOps()) == LossStore()
    ensures LegalRun(Forked(100), LossOps()) && Run(Forked(100), LossOps()) == LossStore()
  {
    Sizes();
    hide Run, LegalRun, Holding, RecycledTable, StoreInv, Big, Small;
    var ops := LossOps()[..5];
    LossFirst();
    InitialInv(NewStore(100));
    HistoryStore(NewStore(100), ops);
    var s := Run(NewStore(100), ops);
    UniqueOf(s);
    DeleteCompact(NewStore(100), ops, 0, 0, 8, 10 * MINUTE);
    assert ops + [OpDelete(8), OpCompaction([], 10 * MINUTE, TIMEOUT)] == LossOps();
    assert s.tables[0 := RecycledTable(10 * MINUTE)] == LossStore().tables;
    assert {0, 2} - {0} == {2};
    ForkedAlike(100, LossOps());
  }

  /** The tail is exported and dropped, and an entry is written: it goes to the recycled table
      that became the tail. */
  lemma LossWrite()
    ensures ExportIndex(LossStore()) == 2
    ensures Drop(LossStore(), 2) == Store(3, 100, {}, [RecycledTable(10 * MINUTE), RecycledTable(0)])
    ensures var s := Drop(LossStore(), 2);
            && !PutLoops(s, Small())
            && Put(s, 6, Small(), 20 * MINUTE) == s.(tables := [RecycledTable(10 * MINUTE), Filled()])
  {
    Sizes();
    var s := LossStore();
    FirstIs(seq(|s.tables|, i requires 0 <= i < |s.tables| => !s.tables[i].state.Recycled?), 2);
    var r := Drop(s, 2);
    assert RemoveAt(s.tables, 2) == [RecycledTable(10 * MINUTE), RecycledTable(0)];
    var e := Small().(lastAccess := 20 * MINUTE);
    WriteHeadTables(r, 6, e);
    assert WriteHead(r, 6, e).tables == [RecycledTable(10 * MINUTE), Filled()];
  }

  function Filled(): Tbl {
    Append(RecycledTable(0), 6, Small().(lastAccess := 20 * MINUTE))
  }

  lemma LossLosing()
    ensures var s := Store(3, 100, {}, [RecycledTable(10 * MINUTE), Filled()]);
            && Losing(s, OpCompaction([], 20 * MINUTE, TIMEOUT)) && Legal(s, OpCompaction([], 20 * MINUTE, TIMEOUT))
            && View(s.tables, 6) == Some(Small())
            && View(Compaction(s, [], 20 * MINUTE, TIMEOUT).tables, 6) == None
  {
    Sizes();
    var s, now := Store(3, 100, {}, [RecycledTable(10 * MINUTE), Filled()]), 20 * MINUTE;
    assert 6 in Filled().slots;
    assert Over(s.tables) == [false, false];
    assert Done(s);
    hide Over, First;
    var r := s.(tables := RemoveAt(s.tables, 1));
    assert s.index - {0} == s.index;
    assert Cleanup(r, 1, now, TIMEOUT) == r;
    assert Cleanup(s, 1, now, TIMEOUT) == r;
    assert Cleanup(s, 0, now, TIMEOUT) == r;
    ViewAbsent(r.tables, 6);
  }

  function LossEnd(): seq<Op> {
    [OpDrop(2, {7}), OpPut(6, Small(), 20 * MINUTE)]
  }

  /** A history of a new or forked engine, its times in order: after a transfer an entry is
      written, and the next compaction loses it. */
  lemma DropThenCleanupLoses()
    ensures LegalRun(NewStore(100), LossOps() + LossEnd()) && LegalRun(Forked(100), LossOps() + LossEnd())
    ensures Run(Forked(100), LossOps() + LossEnd()) == Run(NewStore(100), LossOps() + LossEnd())
    ensures var s := Run(NewStore(100), LossOps() + LossEnd());
            var op := OpCompaction([], 20 * MINUTE, TIMEOUT);
            Legal(s, op) && Losing(s, op) && View(s.tables, 6) == Some(Small()) && View(Apply(s, op).tables, 6) == None
  {
    hide Run, LegalRun, RecycledTable, Drop, Put, View, Compaction, Losing;
    LossRun();
    LossWrite();
    LossLosing();
    LossKeys();
    RunSnoc(NewStore(100), LossOps(), OpDrop(2, {7}));
    RunSnoc(NewStore(100), LossOps() + [OpDrop(2, {7})], OpPut(6, Small(), 20 * MINUTE));
    assert LossOps() + [OpDrop(2, {7})] + [OpPut(6, Small(), 20 * MINUTE)] == LossOps() + LossEnd();
    LossFits();
    ForkedAlike(100, LossOps() + LossEnd());
  }

  lemma LossFits()
    ensures LossOps()[0].OpPut? && EntrySize(LossOps()[0].entry) <= 100
  {
    Sizes();
  }

  lemma LossKeys()
    ensures LossStore().tables[2].slots.Keys == {7}
  {
  }
}
