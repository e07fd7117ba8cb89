/** Whole histories of the storage engine, transfers included, against a plain map. */
module StoreHistory {
  import opened Codec
  import opened TableModel
  import opened StoreModel
  import opened CompactionModel

  datatype Op =
    | OpPut(hkey: nat, entry: Entry, now: Int64)
    | OpPutRaw(hkey: nat, raw: seq<Byte>)
    | OpGet(hkey: nat, now: Int64)
    | OpDelete(hkey: nat)
    | OpUpdateTTL(hkey: nat, ttl: Int64, timestamp: Int64, now: Int64)
    | OpCompaction(keys: seq<nat>, now: Int64, timeout: int)
    | OpDrop(index: nat, dropped: set<nat>)

  /** What a caller sees. Check, GetTTL and GetKey see parts of what Get sees. */
  datatype Result = Wrote(status: PutStatus) | Found(item: Option<Entry>) | Quiet

  // Transport

  /** Export picks the first table that is not recycled; |tables| stands for its EOF. */
  function ExportIndex(s: Store): nat {
    First(seq(|s.tables|, i requires 0 <= i < |s.tables| => !s.tables[i].state.Recycled?))
  }

  function Drop(s: Store, i: nat): Store
    requires i < |s.tables|
  {
    s.(tables := RemoveAt(s.tables, i), index := s.index - {s.tables[i].coefficient})
  }

  // Calls

  /** The calls that return: a write whose retry loop ends, of a record whose lengths fit
      their fields, an eviction that follows some iteration order, and the drop of the table
      that was exported, with its keys. */
  ghost predicate Legal(s: Store, op: Op) {
    match op
    case OpPut(_, e, _) => !PutLoops(s, e) && |e.value| < TWO_32
    case OpPutRaw(_, raw) => IsRecord(raw) && |raw| != s.tableSize
    case OpCompaction(keys, _, _) => Done(s) || IsOrder(s.tables[FirstOver(s.tables)], keys)
    case OpDrop(i, keys) => i == ExportIndex(s) < |s.tables| && keys == s.tables[i].slots.Keys
    case _ => true
  }

  ghost function Apply(s: Store, op: Op): Store
    requires Legal(s, op)
  {
    match op
    case OpPut(h, e, now) => Put(s, h, e, now)
    case OpPutRaw(h, raw) => PutRaw(s, h, raw)
    case OpGet(h, now) => Get(s, h, now)
    case OpDelete(h) => DeleteKey(s, h)
    case OpUpdateTTL(h, ttl, timestamp, now) => StoreModel.UpdateTTL(s, h, ttl, timestamp, now)
    case OpCompaction(keys, now, timeout) => Compaction(s, keys, now, timeout)
    case OpDrop(i, _) => Drop(s, i)
  }

  function Observe(s: Store, op: Op): Result {
    match op
    case OpPut(_, e, _) => Wrote(PutResult(s, e))
    case OpPutRaw(_, raw) => Wrote(PutRawResult(s, raw))
    case OpGet(h, _) => Found(View(s.tables, h))
    case OpUpdateTTL(h, _, _, _) => Found(View(s.tables, h))
    case _ => Quiet
  }

  // The plain map

  function MapPutResult(size: nat, e: Entry): PutStatus {
    if EntrySize(e) > size then EntryTooLarge else if |e.key| >= MAX_KEY_LENGTH then KeyTooLarge else PutOk
  }

  function MapApply(m: map<nat, Entry>, size: nat, op: Op): map<nat, Entry> {
    match op
    case OpPut(h, e, _) => if MapPutResult(size, e).PutOk? then m[h := Item(e)] else m
    case OpPutRaw(h, raw) => if |raw| <= size && Framed(raw) then m[h := Item(Parse(raw))] else m
    case OpDelete(h) => m - {h}
    case OpDrop(_, keys) => m - keys
    case OpUpdateTTL(h, ttl, timestamp, _) => if h in m then m[h := m[h].(ttl := ttl, timestamp := timestamp)] else m
    case _ => m
  }

  function MapObserve(m: map<nat, Entry>, size: nat, op: Op): Result {
    match op
    case OpPut(_, e, _) => Wrote(MapPutResult(size, e))
    case OpPutRaw(_, raw) => Wrote(if |raw| > size then EntryTooLarge else PutOk)
    case OpGet(h, _) => Found(if h in m then Some(m[h]) else None)
    case OpUpdateTTL(h, _, _, _) => Found(if h in m then Some(m[h]) else None)
    case _ => Quiet
  }

  // One step

  lemma StepStore(s: Store, op: Op)
    requires StoreInv(s) && Legal(s, op)
    ensures StoreInv(Apply(s, op)) && Apply(s, op).tableSize == s.tableSize
  {
    hide StoreInv, View, Compaction, StoreRecord, EnsureTable;
    match op
    case OpPut(h, e, now) =>
      EnsureTableInv(s);
      if PutResult(s, e).PutOk? { StoreRecordInv(s, h, e.(lastAccess := now)); }
    case OpPutRaw(h, raw) =>
      LayoutParse(raw);
      if PutRawResult(s, raw).PutOk? { StoreRecordInv(s, h, Parse(raw)); }
    case OpGet(h, now) => GetInv(s, h, now);
    case OpDelete(h) => DeleteKeyInv(s, h);
    case OpUpdateTTL(h, ttl, timestamp, now) => StoreModel.UpdateTTLInv(s, h, ttl, timestamp, now);
    case OpCompaction(keys, now, timeout) => CompactionKeeps(s, keys, now, timeout);
    case OpDrop(i, _) => DropStore(s, i);
  }

  /** Dropping a live table keeps the invariant; the new tail may be recycled. */
  lemma DropStore(s: Store, i: nat)
    requires StoreInv(s) && i < |s.tables|
    ensures StoreInv(Drop(s, i))
  {
    hide Inv;
    UniqueRemove(s.tables, i);
  }

  /** Dropping a table removes its entries and no others. */
  lemma DropView(s: Store, i: nat, h: nat)
    requires Unique(s.tables) && i < |s.tables|
    ensures View(Drop(s, i).tables, h) == if h in s.tables[i].slots then None else View(s.tables, h)
  {
    if h in s.tables[i].slots {
      ViewAbsent(RemoveAt(s.tables, i), h);
    } else {
      ViewRemove(s.tables, i, h);
    }
  }

  /** A compaction that cleans up while the tail is an expired recycled table with entries,
      and is not the only table. */
  ghost predicate Losing(s: Store, op: Op) {
    op.OpCompaction? && Done(s) && TailLost(s, 0, op.now, op.timeout)
  }

  lemma CompactionRefines(s: Store, m: map<nat, Entry>, op: Op)
    requires op.OpCompaction? && StoreInv(s) && Legal(s, op) && Refines(s, m)
    ensures Refines(Apply(s, op), m) <==> !Losing(s, op)
  {
    hide StoreInv, View, Compaction, TailLost, Done;
    CompactionKeeps(s, op.keys, op.now, op.timeout);
    var r := Compaction(s, op.keys, op.now, op.timeout);
    if Refines(r, m) {
      assert forall h :: View(s.tables, h) == View(r.tables, h);
    }
  }

  lemma DropRefines(s: Store, m: map<nat, Entry>, op: Op)
    requires op.OpDrop? && StoreInv(s) && Legal(s, op) && Refines(s, m)
    ensures Refines(Apply(s, op), m - op.dropped)
  {
    hide View, Drop, Inv;
    forall h
      ensures View(Drop(s, op.index).tables, h) == if h in m - op.dropped then Some((m - op.dropped)[h]) else None
    {
      DropView(s, op.index, h);
    }
  }

  lemma PutRefines(s: Store, m: map<nat, Entry>, op: Op)
    requires op.OpPut? && StoreInv(s) && Legal(s, op) && Refines(s, m)
    ensures Refines(Apply(s, op), MapApply(m, s.tableSize, op))
    ensures Observe(s, op) == MapObserve(m, s.tableSize, op)
  {
    hide StoreInv, View, StoreRecord, EnsureTable;
    EnsureTableInv(s);
    if PutResult(s, op.entry).PutOk? {
      StoreRecordInv(s, op.hkey, op.entry.(lastAccess := op.now));
    }
  }

  lemma PutRawRefines(s: Store, m: map<nat, Entry>, op: Op)
    requires op.OpPutRaw? && StoreInv(s) && Legal(s, op) && Refines(s, m)
    ensures Refines(Apply(s, op), MapApply(m, s.tableSize, op))
    ensures Observe(s, op) == MapObserve(m, s.tableSize, op)
  {
    hide StoreInv, View, StoreRecord, EnsureTable, Layout;
    LayoutParse(op.raw);
    if PutRawResult(s, op.raw).PutOk? {
      StoreRecordInv(s, op.hkey, Parse(op.raw));
    }
  }

  /** One call does to the map what it does to the store and answers alike; the only call
      that does not is a losing compaction. */
  lemma StepRefines(s: Store, m: map<nat, Entry>, op: Op)
    requires StoreInv(s) && Legal(s, op) && Refines(s, m)
    ensures Refines(Apply(s, op), MapApply(m, s.tableSize, op)) <==> !Losing(s, op)
    ensures Observe(s, op) == MapObserve(m, s.tableSize, op)
  {
    hide StoreInv, View, Compaction, StoreRecord, EnsureTable, Get, DeleteKey, StoreModel.UpdateTTL, Drop, Done, TailLost;
    match op
    case OpPut(h, e, now) => PutRefines(s, m, op);
    case OpPutRaw(h, raw) => PutRawRefines(s, m, op);
    case OpGet(h, now) => GetInv(s, h, now);
    case OpDelete(h) => DeleteKeyInv(s, h);
    case OpUpdateTTL(h, ttl, timestamp, now) => StoreModel.UpdateTTLInv(s, h, ttl, timestamp, now);
    case OpCompaction(keys, now, timeout) => CompactionRefines(s, m, op);
    case OpDrop(_, _) => DropRefines(s, m, op);
  }

  // Records through the store

  lemma StoredRecord(s: Store, hkey: nat, e: Entry)
    requires StoreInv(s) && Encodable(e) && EntrySize(e) < s.tableSize
    ensures Lookup(StoreRecord(s, hkey, e).tables, hkey) == Some(e)
  {
    hide MakeTable, EnsureTable, StoreInv;
    EnsureTableInv(s);
    MakeTableInv(EnsureTable(s));
  }

  /** A raw record that was put is read back as the entry it encodes, whatever else the store
      holds; an entry that was put is read raw as its encoding, up to the last access. */
  lemma RecordAgreement(s: Store, hkey: nat, e: Entry, now: Int64)
    requires StoreInv(s) && Encodable(e) && EntrySize(e) < s.tableSize
    ensures IsRecord(Layout(e)) && Lookup(PutRaw(s, hkey, Layout(e)).tables, hkey) == Some(e)
    ensures Lookup(Put(s, hkey, e, now).tables, hkey) == Some(e.(lastAccess := now))
    ensures forall h :: h != hkey ==> View(PutRaw(s, hkey, Layout(e)).tables, h) == View(s.tables, h)
    ensures forall h :: h != hkey ==> View(Put(s, hkey, e, now).tables, h) == View(s.tables, h)
  {
    hide StoreInv, StoreRecord, Layout, Lookup, View;
    ParseLayout(e, []);
    assert Layout(e) + [] == Layout(e);
    StoredRecord(s, hkey, e);
    StoredRecord(s, hkey, e.(lastAccess := now));
    StoreRecordInv(s, hkey, e);
    StoreRecordInv(s, hkey, e.(lastAccess := now));
  }

  // Histories

  ghost predicate LegalRun(s: Store, ops: seq<Op>)
    decreases |ops|
  {
    ops != [] ==> Legal(s, ops[0]) && LegalRun(Apply(s, ops[0]), ops[1..])
  }

  ghost function Run(s: Store, ops: seq<Op>): Store
    requires LegalRun(s, ops)
    decreases |ops|
  {
    if ops == [] then s else Run(Apply(s, ops[0]), ops[1..])
  }

  ghost function Results(s: Store, ops: seq<Op>): seq<Result>
    requires LegalRun(s, ops)
    decreases |ops|
  {
    if ops == [] then [] else [Observe(s, ops[0])] + Results(Apply(s, ops[0]), ops[1..])
  }

  function MapRun(m: map<nat, Entry>, size: nat, ops: seq<Op>): map<nat, Entry>
    decreases |ops|
  {
    if ops == [] then m else MapRun(MapApply(m, size, ops[0]), size, ops[1..])
  }

  function MapResults(m: map<nat, Entry>, size: nat, ops: seq<Op>): seq<Result>
    decreases |ops|
  {
    if ops == [] then [] else [MapObserve(m, size, ops[0])] + MapResults(MapApply(m, size, ops[0]), size, ops[1..])
  }

  /** No call of the history is a losing compaction. */
  ghost predicate Lossless(s: Store, ops: seq<Op>)
    requires LegalRun(s, ops)
    decreases |ops|
  {
    ops != [] ==> !Losing(s, ops[0]) && Lossless(Apply(s, ops[0]), ops[1..])
  }

  lemma {:induction false} HistoryRefines(s: Store, m: map<nat, Entry>, ops: seq<Op>)
    requires StoreInv(s) && Refines(s, m) && LegalRun(s, ops) && Lossless(s, ops)
    ensures Refines(Run(s, ops), MapRun(m, s.tableSize, ops))
    ensures Results(s, ops) == MapResults(m, s.tableSize, ops)
    decreases |ops|
  {
    hide StoreInv, Refines, Apply, MapApply, Observe, MapObserve, Legal, Losing;
    if ops != [] {
      StepStore(s, ops[0]);
      StepRefines(s, m, ops[0]);
      HistoryRefines(Apply(s, ops[0]), MapApply(m, s.tableSize, ops[0]), ops[1..]);
    }
  }

  lemma {:induction false} HistoryStore(s: Store, ops: seq<Op>)
    requires StoreInv(s) && LegalRun(s, ops)
    ensures StoreInv(Run(s, ops)) && Run(s, ops).tableSize == s.tableSize
    decreases |ops|
  {
    hide StoreInv, Apply, Legal;
    if ops != [] {
      StepStore(s, ops[0]);
      HistoryStore(Apply(s, ops[0]), ops[1..]);
    }
  }

  lemma InitialInv(s: Store)
    requires Initial(s)
    ensures StoreInv(s) && HeadLive(s) && Refines(s, map[])
  {
    forall h
      ensures View(s.tables, h) == None
    {
      ViewAbsent(s.tables, h);
    }
  }

  /** Every history of a new or forked engine, drops included, answers as the map does and keeps
      each key in one table, as long as no compaction in it is a losing one. */
  lemma DropsRefineMap(s: Store, ops: seq<Op>)
    requires Initial(s) && LegalRun(s, ops)
    ensures Unique(Run(s, ops).tables)
    ensures Lossless(s, ops) ==> Refines(Run(s, ops), MapRun(map[], s.tableSize, ops))
    ensures Lossless(s, ops) ==> Results(s, ops) == MapResults(map[], s.tableSize, ops)
  {
    hide Lossless, Initial, Refines;
    InitialInv(s);
    HistoryStore(s, ops);
    if Lossless(s, ops) {
      HistoryRefines(s, map[], ops);
    }
  }

  /** A losing compaction does lose: after it the store is not the map. */
  lemma LosingShows(s: Store, ops: seq<Op>, op: Op)
    requires Initial(s) && LegalRun(s, ops) && Lossless(s, ops)
    requires Legal(Run(s, ops), op) && Losing(Run(s, ops), op)
    ensures !Refines(Apply(Run(s, ops), op), MapApply(MapRun(map[], s.tableSize, ops), s.tableSize, op))
  {
    hide StoreInv, Refines, Apply, MapApply, Legal, Losing, Lossless, Run, MapRun, Initial;
    InitialInv(s);
    HistoryStore(s, ops);
    DropsRefineMap(s, ops);
    StepRefines(Run(s, ops), MapRun(map[], s.tableSize, ops), op);
  }

  /** A history that starts with a write that fits runs alike on a new and a forked engine. */
  lemma ForkedAlike(tableSize: nat, ops: seq<Op>)
    requires LegalRun(NewStore(tableSize), ops) && ops != [] && ops[0].OpPut? && EntrySize(ops[0].entry) <= tableSize
    ensures LegalRun(Forked(tableSize), ops) && Run(Forked(tableSize), ops) == Run(NewStore(tableSize), ops)
  {
    hide WriteHead, Fits;
    assert EnsureTable(NewStore(tableSize)) == Forked(tableSize);
    assert Apply(Forked(tableSize), ops[0]) == Apply(NewStore(tableSize), ops[0]);
  }

  // Histories without drops

  ghost predicate DropFree(ops: seq<Op>) {
    forall i :: 0 <= i < |ops| ==> !ops[i].OpDrop?
  }

  lemma StepHead(s: Store, op: Op)
    requires StoreInv(s) && Legal(s, op) && HeadLive(s) && !op.OpDrop?
    ensures HeadLive(Apply(s, op)) && !Losing(s, op)
  {
    hide StoreInv, View, Compaction, StoreRecord, Get, DeleteKey, StoreModel.UpdateTTL, MakeTable;
    match op
    case OpPut(h, e, now) => StoreRecordHead(s, h, e.(lastAccess := now));
    case OpPutRaw(h, raw) => StoreRecordHead(s, h, Parse(raw));
    case OpGet(h, now) => GetHead(s, h, now);
    case OpDelete(h) => DeleteHead(s, h);
    case OpUpdateTTL(h, ttl, timestamp, now) => UpdateTTLHead(s, h, ttl, timestamp, now);
    case OpCompaction(keys, now, timeout) => CompactionKeeps(s, keys, now, timeout);
  }

  lemma StoreRecordHead(s: Store, h: nat, e: Entry)
    requires StoreInv(s) && HeadLive(s)
    ensures HeadLive(StoreRecord(s, h, e)) && HeadLive(EnsureTable(s))
  {
    hide StoreInv, MakeTable, WriteHead;
    MakeTableInv(s);
    EnsureTableInv(s);
    var s1 := EnsureTable(s);
    MakeTableInv(s1);
    WriteHeadTables(s1, h, e);
    WriteHeadTables(MakeTable(s1), h, e);
  }

  lemma GetHead(s: Store, h: nat, now: Int64)
    requires HeadLive(s)
    ensures HeadLive(Get(s, h, now))
  {
  }

  lemma DeleteHead(s: Store, h: nat)
    requires HeadLive(s)
    ensures HeadLive(DeleteKey(s, h))
  {
  }

  lemma UpdateTTLHead(s: Store, h: nat, ttl: Int64, timestamp: Int64, now: Int64)
    requires HeadLive(s)
    ensures HeadLive(StoreModel.UpdateTTL(s, h, ttl, timestamp, now))
  {
  }

  lemma {:induction false} DropFreeLossless(s: Store, ops: seq<Op>)
    requires StoreInv(s) && HeadLive(s) && LegalRun(s, ops) && DropFree(ops)
    ensures Lossless(s, ops) && HeadLive(Run(s, ops))
    decreases |ops|
  {
    hide StoreInv, HeadLive, Apply, Legal, Losing;
    if ops != [] {
      StepStore(s, ops[0]);
      StepHead(s, ops[0]);
      assert forall i :: 0 <= i < |ops[1..]| ==> ops[1..][i] == ops[i + 1];
      DropFreeLossless(Apply(s, ops[0]), ops[1..]);
    }
  }

  /** Without drops no compaction can lose: every history answers as the map does. */
  lemma StoreRefinesMap(s: Store, ops: seq<Op>)
    requires Initial(s) && LegalRun(s, ops) && DropFree(ops)
    ensures Unique(Run(s, ops).tables)
    ensures Refines(Run(s, ops), MapRun(map[], s.tableSize, ops))
    ensures Results(s, ops) == MapResults(map[], s.tableSize, ops)
  {
    hide Initial, Refines, StoreInv, HeadLive;
    InitialInv(s);
    DropFreeLossless(s, ops);
    DropsRefineMap(s, ops);
  }

  // Compaction after a history

  /** After any history repeated compaction reaches done, unless the tables have no size and
      there are any. */
  lemma HistoryDone(s: Store, ops: seq<Op>, calls: nat -> Call, timeout: int)
    requires Initial(s) && LegalRun(s, ops) && IsSchedule(calls)
    ensures (exists n: nat :: Done(CompactionModel.After(Run(s, ops), calls, timeout, 0, n)))
            <==> s.tableSize > 0 || Run(s, ops).tables == []
  {
    hide Initial, StoreInv, Refines, Done, CompactionModel.After, Run;
    InitialInv(s);
    HistoryStore(s, ops);
    CompactionTerminates(Run(s, ops), calls, timeout);
  }

  lemma StepZero(s: Store, op: Op)
    requires StoreInv(s) && s.tableSize == 0 && Legal(s, op) && !op.OpDrop?
    ensures Apply(s, op).tables == [] <==> s.tables == []
  {
    hide Inv, StoreRecord, EnsureTable, Compaction;
    match op
    case OpCompaction(keys, now, timeout) =>
      if s.tables == [] {
        EmptyDone(s, keys, now, timeout);
      } else {
        ZeroSizeIsZero(s);
        ZeroNotDone(s);
        assert keys == [];
        ZeroStep(s, now, timeout);
      }
    case _ =>
  }

  lemma EmptyDone(s: Store, keys: seq<nat>, now: Int64, timeout: int)
    requires s.tables == []
    ensures Done(s) && Compaction(s, keys, now, timeout) == s
  {
  }

  lemma {:induction false} RunZero(s: Store, ops: seq<Op>)
    requires StoreInv(s) && s.tableSize == 0 && LegalRun(s, ops) && DropFree(ops)
    ensures Run(s, ops).tables == [] <==> s.tables == []
    decreases |ops|
  {
    hide StoreInv, Apply, Legal;
    if ops != [] {
      StepStore(s, ops[0]);
      StepZero(s, ops[0]);
      assert forall i :: 0 <= i < |ops[1..]| ==> ops[1..][i] == ops[i + 1];
      RunZero(Apply(s, ops[0]), ops[1..]);
    }
  }

  /** Without drops that is a forked engine of table size zero: after no such history of it does
      compaction ever report done, and after every one of any other engine it does. */
  lemma ForkedNeverDone(s: Store, ops: seq<Op>, calls: nat -> Call, timeout: int)
    requires Initial(s) && LegalRun(s, ops) && DropFree(ops) && IsSchedule(calls)
    ensures (forall n: nat :: !Done(CompactionModel.After(Run(s, ops), calls, timeout, 0, n))) <==> s == Forked(0)
  {
    hide StoreInv, Refines, Done, CompactionModel.After, Run, LegalRun;
    InitialInv(s);
    HistoryDone(s, ops, calls, timeout);
    if s.tableSize == 0 {
      RunZero(s, ops);
    }
  }
}
