/** Which entries of a store a scan sees, over every history of the store. */
module ScanStore {
  import opened Codec
  import opened TableModel
  import opened StoreModel
  import opened CompactionModel
  import opened StoreHistory
  import Scan

  // Coefficients

  /** The coefficient of each table, none for a recycled one. */
  function Labels(ts: seq<Tbl>): (r: seq<Option<nat>>)
    ensures |r| == |ts|
    ensures forall i :: 0 <= i < |ts| ==> r[i] == if ts[i].state.Recycled? then None else Some(ts[i].coefficient)
  {
    seq(|ts|, i requires 0 <= i < |ts| => if ts[i].state.Recycled? then None else Some(ts[i].coefficient))
  }

  /** Labels are distinct and below the next one, and the index lists labels only. */
  ghost predicate Labelled(l: seq<Option<nat>>, next: nat, index: set<nat>) {
    && (forall i :: 0 <= i < |l| && l[i].Some? ==> l[i].value < next)
    && (forall i, j :: 0 <= i < j < |l| && l[i].Some? ==> l[i] != l[j])
    && (forall cf :: cf in index ==> Some(cf) in l)
  }

  ghost predicate Coherent(s: Store) {
    && Labelled(Labels(s.tables), s.coefficient, s.index)
    && forall i :: 0 <= i < |s.tables| && s.tables[i].state.Recycled? ==> s.tables[i].coefficient == 0
  }

  lemma LabelPush(l: seq<Option<nat>>, next: nat, index: set<nat>, i: nat)
    requires Labelled(l, next, index) && i <= |l| && (i < |l| ==> l[i].None?)
    ensures Labelled((if i < |l| then RemoveAt(l, i) else l) + [Some(next)], next + 1, index + {next})
  {
    var kept := if i < |l| then RemoveAt(l, i) else l;
    forall cf | cf in index
      ensures Some(cf) in kept
    {
      var j :| 0 <= j < |l| && l[j] == Some(cf);
      assert kept[if j < i then j else if i < |l| then j - 1 else j] == l[j];
    }
  }

  lemma LabelRecycle(l: seq<Option<nat>>, next: nat, index: set<nat>, i: nat)
    requires Labelled(l, next, index) && i < |l| && l[i].Some?
    ensures Labelled(l[i := None], next, index - {l[i].value})
  {
    forall cf | cf in index && cf != l[i].value
      ensures Some(cf) in l[i := None]
    {
      var j :| 0 <= j < |l| && l[j] == Some(cf);
      assert l[i := None][j] == l[j];
    }
  }

  lemma LabelDrop(l: seq<Option<nat>>, next: nat, index: set<nat>, i: nat, cf: nat)
    requires Labelled(l, next, index) && i < |l| && l[i].None?
    ensures Labelled(RemoveAt(l, i), next, index - {cf})
  {
    forall c | c in index
      ensures Some(c) in RemoveAt(l, i)
    {
      var j :| 0 <= j < |l| && l[j] == Some(c);
      assert RemoveAt(l, i)[if j < i then j else j - 1] == l[j];
    }
  }

  ghost predicate SameLabels(s: Store, s': Store) {
    && s.coefficient == s'.coefficient && s.index == s'.index && |s.tables| == |s'.tables|
    && forall i :: 0 <= i < |s.tables| ==>
         s.tables[i].coefficient == s'.tables[i].coefficient && s.tables[i].state.Recycled? == s'.tables[i].state.Recycled?
  }

  lemma SameLabelsCoherent(s: Store, s': Store)
    requires Coherent(s) && SameLabels(s, s')
    ensures Coherent(s')
  {
    assert Labels(s.tables) == Labels(s'.tables);
  }

  lemma MakeTableCoherent(s: Store)
    requires Coherent(s) && HeadLive(s)
    ensures Coherent(MakeTable(s)) && HeadLive(MakeTable(s))
  {
    hide Labelled, Labels, SealHead;
    var ts := SealHead(s.tables);
    SealLabels(s);
    SameLabelsCoherent(s, s.(tables := ts));
    LabelPush(Labels(ts), s.coefficient, s.index, FirstRecycled(ts));
    MakeTableLabels(s);
  }

  lemma SealLabels(s: Store)
    requires HeadLive(s)
    ensures SameLabels(s, s.(tables := SealHead(s.tables)))
  {
  }

  lemma MakeTableLabels(s: Store)
    ensures var l := Labels(SealHead(s.tables));
            var i := FirstRecycled(SealHead(s.tables));
            Labels(MakeTable(s).tables) == (if i < |l| then RemoveAt(l, i) else l) + [Some(s.coefficient)]
  {
    hide SealHead;
  }

  lemma WriteHeadLabels(s: Store, hkey: nat, e: Entry)
    requires s.tables != []
    ensures SameLabels(s, WriteHead(s, hkey, e))
  {
    WriteHeadTables(s, hkey, e);
  }

  lemma StoreRecordCoherent(s: Store, hkey: nat, e: Entry)
    requires Coherent(s) && HeadLive(s)
    ensures Coherent(StoreRecord(s, hkey, e)) && Coherent(EnsureTable(s))
  {
    hide Coherent, MakeTable, WriteHead;
    MakeTableCoherent(s);
    var s1 := EnsureTable(s);
    MakeTableCoherent(s1);
    if s1.tables != [] {
      var s2 := if Fits(Head(s1), EntrySize(e)) then s1 else MakeTable(s1);
      if s2.tables != [] {
        WriteHeadLabels(s2, hkey, e);
        SameLabelsCoherent(s2, WriteHead(s2, hkey, e));
      }
    }
  }

  lemma MoveEntryCoherent(x: Eviction, hkey: nat, now: Int64)
    requires Evicting(x) && Coherent(x.store) && HeadLive(x.store)
    requires hkey in x.store.tables[x.pos].slots && CompactionOK(x.store.tables[x.pos])
    ensures Coherent(MoveEntry(x, hkey, now).store)
  {
    hide Coherent, MakeTable, StoreInv, Inv, View, SameOver;
    var x1 := TouchEntry(x, hkey, now);
    TouchKeeps(x, hkey, now);
    SameLabelsCoherent(x.store, x1.store);
    TouchHead(x, hkey, now);
    MakeTableCoherent(x1.store);
    var e := x1.store.tables[x1.pos].slots[hkey].entry;
    AfterMakeTablePlace(x1);
    var x2 := MakeRoom(x1, EntrySize(e));
    WriteBackStore(x2, hkey, e);
    WriteHeadLabels(x2.store, hkey, e);
    SameLabelsCoherent(x2.store, WriteHead(x2.store, hkey, e));
  }

  lemma {:induction false} MoveEntriesCoherent(x: Eviction, keys: seq<nat>, now: Int64)
    requires Evicting(x) && Coherent(x.store) && HeadLive(x.store) && CompactionOK(x.store.tables[x.pos])
    requires Distinct(keys, x.store.tables[x.pos].slots.Keys)
    ensures Coherent(MoveEntries(x, keys, now).store)
    decreases |keys|
  {
    hide StoreInv, Coherent, MoveEntry, View, HeadLive;
    if keys != [] {
      MoveEntryCoherent(x, keys[0], now);
      MoveEntryHead(x, keys[0], now);
      MoveEntryKeeps(x, keys[0], now);
      DistinctTail(keys, x.store.tables[x.pos].slots.Keys);
      MoveEntriesCoherent(MoveEntry(x, keys[0], now), keys[1..], now);
    }
  }

  lemma RecycleCoherent(x: Eviction, now: Int64)
    requires x.pos < |x.store.tables| && !x.store.tables[x.pos].state.Recycled? && Coherent(x.store)
    ensures Coherent(Recycle(x, now))
  {
    var t := x.store.tables[x.pos];
    if t.inuse == 0 {
      LabelRecycle(Labels(x.store.tables), x.store.coefficient, x.store.index, x.pos);
      assert Labels(Recycle(x, now).tables) == Labels(x.store.tables)[x.pos := None];
    }
  }

  lemma {:induction false} CleanupCoherent(s: Store, i: nat, now: int, timeout: int)
    requires Coherent(s) && i <= |s.tables|
    ensures Coherent(Cleanup(s, i, now, timeout))
    decreases |s.tables| - i
  {
    hide Labelled;
    if i < |s.tables| && s.tables[i].state.Recycled? && Expired(s.tables[i], now, timeout) {
      if |s.tables| != 1 {
        var s' := s.(index := s.index - {s.tables[i].coefficient}, tables := RemoveAt(s.tables, i));
        LabelDrop(Labels(s.tables), s.coefficient, s.index, i, s.tables[i].coefficient);
        assert Labels(s'.tables) == RemoveAt(Labels(s.tables), i);
        CleanupCoherent(s', i, now, timeout);
      }
    } else if i < |s.tables| {
      CleanupCoherent(s, i + 1, now, timeout);
    }
  }

  lemma CompactionCoherent(s: Store, keys: seq<nat>, now: Int64, timeout: int)
    requires StoreInv(s) && s.tableSize > 0 && Coherent(s) && HeadLive(s)
    requires Done(s) || IsOrder(s.tables[FirstOver(s.tables)], keys)
    ensures Coherent(Compaction(s, keys, now, timeout))
  {
    hide StoreInv, Coherent, BeginEviction, MoveEntries, Recycle, Cleanup, View;
    if Done(s) {
      CleanupCoherent(s, 0, now, timeout);
    } else {
      var i := FirstOver(s.tables);
      BeginEvictionKeeps(s, i);
      BeginCoherent(s, i);
      BeginHead(s, i);
      var x := BeginEviction(s, i);
      OrderDistinct(s.tables[i], keys);
      MoveEntriesKeeps(x, keys, now);
      MoveEntriesCoherent(x, keys, now);
      RecycleCoherent(MoveEntries(x, keys, now), now);
    }
  }

  lemma BeginCoherent(s: Store, i: nat)
    requires StoreInv(s) && Coherent(s) && HeadLive(s) && i < |s.tables|
    ensures Coherent(BeginEviction(s, i).store)
  {
    hide Coherent, Inv, MakeTable;
    MakeTableCoherent(s);
  }

  lemma BeginHead(s: Store, i: nat)
    requires StoreInv(s) && HeadLive(s) && i < |s.tables|
    ensures HeadLive(BeginEviction(s, i).store)
  {
    hide StoreInv, HeadLive, MakeTable;
    MakeTableInv(s);
  }

  /** Every operation but Drop keeps the labels in order. */
  lemma StepCoherent(s: Store, op: Op)
    requires StoreInv(s) && HeadLive(s) && s.tableSize > 0 && Legal(s, op) && !op.OpDrop? && Coherent(s)
    ensures Coherent(Apply(s, op))
  {
    hide Coherent, StoreInv, Compaction, StoreRecord, EnsureTable;
    match op
    case OpPut(h, e, now) => StoreRecordCoherent(s, h, e.(lastAccess := now));
    case OpPutRaw(h, raw) => StoreRecordCoherent(s, h, Parse(raw));
    case OpCompaction(keys, now, timeout) => CompactionCoherent(s, keys, now, timeout);
    case OpGet(_, _) => SameLabelsCoherent(s, Apply(s, op));
    case OpDelete(_) => SameLabelsCoherent(s, Apply(s, op));
    case OpUpdateTTL(_, _, _, _) => SameLabelsCoherent(s, Apply(s, op));
  }

  lemma {:induction false} RunCoherent(s: Store, ops: seq<Op>)
    requires StoreInv(s) && HeadLive(s) && s.tableSize > 0 && Coherent(s) && LegalRun(s, ops) && DropFree(ops)
    ensures Coherent(Run(s, ops))
    decreases |ops|
  {
    hide StoreInv, Coherent, Apply, Legal, HeadLive;
    if ops != [] {
      StepStore(s, ops[0]);
      StepHead(s, ops[0]);
      StepCoherent(s, ops[0]);
      assert forall i :: 0 <= i < |ops[1..]| ==> ops[1..][i] == ops[i + 1];
      RunCoherent(Apply(s, ops[0]), ops[1..]);
    }
  }

  // What a scan sees

  ghost predicate IsTable(s: Store, cf: nat, i: nat) {
    i < |s.tables| && !s.tables[i].state.Recycled? && s.tables[i].coefficient == cf
  }

  /** The table indexed under `cf`. */
  ghost function TableOf(s: Store, cf: nat): (i: nat)
    requires Coherent(s) && cf in s.index
    ensures IsTable(s, cf, i)
  {
    TableExists(s, cf);
    var i :| IsTable(s, cf, i);
    i
  }

  lemma TableExists(s: Store, cf: nat)
    requires Coherent(s) && cf in s.index
    ensures exists i :: IsTable(s, cf, i)
  {
    var l := Labels(s.tables);
    var i :| 0 <= i < |l| && l[i] == Some(cf);
    assert IsTable(s, cf, i);
  }

  lemma TableUnique(s: Store, cf: nat, i: nat, j: nat)
    requires Coherent(s) && IsTable(s, cf, i) && IsTable(s, cf, j)
    ensures i == j
  {
    var l := Labels(s.tables);
    assert l[i] == l[j] == Some(cf);
  }

  ghost function DirectoryOf(s: Store): Scan.Directory
    requires Coherent(s)
  {
    map cf | cf in s.index :: s.tables[TableOf(s, cf)].offsetIndex
  }

  /** The places a full scan visits, each exactly once. */
  ghost function Seen(s: Store): iset<Scan.Place>
    requires Coherent(s)
  {
    Scan.Places(DirectoryOf(s), Scan.Route(s.index, 0))
  }

  lemma DirectoryInRange(s: Store)
    requires StoreInv(s) && Coherent(s)
    ensures Scan.InRange(DirectoryOf(s), s.tableSize)
    ensures DirectoryOf(s).Keys == s.index
  {
    forall cf, o | cf in s.index && o in s.tables[TableOf(s, cf)].offsetIndex
      ensures o < s.tableSize
    {
      var t := s.tables[TableOf(s, cf)];
      assert Inv(t);
      var h :| h in t.slots && t.slots[h].offset == o;
      EntryFits(t, h);
    }
  }

  ghost function PlaceOf(s: Store, i: nat, h: nat): Scan.Place
    requires i < |s.tables| && h in s.tables[i].slots
  {
    Scan.Place(s.tables[i].coefficient, s.tables[i].slots[h].offset)
  }

  lemma LiveTable(s: Store, i: nat, h: nat)
    requires StoreInv(s) && HeadLive(s) && i < |s.tables| && h in s.tables[i].slots
    ensures IsTable(s, s.tables[i].coefficient, i)
  {
    hide Inv;
    assert RecycledClean(s.tables);
  }

  /** A live entry is seen exactly when the coefficient of its table is indexed and is not
      passed over by the gaps of the index. */
  lemma SeenIff(s: Store, i: nat, h: nat)
    requires StoreInv(s) && HeadLive(s) && Coherent(s) && i < |s.tables| && h in s.tables[i].slots
    ensures var cf := s.tables[i].coefficient;
            PlaceOf(s, i, h) in Seen(s) <==> cf in s.index && !Scan.Missed(s.index, cf)
  {
    hide Scan.Missed;
    var cf := s.tables[i].coefficient;
    LiveTable(s, i, h);
    if cf in s.index {
      Scan.RouteIff(s.index, cf);
      TableUnique(s, cf, i, TableOf(s, cf));
      assert Inv(s.tables[i]);
    }
  }

  /** What is seen is a live entry, and two entries are never seen at the same place. */
  lemma SeenIsLive(s: Store, p: Scan.Place)
    requires StoreInv(s) && Coherent(s) && p in Seen(s)
    ensures exists i, h :: 0 <= i < |s.tables| && h in s.tables[i].slots && PlaceOf(s, i, h) == p
  {
    var i := TableOf(s, p.cf);
    var t := s.tables[i];
    assert Inv(t);
    var h :| h in t.slots && t.slots[h].offset == p.offset;
    assert PlaceOf(s, i, h) == p;
  }

  lemma PlacesDiffer(s: Store, i: nat, h: nat, j: nat, g: nat)
    requires StoreInv(s) && HeadLive(s) && Coherent(s)
    requires i < |s.tables| && h in s.tables[i].slots && j < |s.tables| && g in s.tables[j].slots
    requires PlaceOf(s, i, h) == PlaceOf(s, j, g)
    ensures i == j && h == g
  {
    var cf := s.tables[i].coefficient;
    LiveTable(s, i, h);
    LiveTable(s, j, g);
    TableUnique(s, cf, i, j);
    assert Inv(s.tables[i]);
  }

  // Histories without compaction

  ghost predicate Plain(s: Store) {
    && s.coefficient == |s.tables|
    && (forall i :: 0 <= i < |s.tables| ==> s.tables[i].coefficient == i && !s.tables[i].state.Recycled?)
    && (forall cf :: cf in s.index <==> 0 <= cf < |s.tables|)
  }

  lemma PlainCoherent(s: Store)
    requires Plain(s)
    ensures Coherent(s) && Scan.Contiguous(s.index)
  {
    var l := Labels(s.tables);
    forall cf | cf in s.index
      ensures Some(cf) in l
    {
      assert l[cf] == Some(cf);
    }
  }

  lemma MakeTablePlain(s: Store)
    requires Plain(s)
    ensures Plain(MakeTable(s))
  {
    var ts := SealHead(s.tables);
    assert FirstRecycled(ts) == |ts|;
  }

  lemma SameLabelsPlain(s: Store, s': Store)
    requires Plain(s) && SameLabels(s, s')
    ensures Plain(s')
  {
  }

  lemma StoreRecordPlain(s: Store, hkey: nat, e: Entry)
    requires Plain(s)
    ensures Plain(StoreRecord(s, hkey, e)) && Plain(EnsureTable(s))
  {
    hide Plain, MakeTable, WriteHead;
    MakeTablePlain(s);
    var s1 := EnsureTable(s);
    MakeTablePlain(s1);
    if s1.tables != [] {
      var s2 := if Fits(Head(s1), EntrySize(e)) then s1 else MakeTable(s1);
      if s2.tables != [] {
        WriteHeadLabels(s2, hkey, e);
        SameLabelsPlain(s2, WriteHead(s2, hkey, e));
      }
    }
  }

  lemma StepPlain(s: Store, op: Op)
    requires Plain(s) && Legal(s, op) && !op.OpCompaction? && !op.OpDrop?
    ensures Plain(Apply(s, op))
  {
    hide Plain, StoreRecord, EnsureTable;
    match op
    case OpPut(h, e, now) => StoreRecordPlain(s, h, e.(lastAccess := now));
    case OpPutRaw(h, raw) => StoreRecordPlain(s, h, Parse(raw));
    case OpGet(_, _) => SameLabelsPlain(s, Apply(s, op));
    case OpDelete(_) => SameLabelsPlain(s, Apply(s, op));
    case OpUpdateTTL(_, _, _, _) => SameLabelsPlain(s, Apply(s, op));
  }

  lemma {:induction false} RunPlain(s: Store, ops: seq<Op>)
    requires Plain(s) && LegalRun(s, ops) && forall i :: 0 <= i < |ops| ==> !ops[i].OpCompaction? && !ops[i].OpDrop?
    ensures Plain(Run(s, ops))
    decreases |ops|
  {
    hide Plain, Apply, Legal;
    if ops != [] {
      StepPlain(s, ops[0]);
      RunPlain(Apply(s, ops[0]), ops[1..]);
    }
  }

  /** After any history of a new or forked engine without compaction or drop a scan sees every
      live entry. */
  lemma ScanSeesAll(s0: Store, ops: seq<Op>, i: nat, h: nat)
    requires Initial(s0) && LegalRun(s0, ops) && forall k :: 0 <= k < |ops| ==> !ops[k].OpCompaction? && !ops[k].OpDrop?
    requires var s := Run(s0, ops); i < |s.tables| && h in s.tables[i].slots
    ensures var s := Run(s0, ops); Coherent(s) && PlaceOf(s, i, h) in Seen(s)
  {
    hide StoreInv, Coherent, Plain, Run, LegalRun, Seen, PlaceOf, HeadLive, Scan.Missed, Initial;
    var s := Run(s0, ops);
    PlainStore(s0, ops);
    Scan.RouteAllIff(s.index);
    PlainIndex(s, i);
    Scan.RouteIff(s.index, s.tables[i].coefficient);
    SeenIff(s, i, h);
  }

  lemma InitialPlain(s: Store)
    requires Initial(s)
    ensures Plain(s)
  {
  }

  lemma PlainStore(s0: Store, ops: seq<Op>)
    requires Initial(s0) && LegalRun(s0, ops) && forall k :: 0 <= k < |ops| ==> !ops[k].OpCompaction? && !ops[k].OpDrop?
    ensures var s := Run(s0, ops);
            StoreInv(s) && HeadLive(s) && Plain(s) && Coherent(s) && Scan.Contiguous(s.index) && s.tableSize == s0.tableSize
  {
    hide StoreInv, Coherent, HeadLive, Plain, Initial, Refines;
    InitialInv(s0);
    InitialPlain(s0);
    HistoryStore(s0, ops);
    DropFreeLossless(s0, ops);
    RunPlain(s0, ops);
    PlainCoherent(Run(s0, ops));
  }

  lemma PlainIndex(s: Store, i: nat)
    requires Plain(s) && i < |s.tables|
    ensures s.tables[i].coefficient in s.index
  {
  }

  lemma PlainSize(s0: Store, ops: seq<Op>)
    requires Initial(s0) && LegalRun(s0, ops) && forall k :: 0 <= k < |ops| ==> !ops[k].OpCompaction? && !ops[k].OpDrop?
    ensures var s := Run(s0, ops); (s.tables == [] ==> s.index == {}) && (s.tables == [] || s0.tableSize > 0 <==> s0 != Forked(0))
  {
    hide StoreInv, Refines, HeadLive, Run, LegalRun;
    PlainStore(s0, ops);
    InitialInv(s0);
    if s0.tableSize == 0 {
      RunZero(s0, ops);
    }
  }

  /** Scanning such a store to the end, with any counts, yields each live entry exactly once
      and nothing else. It panics exactly on a forked engine of table size zero. */
  method FullScan(tableSize: nat, ghost s0: Store, ghost ops: seq<Op>, d: Scan.Directory, tables: nat, counts: nat -> nat)
    returns (ok: bool, all: seq<Scan.Place>)
    requires Initial(s0) && s0.tableSize == tableSize && LegalRun(s0, ops)
    requires forall k :: 0 <= k < |ops| ==> !ops[k].OpCompaction? && !ops[k].OpDrop?
    requires Coherent(Run(s0, ops)) && d == DirectoryOf(Run(s0, ops)) && tables == |Run(s0, ops).tables|
    requires forall k :: counts(k) >= 1
    ensures ok <==> s0 != Forked(0)
    ensures ok ==> Scan.NoRepeats(all)
    ensures var s := Run(s0, ops);
            ok ==> forall i, h :: 0 <= i < |s.tables| && h in s.tables[i].slots ==> PlaceOf(s, i, h) in all
    ensures var s := Run(s0, ops);
            ok ==> forall p :: p in all ==> exists i, h :: 0 <= i < |s.tables| && h in s.tables[i].slots && PlaceOf(s, i, h) == p
    ensures var s := Run(s0, ops);
            forall i, h, j, g :: 0 <= i < |s.tables| && h in s.tables[i].slots && 0 <= j < |s.tables| && g in s.tables[j].slots ==>
              PlaceOf(s, i, h) == PlaceOf(s, j, g) ==> i == j && h == g
  {
    hide StoreInv, Coherent, Plain, Run, LegalRun, HeadLive, DirectoryOf, PlaceOf, Initial;
    ghost var s := Run(s0, ops);
    PlainStore(s0, ops);
    DirectoryInRange(s);
    PlainSize(s0, ops);
    ok, all := Scan.ScanAll(d, tableSize, tables, counts);
    forall i, h | ok && 0 <= i < |s.tables| && h in s.tables[i].slots
      ensures PlaceOf(s, i, h) in all
    {
      ScanSeesAll(s0, ops, i, h);
    }
    forall p | ok && p in all
      ensures exists i, h :: 0 <= i < |s.tables| && h in s.tables[i].slots && PlaceOf(s, i, h) == p
    {
      SeenIsLive(s, p);
    }
    forall i, h, j, g | 0 <= i < |s.tables| && h in s.tables[i].slots && 0 <= j < |s.tables| && g in s.tables[j].slots
      && PlaceOf(s, i, h) == PlaceOf(s, j, g)
      ensures i == j && h == g
    {
      PlacesDiffer(s, i, h, j, g);
    }
  }

  // What the clean-up does to the index

  ghost predicate SomeDroppable(ts: seq<Tbl>, i: nat, now: int, timeout: int) {
    exists j :: i <= j < |ts| && Droppable(ts[j], now, timeout)
  }

  /** Dropping recycled tables takes coefficient zero out of the index, whichever table has it. */
  lemma {:induction false} CleanupForgetsZero(s: Store, i: nat, now: int, timeout: int)
    requires Coherent(s) && i <= |s.tables|
    ensures Cleanup(s, i, now, timeout).index
         == if |s.tables| > 1 && SomeDroppable(s.tables, i, now, timeout) then s.index - {0} else s.index
    decreases |s.tables| - i
  {
    hide Labelled, Expired;
    if i < |s.tables| && Droppable(s.tables[i], now, timeout) {
      if |s.tables| != 1 {
        var s' := s.(index := s.index - {s.tables[i].coefficient}, tables := RemoveAt(s.tables, i));
        LabelDrop(Labels(s.tables), s.coefficient, s.index, i, s.tables[i].coefficient);
        assert Labels(s'.tables) == RemoveAt(Labels(s.tables), i);
        CleanupForgetsZero(s', i, now, timeout);
        assert s.index - {0} - {0} == s.index - {0};
      }
    } else if i < |s.tables| {
      CleanupForgetsZero(s, i + 1, now, timeout);
    }
  }

  /** A table that is not an expired recycled one survives. */
  lemma {:induction false} CleanupSurvivor(s: Store, i: nat, now: int, timeout: int, k: nat) returns (k': nat)
    requires i <= |s.tables| && k < |s.tables| && !Droppable(s.tables[k], now, timeout)
    ensures var r := Cleanup(s, i, now, timeout).tables; k' < |r| && r[k'] == s.tables[k]
    decreases |s.tables| - i
  {
    hide Expired;
    if i < |s.tables| && Droppable(s.tables[i], now, timeout) {
      if |s.tables| != 1 {
        var s' := s.(index := s.index - {s.tables[i].coefficient}, tables := RemoveAt(s.tables, i));
        k' := CleanupSurvivor(s', i, now, timeout, if k < i then k else k - 1);
      } else {
        k' := k;
      }
    } else if i < |s.tables| {
      k' := CleanupSurvivor(s, i + 1, now, timeout, k);
    } else {
      k' := k;
    }
  }

  /** Once some recycled table has expired, the clean-up leaves the live entries of the table
      with coefficient zero where they are, and no scan sees them. */
  lemma FirstTableUnseen(s: Store, now: int, timeout: int, i: nat, h: nat) returns (i': nat)
    requires StoreInv(s) && HeadLive(s) && Coherent(s) && SomeDroppable(s.tables, 0, now, timeout)
    requires i < |s.tables| && h in s.tables[i].slots && s.tables[i].coefficient == 0
    ensures var r := Cleanup(s, 0, now, timeout);
            Coherent(r) && i' < |r.tables| && r.tables[i'] == s.tables[i] && PlaceOf(r, i', h) !in Seen(r)
  {
    hide Coherent, Scan.Missed, Seen, Cleanup, Expired;
    var r := Cleanup(s, 0, now, timeout);
    LiveTable(s, i, h);
    TwoTables(s, i, now, timeout);
    CleanupForgetsZero(s, 0, now, timeout);
    CleanupCoherent(s, 0, now, timeout);
    CleanupInv(s, 0, now, timeout);
    i' := CleanupSurvivor(s, 0, now, timeout, i);
    SeenIff(r, i', h);
  }

  lemma TwoTables(s: Store, i: nat, now: int, timeout: int)
    requires i < |s.tables| && !s.tables[i].state.Recycled? && SomeDroppable(s.tables, 0, now, timeout)
    ensures |s.tables| > 1
  {
  }
}
