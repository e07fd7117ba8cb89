/** The fragments the balancer moves are stores of the engine: merging entries, exporting and
    dropping a table, and compacting the engine are the balancer's steps. */
module BalancerEngine {
  import opened Codec
  import opened TableModel
  import SM = StoreModel
  import SH = StoreHistory
  import CM = CompactionModel
  import M = Merge
  import B = Balancer

  function Entries(t: Tbl): map<nat, Entry> {
    map h | h in t.slots :: SM.Item(t.slots[h].entry)
  }

  /** A table as the balancer sees it. */
  function TableOf(t: Tbl): B.Table {
    B.Table(Entries(t), t.state.Recycled?, t.recycledAt)
  }

  function FragmentOf(ts: seq<Tbl>): (f: B.Fragment)
    ensures |f| == |ts|
    ensures forall i :: 0 <= i < |ts| ==> f[i] == TableOf(ts[i])
  {
    if ts == [] then [] else [TableOf(ts[0])] + FragmentOf(ts[1..])
  }

  lemma {:induction false} Elsewhere(ts: seq<Tbl>, h: nat)
    ensures h in B.View(FragmentOf(ts)) <==> exists i :: 0 <= i < |ts| && h in ts[i].slots
  {
    if ts != [] {
      Elsewhere(ts[1..], h);
      assert FragmentOf(ts)[1..] == FragmentOf(ts[1..]);
      if i :| 0 <= i < |ts[1..]| && h in ts[1..][i].slots {
        assert h in ts[i + 1].slots;
      }
      if i :| 0 <= i < |ts| && h in ts[i].slots {
        assert i > 0 ==> h in ts[1..][i - 1].slots;
      }
    }
  }

  lemma {:induction false} FragmentUnique(ts: seq<Tbl>)
    requires SM.Unique(ts)
    ensures B.Unique(FragmentOf(ts))
  {
    if ts != [] {
      assert FragmentOf(ts)[1..] == FragmentOf(ts[1..]);
      FragmentUnique(ts[1..]);
      forall h | h in ts[0].slots
        ensures h !in B.View(FragmentOf(ts[1..]))
      {
        Elsewhere(ts[1..], h);
      }
    }
  }

  /** What the balancer sees of a store is what lookups see. */
  lemma FragmentRefines(s: SM.Store)
    requires SM.Unique(s.tables)
    ensures SM.Refines(s, B.View(FragmentOf(s.tables)))
  {
    var f := FragmentOf(s.tables);
    FragmentUnique(s.tables);
    forall h
      ensures SM.View(s.tables, h) == if h in B.View(f) then Some(B.View(f)[h]) else None
    {
      Elsewhere(s.tables, h);
      if i :| 0 <= i < |s.tables| && h in s.tables[i].slots {
        SM.ViewUnique(s.tables, i, h);
        assert h in f[i].entries;
        B.UniqueView(f, i, h);
      } else {
        SM.ViewAbsent(s.tables, h);
      }
    }
  }

  lemma SameContents(s: SM.Store, m: map<nat, Entry>, n: map<nat, Entry>)
    requires SM.Refines(s, m) && SM.Refines(s, n)
    ensures m == n
  {
    hide SM.View;
    forall h
      ensures h in m <==> h in n
      ensures h in m ==> m[h] == n[h]
    {
      assert SM.View(s.tables, h) == SM.View(s.tables, h);
    }
  }

  /** The engine's merge of the entries of an exported table, in the order they come. */
  function MergeStore(s: SM.Store, ps: seq<M.Pair>, now: Int64): SM.Store
    decreases |ps|
  {
    if ps == [] || SM.PutLoops(s, ps[0].entry) then s else MergeStore(M.MergeInto(s, ps[0], now), ps[1..], now)
  }

  ghost predicate AllTransferable(s: SM.Store, ps: seq<M.Pair>) {
    forall i :: 0 <= i < |ps| ==> M.Transferable(s, ps[i].entry)
  }

  lemma {:induction false} MergeStoreRefines(s: SM.Store, m: map<nat, Entry>, ps: seq<M.Pair>, now: Int64)
    requires SM.StoreInv(s) && SM.Refines(s, m) && AllTransferable(s, ps)
    ensures SM.StoreInv(MergeStore(s, ps, now)) && SM.Refines(MergeStore(s, ps, now), M.MergeAll(m, ps))
    decreases |ps|
  {
    hide SM.StoreInv, SM.Refines, M.MergeInto, M.MergePair;
    if ps != [] {
      assert M.Transferable(s, ps[0].entry);
      M.MergeIntoRefines(s, m, ps[0], now);
      var r := M.MergeInto(s, ps[0], now);
      forall i | 0 <= i < |ps[1..]|
        ensures M.Transferable(r, ps[1..][i].entry)
      {
        assert M.Transferable(s, ps[i + 1].entry);
      }
      MergeStoreRefines(r, M.MergePair(m, ps[0]), ps[1..], now);
    }
  }

  /** Merging into the engine, whole or in part, is the balancer's merge. */
  lemma EngineMerges(s: SM.Store, ps: seq<M.Pair>, now: Int64)
    requires SM.StoreInv(s) && AllTransferable(s, ps)
    ensures var f := FragmentOf(MergeStore(s, ps, now).tables);
            B.Unique(f) && B.View(f) == M.MergeAll(B.View(FragmentOf(s.tables)), ps)
  {
    hide SM.Refines, M.MergeAll, MergeStore, B.View, SM.View;
    var m, r := B.View(FragmentOf(s.tables)), MergeStore(s, ps, now);
    FragmentRefines(s);
    MergeStoreRefines(s, m, ps, now);
    FragmentUnique(r.tables);
    FragmentRefines(r);
    SameContents(r, B.View(FragmentOf(r.tables)), M.MergeAll(m, ps));
  }

  /** The engine exports the table the balancer exports. */
  lemma EngineExports(s: SM.Store)
    ensures var i := SH.ExportIndex(s);
            B.ExportIndex(FragmentOf(s.tables)) == if i < |s.tables| then Some(i) else None
  {
    var flags := seq(|s.tables|, i requires 0 <= i < |s.tables| => !s.tables[i].state.Recycled?);
    ExportsFrom(s.tables, flags);
  }

  lemma {:induction false} ExportsFrom(ts: seq<Tbl>, flags: seq<bool>)
    requires |flags| == |ts| && forall i :: 0 <= i < |ts| ==> flags[i] == !ts[i].state.Recycled?
    ensures B.ExportIndex(FragmentOf(ts)) == if CM.First(flags) < |ts| then Some(CM.First(flags)) else None
  {
    hide Entries;
    var f := FragmentOf(ts);
    if ts != [] && !flags[0] {
      hide FragmentOf;
      assert f[0].recycled && f[1..] == FragmentOf(ts[1..]);
      ExportsFrom(ts[1..], flags[1..]);
    }
  }

  /** The engine drops the table the balancer drops, and stays a store that merges and
      compacts as the balancer assumes. */
  lemma EngineDrops(s: SM.Store, i: nat)
    requires SM.StoreInv(s) && i < |s.tables|
    ensures FragmentOf(SH.Drop(s, i).tables) == SM.RemoveAt(FragmentOf(s.tables), i)
    ensures SM.StoreInv(SH.Drop(s, i))
  {
    hide SM.StoreInv;
    SH.DropStore(s, i);
  }

  lemma SameKeys(t: Tbl)
    ensures Entries(t).Keys == t.slots.Keys
    ensures Entries(t) == map[] <==> t.slots == map[]
  {
    assert Entries(t).Keys == t.slots.Keys;
    assert Entries(t) == map[] <==> Entries(t).Keys == {};
    assert t.slots == map[] <==> t.slots.Keys == {};
  }

  lemma SameTailLost(s: SM.Store, now: int, timeout: int)
    ensures B.TailLost(FragmentOf(s.tables), now, timeout) <==> CM.TailLost(s, 0, now, timeout)
  {
    hide Entries;
    var f := FragmentOf(s.tables);
    if s.tables != [] {
      SameKeys(SM.Head(s));
      forall i | 0 <= i < |f|
        ensures B.Droppable(f[i], now, timeout) <==> CM.Droppable(s.tables[i], now, timeout)
      {
      }
      hide FragmentOf;
      if CM.TailLost(s, 0, now, timeout) {
        var j :| 0 <= j < |s.tables| - 1 && !CM.Droppable(s.tables[j], now, timeout);
        assert !B.Droppable(f[j], now, timeout);
      }
      if B.TailLost(f, now, timeout) {
        var j :| 0 <= j < |f| - 1 && !B.Droppable(f[j], now, timeout);
        assert !CM.Droppable(s.tables[j], now, timeout);
      }
    }
  }

  /** A compaction of the engine is the balancer's, losses included. */
  lemma EngineCompacts(s: SM.Store, keys: seq<nat>, now: Int64, timeout: int)
    requires SM.StoreInv(s) && (!CM.Done(s) ==> CM.IsOrder(s.tables[CM.FirstOver(s.tables)], keys))
    ensures var f := FragmentOf(s.tables);
            var g := FragmentOf(CM.Compaction(s, keys, now, timeout).tables);
            && B.Unique(g)
            && B.View(g) == if CM.Done(s) && B.TailLost(f, now, timeout) then B.View(f) - f[|f| - 1].entries.Keys else B.View(f)
  {
    hide SM.Refines, B.View, SM.View, CM.Compaction, CM.Done, CM.TailLost, B.TailLost, CM.IsOrder;
    var r := CM.Compaction(s, keys, now, timeout);
    CM.CompactionKeeps(s, keys, now, timeout);
    FragmentUnique(r.tables);
    FragmentRefines(s);
    FragmentRefines(r);
    SameTailLost(s, now, timeout);
    if CM.Done(s) && CM.TailLost(s, 0, now, timeout) {
      LostContents(s, keys, now, timeout);
      SameContents(r, B.View(FragmentOf(r.tables)), B.View(FragmentOf(s.tables)) - SM.Head(s).slots.Keys);
      SameKeys(SM.Head(s));
    } else {
      KeptContents(s, r, B.View(FragmentOf(s.tables)));
      SameContents(r, B.View(FragmentOf(r.tables)), B.View(FragmentOf(s.tables)));
    }
  }

  lemma KeptContents(s: SM.Store, r: SM.Store, m: map<nat, Entry>)
    requires CM.SameView(s, r) && SM.Refines(s, m)
    ensures SM.Refines(r, m)
  {
    hide SM.View;
  }

  lemma LostContents(s: SM.Store, keys: seq<nat>, now: Int64, timeout: int)
    requires SM.StoreInv(s) && CM.Done(s) && CM.TailLost(s, 0, now, timeout)
    ensures s.tables != []
    ensures SM.Refines(CM.Compaction(s, keys, now, timeout), B.View(FragmentOf(s.tables)) - SM.Head(s).slots.Keys)
  {
    hide SM.View, B.View, SM.StoreInv, CM.Cleanup;
    var m := B.View(FragmentOf(s.tables));
    assert SM.Refines(s, m) by { UniqueOf(s); FragmentRefines(s); }
    var r := CM.Compaction(s, keys, now, timeout);
    assert r == CM.Cleanup(s, 0, now, timeout);
    var n := m - SM.Head(s).slots.Keys;
    forall h
      ensures SM.View(r.tables, h) == if h in n then Some(n[h]) else None
    {
      CM.CleanupView(s, 0, now, timeout, h);
    }
  }

  lemma UniqueOf(s: SM.Store)
    requires SM.StoreInv(s)
    ensures SM.Unique(s.tables)
  {
  }
}
