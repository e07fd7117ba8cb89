/** The storage engine itself: tables that are updated in place, a list of them and an index
    by coefficient. Every method is proved against StoreModel and CompactionModel. */
module KVStoreClass {
  import opened Codec
  import opened TableModel
  import opened TableClass
  import SM = StoreModel
  import CM = CompactionModel
  import SH = StoreHistory

  class KVStore {
    const tableSize: nat
    var coefficient: nat
    var tablesByCoefficient: map<nat, Table>
    var tables: seq<Table>
    ghost var model: SM.Store
    ghost var Repr: set<object>

    ghost predicate Owned()
      reads this
    {
      && this in Repr
      && (forall i :: 0 <= i < |tables| ==> tables[i] in Repr && tables[i].memory in Repr && this != tables[i] as object)
      && Apart(tables)
    }

    ghost predicate Linked()
      reads this, Repr
      requires Owned()
    {
      && |model.tables| == |tables|
      && (forall i :: 0 <= i < |tables| ==> tables[i].Valid() && tables[i].Model() == model.tables[i])
    }

    ghost predicate Indexed()
      reads this
    {
      IndexOf(tablesByCoefficient, tables, model)
    }

    ghost predicate Valid()
      reads this, Repr
    {
      && |tables| == |model.tables| && this in Repr
      && Owned() && Linked() && Indexed()
      && model.coefficient == coefficient && model.tableSize == tableSize
    }

    constructor (size: nat)
      ensures Valid() && fresh(Repr)
      ensures model == SM.NewStore(size)
    {
      tableSize := size;
      coefficient := 0;
      tablesByCoefficient, tables := map[], [];
      model := SM.NewStore(size);
      Repr := {this};
    }

    method GetRaw(hkey: nat) returns (raw: Option<seq<Byte>>)
      requires Valid()
      ensures raw == match SM.Lookup(model.tables, hkey) case None => None case Some(e) => Some(Layout(e))
    {
      hide Table.Valid, Layout;
      var i := |tables|;
      SM.LookupAt(model.tables, hkey);
      while i > 0
        invariant 0 <= i <= |tables|
        invariant forall j :: i <= j < |tables| ==> hkey !in model.tables[j].slots
      {
        i := i - 1;
        raw := tables[i].GetRaw(hkey);
        if raw.Some? {
          return;
        }
      }
      raw := None;
    }

    lemma SlotsAt(i: nat)
      requires Valid() && i < |tables|
      ensures tables[i].slots == model.tables[i].slots
      ensures tables[i].hkeys.Keys == model.tables[i].slots.Keys
      ensures tables[i].state == model.tables[i].state
      ensures tables[i].coefficient == model.tables[i].coefficient
      ensures tables[i].inuse == model.tables[i].inuse
      ensures tables[i].garbage == model.tables[i].garbage
      ensures tables[i].recycledAt == model.tables[i].recycledAt
      ensures tables[i].memory.Length == model.tables[i].capacity
    {
    }

    // The in-place operations on the table at one position

    method GetAt(t: Table, ghost i: nat, hkey: nat, now: Int64) returns (r: Option<Entry>)
      requires Valid() && i < |tables| && t == tables[i]
      modifies Repr
      ensures Valid() && Repr == old(Repr) && tables == old(tables)
      ensures model == old(model).(tables := old(model).tables[i := Touch(old(model).tables[i], hkey, now)])
      ensures r == if hkey in old(model).tables[i].slots then Some(old(model).tables[i].slots[hkey].entry) else None
    {
      hide Table.Valid, Table.Model, Inv, Touch;
      SlotsAt(i);
      ghost var before := model.tables;
      model := model.(tables := before[i := Touch(before[i], hkey, now)]);
      r := t.Get(hkey, now);
      assert Indexed() by { TouchMeta(before[i], hkey, now); }
    }

    method DeleteAt(t: Table, ghost i: nat, hkey: nat) returns (status: Status)
      requires Valid() && i < |tables| && t == tables[i]
      modifies Repr
      ensures Valid() && Repr == old(Repr) && tables == old(tables)
      ensures model == old(model).(tables := old(model).tables[i := TableModel.Delete(old(model).tables[i], hkey)])
      ensures status == if hkey in old(model).tables[i].slots then Ok else ErrHKeyNotFound
    {
      hide Table.Valid, Table.Model, Inv, TableModel.Delete;
      SlotsAt(i);
      ghost var before := model.tables;
      model := model.(tables := before[i := TableModel.Delete(before[i], hkey)]);
      status := t.Delete(hkey);
      assert Indexed() by { DeleteMeta(before[i], hkey); }
    }

    method UpdateTTLAt(i: nat, hkey: nat, ttl: Int64, timestamp: Int64, now: Int64) returns (status: Status)
      requires Valid() && i < |tables|
      modifies Repr
      ensures Valid() && Repr == old(Repr) && tables == old(tables)
      ensures model == old(model).(tables := old(model).tables[i := TableModel.UpdateTTL(old(model).tables[i], hkey, ttl, timestamp, now)])
      ensures status == if hkey in old(model).tables[i].slots then Ok else ErrHKeyNotFound
    {
      hide Table.Valid, Table.Model, Inv, TableModel.UpdateTTL;
      SlotsAt(i);
      ghost var before := model.tables;
      model := model.(tables := before[i := TableModel.UpdateTTL(before[i], hkey, ttl, timestamp, now)]);
      status := tables[i].UpdateTTL(hkey, ttl, timestamp, now);
      assert Indexed() by { UpdateTTLMeta(before[i], hkey, ttl, timestamp, now); }
    }

    method PutRawAt(i: nat, hkey: nat, raw: seq<Byte>) returns (status: Status)
      requires Valid() && i < |tables| && IsRecord(raw)
      modifies Repr
      ensures Valid() && Repr == old(Repr) && tables == old(tables)
      ensures status == if Fits(old(model).tables[i], |raw|) then Ok else ErrNotEnoughSpace
      ensures model == if status.Ok? then old(model).(tables := old(model).tables[i := Append(old(model).tables[i], hkey, Parse(raw))])
                       else old(model)
    {
      hide Table.Valid, Table.Model, Inv, Append, Parse;
      ghost var before := model.tables;
      status := tables[i].PutRaw(hkey, raw);
      if status.Ok? {
        model := model.(tables := before[i := Append(before[i], hkey, Parse(raw))]);
        AppendMeta(before[i], hkey, Parse(raw));
      }
    }

    method PutAt(i: nat, hkey: nat, value: Entry, now: Int64) returns (status: Status)
      requires Valid() && i < |tables| && |value.value| < TWO_32
      modifies Repr
      ensures Valid() && Repr == old(Repr) && tables == old(tables)
      ensures status == if |value.key| >= MAX_KEY_LENGTH then ErrKeyTooLarge
                        else if Fits(old(model).tables[i], EntrySize(value)) then Ok else ErrNotEnoughSpace
      ensures model == if status.Ok? then old(model).(tables := old(model).tables[i := Append(old(model).tables[i], hkey, value.(lastAccess := now))])
                       else old(model)
    {
      hide Table.Valid, Table.Model, Inv, Append, EntrySize;
      ghost var before := model.tables;
      status := tables[i].Put(hkey, value, now);
      if status.Ok? {
        model := model.(tables := before[i := Append(before[i], hkey, value.(lastAccess := now))]);
        AppendMeta(before[i], hkey, value.(lastAccess := now));
      }
    }

    // Searches

    method Get(hkey: nat, now: Int64) returns (r: Option<Entry>)
      requires Valid()
      modifies Repr
      ensures Valid() && Repr == old(Repr)
      ensures model == SM.Get(old(model), hkey, now)
      ensures r == SM.Lookup(old(model).tables, hkey)
    {
      hide Linked, Owned, Indexed;
      var i := |tables|;
      SM.LookupAt(model.tables, hkey);
      while i > 0
        invariant 0 <= i <= |tables| == |model.tables|
        invariant Valid() && model == old(model) && Repr == old(Repr)
        invariant forall j :: i <= j < |tables| ==> hkey !in model.tables[j].slots
      {
        i := i - 1;
        r := GetAt(tables[i], i, hkey, now);
        if r.Some? {
          assert SM.Locate(old(model).tables, hkey) == i;
          return;
        }
        assert model.tables == old(model).tables;
      }
      r := None;
    }

    method GetTTL(hkey: nat) returns (r: Option<Int64>)
      requires Valid()
      ensures r == match SM.Lookup(model.tables, hkey) case None => None case Some(e) => Some(e.ttl)
    {
      hide Table.Valid;
      var i := |tables|;
      SM.LookupAt(model.tables, hkey);
      while i > 0
        invariant 0 <= i <= |tables|
        invariant forall j :: i <= j < |tables| ==> hkey !in model.tables[j].slots
      {
        i := i - 1;
        r := tables[i].GetTTL(hkey);
        if r.Some? {
          return;
        }
      }
      r := None;
    }

    method GetKey(hkey: nat) returns (r: Option<seq<Byte>>)
      requires Valid()
      ensures r == match SM.Lookup(model.tables, hkey) case None => None case Some(e) => Some(e.key)
    {
      hide Table.Valid;
      var i := |tables|;
      SM.LookupAt(model.tables, hkey);
      while i > 0
        invariant 0 <= i <= |tables|
        invariant forall j :: i <= j < |tables| ==> hkey !in model.tables[j].slots
      {
        i := i - 1;
        r := tables[i].GetKey(hkey);
        if r.Some? {
          return;
        }
      }
      r := None;
    }

    method Check(hkey: nat) returns (ok: bool)
      requires Valid()
      ensures ok <==> SM.Lookup(model.tables, hkey).Some?
    {
      hide Table.Valid;
      var i := |tables|;
      SM.LookupAt(model.tables, hkey);
      while i > 0
        invariant 0 <= i <= |tables|
        invariant forall j :: i <= j < |tables| ==> hkey !in model.tables[j].slots
      {
        i := i - 1;
        ok := tables[i].Check(hkey);
        if ok {
          return;
        }
      }
      ok := false;
    }

    /** Delete stops at the first table that holds the key, and reports no error without one. */
    method Delete(hkey: nat)
      requires Valid()
      modifies Repr
      ensures Valid() && Repr == old(Repr)
      ensures model == SM.DeleteKey(old(model), hkey)
    {
      hide Linked, Owned, Indexed;
      var i := |tables|;
      while i > 0
        invariant 0 <= i <= |tables| == |model.tables|
        invariant Valid() && model == old(model) && Repr == old(Repr)
        invariant forall j :: i <= j < |tables| ==> hkey !in model.tables[j].slots
      {
        i := i - 1;
        var status := DeleteAt(tables[i], i, hkey);
        if status.Ok? {
          assert SM.Locate(old(model).tables, hkey) == i;
          return;
        }
        assert model.tables == old(model).tables;
      }
    }

    method UpdateTTL(hkey: nat, ttl: Int64, timestamp: Int64, now: Int64) returns (found: bool)
      requires Valid()
      modifies Repr
      ensures Valid() && Repr == old(Repr)
      ensures model == SM.UpdateTTL(old(model), hkey, ttl, timestamp, now)
      ensures found <==> SM.Lookup(old(model).tables, hkey).Some?
    {
      hide Linked, Owned, Indexed;
      SM.LookupAt(model.tables, hkey);
      var i := |tables|;
      while i > 0
        invariant 0 <= i <= |tables| == |model.tables|
        invariant Valid() && model == old(model) && Repr == old(Repr)
        invariant forall j :: i <= j < |tables| ==> hkey !in model.tables[j].slots
      {
        i := i - 1;
        var status := UpdateTTLAt(i, hkey, ttl, timestamp, now);
        if status.Ok? {
          assert SM.Locate(old(model).tables, hkey) == i;
          return true;
        }
        assert model.tables == old(model).tables;
      }
      found := false;
    }

    // Making a table

    method SealHead()
      requires Valid()
      modifies Repr
      ensures Valid() && Repr == old(Repr) && tables == old(tables)
      ensures model == old(model).(tables := SM.SealHead(old(model).tables))
    {
      hide Table.Valid, Table.Model, Inv;
      if |tables| != 0 {
        var n := |tables| - 1;
        model := model.(tables := SM.SealHead(model.tables));
        tables[n].SetState(ReadOnly);
      }
    }

    method MoveToTail(i: nat)
      requires Valid() && i < |tables|
      modifies `tables, `model
      ensures Valid()
      ensures tables == ToTail(old(tables), i)
      ensures model == old(model).(tables := ToTail(old(model).tables, i))
    {
      hide Table.Valid, Table.Model, Inv, ToTail, Apart, IndexOf;
      ApartToTail(tables, i);
      IndexToTail(tablesByCoefficient, tables, model, i);
      tables := ToTail(tables, i);
      model := model.(tables := ToTail(model.tables, i));
    }

    method SetCoefficientAt(i: nat, cf: nat)
      requires Valid() && i < |tables|
      requires forall c :: c in tablesByCoefficient ==> tablesByCoefficient[c] != tables[i]
      modifies Repr
      ensures Valid() && Repr == old(Repr) && tables == old(tables) && tablesByCoefficient == old(tablesByCoefficient)
      ensures model == old(model).(tables := old(model).tables[i := old(model).tables[i].(coefficient := cf)])
    {
      hide Table.Valid, Table.Model, Inv;
      model := model.(tables := model.tables[i := model.tables[i].(coefficient := cf)]);
      tables[i].SetCoefficient(cf);
    }

    method SetStateAt(i: nat, state: TableState)
      requires Valid() && i < |tables| && !state.Recycled?
      modifies Repr
      ensures Valid() && Repr == old(Repr) && tables == old(tables) && tablesByCoefficient == old(tablesByCoefficient)
      ensures model == old(model).(tables := old(model).tables[i := old(model).tables[i].(state := state)])
    {
      hide Table.Valid, Table.Model, Inv;
      model := model.(tables := model.tables[i := model.tables[i].(state := state)]);
      tables[i].SetState(state);
    }

    /** Enter the tail in the index under its coefficient, the next free one. */
    method IndexTail()
      requires Valid() && tables != []
      requires model.tables[|tables| - 1].coefficient == coefficient && !model.tables[|tables| - 1].state.Recycled?
      requires forall c :: c in tablesByCoefficient ==> tablesByCoefficient[c] != tables[|tables| - 1]
      modifies `tablesByCoefficient, `coefficient, `model
      ensures Valid()
      ensures model == old(model).(index := old(model).index + {old(coefficient)}, coefficient := old(coefficient) + 1)
    {
      hide Table.Valid, Table.Model, Inv;
      tablesByCoefficient := tablesByCoefficient[coefficient := tables[|tables| - 1]];
      model := model.(index := model.index + {coefficient}, coefficient := coefficient + 1);
      coefficient := coefficient + 1;
    }

    method PushNew(t: Table)
      requires Valid() && t.Valid() && t !in Repr && t.memory !in Repr && t as object != this
      modifies `tables, `model, `Repr
      ensures Valid() && Repr == old(Repr) + {t, t.memory}
      ensures tables == old(tables) + [t] && tablesByCoefficient == old(tablesByCoefficient)
      ensures model == old(model).(tables := old(model).tables + [t.Model()])
    {
      hide Table.Valid, Table.Model, Inv;
      Repr := Repr + {t, t.memory};
      tables := tables + [t];
      model := model.(tables := model.tables + [t.Model()]);
    }

    method MakeTable()
      requires Valid()
      modifies Repr
      ensures Valid() && fresh(Repr - old(Repr))
      ensures model == SM.MakeTable(old(model))
      ensures Pushed(tables, old(tables), SM.SealHead(old(model).tables))
    {
      hide Owned, Linked, Indexed;
      SealHead();
      ghost var sealed := model.tables;
      var i := 0;
      while i < |tables|
        invariant 0 <= i <= |tables|
        invariant Valid() && model == old(model).(tables := sealed) && tables == old(tables) && Repr == old(Repr)
        invariant forall j :: 0 <= j < i ==> !sealed[j].state.Recycled?
      {
        SlotsAt(i);
        if tables[i].state.Recycled? {
          assert SM.FirstRecycled(sealed) == i;
          ReuseAt(i);
          return;
        }
        i := i + 1;
      }
      assert SM.FirstRecycled(sealed) == |sealed|;
      AddTable();
    }

    method ReuseAt(i: nat)
      requires Valid() && i < |tables| && model.tables[i].state.Recycled?
      modifies Repr
      ensures Valid() && Repr == old(Repr)
      ensures tables == ToTail(old(tables), i)
      ensures model == old(model).(
                tables := SM.RemoveAt(old(model).tables, i)
                          + [old(model).tables[i].(coefficient := old(model).coefficient, state := ReadWrite)],
                index := old(model).index + {old(model).coefficient},
                coefficient := old(model).coefficient + 1)
    {
      hide Linked, Owned, Indexed;
      NotIndexed(i);
      MoveToTail(i);
      var n := |tables| - 1;
      SetCoefficientAt(n, coefficient);
      SetStateAt(n, ReadWrite);
      IndexTail();
    }

    lemma NotIndexed(i: nat)
      requires Valid() && i < |tables| && model.tables[i].state.Recycled?
      ensures forall cf :: cf in tablesByCoefficient ==> tablesByCoefficient[cf] != tables[i]
    {
    }

    method AddTable()
      requires Valid()
      modifies Repr
      ensures Valid() && fresh(Repr - old(Repr))
      ensures |tables| == |old(tables)| + 1 && tables[..|old(tables)|] == old(tables)
      ensures model == old(model).(
                tables := old(model).tables + [NewTable(old(model).tableSize, old(model).coefficient)],
                index := old(model).index + {old(model).coefficient},
                coefficient := old(model).coefficient + 1)
    {
      hide Linked, Owned, Indexed, Table.Valid, Table.Model;
      var t := new Table(tableSize);
      FreshNotIndexed(t);
      PushNew(t);
      var n := |tables| - 1;
      SetCoefficientAt(n, coefficient);
      IndexTail();
    }

    /** An engine of the same table size, with one empty table. */
    method Fork() returns (child: KVStore)
      requires Valid()
      ensures child.Valid() && fresh(child.Repr)
      ensures child.model == SM.Forked(tableSize)
    {
      hide Owned, Linked, Indexed;
      child := new KVStore(tableSize);
      child.AddTable();
    }

    lemma FreshNotIndexed(t: Table)
      requires Valid() && t !in Repr
      ensures forall cf :: cf in tablesByCoefficient ==> tablesByCoefficient[cf] != t
    {
    }

    // Writing

    method DeleteFromOlderTables(hkey: nat)
      requires Valid()
      modifies Repr
      ensures Valid() && Repr == old(Repr) && tables == old(tables)
      ensures model == old(model).(tables := SM.DeleteFromOlder(old(model).tables, hkey))
    {
      hide Linked, Owned, Indexed, TableModel.Delete;
      var i := 0;
      while i < |tables| - 1
        invariant 0 <= i <= |tables| == |old(model).tables|
        invariant tables != [] ==> i < |tables|
        invariant Valid() && Repr == old(Repr) && tables == old(tables)
        invariant model == old(model).(tables := model.tables)
        invariant forall j :: 0 <= j < |tables| ==>
                    model.tables[j] == if j < i then TableModel.Delete(old(model).tables[j], hkey) else old(model).tables[j]
      {
        var _ := DeleteAt(tables[i], i, hkey);
        i := i + 1;
      }
      assert model.tables == SM.DeleteFromOlder(old(model).tables, hkey);
    }

    method PutRaw(hkey: nat, raw: seq<Byte>) returns (status: SM.PutStatus)
      requires Valid() && SM.StoreInv(model) && IsRecord(raw) && |raw| != tableSize
      modifies Repr
      ensures Valid() && fresh(Repr - old(Repr))
      ensures status == SM.PutRawResult(old(model), raw)
      ensures model == SM.PutRaw(old(model), hkey, raw)
      ensures status.PutOk? ==> MovedFor(tables, old(tables), old(model), |raw|)
    {
      hide Linked, Owned, Indexed, SM.StoreInv, SM.MakeTable, Append, Parse, SM.DeleteFromOlder, Pushed;
      if |raw| > tableSize {
        return SM.EntryTooLarge;
      }
      RawSize(raw);
      if |tables| == 0 {
        MakeTable();
      }
      ghost var rollovers := 0;
      SM.RolloverInv(old(model), 0);
      while true
        invariant 0 <= rollovers <= 1
        invariant Valid() && fresh(Repr - old(Repr)) && tables != []
        invariant model == SM.Rollover(old(model), rollovers)
        invariant rollovers == 0 && old(tables) != [] ==> tables == old(tables)
        invariant rollovers == 1 && old(tables) != [] ==> Pushed(tables, old(tables), SM.SealHead(old(model).tables))
        invariant rollovers == 1 ==> !Fits(SM.Head(SM.EnsureTable(old(model))), |raw|)
        decreases 1 - rollovers
      {
        var t := PutRawAt(|tables| - 1, hkey, raw);
        if t.ErrNotEnoughSpace? {
          HasRoom(old(model), rollovers, |raw|);
          MakeTable();
          rollovers := rollovers + 1;
          SM.RolloverInv(old(model), rollovers);
          continue;
        }
        break;
      }
      DeleteFromOlderTables(hkey);
      status := SM.PutOk;
    }

    method Put(hkey: nat, value: Entry, now: Int64) returns (status: SM.PutStatus)
      requires Valid() && SM.StoreInv(model) && !SM.PutLoops(model, value) && |value.value| < TWO_32
      modifies Repr
      ensures Valid() && fresh(Repr - old(Repr))
      ensures status == SM.PutResult(old(model), value)
      ensures model == SM.Put(old(model), hkey, value, now)
    {
      hide Linked, Owned, Indexed, SM.StoreInv, SM.MakeTable, Append, SM.DeleteFromOlder, Pushed;
      if EntrySize(value) > tableSize {
        return SM.EntryTooLarge;
      }
      if |tables| == 0 {
        MakeTable();
      }
      ghost var rollovers := 0;
      SM.RolloverInv(old(model), 0);
      while true
        invariant 0 <= rollovers <= 1
        invariant Valid() && fresh(Repr - old(Repr)) && tables != []
        invariant model == SM.Rollover(old(model), rollovers)
        invariant rollovers == 1 ==> |value.key| < MAX_KEY_LENGTH && !Fits(SM.Head(SM.EnsureTable(old(model))), EntrySize(value))
        decreases 1 - rollovers
      {
        var t := PutAt(|tables| - 1, hkey, value, now);
        if t.ErrNotEnoughSpace? {
          HasRoom(old(model), rollovers, EntrySize(value));
          MakeTable();
          rollovers := rollovers + 1;
          SM.RolloverInv(old(model), rollovers);
          continue;
        }
        if t.ErrKeyTooLarge? {
          return SM.KeyTooLarge;
        }
        break;
      }
      DeleteFromOlderTables(hkey);
      status := SM.PutOk;
    }

    // Compaction

    /** An eviction of `t` under way, at the position and in the store of `x`. */
    ghost predicate At(x: CM.Eviction, t: Table)
      reads this
    {
      model == x.store && x.pos < |tables| && tables[x.pos] == t
    }

    method ReadOne(t: Table, hkey: nat, now: Int64, ghost x: CM.Eviction) returns (raw: seq<Byte>)
      requires Valid() && At(x, t) && CM.Evicting(x) && hkey in model.tables[x.pos].slots
      modifies Repr
      ensures Valid() && Repr == old(Repr)
      ensures var x1 := CM.TouchEntry(x, hkey, now); At(x1, t) && raw == Layout(x1.store.tables[x1.pos].slots[hkey].entry)
    {
      hide Linked, Owned, Indexed, SM.StoreInv, Layout, Table.Valid;
      var _ := GetAt(t, x.pos, hkey, now);
      SlotsAt(x.pos);
      ValidAt(x.pos);
      var found := t.GetRaw(hkey);
      raw := found.value;
    }

    method WriteOne(t: Table, hkey: nat, raw: seq<Byte>, ghost x: CM.Eviction, ghost e: Entry, ghost x2: CM.Eviction) returns (ghost y: CM.Eviction)
      requires Valid() && At(x, t) && CM.Evicting(x) && hkey in model.tables[x.pos].slots
      requires e == model.tables[x.pos].slots[hkey].entry && raw == Layout(e)
      requires x2 == CM.MakeRoom(x, EntrySize(e)) && x2.pos < |x2.store.tables|
      modifies Repr
      ensures Valid() && fresh(Repr - old(Repr))
      ensures y == CM.WriteBack(x2, hkey, e) && At(y, t)
    {
      hide Linked, Owned, Indexed, SM.StoreInv, Append, Parse, Layout, SM.WriteHead, TableModel.Delete, CM.MakeRoom, EntrySize, MovedFor, SM.PutRaw, SM.PutRawResult, IsRecord;
      ghost var before := tables;
      PutRawMoves(x, hkey, e);
      var _ := PutRaw(hkey, raw);
      FollowMove(tables, before, x, EntrySize(e));
      var _ := DeleteAt(t, x2.pos, hkey);
      y := CM.WriteBack(x2, hkey, e);
    }

    /** One callback of Range: read the entry, write it to the head, remove it from `t`. */
    method MoveOne(t: Table, hkey: nat, now: Int64, ghost x: CM.Eviction) returns (ghost y: CM.Eviction)
      requires Valid() && At(x, t) && CM.Evicting(x) && CM.CompactionOK(model.tables[x.pos])
      requires hkey in model.tables[x.pos].slots
      modifies Repr
      ensures Valid() && fresh(Repr - old(Repr))
      ensures y == CM.MoveEntry(x, hkey, now) && At(y, t)
    {
      hide Valid, SM.StoreInv, CM.MakeRoom, CM.WriteBack, Layout, EntrySize;
      var raw := ReadOne(t, hkey, now, x);
      ghost var x1 := CM.TouchEntry(x, hkey, now);
      CM.TouchKeeps(x, hkey, now);
      ghost var e := x1.store.tables[x1.pos].slots[hkey].entry;
      RoomPlace(x1, e);
      y := WriteOne(t, hkey, raw, x1, e, CM.MakeRoom(x1, EntrySize(e)));
    }

    lemma ValidAt(i: nat)
      requires Valid() && i < |tables|
      ensures tables[i].Valid()
    {
    }

    /** The loop of evictTable: the keys of `t` in any order, up to the batch limit. */
    method MoveBatch(t: Table, now: Int64, ghost x0: CM.Eviction) returns (ghost keys: seq<nat>)
      requires Valid() && At(x0, t) && CM.Evicting(x0) && CM.CompactionOK(model.tables[x0.pos])
      modifies Repr
      ensures Valid() && fresh(Repr - old(Repr))
      ensures CM.IsOrder(x0.store.tables[x0.pos], keys)
      ensures At(CM.MoveEntries(x0, keys, now), t)
    {
      hide Valid, SM.StoreInv, CM.MoveEntry, CM.MoveEntries, CM.SameView, CM.SameOver, CM.Distinct;
      ghost var t0 := x0.store.tables[x0.pos];
      ghost var x := x0;
      keys := [];
      var total := 0;
      BatchStart(x0, now);
      var more := HasKeys(t, x0.pos);
      while more && total <= 1000
        invariant Valid() && fresh(Repr - old(Repr))
        invariant CM.Evicting(x) && CM.CompactionOK(x.store.tables[x.pos])
        invariant x == CM.MoveEntries(x0, keys, now) && At(x, t) && |keys| == total <= CM.BATCH
        invariant CM.Distinct(keys, t0.slots.Keys)
        invariant x.store.tables[x.pos].slots.Keys == t0.slots.Keys - CM.Elements(keys)
        invariant |x.store.tables[x.pos].slots.Keys| == |t0.slots.Keys| - |keys|
        invariant more <==> x.store.tables[x.pos].slots.Keys != {}
        decreases CM.BATCH - total
      {
        var hkey := NextKey(t, x.pos);
        DistinctSnoc(keys, t0.slots.Keys, hkey);
        CM.MoveEntriesSnoc(x0, keys, hkey, now);
        x := MoveOne(t, hkey, now, x);
        keys := keys + [hkey];
        CM.MoveEntriesKeeps(x0, keys, now);
        total := total + 1;
        more := HasKeys(t, x.pos);
      }
      BatchOrder(t0, keys, x.store.tables[x.pos].slots.Keys);
    }

    method HasKeys(t: Table, ghost i: nat) returns (more: bool)
      requires Valid() && i < |tables| && t == tables[i]
      ensures more <==> model.tables[i].slots.Keys != {}
    {
      SlotsAt(i);
      more := |t.hkeys.Keys| > 0;
    }

    method NextKey(t: Table, ghost i: nat) returns (hkey: nat)
      requires Valid() && i < |tables| && t == tables[i] && model.tables[i].slots.Keys != {}
      ensures hkey in model.tables[i].slots
    {
      SlotsAt(i);
      hkey :| hkey in t.hkeys.Keys;
    }

    /** Recycle a drained table: out of the index, then reset. */
    method RecycleAt(t: Table, ghost i: nat, now: Int64)
      requires Valid() && i < |tables| && t == tables[i] && model.tables[i].inuse == 0
      modifies Repr
      ensures Valid() && Repr == old(Repr)
      ensures model == CM.Recycle(CM.Eviction(old(model), i), now)
    {
      hide Table.Valid, Table.Model, Inv, TableModel.Reset, IndexOf;
      SlotsAt(i);
      ghost var before := model;
      IndexRecycle(tablesByCoefficient, tables, before, i, now);
      tablesByCoefficient := tablesByCoefficient - {t.coefficient};
      model := CM.Recycle(CM.Eviction(before, i), now);
      t.Reset(now);
    }

    /** evictTable; `keys` is the order the iteration took. */
    method EvictTable(t: Table, ghost i: nat, now: Int64) returns (ghost keys: seq<nat>)
      requires Valid() && SM.StoreInv(model) && tableSize > 0
      requires i < |tables| && t == tables[i] && CM.CompactionOK(model.tables[i])
      modifies Repr
      ensures Valid() && fresh(Repr - old(Repr))
      ensures CM.IsOrder(old(model).tables[i], keys)
      ensures model == CM.Evict(old(model), i, keys, now)
    {
      hide SM.StoreInv, SM.MakeTable, Linked, Owned, Indexed, CM.MoveEntries, CM.IsOrder, Inv, Pushed, CM.Recycle, CM.SameView, CM.SameOver;
      ghost var x := CM.BeginEviction(model, i);
      CM.BeginEvictionKeeps(model, i);
      BeginStays(model, i);
      if tables[|tables| - 1] == t {
        SameTable(i, |tables| - 1);
        MakeTable();
        BeginPushed(old(model), old(tables), tables, i);
      }
      keys := MoveBatch(t, now, x);
      OrderSame(old(model).tables[i], x.store.tables[x.pos], keys);
      ghost var y := CM.MoveEntries(x, keys, now);
      SlotsAt(y.pos);
      if t.inuse == 0 {
        RecycleAt(t, y.pos, now);
      } else {
        NotRecycled(y, now);
      }
    }

    lemma SameTable(i: nat, j: nat)
      requires Valid() && i < |tables| && j < |tables| && tables[i] == tables[j]
      ensures i == j
    {
    }

    /** Take the table at `i` out of the list, and its coefficient out of the index. */
    method RemoveTable(i: nat)
      requires Valid() && i < |tables|
      modifies this
      ensures Valid() && Repr == old(Repr)
      ensures tables == SM.RemoveAt(old(tables), i)
      ensures model == old(model).(tables := SM.RemoveAt(old(model).tables, i),
                                   index := old(model).index - {old(model).tables[i].coefficient})
    {
      hide Table.Valid, Table.Model, Inv, IndexOf, Apart, SM.RemoveAt;
      SlotsAt(i);
      ApartRemove(tables, i);
      IndexRemove(tablesByCoefficient, tables, model, i);
      tablesByCoefficient := tablesByCoefficient - {tables[i].coefficient};
      model := model.(tables := SM.RemoveAt(model.tables, i), index := model.index - {model.tables[i].coefficient});
      tables := SM.RemoveAt(tables, i);
    }

    /** The second loop of Compaction. */
    method DropExpired(now: Int64, timeout: int)
      requires Valid()
      modifies this
      ensures Valid() && Repr == old(Repr)
      ensures model == CM.Cleanup(old(model), 0, now, timeout)
    {
      hide Linked, Owned, Indexed, SM.RemoveAt, CM.Expired;
      var i := 0;
      while i < |tables|
        invariant 0 <= i <= |tables|
        invariant Valid() && Repr == old(Repr)
        invariant CM.Cleanup(old(model), 0, now, timeout) == CM.Cleanup(model, i, now, timeout)
        decreases |tables| - i
      {
        SlotsAt(i);
        if tables[i].state.Recycled? && now / 1000000 >= (timeout + tables[i].recycledAt) / 1000000 {
          assert CM.Expired(model.tables[i], now, timeout) by { ExpiredAt(model.tables[i], now, timeout); }
          if |tables| == 1 {
            return;
          }
          RemoveTable(i);
        } else {
          ExpiredAt(model.tables[i], now, timeout);
          i := i + 1;
        }
      }
    }

    method Compaction(now: Int64, timeout: int) returns (done: bool, ghost keys: seq<nat>)
      requires Valid() && SM.StoreInv(model) && tableSize > 0
      modifies Repr
      ensures Valid() && fresh(Repr - old(Repr))
      ensures done <==> CM.Done(old(model))
      ensures done <==> forall i :: 0 <= i < |old(model).tables| ==> 5 * old(model).tables[i].garbage < 2 * old(model).tables[i].capacity
      ensures !done ==> CM.IsOrder(old(model).tables[CM.FirstOver(old(model).tables)], keys)
      ensures model == CM.Compaction(old(model), keys, now, timeout)
    {
      hide Linked, Owned, Indexed, SM.StoreInv, CM.Evict, CM.Cleanup, CM.IsOrder;
      keys := [];
      CM.DoneIff(model);
      var i := 0;
      while i < |tables|
        invariant 0 <= i <= |tables|
        invariant Valid() && model == old(model) && Repr == old(Repr)
        invariant forall j :: 0 <= j < i ==> !CM.CompactionOK(model.tables[j])
      {
        SlotsAt(i);
        var t := tables[i];
        if 10 * t.garbage >= 4 * t.memory.Length {
          CM.FirstIs(CM.Over(model.tables), i);
          keys := EvictTable(t, i, now);
          return false, keys;
        }
        i := i + 1;
      }
      DropExpired(now, timeout);
      done := true;
    }

    // Transport

    /** Export: the position of the first table that is not recycled, none for EOF. */
    method Export() returns (index: Option<nat>)
      requires Valid()
      ensures index.None? <==> forall i :: 0 <= i < |tables| ==> model.tables[i].state.Recycled?
      ensures index.Some? ==> index.value < |tables| && !model.tables[index.value].state.Recycled?
                              && forall i :: 0 <= i < index.value ==> model.tables[i].state.Recycled?
    {
      hide Linked, Owned, Indexed;
      var i := 0;
      while i < |tables|
        invariant 0 <= i <= |tables|
        invariant forall j :: 0 <= j < i ==> model.tables[j].state.Recycled?
      {
        SlotsAt(i);
        if !tables[i].state.Recycled? {
          return Some(i);
        }
        i := i + 1;
      }
      index := None;
    }

    method Drop(index: nat) returns (ok: bool)
      requires Valid() && (tables != [] ==> index < |tables|)
      modifies this
      ensures Valid() && Repr == old(Repr)
      ensures ok <==> old(tables) != []
      ensures model == if ok then SH.Drop(old(model), index) else old(model)
    {
      hide Linked, Owned, Indexed;
      if |tables| == 0 {
        return false;
      }
      RemoveTable(index);
      ok := true;
    }
  }

  lemma ApartRemove(ts: seq<Table>, i: nat)
    requires Apart(ts) && i < |ts|
    ensures Apart(SM.RemoveAt(ts, i))
  {
  }

  lemma IndexRemove(byCoefficient: map<nat, Table>, ts: seq<Table>, s: SM.Store, i: nat)
    requires IndexOf(byCoefficient, ts, s) && i < |ts|
    ensures var cf := s.tables[i].coefficient;
            IndexOf(byCoefficient - {cf}, SM.RemoveAt(ts, i), s.(tables := SM.RemoveAt(s.tables, i), index := s.index - {cf}))
  {
    var ts' := SM.RemoveAt(ts, i);
    forall cf | cf in byCoefficient && cf != s.tables[i].coefficient
      ensures byCoefficient[cf] in ts'
    {
      var j :| 0 <= j < |ts| && ts[j] == byCoefficient[cf];
      assert j != i;
      assert ts'[if j < i then j else j - 1] == ts[j];
    }
  }

  lemma ExpiredAt(t: Tbl, now: int, timeout: int)
    ensures CM.Expired(t, now, timeout) <==> now / 1000000 >= (timeout + t.recycledAt) / 1000000
  {
  }

  lemma IndexRecycle(byCoefficient: map<nat, Table>, ts: seq<Table>, s: SM.Store, i: nat, now: Int64)
    requires IndexOf(byCoefficient, ts, s) && i < |ts| && s.tables[i].inuse == 0
    ensures IndexOf(byCoefficient - {s.tables[i].coefficient}, ts, CM.Recycle(CM.Eviction(s, i), now))
  {
  }

  lemma OrderSame(t: Tbl, t': Tbl, keys: seq<nat>)
    requires CM.IsOrder(t', keys) && t.(state := ReadOnly) == t'.(state := ReadOnly)
    ensures CM.IsOrder(t, keys)
  {
  }

  lemma NotRecycled(x: CM.Eviction, now: Int64)
    requires x.pos < |x.store.tables| && x.store.tables[x.pos].inuse != 0
    ensures CM.Recycle(x, now) == x.store
  {
  }

  lemma BeginStays(s: SM.Store, i: nat)
    requires i < |s.tables|
    ensures i < |s.tables| - 1 ==> CM.BeginEviction(s, i) == CM.Eviction(s, i)
  {
  }

  lemma BeginPushed(s: SM.Store, ts: seq<Table>, ts': seq<Table>, i: nat)
    requires |ts| == |s.tables| && SM.StoreInv(s) && i == |ts| - 1 && Pushed(ts', ts, SM.SealHead(s.tables))
    ensures var x := CM.BeginEviction(s, i); x.store == SM.MakeTable(s) && x.pos < |ts'| && ts'[x.pos] == ts[i]
  {
    hide Inv, SM.MakeTable;
  }

  lemma BatchStart(x: CM.Eviction, now: Int64)
    requires x.pos < |x.store.tables|
    ensures CM.MoveEntries(x, [], now) == x
    ensures CM.Distinct([], x.store.tables[x.pos].slots.Keys)
    ensures x.store.tables[x.pos].slots.Keys == x.store.tables[x.pos].slots.Keys - CM.Elements([])
  {
  }

  lemma DistinctSnoc(keys: seq<nat>, from: set<nat>, k: nat)
    requires CM.Distinct(keys, from) && k in from - CM.Elements(keys)
    ensures CM.Distinct(keys + [k], from)
  {
    forall i | 0 <= i < |keys|
      ensures keys[i] != k
    {
      assert keys[i] in CM.Elements(keys);
    }
  }

  lemma BatchOrder(t: Tbl, keys: seq<nat>, rest: set<nat>)
    requires CM.Distinct(keys, t.slots.Keys) && |rest| == |t.slots.Keys| - |keys| && |keys| <= CM.BATCH
    requires rest == {} || |keys| == CM.BATCH
    ensures CM.IsOrder(t, keys)
  {
  }

  lemma StoredRecord(s: SM.Store, i: nat, hkey: nat)
    requires SM.StoreInv(s) && i < |s.tables| && hkey in s.tables[i].slots
    ensures var e := s.tables[i].slots[hkey].entry;
            Encodable(e) && IsRecord(Layout(e)) && Parse(Layout(e)) == e && |Layout(e)| < s.tableSize
  {
    var e := s.tables[i].slots[hkey].entry;
    CM.EntryFits(s.tables[i], hkey);
    ParseLayout(e, []);
    assert Layout(e) + [] == Layout(e);
  }

  /** The engine's write, seen from the eviction. */
  lemma PutRawMoves(x: CM.Eviction, hkey: nat, e: Entry)
    requires CM.Evicting(x) && hkey in x.store.tables[x.pos].slots && e == x.store.tables[x.pos].slots[hkey].entry
    ensures IsRecord(Layout(e)) && |Layout(e)| == EntrySize(e) && |Layout(e)| != x.store.tableSize
    ensures SM.PutRawResult(x.store, Layout(e)) == SM.PutOk
    ensures SM.PutRaw(x.store, hkey, Layout(e)) == SM.WriteHead(CM.MakeRoom(x, EntrySize(e)).store, hkey, e)
    ensures CM.MakeRoom(x, EntrySize(e)).store.tables != []
  {
    StoredRecord(x.store, x.pos, hkey);
    RoomPlace(x, e);
  }

  lemma RoomPlace(x: CM.Eviction, e: Entry)
    requires CM.Evicting(x)
    ensures var y := CM.MakeRoom(x, EntrySize(e)); y.pos < |y.store.tables|
  {
    CM.AfterMakeTablePlace(x);
  }

  lemma FollowMove(ts: seq<Table>, before: seq<Table>, x: CM.Eviction, size: nat)
    requires CM.Evicting(x) && |before| == |x.store.tables| && MovedFor(ts, before, x.store, size)
    ensures var y := CM.MakeRoom(x, size); y.pos < |ts| && ts[y.pos] == before[x.pos]
  {
    hide SM.StoreInv, SM.MakeTable;
  }

  /** Where making a table puts the tables, `ms` being their values: a recycled one goes to
      the tail, or a new one is added there. */
  ghost predicate Pushed(ts: seq<Table>, before: seq<Table>, ms: seq<Tbl>)
    requires |before| == |ms|
  {
    var i := SM.FirstRecycled(ms);
    if i < |ms| then ts == ToTail(before, i) else |ts| == |before| + 1 && ts[..|before|] == before
  }

  /** The tables moved only if the head had no room for `size` more bytes. */
  ghost predicate MovedFor(ts: seq<Table>, before: seq<Table>, s: SM.Store, size: nat)
    requires |before| == |s.tables|
  {
    before != [] ==>
      if Fits(SM.Head(s), size) then ts == before else Pushed(ts, before, SM.SealHead(s.tables))
  }

  /** A head that one rollover made has room for any record shorter than a table. */
  lemma HasRoom(s: SM.Store, n: nat, size: nat)
    requires SM.StoreInv(s) && size < s.tableSize
    requires SM.Rollover(s, n).tables != [] && !Fits(SM.Head(SM.Rollover(s, n)), size)
    ensures n == 0
  {
    SM.RolloverInv(s, n);
  }

  lemma RawSize(raw: seq<Byte>)
    requires IsRecord(raw)
    ensures EntrySize(Parse(raw)) == |raw|
  {
  }

  /** The position in a list of `n` that position `k` came from when `i` moved to the tail. */
  function Source(k: nat, i: nat, n: nat): nat {
    if k < i then k else if k < n - 1 then k + 1 else i
  }

  /** No table occurs twice, and no two share their memory. */
  ghost predicate Apart(ts: seq<Table>) {
    forall i, j :: 0 <= i < j < |ts| ==> ts[i] != ts[j] && ts[i].memory != ts[j].memory
  }

  lemma ApartToTail(ts: seq<Table>, i: nat)
    requires Apart(ts) && i < |ts|
    ensures Apart(ToTail(ts, i))
  {
  }

  /** The index lists tables of the list, each under its own coefficient and none recycled. */
  ghost predicate IndexOf(byCoefficient: map<nat, Table>, ts: seq<Table>, s: SM.Store) {
    && |s.tables| == |ts|
    && s.index == byCoefficient.Keys
    && (forall cf :: cf in byCoefficient ==> byCoefficient[cf] in ts)
    && (forall cf, i :: cf in byCoefficient && 0 <= i < |ts| && ts[i] == byCoefficient[cf] ==>
          s.tables[i].coefficient == cf && !s.tables[i].state.Recycled?)
  }

  lemma IndexToTail(byCoefficient: map<nat, Table>, ts: seq<Table>, s: SM.Store, i: nat)
    requires IndexOf(byCoefficient, ts, s) && i < |ts|
    ensures IndexOf(byCoefficient, ToTail(ts, i), s.(tables := ToTail(s.tables, i)))
  {
    var ts' := ToTail(ts, i);
    forall cf | cf in byCoefficient
      ensures byCoefficient[cf] in ts'
    {
      var j :| 0 <= j < |ts| && ts[j] == byCoefficient[cf];
      assert ts'[if j < i then j else if j == i then |ts| - 1 else j - 1] == ts[j];
    }
  }

  function ToTail<T>(ts: seq<T>, i: nat): (r: seq<T>)
    requires i < |ts|
    ensures |r| == |ts|
    ensures forall k :: 0 <= k < |ts| ==> r[k] == ts[Source(k, i, |ts|)]
  {
    ts[..i] + ts[i + 1..] + [ts[i]]
  }

  lemma TouchMeta(t: Tbl, hkey: nat, now: Int64)
    ensures Touch(t, hkey, now).coefficient == t.coefficient && Touch(t, hkey, now).state == t.state
  {
  }

  lemma DeleteMeta(t: Tbl, hkey: nat)
    ensures Delete(t, hkey).coefficient == t.coefficient && Delete(t, hkey).state == t.state
  {
  }

  lemma UpdateTTLMeta(t: Tbl, hkey: nat, ttl: Int64, timestamp: Int64, now: Int64)
    ensures UpdateTTL(t, hkey, ttl, timestamp, now).coefficient == t.coefficient
    ensures UpdateTTL(t, hkey, ttl, timestamp, now).state == t.state
  {
  }

  lemma AppendMeta(t: Tbl, hkey: nat, e: Entry)
    ensures Append(t, hkey, e).coefficient == t.coefficient && Append(t, hkey, e).state == t.state
  {
  }
}
