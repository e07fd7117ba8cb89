/** One append-only storage table, as a value.

    A slot is a live record: where it starts and the entry it holds. The bytes themselves
    belong to the Table class, which is proved against the functions of this module. */
module TableModel {
  import opened Codec

  datatype TableState = ReadWrite | ReadOnly | Recycled

  datatype Slot = Slot(offset: nat, entry: Entry)

  datatype Tbl = Tbl(
    coefficient: nat,
    offset: nat,
    capacity: nat,
    inuse: int,
    garbage: nat,
    recycledAt: int,
    state: TableState,
    slots: map<nat, Slot>,
    offsetIndex: set<nat>)

  function NewTable(size: nat, coefficient: nat): Tbl {
    Tbl(coefficient, 0, size, 0, 0, 0, ReadWrite, map[], {})
  }

  function End(s: Slot): nat {
    s.offset + EntrySize(s.entry)
  }

  // Operations

  predicate Fits(t: Tbl, size: nat) {
    size + t.offset < t.capacity
  }

  function Delete(t: Tbl, hkey: nat): Tbl {
    if hkey !in t.slots then t else
      var size := EntrySize(t.slots[hkey].entry);
      t.(slots := t.slots - {hkey},
         offsetIndex := t.offsetIndex - {t.slots[hkey].offset},
         garbage := t.garbage + size,
         inuse := t.inuse - size)
  }

  function Write(t: Tbl, hkey: nat, e: Entry): Tbl {
    t.(slots := t.slots[hkey := Slot(t.offset, e)],
       offsetIndex := t.offsetIndex + {t.offset},
       inuse := t.inuse + EntrySize(e),
       offset := t.offset + EntrySize(e))
  }

  /** Put and PutRaw once the space check passed: drop the previous version, then write at
      the tail. Put stamps the last access before, PutRaw keeps the record's own. */
  function Append(t: Tbl, hkey: nat, e: Entry): Tbl {
    Write(Delete(t, hkey), hkey, e)
  }

  /** Get refreshes the last access of the record it returns. */
  function Touch(t: Tbl, hkey: nat, now: Int64): Tbl {
    if hkey !in t.slots then t else
      t.(slots := t.slots[hkey := t.slots[hkey].(entry := t.slots[hkey].entry.(lastAccess := now))])
  }

  function UpdateTTL(t: Tbl, hkey: nat, ttl: Int64, timestamp: Int64, now: Int64): Tbl {
    if hkey !in t.slots then t else
      var e := t.slots[hkey].entry.(ttl := ttl, timestamp := timestamp, lastAccess := now);
      t.(slots := t.slots[hkey := t.slots[hkey].(entry := e)])
  }

  /** Reset leaves the offset index as it is. */
  function Reset(t: Tbl, now: int): Tbl {
    t.(slots := map[], state := Recycled, inuse := 0, garbage := 0, offset := 0, coefficient := 0, recycledAt := now)
  }

  // Accounting

  ghost function SizeOf(slots: map<nat, Slot>, keys: set<nat>): nat
    requires keys <= slots.Keys
  {
    if keys == {} then 0 else
      var h :| h in keys;
      EntrySize(slots[h].entry) + SizeOf(slots, keys - {h})
  }

  lemma {:induction false} SizeOfRemove(slots: map<nat, Slot>, keys: set<nat>, h: nat)
    requires keys <= slots.Keys && h in keys
    ensures SizeOf(slots, keys) == EntrySize(slots[h].entry) + SizeOf(slots, keys - {h})
  {
    var g :| g in keys && SizeOf(slots, keys) == EntrySize(slots[g].entry) + SizeOf(slots, keys - {g});
    if g != h {
      SizeOfRemove(slots, keys - {g}, h);
      SizeOfRemove(slots, keys - {h}, g);
      assert keys - {g} - {h} == keys - {h} - {g};
    }
  }

  lemma {:induction false} SizeOfFrame(slots: map<nat, Slot>, slots': map<nat, Slot>, keys: set<nat>)
    requires keys <= slots.Keys && keys <= slots'.Keys
    requires forall h :: h in keys ==> slots[h].entry == slots'[h].entry
    ensures SizeOf(slots, keys) == SizeOf(slots', keys)
  {
    if h :| h in keys {
      SizeOfRemove(slots, keys, h);
      SizeOfRemove(slots', keys, h);
      SizeOfFrame(slots, slots', keys - {h});
    }
  }

  ghost function TotalSize(slots: map<nat, Slot>): nat {
    SizeOf(slots, slots.Keys)
  }

  lemma TotalSizeRemove(slots: map<nat, Slot>, h: nat)
    requires h in slots
    ensures TotalSize(slots) == EntrySize(slots[h].entry) + TotalSize(slots - {h})
  {
    SizeOfRemove(slots, slots.Keys, h);
    assert (slots - {h}).Keys == slots.Keys - {h};
    SizeOfFrame(slots, slots - {h}, slots.Keys - {h});
  }

  lemma TotalSizeSet(slots: map<nat, Slot>, h: nat, s: Slot)
    ensures TotalSize(slots[h := s]) == EntrySize(s.entry) + TotalSize(slots - {h})
  {
    TotalSizeRemove(slots[h := s], h);
    assert slots[h := s] - {h} == slots - {h};
  }

  // Invariant

  ghost predicate Disjoint(slots: map<nat, Slot>) {
    forall g, h :: g in slots && h in slots && g != h ==> End(slots[g]) <= slots[h].offset || End(slots[h]) <= slots[g].offset
  }

  ghost predicate Placed(slots: map<nat, Slot>, limit: nat) {
    forall h :: h in slots ==> End(slots[h]) <= limit && Encodable(slots[h].entry)
  }

  function Offsets(slots: map<nat, Slot>): set<nat> {
    set h | h in slots :: slots[h].offset
  }

  /** Live records lie apart below the tail, the index lists exactly their offsets, and the
      byte counters account for every byte written. */
  ghost predicate Inv(t: Tbl) {
    && (t.offset == 0 || t.offset < t.capacity)
    && Placed(t.slots, t.offset)
    && Disjoint(t.slots)
    && t.offsetIndex == Offsets(t.slots)
    && t.inuse == TotalSize(t.slots)
    && t.inuse + t.garbage == t.offset
  }

  lemma NewTableInv(size: nat, coefficient: nat)
    ensures Inv(NewTable(size, coefficient))
  {
  }

  lemma DeleteInv(t: Tbl, hkey: nat)
    requires Inv(t)
    ensures Inv(Delete(t, hkey))
    ensures Delete(t, hkey).slots == t.slots - {hkey}
  {
    if hkey in t.slots {
      TotalSizeRemove(t.slots, hkey);
      OffsetsRemove(t.slots, hkey);
    } else {
      assert t.slots - {hkey} == t.slots;
    }
  }

  /** Records have distinct offsets, so removing one offset from the index removes one record. */
  lemma OffsetsRemove(slots: map<nat, Slot>, hkey: nat)
    requires Disjoint(slots) && hkey in slots
    ensures Offsets(slots - {hkey}) == Offsets(slots) - {slots[hkey].offset}
  {
    var rest := slots - {hkey};
    forall o | o in Offsets(slots) && o != slots[hkey].offset
      ensures o in Offsets(rest)
    {
      var h :| h in slots && slots[h].offset == o;
      assert h in rest && rest[h].offset == o;
    }
    forall o | o in Offsets(rest)
      ensures o in Offsets(slots) && o != slots[hkey].offset
    {
      var h :| h in rest && rest[h].offset == o;
      assert h in slots && slots[h].offset == o;
    }
  }

  lemma OffsetsSet(slots: map<nat, Slot>, hkey: nat, s: Slot)
    requires hkey in slots ==> slots[hkey].offset == s.offset
    ensures Offsets(slots[hkey := s]) == Offsets(slots) + {s.offset}
  {
    var next := slots[hkey := s];
    forall o | o in Offsets(slots)
      ensures o in Offsets(next)
    {
      var h :| h in slots && slots[h].offset == o;
      assert h in next && next[h].offset == o;
    }
    assert hkey in next && next[hkey].offset == s.offset;
  }

  lemma DisjointSet(slots: map<nat, Slot>, limit: nat, hkey: nat, s: Slot)
    requires Disjoint(slots) && Placed(slots, limit) && Encodable(s.entry)
    requires s.offset >= limit || (hkey in slots && s.offset == slots[hkey].offset && End(s) == End(slots[hkey]))
    ensures Disjoint(slots[hkey := s])
    ensures Placed(slots[hkey := s], if s.offset >= limit then End(s) else limit)
  {
  }

  lemma WriteInv(t: Tbl, hkey: nat, e: Entry)
    requires Inv(t) && hkey !in t.slots && Encodable(e) && Fits(t, EntrySize(e))
    ensures Inv(Write(t, hkey, e))
  {
    var s := Slot(t.offset, e);
    assert t.slots - {hkey} == t.slots;
    TotalSizeSet(t.slots, hkey, s);
    OffsetsSet(t.slots, hkey, s);
    DisjointSet(t.slots, t.offset, hkey, s);
  }

  lemma SetAfterRemove(slots: map<nat, Slot>, h: nat, s: Slot)
    ensures (slots - {h})[h := s] == slots[h := s]
  {
  }

  lemma AppendInv(t: Tbl, hkey: nat, e: Entry)
    requires Inv(t) && Encodable(e) && Fits(t, EntrySize(e))
    ensures Inv(Append(t, hkey, e))
    ensures Append(t, hkey, e).slots == t.slots[hkey := Slot(t.offset, e)]
  {
    DeleteInv(t, hkey);
    WriteInv(Delete(t, hkey), hkey, e);
    SetAfterRemove(t.slots, hkey, Slot(t.offset, e));
  }

  /** Rewriting a record in place with one of the same size keeps everything else. */
  lemma RewriteInv(t: Tbl, hkey: nat, e: Entry)
    requires Inv(t) && hkey in t.slots && Encodable(e) && EntrySize(e) == EntrySize(t.slots[hkey].entry)
    ensures Inv(t.(slots := t.slots[hkey := t.slots[hkey].(entry := e)]))
  {
    var s := t.slots[hkey].(entry := e);
    TotalSizeSet(t.slots, hkey, s);
    TotalSizeRemove(t.slots, hkey);
    OffsetsSet(t.slots, hkey, s);
    assert s.offset in Offsets(t.slots);
    DisjointSet(t.slots, t.offset, hkey, s);
  }

  lemma TouchInv(t: Tbl, hkey: nat, now: Int64)
    requires Inv(t)
    ensures Inv(Touch(t, hkey, now))
  {
    if hkey in t.slots {
      RewriteInv(t, hkey, t.slots[hkey].entry.(lastAccess := now));
    }
  }

  lemma UpdateTTLInv(t: Tbl, hkey: nat, ttl: Int64, timestamp: Int64, now: Int64)
    requires Inv(t)
    ensures Inv(UpdateTTL(t, hkey, ttl, timestamp, now))
  {
    if hkey in t.slots {
      RewriteInv(t, hkey, t.slots[hkey].entry.(ttl := ttl, timestamp := timestamp, lastAccess := now));
    }
  }

  /** A table without live bytes has no live record and an empty index. */
  lemma NoLiveBytes(t: Tbl)
    requires Inv(t)
    ensures t.inuse == 0 <==> t.slots == map[]
    ensures t.inuse == 0 ==> t.offsetIndex == {}
  {
    if h :| h in t.slots {
      TotalSizeRemove(t.slots, h);
    }
  }

  /** Reset is called on a table without live bytes and leaves it as good as new. */
  lemma ResetClean(t: Tbl, now: int)
    requires Inv(t) && t.inuse == 0
    ensures Inv(Reset(t, now))
    ensures Reset(t, now) == NewTable(t.capacity, 0).(state := Recycled, recycledAt := now)
  {
    NoLiveBytes(t);
  }
}
