/** The storage table itself: a fixed byte array with a key index and an offset index,
    updated in place. Every method is proved against TableModel. */
module TableBytes {
  import opened Codec
  import opened TableModel

  /** The bytes of `m` from `off` are the record of `e`. */
  ghost predicate RecordAt(m: seq<Byte>, off: nat, e: Entry) {
    && off + EntrySize(e) <= |m|
    && m[off..off + EntrySize(e)] == Layout(e)
  }

  ghost predicate Holds(m: seq<Byte>, slots: map<nat, Slot>) {
    forall h :: h in slots ==> RecordAt(m, slots[h].offset, slots[h].entry)
  }

  /** The key index and the bytes agree on the live records. */
  ghost predicate Rep(hkeys: map<nat, nat>, slots: map<nat, Slot>, m: seq<Byte>) {
    && hkeys.Keys == slots.Keys
    && (forall h :: h in hkeys ==> hkeys[h] == slots[h].offset)
    && Holds(m, slots)
  }

  lemma RepKey(hkeys: map<nat, nat>, slots: map<nat, Slot>, m: seq<Byte>, hkey: nat)
    requires Rep(hkeys, slots, m)
    ensures hkey in hkeys <==> hkey in slots
    ensures hkey in hkeys ==> hkeys[hkey] == slots[hkey].offset && RecordAt(m, hkeys[hkey], slots[hkey].entry)
  {
  }

  lemma RepDelete(hkeys: map<nat, nat>, slots: map<nat, Slot>, m: seq<Byte>, hkey: nat)
    requires Rep(hkeys, slots, m)
    ensures Rep(hkeys - {hkey}, slots - {hkey}, m)
  {
  }

  lemma RepAppend(hkeys: map<nat, nat>, slots: map<nat, Slot>, m: seq<Byte>, pos: nat, hkey: nat, e: Entry)
    requires Rep(hkeys, slots, m) && Placed(slots, pos) && pos + EntrySize(e) <= |m|
    ensures Rep(hkeys[hkey := pos], slots[hkey := Slot(pos, e)], Splice(m, pos, Layout(e)))
  {
    HoldsAppend(m, slots, pos, hkey, e);
  }

  lemma RepRewrite(hkeys: map<nat, nat>, slots: map<nat, Slot>, m: seq<Byte>, hkey: nat, pos: nat, bs: seq<Byte>, e: Entry)
    requires Rep(hkeys, slots, m) && Disjoint(slots) && hkey in slots
    requires slots[hkey].offset <= pos && pos + |bs| <= End(slots[hkey]) <= |m|
    requires RecordAt(Splice(m, pos, bs), slots[hkey].offset, e)
    ensures Rep(hkeys, slots[hkey := slots[hkey].(entry := e)], Splice(m, pos, bs))
  {
    HoldsRewrite(m, slots, hkey, pos, bs, e);
  }

  /** Reading a record by index finds the fields that were written. */
  lemma RecordFields(m: seq<Byte>, off: nat, e: Entry)
    requires RecordAt(m, off, e) && Encodable(e)
    ensures var k := |e.key|;
            && m[off] == k
            && m[off + 1..off + 1 + k] == e.key
            && m[off + 1 + k..off + 9 + k] == Word(e.ttl)
            && m[off + 9 + k..off + 17 + k] == Word(e.timestamp)
            && m[off + 17 + k..off + 25 + k] == Word(e.lastAccess)
            && m[off + 25 + k..off + 29 + k] == ToBytes(|e.value|, 4)
            && m[off + 29 + k..off + 29 + k + |e.value|] == e.value
            && FromBytes(ToBytes(|e.value|, 4)) == |e.value|
  {
    var b := Layout(e);
    var k := |e.key|;
    LayoutFields(e, []);
    assert b + [] == b;
    WordBounds();
    FromToBytes(|e.value|, 4);
    SubSlice(m, off, b, 0, 1);
    assert m[off..off + 1][0] == b[0..1][0];
    SubSlice(m, off, b, 1, 1 + k);
    SubSlice(m, off, b, 1 + k, 9 + k);
    SubSlice(m, off, b, 9 + k, 17 + k);
    SubSlice(m, off, b, 17 + k, 25 + k);
    SubSlice(m, off, b, 25 + k, 29 + k);
    SubSlice(m, off, b, 29 + k, 29 + k + |e.value|);
  }

  lemma SubSlice(m: seq<Byte>, off: nat, b: seq<Byte>, lo: nat, hi: nat)
    requires off + |b| <= |m| && m[off..off + |b|] == b && lo <= hi <= |b|
    ensures m[off + lo..off + hi] == b[lo..hi]
  {
    forall i | 0 <= i < hi - lo
      ensures m[off + lo..off + hi][i] == b[lo..hi][i]
    {
      assert m[off..off + |b|][lo + i] == b[lo + i];
    }
  }

  lemma SpliceKeeps(m: seq<Byte>, pos: nat, bs: seq<Byte>, off: nat, e: Entry)
    requires pos + |bs| <= |m| && RecordAt(m, off, e)
    requires off + EntrySize(e) <= pos || pos + |bs| <= off
    ensures RecordAt(Splice(m, pos, bs), off, e)
  {
    var r := Splice(m, pos, bs);
    assert r[off..off + EntrySize(e)] == m[off..off + EntrySize(e)];
  }

  /** Writing past the tail leaves every record as it was. */
  lemma HoldsAppend(m: seq<Byte>, slots: map<nat, Slot>, pos: nat, hkey: nat, e: Entry)
    requires Holds(m, slots) && Placed(slots, pos) && pos + EntrySize(e) <= |m|
    ensures Holds(Splice(m, pos, Layout(e)), slots[hkey := Slot(pos, e)])
  {
    forall h | h in slots
      ensures RecordAt(Splice(m, pos, Layout(e)), slots[h].offset, slots[h].entry)
    {
      SpliceKeeps(m, pos, Layout(e), slots[h].offset, slots[h].entry);
    }
  }

  /** Writing inside one record leaves the others as they were. */
  lemma HoldsRewrite(m: seq<Byte>, slots: map<nat, Slot>, hkey: nat, pos: nat, bs: seq<Byte>, e: Entry)
    requires Holds(m, slots) && Disjoint(slots) && hkey in slots
    requires slots[hkey].offset <= pos && pos + |bs| <= End(slots[hkey]) <= |m|
    requires RecordAt(Splice(m, pos, bs), slots[hkey].offset, e)
    ensures Holds(Splice(m, pos, bs), slots[hkey := slots[hkey].(entry := e)])
  {
    forall h | h in slots && h != hkey
      ensures RecordAt(Splice(m, pos, bs), slots[h].offset, slots[h].entry)
    {
      SpliceKeeps(m, pos, bs, slots[h].offset, slots[h].entry);
    }
  }

  lemma SpliceInside(m: seq<Byte>, off: nat, pre: seq<Byte>, was: seq<Byte>, bs: seq<Byte>, post: seq<Byte>)
    requires |was| == |bs| && off + |pre| + |was| + |post| <= |m|
    requires m[off..off + |pre| + |was| + |post|] == pre + was + post
    ensures Splice(m, off + |pre|, bs)[off..off + |pre| + |was| + |post|] == pre + bs + post
  {
    var n := |pre| + |was| + |post|;
    var r := Splice(m, off + |pre|, bs);
    forall i | 0 <= i < n
      ensures r[off..off + n][i] == (pre + bs + post)[i]
    {
      assert m[off + i] == (pre + was + post)[i];
      if |pre| <= i < |pre| + |bs| {
        assert r[off + |pre|..off + |pre| + |bs|][i - |pre|] == bs[i - |pre|];
      }
    }
  }

  lemma RewriteLastAccess(m: seq<Byte>, off: nat, e: Entry, now: Int64)
    requires RecordAt(m, off, e)
    ensures RecordAt(Splice(m, off + 17 + |e.key|, Word(now)), off, e.(lastAccess := now))
  {
    var pre := [|e.key| % 256] + e.key + Word(e.ttl) + Word(e.timestamp);
    var post := ToBytes(|e.value| % TWO_32, 4) + e.value;
    assert Layout(e) == pre + Word(e.lastAccess) + post;
    assert Layout(e.(lastAccess := now)) == pre + Word(now) + post;
    SpliceInside(m, off, pre, Word(e.lastAccess), Word(now), post);
  }

  lemma RewriteTimestamp(m: seq<Byte>, off: nat, e: Entry, timestamp: Int64)
    requires RecordAt(m, off, e)
    ensures RecordAt(Splice(m, off + 9 + |e.key|, Word(timestamp)), off, e.(timestamp := timestamp))
  {
    hide Word, ToBytes;
    var pre := [|e.key| % 256] + e.key + Word(e.ttl);
    var post := Word(e.lastAccess) + ToBytes(|e.value| % TWO_32, 4) + e.value;
    assert Layout(e) == pre + Word(e.timestamp) + post;
    assert Layout(e.(timestamp := timestamp)) == pre + Word(timestamp) + post;
    SpliceInside(m, off, pre, Word(e.timestamp), Word(timestamp), post);
  }

  lemma RewriteTTL(m: seq<Byte>, off: nat, e: Entry, ttl: Int64)
    requires RecordAt(m, off, e)
    ensures RecordAt(Splice(m, off + 1 + |e.key|, Word(ttl)), off, e.(ttl := ttl))
  {
    var pre := [|e.key| % 256] + e.key;
    var post := Word(e.timestamp) + Word(e.lastAccess) + ToBytes(|e.value| % TWO_32, 4) + e.value;
    assert Layout(e) == pre + Word(e.ttl) + post;
    assert Layout(e.(ttl := ttl)) == pre + Word(ttl) + post;
    SpliceInside(m, off, pre, Word(e.ttl), Word(ttl), post);
  }
}

module TableClass {
  import opened Codec
  import opened TableModel
  import opened TableBytes

  datatype Status = Ok | ErrNotEnoughSpace | ErrHKeyNotFound | ErrKeyTooLarge

  class Table {
    var coefficient: nat
    var offset: nat
    var inuse: int
    var garbage: nat
    var recycledAt: int
    var state: TableState
    var hkeys: map<nat, nat>
    var offsetIndex: set<nat>
    const memory: array<Byte>
    /** The live records and the bytes that hold them. */
    ghost var slots: map<nat, Slot>
    ghost var bytes: seq<Byte>

    ghost function Model(): Tbl
      reads this
    {
      Tbl(coefficient, offset, memory.Length, inuse, garbage, recycledAt, state, slots, offsetIndex)
    }

    ghost predicate Valid()
      reads this, memory
    {
      && Inv(Model())
      && memory[..] == bytes
      && Rep(hkeys, slots, bytes)
    }

    constructor (size: nat)
      ensures Valid() && fresh(memory)
      ensures Model() == NewTable(size, 0)
    {
      coefficient, offset, inuse, garbage, recycledAt := 0, 0, 0, 0, 0;
      state := ReadWrite;
      hkeys, offsetIndex, slots := map[], {}, map[];
      memory := new Byte[size](_ => 0);
      new;
      bytes := memory[..];
      NewTableInv(size, 0);
    }

    method SetCoefficient(cf: nat)
      requires Valid()
      modifies `coefficient
      ensures Valid() && Model() == old(Model()).(coefficient := cf)
    {
      coefficient := cf;
    }

    method SetState(s: TableState)
      requires Valid()
      modifies `state
      ensures Valid() && Model() == old(Model()).(state := s)
    {
      state := s;
    }

    /** What the index and the bytes say about a key. */
    lemma Locate(hkey: nat)
      requires Valid()
      ensures hkey in hkeys <==> hkey in slots
      ensures hkey in hkeys ==>
                && hkeys[hkey] == slots[hkey].offset
                && Encodable(slots[hkey].entry)
                && RecordAt(bytes, hkeys[hkey], slots[hkey].entry)
                && End(slots[hkey]) <= |bytes|
    {
      RepKey(hkeys, slots, bytes, hkey);
    }

    lemma Facts()
      requires Valid()
      ensures Disjoint(slots) && Placed(slots, offset) && offset <= memory.Length == |bytes|
    {
    }

    /** The length arithmetic of Delete and GetRaw, from the bytes alone. */
    method RecordSize(off: nat, ghost e: Entry) returns (size: nat)
      requires RecordAt(memory[..], off, e) && Encodable(e)
      ensures size == EntrySize(e)
    {
      RecordFields(memory[..], off, e);
      var klen: nat := memory[off];
      var end := off + 1 + klen + 8 + 8 + 8;
      assert memory[end..end + 4] == memory[..][end..end + 4];
      var vlen := FromBytes(memory[end..end + 4]);
      end := end + 4 + vlen;
      size := end - off;
    }

    /** The field reads of Get, at a moving offset. */
    method ReadRecord(start: nat, ghost e: Entry) returns (r: Entry)
      requires RecordAt(memory[..], start, e) && Encodable(e)
      ensures r == e
    {
      ghost var m := memory[..];
      RecordFields(m, start, e);
      WordRoundTrip(e.ttl);
      WordRoundTrip(e.timestamp);
      WordRoundTrip(e.lastAccess);
      var off: nat := start;
      var klen: nat := memory[off];
      off := off + 1;
      assert memory[off..off + klen] == m[off..off + klen];
      var key := memory[off..off + klen];
      off := off + klen;
      assert memory[off..off + 8] == m[off..off + 8];
      var ttl := Int64At(memory[off..off + 8]);
      off := off + 8;
      assert memory[off..off + 8] == m[off..off + 8];
      var timestamp := Int64At(memory[off..off + 8]);
      off := off + 8;
      assert memory[off..off + 8] == m[off..off + 8];
      var lastAccess := Int64At(memory[off..off + 8]);
      off := off + 8;
      assert memory[off..off + 4] == m[off..off + 4];
      var vlen := FromBytes(memory[off..off + 4]);
      off := off + 4;
      assert memory[off..off + vlen] == m[off..off + vlen];
      r := Entry(key, ttl, timestamp, lastAccess, memory[off..off + vlen]);
    }

    method Delete(hkey: nat) returns (status: Status)
      requires Valid()
      modifies this
      ensures Valid() && bytes == old(bytes)
      ensures Model() == TableModel.Delete(old(Model()), hkey)
      ensures status == if hkey in old(slots) then Ok else ErrHKeyNotFound
    {
      hide Inv, Rep, EntrySize;
      Locate(hkey);
      if hkey !in hkeys {
        return ErrHKeyNotFound;
      }
      var off := hkeys[hkey];
      var freed := RecordSize(off, slots[hkey].entry);
      DeleteInv(Model(), hkey);
      RepDelete(hkeys, slots, bytes, hkey);
      offsetIndex := offsetIndex - {off};
      hkeys := hkeys - {hkey};
      slots := slots - {hkey};
      garbage := garbage + freed;
      inuse := inuse - freed;
      status := Ok;
    }

    method GetRaw(hkey: nat) returns (raw: Option<seq<Byte>>)
      requires Valid()
      ensures raw == if hkey in slots then Some(Layout(slots[hkey].entry)) else None
    {
      hide Inv, Rep, Layout, EntrySize;
      Locate(hkey);
      if hkey !in hkeys {
        return None;
      }
      var off := hkeys[hkey];
      var size := RecordSize(off, slots[hkey].entry);
      assert memory[off..off + size] == bytes[off..off + size];
      raw := Some(memory[off..off + size]);
    }

    /** The write of one 8-byte field of a live record, in place. */
    method WriteWord(hkey: nat, pos: nat, x: Int64, ghost e: Entry)
      requires Valid() && hkey in slots
      requires slots[hkey].offset <= pos && pos + 8 <= End(slots[hkey]) <= |bytes|
      requires EntrySize(e) == EntrySize(slots[hkey].entry) && Encodable(e)
      requires RecordAt(Splice(bytes, pos, Word(x)), slots[hkey].offset, e)
      modifies this`slots, this`bytes, memory
      ensures Valid()
      ensures slots == old(slots)[hkey := old(slots)[hkey].(entry := e)]
      ensures bytes == Splice(old(bytes), pos, Word(x))
    {
      hide Inv, Rep, EntrySize, RecordAt, Encodable, Word;
      Facts();
      RewriteInv(Model(), hkey, e);
      RepRewrite(hkeys, slots, bytes, hkey, pos, Word(x), e);
      CopyInto(memory, pos, Word(x));
      bytes := Splice(bytes, pos, Word(x));
      slots := slots[hkey := slots[hkey].(entry := e)];
    }

    method WriteTTL(hkey: nat, pos: nat, ttl: Int64)
      requires Valid() && hkey in slots && pos == slots[hkey].offset + 1 + |slots[hkey].entry.key|
      modifies this`slots, this`bytes, memory
      ensures Valid()
      ensures slots == old(slots)[hkey := old(slots)[hkey].(entry := old(slots)[hkey].entry.(ttl := ttl))]
    {
      hide Inv, Rep, Layout, Word;
      Locate(hkey);
      RewriteTTL(bytes, hkeys[hkey], slots[hkey].entry, ttl);
      WriteWord(hkey, pos, ttl, slots[hkey].entry.(ttl := ttl));
    }

    method WriteTimestamp(hkey: nat, pos: nat, timestamp: Int64)
      requires Valid() && hkey in slots && pos == slots[hkey].offset + 9 + |slots[hkey].entry.key|
      modifies this`slots, this`bytes, memory
      ensures Valid()
      ensures slots == old(slots)[hkey := old(slots)[hkey].(entry := old(slots)[hkey].entry.(timestamp := timestamp))]
    {
      hide Inv, Rep, Layout, Word;
      Locate(hkey);
      RewriteTimestamp(bytes, hkeys[hkey], slots[hkey].entry, timestamp);
      WriteWord(hkey, pos, timestamp, slots[hkey].entry.(timestamp := timestamp));
    }

    method WriteLastAccess(hkey: nat, pos: nat, now: Int64)
      requires Valid() && hkey in slots && pos == slots[hkey].offset + 17 + |slots[hkey].entry.key|
      modifies this`slots, this`bytes, memory
      ensures Valid()
      ensures slots == old(slots)[hkey := old(slots)[hkey].(entry := old(slots)[hkey].entry.(lastAccess := now))]
    {
      hide Inv, Rep, Layout, Word;
      Locate(hkey);
      RewriteLastAccess(bytes, hkeys[hkey], slots[hkey].entry, now);
      WriteWord(hkey, pos, now, slots[hkey].entry.(lastAccess := now));
    }

    method Get(hkey: nat, now: Int64) returns (r: Option<Entry>)
      requires Valid()
      modifies this, memory
      ensures Valid()
      ensures Model() == Touch(old(Model()), hkey, now)
      ensures r == if hkey in old(slots) then Some(old(slots)[hkey].entry) else None
    {
      hide Inv, Rep, Layout;
      Locate(hkey);
      if hkey !in hkeys {
        return None;
      }
      var off := hkeys[hkey];
      var e := ReadRecord(off, slots[hkey].entry);
      WriteLastAccess(hkey, off + 17 + |e.key|, now);
      r := Some(e);
    }

    method TTLAt(off: nat, ghost e: Entry) returns (ttl: Int64)
      requires RecordAt(memory[..], off, e) && Encodable(e)
      ensures ttl == e.ttl
    {
      RecordFields(memory[..], off, e);
      WordRoundTrip(e.ttl);
      var klen: nat := memory[off];
      var at := off + 1 + klen;
      assert memory[at..at + 8] == memory[..][at..at + 8];
      ttl := Int64At(memory[at..at + 8]);
    }

    method KeyAt(off: nat, ghost e: Entry) returns (key: seq<Byte>)
      requires RecordAt(memory[..], off, e) && Encodable(e)
      ensures key == e.key
    {
      RecordFields(memory[..], off, e);
      var klen: nat := memory[off];
      assert memory[off + 1..off + 1 + klen] == memory[..][off + 1..off + 1 + klen];
      key := memory[off + 1..off + 1 + klen];
    }

    method GetTTL(hkey: nat) returns (r: Option<Int64>)
      requires Valid()
      ensures r == if hkey in slots then Some(slots[hkey].entry.ttl) else None
    {
      hide Inv, Rep;
      Locate(hkey);
      if hkey !in hkeys {
        return None;
      }
      var ttl := TTLAt(hkeys[hkey], slots[hkey].entry);
      r := Some(ttl);
    }

    method GetKey(hkey: nat) returns (r: Option<seq<Byte>>)
      requires Valid()
      ensures r == if hkey in slots then Some(slots[hkey].entry.key) else None
    {
      hide Inv, Rep;
      Locate(hkey);
      if hkey !in hkeys {
        return None;
      }
      var key := KeyAt(hkeys[hkey], slots[hkey].entry);
      r := Some(key);
    }

    method Check(hkey: nat) returns (ok: bool)
      requires Valid()
      ensures ok <==> hkey in slots
    {
      Locate(hkey);
      ok := hkey in hkeys;
    }

    method UpdateTTL(hkey: nat, ttl: Int64, timestamp: Int64, now: Int64) returns (status: Status)
      requires Valid()
      modifies this, memory
      ensures Valid()
      ensures Model() == TableModel.UpdateTTL(old(Model()), hkey, ttl, timestamp, now)
      ensures status == if hkey in old(slots) then Ok else ErrHKeyNotFound
    {
      hide Inv, Rep;
      Locate(hkey);
      if hkey !in hkeys {
        return ErrHKeyNotFound;
      }
      var off := hkeys[hkey];
      var key := KeyAt(off, slots[hkey].entry);
      off := off + 1 + |key|;
      WriteTTL(hkey, off, ttl);
      off := off + 8;
      WriteTimestamp(hkey, off, timestamp);
      off := off + 8;
      WriteLastAccess(hkey, off, now);
      status := Ok;
    }

    /** The common tail of Put and PutRaw: index the new record, then write it. */
    method AppendRecord(hkey: nat, e: Entry)
      requires Valid() && Encodable(e) && Fits(Model(), EntrySize(e))
      modifies this, memory
      ensures Valid()
      ensures Model() == Append(old(Model()), hkey, e)
    {
      AppendInv(Model(), hkey, e);
      var _ := Delete(hkey);
      WriteAtTail(hkey, e);
    }

    method WriteAtTail(hkey: nat, e: Entry)
      requires Valid() && Encodable(e) && Fits(Model(), EntrySize(e)) && hkey !in slots
      modifies this, memory
      ensures Valid()
      ensures Model() == Write(old(Model()), hkey, e)
    {
      hide Inv, Rep, Layout, Encodable;
      Facts();
      WriteInv(Model(), hkey, e);
      RepAppend(hkeys, slots, bytes, offset, hkey, e);
      hkeys := hkeys[hkey := offset];
      offsetIndex := offsetIndex + {offset};
      inuse := inuse + EntrySize(e);
      WriteRecord(memory, offset, e);
      bytes := Splice(bytes, offset, Layout(e));
      slots := slots[hkey := Slot(offset, e)];
      offset := offset + EntrySize(e);
    }

    method PutRaw(hkey: nat, raw: seq<Byte>) returns (status: Status)
      requires Valid() && IsRecord(raw)
      modifies this, memory
      ensures Valid()
      ensures status == if Fits(old(Model()), |raw|) then Ok else ErrNotEnoughSpace
      ensures Model() == if status.Ok? then Append(old(Model()), hkey, Parse(raw)) else old(Model())
    {
      hide Inv, Rep;
      if |raw| + offset >= memory.Length {
        return ErrNotEnoughSpace;
      }
      LayoutParse(raw);
      AppendRecord(hkey, Parse(raw));
      status := Ok;
    }

    method Put(hkey: nat, value: Entry, now: Int64) returns (status: Status)
      requires Valid() && |value.value| < TWO_32
      modifies this, memory
      ensures Valid()
      ensures status == if |value.key| >= MAX_KEY_LENGTH then ErrKeyTooLarge
                        else if Fits(old(Model()), EntrySize(value)) then Ok else ErrNotEnoughSpace
      ensures Model() == if status.Ok? then Append(old(Model()), hkey, value.(lastAccess := now)) else old(Model())
    {
      hide Inv, Rep;
      if |value.key| >= MAX_KEY_LENGTH {
        return ErrKeyTooLarge;
      }
      var size := |value.key| + |value.value| + METADATA_LENGTH;
      if size + offset >= memory.Length {
        return ErrNotEnoughSpace;
      }
      AppendRecord(hkey, value.(lastAccess := now));
      status := Ok;
    }

    /** Called once nothing in the table is live any more. */
    method Reset(now: int)
      requires Valid() && inuse == 0
      modifies this
      ensures Valid()
      ensures Model() == TableModel.Reset(old(Model()), now)
    {
      ResetClean(Model(), now);
      hkeys := map[];
      slots := map[];
      state := Recycled;
      inuse := 0;
      garbage := 0;
      offset := 0;
      coefficient := 0;
      recycledAt := now;
    }
  }
}
