/** Byte layout of a stored entry.

    A record is one length byte and the key, three big-endian 64-bit words (TTL,
    timestamp, last access), a big-endian 32-bit value length, and the value. The same
    layout is used on the wire and inside the storage tables. */
module Codec {

  type Byte = x: int | 0 <= x < 256

  const TWO_32: int := 0x1_0000_0000
  const TWO_63: int := 0x8000_0000_0000_0000
  const TWO_64: int := 0x1_0000_0000_0000_0000

  type Int64 = x: int | -0x8000_0000_0000_0000 <= x < 0x8000_0000_0000_0000

  /** Bytes of a record that are neither key nor value. */
  const METADATA_LENGTH: nat := 29
  const MAX_KEY_LENGTH: nat := 256

  datatype Option<+T> = None | Some(value: T)

  datatype Entry = Entry(key: seq<Byte>, ttl: Int64, timestamp: Int64, lastAccess: Int64, value: seq<Byte>)

  function EntrySize(e: Entry): nat {
    METADATA_LENGTH + |e.key| + |e.value|
  }

  /** The key length fits its byte and the value length its 32-bit word. */
  predicate Encodable(e: Entry) {
    |e.key| < MAX_KEY_LENGTH && |e.value| < TWO_32
  }

  // Big-endian words

  function Pow256(width: nat): nat {
    if width == 0 then 1 else 256 * Pow256(width - 1)
  }

  function ToBytes(n: nat, width: nat): (r: seq<Byte>)
    ensures |r| == width
  {
    if width == 0 then [] else ToBytes(n / 256, width - 1) + [n % 256]
  }

  function FromBytes(s: seq<Byte>): (n: nat)
    ensures n < Pow256(|s|)
  {
    if |s| == 0 then 0 else 256 * FromBytes(s[..|s| - 1]) + s[|s| - 1]
  }

  lemma {:induction false} FromToBytes(n: nat, width: nat)
    requires n < Pow256(width)
    ensures FromBytes(ToBytes(n, width)) == n
  {
    if width > 0 {
      FromToBytes(n / 256, width - 1);
      var r := ToBytes(n, width);
      assert r[..|r| - 1] == ToBytes(n / 256, width - 1);
    }
  }

  lemma {:induction false} ToFromBytes(s: seq<Byte>)
    ensures ToBytes(FromBytes(s), |s|) == s
  {
    if |s| > 0 {
      var hi := s[..|s| - 1];
      ToFromBytes(hi);
      var n := FromBytes(s);
      assert n / 256 == FromBytes(hi) && n % 256 == s[|s| - 1];
      assert s == hi + [s[|s| - 1]];
    }
  }

  /** The number without its `k` lowest bytes. */
  function Shifted(n: nat, k: nat): nat {
    if k == 0 then n else Shifted(n / 256, k - 1)
  }

  /** Big-endian: byte `i` of `width` is the lowest once the bytes after it are shifted out. */
  lemma {:induction false} BytesAt(n: nat, width: nat, i: nat)
    requires i < width
    ensures ToBytes(n, width)[i] == Shifted(n, width - 1 - i) % 256
  {
    if i < width - 1 {
      BytesAt(n / 256, width - 1, i);
    }
  }

  lemma WordBounds()
    ensures Pow256(4) == TWO_32
    ensures Pow256(8) == TWO_64
  {
    assert Pow256(2) == 0x1_0000;
    assert Pow256(4) == 0x1_0000 * Pow256(2);
    assert Pow256(6) == 0x1_0000 * Pow256(4);
    assert Pow256(8) == 0x1_0000 * Pow256(6);
  }

  /** Two's complement: the word a signed field is stored as, and back. */
  function Unsigned(x: Int64): nat {
    if x < 0 then x + TWO_64 else x
  }

  function Signed(n: nat): Int64
    requires n < TWO_64
  {
    if n >= TWO_63 then n - TWO_64 else n
  }

  function Word(x: Int64): (r: seq<Byte>)
    ensures |r| == 8
  {
    ToBytes(Unsigned(x), 8)
  }

  function Int64At(s: seq<Byte>): Int64
    requires |s| == 8
  {
    WordBounds();
    Signed(FromBytes(s))
  }

  lemma WordRoundTrip(x: Int64)
    ensures Int64At(Word(x)) == x
  {
    WordBounds();
    FromToBytes(Unsigned(x), 8);
  }

  /** The word is the number modulo 2^64. */
  lemma WordIs(x: Int64)
    ensures FromBytes(Word(x)) == x % 0x1_0000_0000_0000_0000
  {
    WordBounds();
    FromToBytes(Unsigned(x), 8);
  }

  lemma WordOfInt64At(s: seq<Byte>)
    requires |s| == 8
    ensures Word(Int64At(s)) == s
  {
    WordBounds();
    ToFromBytes(s);
    assert Unsigned(Int64At(s)) == FromBytes(s);
  }

  // Layout

  /** What Encode writes. The length byte and the length word wrap, as the source's
      conversions to 8 and 32 bits do. */
  function Layout(e: Entry): (r: seq<Byte>)
    ensures |r| == EntrySize(e)
  {
    [|e.key| % 256] + e.key + Word(e.ttl) + Word(e.timestamp) + Word(e.lastAccess)
    + ToBytes(|e.value| % TWO_32, 4) + e.value
  }

  function ValueLength(buf: seq<Byte>): nat
    requires |buf| > 0 && METADATA_LENGTH + buf[0] <= |buf|
  {
    FromBytes(buf[25 + buf[0]..29 + buf[0]])
  }

  /** The slices Decode takes are inside the buffer. */
  predicate Framed(buf: seq<Byte>) {
    && |buf| > 0
    && METADATA_LENGTH + buf[0] <= |buf|
    && METADATA_LENGTH + buf[0] + ValueLength(buf) <= |buf|
  }

  function RecordLength(buf: seq<Byte>): nat
    requires Framed(buf)
  {
    METADATA_LENGTH + buf[0] + ValueLength(buf)
  }

  /** A buffer that holds one record and nothing else. */
  predicate IsRecord(buf: seq<Byte>) {
    Framed(buf) && RecordLength(buf) == |buf|
  }

  function Parse(buf: seq<Byte>): Entry
    requires Framed(buf)
  {
    var k := buf[0];
    Entry(buf[1..1 + k],
          Int64At(buf[1 + k..9 + k]),
          Int64At(buf[9 + k..17 + k]),
          Int64At(buf[17 + k..25 + k]),
          buf[29 + k..29 + k + ValueLength(buf)])
  }

  /** Decode, with None for the slice panic. */
  function Decode(buf: seq<Byte>): Option<Entry> {
    if Framed(buf) then Some(Parse(buf)) else None
  }

  /** Where the fields of an encodable entry lie in its layout. */
  lemma LayoutFields(e: Entry, tail: seq<Byte>)
    requires Encodable(e)
    ensures var b := Layout(e) + tail; var k := |e.key|;
            && |b| == EntrySize(e) + |tail|
            && b[0] == k
            && b[1..1 + k] == e.key
            && b[1 + k..9 + k] == Word(e.ttl)
            && b[9 + k..17 + k] == Word(e.timestamp)
            && b[17 + k..25 + k] == Word(e.lastAccess)
            && b[25 + k..29 + k] == ToBytes(|e.value|, 4)
            && b[29 + k..29 + k + |e.value|] == e.value
  {
    hide Word, ToBytes;
  }

  /** A record is read back whatever bytes follow it. */
  lemma ParseLayout(e: Entry, tail: seq<Byte>)
    requires Encodable(e)
    ensures Framed(Layout(e) + tail)
    ensures RecordLength(Layout(e) + tail) == EntrySize(e)
    ensures Parse(Layout(e) + tail) == e
  {
    LayoutFields(e, tail);
    WordBounds();
    FromToBytes(|e.value|, 4);
    WordRoundTrip(e.ttl);
    WordRoundTrip(e.timestamp);
    WordRoundTrip(e.lastAccess);
  }

  /** The other direction: every well-formed record is the layout of what it parses to. */
  lemma LayoutParse(buf: seq<Byte>)
    requires IsRecord(buf)
    ensures Encodable(Parse(buf))
    ensures Layout(Parse(buf)) == buf
  {
    hide Word, Int64At, ToBytes, FromBytes;
    var k := buf[0];
    var e := Parse(buf);
    ValueWord(buf);
    assert e.value == buf[29 + k..];
    WordOfInt64At(buf[1 + k..9 + k]);
    WordOfInt64At(buf[9 + k..17 + k]);
    WordOfInt64At(buf[17 + k..25 + k]);
    assert e.key == buf[1..1 + k];
    calc {
      Layout(e);
      [k] + buf[1..1 + k] + buf[1 + k..9 + k] + buf[9 + k..17 + k] + buf[17 + k..25 + k] + buf[25 + k..29 + k] + buf[29 + k..];
      { Sections(buf, k); }
      buf;
    }
  }

  lemma ValueWord(buf: seq<Byte>)
    requires IsRecord(buf)
    ensures |buf| - 29 - buf[0] == ValueLength(buf) < TWO_32
    ensures ToBytes(ValueLength(buf) % TWO_32, 4) == buf[25 + buf[0]..29 + buf[0]]
  {
    hide ToBytes, FromBytes, Pow256;
    WordBounds();
    ToFromBytes(buf[25 + buf[0]..29 + buf[0]]);
  }

  lemma Sections(buf: seq<Byte>, k: Byte)
    requires |buf| >= 29 + k && buf[0] == k
    ensures [k] + buf[1..1 + k] + buf[1 + k..9 + k] + buf[9 + k..17 + k] + buf[17 + k..25 + k] + buf[25 + k..29 + k] + buf[29 + k..] == buf
  {
    assert [k] + buf[1..1 + k] == buf[..1 + k];
    assert buf[..1 + k] + buf[1 + k..9 + k] == buf[..9 + k];
    assert buf[..9 + k] + buf[9 + k..17 + k] == buf[..17 + k];
    assert buf[..17 + k] + buf[17 + k..25 + k] == buf[..25 + k];
    assert buf[..25 + k] + buf[25 + k..29 + k] == buf[..29 + k];
  }

  /** Decode inverts Encode exactly on the entries whose lengths fit their fields. */
  lemma DecodeInvertsEncode(e: Entry)
    ensures Decode(Layout(e)) == Some(e) <==> Encodable(e)
  {
    if Encodable(e) {
      ParseLayout(e, []);
      assert Layout(e) + [] == Layout(e);
    } else if Framed(Layout(e)) {
      var b := Layout(e);
      var d := Parse(b);
      WordBounds();
      assert |d.key| < 256 && |d.value| < TWO_32;
    }
  }

  // Buffers

  /** `m` with `bs` written over it at `pos`. */
  function Splice(m: seq<Byte>, pos: nat, bs: seq<Byte>): (r: seq<Byte>)
    requires pos + |bs| <= |m|
    ensures |r| == |m|
    ensures r[pos..pos + |bs|] == bs
    ensures forall i :: 0 <= i < |m| && !(pos <= i < pos + |bs|) ==> r[i] == m[i]
  {
    m[..pos] + bs + m[pos + |bs|..]
  }

  lemma SpliceSplice(m: seq<Byte>, pos: nat, a: seq<Byte>, b: seq<Byte>)
    requires pos + |a| + |b| <= |m|
    ensures Splice(Splice(m, pos, a), pos + |a|, b) == Splice(m, pos, a + b)
  {
  }

  /** Go's copy(buf[pos:], bs), and the fixed-width puts, which write the same way. */
  method CopyInto(buf: array<Byte>, pos: nat, bs: seq<Byte>)
    requires pos + |bs| <= buf.Length
    modifies buf
    ensures buf[..] == Splice(old(buf[..]), pos, bs)
  {
    for i := 0 to |bs|
      invariant forall k :: 0 <= k < buf.Length ==> buf[k] == if pos <= k < pos + i then bs[k - pos] else old(buf[k])
    {
      buf[pos + i] := bs[i];
    }
  }

  /** Entry.Encode: field by field at a moving offset. */
  method Encode(e: Entry) returns (buf: array<Byte>)
    ensures fresh(buf)
    ensures buf[..] == Layout(e)
  {
    buf := new Byte[METADATA_LENGTH + |e.key| + |e.value|](_ => 0);
    WriteRecord(buf, 0, e);
    assert buf[..] == buf[0..0 + EntrySize(e)];
  }

  /** One field write: `buf` already holds `head` over the old contents `m` at `start`. */
  method WriteField(buf: array<Byte>, start: nat, offset: nat, bs: seq<Byte>, ghost m: seq<Byte>, ghost head: seq<Byte>)
    requires offset == start + |head| && offset + |bs| <= buf.Length == |m|
    requires buf[..] == Splice(m, start, head)
    modifies buf
    ensures buf[..] == Splice(m, start, head + bs)
  {
    CopyInto(buf, offset, bs);
    SpliceSplice(m, start, head, bs);
  }

  /** The field writes shared by Entry.Encode and Table.Put. */
  method WriteRecord(buf: array<Byte>, start: nat, e: Entry)
    requires start + EntrySize(e) <= buf.Length
    modifies buf
    ensures buf[..] == Splice(old(buf[..]), start, Layout(e))
  {
    ghost var m := buf[..];
    var offset := start;
    ghost var h0: seq<Byte> := [];
    WriteField(buf, start, offset, [|e.key| % 256], m, h0);
    offset := offset + 1;
    ghost var h1 := [|e.key| % 256];
    assert h0 + h1 == h1;
    WriteField(buf, start, offset, e.key, m, h1);
    offset := offset + |e.key|;
    ghost var h2 := h1 + e.key;
    WriteField(buf, start, offset, Word(e.ttl), m, h2);
    offset := offset + 8;
    ghost var h3 := h2 + Word(e.ttl);
    WriteField(buf, start, offset, Word(e.timestamp), m, h3);
    offset := offset + 8;
    ghost var h4 := h3 + Word(e.timestamp);
    WriteField(buf, start, offset, Word(e.lastAccess), m, h4);
    offset := offset + 8;
    ghost var h5 := h4 + Word(e.lastAccess);
    WriteField(buf, start, offset, ToBytes(|e.value| % TWO_32, 4), m, h5);
    offset := offset + 4;
    ghost var h6 := h5 + ToBytes(|e.value| % TWO_32, 4);
    WriteField(buf, start, offset, e.value, m, h6);
  }
}
