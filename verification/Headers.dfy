/** The headers of index pages, heap pages and the log file, as bytes. */
module Headers {
  import opened Wrappers
  import opened Records
  import opened LittleEndian
  import opened IndexPages

  const INDEX_HEADER: nat := 22
  const HEAP_HEADER: nat := 21
  const WAL_HEADER: nat := 28

  /** A field of `w` bytes at offset `off`. */
  function Field(s: Bytes, off: nat, w: nat): nat
    requires off + w <= |s|
  {
    Decode(s[off..off + w])
  }

  /** A field of a concatenation, in its right part or wholly in its left part. */
  lemma FieldOf(a: Bytes, b: Bytes, off: nat, w: nat)
    requires off + w <= |a| + |b|
    ensures off >= |a| ==> Field(a + b, off, w) == Field(b, off - |a|, w)
    ensures off + w <= |a| ==> Field(a + b, off, w) == Field(a, off, w)
  {
    if off >= |a| { assert (a + b)[off..off + w] == b[off - |a|..off - |a| + w]; }
    if off + w <= |a| { assert (a + b)[off..off + w] == a[off..off + w]; }
  }

  lemma FieldEncoded(n: nat, w: nat, b: Bytes)
    ensures |Encode(n, w) + b| == w + |b|
    ensures n < Limit(w) ==> Field(Encode(n, w) + b, 0, w) == n
  {
    assert (Encode(n, w) + b)[0..w] == Encode(n, w);
    DecodeEncode(n, w);
  }

  // ---------------------------------------------------------------- index pages

  datatype IndexHeader = IndexHeader(id: nat, freeStart: nat, freeEnd: nat, kind: Kind, flags: byte, ptr: nat)
  {
    predicate Fits() {
      id < U64 && freeStart < U16 && freeEnd < U16 && ptr < U64
    }

    predicate IsRootLeaf() {
      flags % 2 == 1
    }

    function SetRootLeaf(): IndexHeader {
      this.(flags := if flags % 2 == 1 then flags else flags + 1)
    }

    function ClearRootLeaf(): IndexHeader {
      this.(flags := if flags % 2 == 1 then flags - 1 else flags)
    }
  }

  function KindByte(k: Kind): byte {
    match k case Root => 0 case Internal => 1 case Leaf => 2
  }

  function KindFrom(v: byte): Option<Kind> {
    if v == 0 then Some(Root) else if v == 1 then Some(Internal) else if v == 2 then Some(Leaf) else None
  }

  function EncodeIndex(h: IndexHeader): (r: Bytes)
    ensures |r| == INDEX_HEADER
  {
    Encode(h.id, 8)
      + (Encode(h.freeStart, 2) + (Encode(h.freeEnd, 2) + ([KindByte(h.kind), h.flags] + Encode(h.ptr, 8))))
  }

  function DecodeIndex(s: Bytes): Option<IndexHeader>
    requires |s| >= INDEX_HEADER
  {
    match KindFrom(s[12])
    case None => None
    case Some(k) => Some(IndexHeader(Field(s, 0, 8), Field(s, 8, 2), Field(s, 10, 2), k, s[13], Field(s, 14, 8)))
  }

  /** Where the fields lie. */
  lemma IndexLayout(h: IndexHeader)
    ensures var e := EncodeIndex(h);
            && Lies(e, 0, h.id, 8) && Lies(e, 8, h.freeStart, 2) && Lies(e, 10, h.freeEnd, 2) && Lies(e, 14, h.ptr, 8)
            && (h.kind == Root ==> e[12] == 0) && (h.kind == Internal ==> e[12] == 1) && (h.kind == Leaf ==> e[12] == 2)
            && e[13] == h.flags
  {
    hide Encode, Lies;
    var e := EncodeIndex(h);
    assert e[0..8] == Encode(h.id, 8) && e[8..10] == Encode(h.freeStart, 2) && e[10..12] == Encode(h.freeEnd, 2);
    assert e[14..22] == Encode(h.ptr, 8);
    EncodingLies(e, 0, h.id, 8);
    EncodingLies(e, 8, h.freeStart, 2);
    EncodingLies(e, 10, h.freeEnd, 2);
    EncodingLies(e, 14, h.ptr, 8);
  }

  /** A header within its field widths decodes to itself. */
  lemma IndexRoundTrip(h: IndexHeader)
    requires h.Fits()
    ensures DecodeIndex(EncodeIndex(h)) == Some(h)
  {
    hide Field, Encode;
    Widths();
    var e := [KindByte(h.kind), h.flags] + Encode(h.ptr, 8);
    var d, i := Encode(h.freeEnd, 2), Encode(h.id, 8);
    var c, b := d + e, Encode(h.freeStart, 2);
    var all := i + (b + c);
    assert EncodeIndex(h) == all;
    FieldEncoded(h.id, 8, b + c);
    FieldEncoded(h.freeStart, 2, c);
    FieldEncoded(h.freeEnd, 2, e);
    FieldOf(i, b + c, 8, 2);
    FieldOf(i, b + c, 10, 2); FieldOf(b, c, 2, 2);
    FieldOf(i, b + c, 14, 8); FieldOf(b, c, 6, 8); FieldOf(d, e, 4, 8); FieldOf([KindByte(h.kind), h.flags],
        Encode(h.ptr, 8), 2, 8);
    FieldEncoded(h.ptr, 8, []);
    assert Encode(h.ptr, 8) + [] == Encode(h.ptr, 8);
    assert all[12] == e[0] && all[13] == e[1];
  }

  /** Bytes that decode are the encoding of what they decode to; those with another kind byte do not. */
  lemma IndexDecodes(s: Bytes)
    requires |s| == INDEX_HEADER
    ensures DecodeIndex(s).Some? <==> s[12] <= 2
    ensures DecodeIndex(s).Some? ==> DecodeIndex(s).value.Fits() && EncodeIndex(DecodeIndex(s).value) == s
  {
    hide Encode, Decode;
    Widths();
    EncodeDecode(s[0..8]);
    EncodeDecode(s[8..10]);
    EncodeDecode(s[10..12]);
    EncodeDecode(s[14..22]);
    assert s == s[0..8] + (s[8..10] + (s[10..12] + ([s[12], s[13]] + s[14..22])));
  }

  // ---------------------------------------------------------------- heap pages

  datatype HeapHeader = HeapHeader(id: nat, freeStart: nat, freeEnd: nat, flags: byte, ptr: nat)
  {
    predicate Fits() {
      id < U64 && freeStart < U16 && freeEnd < U16 && ptr < U64
    }

    /** Free bytes beyond the next slot. */
    function RemainingSpace(): nat {
      if freeEnd >= freeStart + 4 then freeEnd - (freeStart + 4) else 0
    }

    predicate IsOverflowPage() {
      flags % 2 == 1
    }

    predicate HasOverflow() {
      flags / 2 == 1
    }

    function SetHasOverflow(next: nat): HeapHeader {
      this.(flags := if flags / 2 % 2 == 1 then flags else flags + 2, ptr := next)
    }
  }

  function EncodeHeap(h: HeapHeader): (r: Bytes)
    ensures |r| == HEAP_HEADER
  {
    Encode(h.id, 8) + (Encode(h.freeStart, 2) + (Encode(h.freeEnd, 2) + ([h.flags] + Encode(h.ptr, 8))))
  }

  function DecodeHeap(s: Bytes): HeapHeader
    requires |s| >= HEAP_HEADER
  {
    HeapHeader(Field(s, 0, 8), Field(s, 8, 2), Field(s, 10, 2), s[12], Field(s, 13, 8))
  }

  lemma HeapLayout(h: HeapHeader)
    ensures var e := EncodeHeap(h);
            && Lies(e, 0, h.id, 8) && Lies(e, 8, h.freeStart, 2) && Lies(e, 10, h.freeEnd, 2) && e[12] == h.flags
            && Lies(e, 13, h.ptr, 8)
  {
    hide Encode, Lies;
    var e := EncodeHeap(h);
    assert e[0..8] == Encode(h.id, 8) && e[8..10] == Encode(h.freeStart, 2) && e[10..12] == Encode(h.freeEnd, 2);
    assert e[13..21] == Encode(h.ptr, 8);
    EncodingLies(e, 0, h.id, 8);
    EncodingLies(e, 8, h.freeStart, 2);
    EncodingLies(e, 10, h.freeEnd, 2);
    EncodingLies(e, 13, h.ptr, 8);
  }

  lemma HeapRoundTrip(h: HeapHeader)
    requires h.Fits()
    ensures DecodeHeap(EncodeHeap(h)) == h
  {
    hide Field, Encode;
    Widths();
    var e := [h.flags] + Encode(h.ptr, 8);
    var d, i := Encode(h.freeEnd, 2), Encode(h.id, 8);
    var c, b := d + e, Encode(h.freeStart, 2);
    var all := i + (b + c);
    assert EncodeHeap(h) == all;
    FieldEncoded(h.id, 8, b + c);
    FieldEncoded(h.freeStart, 2, c);
    FieldEncoded(h.freeEnd, 2, e);
    FieldOf(i, b + c, 8, 2);
    FieldOf(i, b + c, 10, 2); FieldOf(b, c, 2, 2);
    FieldOf(i, b + c, 13, 8); FieldOf(b, c, 5, 8); FieldOf(d, e, 3, 8); FieldOf([h.flags], Encode(h.ptr, 8), 1, 8);
    FieldEncoded(h.ptr, 8, []);
    assert Encode(h.ptr, 8) + [] == Encode(h.ptr, 8);
    assert all[12] == e[0];
  }

  lemma HeapDecodes(s: Bytes)
    requires |s| == HEAP_HEADER
    ensures DecodeHeap(s).Fits() && EncodeHeap(DecodeHeap(s)) == s
  {
    hide Encode, Decode;
    Widths();
    EncodeDecode(s[0..8]);
    EncodeDecode(s[8..10]);
    EncodeDecode(s[10..12]);
    EncodeDecode(s[13..21]);
    assert s == s[0..8] + (s[8..10] + (s[10..12] + ([s[12]] + s[13..21])));
  }

  // ---------------------------------------------------------------- the log file

  datatype WalHeader = WalHeader(lastCheckpoint: nat, lastOffset: nat, lastLen: nat, nextLsn: nat)
  {
    predicate Fits() {
      lastCheckpoint < U64 && lastOffset < U64 && lastLen < U32 && nextLsn < U64
    }
  }

  function EncodeWal(h: WalHeader): (r: Bytes)
    ensures |r| == WAL_HEADER
  {
    Encode(h.lastCheckpoint, 8) + (Encode(h.lastOffset, 8) + (Encode(h.lastLen, 4) + Encode(h.nextLsn, 8)))
  }

  function DecodeWal(s: Bytes): WalHeader
    requires |s| >= WAL_HEADER
  {
    WalHeader(Field(s, 0, 8), Field(s, 8, 8), Field(s, 16, 4), Field(s, 20, 8))
  }

  lemma WalLayout(h: WalHeader)
    ensures var e := EncodeWal(h);
            && Lies(e, 0, h.lastCheckpoint, 8) && Lies(e, 8, h.lastOffset, 8) && Lies(e, 16, h.lastLen, 4)
            && Lies(e, 20, h.nextLsn, 8)
  {
    hide Encode, Lies;
    var e := EncodeWal(h);
    assert e[0..8] == Encode(h.lastCheckpoint, 8) && e[8..16] == Encode(h.lastOffset, 8);
    assert e[16..20] == Encode(h.lastLen, 4) && e[20..28] == Encode(h.nextLsn, 8);
    EncodingLies(e, 0, h.lastCheckpoint, 8);
    EncodingLies(e, 8, h.lastOffset, 8);
    EncodingLies(e, 16, h.lastLen, 4);
    EncodingLies(e, 20, h.nextLsn, 8);
  }

  lemma WalRoundTrip(h: WalHeader, rest: Bytes)
    requires h.Fits()
    ensures DecodeWal(EncodeWal(h) + rest) == h
  {
    hide Field, Encode;
    Widths();
    var i, b, c, d := Encode(h.lastCheckpoint, 8), Encode(h.lastOffset, 8), Encode(h.lastLen, 4), Encode(h.nextLsn, 8);
    var all := i + (b + (c + (d + rest)));
    assert EncodeWal(h) + rest == all;
    FieldEncoded(h.lastCheckpoint, 8, b + (c + (d + rest)));
    FieldEncoded(h.lastOffset, 8, c + (d + rest));
    FieldEncoded(h.lastLen, 4, d + rest);
    FieldEncoded(h.nextLsn, 8, rest);
    FieldOf(i, b + (c + (d + rest)), 8, 8);
    FieldOf(i, b + (c + (d + rest)), 16, 4); FieldOf(b, c + (d + rest), 8, 4);
    FieldOf(i, b + (c + (d + rest)), 20, 8); FieldOf(b, c + (d + rest), 12, 8); FieldOf(c, d + rest, 4, 8);
  }
}
