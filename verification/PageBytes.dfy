/** Index pages as bytes: slots at the front, in key order; cells at the back, in order of arrival. */
module PageBytes {
  import opened Wrappers
  import opened Records
  import opened LittleEndian
  import opened IndexPages
  import opened Headers

  const CELL: nat := 16

  /** `d` with `b` written at offset `off`. */
  function Put(d: Bytes, off: nat, b: Bytes): (r: Bytes)
    requires off + |b| <= |d|
    ensures |r| == |d|
  {
    d[..off] + b + d[off + |b|..]
  }

  /** A write changes the slice it covers, and no slice apart from it. */
  lemma PutSlice(d: Bytes, off: nat, b: Bytes, o: nat, w: nat)
    requires off + |b| <= |d| && o + w <= |d|
    ensures o + w <= off || off + |b| <= o ==> Put(d, off, b)[o..o + w] == d[o..o + w]
    ensures off <= o && o + w <= off + |b| ==> Put(d, off, b)[o..o + w] == b[o - off..o - off + w]
  {
    var e := Put(d, off, b);
    assert forall k {:trigger e[k]} :: 0 <= k < |d| ==> e[k] == if off <= k < off + |b| then b[k - off] else d[k];
  }

  /** Copies `b` into an array at offset `off`. */
  method WriteBytes(data: array<byte>, off: nat, b: Bytes)
    requires off + |b| <= data.Length
    modifies data
    ensures data[..] == Put(old(data[..]), off, b)
  {
    var i := 0;
    while i < |b|
      invariant i <= |b|
      invariant data[..] == old(data[..off]) + b[..i] + old(data[off + i..])
    {
      data[off + i] := b[i];
      i := i + 1;
    }
  }

  // ---------------------------------------------------------------- reading a page

  function HeaderOf(d: Bytes): Option<IndexHeader>
    requires |d| == PAGE_SIZE
  {
    DecodeIndex(d[..INDEX_HEADER])
  }

  function SlotAt(i: nat): nat {
    INDEX_HEADER + i * SLOT_SIZE
  }

  /** Where the cell of slot `i` begins. */
  function CellOffset(d: Bytes, i: nat): nat
    requires |d| == PAGE_SIZE && SlotAt(i) + SLOT_SIZE <= PAGE_SIZE
  {
    Decode(d[SlotAt(i)..SlotAt(i) + 2])
  }

  function CellAt(d: Bytes, off: nat): Cell
    requires |d| == PAGE_SIZE && off + CELL <= PAGE_SIZE
  {
    Cell(Decode(d[off..off + 8]), Decode(d[off + 8..off + 16]))
  }

  /** The slots of the first `n` cells lie before the free space and their cells behind it, apart from
      each other. */
  ghost predicate SlotsOk(d: Bytes, n: nat, free: nat) {
    && |d| == PAGE_SIZE && SlotAt(n) <= free <= PAGE_SIZE
    && (forall i {:trigger CellOffset(d, i)} :: 0 <= i < n ==>
      free <= CellOffset(d, i) && CellOffset(d, i) + CELL <= PAGE_SIZE)
    && forall i, j {:trigger CellOffset(d, i), CellOffset(d, j)} :: 0 <= i < n && 0 <= j < n && i != j ==>
        CellOffset(d, i) + CELL <= CellOffset(d, j) || CellOffset(d, j) + CELL <= CellOffset(d, i)
  }

  ghost function CellsOf(d: Bytes, n: nat): (r: seq<Cell>)
    requires SlotsOk(d, n, SlotAt(n))
    ensures |r| == n && forall i {:trigger r[i]} :: 0 <= i < n ==> r[i] == CellAt(d, CellOffset(d, i))
  {
    seq(n, i requires 0 <= i < n => CellAt(d, CellOffset(d, i)))
  }

  function Count(h: IndexHeader): nat {
    if h.freeStart >= INDEX_HEADER then (h.freeStart - INDEX_HEADER) / SLOT_SIZE else 0
  }

  /** A page as the tree writes it: compact, with its cells in key order. */
  ghost predicate PageOk(d: Bytes) {
    && |d| == PAGE_SIZE && HeaderOf(d).Some?
    && var h := HeaderOf(d).value;
       var n := Count(h);
       && h.freeStart == SlotAt(n) && h.freeEnd + n * CELL == PAGE_SIZE
       && SlotsOk(d, n, h.freeEnd) && Sorted(CellsOf(d, n))
  }

  /** The page that the bytes stand for. */
  ghost function PageOf(d: Bytes): Page
    requires PageOk(d)
  {
    var h := HeaderOf(d).value;
    Page(h.id, h.kind, h.IsRootLeaf(), h.ptr, CellsOf(d, Count(h)))
  }

  lemma OkBounds(d: Bytes)
    requires PageOk(d)
    ensures var h := HeaderOf(d).value;
            var n := Count(h);
            h.Fits() && n <= ORDER && h.freeStart == SlotAt(n) <= h.freeEnd && h.freeEnd + n * CELL == PAGE_SIZE
    ensures |PageOf(d).cells| == Count(HeaderOf(d).value) && Sorted(PageOf(d).cells)
    ensures var h := HeaderOf(d).value; h.freeEnd >= CELL + h.freeStart + SLOT_SIZE <==> Count(h) < ORDER
  {
    hide Encode, Decode, CellAt, CellOffset, Sorted;
    IndexDecodes(d[..INDEX_HEADER]);
    Room(Count(HeaderOf(d).value), HeaderOf(d).value.freeEnd);
  }

  /** Where a page's fields lie: slot `i` behind the header says where cell `i` begins, and there lie its
      key and its pointer. */
  lemma PageLayout(d: Bytes, i: nat)
    requires PageOk(d) && i < |PageOf(d).cells|
    ensures |d| == 4096 && Lies(d, 0, PageOf(d).id, 8) && Lies(d, 14, PageOf(d).ptr, 8)
    ensures var off, c := CellOffset(d, i), PageOf(d).cells[i];
            Lies(d, 22 + 4 * i, off, 2) && Lies(d, off, c.key, 8) && Lies(d, off + 8, c.ptr, 8)
  {
    hide Encode, Decode, Lies, Sorted;
    OkBounds(d);
    var off := CellOffset(d, i);
    DecodedLies(d, SlotAt(i), 2);
    DecodedLies(d, off, 8);
    DecodedLies(d, off + 8, 8);
    var h := d[..INDEX_HEADER];
    assert h[0..8] == d[0..8] && h[14..22] == d[14..22];
    DecodedLies(d, 0, 8);
    DecodedLies(d, 14, 8);
  }

  lemma DecodedLies(d: Bytes, off: nat, w: nat)
    requires off + w <= |d|
    ensures Lies(d, off, Decode(d[off..off + w]), w)
  {
    hide Encode, Decode, Lies;
    EncodeDecode(d[off..off + w]);
    EncodingLies(d, off, Decode(d[off..off + w]), w);
  }

  /** 203 cells with their slots fit behind the header; one more does not. */
  lemma Room(n: nat, free: nat)
    requires free + n * CELL == PAGE_SIZE && SlotAt(n) <= free
    ensures n <= ORDER && (free >= CELL + SlotAt(n) + SLOT_SIZE <==> n < ORDER)
  {
  }

  // ---------------------------------------------------------------- adding a cell

  /** The bytes after writing the cell into the free space. */
  function WithCell(d: Bytes, start: nat, key: nat, ptr: nat): (r: Bytes)
    requires |d| == PAGE_SIZE && start + CELL <= PAGE_SIZE
    ensures |r| == PAGE_SIZE
  {
    Put(d, start, Encode(key, 8) + Encode(ptr, 8))
  }

  /** The bytes after moving slots `i..n` up by one and writing the new slot. */
  function WithSlot(d: Bytes, n: nat, i: nat, start: nat): (r: Bytes)
    requires |d| == PAGE_SIZE && i <= n && SlotAt(n) + SLOT_SIZE <= PAGE_SIZE
    ensures |r| == PAGE_SIZE
  {
    Put(Put(d, SlotAt(i) + SLOT_SIZE, d[SlotAt(i)..SlotAt(n)]), SlotAt(i), Encode(start, 2) + Encode(CELL, 2))
  }

  function WithHeader(d: Bytes, h: IndexHeader): (r: Bytes)
    requires |d| == PAGE_SIZE
    ensures |r| == PAGE_SIZE
  {
    Put(d, 0, EncodeIndex(h))
  }

  /** Writing into the free space disturbs no slot and no cell; what was written can be read back. */
  lemma CellWritten(d: Bytes, n: nat, free: nat, start: nat, key: nat, ptr: nat)
    requires SlotsOk(d, n, free) && SlotAt(n) <= start && start + CELL <= free && key < U64 && ptr < U64
    ensures var e := WithCell(d, start, key, ptr);
            && SlotsOk(e, n, free) && CellsOf(e, n) == CellsOf(d, n) && CellAt(e, start) == Cell(key, ptr)
            && e[..INDEX_HEADER] == d[..INDEX_HEADER]
            && forall i {:trigger CellOffset(e, i)} :: 0 <= i < n ==> CellOffset(e, i) == CellOffset(d, i)
  {
    hide Encode, Decode;
    var b := Encode(key, 8) + Encode(ptr, 8);
    var e := WithCell(d, start, key, ptr);
    forall i {:trigger CellOffset(e, i)} | 0 <= i < n
      ensures CellOffset(e, i) == CellOffset(d, i) && CellAt(e, CellOffset(e, i)) == CellAt(d, CellOffset(d, i))
    {
      PutSlice(d, start, b, SlotAt(i), 2);
      PutSlice(d, start, b, CellOffset(d, i), 8);
      PutSlice(d, start, b, CellOffset(d, i) + 8, 8);
    }
    PutSlice(d, start, b, 0, INDEX_HEADER);
    PutSlice(d, start, b, start, 8);
    PutSlice(d, start, b, start + 8, 8);
    Widths();
    DecodeEncode(key, 8);
    DecodeEncode(ptr, 8);
    assert b[0..8] == Encode(key, 8) && b[8..16] == Encode(ptr, 8);
    assert CellsOf(e, n) == CellsOf(d, n);
  }

  /** Shifting the later slots makes room for the new one in between. */
  lemma SlotWritten(d: Bytes, n: nat, i: nat, start: nat)
    requires |d| == PAGE_SIZE && i <= n && SlotAt(n) + SLOT_SIZE <= start && start + CELL <= PAGE_SIZE
    ensures var e := WithSlot(d, n, i, start);
            && e[..INDEX_HEADER] == d[..INDEX_HEADER] && e[SlotAt(i) + 2..SlotAt(i) + 4] == Encode(CELL, 2)
            && (forall o {:trigger CellAt(e, o)} {:trigger CellAt(d, o)} :: start <= o && o + CELL <= PAGE_SIZE ==>
              CellAt(e, o) == CellAt(d, o))
            && forall k {:trigger CellOffset(e, k)} :: 0 <= k <= n ==>
                CellOffset(e, k) == if k < i then CellOffset(d, k) else if k == i then start else CellOffset(d, k - 1)
  {
    hide Encode, Decode;
    var moved, slot := d[SlotAt(i)..SlotAt(n)], Encode(start, 2) + Encode(CELL, 2);
    var m := Put(d, SlotAt(i) + SLOT_SIZE, moved);
    var e := WithSlot(d, n, i, start);
    PutSlice(d, SlotAt(i) + SLOT_SIZE, moved, 0, INDEX_HEADER);
    PutSlice(m, SlotAt(i), slot, 0, INDEX_HEADER);
    PutSlice(m, SlotAt(i), slot, SlotAt(i) + 2, 2);
    assert slot[2..4] == Encode(CELL, 2);
    forall o {:trigger CellAt(e, o)} | start <= o && o + CELL <= PAGE_SIZE ensures CellAt(e, o) == CellAt(d, o) {
      PutSlice(d, SlotAt(i) + SLOT_SIZE, moved, o, 8);
      PutSlice(d, SlotAt(i) + SLOT_SIZE, moved, o + 8, 8);
      PutSlice(m, SlotAt(i), slot, o, 8);
      PutSlice(m, SlotAt(i), slot, o + 8, 8);
    }
    forall k {:trigger CellOffset(e, k)} | 0 <= k <= n
      ensures CellOffset(e, k) == if k < i then CellOffset(d, k) else if k == i then start else CellOffset(d, k - 1)
    {
      SlotMoved(d, n, i, start, k);
    }
  }

  lemma SlotMoved(d: Bytes, n: nat, i: nat, start: nat, k: nat)
    requires |d| == PAGE_SIZE && i <= n && k <= n && SlotAt(n) + SLOT_SIZE <= start <= PAGE_SIZE
    ensures CellOffset(WithSlot(d, n, i, start), k)
         == if k < i then CellOffset(d, k) else if k == i then start else CellOffset(d, k - 1)
  {
    hide Encode, Decode;
    var moved, slot := d[SlotAt(i)..SlotAt(n)], Encode(start, 2) + Encode(CELL, 2);
    var m := Put(d, SlotAt(i) + SLOT_SIZE, moved);
    PutSlice(d, SlotAt(i) + SLOT_SIZE, moved, SlotAt(k), 2);
    PutSlice(m, SlotAt(i), slot, SlotAt(k), 2);
    if k == i {
      Widths();
      DecodeEncode(start, 2);
      assert slot[0..2] == Encode(start, 2);
    } else if k > i {
      assert moved[SlotAt(k) - SlotAt(i) - SLOT_SIZE..SlotAt(k) - SlotAt(i) - SLOT_SIZE + 2]
        == d[SlotAt(k - 1)..SlotAt(k - 1) + 2];
    }
  }

  /** Rewriting the header disturbs nothing else. */
  lemma HeaderWritten(d: Bytes, h: IndexHeader, n: nat)
    requires |d| == PAGE_SIZE && h.Fits() && SlotAt(n) <= PAGE_SIZE
    ensures HeaderOf(WithHeader(d, h)) == Some(h)
    ensures forall k {:trigger CellOffset(WithHeader(d, h), k)} :: 0 <= k < n ==>
      CellOffset(WithHeader(d, h), k) == CellOffset(d, k)
    ensures forall o {:trigger CellAt(WithHeader(d, h), o)} :: INDEX_HEADER <= o && o + CELL <= PAGE_SIZE ==>
      CellAt(WithHeader(d, h), o) == CellAt(d, o)
  {
    hide Encode, Decode, EncodeIndex, DecodeIndex;
    var e := WithHeader(d, h);
    assert e[..INDEX_HEADER] == EncodeIndex(h);
    IndexRoundTrip(h);
    forall k {:trigger CellOffset(e, k)} | 0 <= k < n ensures CellOffset(e, k) == CellOffset(d, k) {
      PutSlice(d, 0, EncodeIndex(h), SlotAt(k), 2);
    }
    forall o {:trigger CellAt(e, o)} | INDEX_HEADER <= o && o + CELL <= PAGE_SIZE ensures CellAt(e, o) == CellAt(d, o) {
      PutSlice(d, 0, EncodeIndex(h), o, 8);
      PutSlice(d, 0, EncodeIndex(h), o + 8, 8);
    }
  }

  /** The bytes after a whole insertion at position `i`. */
  function Added(d: Bytes, h: IndexHeader, i: nat, key: nat, ptr: nat): (r: Bytes)
    requires |d| == PAGE_SIZE && i <= Count(h) && h.freeStart + SLOT_SIZE + CELL <= h.freeEnd <= PAGE_SIZE
    requires h.freeStart == SlotAt(Count(h))
    ensures |r| == PAGE_SIZE
  {
    var start := h.freeEnd - CELL;
    WithHeader(WithSlot(WithCell(d, start, key, ptr), Count(h), i, start),
               h.(freeStart := h.freeStart + SLOT_SIZE, freeEnd := start))
  }

  /** Added bytes: the old slots around the new one. */
  lemma AddedSlots(d: Bytes, i: nat, key: nat, ptr: nat)
    requires PageOk(d) && key < U64 && ptr < U64 && i <= Count(HeaderOf(d).value) < ORDER
    ensures var h := HeaderOf(d).value;
            h.Fits() && h.freeStart + SLOT_SIZE + CELL <= h.freeEnd
    ensures var h := HeaderOf(d).value;
            var n, start := Count(h), h.freeEnd - CELL;
            var e := Added(d, h, i, key, ptr);
            && HeaderOf(e) == Some(h.(freeStart := h.freeStart + SLOT_SIZE, freeEnd := start))
            && (forall k {:trigger CellOffset(e, k)} :: 0 <= k <= n ==>
                  CellOffset(e, k) == if k < i then CellOffset(d, k) else if k
                    == i then start else CellOffset(d, k - 1))
            && CellAt(e, start) == Cell(key, ptr)
            && forall k {:trigger CellAt(e, CellOffset(d, k))} {:trigger CellAt(d, CellOffset(d, k))} :: 0 <= k < n ==>
                CellAt(e, CellOffset(d, k)) == CellAt(d, CellOffset(d, k))
  {
    hide WithCell, WithSlot, WithHeader, Sorted;
    OkBounds(d);
    var h := HeaderOf(d).value;
    var n, start := Count(h), h.freeEnd - CELL;
    CellWritten(d, n, h.freeEnd, start, key, ptr);
    var d1 := WithCell(d, start, key, ptr);
    SlotWritten(d1, n, i, start);
    var d2 := WithSlot(d1, n, i, start);
    HeaderWritten(d2, h.(freeStart := h.freeStart + SLOT_SIZE, freeEnd := start), n + 1);
    forall k {:trigger CellAt(d, CellOffset(d, k))} | 0 <= k < n
      ensures CellAt(Added(d, h, i, key, ptr), CellOffset(d, k)) == CellAt(d, CellOffset(d, k))
    {
      assert CellOffset(d1, k) == CellOffset(d, k) && CellsOf(d1, n)[k] == CellsOf(d, n)[k];
    }
  }

  lemma AddedSlotsOk(d: Bytes, i: nat, key: nat, ptr: nat)
    requires PageOk(d) && key < U64 && ptr < U64 && i <= Count(HeaderOf(d).value) < ORDER
    ensures var h := HeaderOf(d).value;
            h.freeStart + SLOT_SIZE + CELL <= h.freeEnd
            && var e := Added(d, h, i, key, ptr);
               && HeaderOf(e) == Some(h.(freeStart := h.freeStart + SLOT_SIZE, freeEnd := h.freeEnd - CELL))
               && SlotsOk(e, Count(h) + 1, h.freeEnd - CELL)
  {
    hide Added, CellAt, Sorted, HeaderOf, SlotsOk, CellsOf;
    var h := HeaderOf(d).value;
    OkBounds(d);
    AddedSlots(d, i, key, ptr);
    SlotsAdded(d, Added(d, h, i, key, ptr), Count(h), i, h.freeEnd);
  }

  /** The cells of `e` are those of `d` with `c` at position `i`. */
  ghost predicate CellsGain(d: Bytes, e: Bytes, n: nat, i: nat, c: Cell) {
    && SlotsOk(d, n, SlotAt(n)) && SlotsOk(e, n + 1, SlotAt(n + 1)) && i <= n
    && CellsOf(e, n + 1) == CellsOf(d, n)[..i] + [c] + CellsOf(d, n)[i..]
  }

  lemma AddedCells(d: Bytes, i: nat, key: nat, ptr: nat)
    requires PageOk(d) && key < U64 && ptr < U64 && i <= Count(HeaderOf(d).value) < ORDER
    ensures var h := HeaderOf(d).value;
            h.freeStart + SLOT_SIZE + CELL <= h.freeEnd
            && CellsGain(d, Added(d, h, i, key, ptr), Count(h), i, Cell(key, ptr))
  {
    hide Added, CellAt, Sorted, HeaderOf, SlotsOk, CellsOf, CellOffset;
    var h := HeaderOf(d).value;
    var n, start := Count(h), h.freeEnd - CELL;
    OkBounds(d);
    AddedSlotsOk(d, i, key, ptr);
    var e := Added(d, h, i, key, ptr);
    SlotsWeaken(d, n, h.freeEnd, SlotAt(n));
    SlotsWeaken(e, n + 1, start, SlotAt(n + 1));
    AddedSlots(d, i, key, ptr);
    CellsAdded(d, e, n, i, start, Cell(key, ptr));
  }

  /** An insertion at the right place decodes to the page with the cell added there. */
  lemma AddedIs(d: Bytes, i: nat, key: nat, ptr: nat)
    requires PageOk(d) && key < U64 && ptr < U64 && i <= Count(HeaderOf(d).value) < ORDER
    requires var c := PageOf(d).cells; (i > 0 ==> c[i - 1].key < key) && (i < |c| ==> key < c[i].key)
    ensures var h := HeaderOf(d).value;
            h.freeStart + SLOT_SIZE + CELL <= h.freeEnd
            && PageOk(Added(d, h, i, key, ptr)) && AddCell(PageOf(d), key, ptr) == Ok(PageOf(Added(d, h, i, key, ptr)))
  {
    hide Added, CellAt, Sorted, AddCell, HeaderOf, SlotsOk, CellsOf, CellOffset;
    OkBounds(d);
    AddCellAt(PageOf(d), key, ptr, i);
    AddedSlotsOk(d, i, key, ptr);
    AddedCells(d, i, key, ptr);
  }

  lemma SlotsWeaken(d: Bytes, n: nat, free: nat, free': nat)
    requires SlotsOk(d, n, free) && SlotAt(n) <= free' <= free
    ensures SlotsOk(d, n, free')
  {
  }

  /** The new cell lies right below the old ones. */
  lemma SlotsAdded(d: Bytes, e: Bytes, n: nat, i: nat, free: nat)
    requires SlotsOk(d, n, free) && |e| == PAGE_SIZE && i <= n && SlotAt(n + 1) + CELL <= free
    requires forall k {:trigger CellOffset(e, k)} :: 0 <= k <= n ==>
      CellOffset(e, k) == if k < i then CellOffset(d, k) else if k == i then free - CELL else CellOffset(d, k - 1)
    ensures SlotsOk(e, n + 1, free - CELL)
  {
    hide CellOffset;
  }

  lemma CellsAdded(d: Bytes, e: Bytes, n: nat, i: nat, start: nat, c: Cell)
    requires SlotsOk(d, n, SlotAt(n)) && SlotsOk(e, n + 1, SlotAt(n + 1)) && i <= n && start + CELL <= PAGE_SIZE
    requires forall k {:trigger CellOffset(e, k)} :: 0 <= k <= n ==>
      CellOffset(e, k) == if k < i then CellOffset(d, k) else if k == i then start else CellOffset(d, k - 1)
    requires CellAt(e, start) == c
    requires forall k {:trigger CellAt(d, CellOffset(d, k))} :: 0 <= k < n ==>
      CellAt(e, CellOffset(d, k)) == CellAt(d, CellOffset(d, k))
    ensures CellsOf(e, n + 1) == CellsOf(d, n)[..i] + [c] + CellsOf(d, n)[i..]
  {
    hide CellAt, CellOffset;
    var want := CellsOf(d, n)[..i] + [c] + CellsOf(d, n)[i..];
    forall k | 0 <= k <= n ensures CellsOf(e, n + 1)[k] == want[k] {
      if k < i { assert want[k] == CellAt(d, CellOffset(d, k)); }
      else if k > i { assert want[k] == CellAt(d, CellOffset(d, k - 1)); }
    }
  }
}
