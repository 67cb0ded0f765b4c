/** Heap pages: records in order of arrival, and a pointer to the page where they continue. */
module HeapPages {
  import opened Wrappers
  import opened Records
  import opened LittleEndian
  import opened Headers
  import opened PageBytes

  const SLOT: nat := 4

  /** What a heap page has for records and their slots. */
  const SPACE: nat := HEAP_PAGE_SIZE - HEAP_HEADER

  /** A heap page as the heap sees it. */
  datatype HeapPage = HeapPage(id: nat, records: seq<Bytes>, flags: byte, ptr: nat)
  {
    predicate IsOverflowPage() {
      flags % 2 == 1
    }

    predicate HasOverflow() {
      flags / 2 == 1
    }

    function SetHasOverflow(next: nat): HeapPage {
      this.(flags := if flags / 2 % 2 == 1 then flags else flags + 2, ptr := next)
    }

    /** Free bytes. */
    function Free(): int {
      SPACE - RecordBytes(records)
    }

    /** Free bytes beyond the next slot. */
    function RemainingSpace(): nat {
      if Free() >= SLOT then Free() - SLOT else 0
    }

    function Add(record: Bytes): Result<HeapPage> {
      if |record| + SLOT <= Free() then Ok(this.(records := records + [record])) else Err("Heap page overflow!")
    }
  }

  /** The bytes that records take with their slots. */
  function RecordBytes(records: seq<Bytes>): nat {
    if records == [] then 0 else RecordBytes(records[..|records| - 1]) + |records[|records| - 1]| + SLOT
  }

  lemma RecordBytesAdd(records: seq<Bytes>, r: Bytes)
    ensures RecordBytes(records + [r]) == RecordBytes(records) + |r| + SLOT
  {
    assert (records + [r])[..|records|] == records;
  }

  // ---------------------------------------------------------------- bytes

  function HeapSlotAt(i: nat): nat {
    HEAP_HEADER + i * SLOT
  }

  function RecordOffset(d: Bytes, i: nat): nat
    requires |d| == HEAP_PAGE_SIZE && HeapSlotAt(i) + SLOT <= HEAP_PAGE_SIZE
  {
    Decode(d[HeapSlotAt(i)..HeapSlotAt(i) + 2])
  }

  function RecordSize(d: Bytes, i: nat): nat
    requires |d| == HEAP_PAGE_SIZE && HeapSlotAt(i) + SLOT <= HEAP_PAGE_SIZE
  {
    Decode(d[HeapSlotAt(i) + 2..HeapSlotAt(i) + 4])
  }

  /** Slot `i` points at a record behind the free space. */
  ghost predicate SlotIn(d: Bytes, i: nat, free: nat)
    requires |d| == HEAP_PAGE_SIZE && HeapSlotAt(i) + SLOT <= HEAP_PAGE_SIZE
  {
    free <= RecordOffset(d, i) && RecordOffset(d, i) + RecordSize(d, i) <= HEAP_PAGE_SIZE
  }

  ghost predicate SlotsIn(d: Bytes, n: nat, free: nat) {
    && |d| == HEAP_PAGE_SIZE && HeapSlotAt(n) <= free <= HEAP_PAGE_SIZE
    && forall i {:trigger SlotIn(d, i, free)} :: 0 <= i < n ==> SlotIn(d, i, free)
  }

  function RecordAt(d: Bytes, i: nat): Bytes
    requires |d| == HEAP_PAGE_SIZE && HeapSlotAt(i) + SLOT <= HEAP_PAGE_SIZE
    requires RecordOffset(d, i) + RecordSize(d, i) <= HEAP_PAGE_SIZE
  {
    d[RecordOffset(d, i)..RecordOffset(d, i) + RecordSize(d, i)]
  }

  ghost function RecordsOf(d: Bytes, n: nat, free: nat): (r: seq<Bytes>)
    requires SlotsIn(d, n, free)
    ensures |r| == n
    ensures forall i {:trigger r[i]} :: 0 <= i < n ==> SlotIn(d, i, free) && r[i] == RecordAt(d, i)
  {
    seq(n, i requires 0 <= i < n => assert SlotIn(d, i, free); RecordAt(d, i))
  }

  function HeapCount(h: HeapHeader): nat {
    if h.freeStart >= HEAP_HEADER then (h.freeStart - HEAP_HEADER) / SLOT else 0
  }

  /** A page as it grows by additions: slots from the front, records from the back, nothing between. */
  ghost predicate HeapOk(d: Bytes) {
    && |d| == HEAP_PAGE_SIZE
    && var h := DecodeHeap(d[..HEAP_HEADER]);
       var n := HeapCount(h);
       && h.freeStart == HeapSlotAt(n) && SlotsIn(d, n, h.freeEnd)
       && h.freeEnd + RecordBytes(RecordsOf(d, n, h.freeEnd)) == HEAP_PAGE_SIZE + SLOT * n
  }

  ghost function HeapView(d: Bytes): HeapPage
    requires HeapOk(d)
  {
    var h := DecodeHeap(d[..HEAP_HEADER]);
    HeapPage(h.id, RecordsOf(d, HeapCount(h), h.freeEnd), h.flags, h.ptr)
  }

  /** Where a page's fields lie: slot `i` behind the header says where record `i` begins and how long it
      is. */
  lemma HeapPageLayout(d: Bytes, i: nat) returns (off: nat)
    requires HeapOk(d) && i < |HeapView(d).records|
    ensures |d| == 8192 && Lies(d, 0, HeapView(d).id, 8) && Lies(d, 13, HeapView(d).ptr, 8)
    ensures var r := HeapView(d).records[i];
            && Lies(d, 21 + 4 * i, off, 2) && Lies(d, 23 + 4 * i, |r|, 2)
            && off + |r| <= |d| && d[off..off + |r|] == r
  {
    hide Encode, Decode, Lies, RecordBytes;
    HeapBounds(d);
    var h := DecodeHeap(d[..HEAP_HEADER]);
    assert SlotIn(d, i, h.freeEnd);
    DecodedLies(d, HeapSlotAt(i), 2);
    DecodedLies(d, HeapSlotAt(i) + 2, 2);
    var front := d[..HEAP_HEADER];
    assert front[0..8] == d[0..8] && front[13..21] == d[13..21];
    DecodedLies(d, 0, 8);
    DecodedLies(d, 13, 8);
    off := RecordOffset(d, i);
  }

  lemma HeapBounds(d: Bytes)
    requires HeapOk(d)
    ensures |d| == HEAP_PAGE_SIZE
    ensures var h := DecodeHeap(d[..HEAP_HEADER]);
            && h.Fits() && h.freeEnd - h.freeStart == HeapView(d).Free() >= 0 && h.freeEnd <= HEAP_PAGE_SIZE
            && h.freeStart == HeapSlotAt(HeapCount(h)) && h.RemainingSpace() == HeapView(d).RemainingSpace()
  {
    hide RecordBytes, Encode, Decode;
    HeapDecodes(d[..HEAP_HEADER]);
  }

  /** The three writes of an addition: the record, its slot, the header. */
  function HeapAdded(d: Bytes, h: HeapHeader, record: Bytes): (r: Bytes)
    requires |d| == HEAP_PAGE_SIZE && h.freeStart + SLOT + |record| <= h.freeEnd <= HEAP_PAGE_SIZE
    ensures |r| == HEAP_PAGE_SIZE
  {
    var start := h.freeEnd - |record|;
    Put(Put(Put(d, start, record), h.freeStart, Encode(start, 2) + Encode(|record|, 2)), 0,
        EncodeHeap(h.(freeStart := h.freeStart + SLOT, freeEnd := start)))
  }

  /** The new slot and record read back; the old ones are where they were. */
  lemma HeapAddedRecord(d: Bytes, h: HeapHeader, record: Bytes, n: nat)
    requires SlotsIn(d, n, h.freeEnd) && h.freeStart == HeapSlotAt(n) && h.Fits()
      && h.freeStart + SLOT + |record| <= h.freeEnd
    ensures var e, start := HeapAdded(d, h, record), h.freeEnd - |record|;
            e[start..start + |record|] == record
  {
    hide Encode, EncodeHeap, SlotIn;
    var start := h.freeEnd - |record|;
    var slot, h' := Encode(start, 2) + Encode(|record|, 2), h.(freeStart := h.freeStart + SLOT, freeEnd := start);
    var d1 := Put(d, start, record);
    var d2 := Put(d1, h.freeStart, slot);
    PutSlice(d, start, record, start, |record|);
    PutSlice(d1, h.freeStart, slot, start, |record|);
    PutSlice(d2, 0, EncodeHeap(h'), start, |record|);
  }

  lemma HeapAddedSlots(d: Bytes, h: HeapHeader, record: Bytes, n: nat)
    requires SlotsIn(d, n, h.freeEnd) && h.freeStart == HeapSlotAt(n) && h.Fits()
      && h.freeStart + SLOT + |record| <= h.freeEnd
    ensures var e, start := HeapAdded(d, h, record), h.freeEnd - |record|;
            && RecordOffset(e, n) == start && RecordSize(e, n) == |record| && e[start..start + |record|] == record
            && DecodeHeap(e[..HEAP_HEADER]) == h.(freeStart := h.freeStart + SLOT, freeEnd := start)
  {
    hide Encode, Decode, DecodeHeap, EncodeHeap, SlotIn;
    var start := h.freeEnd - |record|;
    var slot, h' := Encode(start, 2) + Encode(|record|, 2), h.(freeStart := h.freeStart + SLOT, freeEnd := start);
    var d1 := Put(d, start, record);
    var d2 := Put(d1, h.freeStart, slot);
    var e := Put(d2, 0, EncodeHeap(h'));
    Widths();
    DecodeEncode(start, 2);
    DecodeEncode(|record|, 2);
    HeapRoundTrip(h');
    assert e[..HEAP_HEADER] == EncodeHeap(h');
    PutSlice(d1, h.freeStart, slot, h.freeStart, 2);
    PutSlice(d1, h.freeStart, slot, h.freeStart + 2, 2);
    PutSlice(d2, 0, EncodeHeap(h'), h.freeStart, 2);
    PutSlice(d2, 0, EncodeHeap(h'), h.freeStart + 2, 2);
    assert slot[0..2] == Encode(start, 2) && slot[2..4] == Encode(|record|, 2);
    HeapAddedRecord(d, h, record, n);
    assert record[0..|record|] == record;
  }

  lemma HeapOldBytes(d: Bytes, h: HeapHeader, record: Bytes, o: nat, w: nat)
    requires |d| == HEAP_PAGE_SIZE && HEAP_HEADER <= h.freeStart && h.freeStart + SLOT + |record| <= h.freeEnd <= o
      && o + w <= HEAP_PAGE_SIZE
    ensures HeapAdded(d, h, record)[o..o + w] == d[o..o + w]
  {
    hide Encode, Decode, EncodeHeap;
    var start := h.freeEnd - |record|;
    var slot, h' := Encode(start, 2) + Encode(|record|, 2), h.(freeStart := h.freeStart + SLOT, freeEnd := start);
    var d1 := Put(d, start, record);
    PutSlice(d, start, record, o, w);
    PutSlice(d1, h.freeStart, slot, o, w);
    PutSlice(Put(d1, h.freeStart, slot), 0, EncodeHeap(h'), o, w);
  }

  lemma HeapOldSlot(d: Bytes, h: HeapHeader, record: Bytes, n: nat, i: nat)
    requires SlotsIn(d, n, h.freeEnd) && h.freeStart == HeapSlotAt(n) && h.Fits()
      && h.freeStart + SLOT + |record| <= h.freeEnd
    requires i < n
    ensures var e := HeapAdded(d, h, record);
            RecordOffset(e, i) == RecordOffset(d, i) && RecordSize(e, i) == RecordSize(d, i)
  {
    hide Encode, Decode, EncodeHeap, SlotIn;
    var start := h.freeEnd - |record|;
    var slot, h' := Encode(start, 2) + Encode(|record|, 2), h.(freeStart := h.freeStart + SLOT, freeEnd := start);
    var d1 := Put(d, start, record);
    var d2 := Put(d1, h.freeStart, slot);
    PutSlice(d, start, record, HeapSlotAt(i), 2);
    PutSlice(d1, h.freeStart, slot, HeapSlotAt(i), 2);
    PutSlice(d2, 0, EncodeHeap(h'), HeapSlotAt(i), 2);
    PutSlice(d, start, record, HeapSlotAt(i) + 2, 2);
    PutSlice(d1, h.freeStart, slot, HeapSlotAt(i) + 2, 2);
    PutSlice(d2, 0, EncodeHeap(h'), HeapSlotAt(i) + 2, 2);
  }

  /** An addition that fits appends the record. */
  lemma HeapAddedIs(d: Bytes, record: Bytes)
    requires HeapOk(d) && |record| + SLOT <= HeapView(d).Free()
    ensures var h := DecodeHeap(d[..HEAP_HEADER]);
            h.freeStart + SLOT + |record| <= h.freeEnd <= HEAP_PAGE_SIZE
            && HeapOk(HeapAdded(d, h, record))
              && HeapView(HeapAdded(d, h, record)) == HeapView(d).(records := HeapView(d).records + [record])
  {
    hide HeapAdded, RecordOffset, RecordSize, DecodeHeap, RecordBytes;
    HeapBounds(d);
    var h := DecodeHeap(d[..HEAP_HEADER]);
    var n, start := HeapCount(h), h.freeEnd - |record|;
    var e := HeapAdded(d, h, record);
    HeapAddedSlots(d, h, record, n);
    forall i {:trigger SlotIn(e, i, start)} | 0 <= i < n + 1
      ensures SlotIn(e, i, start) && RecordAt(e, i) == if i < n then RecordsOf(d, n, h.freeEnd)[i] else record
    {
      if i < n {
        HeapOldSlot(d, h, record, n, i);
        assert SlotIn(d, i, h.freeEnd);
        HeapOldBytes(d, h, record, RecordOffset(d, i), RecordSize(d, i));
      }
    }
    assert SlotsIn(e, n + 1, start);
    assert RecordsOf(e, n + 1, start) == RecordsOf(d, n, h.freeEnd) + [record];
    RecordBytesAdd(RecordsOf(d, n, h.freeEnd), record);
  }

  lemma HeapViewIs(d: Bytes)
    requires HeapOk(d)
    ensures |d| == HEAP_PAGE_SIZE
    ensures var h, p := DecodeHeap(d[..HEAP_HEADER]), HeapView(d); p.id == h.id && p.flags == h.flags && p.ptr == h.ptr
  {
  }

  /** A header change that moves no record. */
  lemma HeapHeaderChanged(d: Bytes, h: HeapHeader)
    requires HeapOk(d) && h.Fits()
    requires var was := DecodeHeap(d[..HEAP_HEADER]); h.freeStart == was.freeStart && h.freeEnd == was.freeEnd
    ensures HeapOk(Put(d, 0, EncodeHeap(h)))
    ensures HeapView(Put(d, 0, EncodeHeap(h))) == HeapPage(h.id, HeapView(d).records, h.flags, h.ptr)
  {
    hide RecordBytes, Encode, Decode, EncodeHeap, DecodeHeap;
    HeapBounds(d);
    var e, n := Put(d, 0, EncodeHeap(h)), HeapCount(h);
    HeapRoundTrip(h);
    assert e[..HEAP_HEADER] == EncodeHeap(h);
    forall i {:trigger SlotIn(e, i, h.freeEnd)} | 0 <= i < n
      ensures SlotIn(e, i, h.freeEnd) && RecordAt(e, i) == RecordsOf(d, n, h.freeEnd)[i]
    {
      assert SlotIn(d, i, h.freeEnd);
      PutSlice(d, 0, EncodeHeap(h), HeapSlotAt(i), 2);
      PutSlice(d, 0, EncodeHeap(h), HeapSlotAt(i) + 2, 2);
      PutSlice(d, 0, EncodeHeap(h), RecordOffset(d, i), RecordSize(d, i));
    }
    assert SlotsIn(e, n, h.freeEnd);
    assert RecordsOf(e, n, h.freeEnd) == RecordsOf(d, n, h.freeEnd);
  }

  /** The header of a new page: nothing stored, all space free. */
  function NewHeader(id: nat, flags: byte): HeapHeader {
    HeapHeader(id, HEAP_HEADER, HEAP_PAGE_SIZE, flags, 0)
  }

  /** A new page's bytes stand for an empty page. */
  lemma NewPageIs(d: Bytes, id: nat, flags: byte)
    requires |d| == HEAP_PAGE_SIZE && id < U64 && d[..HEAP_HEADER] == EncodeHeap(NewHeader(id, flags))
    ensures HeapOk(d) && HeapView(d) == HeapPage(id, [], flags, 0) && HeapView(d).Free() == 8171
  {
    hide Encode, Decode, EncodeHeap, DecodeHeap;
    HeapRoundTrip(NewHeader(id, flags));
    assert SlotsIn(d, 0, HEAP_PAGE_SIZE);
    assert RecordsOf(d, 0, HEAP_PAGE_SIZE) == [];
  }

  /** A heap page in memory, changed in place. */
  class HeapPageData {
    const data: array<byte>

    ghost predicate Valid()
      reads this, data
    {
      HeapOk(data[..])
    }

    ghost function View(): HeapPage
      requires Valid()
      reads this, data
    {
      HeapView(data[..])
    }

    /** Wraps the bytes of a page. */
    constructor (bytes: Bytes)
      requires HeapOk(bytes)
      ensures Valid() && fresh(data) && View() == HeapView(bytes)
    {
      data := new byte[|bytes|](i requires 0 <= i < |bytes| => bytes[i]);
      new;
      assert data[..] == bytes;
    }

    /** A page as it is allocated, with its flags. */
    constructor New(id: nat, flags: byte)
      requires id < U64
      ensures Valid() && fresh(data) && View() == HeapPage(id, [], flags, 0)
    {
      data := new byte[HEAP_PAGE_SIZE](_ => 0);
      new;
      WriteBytes(data, 0, EncodeHeap(NewHeader(id, flags)));
      NewPageIs(data[..], id, flags);
    }

    /** Links the page to an overflow page. */
    method SetHasOverflow(next: nat)
      requires Valid() && next < U64
      modifies data
      ensures Valid() && View() == old(View()).SetHasOverflow(next)
    {
      hide HeapOk, HeapView, EncodeHeap, DecodeHeap;
      HeapBounds(data[..]);
      var h := DecodeHeap(data[..HEAP_HEADER]);
      assert data[..][..HEAP_HEADER] == data[..HEAP_HEADER];
      HeapViewIs(data[..]);
      HeapHeaderChanged(data[..], h.SetHasOverflow(next));
      WriteBytes(data, 0, EncodeHeap(h.SetHasOverflow(next)));
    }

    /** Appends a record, if it and its slot fit in the free space. */
    method Add(record: Bytes) returns (r: Result<()>)
      requires Valid()
      modifies data
      ensures Valid()
      ensures match r
              case Ok(_) => old(View()).Add(record) == Ok(View())
              case Err(e) => old(View()).Add(record) == Err(e) && View() == old(View())
    {
      hide HeapOk, HeapView, EncodeHeap, Encode, Put;
      ghost var d := data[..];
      HeapBounds(d);
      var header := DecodeHeap(data[..HEAP_HEADER]);
      assert data[..HEAP_HEADER] == d[..HEAP_HEADER];
      if header.freeEnd < |record| || header.freeEnd - |record| < header.freeStart + SLOT {
        return Err("Heap page overflow!");
      }
      HeapAddedIs(d, record);
      var start := header.freeEnd - |record|;
      WriteBytes(data, start, record);
      WriteBytes(data, header.freeStart, Encode(start, 2) + Encode(|record|, 2));
      WriteBytes(data, 0, EncodeHeap(header.(freeStart := header.freeStart + SLOT, freeEnd := start)));
      assert data[..] == HeapAdded(d, header, record);
      return Ok(());
    }

    /** Appends records until one does not fit. */
    method AddRecords(records: seq<Bytes>) returns (r: Result<()>)
      requires Valid()
      modifies data
      ensures Valid() && View().id == old(View()).id && View().flags == old(View()).flags
      ensures View().ptr == old(View()).ptr
      ensures r.Ok? ==> View().records == old(View()).records + records
      ensures r.Ok? <==> RecordBytes(old(View()).records + records) <= SPACE || records == []
    {
      hide HeapOk, HeapView, RecordBytes;
      ghost var was := View().records;
      assert was + records[..0] == was;
      FitsSoFar(data[..]);
      for i := 0 to |records|
        invariant Valid() && View() == old(View()).(records := was + records[..i])
          && RecordBytes(was + records[..i]) <= SPACE
      {
        assert was + records[..i + 1] == (was + records[..i]) + [records[i]];
        RecordBytesAdd(was + records[..i], records[i]);
        PrefixFits(was, records, i + 1);
        var added := Add(records[i]);
        if added.Err? {
          return added;
        }
      }
      assert records[..|records|] == records;
      return Ok(());
    }
  }

  lemma FitsSoFar(d: Bytes)
    requires HeapOk(d)
    ensures RecordBytes(HeapView(d).records) <= SPACE
  {
    HeapBounds(d);
  }

  lemma {:induction false} PrefixFits(was: seq<Bytes>, records: seq<Bytes>, i: nat)
    requires i <= |records|
    ensures RecordBytes(was + records[..i]) <= RecordBytes(was + records)
    decreases |records| - i
  {
    if i < |records| {
      assert was + records[..i + 1] == (was + records[..i]) + [records[i]];
      RecordBytesAdd(was + records[..i], records[i]);
      PrefixFits(was, records, i + 1);
    } else {
      assert records[..i] == records;
    }
  }
}
