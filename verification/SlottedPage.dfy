/** An index page in memory, changed in place. */
module SlottedPages {
  import opened Wrappers
  import opened Records
  import opened LittleEndian
  import opened IndexPages
  import opened Headers
  import opened PageBytes

  /** The fields that `SetPageKind` sets, at the byte level. */
  function KindHeader(h: IndexHeader, kind: Kind): IndexHeader {
    var wasLeaf := h.kind == Leaf || (h.kind == Root && h.IsRootLeaf());
    var h' := h.(kind := kind);
    if kind == Root && wasLeaf then h'.SetRootLeaf()
    else if kind != Root then h'.ClearRootLeaf()
    else h'
  }

  /** A header change that moves neither slots nor cells. */
  lemma HeaderChanged(d: Bytes, h: IndexHeader)
    requires PageOk(d) && h.Fits()
    requires h.freeStart == HeaderOf(d).value.freeStart && h.freeEnd == HeaderOf(d).value.freeEnd
    ensures PageOk(WithHeader(d, h)) && PageOf(WithHeader(d, h)) == Page(h.id, h.kind, h.IsRootLeaf(), h.ptr,
        PageOf(d).cells)
  {
    hide WithHeader, Sorted, CellAt, CellOffset;
    var n := Count(h);
    OkBounds(d);
    HeaderWritten(d, h, n);
    var e := WithHeader(d, h);
    SameSlots(d, e, n, h.freeEnd);
    SlotsWeaken(d, n, h.freeEnd, SlotAt(n));
    SlotsWeaken(e, n, h.freeEnd, SlotAt(n));
    assert CellsOf(e, n) == CellsOf(d, n);
  }

  lemma SameSlots(d: Bytes, e: Bytes, n: nat, free: nat)
    requires SlotsOk(d, n, free) && |e| == PAGE_SIZE
    requires forall k {:trigger CellOffset(e, k)} :: 0 <= k < n ==> CellOffset(e, k) == CellOffset(d, k)
    ensures SlotsOk(e, n, free)
  {
    hide CellOffset;
  }

  lemma FlagBits(h: IndexHeader, kind: Kind)
    ensures KindHeader(h, kind).IsRootLeaf() == (kind == Root && (h.IsRootLeaf() || h.kind == Leaf))
  {
  }

  class SlottedPage {
    const data: array<byte>

    ghost predicate Valid()
      reads this, data
    {
      data.Length == PAGE_SIZE && PageOk(data[..])
    }

    /** The page that the bytes stand for. */
    ghost function View(): Page
      requires Valid()
      reads this, data
    {
      PageOf(data[..])
    }

    constructor (id: nat, kind: Kind, ptr: nat)
      requires id < U64 && ptr < U64
      ensures Valid() && fresh(data) && View() == Page(id, kind, false, ptr, [])
    {
      data := new byte[PAGE_SIZE](_ => 0);
      new;
      InitHeader(id, kind, ptr);
    }

    /** Moves the bytes `from..to` to offset `dest`, as if through a copy. */
    method CopyWithin(from: nat, to: nat, dest: nat)
      requires from <= to <= data.Length && dest + (to - from) <= data.Length
      modifies data
      ensures data[..] == Put(old(data[..]), dest, old(data[from..to]))
    {
      var kept := data[from..to];
      WriteBytes(data, dest, kept);
    }

    method InitHeader(id: nat, kind: Kind, ptr: nat)
      requires data.Length == PAGE_SIZE && id < U64 && ptr < U64
      modifies data
      ensures Valid() && View() == Page(id, kind, false, ptr, [])
    {
      hide EncodeIndex, HeaderOf, CellOffset, CellAt;
      var h := IndexHeader(id, INDEX_HEADER, PAGE_SIZE, kind, 0, ptr);
      HeaderWritten(data[..], h, 0);
      WriteBytes(data, 0, EncodeIndex(h));
    }

    method Header() returns (h: IndexHeader)
      requires Valid()
      ensures HeaderOf(data[..]) == Some(h) && h.Fits()
    {
      OkBounds(data[..]);
      h := DecodeIndex(data[..INDEX_HEADER]).value;
      assert data[..][..INDEX_HEADER] == data[..INDEX_HEADER];
    }

    /** The offset stored in slot `i`. */
    method Slot(i: nat) returns (off: nat)
      requires Valid() && i < |View().cells|
      ensures off == CellOffset(data[..], i) && off + CELL <= PAGE_SIZE && CellAt(data[..], off) == View().cells[i]
    {
      off := Decode(data[SlotAt(i)..SlotAt(i) + 2]);
      assert data[..][SlotAt(i)..SlotAt(i) + 2] == data[SlotAt(i)..SlotAt(i) + 2];
    }

    method ReadCell(i: nat) returns (c: Cell)
      requires Valid() && i < |View().cells|
      ensures c == View().cells[i]
    {
      var start := Slot(i);
      assert data[..][start..start + 8] == data[start..start + 8];
      assert data[..][start + 8..start + 16] == data[start + 8..start + 16];
      c := Cell(Decode(data[start..start + 8]), Decode(data[start + 8..start + 16]));
    }

    /** The cells in slot order. */
    method GetCells() returns (cells: seq<Cell>)
      requires Valid()
      ensures cells == View().cells
    {
      hide PageOf, PageOk;
      var h := Header();
      OkBounds(data[..]);
      var range := (h.freeStart - INDEX_HEADER) / 4;
      cells := [];
      var i := 0;
      while i < range
        invariant i <= range == |View().cells| && cells == View().cells[..i]
      {
        var c := ReadCell(i);
        cells := cells + [c];
        i := i + 1;
      }
    }

    /** Finds the position for `key` among the first `n` slots by halving, or reports the key as known. */
    static method Search(d: Bytes, n: nat, key: nat, ghost cells: seq<Cell>) returns (i: nat, known: bool)
      requires |d| == PAGE_SIZE && SlotsOk(d, n, SlotAt(n)) && cells == CellsOf(d, n) && |cells| == n && Sorted(cells)
      ensures i <= n == |cells|
      ensures known <==> HasKey(cells, key)
      ensures !known ==> (i > 0 ==> cells[i - 1].key < key) && (i < n ==> key < cells[i].key)
    {
      hide CellsOf, SlotsOk, Sorted, HasKey, SlotAt;
      var lo: nat, hi: nat := 0, n;
      while lo < hi
        invariant lo <= hi <= n
        invariant lo > 0 ==> cells[lo - 1].key < key
        invariant hi < n ==> key < cells[hi].key
      {
        var mid := lo + (hi - lo) / 2;
        KeyInSlot(d, mid, n, cells);
        var midKey := KeyAt(d, mid);
        if midKey < key {
          lo := mid + 1;
        } else if midKey > key {
          hi := mid;
        } else {
          KeyHere(cells, key, mid);
          return mid, true;
        }
      }
      NotAmong(cells, key, lo);
      return lo, false;
    }

    /** Opens slot `i` for the cell at `start` and counts it in the header. */
    method Place(h: IndexHeader, n: nat, i: nat, start: nat)
      requires data.Length == PAGE_SIZE && i <= n && SlotAt(n) + SLOT_SIZE <= PAGE_SIZE
      modifies data
      ensures data[..] == WithHeader(WithSlot(old(data[..]), n, i, start),
                                    h.(freeStart := h.freeStart + 4, freeEnd := start))
    {
      hide Put, Encode, EncodeIndex;
      ghost var d := data[..];
      CopyWithin(SlotAt(i), SlotAt(n), SlotAt(i) + 4);
      assert d[SlotAt(i)..SlotAt(n)] == old(data[SlotAt(i)..SlotAt(n)]);
      WriteBytes(data, SlotAt(i), Encode(start, 2) + Encode(CELL, 2));
      WriteBytes(data, 0, EncodeIndex(h.(freeStart := h.freeStart + 4, freeEnd := start)));
    }

    /** Adds a cell in place.  A full page and a known key are errors that leave the page's cells as
        they were; the result is the new number of cells. */
    method Add(key: nat, ptr: nat) returns (r: Result<nat>)
      requires Valid() && key < U64 && ptr < U64
      modifies data
      ensures Valid()
      ensures var added := AddCell(old(View()), key, ptr);
              match r
              case Ok(n) => added == Ok(View()) && n == |View().cells|
              case Err(e) => added == Err(e) && View() == old(View())
      ensures r == Err("Page overflow") <==> |old(View()).cells| >= 203
    {
      hide PageOf, PageOk, AddCell, SlotsOk, HeaderOf, Sorted, CellOffset, CellAt, EncodeIndex, Encode, Decode, Put;
      ghost var d, was := data[..], View();
      var h := Header();
      OkBounds(d);
      Constants();
      var n := (h.freeStart - INDEX_HEADER) / SLOT_SIZE;
      if h.freeEnd < CELL || h.freeEnd - CELL < h.freeStart + 4 {
        FullOrKnown(was, key, ptr);
        return Err("Page overflow");
      }
      var start := h.freeEnd - CELL;
      WriteLeavesCells(d, key, ptr);
      WriteBytes(data, start, Encode(key, 8) + Encode(ptr, 8));
      assert data[..] == WithCell(d, start, key, ptr);
      var i, known := Search(data[..], n, key, was.cells);
      if known {
        FullOrKnown(was, key, ptr);
        return Err("duplicate key");
      }
      AddedIs(d, i, key, ptr);
      Place(h, n, i, start);
      AddedCount(was, key, ptr);
      return Ok(n + 1);
    }

    /** Empties the page and adds the given cells one by one.  When one fails, those before it stay. */
    method RebuildFromCells(cells: seq<Cell>, kind: Kind, id: nat, ptr: nat) returns (r: Result<()>)
      requires Valid() && id < U64 && ptr < U64
      requires forall i {:trigger cells[i]} :: 0 <= i < |cells| ==> cells[i].key < U64 && cells[i].ptr < U64
      modifies data
      ensures Valid()
      ensures var rebuilt := Rebuild(old(View()), cells, kind, id, ptr);
              match r
              case Ok(_) => rebuilt == Ok(View())
              case Err(e) => rebuilt == Err(e)
      ensures View() == RebuildKept(old(View()), cells, kind, id, ptr)
      ensures Sorted(cells) ==> View().cells == if |cells| <= 203 then cells else cells[..203]
      ensures Sorted(cells) ==> (r.Err? <==> |cells| > 203)
    {
      hide PageOf, PageOk, AddAll, AddAllKept;
      Constants();
      if Sorted(cells) {
        RebuildHolds(View(), cells, kind, id, ptr);
        RebuildKeeps(View(), cells, kind, id, ptr);
      }
      var oldHdr := Header();
      KindOf(data[..]);
      Restart(kind, id, ptr, oldHdr.kind == Root && oldHdr.IsRootLeaf());
      r := AddEach(cells);
    }

    /** An empty page; a root that was a leaf can stay one. */
    method Restart(kind: Kind, id: nat, ptr: nat, isRootLeaf: bool)
      requires data.Length == PAGE_SIZE && id < U64 && ptr < U64
      modifies data
      ensures Valid() && View() == Page(id, kind, isRootLeaf && kind == Root, ptr, [])
    {
      hide PageOf, PageOk;
      Clear();
      InitHeader(id, kind, ptr);
      if isRootLeaf && kind == Root {
        MarkRootLeaf();
      }
    }

    method MarkRootLeaf()
      requires Valid()
      modifies data
      ensures Valid() && View() == old(View()).(rootLeaf := true)
    {
      hide PageOf, PageOk, EncodeIndex;
      var hdr := Header();
      KindOf(data[..]);
      OkBounds(data[..]);
      HeaderChanged(data[..], hdr.SetRootLeaf());
      WriteBytes(data, 0, EncodeIndex(hdr.SetRootLeaf()));
    }

    /** Adds cells until one fails. */
    method AddEach(cells: seq<Cell>) returns (r: Result<()>)
      requires Valid()
      requires forall i {:trigger cells[i]} :: 0 <= i < |cells| ==> cells[i].key < U64 && cells[i].ptr < U64
      modifies data
      ensures Valid()
      ensures var all := AddAll(old(View()), cells);
              match r
              case Ok(_) => all == Ok(View())
              case Err(e) => all == Err(e)
      ensures View() == AddAllKept(old(View()), cells)
    {
      hide PageOf, AddCell, PageOk;
      var i := 0;
      assert cells[0..] == cells;
      while i < |cells|
        invariant i <= |cells| && Valid()
        invariant AddAll(old(View()), cells) == AddAll(View(), cells[i..])
        invariant AddAllKept(old(View()), cells) == AddAllKept(View(), cells[i..])
      {
        assert cells[i..][0] == cells[i] && cells[i..][1..] == cells[i + 1..];
        var added := Add(cells[i].key, cells[i].ptr);
        if added.Err? {
          return Err(added.error);
        }
        i := i + 1;
      }
      assert cells[i..] == [];
      return Ok(());
    }

    method Clear()
      modifies data
      ensures forall i :: 0 <= i < data.Length ==> data[i] == 0
    {
      var i := 0;
      while i < data.Length
        invariant i <= data.Length && forall k :: 0 <= k < i ==> data[k] == 0
      {
        data[i] := 0;
        i := i + 1;
      }
    }

    static method AllBut(all: seq<Cell>, idx: nat) returns (remaining: seq<Cell>)
      requires idx < |all|
      ensures remaining == Without(all, idx)
    {
      remaining := [];
      var i := 0;
      while i < |all|
        invariant i <= |all| && remaining == if i <= idx then all[..i] else all[..idx] + all[idx + 1..i]
      {
        if i != idx {
          remaining := remaining + [all[i]];
        }
        i := i + 1;
      }
    }

    /** Takes out the cell at `idx` by rebuilding the page from the others. */
    method RemoveAt(idx: nat) returns (r: Result<Cell>)
      requires Valid()
      modifies data
      ensures Valid()
      ensures var removed := RemoveCellAt(old(View()), idx);
              match r
              case Ok(c) => idx < |old(View()).cells| && c == old(View()).cells[idx] && removed == Ok(View())
              case Err(e) => removed == Err(e)
      ensures r.Ok? <==> idx < |old(View()).cells|
    {
      hide PageOf, AddCell, PageOk, Rebuild;
      OkBounds(data[..]);
      KindOf(data[..]);
      var hdr := Header();
      var all := GetCells();
      CellsFit(data[..]);
      if idx >= |all| {
        return Err("Cell index out of bounds");
      }
      var remaining := AllBut(all, idx);
      RemovalFits(View(), idx);
      // The rebuild succeeds: fewer cells than before, in the same order.
      var _ := RebuildFromCells(remaining, hdr.kind, hdr.id, hdr.ptr);
      return Ok(all[idx]);
    }

    method SetPtr(ptr: nat)
      requires Valid() && ptr < U64
      modifies data
      ensures Valid() && View() == SetHeaderPtr(old(View()), ptr)
    {
      hide PageOf, PageOk;
      var h := Header();
      KindOf(data[..]);
      OkBounds(data[..]);
      HeaderChanged(data[..], h.(ptr := ptr));
      WriteBytes(data, 0, EncodeIndex(h.(ptr := ptr)));
    }

    method SetKind(kind: Kind)
      requires Valid()
      modifies data
      ensures Valid() && View() == SetPageKind(old(View()), kind)
    {
      hide PageOf, PageOk;
      var h := Header();
      KindOf(data[..]);
      FlagBits(h, kind);
      HeaderChanged(data[..], KindHeader(h, kind));
      WriteBytes(data, 0, EncodeIndex(KindHeader(h, kind)));
    }
  }

  /** The header's share of the page the bytes stand for. */
  lemma KindOf(d: Bytes)
    requires PageOk(d)
    ensures var h, p := HeaderOf(d).value, PageOf(d);
            p.id == h.id && p.kind == h.kind && p.rootLeaf == h.IsRootLeaf() && p.ptr == h.ptr
  {
  }

  /** Keys and pointers read from a page are 64-bit. */
  lemma CellsFit(d: Bytes)
    requires PageOk(d)
    ensures forall i {:trigger PageOf(d).cells[i]} :: 0 <= i < |PageOf(d).cells| ==>
      PageOf(d).cells[i].key < U64 && PageOf(d).cells[i].ptr < U64
  {
    hide Decode, Sorted;
    Widths();
    forall i {:trigger PageOf(d).cells[i]} | 0 <= i < |PageOf(d).cells|
      ensures PageOf(d).cells[i].key < U64 && PageOf(d).cells[i].ptr < U64
    {
      var off := CellOffset(d, i);
      EncodeDecode(d[off..off + 8]);
      EncodeDecode(d[off + 8..off + 16]);
    }
  }

  lemma RemovalFits(p: Page, idx: nat)
    requires Sorted(p.cells) && idx < |p.cells| <= ORDER
    ensures Rebuild(p, Without(p.cells, idx), p.kind, p.id, p.ptr).Ok?
    ensures forall i {:trigger Without(p.cells, idx)[i]} :: 0 <= i < |p.cells| - 1 ==>
      Without(p.cells, idx)[i] == p.cells[if i < idx then i else i + 1]
  {
    WithoutSorted(p.cells, idx);
    RebuildHolds(p, Without(p.cells, idx), p.kind, p.id, p.ptr);
  }

  /** The key of the cell that slot `i` points to. */
  function KeyAt(d: Bytes, i: nat): nat
    requires |d| == PAGE_SIZE && SlotAt(i) + SLOT_SIZE <= PAGE_SIZE && CellOffset(d, i) + CELL <= PAGE_SIZE
  {
    Decode(d[CellOffset(d, i)..CellOffset(d, i) + 8])
  }

  lemma KeyInSlot(d: Bytes, i: nat, n: nat, cells: seq<Cell>)
    requires SlotsOk(d, n, SlotAt(n)) && cells == CellsOf(d, n) && i < n
    ensures SlotAt(i) + SLOT_SIZE <= PAGE_SIZE && CellOffset(d, i) + CELL <= PAGE_SIZE && KeyAt(d, i) == cells[i].key
  {
  }

  ghost predicate HasKey(cells: seq<Cell>, key: nat) {
    exists k :: 0 <= k < |cells| && cells[k].key == key
  }

  lemma KeyHere(cells: seq<Cell>, key: nat, i: nat)
    requires i < |cells| && cells[i].key == key
    ensures HasKey(cells, key)
  {
  }

  lemma NotAmong(cells: seq<Cell>, key: nat, lo: nat)
    requires Sorted(cells) && lo <= |cells|
    requires lo > 0 ==> cells[lo - 1].key < key
    requires lo < |cells| ==> key < cells[lo].key
    ensures !HasKey(cells, key)
  {
  }

  lemma FullOrKnown(p: Page, key: nat, ptr: nat)
    requires Sorted(p.cells)
    ensures |p.cells| >= ORDER ==> AddCell(p, key, ptr) == Err("Page overflow")
    ensures |p.cells| < ORDER && HasKey(p.cells, key) ==>
      AddCell(p, key, ptr) == Err("duplicate key")
  {
  }

  lemma AddedCount(p: Page, key: nat, ptr: nat)
    ensures AddCell(p, key, ptr).Ok? ==> |AddCell(p, key, ptr).value.cells| == |p.cells| + 1
  {
  }

  /** Writing the cell before its slot leaves the page as it was. */
  lemma WriteLeavesCells(d: Bytes, key: nat, ptr: nat)
    requires PageOk(d) && key < U64 && ptr < U64 && Count(HeaderOf(d).value) < ORDER
    ensures var h := HeaderOf(d).value;
            var n, start := Count(h), h.freeEnd - CELL;
            start >= 0 && h.freeStart == SlotAt(n)
            && var e := WithCell(d, start, key, ptr);
               PageOk(e) && PageOf(e) == PageOf(d) && SlotsOk(e, n, SlotAt(n)) && CellsOf(e, n) == PageOf(d).cells
  {
    hide WithCell, CellAt, Sorted;
    var h := HeaderOf(d).value;
    OkBounds(d);
    CellWritten(d, Count(h), h.freeEnd, h.freeEnd - CELL, key, ptr);
  }
}
