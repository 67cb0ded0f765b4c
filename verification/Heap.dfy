/** The heap file: records that do not fit one page continue on a chain of overflow pages. */
module Heaps {
  import opened Wrappers
  import opened LittleEndian
  import opened HeapPages

  /** The longest record a fresh page takes. */
  const MAX_RECORD: nat := SPACE - SLOT

  /** Only the two flags are in use, and chains lead to pages allocated later, so they end. */
  ghost predicate Forward(pages: seq<HeapPage>) {
    forall id {:trigger pages[id]} :: 0 <= id < |pages| ==>
      pages[id].flags < 4 && (pages[id].HasOverflow() ==> id < pages[id].ptr < |pages|)
  }

  /** All records of the chain that begins at page `id`, in order. */
  function RecordsFrom(pages: seq<HeapPage>, id: nat): seq<Bytes>
    requires Forward(pages) && id < |pages|
    decreases |pages| - id
  {
    if pages[id].HasOverflow() then pages[id].records + RecordsFrom(pages, pages[id].ptr) else pages[id].records
  }

  /** The pages of the chain that begins at page `id`. */
  function ChainFrom(pages: seq<HeapPage>, id: nat): seq<nat>
    requires Forward(pages) && id < |pages|
    decreases |pages| - id
  {
    if pages[id].HasOverflow() then [id] + ChainFrom(pages, pages[id].ptr) else [id]
  }

  /** The last page of the chain. */
  function TailOf(pages: seq<HeapPage>, id: nat): (r: nat)
    requires Forward(pages) && id < |pages|
    ensures id <= r < |pages| && !pages[r].HasOverflow()
    decreases |pages| - id
  {
    if pages[id].HasOverflow() then TailOf(pages, pages[id].ptr) else id
  }

  /** Page `k` of the list points to the next one, and the last to none. */
  ghost predicate Leads(pages: seq<HeapPage>, c: seq<nat>, k: nat)
    requires k < |c|
  {
    && c[k] < |pages|
    && if k + 1 < |c| then pages[c[k]].HasOverflow() && pages[c[k]].ptr == c[k + 1] else !pages[c[k]].HasOverflow()
  }

  /** The records of the pages of a list, one page after the other. */
  function RecordsOn(pages: seq<HeapPage>, c: seq<nat>): seq<Bytes> {
    if c == [] then [] else (if c[0] < |pages| then pages[c[0]].records else []) + RecordsOn(pages, c[1..])
  }

  /** A chain visits each page once, in ascending order, and ends at its tail; its records are those of
      its pages. */
  lemma {:induction false} ChainAscends(pages: seq<HeapPage>, id: nat)
    requires Forward(pages) && id < |pages|
    ensures var c := ChainFrom(pages, id);
            && |c| > 0 && c[0] == id && c[|c| - 1] == TailOf(pages, id)
            && forall i, j {:trigger c[i], c[j]} :: 0 <= i < j < |c| ==> c[i] < c[j]
    ensures RecordsFrom(pages, id) == RecordsOn(pages, ChainFrom(pages, id))
    decreases |pages| - id
  {
    if pages[id].HasOverflow() {
      ChainAscends(pages, pages[id].ptr);
      var c, d := ChainFrom(pages, id), ChainFrom(pages, pages[id].ptr);
      assert c[1..] == d;
      assert forall j {:trigger c[j]} :: 0 < j < |c| ==> c[j] == d[j - 1];
      assert forall j {:trigger d[j]} :: 0 <= j < |d| ==> d[0] <= d[j];
    }
  }

  /** A chain follows the pointers to a page that has none. */
  lemma {:induction false} ChainLeads(pages: seq<HeapPage>, id: nat, k: nat)
    requires Forward(pages) && id < |pages| && k < |ChainFrom(pages, id)|
    ensures Leads(pages, ChainFrom(pages, id), k)
    decreases |pages| - id
  {
    hide RecordsFrom, RecordsOn;
    if pages[id].HasOverflow() {
      var c, d := ChainFrom(pages, id), ChainFrom(pages, pages[id].ptr);
      ChainStarts(pages, pages[id].ptr);
      assert c == [id] + d;
      if k > 0 {
        ChainLeads(pages, pages[id].ptr, k - 1);
      }
    }
  }

  lemma ChainStarts(pages: seq<HeapPage>, id: nat)
    requires Forward(pages) && id < |pages|
    ensures |ChainFrom(pages, id)| > 0 && ChainFrom(pages, id)[0] == id
  {
  }

  lemma RecordsStep(pages: seq<HeapPage>, cur: nat, before: seq<Bytes>)
    requires Forward(pages) && cur < |pages|
    ensures before + RecordsFrom(pages, cur)
         == before + pages[cur].records + if pages[cur].HasOverflow() then RecordsFrom(pages, pages[cur].ptr) else []
  {
  }

  // ---------------------------------------------------------------- what insertion amounts to

  /** What `InsertRecords` does to the pages. */
  ghost predicate Inserted(pages: seq<HeapPage>, pages': seq<HeapPage>, primary: nat, records: seq<Bytes>) {
    && Forward(pages) && Forward(pages') && primary < |pages| <= |pages'|
    && (pages[primary].IsOverflowPage() ==> pages[primary].ptr < |pages|)
    && var start := InsertionStart(pages, primary);
       && (forall k {:trigger pages'[k]} :: 0 <= k < |pages| && k != start ==> pages'[k] == pages[k])
       && RecordsFrom(pages', start)
          == pages[start].records + records + if FitOn(pages[start], records) then Behind(pages, start) else []
  }

  lemma InsertedIs(pages: seq<HeapPage>, pages': seq<HeapPage>, primary: nat, records: seq<Bytes>)
    requires Forward(pages) && Forward(pages') && primary < |pages| <= |pages'|
    requires pages[primary].IsOverflowPage() ==> pages[primary].ptr < |pages|
    requires InsertionStart(pages, primary) < |pages|
    requires forall k {:trigger pages'[k]} :: 0 <= k < |pages| && k != InsertionStart(pages, primary) ==>
      pages'[k] == pages[k]
    requires var start := InsertionStart(pages, primary);
             RecordsFrom(pages', start)
               == pages[start].records + records + if FitOn(pages[start], records) then Behind(pages, start) else []
    ensures Inserted(pages, pages', primary, records)
  {
  }

  // ---------------------------------------------------------------- changes to a chain

  /** Chains that do not meet page `x` read the same when `x` changes and pages are added. */
  lemma {:induction false} RecordsKept(pages: seq<HeapPage>, pages': seq<HeapPage>, id: nat, x: nat)
    requires Forward(pages) && Forward(pages') && id < |pages| <= |pages'|
    requires forall k {:trigger pages'[k]} :: 0 <= k < |pages| && k != x ==> pages'[k] == pages[k]
    requires x !in ChainFrom(pages, id)
    ensures RecordsFrom(pages', id) == RecordsFrom(pages, id) && ChainFrom(pages', id) == ChainFrom(pages, id)
    decreases |pages| - id
  {
    assert ChainFrom(pages, id)[0] == id;
    if pages[id].HasOverflow() {
      assert forall y :: y in ChainFrom(pages, pages[id].ptr) ==> y in ChainFrom(pages, id);
      RecordsKept(pages, pages', pages[id].ptr, x);
    }
  }

  class Heap {
    var pages: seq<HeapPage>

    ghost predicate Valid()
      reads this
    {
      Forward(pages)
        && (forall id {:trigger pages[id]} :: 0 <= id < |pages| ==> pages[id].id == id && pages[id].Free() >= 0)
    }

    constructor ()
      ensures Valid() && pages == []
    {
      pages := [];
    }

    /** A new page without records, no flag set. */
    method Allocate() returns (id: nat)
      requires Valid()
      modifies this
      ensures Valid() && id == |old(pages)| && pages == old(pages) + [HeapPage(id, [], 0, 0)]
    {
      id := |pages|;
      pages := pages + [HeapPage(id, [], 0, 0)];
    }

    method AllocatePrimary() returns (id: nat)
      requires Valid()
      modifies this
      ensures Valid() && id == |old(pages)| && pages == old(pages) + [HeapPage(id, [], 1, 0)]
    {
      id := Allocate();
      pages := pages[id := HeapPage(id, [], 1, 0)];
    }

    method AllocateOverflow() returns (id: nat)
      requires Valid()
      modifies this
      ensures Valid() && id == |old(pages)| && pages == old(pages) + [HeapPage(id, [], 0, 0)]
    {
      id := Allocate();
      pages := pages[id := HeapPage(id, [], 0, 0)];
    }

    /** Appends a record to one page. */
    method AddCell(id: nat, record: Bytes) returns (r: Result<()>)
      requires Valid() && id < |pages|
      modifies this
      ensures Valid()
      ensures r == if |record| + SLOT <= old(pages)[id].Free() then Ok(()) else Err("Heap page overflow!")
      ensures pages
        == if r.Ok? then old(pages)[id := old(pages)[id].(records := old(pages)[id].records + [record])] else old(pages)
    {
      RecordBytesAdd(pages[id].records, record);
      var added := pages[id].Add(record);
      if added.Err? {
        return Err(added.error);
      }
      pages := pages[id := added.value];
      return Ok(());
    }

    /** The records of a page and of its overflow pages. */
    method GetRecord(id: nat) returns (records: seq<Bytes>)
      requires Valid() && id < |pages|
      ensures records == RecordsFrom(pages, id)
    {
      var page := pages[id];
      records := page.records;
      if page.HasOverflow() {
        var more := CollectOverflowRecords(page.ptr);
        records := records + more;
      }
    }

    method CollectOverflowRecords(id: nat) returns (records: seq<Bytes>)
      requires Valid() && id < |pages|
      ensures records == RecordsFrom(pages, id)
    {
      hide RecordsFrom;
      records := [];
      var cur := id;
      while true
        invariant cur < |pages| && RecordsFrom(pages, id) == records + RecordsFrom(pages, cur)
        decreases |pages| - cur
      {
        RecordsStep(pages, cur, records);
        records := records + pages[cur].records;
        if pages[cur].HasOverflow() {
          cur := pages[cur].ptr;
        } else {
          break;
        }
      }
    }

    method FindTailId(id: nat) returns (tail: nat)
      requires Valid() && id < |pages|
      ensures tail == TailOf(pages, id)
    {
      var cur := id;
      while pages[cur].HasOverflow()
        invariant cur < |pages| && TailOf(pages, id) == TailOf(pages, cur)
        decreases |pages| - cur
      {
        cur := pages[cur].ptr;
      }
      return cur;
    }

    /** The pages of a chain, first to last. */
    method FreeChain(id: nat) returns (chain: seq<nat>)
      requires Valid() && id < |pages|
      ensures chain == ChainFrom(pages, id) && |chain| > 0 && chain[0] == id
      ensures forall k {:trigger Leads(pages, chain, k)} :: 0 <= k < |chain| ==> Leads(pages, chain, k)
    {
      hide Leads;
      ChainStarts(pages, id);
      chain := [id];
      var cur := id;
      while true
        invariant cur < |pages| && |chain| > 0 && chain[|chain| - 1] == cur
        invariant ChainFrom(pages, id) == chain[..|chain| - 1] + ChainFrom(pages, cur)
        decreases |pages| - cur
      {
        if pages[cur].HasOverflow() {
          cur := pages[cur].ptr;
          chain := chain + [cur];
        } else {
          break;
        }
      }
      assert chain == ChainFrom(pages, id);
      forall k {:trigger Leads(pages, chain, k)} | 0 <= k < |chain| ensures Leads(pages, chain, k) {
        ChainLeads(pages, id, k);
      }
    }

    /** One record on the given page, or on a new overflow page linked behind it. */
    method Append(cur: nat, record: Bytes) returns (r: Result<nat>)
      requires Valid() && cur < |pages|
      modifies this
      ensures Valid()
      ensures var p := old(pages)[cur];
              if p.RemainingSpace() >= |record| + SLOT then
                r == Ok(cur) && pages == old(pages)[cur := p.(records := p.records + [record])]
              else if |record| <= MAX_RECORD then
                r == Ok(|old(pages)|)
                && pages
                  == (old(pages) + [HeapPage(|old(pages)|, [record], 0, 0)])[cur := p.SetHasOverflow(|old(pages)|)]
              else
                r == Err("Heap page overflow!")
                && pages == (old(pages) + [HeapPage(|old(pages)|, [], 0, 0)])[cur := p.SetHasOverflow(|old(pages)|)]
    {
      hide RecordBytes;
      var needed := |record| + SLOT;
      if pages[cur].RemainingSpace() >= needed {
        var _ := AddCell(cur, record);
        return Ok(cur);
      } else {
        var overflow := AllocateOverflow();
        pages := pages[cur := pages[cur].SetHasOverflow(overflow)];
        EmptyPage();
        RecordBytesAdd([], record);
        assert [] + [record] == [record];
        var added := AddCell(overflow, record);
        if added.Err? {
          return Err(added.error);
        }
        return Ok(overflow);
      }
    }

    /** Adds records to a page, or to the end of the chain at its pointer when its first flag is set.
        It fails exactly on a record longer than a fresh page takes. */
    method InsertRecords(primary: nat, records: seq<Bytes>) returns (r: Result<()>)
      requires Valid() && primary < |pages|
      requires pages[primary].IsOverflowPage() ==> pages[primary].ptr < |pages|
      modifies this
      ensures Valid() && |pages| >= |old(pages)|
      ensures r.Ok? <==> forall i {:trigger records[i]} :: 0 <= i < |records| ==> |records[i]| <= MAX_RECORD
      ensures forall k {:trigger pages[k]} :: 0 <= k < |old(pages)| && k != InsertionStart(old(pages), primary) ==>
        pages[k] == old(pages)[k]
      ensures r.Ok? ==> Inserted(old(pages), pages, primary, records)
    {
      hide Progress, Inserted, TailOf, Forward;
      var current := primary;
      if pages[primary].IsOverflowPage() {
        current := FindTailId(pages[primary].ptr);
      }
      ghost var start, was := current, pages;
      assert start == InsertionStart(was, primary);
      ProgressStart(was, start);
      for i := 0 to |records|
        invariant Valid() && |was| <= |pages| && current < |pages| && start < |was|
        invariant forall k {:trigger records[k]} :: 0 <= k < i ==> |records[k]| <= MAX_RECORD
        invariant forall k {:trigger pages[k]} :: 0 <= k < |was| && k != start ==> pages[k] == was[k]
        invariant current == start || current >= |was|
        invariant Progress(was, pages, start, current, records[..i])
      {
        assert records[..i + 1] == records[..i] + [records[i]];
        ProgressStep(was, pages, start, current, records[..i], records[i]);
        var appended := Append(current, records[i]);
        if appended.Err? {
          return Err(appended.error);
        }
        current := appended.value;
      }
      assert records[..|records|] == records;
      ProgressEnd(was, pages, primary, current, records);
      return Ok(());
    }
  }

  // ---------------------------------------------------------------- while records are added

  /** The pages after some of the records: as long as they fit, all are on the start page, in front of
      what is behind it; from then on they end the chain, and nothing else is behind them. */
  ghost predicate Progress(was: seq<HeapPage>, pages: seq<HeapPage>, start: nat, current: nat, done: seq<Bytes>) {
    && Forward(was) && Forward(pages) && start < |was| <= |pages| && was[start].Free() >= 0
    && start <= current < |pages|
    && if FitOn(was[start], done) then
         current == start && pages == was[start := was[start].(records := was[start].records + done)]
       else
         current >= |was| && TailOf(pages, start) == current && RecordsFrom(pages, start) == was[start].records + done
  }

  lemma ProgressStart(was: seq<HeapPage>, start: nat)
    requires Forward(was) && start < |was| && was[start].Free() >= 0
    ensures forall records: seq<Bytes> {:trigger records[..0]} :: Progress(was, was, start, start, records[..0])
  {
    NoRecords(was, start);
    forall records: seq<Bytes> {:trigger records[..0]} ensures Progress(was, was, start, start, records[..0]) {
      assert records[..0] == [];
    }
  }

  lemma ProgressStep(was: seq<HeapPage>, pages: seq<HeapPage>, start: nat, current: nat, done: seq<Bytes>,
                     record: Bytes)
    requires Progress(was, pages, start, current, done)
    ensures var p, done' := pages[current], done + [record];
            if p.RemainingSpace() >= |record| + SLOT then
              Progress(was, pages[current := p.(records := p.records + [record])], start, current, done')
            else
              Progress(was, (pages + [HeapPage(|pages|, [record], 0, 0)])[current := p.SetHasOverflow(|pages|)],
                  start, |pages|, done')
  {
    hide RecordsFrom, RecordBytes, TailOf;
    FitsOneMore(was[start], done, record);
    assert (was[start].records + done) + [record] == was[start].records + (done + [record]);
    if FitOn(was[start], done) {
      RelinkedAt(pages, start, HeapPage(|pages|, [record], 0, 0));
    } else {
      AppendedAtTail(pages, start, current, record);
    }
  }

  lemma ProgressEnd(was: seq<HeapPage>, pages: seq<HeapPage>, primary: nat, current: nat, records: seq<Bytes>)
    requires Forward(was) && primary < |was| && (was[primary].IsOverflowPage() ==> was[primary].ptr < |was|)
    requires var start := InsertionStart(was, primary);
             && Progress(was, pages, start, current, records)
             && forall k {:trigger pages[k]} :: 0 <= k < |was| && k != start ==> pages[k] == was[k]
    ensures Inserted(was, pages, primary, records)
  {
    hide RecordsFrom, TailOf, FitOn;
    var start := InsertionStart(was, primary);
    if FitOn(was[start], records) { ChangedStart(was, pages, start, records); }
    InsertedIs(was, pages, primary, records);
  }

  /** Where insertion begins: the page itself, or the end of the chain at its pointer. */
  function InsertionStart(pages: seq<HeapPage>, primary: nat): nat
    requires Forward(pages) && primary < |pages| && (pages[primary].IsOverflowPage() ==> pages[primary].ptr < |pages|)
  {
    if pages[primary].IsOverflowPage() then TailOf(pages, pages[primary].ptr) else primary
  }

  /** The records behind a page. */
  function Behind(pages: seq<HeapPage>, id: nat): seq<Bytes>
    requires Forward(pages) && id < |pages|
  {
    if pages[id].HasOverflow() then RecordsFrom(pages, pages[id].ptr) else []
  }

  /** None of the records needs a new page: insertion leaves room for one more slot. */
  predicate FitOn(p: HeapPage, records: seq<Bytes>) {
    records == [] || RecordBytes(p.records + records) + SLOT <= SPACE
  }

  lemma FitsOneMore(p: HeapPage, records: seq<Bytes>, record: Bytes)
    requires p.Free() >= 0
    ensures FitOn(p, records + [record])
        <==> FitOn(p, records) && p.(records := p.records + records).RemainingSpace() >= |record| + SLOT
  {
    assert p.records + (records + [record]) == (p.records + records) + [record];
    assert p.records + [] == p.records;
    RecordBytesAdd(p.records + records, record);
  }

  lemma NoRecords(pages: seq<HeapPage>, id: nat)
    requires id < |pages|
    ensures pages == pages[id := pages[id].(records := pages[id].records + [])] && FitOn(pages[id], [])
  {
    assert pages[id].records + [] == pages[id].records;
  }

  /** Records added to a page come before what is behind it. */
  lemma ChangedStart(was: seq<HeapPage>, pages: seq<HeapPage>, start: nat, records: seq<Bytes>)
    requires Forward(was) && Forward(pages) && start < |was|
    requires pages == was[start := was[start].(records := was[start].records + records)]
    ensures RecordsFrom(pages, start) == was[start].records + records + Behind(was, start)
  {
    if was[start].HasOverflow() {
      NotBefore(was, was[start].ptr, start);
      RecordsKept(was, pages, was[start].ptr, start);
    }
  }

  /** A chain does not go back. */
  lemma {:induction false} NotBefore(pages: seq<HeapPage>, id: nat, x: nat)
    requires Forward(pages) && id < |pages| && x < id
    ensures x !in ChainFrom(pages, id)
    decreases |pages| - id
  {
    if pages[id].HasOverflow() { NotBefore(pages, pages[id].ptr, x); }
  }

  /** A new page linked behind a page replaces whatever was behind it. */
  lemma RelinkedAt(pages: seq<HeapPage>, id: nat, page: HeapPage)
    requires Forward(pages) && id < |pages| && page.flags == 0
    ensures var pages' := (pages + [page])[id := pages[id].SetHasOverflow(|pages|)];
            Forward(pages') && TailOf(pages', id) == |pages|
              && RecordsFrom(pages', id) == pages[id].records + page.records
  {
    var pages' := (pages + [page])[id := pages[id].SetHasOverflow(|pages|)];
    assert pages'[id].HasOverflow() && pages'[id].ptr == |pages|;
    assert RecordsFrom(pages', |pages|) == page.records;
    assert TailOf(pages', |pages|) == |pages|;
  }

  /** A record at the end of a chain, on its last page or on a new one. */
  lemma AppendedAtTail(pages: seq<HeapPage>, first: nat, tail: nat, record: Bytes)
    requires Forward(pages) && first < |pages| && TailOf(pages, first) == tail
    ensures var added := pages[tail := pages[tail].(records := pages[tail].records + [record])];
            Forward(added) && TailOf(added, first) == tail
              && RecordsFrom(added, first) == RecordsFrom(pages, first) + [record]
    ensures var linked := (pages + [HeapPage(|pages|, [record], 0, 0)])[tail := pages[tail].SetHasOverflow(|pages|)];
            Forward(linked) && TailOf(linked, first) == |pages|
              && RecordsFrom(linked, first) == RecordsFrom(pages, first) + [record]
  {
    AddedAtTail(pages, first, tail, record);
    LinkedAtTail(pages, first, tail, HeapPage(|pages|, [record], 0, 0));
  }

  lemma EmptyPage()
    ensures RecordBytes([]) == 0
  {
  }

  /** A record added to the last page is the chain's last record. */
  lemma {:induction false} AddedAtTail(pages: seq<HeapPage>, id: nat, tail: nat, record: Bytes)
    requires Forward(pages) && id < |pages| && TailOf(pages, id) == tail
    ensures var pages' := pages[tail := pages[tail].(records := pages[tail].records + [record])];
            Forward(pages') && TailOf(pages', id) == tail
              && RecordsFrom(pages', id) == RecordsFrom(pages, id) + [record]
    decreases |pages| - id
  {
    var pages' := pages[tail := pages[tail].(records := pages[tail].records + [record])];
    if pages[id].HasOverflow() {
      AddedAtTail(pages, pages[id].ptr, tail, record);
    }
  }

  /** A new page linked behind the last page continues the chain. */
  lemma {:induction false} LinkedAtTail(pages: seq<HeapPage>, id: nat, tail: nat, page: HeapPage)
    requires Forward(pages) && id < |pages| && TailOf(pages, id) == tail && page.flags == 0
    ensures var pages' := (pages + [page])[tail := pages[tail].SetHasOverflow(|pages|)];
            Forward(pages') && TailOf(pages', id) == |pages|
              && RecordsFrom(pages', id) == RecordsFrom(pages, id) + page.records
    decreases |pages| - id
  {
    var pages' := (pages + [page])[tail := pages[tail].SetHasOverflow(|pages|)];
    if pages[id].HasOverflow() {
      LinkedAtTail(pages, pages[id].ptr, tail, page);
    } else {
      RelinkedAt(pages, id, page);
    }
  }

  /** On a page without flags the records can be read back, whatever their number, behind those that
      were there. */
  lemma PlainPageRoundTrip(pages: seq<HeapPage>, pages': seq<HeapPage>, primary: nat, records: seq<Bytes>)
    requires Inserted(pages, pages', primary, records) && pages[primary].flags == 0
    ensures RecordsFrom(pages', primary) == pages[primary].records + records
  {
  }

  /** On a page with only the first flag they can be read back exactly when there are none, or when the
      chain at its pointer ends at this very page. */
  lemma FlaggedPageRoundTrip(pages: seq<HeapPage>, pages': seq<HeapPage>, primary: nat, records: seq<Bytes>)
    requires Inserted(pages, pages', primary, records) && pages[primary].flags == 1
    ensures RecordsFrom(pages', primary) == RecordsFrom(pages, primary) + records
        <==> records == [] || TailOf(pages, pages[primary].ptr) == primary
  {
    if TailOf(pages, pages[primary].ptr) != primary {
      assert pages'[primary] == pages[primary];
      assert |RecordsFrom(pages', primary)| == |RecordsFrom(pages, primary)|;
    }
  }

  /** A second insertion into a page whose records already overflow does not append: records that fit
      on the page come before those behind it, and otherwise all of those behind it are lost. */
  lemma SecondInsertion(pages: seq<HeapPage>, pages': seq<HeapPage>, primary: nat, records: seq<Bytes>)
    requires Inserted(pages, pages', primary, records) && pages[primary].flags == 2
    ensures RecordsFrom(pages, primary) == pages[primary].records + Behind(pages, primary)
    ensures RecordsFrom(pages', primary)
         == pages[primary].records + records + if FitOn(pages[primary], records) then Behind(pages, primary) else []
    ensures !FitOn(pages[primary], records) ==>
      |RecordsFrom(pages', primary)| == |RecordsFrom(pages, primary)| + |records| - |Behind(pages, primary)|
  {
  }

  lemma {:induction false} ChainGrows(pages: seq<HeapPage>, pages': seq<HeapPage>, id: nat, tail: nat,
                                      records: seq<Bytes>)
    requires Forward(pages) && Forward(pages') && id < |pages| <= |pages'| && TailOf(pages, id) == tail
    requires forall k {:trigger pages'[k]} :: 0 <= k < |pages| && k != tail ==> pages'[k] == pages[k]
    requires RecordsFrom(pages', tail) == pages[tail].records + records
    ensures RecordsFrom(pages', id) == RecordsFrom(pages, id) + records
    decreases |pages| - id
  {
    if pages[id].HasOverflow() {
      ChainGrows(pages, pages', pages[id].ptr, tail, records);
      TailNotBefore(pages, pages[id].ptr);
      assert pages'[id] == pages[id];
    }
  }

  lemma {:induction false} TailNotBefore(pages: seq<HeapPage>, id: nat)
    requires Forward(pages) && id < |pages|
    ensures TailOf(pages, id) >= id
    decreases |pages| - id
  {
    if pages[id].HasOverflow() { TailNotBefore(pages, pages[id].ptr); }
  }

  lemma {:induction false} NothingBehindTail(pages: seq<HeapPage>, id: nat)
    requires Forward(pages) && id < |pages|
    ensures !pages[TailOf(pages, id)].HasOverflow()
    decreases |pages| - id
  {
    if pages[id].HasOverflow() { NothingBehindTail(pages, pages[id].ptr); }
  }

  /** On a page with both flags, insertion begins at the end of the page's own chain: the records can be
      read back behind all that were there. */
  lemma BothFlagsRoundTrip(pages: seq<HeapPage>, pages': seq<HeapPage>, primary: nat, records: seq<Bytes>)
    requires Inserted(pages, pages', primary, records) && pages[primary].flags == 3
    ensures RecordsFrom(pages', primary) == RecordsFrom(pages, primary) + records
  {
    assert pages[primary].IsOverflowPage() && pages[primary].HasOverflow();
    NothingBehindTail(pages, pages[primary].ptr);
    ChainGrows(pages, pages', primary, InsertionStart(pages, primary), records);
  }

  /** The first flag at work: with a page 0 allocated before it, a record inserted into a newly allocated
      primary page goes to page 0, and the primary page reads back empty. */
  method PrimaryMisplaces(record: Bytes) returns (heap: Heap, zero: seq<Bytes>, primary: seq<Bytes>)
    requires |record| <= MAX_RECORD
    ensures fresh(heap) && heap.Valid() && |heap.pages| >= 2 && heap.pages[1].flags == 1
    ensures zero == RecordsFrom(heap.pages, 0) == [record]
    ensures primary == RecordsFrom(heap.pages, 1) == []
  {
    heap := new Heap();
    var first := heap.Allocate();
    var second := heap.AllocatePrimary();
    ghost var was := heap.pages;
    var done := heap.InsertRecords(second, [record]);
    MisplacedRecord(was, heap.pages, record);
    zero := heap.GetRecord(first);
    primary := heap.GetRecord(second);
  }

  lemma MisplacedRecord(pages: seq<HeapPage>, pages': seq<HeapPage>, record: Bytes)
    requires Inserted(pages, pages', 1, [record]) && pages == [HeapPage(0, [], 0, 0), HeapPage(1, [], 1, 0)]
    ensures RecordsFrom(pages', 0) == [record] && RecordsFrom(pages', 1) == []
  {
    assert InsertionStart(pages, 1) == 0;
    assert pages'[1] == pages[1];
  }
}
