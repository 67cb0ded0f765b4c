/** The B+ tree over its index pages and heap pages. */
module BplusTrees {
  import opened Wrappers
  import opened IndexPages
  import opened TreeInv
  import opened TreeSplit
  import opened TreeContents
  import opened TreePath
  import opened TreeSteps
  import opened TreeShift
  import opened TreeDelete
  import opened TreeBorrow
  import opened TreeMerge
  import opened TreeRelabel
  import opened TreeRepair
  import opened TreeFind
  import opened LittleEndian
  import HP = HeapPages

  /** The records under each key, by way of its heap page. */
  function EntriesOf(contents: map<nat, nat>, heap: map<nat, seq<Bytes>>): map<nat, seq<Bytes>> {
    map k | k in contents && contents[k] in heap :: heap[contents[k]]
  }

  /** A heap page that no key names changes no entry. */
  lemma OtherHeapPage(contents: map<nat, nat>, heap: map<nat, seq<Bytes>>, id: nat, records: seq<Bytes>)
    requires id !in heap && forall k {:trigger contents[k]} :: k in contents ==> contents[k] in heap
    ensures EntriesOf(contents, heap[id := records]) == EntriesOf(contents, heap)
  {
  }

  lemma NewEntry(contents: map<nat, nat>, heap: map<nat, seq<Bytes>>, key: nat, id: nat)
    requires id in heap
    ensures EntriesOf(contents[key := id], heap) == EntriesOf(contents, heap)[key := heap[id]]
  {
  }

  lemma SameKeys(contents: map<nat, nat>, heap: map<nat, seq<Bytes>>)
    requires forall k {:trigger contents[k]} :: k in contents ==> contents[k] in heap
    ensures forall k :: k in EntriesOf(contents, heap) <==> k in contents
  {
  }

  class BplusTree {
    var pages: Pages
    var heap: map<nat, seq<Bytes>>
    var rootId: nat
    var nextId: nat
    var nextHeap: nat
    ghost var metas: Metas
    ghost var contents: map<nat, nat>

    ghost predicate InOrder()
      reads this`pages, this`metas, this`rootId, this`nextId, this`contents
    {
      TreeOk(pages, metas, rootId, nextId) && Stores(pages, metas, contents)
    }

    ghost predicate Valid()
      reads this
    {
      && InOrder()
      && (forall k {:trigger contents[k]} :: k in contents ==> contents[k] in heap)
      && (forall h {:trigger heap[h]} :: h in heap ==> h < nextHeap)
    }

    /** The map the tree stands for. */
    ghost function Entries(): map<nat, seq<Bytes>>
      reads this
    {
      EntriesOf(contents, heap)
    }

    /** The pages from the root to the leaf for `key`. */
    ghost function Trail(key: nat): seq<nat>
      reads this`pages, this`metas, this`rootId
    {
      if rootId in metas then Descent(pages, rootId, key, metas[rootId].ht) else []
    }

    /** Lookups miss all keys of some range, one of them stored, and find the rest. */
    ghost predicate Lossy()
      reads this
    {
      rootId in metas && exists lo, hi :: Loses(pages, rootId, metas[rootId].ht, contents, lo, hi)
    }

    /** Lookups find exactly the contents, whether or not the pages are in order. */
    ghost predicate AllFound()
      reads this
    {
      rootId in metas && Finds(pages, rootId, metas[rootId].ht, contents)
    }

    /** An empty tree: one page, root and leaf. */
    constructor ()
      ensures Valid() && Entries() == map[] && Roomy(pages, metas)
    {
      pages := map[0 := Page(0, Root, true, 0, [])];
      heap := map[];
      rootId := 0;
      nextId := 1;
      nextHeap := 0;
      metas := map[0 := Meta(0, KEY_LIMIT, 0)];
      contents := map[];
      new;
      assert NodeOk(pages, metas, rootId, nextId, 0);
    }

    /** The records stored under `key`. */
    method Get(key: nat) returns (r: Result<seq<Bytes>>)
      requires Valid() && key < KEY_LIMIT
      ensures r == if key in Entries() then Ok(Entries()[key]) else Err("Entry not found")
    {
      var id := rootId;
      while true
        invariant id in metas && metas[id].lo <= key < metas[id].hi
        decreases metas[id].ht
      {
        SearchStep(pages, metas, rootId, nextId, id, key, contents);
        var p := pages[id];
        var i := LowerBound(p.cells, key);
        if FoundAt(p.cells, key, i) {
          if IsLeafLevel(p) {
            return Ok(heap[p.cells[i].ptr]);
          }
          id := if i + 1 < |p.cells| then p.cells[i + 1].ptr else p.ptr;
        } else {
          if IsLeafLevel(p) {
            return Err("Entry not found");
          }
          id := if i < |p.cells| then p.cells[i].ptr else p.ptr;
        }
      }
    }

    /** The way down to the leaf for `key`, and whether the leaf has it. */
    method Breadcrumbs(key: nat) returns (trail: seq<nat>, found: bool)
      requires InOrder() && key < KEY_LIMIT
      ensures trail == Trail(key) && |trail| > 0 && Path(metas, rootId, trail)
      ensures Last(trail) in metas && Last(trail) in pages
      ensures var m := metas[Last(trail)]; m.ht == 0 && m.lo <= key < m.hi
      ensures found <==> key in contents
      ensures found <==> FoundAt(pages[Last(trail)].cells, key, LowerBound(pages[Last(trail)].cells, key))
    {
      hide TreeOkBut, Stores, Path, Descent, FoundAt, IsLeafLevel;
      RootCovers(pages, metas, rootId, nextId, key);
      trail := [];
      var id := rootId;
      while true
        invariant id in metas && metas[id].lo <= key < metas[id].hi && Path(metas, rootId, trail + [id])
        invariant trail + Descent(pages, id, key, metas[id].ht) == Trail(key)
        decreases metas[id].ht
      {
        BreadcrumbStep(pages, metas, rootId, nextId, id, key, contents, trail);
        var p := pages[id];
        trail := trail + [id];
        var i := LowerBound(p.cells, key);
        if FoundAt(p.cells, key, i) {
          if IsLeafLevel(p) {
            return trail, true;
          }
          id := if i + 1 < |p.cells| then p.cells[i + 1].ptr else p.ptr;
        } else {
          if IsLeafLevel(p) {
            return trail, false;
          }
          id := if i < |p.cells| then p.cells[i].ptr else p.ptr;
        }
      }
    }

    // -------------------------------------------------------------- insertion

    /** Moves the upper half of a full page to a new page. */
    method SplitPage(over: nat) returns (right: nat, sep: nat)
      requires TreeOk(pages, metas, rootId, nextId) && over in metas && over in pages && |pages[over].cells| == ORDER
      modifies this`pages, this`nextId
      ensures right == old(nextId) && nextId == right + 1 && sep == PromotedKey(old(pages[over]))
      ensures pages == SplitPages(old(pages), over, right)
    {
      hide Rebuild;
      assert NodeOk(pages, metas, rootId, nextId, over);
      var p := pages[over];
      var split := (|p.cells| + 1) / 2;
      sep := p.cells[split].key;
      right := nextId;
      nextId := nextId + 1;
      pages := pages[right := Page(right, if IsLeafLevel(p) then Leaf else Internal, false, 0, [])];
      HalvesRebuilt(p, right, pages[right]);
      if IsLeafLevel(p) {
        pages := pages[over := Rebuild(p, p.cells[..split], Leaf, over, right).value];
        pages := pages[right := Rebuild(pages[right], [p.cells[split]] + p.cells[split + 1..], Leaf, right,
                                        p.ptr).value];
      } else {
        pages := pages[over := Rebuild(p, p.cells[..split], Internal, over, p.cells[split].ptr).value];
        pages := pages[right := Rebuild(pages[right], p.cells[split + 1..], Internal, right, p.ptr).value];
      }
    }

    /** Gives the parent the new page in the split one's place, and the split one before it. */
    method AddSeparator(par: nat, over: nat, right: nat, sep: nat, ghost j: nat) returns (r: Result<nat>)
      requires par in pages && TakesSeparator(pages[par], j, over, sep) && pages[par].id == par
      modifies this`pages
      ensures r == if |old(pages[par]).cells| < ORDER then Ok(|old(pages[par]).cells| + 1) else Err("Page overflow")
      ensures pages == old(pages)[par := if r.Ok? then ParentAfterSplit(old(pages[par]), j, sep, over, right)
                                         else SwapChild(old(pages[par]), j, right)]
    {
      hide Rebuild, AddCell, TakesSeparator, ParentAfterSplit, SwapChild;
      var p := pages[par];
      SeparatorAdded(p, j, over, right, sep);
      var fixed := Redirect(p.cells, over, right);
      var q := Rebuild(p, fixed, p.kind, par, if p.ptr == over then right else p.ptr).value;
      pages := pages[par := q];
      var added := AddCell(q, sep, over);
      if added.Err? {
        return Err(added.error);
      }
      pages := pages[par := added.value];
      return Ok(|added.value.cells|);
    }

    /** Puts a new root above the two halves of the old one. */
    method GrowRoot(over: nat, right: nat, sep: nat) returns (top: nat)
      requires over in pages && over < nextId
      modifies this`pages, this`nextId
      ensures top == old(nextId) && nextId == top + 1
      ensures pages
        == old(pages)[top := Page(top, Root, false, right, [Cell(sep, over)])][over := Demoted(old(pages[over]))]
    {
      top := nextId;
      nextId := nextId + 1;
      var blank := Page(top, Root, false, right, []);
      AddCellAt(blank, sep, over, 0);
      assert [] + [Cell(sep, over)] + [] == [Cell(sep, over)];
      pages := pages[top := AddCell(blank, sep, over).value];
      pages := pages[over := Demoted(pages[over])];
    }

    /** Splits the full page at the end of the trail, and its ancestors as far as they become full.
        Returns the new root, if there is one. */
    method HandleOverfull(trail: seq<nat>) returns (r: Result<Option<nat>>)
      requires InOrder() && Path(metas, rootId, trail)
      requires Last(trail) in metas && Last(trail) in pages && |pages[Last(trail)].cells| == ORDER
      modifies this`pages, this`metas, this`nextId
      ensures r.Ok? <==> SplitFits(old(pages), trail)
      ensures r.Err? ==> r.error == "Page overflow" && Lossy()
      ensures r.Ok? ==>
        TreeOk(pages, metas, if r.value.Some? then r.value.value else rootId, nextId) && Stores(pages, metas, contents)
      ensures r.Ok? && old(RoomyBut(pages, metas, Last(trail))) ==> Roomy(pages, metas)
      decreases |trail|
    {
      hide TreeOkBut, Stores, ParentAfterSplit, SplitMetas, Roomy, RoomyBut, Over, Loses;
      var over := Last(trail);
      ghost var was, next := pages, nextId;
      if |trail| > 1 {
        var par := trail[|trail| - 2];
        PathUp(metas, rootId, trail);
        ParentTakesSeparator(pages, metas, rootId, nextId, par, over);
        SplitStep(was, metas, rootId, next, trail, contents);
        SplitParts(was, metas, rootId, next, par, over);
        var right, sep := SplitPage(over);
        ghost var j := PositionOf(pages[par].cells, over);
        var n := AddSeparator(par, over, right, sep, j);
        if n.Err? {
          StuckLoses(was, metas, rootId, next, over, par, j, pages, contents);
          return Err(n.error);
        }
        metas := SplitMetas(was, metas, over, right);
        if n.value >= ORDER {
          r := HandleOverfull(trail[..|trail| - 1]);
        } else {
          r := Ok(None);
        }
      } else {
        SplitRootStep(was, metas, rootId, next, contents);
        var right, sep := SplitPage(over);
        var top := GrowRoot(over, right, sep);
        metas := SplitRootMetas(was, metas, over, next);
        r := Ok(Some(top));
      }
    }

    /** One record into a heap page, if there is room for it and its slot. */
    method AddRecord(heapId: nat, record: Bytes) returns (r: Result<()>)
      requires heapId in heap && HP.RecordBytes(heap[heapId]) <= HP.SPACE
      modifies this`heap
      ensures r
        == if HP.RecordBytes(old(heap[heapId]) + [record]) <= HP.SPACE then Ok(()) else Err("Heap page overflow!")
      ensures heap == if r.Ok? then old(heap)[heapId := old(heap[heapId]) + [record]] else old(heap)
    {
      var free := HP.SPACE - HP.RecordBytes(heap[heapId]);
      var more := heap[heapId] + [record];
      assert more[..|more| - 1] == heap[heapId];
      if free < |record| + HP.SLOT {
        return Err("Heap page overflow!");
      }
      heap := heap[heapId := more];
      r := Ok(());
    }

    /** Appends records to a heap page, up to the first one that does not fit. */
    method AddRecords(heapId: nat, records: seq<Bytes>) returns (r: Result<()>)
      requires heapId in heap && HP.RecordBytes(heap[heapId]) <= HP.SPACE
      modifies this`heap
      ensures r
        == if HP.RecordBytes(old(heap[heapId]) + records) <= HP.SPACE then Ok(()) else Err("Heap page overflow!")
      ensures heapId in heap && old(heap[heapId]) <= heap[heapId] <= old(heap[heapId]) + records
      ensures r.Ok? ==> heap[heapId] == old(heap[heapId]) + records
      ensures heap == old(heap)[heapId := heap[heapId]]
    {
      ghost var was := heap[heapId];
      assert was + records[..0] == was;
      var i := 0;
      while i < |records|
        invariant i <= |records| && heapId in heap && heap[heapId] == was + records[..i]
          && heap == old(heap)[heapId := was + records[..i]]
        invariant HP.RecordBytes(was + records[..i]) <= HP.SPACE
      {
        assert (was + records[..i]) + [records[i]] == was + records[..i + 1];
        HP.PrefixFits(was, records, i + 1);
        var added := AddRecord(heapId, records[i]);
        if added.Err? {
          return added;
        }
        i := i + 1;
      }
      assert records[..i] == records;
      r := Ok(());
    }

    /** Adds a cell for a new key to its leaf, and splits what becomes full. */
    method AddToLeaf(trail: seq<nat>, key: nat, heapId: nat) returns (r: Result<()>)
      requires InOrder() && |trail| > 0 && Path(metas, rootId, trail) && key !in contents
      requires Last(trail) in metas && Last(trail) in pages
      requires var m := metas[Last(trail)]; m.ht == 0 && m.lo <= key < m.hi
      modifies this`pages, this`metas, this`nextId, this`rootId, this`contents
      ensures r.Ok? <==> InsertFits(old(pages), trail)
      ensures r.Ok? ==> InOrder() && contents == old(contents)[key := heapId]
      ensures |old(pages)[Last(trail)].cells| >= ORDER ==> unchanged(this)
      ensures r.Err? && |old(pages)[Last(trail)].cells| < ORDER ==> contents == old(contents)[key := heapId] && Lossy()
      ensures old(Roomy(pages, metas)) ==> r.Ok? && Roomy(pages, metas)
    {
      hide TreeOkBut, Stores, Path, SplitFits, RoomyBut, Roomy, AddCell, FoundAt;
      var leaf := Last(trail);
      if Roomy(pages, metas) { RoomyFits(pages, metas, rootId, nextId, trail); }
      LeafTakes(pages, metas, rootId, nextId, trail, key, heapId, contents);
      var added := AddCell(pages[leaf], key, heapId);
      if added.Err? {
        return Err(added.error);
      }
      pages := pages[leaf := added.value];
      contents := contents[key := heapId];
      if |added.value.cells| >= ORDER {
        var top := HandleOverfull(trail);
        if top.Err? {
          return Err(top.error);
        }
        if top.value.Some? {
          rootId := top.value.value;
        }
      }
      r := Ok(());
    }

    /** Adds a key.  It fails on a known key, on records that do not fit a heap page, and when a page
        that must take a cell has no room; otherwise the map gains exactly this entry.  When the page
        without room is the leaf, nothing is lost; when it is a parent, the keys of half a page are. */
    method Insert(key: nat, records: seq<Bytes>) returns (r: Result<()>)
      requires Valid() && key < KEY_LIMIT
      modifies this
      ensures r.Ok? <==>
        key !in old(Entries()) && HP.RecordBytes(records) <= HP.SPACE && InsertFits(old(pages), old(Trail(key)))
      ensures r.Ok? ==> Valid() && Entries() == old(Entries())[key := records]
      ensures key in old(Entries()) ==> r == Err("Key already exists")
      ensures r.Err? && (key in old(Entries()) || HP.RecordBytes(records) > HP.SPACE || old(LeafFull(key)))
        ==> Valid() && Entries() == old(Entries()) && pages == old(pages) && rootId == old(rootId)
      ensures r.Err? && key !in old(Entries()) && HP.RecordBytes(records) <= HP.SPACE && !old(LeafFull(key))
        ==> contents == old(contents)[key := old(nextHeap)] && Lossy()
      ensures old(Roomy(pages, metas)) && r.Ok? ==> Roomy(pages, metas)
      ensures old(Roomy(pages, metas)) && key !in old(Entries()) && HP.RecordBytes(records) <= HP.SPACE ==> r.Ok?
    {
      hide InOrder, Path, Trail, Roomy, HP.RecordBytes, InsertFits, Lossy, EntriesOf;
      SameKeys(contents, heap);
      var trail, found := Breadcrumbs(key);
      if found {
        return Err("Key already exists");
      }
      var heapId := nextHeap;
      nextHeap := nextHeap + 1;
      heap := heap[heapId := []];
      EmptyHeapPage();
      assert [] + records == records;
      var stored := AddRecords(heapId, records);
      assert heap == old(heap)[heapId := heap[heapId]];
      OtherHeapPage(contents, old(heap), heapId, heap[heapId]);
      if stored.Err? {
        return stored;
      }
      NewEntry(contents, heap, key, heapId);
      r := AddToLeaf(trail, key, heapId);
    }

    /** The leaf for `key` has no room. */
    ghost predicate LeafFull(key: nat)
      reads this
    {
      |Trail(key)| > 0 && Last(Trail(key)) in pages && |pages[Last(Trail(key))].cells| >= ORDER
    }

    // -------------------------------------------------------------- deletion

    /** A page's position under its parent, and its neighbours there. */
    method FindSiblings(child: nat, parent: Page) returns (childIdx: nat, left: Option<nat>, right: Option<nat>)
      ensures childIdx == PositionOf(parent.cells, child)
      ensures left == if childIdx > 0 then Some(Child(parent, childIdx - 1)) else None
      ensures right == if childIdx < |parent.cells| then Some(Child(parent, childIdx + 1)) else None
    {
      hide PositionOf;
      childIdx := |parent.cells|;
      var i := 0;
      while i < |parent.cells|
        invariant i <= |parent.cells| && childIdx == |parent.cells|
        invariant forall k :: 0 <= k < i ==> parent.cells[k].ptr != child
      {
        if parent.cells[i].ptr == child {
          childIdx := i;
          break;
        }
        i := i + 1;
      }
      if childIdx == |parent.cells| && parent.ptr == child {
        left := if |parent.cells| == 0 then None else Some(parent.cells[|parent.cells| - 1].ptr);
        right := None;
        return;
      }
      left := if childIdx > 0 then Some(parent.cells[childIdx - 1].ptr) else None;
      right := if childIdx + 1 < |parent.cells| then Some(parent.cells[childIdx + 1].ptr)
               else if childIdx < |parent.cells| then Some(parent.ptr) else None;
    }

    /** Replaces separator `i` of the parent. */
    method ReplaceSeparator(par: nat, i: nat, sep: nat, child: nat)
      requires par in pages && i < |pages[par].cells|
      requires RemoveCellAt(pages[par], i) == Ok(pages[par].(cells := Without(pages[par].cells, i)))
      requires AddCell(pages[par].(cells := Without(pages[par].cells, i)), sep, child)
        == Ok(NewSeparator(pages[par], i, sep))
      modifies this`pages
      ensures pages == old(pages)[par := NewSeparator(old(pages[par]), i, sep)]
    {
      pages := pages[par := RemoveCellAt(pages[par], i).value];
      pages := pages[par := AddCell(pages[par], sep, child).value];
    }

    /** Moves the left neighbour's last cell over. */
    method RedistributeFromLeft(left: nat, x: nat, par: nat, childIdx: nat)
      requires childIdx > 0 && LeftLends(pages, metas, rootId, nextId, par, childIdx - 1, left, x)
        && Stores(pages, metas, contents)
      modifies this`pages, this`metas
      ensures InOrder()
      ensures pages == old(pages)[left := GiveLast(old(pages[left]))]
                                 [x := TakeLast(old(pages[left]), old(pages[x]),
                                                old(pages[par]).cells[childIdx - 1].key)]
                                 [par := NewSeparator(old(pages[par]), childIdx - 1, Last1(old(pages[left])).key)]
    {
      hide TreeOkBut, Stores, GiveLast, TakeLast, RemoveCellAt, AddCell, Rebuild, NewSeparator;
      var i := childIdx - 1;
      ghost var was := pages;
      LastInside(pages, metas, rootId, nextId, par, i, left, x);
      NeighbourRanges(pages, metas, rootId, nextId, x, par, i, left, x);
      LeftBorrowSteps(pages, metas, rootId, nextId, par, i, left, x);
      var borrowed := Last1(pages[left]);
      SeparatorBetween(pages, metas, rootId, nextId, x, par, i, left, x, borrowed.key);
      BorrowFromLeft(pages, metas, rootId, nextId, par, i, left, x, contents);
      pages := pages[left := RemoveCellAt(pages[left], |pages[left].cells| - 1).value];
      if pages[x].kind == Leaf {
        pages := pages[x := AddCell(pages[x], borrowed.key, borrowed.ptr).value];
        var newSeparator := pages[x].cells[0].key;
        ReplaceSeparator(par, i, newSeparator, left);
      } else {
        var sep := pages[par].cells[i].key;
        var leftOldRightmost := pages[left].ptr;
        pages := pages[x := Rebuild(pages[x], [Cell(sep, leftOldRightmost)] + pages[x].cells, pages[x].kind, x,
            pages[x].ptr).value];
        ReplaceSeparator(par, i, borrowed.key, left);
        pages := pages[left := SetHeaderPtr(pages[left], borrowed.ptr)];
      }
      assert pages == was[left := GiveLast(was[left])][x := TakeLast(was[left], was[x], was[par].cells[i].key)]
                         [par := NewSeparator(was[par], i, borrowed.key)];
      metas := ShiftMetas(metas, left, x, borrowed.key);
    }

    /** Moves the right neighbour's first cell over. */
    method RedistributeFromRight(x: nat, right: nat, par: nat, childIdx: nat)
      requires RightLends(pages, metas, rootId, nextId, par, childIdx, x, right) && Stores(pages, metas, contents)
      modifies this`pages, this`metas
      ensures InOrder()
      ensures pages == old(pages)[x := TakeFirst(old(pages[x]), old(pages[right]), old(pages[par]).cells[childIdx].key)]
                                 [right := GiveFirst(old(pages[right]))]
                                 [par := NewSeparator(old(pages[par]), childIdx,
                                     old(pages[right]).cells[CutAt(old(pages[right]))].key)]
    {
      hide TreeOkBut, Stores, GiveFirst, TakeFirst, RemoveCellAt, AddCell, NewSeparator;
      ghost var was := pages;
      CutInside(pages, metas, rootId, nextId, par, childIdx, x, right);
      NeighbourRanges(pages, metas, rootId, nextId, x, par, childIdx, x, right);
      RightBorrowSteps(pages, metas, rootId, nextId, par, childIdx, x, right);
      ghost var cut := pages[right].cells[CutAt(pages[right])].key;
      SeparatorBetween(pages, metas, rootId, nextId, x, par, childIdx, x, right, cut);
      BorrowFromRight(pages, metas, rootId, nextId, par, childIdx, x, right, contents);
      var borrowed := pages[right].cells[0];
      pages := pages[right := RemoveCellAt(pages[right], 0).value];
      if pages[x].kind == Leaf {
        pages := pages[x := AddCell(pages[x], borrowed.key, borrowed.ptr).value];
        var newSeparator := pages[right].cells[0].key;
        ReplaceSeparator(par, childIdx, newSeparator, x);
      } else {
        var sep := pages[par].cells[childIdx].key;
        var oldPtr := pages[x].ptr;
        pages := pages[x := AddCell(pages[x], sep, oldPtr).value];
        pages := pages[x := SetHeaderPtr(pages[x], borrowed.ptr)];
        ReplaceSeparator(par, childIdx, borrowed.key, x);
      }
      assert pages
        == was[x := TakeFirst(was[x], was[right], was[par].cells[childIdx].key)][right := GiveFirst(was[right])]
                         [par := NewSeparator(was[par], childIdx, cut)];
      metas := ShiftMetas(metas, x, right, cut);
    }

    /** Moves the right page's cells into the left page and drops the separator between them.  When
        they do not fit, the left page keeps those that do. */
    method MergeInto(left: nat, right: nat, par: nat, i: nat, ghost x: nat) returns (r: Result<()>)
      requires Neighbours(pages, metas, rootId, nextId, x, par, i, left, right) && (x == left || x == right)
      requires left in pages && right in pages && Stores(pages, metas, contents)
      requires |pages[left].cells| <= DEGREE && |pages[right].cells| <= DEGREE && |pages[x].cells| < DEGREE
      modifies this`pages, this`metas
      ensures var l, q := old(pages[left]), old(pages[right]);
              r == if MergeNeeds(IsLeafLevel(l), |l.cells|, |q.cells|) <= ORDER then Ok(()) else Err("Page overflow")
      ensures r.Ok? ==> TreeOkBut(pages, metas, rootId, nextId, par) && Stores(pages, metas, contents)
      ensures r.Ok? ==>
        pages == old(pages)[left := Merged(old(pages[left]), old(pages[right]), old(pages[par]).cells[i].key)]
                           [par := ParentAfterJoin(old(pages[par]), i, left)]
      ensures r.Ok? ==> left in old(metas) && right in old(metas) && metas == JoinMetas(old(metas), left, right)
      ensures r.Err? ==> AllFound()
    {
      hide TreeOkBut, Stores, Merged, RemoveCellAt, Rebuild, ParentAfterJoin, Shaped, Wired;
      NeighbourRanges(pages, metas, rootId, nextId, x, par, i, left, right);
      MergeSteps(pages, metas, rootId, nextId, x, par, i, left, right);
      MergedParent(pages, metas, rootId, nextId, x, par, i, left, right);
      if |Merged(pages[left], pages[right], pages[par].cells[i].key).cells| <= ORDER {
        MergeOk(pages, metas, rootId, nextId, x, par, i, left, right, contents);
      }
      var l, q := pages[left], pages[right];
      var merged := if q.kind == Leaf then l.cells + q.cells
                    else l.cells + [Cell(pages[par].cells[i].key, l.ptr)] + q.cells;
      var rebuilt := Rebuild(l, merged, if q.kind == Leaf then Leaf else Internal, left, q.ptr);
      if rebuilt.Err? {
        MergeDoesNotFit(pages, metas, rootId, nextId, x, par, i, left, right, contents);
        pages := pages[left := RebuildKept(l, merged, if q.kind == Leaf then Leaf else Internal, left, q.ptr)];
        return Err(rebuilt.error);
      }
      pages := pages[left := rebuilt.value];
      var p := RemoveCellAt(pages[par], i).value;
      var fixed := Redirect(p.cells, right, left);
      pages := pages[par := Rebuild(p, fixed, p.kind, par, if p.ptr == right then left else p.ptr).value];
      metas := JoinMetas(metas, left, right);
      r := Ok(());
    }

    method MergeWithLeft(left: nat, x: nat, par: nat, childIdx: nat, ancestors: seq<nat>) returns (r: Result<()>)
      requires childIdx > 0 && Neighbours(pages, metas, rootId, nextId, x, par, childIdx - 1, left, x)
      requires left in pages && x in pages && IsLeafLevel(pages[left]) == IsLeafLevel(pages[x])
        && Stores(pages, metas, contents)
      requires |pages[left].cells| <= DEGREE && |pages[x].cells| < DEGREE
      requires Path(metas, rootId, ancestors) && Last(ancestors) == par
      modifies this`pages, this`metas, this`rootId
      ensures r.Ok? ==> InOrder()
      ensures r.Ok? <==> MergeFits(old(pages), old(rootId), left, x, ancestors)
      ensures r.Err? ==> r.error == "Page overflow" && AllFound()
      decreases |ancestors|, 1
    {
      hide TreeOkBut, Stores, Merged, ParentAfterJoin, CascadeFits;
      NeighbourRanges(pages, metas, rootId, nextId, x, par, childIdx - 1, left, x);
      ghost var was, metas0, n := pages, metas, |pages[par].cells| - 1;
      r := MergeInto(left, x, par, childIdx - 1, x);
      if r.Err? {
        return;
      }
      TrailAfterMerge(was, pages, metas0, rootId, nextId, x, childIdx - 1, left, x, ancestors, n);
      MergedParent(was, metas0, rootId, nextId, x, par, childIdx - 1, left, x);
      r := CheckParentUnderfull(par, ancestors);
    }

    method MergeWithRight(x: nat, right: nat, par: nat, childIdx: nat, ancestors: seq<nat>) returns (r: Result<()>)
      requires Neighbours(pages, metas, rootId, nextId, x, par, childIdx, x, right)
      requires right in pages && x in pages && IsLeafLevel(pages[right]) == IsLeafLevel(pages[x])
        && Stores(pages, metas, contents)
      requires |pages[right].cells| <= DEGREE && |pages[x].cells| < DEGREE
      requires Path(metas, rootId, ancestors) && Last(ancestors) == par
      modifies this`pages, this`metas, this`rootId
      ensures r.Ok? ==> InOrder()
      ensures r.Ok? <==> MergeFits(old(pages), old(rootId), x, right, ancestors)
      ensures r.Err? ==> r.error == "Page overflow" && AllFound()
      decreases |ancestors|, 1
    {
      hide TreeOkBut, Stores, Merged, ParentAfterJoin, CascadeFits;
      NeighbourRanges(pages, metas, rootId, nextId, x, par, childIdx, x, right);
      ghost var was, metas0, n := pages, metas, |pages[par].cells| - 1;
      r := MergeInto(x, right, par, childIdx, x);
      if r.Err? {
        return;
      }
      TrailAfterMerge(was, pages, metas0, rootId, nextId, x, childIdx, x, right, ancestors, n);
      MergedParent(was, metas0, rootId, nextId, x, par, childIdx, x, right);
      r := CheckParentUnderfull(par, ancestors);
    }

    /** After a merge: an empty root gives way to its only child; any other short parent is repaired. */
    method CheckParentUnderfull(par: nat, ancestors: seq<nat>) returns (r: Result<()>)
      requires TreeOkBut(pages, metas, rootId, nextId, par) && Stores(pages, metas, contents)
      requires Path(metas, rootId, ancestors) && Last(ancestors) == par && par in metas && par in pages
      requires metas[par].ht > 0
      modifies this`pages, this`metas, this`rootId
      ensures r.Ok? ==> InOrder()
      ensures r.Ok? <==> par == old(rootId) || |old(pages[par]).cells| >= DEGREE
                         || CascadeFits(old(pages), par, |old(pages[par]).cells|, ancestors[..|ancestors| - 1])
      ensures r.Err? ==> r.error == "Page overflow" && AllFound()
      decreases |ancestors|, 0
    {
      hide CascadeFits, Stores, Disjoint, Path, Over;
      if par == rootId {
        if |pages[par].cells| == 0 {
          var newRoot := pages[par].ptr;
          CollapseOk(pages, metas, rootId, nextId);
          CollapseHolds(pages, metas, rootId, nextId, contents);
          pages := pages[newRoot := SetPageKind(pages[newRoot], Root)];
          metas := metas - {par};
          rootId := newRoot;
        } else {
          NotShort(pages, metas, rootId, nextId, par);
        }
        return Ok(());
      }
      if |pages[par].cells| < DEGREE {
        UpFromPage(metas, rootId, ancestors);
        r := HandleUnderfull(par, ancestors[..|ancestors| - 1]);
      } else {
        NotShort(pages, metas, rootId, nextId, par);
        r := Ok(());
      }
    }

    /** Repairs a short page: borrows from the left, else from the right, else merges with the left,
        else with the right.  It fails exactly when a merge on the way up does not fit; a page without
        ancestors is left as it is. */
    method HandleUnderfull(x: nat, ancestors: seq<nat>) returns (r: Result<()>)
      requires TreeOkBut(pages, metas, rootId, nextId, x) && Stores(pages, metas, contents)
      requires |ancestors| > 0 ==> Path(metas, rootId, ancestors) && Over(metas, Last(ancestors), x)
      requires x in pages && |pages[x].cells| < DEGREE
      modifies this`pages, this`metas, this`rootId
      ensures |ancestors| > 0 && r.Ok? ==> InOrder()
      ensures |ancestors| == 0 ==> r.Ok? && pages == old(pages) && metas == old(metas) && rootId == old(rootId)
      ensures r.Ok? <==> CascadeFits(old(pages), x, |old(pages[x]).cells|, ancestors)
      ensures r.Err? ==> r.error == "Page overflow" && AllFound()
      decreases |ancestors|, 2
    {
      hide TreeOkBut, Stores, Path, Over, MergeFits, Neighbours, PositionOf, AllFound, MergeNeeds;
      if |ancestors| == 0 {
        return Ok(());
      }
      var par := Last(ancestors);
      HasNeighbour(pages, metas, rootId, nextId, x, par);
      var childIdx, left, right := FindSiblings(x, pages[par]);
      if left.Some? && |pages[left.value].cells| > DEGREE {
        RedistributeFromLeft(left.value, x, par, childIdx);
        return Ok(());
      }
      if right.Some? && |pages[right.value].cells| > DEGREE {
        RedistributeFromRight(x, right.value, par, childIdx);
        return Ok(());
      }
      RepairByMerge(pages, rootId, metas, x, ancestors);
      if left.Some? {
        r := MergeWithLeft(left.value, x, par, childIdx, ancestors);
      } else {
        r := MergeWithRight(x, right.value, par, childIdx, ancestors);
      }
    }

    /** After removing `oldKey` from a leaf that is not short: if an ancestor has it as a separator, the
        leaf's first key takes its place. */
    method PropagateKeyUpdate(oldKey: nat, child: nat, ancestors: seq<nat>)
      requires InOrder() && child in metas && child in pages && metas[child].ht == 0
      requires metas[child].lo <= oldKey < metas[child].hi && oldKey !in contents
      requires forall i {:trigger ancestors[i]} :: 0 <= i < |ancestors| ==>
        ancestors[i] in metas && metas[ancestors[i]].ht > 0
      modifies this`pages, this`metas
      ensures InOrder()
      ensures |old(pages[child]).cells| > 0 ==> forall i {:trigger ancestors[i]} :: 0 <= i < |ancestors| ==>
        ancestors[i] in pages
          && !FoundAt(pages[ancestors[i]].cells, oldKey, LowerBound(pages[ancestors[i]].cells, oldKey))
      ensures forall id {:trigger pages[id]} :: id in pages <==> id in old(pages)
      ensures forall id {:trigger pages[id]} :: id in pages ==> |pages[id].cells| == |old(pages)[id].cells|
    {
      hide TreeOkBut, Stores, FoundAt, RemoveCellAt, Rebuild;
      PagesBelow(pages, metas, rootId, nextId, nextId);
      if |pages[child].cells| == 0 {
        return;
      }
      var newFirst := pages[child].cells[0].key;
      var i := |ancestors|;
      while i > 0
        invariant 0 <= i <= |ancestors|
        invariant forall j {:trigger ancestors[j]} :: i <= j < |ancestors| ==>
          ancestors[j] in pages
            && !FoundAt(pages[ancestors[j]].cells, oldKey, LowerBound(pages[ancestors[j]].cells, oldKey))
      {
        i := i - 1;
        var a := ancestors[i];
        var idx := LowerBound(pages[a].cells, oldKey);
        if FoundAt(pages[a].cells, oldKey, idx) {
          FirstIsNew(pages, metas, rootId, nextId, child, oldKey, contents, a, idx);
          RenameOk(pages, metas, rootId, nextId, a, idx, child, oldKey, contents);
          RenamedGone(pages, metas, rootId, nextId, a, idx, child, oldKey);
          var p := pages[a];
          var updated := p.cells[idx := p.cells[idx].(key := newFirst)];
          pages := pages[a := Rebuild(p, updated, p.kind, p.id, p.ptr).value];
          metas := RenamedMetas(metas, oldKey, newFirst);
          return;
        }
      }
    }

    /** Removes a key.  It fails on an unknown key and when a merge does not fit in one page; otherwise
        the map loses exactly this entry.  After a merge that does not fit the key is gone all the
        same, and every other key is still found. */
    method Delete(key: nat) returns (r: Result<()>)
      requires Valid() && key < KEY_LIMIT
      modifies this
      ensures r.Ok? <==> key in old(Entries()) && DeleteFits(old(pages), old(Trail(key)))
      ensures r.Ok? ==> Valid() && Entries() == old(Entries()) - {key}
      ensures key !in old(Entries()) ==> r == Err("Key not found") && unchanged(this)
      ensures key in old(Entries()) && r.Err? ==>
        r == Err("Page overflow") && contents == old(contents) - {key} && AllFound()
    {
      hide InOrder, Path, Trail, DeleteFits;
      var trail, found := Breadcrumbs(key);
      if !found {
        return Err("Key not found");
      }
      r := RemoveFromTree(trail, key);
      assert r.Ok? ==> Entries() == old(Entries()) - {key};
    }

    method RemoveFromTree(trail: seq<nat>, key: nat) returns (r: Result<()>)
      requires InOrder() && |trail| > 0 && Path(metas, rootId, trail) && key in contents
      requires Last(trail) in metas && Last(trail) in pages
      requires var m := metas[Last(trail)]; m.ht == 0 && m.lo <= key < m.hi
      modifies this`pages, this`metas, this`rootId, this`contents
      ensures r.Ok? <==> DeleteFits(old(pages), trail)
      ensures contents == old(contents) - {key} && (r.Ok? ==> InOrder())
      ensures r.Err? ==> r.error == "Page overflow" && AllFound()
    {
      hide TreeOkBut, Stores, Path, Over, RemoveCellAt, CascadeFits, Without;
      var leaf := Last(trail);
      var ancestors := trail[..|trail| - 1];
      var idx := LowerBound(pages[leaf].cells, key);
      LeafGives(pages, metas, rootId, nextId, trail, key, contents);
      pages := pages[leaf := RemoveCellAt(pages[leaf], idx).value];
      contents := contents - {key};
      var remaining := |pages[leaf].cells|;
      if leaf == rootId {
        return Ok(());
      }
      if remaining >= DEGREE {
        PropagateKeyUpdate(key, leaf, ancestors);
        return Ok(());
      }
      r := HandleUnderfull(leaf, ancestors);
    }
  }

  lemma EmptyHeapPage()
    ensures HP.RecordBytes([]) == 0
  {
  }

  function Last1(p: Page): Cell
    requires |p.cells| > 0
  {
    p.cells[|p.cells| - 1]
  }
}
