/** An index page as the tree sees it: its header and its sorted cells.

    A cell's pointer is a child page on internal levels and a heap page on the leaf level.  In an
    internal page, child `i` is the pointer of cell `i`, and the last child is the header's `ptr`;
    in a leaf the header's `ptr` is the right neighbour.
  */
module IndexPages {
  import opened Wrappers

  const PAGE_SIZE: nat := 4096
  const HEADER_SIZE: nat := 22
  const KEY_SIZE: nat := 8
  const PTR_SIZE: nat := 8
  const SLOT_SIZE: nat := 4

  /** The most cells a page holds. */
  const ORDER: nat := (PAGE_SIZE - HEADER_SIZE) / (KEY_SIZE + PTR_SIZE + SLOT_SIZE)
  const FANOUT: nat := ORDER + 1
  const DEGREE: nat := FANOUT / 2

  lemma Constants()
    ensures ORDER == 203 && DEGREE == 102
  {
  }

  datatype Kind = Root | Internal | Leaf

  datatype Cell = Cell(key: nat, ptr: nat)

  datatype Page = Page(id: nat, kind: Kind, rootLeaf: bool, ptr: nat, cells: seq<Cell>)

  predicate IsLeafLevel(p: Page) {
    p.kind == Leaf || (p.kind == Root && p.rootLeaf)
  }

  ghost predicate Sorted(cells: seq<Cell>) {
    forall i, j {:trigger cells[i].key, cells[j].key} :: 0 <= i < j < |cells| ==> cells[i].key < cells[j].key
  }

  function Child(p: Page, i: nat): nat
    requires i <= |p.cells|
  {
    if i < |p.cells| then p.cells[i].ptr else p.ptr
  }

  // ---------------------------------------------------------------- searching

  /** How many keys are below `key`. */
  function LowerBound(cells: seq<Cell>, key: nat): (r: nat)
    ensures r <= |cells|
    ensures Sorted(cells) ==> forall i {:trigger cells[i].key} :: 0 <= i < |cells| ==> (i < r <==> cells[i].key < key)
  {
    if cells == [] then 0
    else if cells[|cells| - 1].key < key then |cells|
    else LowerBound(cells[..|cells| - 1], key)
  }

  predicate FoundAt(cells: seq<Cell>, key: nat, i: nat) {
    i < |cells| && cells[i].key == key
  }

  /** The child to descend into: to the right of an equal separator. */
  function ChildIndex(cells: seq<Cell>, key: nat): (r: nat)
    ensures r <= |cells|
    ensures Sorted(cells) ==> forall i {:trigger cells[i].key} :: 0 <= i < |cells| ==> (i < r <==> cells[i].key <= key)
  {
    var i := LowerBound(cells, key);
    if FoundAt(cells, key, i) then i + 1 else i
  }

  // ---------------------------------------------------------------- changing a page

  /** Adds a cell at its place in key order; a full page and a duplicate key are errors. */
  function AddCell(p: Page, key: nat, ptr: nat): Result<Page> {
    var i := LowerBound(p.cells, key);
    if |p.cells| >= ORDER then Err("Page overflow")
    else if FoundAt(p.cells, key, i) then Err("duplicate key")
    else Ok(p.(cells := p.cells[..i] + [Cell(key, ptr)] + p.cells[i..]))
  }

  function AddAll(p: Page, cells: seq<Cell>): Result<Page>
    decreases |cells|
  {
    if cells == [] then Ok(p)
    else
      var r := AddCell(p, cells[0].key, cells[0].ptr);
      if r.Err? then r else AddAll(r.value, cells[1..])
  }

  /** The page as `AddAll` leaves it, the cells in it that were added before one failed. */
  function AddAllKept(p: Page, cells: seq<Cell>): Page
    decreases |cells|
  {
    if cells == [] then p
    else
      var r := AddCell(p, cells[0].key, cells[0].ptr);
      if r.Err? then p else AddAllKept(r.value, cells[1..])
  }

  /** Rebuilds a page from the given cells; only a root that was a leaf stays one. */
  function Rebuild(was: Page, cells: seq<Cell>, kind: Kind, id: nat, ptr: nat): Result<Page> {
    AddAll(Page(id, kind, was.kind == Root && was.rootLeaf && kind == Root, ptr, []), cells)
  }

  /** The page as a rebuild leaves it, whether it succeeds or fails. */
  function RebuildKept(was: Page, cells: seq<Cell>, kind: Kind, id: nat, ptr: nat): Page {
    AddAllKept(Page(id, kind, was.kind == Root && was.rootLeaf && kind == Root, ptr, []), cells)
  }

  function Without(cells: seq<Cell>, i: nat): seq<Cell>
    requires i < |cells|
  {
    cells[..i] + cells[i + 1..]
  }

  function RemoveCellAt(p: Page, i: nat): Result<Page> {
    if i >= |p.cells| then Err("Cell index out of bounds")
    else Rebuild(p, Without(p.cells, i), p.kind, p.id, p.ptr)
  }

  function SetHeaderPtr(p: Page, ptr: nat): Page {
    p.(ptr := ptr)
  }

  function SetPageKind(p: Page, kind: Kind): Page {
    p.(kind := kind, rootLeaf := if kind == Root then p.rootLeaf || IsLeafLevel(p) else false)
  }

  // ---------------------------------------------------------------- what they do

  lemma AddCellAt(p: Page, key: nat, ptr: nat, i: nat)
    requires Sorted(p.cells) && i <= |p.cells| < ORDER
    requires i > 0 ==> p.cells[i - 1].key < key
    requires i < |p.cells| ==> key < p.cells[i].key
    ensures AddCell(p, key, ptr) == Ok(p.(cells := p.cells[..i] + [Cell(key, ptr)] + p.cells[i..]))
    ensures Sorted(p.cells[..i] + [Cell(key, ptr)] + p.cells[i..])
  {
    var r := LowerBound(p.cells, key);
    assert i > 0 ==> i - 1 < r;
    assert i < |p.cells| ==> !(i < r);
    var c := p.cells[..i] + [Cell(key, ptr)] + p.cells[i..];
    forall a, b | 0 <= a < b < |c| ensures c[a].key < c[b].key {
      assert a < i ==> c[a] == p.cells[a];
      assert b > i ==> c[b] == p.cells[b - 1];
    }
  }

  /** Adding sorted cells one by one appends them, as long as they fit. */
  lemma {:induction false} AddAllAppends(p: Page, cells: seq<Cell>)
    requires Sorted(p.cells + cells) && |p.cells| <= ORDER
    ensures AddAll(p, cells)
         == if |p.cells| + |cells| <= ORDER then Ok(p.(cells := p.cells + cells)) else Err("Page overflow")
    decreases |cells|
  {
    if cells == [] {
      assert p.cells + cells == p.cells;
    } else {
      var c, all := cells[0], p.cells + cells;
      assert Sorted(p.cells) by {
        assert forall i :: 0 <= i < |p.cells| ==> all[i] == p.cells[i];
      }
      assert all[|p.cells|] == c;
      if |p.cells| < ORDER {
        assert |p.cells| > 0 ==> all[|p.cells| - 1].key < all[|p.cells|].key;
        AddCellAt(p, c.key, c.ptr, |p.cells|);
        assert p.cells[..|p.cells|] + [Cell(c.key, c.ptr)] + p.cells[|p.cells|..] == p.cells + [c];
        assert (p.cells + [c]) + cells[1..] == all;
        AddAllAppends(p.(cells := p.cells + [c]), cells[1..]);
      }
    }
  }

  /** What stays of sorted cells: all of them, or as many as a page takes. */
  lemma {:induction false} AddAllKeeps(p: Page, cells: seq<Cell>)
    requires Sorted(p.cells + cells) && |p.cells| <= ORDER
    ensures var all := p.cells + cells;
            AddAllKept(p, cells) == p.(cells := if |all| <= ORDER then all else all[..ORDER])
    decreases |cells|
  {
    var all := p.cells + cells;
    if cells == [] {
      assert all == p.cells;
    } else if |p.cells| == ORDER {
      assert all[..ORDER] == p.cells;
    } else {
      var c := cells[0];
      assert Sorted(p.cells) by {
        assert forall i :: 0 <= i < |p.cells| ==> all[i] == p.cells[i];
      }
      assert all[|p.cells|] == c;
      assert |p.cells| > 0 ==> all[|p.cells| - 1].key < all[|p.cells|].key;
      AddCellAt(p, c.key, c.ptr, |p.cells|);
      assert p.cells[..|p.cells|] + [Cell(c.key, c.ptr)] + p.cells[|p.cells|..] == p.cells + [c];
      assert (p.cells + [c]) + cells[1..] == all;
      AddAllKeeps(p.(cells := p.cells + [c]), cells[1..]);
    }
  }

  /** What a rebuild from sorted cells leaves in the page: all of them, or the first 203. */
  lemma RebuildKeeps(was: Page, cells: seq<Cell>, kind: Kind, id: nat, ptr: nat)
    requires Sorted(cells)
    ensures RebuildKept(was, cells, kind, id, ptr)
         == Page(id, kind, was.kind == Root && was.rootLeaf && kind == Root, ptr,
                 if |cells| <= ORDER then cells else cells[..ORDER])
  {
    var p := Page(id, kind, was.kind == Root && was.rootLeaf && kind == Root, ptr, []);
    assert p.cells + cells == cells;
    AddAllKeeps(p, cells);
  }

  /** A rebuild from sorted cells succeeds exactly when they fit, and holds exactly them. */
  lemma RebuildHolds(was: Page, cells: seq<Cell>, kind: Kind, id: nat, ptr: nat)
    requires Sorted(cells)
    ensures Rebuild(was, cells, kind, id, ptr)
         == if |cells| <= ORDER
            then Ok(Page(id, kind, was.kind == Root && was.rootLeaf && kind == Root, ptr, cells))
            else Err("Page overflow")
  {
    var p := Page(id, kind, was.kind == Root && was.rootLeaf && kind == Root, ptr, []);
    assert p.cells + cells == cells;
    AddAllAppends(p, cells);
  }

  lemma WithoutSorted(cells: seq<Cell>, i: nat)
    requires Sorted(cells) && i < |cells|
    ensures Sorted(Without(cells, i))
  {
    var w := Without(cells, i);
    forall a, b | 0 <= a < b < |w| ensures w[a].key < w[b].key {
      assert w[a] == cells[if a < i then a else a + 1] && w[b] == cells[if b < i then b else b + 1];
    }
  }

  lemma RemoveHolds(p: Page, i: nat)
    requires Sorted(p.cells) && i < |p.cells| <= ORDER && (p.rootLeaf ==> p.kind == Root)
    ensures RemoveCellAt(p, i) == Ok(p.(cells := Without(p.cells, i)))
    ensures Sorted(Without(p.cells, i))
  {
    WithoutSorted(p.cells, i);
    RebuildHolds(p, Without(p.cells, i), p.kind, p.id, p.ptr);
  }
}
