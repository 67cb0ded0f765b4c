/** The page operations that a deletion is made of, each equal to what it is meant to build. */
module TreeRepair {
  import opened Wrappers
  import opened IndexPages
  import opened TreeInv
  import opened TreeSplit
  import opened TreeContents
  import opened TreeShift
  import opened TreeDelete
  import opened TreeBorrow
  import opened TreeMerge
  import opened TreePath
  import opened TreeSteps

  lemma CellsKept(p: Page, m: Meta, root: nat, x: nat, id: nat)
    requires Shaped(p, m, root, x, id)
    ensures Sorted(p.cells) && |p.cells| <= ORDER && (p.rootLeaf ==> p.kind == Root) && p.id == id
    ensures IsLeafLevel(p) <==> m.ht == 0
    ensures id != root ==> !p.rootLeaf && (p.kind == Leaf <==> m.ht == 0) && (p.kind == Internal <==> m.ht > 0)
  {
  }

  // ---------------------------------------------------------------- the parent

  /** Removing a separator and adding another for the same child replaces it. */
  lemma SeparatorReplaced(p: Page, m: Meta, root: nat, x: nat, id: nat, i: nat, sep: nat)
    requires Shaped(p, m, root, x, id) && i < |p.cells|
    requires i > 0 ==> p.cells[i - 1].key < sep
    requires i + 1 < |p.cells| ==> sep < p.cells[i + 1].key
    ensures RemoveCellAt(p, i) == Ok(p.(cells := Without(p.cells, i)))
    ensures AddCell(p.(cells := Without(p.cells, i)), sep, p.cells[i].ptr) == Ok(NewSeparator(p, i, sep))
  {
    hide RemoveCellAt, CellsIn, Sorted, AddCell;
    RemoveHolds(p, i);
    var q := p.(cells := Without(p.cells, i));
    AddCellAt(q, sep, p.cells[i].ptr, i);
    WithoutThenBack(p.cells, i, Cell(sep, p.cells[i].ptr));
  }

  lemma WithoutThenBack(cells: seq<Cell>, i: nat, c: Cell)
    requires i < |cells|
    ensures Without(cells, i)[..i] + [c] + Without(cells, i)[i..] == cells[i := c]
  {
  }

  /** Removing a separator and redirecting the pointer to the merged page joins the two children. */
  lemma SeparatorDropped(p: Page, m: Meta, root: nat, x: nat, id: nat, i: nat, left: nat, right: nat)
    requires Shaped(p, m, root, x, id) && m.ht > 0 && i < |p.cells| && Child(p, i) == left && Child(p, i + 1) == right
    requires forall k {:trigger Child(p, k)} :: 0 <= k <= |p.cells| && k != i + 1 ==> Child(p, k) != right
    ensures RemoveCellAt(p, i) == Ok(p.(cells := Without(p.cells, i)))
    ensures var q := p.(cells := Without(p.cells, i));
            Rebuild(q, Redirect(q.cells, right, left), q.kind, id, if q.ptr == right then left else q.ptr)
            == Ok(ParentAfterJoin(p, i, left))
  {
    hide RemoveCellAt, Rebuild, CellsIn, Sorted;
    RemoveHolds(p, i);
    var q := p.(cells := Without(p.cells, i));
    forall k {:trigger Child(q, k)} | 0 <= k <= |q.cells| && k != i ensures Child(q, k) != right {
      assert Child(q, k) == Child(p, if k < i then k else k + 1);
    }
    RedirectIsSwap(q, i, right, left);
    SwapSorted(q, i, left);
    RebuildHolds(q, SwapChild(q, i, left).cells, q.kind, id, SwapChild(q, i, left).ptr);
  }

  // ---------------------------------------------------------------- borrowing

  lemma LeftBorrowSteps(pages: Pages, metas: Metas, root: nat, next: nat, par: nat, i: nat, left: nat, right: nat)
    requires LeftLends(pages, metas, root, next, par, i, left, right)
    ensures left != right && left != par && right != par && left != root && right != root
    ensures pages[right].kind == Leaf <==> IsLeafLevel(pages[left])
    ensures pages[right].kind == Leaf <==> IsLeafLevel(pages[right])
    ensures var l, r, p := pages[left], pages[right], pages[par];
            var n := |l.cells| - 1;
            && RemoveCellAt(l, n) == Ok(l.(cells := l.cells[..n]))
            && (if IsLeafLevel(l) then
                  GiveLast(l) == l.(cells := l.cells[..n])
                  && AddCell(r, l.cells[n].key, l.cells[n].ptr) == Ok(TakeLast(l, r, p.cells[i].key))
                  && |TakeLast(l, r, p.cells[i].key).cells| > 0
                    && TakeLast(l, r, p.cells[i].key).cells[0].key == l.cells[n].key
                else
                  GiveLast(l) == SetHeaderPtr(l.(cells := l.cells[..n]), l.cells[n].ptr)
                  && Rebuild(r, [Cell(p.cells[i].key, l.ptr)] + r.cells, r.kind, right, r.ptr)
                    == Ok(TakeLast(l, r, p.cells[i].key)))
  {
    hide CellsIn, Sorted, Rebuild, AddCell, RemoveCellAt, Shaped, Wired, TreeOkBut;
    NeighbourRanges(pages, metas, root, next, right, par, i, left, right);
    var l, r, sep := pages[left], pages[right], pages[par].cells[i].key;
    var n := |l.cells| - 1;
    CellsKept(l, metas[left], root, right, left);
    CellsKept(r, metas[right], root, right, right);
    RemoveHolds(l, n);
    assert Without(l.cells, n) == l.cells[..n];
    TakeLastBody(pages, metas, root, next, par, i, left, right);
    var t := TakeLast(l, r, sep);
    CellsKept(t, metas[right].(lo := l.cells[n].key), root, next, right);
    if IsLeafLevel(l) {
      assert t.cells == [l.cells[n]] + r.cells;
      FirstAdded(r, l.cells[n]);
    } else {
      assert l.cells[n + 1..] == [];
      assert t.cells == [Cell(sep, l.ptr)] + r.cells;
      RebuildHolds(r, t.cells, r.kind, right, r.ptr);
    }
  }

  /** A cell below all others goes first. */
  lemma FirstAdded(p: Page, c: Cell)
    requires Sorted([c] + p.cells) && |p.cells| < ORDER
    ensures AddCell(p, c.key, c.ptr) == Ok(p.(cells := [c] + p.cells))
  {
    hide Sorted, AddCell;
    var all := [c] + p.cells;
    assert all[1..] == p.cells;
    SuffixSorted(all, 1);
    if p.cells != [] { KeysAscend(all, 0, 1); }
    AddCellAt(p, c.key, c.ptr, 0);
    assert p.cells[..0] + [Cell(c.key, c.ptr)] + p.cells[0..] == all;
  }

  /** A cell above all others goes last. */
  lemma LastAdded(p: Page, c: Cell)
    requires Sorted(p.cells + [c]) && |p.cells| < ORDER
    ensures AddCell(p, c.key, c.ptr) == Ok(p.(cells := p.cells + [c]))
  {
    hide Sorted, AddCell;
    var all, n := p.cells + [c], |p.cells|;
    PrefixOfSorted(all, n);
    assert all[..n] == p.cells;
    if n > 0 { KeysAscend(all, n - 1, n); }
    AddCellAt(p, c.key, c.ptr, n);
    assert p.cells[..n] + [Cell(c.key, c.ptr)] + p.cells[n..] == all;
  }

  lemma RightBorrowSteps(pages: Pages, metas: Metas, root: nat, next: nat, par: nat, i: nat, left: nat, right: nat)
    requires RightLends(pages, metas, root, next, par, i, left, right)
    ensures left != right && left != par && right != par && left != root && right != root
    ensures pages[left].kind == Leaf <==> IsLeafLevel(pages[right])
    ensures pages[left].kind == Leaf <==> IsLeafLevel(pages[left])
    ensures var l, r, p := pages[left], pages[right], pages[par];
            && RemoveCellAt(r, 0) == Ok(GiveFirst(r))
            && (if IsLeafLevel(l) then
                  AddCell(l, r.cells[0].key, r.cells[0].ptr) == Ok(TakeFirst(l, r, p.cells[i].key))
                  && |GiveFirst(r).cells| > 0 && GiveFirst(r).cells[0].key == r.cells[CutAt(r)].key
                else
                  CutAt(r) == 0
                  && AddCell(l, p.cells[i].key, l.ptr).Ok?
                  && SetHeaderPtr(AddCell(l, p.cells[i].key, l.ptr).value, r.cells[0].ptr)
                    == TakeFirst(l, r, p.cells[i].key))
  {
    hide CellsIn, Sorted, AddCell, RemoveCellAt, Shaped, Wired, TreeOkBut;
    NeighbourRanges(pages, metas, root, next, left, par, i, left, right);
    var l, r, sep := pages[left], pages[right], pages[par].cells[i].key;
    CellsKept(l, metas[left], root, left, left);
    CellsKept(r, metas[right], root, left, right);
    RemoveHolds(r, 0);
    assert Without(r.cells, 0) == r.cells[1..];
    TakeFirstBody(pages, metas, root, next, par, i, left, right);
    var t := TakeFirst(l, r, sep);
    CellsKept(t, metas[left].(hi := r.cells[CutAt(r)].key), root, next, left);
    if IsLeafLevel(l) {
      assert t.cells == l.cells + [r.cells[0]];
      LastAdded(l, r.cells[0]);
    } else {
      assert t.cells == l.cells + [Cell(sep, l.ptr)];
      LastAdded(l, Cell(sep, l.ptr));
    }
  }

  // ---------------------------------------------------------------- merging

  /** The rebuild of a merge succeeds exactly when the cells fit. */
  lemma MergeSteps(pages: Pages, metas: Metas, root: nat, next: nat, x: nat, par: nat, i: nat, left: nat, right: nat)
    requires Neighbours(pages, metas, root, next, x, par, i, left, right) && left in pages && right in pages
    ensures left != right && left != par && right != par && left != root && right != root && pages[par].id == par
    ensures pages[left].id == left && !pages[left].rootLeaf && pages[left].kind != Root
    ensures pages[left].kind == Leaf <==> IsLeafLevel(pages[left])
    ensures pages[right].kind == Leaf <==> IsLeafLevel(pages[left])
    ensures var l, r, sep := pages[left], pages[right], pages[par].cells[i].key;
            && |Merged(l, r, sep).cells| == MergeNeeds(IsLeafLevel(l), |l.cells|, |r.cells|)
            && Rebuild(l, if IsLeafLevel(l) then l.cells + r.cells else l.cells + [Cell(sep, l.ptr)] + r.cells,
                       if IsLeafLevel(l) then Leaf else Internal, left, r.ptr)
               == if |Merged(l, r, sep).cells| <= ORDER then Ok(Merged(l, r, sep)) else Err("Page overflow")
  {
    hide CellsIn, Sorted, Rebuild;
    NeighbourRanges(pages, metas, root, next, x, par, i, left, right);
    var l, r, sep := pages[left], pages[right], pages[par].cells[i].key;
    CellsKept(l, metas[left], root, x, left);
    CellsKept(r, metas[right], root, x, right);
    CellsKept(pages[par], metas[par], root, x, par);
    ShapedBody(l, metas[left], root, x, left);
    ShapedBody(r, metas[right], root, x, right);
    JoinBody(l, l, metas[left], r, metas[right]);
    RebuildHolds(l, Merged(l, r, sep).cells, if IsLeafLevel(l) then Leaf else Internal, left, r.ptr);
  }

  lemma MergedParent(pages: Pages, metas: Metas, root: nat, next: nat, x: nat, par: nat, i: nat, left: nat, right: nat)
    requires Neighbours(pages, metas, root, next, x, par, i, left, right)
    ensures var p := pages[par];
            var q := p.(cells := Without(p.cells, i));
            && RemoveCellAt(p, i) == Ok(q)
            && Rebuild(q, Redirect(q.cells, right, left), q.kind, par, if q.ptr == right then left else q.ptr)
               == Ok(ParentAfterJoin(p, i, left))
            && |ParentAfterJoin(p, i, left).cells| == |p.cells| - 1
            && IsLeafLevel(ParentAfterJoin(p, i, left)) == IsLeafLevel(p)
  {
    hide CellsIn, Sorted, Rebuild, RemoveCellAt;
    NeighbourRanges(pages, metas, root, next, x, par, i, left, right);
    SiblingsElsewhere(pages, metas, root, next, x, par, i + 1);
    SeparatorDropped(pages[par], metas[par], root, x, par, i, left, right);
  }

  /** The separator between two children lies between its neighbours in the parent. */
  lemma SeparatorBetween(pages: Pages, metas: Metas, root: nat, next: nat, x: nat, par: nat, i: nat, left: nat,
          right: nat, sep: nat)
    requires Neighbours(pages, metas, root, next, x, par, i, left, right)
    requires left in metas && right in metas && metas[left].lo < sep < metas[right].hi
    ensures var p := pages[par];
            && RemoveCellAt(p, i) == Ok(p.(cells := Without(p.cells, i)))
            && AddCell(p.(cells := Without(p.cells, i)), sep, left) == Ok(NewSeparator(p, i, sep))
  {
    NeighbourRanges(pages, metas, root, next, x, par, i, left, right);
    SeparatorReplaced(pages[par], metas[par], root, x, par, i, sep);
  }

  /** After a merge the trail above is as it was, and so is what a further cascade depends on. */
  lemma TrailAfterMerge(pages: Pages, pages': Pages, metas: Metas, root: nat, next: nat, x: nat, i: nat, left: nat,
          right: nat,
                        trail: seq<nat>, n: nat)
    requires Path(metas, root, trail) && Neighbours(pages, metas, root, next, x, Last(trail), i, left, right)
    requires left in pages && right in pages
    requires pages' == pages[left := Merged(pages[left], pages[right], pages[Last(trail)].cells[i].key)]
                            [Last(trail) := ParentAfterJoin(pages[Last(trail)], i, left)]
    ensures left in metas && right in metas && Path(JoinMetas(metas, left, right), root, trail)
    ensures CascadeFits(pages', Last(trail), n, trail[..|trail| - 1])
      <==> CascadeFits(pages, Last(trail), n, trail[..|trail| - 1])
  {
    hide Shaped, Wired, Disjoint;
    var par, up := Last(trail), trail[..|trail| - 1];
    NeighbourRanges(pages, metas, root, next, x, par, i, left, right);
    forall k {:trigger trail[k]} | 0 <= k < |trail| && trail[k] in metas
      ensures trail[k] in JoinMetas(metas, left, right) && JoinMetas(metas, left, right)[trail[k]] == metas[trail[k]]
    {
      if k < |trail| - 1 { AboveHigher(metas, root, trail, k); }
    }
    PathKept(metas, JoinMetas(metas, left, right), root, trail);
    if |trail| > 1 {
      PathUp(metas, root, trail);
      MergedParent(pages, metas, root, next, x, par, i, left, right);
      PagesBelow(pages, metas, root, next, x);
      assert SameAbove(pages, pages', metas, par);
      CascadeKept(pages, pages', metas, root, next, x, par, n, up);
    }
  }

  /** A page that is not short after all. */
  lemma NotShort(pages: Pages, metas: Metas, root: nat, next: nat, x: nat)
    requires TreeOkBut(pages, metas, root, next, x) && x in pages && x in metas
    requires if x == root then metas[x].ht == 0 || |pages[x].cells| > 0 else |pages[x].cells| >= DEGREE - 1
    ensures TreeOk(pages, metas, root, next)
  {
    PagesBelow(pages, metas, root, next, x);
    forall id {:trigger NodeOk(pages, metas, root, next, id)} | id in metas
      ensures NodeOk(pages, metas, root, next, id)
    {
      assert NodeOk(pages, metas, root, x, id);
    }
  }

  // ---------------------------------------------------------------- the neighbours of a short page

  /** A page other than the root has a neighbour under its parent, on whichever side is asked. */
  lemma HasNeighbour(pages: Pages, metas: Metas, root: nat, next: nat, x: nat, par: nat)
    requires TreeOkBut(pages, metas, root, next, x) && Over(metas, par, x)
    ensures par in pages && x in pages && |pages[par].cells| > 0
    ensures var p := pages[par];
            var i := PositionOf(p.cells, x);
            && (i > 0 ==>
                  Neighbours(pages, metas, root, next, x, par, i - 1, Child(p, i - 1), x)
                  && Child(p, i - 1) in pages
                  && IsLeafLevel(pages[Child(p, i - 1)]) == IsLeafLevel(pages[x]))
            && (i < |p.cells| ==>
                  Neighbours(pages, metas, root, next, x, par, i, x, Child(p, i + 1))
                  && Child(p, i + 1) in pages
                  && IsLeafLevel(pages[Child(p, i + 1)]) == IsLeafLevel(pages[x]))
  {
    ChildPlace(pages, metas, root, next, x, par, x);
    assert NodeOk(pages, metas, root, x, par);
    var p := pages[par];
    var i := PositionOf(p.cells, x);
    if i > 0 { SiblingKind(pages, metas, root, next, x, par, i - 1, Child(p, i - 1), x); }
    if i < |p.cells| { SiblingKind(pages, metas, root, next, x, par, i, x, Child(p, i + 1)); }
  }

  lemma SiblingKind(pages: Pages, metas: Metas, root: nat, next: nat, x: nat, par: nat, i: nat, left: nat, right: nat)
    requires Neighbours(pages, metas, root, next, x, par, i, left, right)
    ensures left in pages && right in pages && IsLeafLevel(pages[left]) == IsLeafLevel(pages[right])
  {
    NeighbourRanges(pages, metas, root, next, x, par, i, left, right);
  }

  /** Removing a key from a leaf other than the root leaves its place in the trail. */
  lemma TrailAfterRemove(pages: Pages, metas: Metas, root: nat, next: nat, trail: seq<nat>, q: Page, n: nat)
    requires TreeOk(pages, metas, root, next) && Path(metas, root, trail) && |trail| > 1
    requires Last(trail) in pages && IsLeafLevel(q) == IsLeafLevel(pages[Last(trail)])
    ensures var leaf, up := Last(trail), trail[..|trail| - 1];
            && Path(metas, root, up) && Over(metas, Last(up), leaf)
            && (CascadeFits(pages[leaf := q], leaf, n, up) <==> CascadeFits(pages, leaf, n, up))
  {
    var leaf, up := Last(trail), trail[..|trail| - 1];
    PathUp(metas, root, trail);
    PagesBelow(pages, metas, root, next, next);
    CascadeKept(pages, pages[leaf := q], metas, root, next, next, leaf, n, up);
  }

  /** Removing a key from its leaf: what the leaf is then short of, and what the trail above allows. */
  lemma LeafGives(pages: Pages, metas: Metas, root: nat, next: nat, trail: seq<nat>, key: nat, contents: map<nat, nat>)
    requires TreeOk(pages, metas, root, next) && Stores(pages, metas, contents) && |trail| > 0
    requires Path(metas, root, trail)
    requires Last(trail) in metas && Last(trail) in pages && key in contents
    requires var m := metas[Last(trail)]; m.ht == 0 && m.lo <= key < m.hi
    ensures var leaf, up := Last(trail), trail[..|trail| - 1];
            var i := LowerBound(pages[leaf].cells, key);
            var removed := RemoveCellAt(pages[leaf], i);
            removed.Ok? &&
            var pages' := pages[leaf := removed.value];
            && |removed.value.cells| == |pages[leaf].cells| - 1
            && TreeOkBut(pages', metas, root, next, leaf) && Stores(pages', metas, contents - {key})
            && (leaf == root || |removed.value.cells| >= DEGREE ==> TreeOk(pages', metas, root, next))
            && (leaf == root <==> |trail| == 1)
            && (leaf != root ==>
                  && |up| > 0 && Path(metas, root, up) && Over(metas, Last(up), leaf)
                  && (forall k {:trigger up[k]} :: 0 <= k < |up| ==> up[k] in metas && metas[up[k]].ht > 0)
                  && (CascadeFits(pages', leaf, |removed.value.cells|, up)
                      <==> CascadeFits(pages, leaf, |removed.value.cells|, up)))
  {
    hide Path, Stores, RemoveCellAt, CascadeFits, Over;
    var leaf, up := Last(trail), trail[..|trail| - 1];
    var i := LowerBound(pages[leaf].cells, key);
    SearchStep(pages, metas, root, next, leaf, key, contents);
    RemoveFromLeaf(pages, metas, root, next, leaf, i, contents);
    var q := RemoveCellAt(pages[leaf], i).value;
    assert pages[leaf].cells[i].key == key;
    if leaf == root || |q.cells| >= DEGREE { NotShort(pages[leaf := q], metas, root, next, leaf); }
    RootAlone(metas, root, trail);
    if leaf != root {
      UpFromPage(metas, root, trail);
      TrailAfterRemove(pages, metas, root, next, trail, q, |q.cells|);
      forall k {:trigger up[k]} | 0 <= k < |up| ensures up[k] in metas && metas[up[k]].ht > 0 {
        AboveHigher(metas, root, trail, k);
      }
    }
  }
}
