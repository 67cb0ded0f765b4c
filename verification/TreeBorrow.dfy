/** Borrowing a cell from a neighbour. */
module TreeBorrow {
  import opened IndexPages
  import opened TreeInv
  import opened TreeSplit
  import opened TreeContents
  import opened TreeShift
  import opened TreeDelete

  /** Page `p` under its old id and kind, with other cells or another pointer. */
  lemma BodyShaped(p: Page, m: Meta, q: Page, n: Meta, root: nat, x: nat, id: nat, next: nat)
    requires Shaped(p, m, root, x, id) && id != root && Body(q, n) && n.ht == m.ht
    requires q.id == p.id && q.kind == p.kind && q.rootLeaf == p.rootLeaf
    requires MinCells(m.ht) <= |q.cells| <= ORDER && id != next
    ensures Shaped(q, n, root, next, id)
  {
  }

  lemma ShapedBody(p: Page, m: Meta, root: nat, x: nat, id: nat)
    requires Shaped(p, m, root, x, id)
    ensures Body(p, m)
  {
  }

  /** Two neighbouring leaves are linked. */
  lemma LeafLink(pages: Pages, metas: Metas, root: nat, next: nat, x: nat, par: nat, i: nat, left: nat, right: nat)
    requires Neighbours(pages, metas, root, next, x, par, i, left, right) && metas[par].ht == 1
    ensures left in pages && pages[left].ptr == right
  {
    NeighbourRanges(pages, metas, root, next, x, par, i, left, right);
    assert NodeOk(pages, metas, root, x, pages[left].ptr);
    SamePage(metas, pages[left].ptr, right, metas[right].lo);
  }

  /** Pages one level below the two neighbours keep their wiring when the boundary moves. */
  lemma ShiftKeepsChildren(metas: Metas, left: nat, right: nat, sep: nat, p: Page, m: Meta)
    requires left in metas && right in metas && metas[left].ht == metas[right].ht == m.ht && ChildrenFit(metas, p, m)
    ensures ChildrenFit(ShiftMetas(metas, left, right, sep), p, m)
  {
    ChildrenKept(metas, ShiftMetas(metas, left, right, sep), p, m);
  }

  /** The right neighbour of the right leaf is neither of the two. */
  lemma ShiftKeepsLink(metas: Metas, left: nat, right: nat, sep: nat, p: Page, q: Page)
    requires left in metas && right in metas && metas[left].ht == metas[right].ht == 0
    requires metas[left].lo < metas[left].hi == metas[right].lo < metas[right].hi
    requires Linked(metas, p, metas[right]) && q.ptr == p.ptr
    ensures Linked(ShiftMetas(metas, left, right, sep), q, metas[right].(lo := sep))
  {
  }

  /** Moving cells between two leaves keeps the contents, when both leaves hold their new ranges. */
  lemma ShiftHolds(pages: Pages, metas: Metas, contents: map<nat, nat>, par: nat, left: nat, right: nat, sep: nat,
                   left': Page, right': Page, par': Page)
    requires Stores(pages, metas, contents) && left in metas && right in metas && par in metas && metas[par].ht > 0
    requires left != right && left != par && right != par && metas[left].ht == metas[right].ht
    requires metas[left].ht == 0 ==> LeafHolds(left'.cells, metas[left].(hi := sep), contents)
    requires metas[left].ht == 0 ==> LeafHolds(right'.cells, metas[right].(lo := sep), contents)
    ensures Stores(pages[left := left'][right := right'][par := par'], ShiftMetas(metas, left, right, sep), contents)
  {
    var pages', metas' := pages[left := left'][right := right'][par := par'], ShiftMetas(metas, left, right, sep);
    forall id {:trigger pages'[id]} | id in metas' && id in pages' && metas'[id].ht == 0
      ensures LeafHolds(pages'[id].cells, metas'[id], contents)
    {
      if id != left && id != right {
        assert id in pages && pages'[id] == pages[id] && metas'[id] == metas[id];
      }
    }
  }

  // ---------------------------------------------------------------- from the left neighbour

  /** The right page with the left page's last cell: on the leaf level the cell itself, above it the
      separator with the left page's last child. */
  function TakeLast(left: Page, right: Page, sep: nat): Page
    requires |left.cells| > 0
  {
    Join(right, After(left, |left.cells| - 1), right, sep)
  }

  function GiveLast(left: Page): Page
    requires |left.cells| > 0
  {
    Before(left, |left.cells| - 1)
  }

  /** Neighbours of which the right one is short and the left one has a cell to spare. */
  ghost predicate LeftLends(pages: Pages, metas: Metas, root: nat, next: nat, par: nat, i: nat, left: nat, right: nat) {
    && Neighbours(pages, metas, root, next, right, par, i, left, right)
    && left in pages && right in pages && |pages[left].cells| > DEGREE && |pages[right].cells| < ORDER
  }

  lemma LastInside(pages: Pages, metas: Metas, root: nat, next: nat, par: nat, i: nat, left: nat, right: nat)
    requires LeftLends(pages, metas, root, next, par, i, left, right)
    ensures left in metas && metas[left].lo < pages[left].cells[|pages[left].cells| - 1].key < metas[left].hi
    ensures Body(pages[left], metas[left]) && right in metas && Body(pages[right], metas[right])
  {
    NeighbourRanges(pages, metas, root, next, right, par, i, left, right);
    assert pages[left].cells[0].key < pages[left].cells[|pages[left].cells| - 1].key;
  }

  lemma GiveLastFits(pages: Pages, metas: Metas, root: nat, next: nat, par: nat, i: nat, left: nat, right: nat)
    requires LeftLends(pages, metas, root, next, par, i, left, right)
    ensures left in metas && right in metas
    ensures var sep := pages[left].cells[|pages[left].cells| - 1].key;
            var metas' := ShiftMetas(metas, left, right, sep);
            Shaped(GiveLast(pages[left]), metas'[left], root, next, left)
            && Wired(metas', GiveLast(pages[left]), metas'[left])
  {
    hide CellsIn, Sorted;
    NeighbourRanges(pages, metas, root, next, right, par, i, left, right);
    LastInside(pages, metas, root, next, par, i, left, right);
    PagesBelow(pages, metas, root, next, right);
    var p, m, s := pages[left], metas[left], |pages[left].cells| - 1;
    BeforeBody(p, m, s);
    BodyShaped(p, m, GiveLast(p), m.(hi := p.cells[s].key), root, right, left, next);
    if m.ht > 0 {
      BeforeWired(metas, p, m, s);
      ShiftKeepsChildren(metas, left, right, p.cells[s].key, GiveLast(p), m.(hi := p.cells[s].key));
    } else {
      LeafLink(pages, metas, root, next, right, par, i, left, right);
    }
  }

  lemma TakeLastBody(pages: Pages, metas: Metas, root: nat, next: nat, par: nat, i: nat, left: nat, right: nat)
    requires LeftLends(pages, metas, root, next, par, i, left, right)
    ensures left in metas && right in metas
    ensures var sep := pages[left].cells[|pages[left].cells| - 1].key;
            var q := TakeLast(pages[left], pages[right], pages[par].cells[i].key);
            Shaped(q, metas[right].(lo := sep), root, next, right) && |q.cells| == |pages[right].cells| + 1
  {
    hide CellsIn, Sorted;
    NeighbourRanges(pages, metas, root, next, right, par, i, left, right);
    LastInside(pages, metas, root, next, par, i, left, right);
    PagesBelow(pages, metas, root, next, right);
    var p, m, s := pages[left], metas[left], |pages[left].cells| - 1;
    var q, n := pages[right], metas[right];
    AfterBody(p, m, s);
    JoinBody(q, After(p, s), m.(lo := p.cells[s].key), q, n);
    BodyShaped(q, n, TakeLast(p, q, m.hi), n.(lo := p.cells[s].key), root, right, right, next);
  }

  lemma TakeLastWired(pages: Pages, metas: Metas, root: nat, next: nat, par: nat, i: nat, left: nat, right: nat)
    requires LeftLends(pages, metas, root, next, par, i, left, right)
    ensures left in metas && right in metas
    ensures var sep := pages[left].cells[|pages[left].cells| - 1].key;
            var metas' := ShiftMetas(metas, left, right, sep);
            Wired(metas', TakeLast(pages[left], pages[right], pages[par].cells[i].key), metas'[right])
  {
    hide CellsIn, Sorted;
    NeighbourRanges(pages, metas, root, next, right, par, i, left, right);
    LastInside(pages, metas, root, next, par, i, left, right);
    var p, m, s := pages[left], metas[left], |pages[left].cells| - 1;
    var q, n := pages[right], metas[right];
    var sep := p.cells[s].key;
    if m.ht > 0 {
      AfterBody(p, m, s);
      AfterWired(metas, p, m, s);
      JoinWired(metas, q, After(p, s), m.(lo := sep), q, n);
      ShiftKeepsChildren(metas, left, right, sep, TakeLast(p, q, m.hi), n.(lo := sep));
    } else {
      ShiftKeepsLink(metas, left, right, sep, q, TakeLast(p, q, m.hi));
    }
  }

  /** Borrowing from the left neighbour repairs a short page; the contents stay. */
  lemma BorrowFromLeft(pages: Pages, metas: Metas, root: nat, next: nat, par: nat, i: nat, left: nat, right: nat,
                       contents: map<nat, nat>)
    requires LeftLends(pages, metas, root, next, par, i, left, right) && Stores(pages, metas, contents)
    ensures left in metas && right in metas
    ensures var sep := pages[left].cells[|pages[left].cells| - 1].key;
            var pages' := pages[left := GiveLast(pages[left])]
                               [right := TakeLast(pages[left], pages[right], pages[par].cells[i].key)]
                               [par := NewSeparator(pages[par], i, sep)];
            var metas' := ShiftMetas(metas, left, right, sep);
            TreeOk(pages', metas', root, next) && Stores(pages', metas', contents)
  {
    hide Shaped, Wired, CellsIn, Sorted;
    NeighbourRanges(pages, metas, root, next, right, par, i, left, right);
    LastInside(pages, metas, root, next, par, i, left, right);
    var p, s := pages[left], |pages[left].cells| - 1;
    GiveLastFits(pages, metas, root, next, par, i, left, right);
    TakeLastBody(pages, metas, root, next, par, i, left, right);
    TakeLastWired(pages, metas, root, next, par, i, left, right);
    var q := TakeLast(p, pages[right], pages[par].cells[i].key);
    ShiftOk(pages, metas, root, next, right, par, i, left, right, p.cells[s].key, GiveLast(p), q);
    if metas[left].ht == 0 { LastHolds(pages, metas, root, next, par, i, left, right, contents); }
    ShiftHolds(pages, metas, contents, par, left, right, p.cells[s].key, GiveLast(p), q,
               NewSeparator(pages[par], i, p.cells[s].key));
  }

  lemma LastHolds(pages: Pages, metas: Metas, root: nat, next: nat, par: nat, i: nat, left: nat, right: nat,
                  contents: map<nat, nat>)
    requires LeftLends(pages, metas, root, next, par, i, left, right) && Stores(pages, metas, contents)
    requires left in metas && metas[left].ht == 0 && right in metas
    ensures var sep := pages[left].cells[|pages[left].cells| - 1].key;
            && LeafHolds(GiveLast(pages[left]).cells, metas[left].(hi := sep), contents)
            && LeafHolds(TakeLast(pages[left], pages[right], pages[par].cells[i].key).cells,
                metas[right].(lo := sep), contents)
  {
    NeighbourRanges(pages, metas, root, next, right, par, i, left, right);
    LastInside(pages, metas, root, next, par, i, left, right);
    var p, m, s := pages[left], metas[left], |pages[left].cells| - 1;
    HalfHolds(p.cells, m, s, contents);
    SuffixIn(p.cells, m, s, p.cells[s].key);
    JoinedHolds(p.cells[s..], m.(lo := p.cells[s].key), pages[right].cells, metas[right], contents);
  }

  // ---------------------------------------------------------------- from the right neighbour

  /** Where the right page is cut: after its first cell on the leaf level, at its first separator above. */
  function CutAt(right: Page): nat {
    if IsLeafLevel(right) then 1 else 0
  }

  function TakeFirst(left: Page, right: Page, sep: nat): Page
    requires |right.cells| > 1
  {
    var j := Join(left, left, Before(right, CutAt(right)), sep);
    if IsLeafLevel(left) then j.(ptr := left.ptr) else j
  }

  function GiveFirst(right: Page): Page
    requires |right.cells| > 1
  {
    After(right, CutAt(right))
  }

  /** Neighbours of which the left one is short and the right one has a cell to spare. */
  ghost predicate RightLends(pages: Pages, metas: Metas, root: nat, next: nat, par: nat, i: nat, left: nat,
                             right: nat) {
    && Neighbours(pages, metas, root, next, left, par, i, left, right)
    && left in pages && right in pages && |pages[right].cells| > DEGREE && |pages[left].cells| < ORDER
  }

  lemma CutInside(pages: Pages, metas: Metas, root: nat, next: nat, par: nat, i: nat, left: nat, right: nat)
    requires RightLends(pages, metas, root, next, par, i, left, right)
    ensures right in metas && metas[right].lo < pages[right].cells[CutAt(pages[right])].key < metas[right].hi
    ensures left in metas && Body(pages[left], metas[left]) && Body(pages[right], metas[right])
  {
    NeighbourRanges(pages, metas, root, next, left, par, i, left, right);
    assert pages[right].cells[0].key < pages[right].cells[1].key;
  }

  lemma GiveFirstFits(pages: Pages, metas: Metas, root: nat, next: nat, par: nat, i: nat, left: nat, right: nat)
    requires RightLends(pages, metas, root, next, par, i, left, right)
    ensures left in metas && right in metas
    ensures var metas' := ShiftMetas(metas, left, right, pages[right].cells[CutAt(pages[right])].key);
            Shaped(GiveFirst(pages[right]), metas'[right], root, next, right)
            && Wired(metas', GiveFirst(pages[right]), metas'[right])
  {
    hide CellsIn, Sorted;
    NeighbourRanges(pages, metas, root, next, left, par, i, left, right);
    CutInside(pages, metas, root, next, par, i, left, right);
    PagesBelow(pages, metas, root, next, left);
    var p, m, s := pages[right], metas[right], CutAt(pages[right]);
    AfterBody(p, m, s);
    BodyShaped(p, m, GiveFirst(p), m.(lo := p.cells[s].key), root, left, right, next);
    if m.ht > 0 {
      AfterWired(metas, p, m, s);
      ShiftKeepsChildren(metas, left, right, p.cells[s].key, GiveFirst(p), m.(lo := p.cells[s].key));
    } else {
      ShiftKeepsLink(metas, left, right, p.cells[s].key, p, GiveFirst(p));
    }
  }

  lemma TakeFirstBody(pages: Pages, metas: Metas, root: nat, next: nat, par: nat, i: nat, left: nat, right: nat)
    requires RightLends(pages, metas, root, next, par, i, left, right)
    ensures left in metas && right in metas
    ensures var q := TakeFirst(pages[left], pages[right], pages[par].cells[i].key);
            Shaped(q, metas[left].(hi := pages[right].cells[CutAt(pages[right])].key), root, next, left)
            && |q.cells| == |pages[left].cells| + 1
  {
    hide CellsIn, Sorted;
    NeighbourRanges(pages, metas, root, next, left, par, i, left, right);
    CutInside(pages, metas, root, next, par, i, left, right);
    PagesBelow(pages, metas, root, next, left);
    var p, m, s := pages[right], metas[right], CutAt(pages[right]);
    var q, n := pages[left], metas[left];
    BeforeBody(p, m, s);
    JoinBody(q, q, n, Before(p, s), m.(hi := p.cells[s].key));
    var t := TakeFirst(q, p, n.hi);
    assert Body(t, n.(hi := p.cells[s].key));
    BodyShaped(q, n, t, n.(hi := p.cells[s].key), root, left, left, next);
  }

  lemma TakeFirstWired(pages: Pages, metas: Metas, root: nat, next: nat, par: nat, i: nat, left: nat, right: nat)
    requires RightLends(pages, metas, root, next, par, i, left, right)
    ensures left in metas && right in metas
    ensures var metas' := ShiftMetas(metas, left, right, pages[right].cells[CutAt(pages[right])].key);
            Wired(metas', TakeFirst(pages[left], pages[right], pages[par].cells[i].key), metas'[left])
  {
    hide CellsIn, Sorted;
    NeighbourRanges(pages, metas, root, next, left, par, i, left, right);
    CutInside(pages, metas, root, next, par, i, left, right);
    var p, m, s := pages[right], metas[right], CutAt(pages[right]);
    var q, n := pages[left], metas[left];
    var sep := p.cells[s].key;
    if m.ht > 0 {
      BeforeBody(p, m, s);
      BeforeWired(metas, p, m, s);
      JoinWired(metas, q, q, n, Before(p, s), m.(hi := sep));
      ShiftKeepsChildren(metas, left, right, sep, TakeFirst(q, p, n.hi), n.(hi := sep));
    } else {
      LeafLink(pages, metas, root, next, left, par, i, left, right);
    }
  }

  lemma FirstHolds(pages: Pages, metas: Metas, root: nat, next: nat, par: nat, i: nat, left: nat, right: nat,
                   contents: map<nat, nat>)
    requires RightLends(pages, metas, root, next, par, i, left, right) && Stores(pages, metas, contents)
    requires left in metas && metas[left].ht == 0 && right in metas
    ensures var sep := pages[right].cells[CutAt(pages[right])].key;
            && LeafHolds(GiveFirst(pages[right]).cells, metas[right].(lo := sep), contents)
            && LeafHolds(TakeFirst(pages[left], pages[right], pages[par].cells[i].key).cells,
                metas[left].(hi := sep), contents)
  {
    NeighbourRanges(pages, metas, root, next, left, par, i, left, right);
    CutInside(pages, metas, root, next, par, i, left, right);
    var p, m := pages[right], metas[right];
    HalfHolds(p.cells, m, 1, contents);
    PrefixSorted(p.cells, m, 1);
    JoinedHolds(pages[left].cells, metas[left], p.cells[..1], m.(hi := p.cells[1].key), contents);
  }

  /** Borrowing from the right neighbour repairs a short page; the contents stay. */
  lemma BorrowFromRight(pages: Pages, metas: Metas, root: nat, next: nat, par: nat, i: nat, left: nat, right: nat,
                        contents: map<nat, nat>)
    requires RightLends(pages, metas, root, next, par, i, left, right) && Stores(pages, metas, contents)
    ensures left in metas && right in metas
    ensures var sep := pages[right].cells[CutAt(pages[right])].key;
            var pages' := pages[left := TakeFirst(pages[left], pages[right], pages[par].cells[i].key)]
                               [right := GiveFirst(pages[right])]
                               [par := NewSeparator(pages[par], i, sep)];
            var metas' := ShiftMetas(metas, left, right, sep);
            TreeOk(pages', metas', root, next) && Stores(pages', metas', contents)
  {
    hide Shaped, Wired, CellsIn, Sorted;
    NeighbourRanges(pages, metas, root, next, left, par, i, left, right);
    CutInside(pages, metas, root, next, par, i, left, right);
    GiveFirstFits(pages, metas, root, next, par, i, left, right);
    TakeFirstBody(pages, metas, root, next, par, i, left, right);
    TakeFirstWired(pages, metas, root, next, par, i, left, right);
    var sep := pages[right].cells[CutAt(pages[right])].key;
    var q := TakeFirst(pages[left], pages[right], pages[par].cells[i].key);
    ShiftOk(pages, metas, root, next, left, par, i, left, right, sep, q, GiveFirst(pages[right]));
    if metas[left].ht == 0 { FirstHolds(pages, metas, root, next, par, i, left, right, contents); }
    ShiftHolds(pages, metas, contents, par, left, right, sep, q, GiveFirst(pages[right]),
               NewSeparator(pages[par], i, sep));
  }
}
