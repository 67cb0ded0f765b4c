/** Moving the boundary between two neighbours, joining two neighbours, and dropping an empty root. */
module TreeShift {
  import opened IndexPages
  import opened TreeInv
  import opened TreeSplit

  /** `left` and `right` are the children `i` and `i + 1` of `par`. */
  ghost predicate Neighbours(pages: Pages, metas: Metas, root: nat, next: nat, x: nat, par: nat, i: nat, left: nat,
          right: nat) {
    && TreeOkBut(pages, metas, root, next, x)
    && par in metas && par in pages && metas[par].ht > 0 && i < |pages[par].cells|
    && left == Child(pages[par], i) && right == Child(pages[par], i + 1)
  }

  lemma NeighbourRanges(pages: Pages, metas: Metas, root: nat, next: nat, x: nat, par: nat, i: nat, left: nat,
                        right: nat)
    requires Neighbours(pages, metas, root, next, x, par, i, left, right)
    ensures left in metas && right in metas && left in pages && right in pages
    ensures left != right && left != par && right != par && left != root && right != root
    ensures var m, sep := metas[par], pages[par].cells[i].key;
            && metas[left] == Meta(Low(pages[par], m, i), sep, m.ht - 1)
            && metas[right] == Meta(sep, High(pages[par], m, i + 1), m.ht - 1)
            && metas[left].lo < sep < metas[right].hi
    ensures NodeOk(pages, metas, root, x, left) && NodeOk(pages, metas, root, x, right)
    ensures NodeOk(pages, metas, root, x, par)
  {
    assert NodeOk(pages, metas, root, x, par);
    var p, m := pages[par], metas[par];
    assert ChildFits(metas, p, m, i) && ChildFits(metas, p, m, i + 1);
    SeparatorOrder(p, m, i);
    SeparatorOrder(p, m, i + 1);
    assert NodeOk(pages, metas, root, x, left) && NodeOk(pages, metas, root, x, right);
  }

  /** The only leaf that links to `right` is its left neighbour. */
  lemma OneLink(pages: Pages, metas: Metas, root: nat, next: nat, x: nat, par: nat, i: nat, left: nat, right: nat,
                id: nat)
    requires Neighbours(pages, metas, root, next, x, par, i, left, right)
    requires id in metas && id in pages && metas[id].ht == 0 && metas[id].hi != KEY_LIMIT && pages[id].ptr == right
    ensures id == left
  {
    NeighbourRanges(pages, metas, root, next, x, par, i, left, right);
    assert NodeOk(pages, metas, root, x, id);
    SamePage(metas, id, left, metas[left].hi - 1);
  }

  lemma NotTheirParent(pages: Pages, metas: Metas, root: nat, next: nat, x: nat, par: nat, i: nat, left: nat,
          right: nat, id: nat)
    requires Neighbours(pages, metas, root, next, x, par, i, left, right)
    requires id in metas && id in pages && id != par && metas[id].ht > 0
    ensures forall k {:trigger Child(pages[id], k)} :: 0 <= k <= |pages[id].cells| ==>
      Child(pages[id], k) != left && Child(pages[id], k) != right
  {
    ChildrenElsewhere(pages, metas, root, next, x, id, par, i);
    ChildrenElsewhere(pages, metas, root, next, x, id, par, i + 1);
  }

  // ---------------------------------------------------------------- moving the boundary

  function ShiftMetas(metas: Metas, left: nat, right: nat, sep: nat): Metas
    requires left in metas && right in metas
  {
    metas[left := metas[left].(hi := sep)][right := metas[right].(lo := sep)]
  }

  function NewSeparator(p: Page, i: nat, sep: nat): Page
    requires i < |p.cells|
  {
    p.(cells := p.cells[i := p.cells[i].(key := sep)])
  }

  lemma ShiftDisjoint(pages: Pages, metas: Metas, root: nat, next: nat, x: nat, par: nat, i: nat, left: nat,
          right: nat, sep: nat)
    requires Neighbours(pages, metas, root, next, x, par, i, left, right)
    requires left in metas && right in metas && metas[left].lo < sep < metas[right].hi
    ensures Disjoint(ShiftMetas(metas, left, right, sep))
  {
    NeighbourRanges(pages, metas, root, next, x, par, i, left, right);
    var metas' := ShiftMetas(metas, left, right, sep);
    forall a, b {:trigger metas'[a], metas'[b]} | a in metas' && b in metas' && a != b
      ensures Apart(metas'[a], metas'[b])
    {
      assert NodeOk(pages, metas, root, x, a) && NodeOk(pages, metas, root, x, b);
      assert Apart(metas[a], metas[b]);
      if a == left { assert b != right ==> Apart(metas[right], metas[b]); }
      if a == right { assert b != left ==> Apart(metas[left], metas[b]); }
      if b == left { assert a != right ==> Apart(metas[a], metas[right]); }
      if b == right { assert a != left ==> Apart(metas[a], metas[left]); }
    }
  }

  lemma SeparatorShaped(p: Page, m: Meta, root: nat, x: nat, par: nat, i: nat, sep: nat, x': nat)
    requires Shaped(p, m, root, x, par) && m.ht > 0 && i < |p.cells|
    requires Low(p, m, i) < sep < High(p, m, i + 1) && m.lo < sep && (par == x ==> par == x' || par == root)
    ensures Shaped(NewSeparator(p, i, sep), m, root, x', par)
  {
    var q := NewSeparator(p, i, sep);
    SeparatorOrder(p, m, i);
    SeparatorOrder(p, m, i + 1);
    forall a {:trigger q.cells[a].key} | 0 <= a < |q.cells| ensures m.lo < q.cells[a].key < m.hi {
      assert a != i ==> q.cells[a].key == p.cells[a].key;
    }
    forall a, b {:trigger q.cells[a].key, q.cells[b].key} | 0 <= a < b < |q.cells|
      ensures q.cells[a].key < q.cells[b].key
    {
      assert a != i ==> q.cells[a].key == p.cells[a].key;
      assert b != i ==> q.cells[b].key == p.cells[b].key;
      assert a < i - 1 ==> p.cells[a].key < p.cells[i - 1].key;
      assert b > i + 1 ==> p.cells[i + 1].key < p.cells[b].key;
    }
  }

  lemma ShiftedParentWired(metas: Metas, p: Page, m: Meta, i: nat, left: nat, right: nat, sep: nat)
    requires m.ht > 0 && ChildrenFit(metas, p, m) && i < |p.cells|
    requires left == Child(p, i) && right == Child(p, i + 1) && left in metas && right in metas
    requires forall k {:trigger Child(p, k)} :: 0 <= k <= |p.cells| && k != i ==> Child(p, k) != left
    requires forall k {:trigger Child(p, k)} :: 0 <= k <= |p.cells| && k != i + 1 ==> Child(p, k) != right
    ensures Wired(ShiftMetas(metas, left, right, sep), NewSeparator(p, i, sep), m)
  {
    var metas', q := ShiftMetas(metas, left, right, sep), NewSeparator(p, i, sep);
    forall k {:trigger ChildFits(metas', q, m, k)} | 0 <= k <= |q.cells| ensures ChildFits(metas', q, m, k) {
      assert ChildFits(metas, p, m, k);
      assert Child(q, k) == Child(p, k);
      assert k < |p.cells| && k != i ==> q.cells[k] == p.cells[k];
      assert k > 0 && k - 1 != i ==> q.cells[k - 1] == p.cells[k - 1];
    }
  }

  /** The boundary between two neighbours moves to `sep`: with two pages that fit their new ranges,
      the tree is in order.  The page that was short, if any, was one of the two. */
  lemma ShiftOk(pages: Pages, metas: Metas, root: nat, next: nat, x: nat, par: nat, i: nat, left: nat, right: nat,
                sep: nat, left': Page, right': Page)
    requires Neighbours(pages, metas, root, next, x, par, i, left, right) && (x == left || x == right)
    requires left in metas && right in metas && metas[left].lo < sep < metas[right].hi
    requires var metas' := ShiftMetas(metas, left, right, sep);
             && Shaped(left', metas'[left], root, next, left) && Wired(metas', left', metas'[left])
             && Shaped(right', metas'[right], root, next, right) && Wired(metas', right', metas'[right])
    ensures TreeOk(pages[left := left'][right := right'][par := NewSeparator(pages[par], i, sep)],
                   ShiftMetas(metas, left, right, sep), root, next)
  {
    var metas' := ShiftMetas(metas, left, right, sep);
    var pages' := pages[left := left'][right := right'][par := NewSeparator(pages[par], i, sep)];
    NeighbourRanges(pages, metas, root, next, x, par, i, left, right);
    PagesBelow(pages, metas, root, next, x);
    ShiftDisjoint(pages, metas, root, next, x, par, i, left, right, sep);
    forall id {:trigger NodeOk(pages', metas', root, next, id)} | id in metas'
      ensures NodeOk(pages', metas', root, next, id)
    {
      if id == par {
        SiblingsElsewhere(pages, metas, root, next, x, par, i);
        SiblingsElsewhere(pages, metas, root, next, x, par, i + 1);
        SeparatorShaped(pages[par], metas[par], root, x, par, i, sep, next);
        ShiftedParentWired(metas, pages[par], metas[par], i, left, right, sep);
      } else if id != left && id != right {
        ShiftElsewhere(pages, metas, root, next, x, par, i, left, right, sep, id);
      }
    }
  }

  lemma ShiftElsewhere(pages: Pages, metas: Metas, root: nat, next: nat, x: nat, par: nat, i: nat, left: nat,
                       right: nat,
                       sep: nat, id: nat)
    requires Neighbours(pages, metas, root, next, x, par, i, left, right) && left in metas && right in metas
    requires id in metas && id != par && id != left && id != right
    ensures id in pages && Shaped(pages[id], metas[id], root, x, id)
    ensures Wired(ShiftMetas(metas, left, right, sep), pages[id], metas[id])
  {
    assert NodeOk(pages, metas, root, x, id);
    if metas[id].ht > 0 {
      NotTheirParent(pages, metas, root, next, x, par, i, left, right, id);
    } else if metas[id].hi != KEY_LIMIT && pages[id].ptr == right {
      OneLink(pages, metas, root, next, x, par, i, left, right, id);
    }
    StillWired(metas, ShiftMetas(metas, left, right, sep), pages[id], metas[id]);
  }

  // ---------------------------------------------------------------- joining two neighbours

  function JoinMetas(metas: Metas, left: nat, right: nat): Metas
    requires left in metas && right in metas
  {
    metas[left := metas[left].(hi := metas[right].hi)] - {right}
  }

  /** The parent without separator `i`, its child on the right of it replaced by the one on the left. */
  function ParentAfterJoin(p: Page, i: nat, left: nat): Page
    requires i < |p.cells|
  {
    var w := p.(cells := Without(p.cells, i));
    SwapChild(w, i, left)
  }

  lemma JoinedParentCells(p: Page, i: nat, left: nat)
    requires i < |p.cells| && left == Child(p, i)
    ensures var q := ParentAfterJoin(p, i, left);
            && |q.cells| == |p.cells| - 1
            && (forall k {:trigger q.cells[k].key} :: 0 <= k < |q.cells| ==>
              q.cells[k].key == p.cells[if k < i then k else k + 1].key)
            && (forall k {:trigger Child(q, k)} :: 0 <= k <= |q.cells| ==>
                  Child(q, k) == if k <= i then Child(p, k) else Child(p, k + 1))
  {
    var q := ParentAfterJoin(p, i, left);
    forall k {:trigger Child(q, k)} | 0 <= k <= |q.cells|
      ensures Child(q, k) == if k <= i then Child(p, k) else Child(p, k + 1)
    {
      if k < i { assert q.cells[k] == p.cells[k]; }
      else if i < k < |q.cells| { assert q.cells[k] == p.cells[k + 1]; }
    }
  }

  lemma JoinDisjoint(pages: Pages, metas: Metas, root: nat, next: nat, x: nat, par: nat, i: nat, left: nat, right: nat)
    requires Neighbours(pages, metas, root, next, x, par, i, left, right) && left in metas && right in metas
    ensures Disjoint(JoinMetas(metas, left, right))
  {
    NeighbourRanges(pages, metas, root, next, x, par, i, left, right);
    var metas' := JoinMetas(metas, left, right);
    forall a, b {:trigger metas'[a], metas'[b]} | a in metas' && b in metas' && a != b
      ensures Apart(metas'[a], metas'[b])
    {
      assert NodeOk(pages, metas, root, x, a) && NodeOk(pages, metas, root, x, b);
      assert Apart(metas[a], metas[b]);
      if a == left { assert Apart(metas[right], metas[b]); }
      if b == left { assert Apart(metas[a], metas[right]); }
    }
  }

  lemma JoinedParentShaped(p: Page, m: Meta, root: nat, x: nat, par: nat, i: nat, left: nat)
    requires Shaped(p, m, root, x, par) && m.ht > 0 && i < |p.cells| && left == Child(p, i) && par != x
    ensures Shaped(ParentAfterJoin(p, i, left), m, root, par, par)
  {
    var q := ParentAfterJoin(p, i, left);
    JoinedParentCells(p, i, left);
    forall a {:trigger q.cells[a].key} | 0 <= a < |q.cells| ensures m.lo < q.cells[a].key < m.hi {
      assert q.cells[a].key == p.cells[if a < i then a else a + 1].key;
    }
  }

  lemma JoinedParentWired(metas: Metas, p: Page, m: Meta, i: nat, left: nat, right: nat)
    requires m.ht > 0 && ChildrenFit(metas, p, m) && i < |p.cells| && left == Child(p, i) && right == Child(p, i + 1)
    requires left in metas && right in metas && left != right
    requires forall k {:trigger Child(p, k)} :: 0 <= k <= |p.cells| && k != i ==> Child(p, k) != left
    requires forall k {:trigger Child(p, k)} :: 0 <= k <= |p.cells| && k != i + 1 ==> Child(p, k) != right
    ensures Wired(JoinMetas(metas, left, right), ParentAfterJoin(p, i, left), m)
  {
    var metas', q := JoinMetas(metas, left, right), ParentAfterJoin(p, i, left);
    JoinedParentCells(p, i, left);
    assert ChildFits(metas, p, m, i) && ChildFits(metas, p, m, i + 1);
    forall k {:trigger ChildFits(metas', q, m, k)} | 0 <= k <= |q.cells| ensures ChildFits(metas', q, m, k) {
      assert ChildFits(metas, p, m, if k <= i then k else k + 1);
      assert k < |q.cells| ==> q.cells[k].key == p.cells[if k < i then k else k + 1].key;
      assert k > 0 ==> q.cells[k - 1].key == p.cells[if k - 1 < i then k - 1 else k].key;
    }
  }

  /** Two neighbours become one page that covers both ranges; only the parent may now be short. */
  lemma JoinOk(pages: Pages, metas: Metas, root: nat, next: nat, x: nat, par: nat, i: nat, left: nat, right: nat,
          left': Page)
    requires Neighbours(pages, metas, root, next, x, par, i, left, right) && (x == left || x == right)
    requires left in metas && right in metas
    requires var metas' := JoinMetas(metas, left, right);
             && left in metas' && Shaped(left', metas'[left], root, next, left) && Wired(metas', left', metas'[left])
    ensures TreeOkBut(pages[left := left'][par := ParentAfterJoin(pages[par], i, left)],
                      JoinMetas(metas, left, right), root, next, par)
  {
    var metas' := JoinMetas(metas, left, right);
    var pages' := pages[left := left'][par := ParentAfterJoin(pages[par], i, left)];
    NeighbourRanges(pages, metas, root, next, x, par, i, left, right);
    PagesBelow(pages, metas, root, next, x);
    JoinDisjoint(pages, metas, root, next, x, par, i, left, right);
    forall id {:trigger NodeOk(pages', metas', root, par, id)} | id in metas'
      ensures NodeOk(pages', metas', root, par, id)
    {
      if id == par {
        SiblingsElsewhere(pages, metas, root, next, x, par, i);
        SiblingsElsewhere(pages, metas, root, next, x, par, i + 1);
        JoinedParentShaped(pages[par], metas[par], root, x, par, i, left);
        JoinedParentWired(metas, pages[par], metas[par], i, left, right);
      } else if id != left {
        JoinElsewhere(pages, metas, root, next, x, par, i, left, right, id);
      }
    }
  }

  lemma JoinElsewhere(pages: Pages, metas: Metas, root: nat, next: nat, x: nat, par: nat, i: nat, left: nat,
          right: nat, id: nat)
    requires Neighbours(pages, metas, root, next, x, par, i, left, right) && left in metas && right in metas
    requires id in metas && id != par && id != left && id != right
    ensures id in pages && Shaped(pages[id], metas[id], root, x, id)
    ensures Wired(JoinMetas(metas, left, right), pages[id], metas[id])
  {
    assert NodeOk(pages, metas, root, x, id);
    if metas[id].ht > 0 {
      NotTheirParent(pages, metas, root, next, x, par, i, left, right, id);
    } else if metas[id].hi != KEY_LIMIT && pages[id].ptr == right {
      OneLink(pages, metas, root, next, x, par, i, left, right, id);
    }
    StillWired(metas, JoinMetas(metas, left, right), pages[id], metas[id]);
  }

  // ---------------------------------------------------------------- an empty root

  /** A root without separators gives way to its only child. */
  lemma CollapseOk(pages: Pages, metas: Metas, root: nat, next: nat)
    requires TreeOkBut(pages, metas, root, next, root) && root in pages && metas[root].ht > 0
    requires |pages[root].cells| == 0
    ensures var top := pages[root].ptr;
            && top in pages && top in metas && top != root && metas[top] == metas[root].(ht := metas[root].ht - 1)
            && TreeOk(pages[top := SetPageKind(pages[top], Root)], metas - {root}, top, next)
  {
    var top, metas' := pages[root].ptr, metas - {root};
    assert NodeOk(pages, metas, root, root, root);
    assert ChildFits(metas, pages[root], metas[root], 0);
    assert NodeOk(pages, metas, root, root, top);
    PagesBelow(pages, metas, root, next, root);
    var pages' := pages[top := SetPageKind(pages[top], Root)];
    forall id {:trigger metas'[id]} | id in metas' ensures metas'[id].ht <= metas'[top].ht {
      OnlyRootAtop(pages, metas, root, next, id);
    }
    forall id {:trigger NodeOk(pages', metas', top, next, id)} | id in metas'
      ensures NodeOk(pages', metas', top, next, id)
    {
      CollapseElsewhere(pages, metas, root, next, id);
      if id == top {
        TopShaped(pages[top], metas[top], root, next, top);
        SameWiring(metas', pages[top], pages'[top], metas'[top]);
      } else {
        assert Shaped(pages[id], metas[id], top, next, id);
      }
    }
  }

  lemma SameWiring(metas: Metas, p: Page, q: Page, m: Meta)
    requires Wired(metas, p, m) && q.cells == p.cells && q.ptr == p.ptr
    ensures Wired(metas, q, m)
  {
    if m.ht > 0 {
      forall i {:trigger ChildFits(metas, q, m, i)} | 0 <= i <= |q.cells| ensures ChildFits(metas, q, m, i) {
        assert ChildFits(metas, p, m, i);
      }
    }
  }

  lemma TopShaped(p: Page, m: Meta, root: nat, next: nat, top: nat)
    requires Shaped(p, m, root, root, top) && top != root
    ensures Shaped(SetPageKind(p, Root), m, top, next, top)
    ensures SetPageKind(p, Root).cells == p.cells && SetPageKind(p, Root).ptr == p.ptr
  {
  }

  lemma OnlyRootAtop(pages: Pages, metas: Metas, root: nat, next: nat, id: nat)
    requires TreeOkBut(pages, metas, root, next, root) && id in metas && id != root
    ensures metas[id].ht < metas[root].ht
  {
    assert NodeOk(pages, metas, root, root, id);
    if metas[id].ht == metas[root].ht {
      SamePage(metas, id, root, metas[id].lo);
    }
  }

  lemma CollapseElsewhere(pages: Pages, metas: Metas, root: nat, next: nat, id: nat)
    requires TreeOkBut(pages, metas, root, next, root) && id in metas && id != root && root in pages
    requires metas[root].ht > 0
    ensures id in pages && Shaped(pages[id], metas[id], root, root, id)
    ensures Wired(metas - {root}, pages[id], metas[id])
  {
    assert NodeOk(pages, metas, root, root, id);
    if metas[id].ht > 0 {
      forall i {:trigger Child(pages[id], i)} | 0 <= i <= |pages[id].cells| ensures Child(pages[id], i) != root {
        assert ChildFits(metas, pages[id], metas[id], i);
      }
    }
    StillWired(metas, metas - {root}, pages[id], metas[id]);
  }
}
