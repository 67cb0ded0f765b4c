/** Merging two neighbours, and dropping an empty root. */
module TreeMerge {
  import opened Wrappers
  import opened IndexPages
  import opened TreeInv
  import opened TreeSplit
  import opened TreeContents
  import opened TreeShift
  import opened TreeDelete
  import opened TreeBorrow

  /** The left page with the right page's cells; above the leaves also the separator. */
  function Merged(left: Page, right: Page, sep: nat): Page {
    Join(left, left, right, sep)
  }

  /** Neighbours, one of them short, whose cells fit in one page. */
  ghost predicate Merges(pages: Pages, metas: Metas, root: nat, next: nat, x: nat, par: nat, i: nat, left: nat,
                         right: nat) {
    && Neighbours(pages, metas, root, next, x, par, i, left, right) && (x == left || x == right)
    && left in pages && right in pages && |Merged(pages[left], pages[right], pages[par].cells[i].key).cells| <= ORDER
  }

  lemma MergedShaped(pages: Pages, metas: Metas, root: nat, next: nat, x: nat, par: nat, i: nat, left: nat, right: nat)
    requires Merges(pages, metas, root, next, x, par, i, left, right)
    ensures left in metas && right in metas
    ensures Shaped(Merged(pages[left], pages[right], pages[par].cells[i].key), metas[left].(hi := metas[right].hi),
        root, next, left)
  {
    hide CellsIn, Sorted;
    NeighbourRanges(pages, metas, root, next, x, par, i, left, right);
    PagesBelow(pages, metas, root, next, x);
    var p, m, q, n := pages[left], metas[left], pages[right], metas[right];
    ShapedBody(p, m, root, x, left);
    ShapedBody(q, n, root, x, right);
    JoinBody(p, p, m, q, n);
    BodyShaped(p, m, Merged(p, q, m.hi), m.(hi := n.hi), root, x, left, next);
  }

  /** Pages one level below keep their wiring when two of their parents are joined. */
  lemma JoinKeepsChildren(metas: Metas, left: nat, right: nat, p: Page, m: Meta)
    requires left in metas && right in metas && metas[left].ht == metas[right].ht == m.ht && ChildrenFit(metas, p, m)
    ensures ChildrenFit(JoinMetas(metas, left, right), p, m)
  {
    ChildrenKept(metas, JoinMetas(metas, left, right), p, m);
  }

  lemma MergedWired(pages: Pages, metas: Metas, root: nat, next: nat, x: nat, par: nat, i: nat, left: nat, right: nat)
    requires Merges(pages, metas, root, next, x, par, i, left, right)
    ensures left in metas && right in metas
    ensures Wired(JoinMetas(metas, left, right), Merged(pages[left], pages[right], pages[par].cells[i].key),
                  metas[left].(hi := metas[right].hi))
  {
    hide CellsIn, Sorted;
    NeighbourRanges(pages, metas, root, next, x, par, i, left, right);
    var p, m, q, n := pages[left], metas[left], pages[right], metas[right];
    if m.ht > 0 {
      ShapedBody(p, m, root, x, left);
      ShapedBody(q, n, root, x, right);
      JoinWired(metas, p, p, m, q, n);
      JoinKeepsChildren(metas, left, right, Merged(p, q, m.hi), m.(hi := n.hi));
    } else {
      MergedLinked(metas, left, right, q);
    }
  }

  lemma MergedLinked(metas: Metas, left: nat, right: nat, q: Page)
    requires left in metas && right in metas && metas[left].ht == metas[right].ht == 0
    requires metas[left].lo < metas[left].hi == metas[right].lo < metas[right].hi && left != right
    requires Linked(metas, q, metas[right])
    ensures Linked(JoinMetas(metas, left, right), q, metas[left].(hi := metas[right].hi))
  {
  }

  lemma MergedHolds(pages: Pages, metas: Metas, root: nat, next: nat, x: nat, par: nat, i: nat, left: nat, right: nat,
                    contents: map<nat, nat>, pages': Pages)
    requires Merges(pages, metas, root, next, x, par, i, left, right) && Stores(pages, metas, contents)
    requires left in pages' && pages'[left] == Merged(pages[left], pages[right], pages[par].cells[i].key)
    requires forall id {:trigger pages'[id]} :: id in pages' && id != left && id != par ==>
      id in pages && pages'[id] == pages[id]
    ensures left in metas && right in metas && Stores(pages', JoinMetas(metas, left, right), contents)
  {
    NeighbourRanges(pages, metas, root, next, x, par, i, left, right);
    var metas' := JoinMetas(metas, left, right);
    forall id {:trigger pages'[id]} | id in metas' && id in pages' && metas'[id].ht == 0
      ensures LeafHolds(pages'[id].cells, metas'[id], contents)
    {
      if id == left {
        JoinedHolds(pages[left].cells, metas[left], pages[right].cells, metas[right], contents);
      }
    }
  }

  /** Merging two neighbours that fit in one page keeps the tree in order, but the parent may now be
      short; the contents stay. */
  lemma MergeOk(pages: Pages, metas: Metas, root: nat, next: nat, x: nat, par: nat, i: nat, left: nat, right: nat,
                contents: map<nat, nat>)
    requires Merges(pages, metas, root, next, x, par, i, left, right) && Stores(pages, metas, contents)
    ensures left in metas && right in metas
    ensures var pages' := pages[left := Merged(pages[left], pages[right], pages[par].cells[i].key)]
                               [par := ParentAfterJoin(pages[par], i, left)];
            TreeOkBut(pages', JoinMetas(metas, left, right), root, next, par)
            && Stores(pages', JoinMetas(metas, left, right), contents)
  {
    hide Shaped, Wired, CellsIn, Sorted;
    NeighbourRanges(pages, metas, root, next, x, par, i, left, right);
    MergedShaped(pages, metas, root, next, x, par, i, left, right);
    MergedWired(pages, metas, root, next, x, par, i, left, right);
    var q := Merged(pages[left], pages[right], pages[par].cells[i].key);
    JoinOk(pages, metas, root, next, x, par, i, left, right, q);
    MergedHolds(pages, metas, root, next, x, par, i, left, right, contents,
                pages[left := q][par := ParentAfterJoin(pages[par], i, left)]);
  }

  /** Two leaves always fit in one page when one is short and the other has none to spare. */
  lemma LeafMergeFits(left: Page, right: Page, sep: nat)
    requires IsLeafLevel(left)
    requires (|left.cells| < DEGREE && |right.cells| <= DEGREE) || (|left.cells| <= DEGREE && |right.cells| < DEGREE)
    ensures |Merged(left, right, sep).cells| <= ORDER
  {
  }

  /** An internal merge needs room for the separator as well: 101 and 102 separators do not fit. */
  lemma InnerMergeFits(left: Page, right: Page, sep: nat, was: Page, kind: Kind, id: nat, ptr: nat)
    requires !IsLeafLevel(left) && Sorted(Merged(left, right, sep).cells)
    ensures Rebuild(was, Merged(left, right, sep).cells, kind, id, ptr).Ok?
      <==> |left.cells| + |right.cells| + 1 <= ORDER
  {
    RebuildHolds(was, Merged(left, right, sep).cells, kind, id, ptr);
  }

  lemma CollapseHolds(pages: Pages, metas: Metas, root: nat, next: nat, contents: map<nat, nat>)
    requires TreeOkBut(pages, metas, root, next, root) && root in pages && metas[root].ht > 0
    requires |pages[root].cells| == 0
    requires Stores(pages, metas, contents)
    ensures var top := pages[root].ptr;
            top in pages && Stores(pages[top := SetPageKind(pages[top], Root)], metas - {root}, contents)
  {
    CollapseOk(pages, metas, root, next);
  }
}
