/** What lookups find after an insertion or a deletion has stopped half way. */
module TreeFind {
  import opened Wrappers
  import opened IndexPages
  import opened TreeInv
  import opened TreeSplit
  import opened TreeContents
  import opened TreeShift
  import opened TreeMerge
  import opened TreeRelabel
  import opened TreePath
  import opened TreeSteps
  import opened TreeDelete
  import opened TreeBorrow
  import opened TreeRepair

  /** A lookup below page `id`, over at most `ht` more levels. */
  function Find(pages: Pages, id: nat, key: nat, ht: nat): Option<nat>
    decreases ht
  {
    if id !in pages then None
    else
      var p := pages[id];
      if IsLeafLevel(p) then
        var i := LowerBound(p.cells, key);
        if FoundAt(p.cells, key, i) then Some(p.cells[i].ptr) else None
      else if ht == 0 then None
      else Find(pages, Child(p, ChildIndex(p.cells, key)), key, ht - 1)
  }

  function Held(contents: map<nat, nat>, key: nat): Option<nat> {
    if key in contents then Some(contents[key]) else None
  }

  // ---------------------------------------------------------------- in a tree in order

  /** A lookup in the range of a page finds what the contents hold. */
  lemma {:induction false} FindIsHeld(pages: Pages, metas: Metas, root: nat, next: nat, x: nat,
                                       contents: map<nat, nat>, id: nat, key: nat)
    requires TreeOkBut(pages, metas, root, next, x) && Stores(pages, metas, contents)
    requires id in metas && metas[id].lo <= key < metas[id].hi
    ensures Find(pages, id, key, metas[id].ht) == Held(contents, key)
    decreases metas[id].ht
  {
    assert NodeOk(pages, metas, root, x, id);
    if metas[id].ht == 0 {
      KeyKnown(pages[id].cells, metas[id], contents, key);
    } else {
      DescendCovers(pages, metas, root, next, x, id, key);
      FindIsHeld(pages, metas, root, next, x, contents, Child(pages[id], ChildIndex(pages[id].cells, key)), key);
    }
  }

  /** A lookup outside the range of a page finds nothing. */
  lemma {:induction false} FindOutside(pages: Pages, metas: Metas, root: nat, next: nat, x: nat, id: nat, key: nat)
    requires TreeOkBut(pages, metas, root, next, x) && id in metas && !(metas[id].lo <= key < metas[id].hi)
    ensures Find(pages, id, key, metas[id].ht) == None
    decreases metas[id].ht
  {
    assert NodeOk(pages, metas, root, x, id);
    if metas[id].ht > 0 {
      var i := ChildIndex(pages[id].cells, key);
      assert ChildFits(metas, pages[id], metas[id], i);
      SeparatorOrder(pages[id], metas[id], i);
      FindOutside(pages, metas, root, next, x, Child(pages[id], i), key);
    }
  }

  /** A lookup depends on the page and on the lower ones. */
  lemma {:induction false} FindSame(pages: Pages, metas: Metas, root: nat, next: nat, x: nat, pages': Pages, id: nat,
          key: nat)
    requires TreeOkBut(pages, metas, root, next, x) && id in metas
    requires forall c {:trigger c in metas} :: c in metas && (metas[c].ht < metas[id].ht || c == id) ==>
      c in pages && c in pages' && pages'[c] == pages[c]
    ensures Find(pages', id, key, metas[id].ht) == Find(pages, id, key, metas[id].ht)
    decreases metas[id].ht
  {
    assert NodeOk(pages, metas, root, x, id);
    if metas[id].ht > 0 {
      var i := ChildIndex(pages[id].cells, key);
      assert ChildFits(metas, pages[id], metas[id], i);
      FindSame(pages, metas, root, next, x, pages', Child(pages[id], i), key);
    }
  }

  // ---------------------------------------------------------------- a split whose parent is full

  /** Page `over` was split, and the new page took its place under the full parent; the separator
      could not be added. */
  ghost predicate SplitStuck(pages: Pages, metas: Metas, root: nat, next: nat, over: nat, par: nat, j: nat,
                             pages': Pages) {
    && TreeOk(pages, metas, root, next) && over in metas && par in metas && metas[par].ht > 0
    && over in pages && par in pages && |pages[over].cells| == ORDER
    && j <= |pages[par].cells| && Child(pages[par], j) == over
    && pages' == SplitPages(pages, over, next)[par := SwapChild(pages[par], j, next)]
  }

  ghost predicate Between(lo: nat, k: nat, hi: nat) {
    lo <= k < hi
  }

  lemma StuckFacts(pages: Pages, metas: Metas, root: nat, next: nat, over: nat, par: nat, j: nat, pages': Pages)
    requires SplitStuck(pages, metas, root, next, over, par, j, pages')
    ensures next !in metas && next !in pages && over != par && metas[over].ht + 1 == metas[par].ht && over != root
    ensures NodeOk(pages, metas, root, next, over) && metas[over].lo < PromotedKey(pages[over]) < metas[over].hi
    ensures forall c {:trigger c in metas} :: c in metas && c != over && c != par ==>
      c in pages && c in pages' && pages'[c] == pages[c]
    ensures next in pages' && pages'[next] == RightHalf(pages[over], next)
  {
    PagesBelow(pages, metas, root, next, next);
    assert NodeOk(pages, metas, root, next, over) && NodeOk(pages, metas, root, next, par);
    assert ChildFits(metas, pages[par], metas[par], j);
    SepInside(pages[over], metas[over], root, next, over);
  }

  /** Other pages on the split page's level answer as before. */
  lemma StuckElsewhere(pages: Pages, metas: Metas, root: nat, next: nat, over: nat, par: nat, j: nat, pages': Pages,
          id: nat, key: nat,
                       contents: map<nat, nat>)
    requires SplitStuck(pages, metas, root, next, over, par, j, pages') && Stores(pages, metas, contents)
    requires id in metas && id != over && metas[id].ht <= metas[over].ht && metas[id].lo <= key < metas[id].hi
    ensures Find(pages', id, key, metas[id].ht) == Held(contents, key)
  {
    StuckFacts(pages, metas, root, next, over, par, j, pages');
    FindSame(pages, metas, root, next, next, pages', id, key);
    FindIsHeld(pages, metas, root, next, next, contents, id, key);
  }

  /** The new page answers for the keys from the separator on, and for no others. */
  lemma StuckRight(pages: Pages, metas: Metas, root: nat, next: nat, over: nat, par: nat, j: nat, pages': Pages,
                   key: nat,
                   contents: map<nat, nat>)
    requires SplitStuck(pages, metas, root, next, over, par, j, pages') && Stores(pages, metas, contents)
    requires metas[over].lo <= key < metas[over].hi
    ensures Find(pages', next, key, metas[over].ht)
      == if key < PromotedKey(pages[over]) then None else Held(contents, key)
  {
    hide Find;
    StuckFacts(pages, metas, root, next, over, par, j, pages');
    if metas[over].ht == 0 {
      StuckRightLeaf(pages, metas, root, next, over, par, j, pages', key, contents);
    } else {
      var i := StuckRightChild(pages, metas, root, next, over, par, j, pages', key);
      var c := Child(pages'[next], i);
      if key < PromotedKey(pages[over]) {
        FindSame(pages, metas, root, next, next, pages', c, key);
        FindOutside(pages, metas, root, next, next, c, key);
      } else {
        StuckElsewhere(pages, metas, root, next, over, par, j, pages', c, key, contents);
      }
    }
  }

  lemma StuckRightLeaf(pages: Pages, metas: Metas, root: nat, next: nat, over: nat, par: nat, j: nat, pages': Pages,
          key: nat,
                       contents: map<nat, nat>)
    requires SplitStuck(pages, metas, root, next, over, par, j, pages') && Stores(pages, metas, contents)
    requires metas[over].lo <= key < metas[over].hi && metas[over].ht == 0
    ensures Find(pages', next, key, metas[over].ht)
      == if key < PromotedKey(pages[over]) then None else Held(contents, key)
  {
    hide SplitPages;
    StuckFacts(pages, metas, root, next, over, par, j, pages');
    var p, m, s := pages[over], metas[over], SplitAt(pages[over]);
    SuffixSorted(p.cells, s);
    HalfHolds(p.cells, m, s, contents);
    if key < p.cells[s].key {
      KeyFound(p.cells[s..], key);
      forall i | 0 <= i < |p.cells| - s ensures p.cells[s..][i].key != key {
        KeysAscend(p.cells, s, s + i);
      }
    } else {
      KeyKnown(p.cells[s..], m.(lo := p.cells[s].key), contents, key);
    }
  }

  /** The child of the new page that a lookup goes to. */
  lemma StuckRightChild(pages: Pages, metas: Metas, root: nat, next: nat, over: nat, par: nat, j: nat, pages': Pages,
          key: nat)
    returns (i: nat)
    requires SplitStuck(pages, metas, root, next, over, par, j, pages') && metas[over].ht > 0
    requires metas[over].lo <= key < metas[over].hi
    ensures next in pages' && i <= |pages'[next].cells|
    ensures var c := Child(pages'[next], i);
            && c in metas && c != over && metas[c].ht + 1 == metas[over].ht && PromotedKey(pages[over]) <= metas[c].lo
            && (key >= PromotedKey(pages[over]) ==> metas[c].lo <= key < metas[c].hi)
            && Find(pages', next, key, metas[over].ht) == Find(pages', c, key, metas[c].ht)
  {
    hide SplitPages, Shaped, Disjoint;
    StuckFacts(pages, metas, root, next, over, par, j, pages');
    FullInner(pages[over], metas[over], root, next, over);
    i := RightChildRange(pages[over], metas[over], metas, next, key);
  }

  lemma FullInner(p: Page, m: Meta, root: nat, x: nat, id: nat)
    requires Shaped(p, m, root, x, id) && m.ht > 0
    ensures !IsLeafLevel(p) && Sorted(p.cells)
  {
  }

  lemma RightChildRange(p: Page, m: Meta, metas: Metas, right: nat, key: nat) returns (i: nat)
    requires !IsLeafLevel(p) && Sorted(p.cells) && |p.cells| == ORDER && m.ht > 0 && ChildrenFit(metas, p, m)
    requires key < m.hi
    ensures i <= |RightHalf(p, right).cells| && i == ChildIndex(RightHalf(p, right).cells, key)
    ensures !IsLeafLevel(RightHalf(p, right))
    ensures var c := Child(RightHalf(p, right), i);
            && c in metas && metas[c].ht + 1 == m.ht && PromotedKey(p) <= metas[c].lo
            && (key >= PromotedKey(p) ==> metas[c].lo <= key < metas[c].hi)
  {
    hide ChildrenFit, ChildIndex, Sorted;
    var s := SplitAt(p);
    var q := RightHalf(p, right);
    SuffixSorted(p.cells, s + 1);
    i := ChildIndex(q.cells, key);
    assert ChildFits(metas, p, m, s + 1 + i) by { FitsAt(metas, p, m, s + 1 + i); }
    KeysAscend(p.cells, s, s + i);
  }

  lemma FitsAt(metas: Metas, p: Page, m: Meta, i: nat)
    requires ChildrenFit(metas, p, m) && i <= |p.cells|
    ensures ChildFits(metas, p, m, i)
  {
  }

  /** From the full parent: everything is found but the keys of the left half. */
  lemma StuckAtParent(pages: Pages, metas: Metas, root: nat, next: nat, over: nat, par: nat, j: nat, pages': Pages,
                      key: nat,
                      contents: map<nat, nat>)
    requires SplitStuck(pages, metas, root, next, over, par, j, pages') && Stores(pages, metas, contents)
    requires metas[par].lo <= key < metas[par].hi
    ensures Find(pages', par, key, metas[par].ht)
         == if Between(metas[over].lo, key, PromotedKey(pages[over])) then None else Held(contents, key)
  {
    hide Stores, SplitPages, Disjoint, Shaped, Wired;
    StuckFacts(pages, metas, root, next, over, par, j, pages');
    DescendCovers(pages, metas, root, next, next, par, key);
    ParentSorted(pages, metas, root, next, par);
    SwappedChild(pages[par], j, next, key);
    var i := ChildIndex(pages[par].cells, key);
    if i == j {
      StuckRight(pages, metas, root, next, over, par, j, pages', key, contents);
    } else {
      SiblingsElsewhere(pages, metas, root, next, next, par, j);
      StuckBeside(pages, metas, root, next, over, par, j, pages', Child(pages[par], i), key, contents);
    }
  }

  lemma ParentSorted(pages: Pages, metas: Metas, root: nat, next: nat, id: nat)
    requires TreeOk(pages, metas, root, next) && id in metas && metas[id].ht > 0
    ensures id in pages && Sorted(pages[id].cells) && !IsLeafLevel(pages[id])
  {
    assert NodeOk(pages, metas, root, next, id);
  }

  /** From another page of the split page's level. */
  lemma StuckBeside(pages: Pages, metas: Metas, root: nat, next: nat, over: nat, par: nat, j: nat, pages': Pages,
          c: nat, key: nat,
                    contents: map<nat, nat>)
    requires SplitStuck(pages, metas, root, next, over, par, j, pages') && Stores(pages, metas, contents)
    requires c in metas && c != over && metas[c].ht == metas[over].ht && metas[c].lo <= key < metas[c].hi
    ensures Find(pages', c, key, metas[c].ht)
         == if Between(metas[over].lo, key, PromotedKey(pages[over])) then None else Held(contents, key)
  {
    StuckFacts(pages, metas, root, next, over, par, j, pages');
    StuckElsewhere(pages, metas, root, next, over, par, j, pages', c, key, contents);
    NotWithin(metas, c, over, key);
  }

  /** From the pages above: everything is found but the keys of the left half. */
  lemma {:induction false} StuckFinds(pages: Pages, metas: Metas, root: nat, next: nat, over: nat, par: nat, j: nat,
          pages': Pages,
                                      id: nat, key: nat, contents: map<nat, nat>)
    requires SplitStuck(pages, metas, root, next, over, par, j, pages') && Stores(pages, metas, contents)
    requires id in metas && metas[id].lo <= key < metas[id].hi && metas[id].ht >= metas[par].ht
    ensures Find(pages', id, key, metas[id].ht)
         == if Between(metas[over].lo, key, PromotedKey(pages[over])) then None else Held(contents, key)
    decreases metas[id].ht
  {
    hide Stores, SplitPages, Disjoint, Shaped, Wired;
    if id == par {
      StuckAtParent(pages, metas, root, next, over, par, j, pages', key, contents);
    } else {
      StuckFacts(pages, metas, root, next, over, par, j, pages');
      ParentSorted(pages, metas, root, next, id);
      DescendCovers(pages, metas, root, next, next, id, key);
      var c := Child(pages[id], ChildIndex(pages[id].cells, key));
      if metas[id].ht == metas[par].ht {
        ChildrenElsewhere(pages, metas, root, next, next, id, par, j);
        StuckBeside(pages, metas, root, next, over, par, j, pages', c, key, contents);
      } else {
        StuckFinds(pages, metas, root, next, over, par, j, pages', c, key, contents);
      }
    }
  }

  lemma NotWithin(metas: Metas, c: nat, over: nat, key: nat)
    requires Disjoint(metas) && c in metas && over in metas && c != over && metas[c].ht == metas[over].ht
    requires metas[c].lo <= key < metas[c].hi
    ensures !(metas[over].lo <= key < metas[over].hi)
  {
  }

  /** Redirecting a child pointer does not change which position a key goes to. */
  lemma SwappedChild(p: Page, j: nat, to: nat, key: nat)
    requires Sorted(p.cells) && j <= |p.cells|
    ensures var q := SwapChild(p, j, to);
            var i := ChildIndex(p.cells, key);
            && IsLeafLevel(q) == IsLeafLevel(p) && ChildIndex(q.cells, key) == i
            && Child(q, i) == if i == j then to else Child(p, i)
  {
    var q := SwapChild(p, j, to);
    assert forall a {:trigger q.cells[a].key} :: 0 <= a < |p.cells| ==> q.cells[a].key == p.cells[a].key;
    SameIndex(p.cells, q.cells, key);
  }

  lemma SameIndex(a: seq<Cell>, b: seq<Cell>, key: nat)
    requires Sorted(a) && |a| == |b| && forall i {:trigger b[i].key} {:trigger a[i].key} :: 0 <= i < |a| ==>
      b[i].key == a[i].key
    ensures ChildIndex(b, key) == ChildIndex(a, key)
  {
    assert Sorted(b);
    IndexIs(b, key, ChildIndex(a, key));
  }

  lemma IndexIs(cells: seq<Cell>, key: nat, r: nat)
    requires Sorted(cells) && r <= |cells|
    requires r > 0 ==> cells[r - 1].key <= key
    requires r < |cells| ==> key < cells[r].key
    ensures ChildIndex(cells, key) == r
  {
    var i := ChildIndex(cells, key);
    assert r > 0 ==> r - 1 < i;
    assert r < |cells| ==> !(r < i);
  }

  /** Lookups in `pages` find the contents, except that they miss every key in `[lo, hi)`; and there is
      such a key. */
  ghost predicate Loses(pages: Pages, root: nat, ht: nat, contents: map<nat, nat>, lo: nat, hi: nat) {
    && (exists k :: k in contents && lo <= k < hi)
    && forall k: nat {:trigger Find(pages, root, k, ht)} :: k < KEY_LIMIT ==>
        Find(pages, root, k, ht) == if Between(lo, k, hi) then None else Held(contents, k)
  }

  /** An insertion that cannot add a separator loses the left half of the page it split. */
  lemma StuckLoses(pages: Pages, metas: Metas, root: nat, next: nat, over: nat, par: nat, j: nat, pages': Pages,
          contents: map<nat, nat>)
    requires SplitStuck(pages, metas, root, next, over, par, j, pages') && Stores(pages, metas, contents)
    ensures root in metas && Loses(pages', root, metas[root].ht, contents, metas[over].lo, PromotedKey(pages[over]))
  {
    hide Stores, Find;
    var f := LeftHasKey(pages, metas, root, next, over, contents);
    forall k: nat {:trigger Find(pages', root, k, metas[root].ht)} | k < KEY_LIMIT
      ensures Find(pages', root, k, metas[root].ht)
           == if Between(metas[over].lo, k, PromotedKey(pages[over])) then None else Held(contents, k)
    {
      StuckFinds(pages, metas, root, next, over, par, j, pages', root, k, contents);
    }
  }

  /** The left half of a full page holds some key. */
  lemma LeftHasKey(pages: Pages, metas: Metas, root: nat, next: nat, over: nat, contents: map<nat, nat>)
    returns (k: nat)
    requires TreeOk(pages, metas, root, next) && Stores(pages, metas, contents) && over in metas && over in pages
    requires |pages[over].cells| == ORDER
    ensures k in contents && metas[over].lo <= k < PromotedKey(pages[over])
  {
    assert NodeOk(pages, metas, root, next, over);
    SepInside(pages[over], metas[over], root, next, over);
    var f := FirstAt(pages, metas, root, next, next, over, 0);
    assert NodeOk(pages, metas, root, next, f);
    k := FirstKey(pages, metas, root, next, over, f);
    assert Cell(k, pages[f].cells[0].ptr) in pages[f].cells;
    if metas[over].ht > 0 {
      SeparatorIsLow(pages, metas, root, next, next, over, SplitAt(pages[over]));
      NoBoundInside(pages, metas, root, next, next, f, Child(pages[over], SplitAt(pages[over]) + 1));
    } else {
      SamePage(metas, f, over, metas[f].lo);
      KeysAscend(pages[over].cells, 0, SplitAt(pages[over]));
    }
  }

  lemma FirstKey(pages: Pages, metas: Metas, root: nat, next: nat, over: nat, f: nat) returns (k: nat)
    requires TreeOk(pages, metas, root, next) && over in metas && over in pages && |pages[over].cells| == ORDER
    requires f in metas && metas[f].ht == 0 && metas[f].lo == metas[over].lo
    ensures f in pages && |pages[f].cells| > 0 && k == pages[f].cells[0].key
    ensures metas[f].lo <= k < metas[f].hi
  {
    assert NodeOk(pages, metas, root, next, f) && NodeOk(pages, metas, root, next, over);
    if f == root {
      SamePageAsRoot(pages, metas, root, next, over);
    }
    k := pages[f].cells[0].key;
  }

  /** When the root is a leaf, it is the only page. */
  lemma SamePageAsRoot(pages: Pages, metas: Metas, root: nat, next: nat, id: nat)
    requires TreeOk(pages, metas, root, next) && id in metas && root in metas && metas[root].ht == 0
    ensures id == root
  {
    assert NodeOk(pages, metas, root, next, id);
    SamePage(metas, id, root, metas[id].lo);
  }

  // ---------------------------------------------------------------- a merge that does not fit

  /** What a failed merge leaves in the left page: the first of the cells, as many as a page takes. */
  function HalfMerged(left: Page, right: Page, sep: nat): Page
    requires |Merged(left, right, sep).cells| >= ORDER
  {
    Merged(left, right, sep).(cells := Merged(left, right, sep).cells[..ORDER])
  }

  /** The rebuild of the left page leaves exactly that. */
  lemma HalfMergedIs(left: Page, right: Page, sep: nat, id: nat)
    requires |Merged(left, right, sep).cells| > ORDER && !IsLeafLevel(left) && left.id == id && !left.rootLeaf
      && left.kind != Root && Sorted(Merged(left, right, sep).cells)
    ensures HalfMerged(left, right, sep)
         == RebuildKept(left, left.cells + [Cell(sep, left.ptr)] + right.cells, Internal, id, right.ptr)
  {
    RebuildKeeps(left, left.cells + [Cell(sep, left.ptr)] + right.cells, Internal, id, right.ptr);
  }

  ghost predicate MergeStuck(pages: Pages, metas: Metas, root: nat, next: nat, x: nat, par: nat, i: nat, left: nat,
          right: nat) {
    && Neighbours(pages, metas, root, next, x, par, i, left, right) && left in pages && right in pages
    && !IsLeafLevel(pages[left]) && |Merged(pages[left], pages[right], pages[par].cells[i].key).cells| > ORDER
    && |pages[left].cells| < ORDER
  }

  /** The left page still sends the keys of its old range where it did. */
  lemma HalfMergedChild(left: Page, right: Page, sep: nat, key: nat)
    requires !IsLeafLevel(left) && |left.cells| < ORDER && |Merged(left, right, sep).cells| > ORDER
    requires Sorted(left.cells) && Sorted(Merged(left, right, sep).cells) && key < sep
    ensures var q := HalfMerged(left, right, sep);
            var i := ChildIndex(left.cells, key);
            !IsLeafLevel(q) && ChildIndex(q.cells, key) == i && i <= |q.cells| && Child(q, i) == Child(left, i)
  {
    var all, n := Merged(left, right, sep).cells, |left.cells|;
    var q := HalfMerged(left, right, sep);
    PrefixOfSorted(all, ORDER);
    var i := ChildIndex(left.cells, key);
    assert forall a {:trigger q.cells[a]} :: 0 <= a < n ==> q.cells[a] == left.cells[a];
    assert q.cells[n] == Cell(sep, left.ptr);
    IndexIs(q.cells, key, i);
  }

  /** A deletion that cannot merge two pages still finds everything. */
  lemma {:induction false} MergeStuckFinds(pages: Pages, metas: Metas, root: nat, next: nat, x: nat, par: nat,
          i: nat, left: nat, right: nat,
                                           id: nat, key: nat, contents: map<nat, nat>)
    requires MergeStuck(pages, metas, root, next, x, par, i, left, right) && Stores(pages, metas, contents)
    requires Sorted(Merged(pages[left], pages[right], pages[par].cells[i].key).cells)
    requires id in metas && metas[id].lo <= key < metas[id].hi
    ensures Find(pages[left := HalfMerged(pages[left], pages[right], pages[par].cells[i].key)], id, key, metas[id].ht)
         == Held(contents, key)
    decreases metas[id].ht
  {
    hide Stores, HalfMerged, Merged, Disjoint, CellsIn, Wired;
    NeighbourRanges(pages, metas, root, next, x, par, i, left, right);
    assert NodeOk(pages, metas, root, x, id);
    var pages' := pages[left := HalfMerged(pages[left], pages[right], pages[par].cells[i].key)];
    if metas[id].ht == 0 {
      FindIsHeld(pages, metas, root, next, x, contents, id, key);
    } else {
      DescendCovers(pages, metas, root, next, x, id, key);
      MergeStuckFinds(pages, metas, root, next, x, par, i, left, right,
                      Child(pages[id], ChildIndex(pages[id].cells, key)), key, contents);
      if id == left { HalfMergedChild(pages[left], pages[right], pages[par].cells[i].key, key); }
    }
  }

  /** Lookups find exactly the contents. */
  ghost predicate Finds(pages: Pages, root: nat, ht: nat, contents: map<nat, nat>) {
    forall k: nat {:trigger Find(pages, root, k, ht)} :: k < KEY_LIMIT ==> Find(pages, root, k, ht) == Held(contents, k)
  }

  lemma MergeStuckKeeps(pages: Pages, metas: Metas, root: nat, next: nat, x: nat, par: nat, i: nat, left: nat,
          right: nat, contents: map<nat, nat>)
    requires MergeStuck(pages, metas, root, next, x, par, i, left, right) && Stores(pages, metas, contents)
    requires Sorted(Merged(pages[left], pages[right], pages[par].cells[i].key).cells)
    ensures root in metas
    ensures Finds(pages[left := HalfMerged(pages[left], pages[right], pages[par].cells[i].key)],
                  root, metas[root].ht, contents)
  {
    hide Find;
    forall k: nat | k < KEY_LIMIT
      ensures Find(pages[left := HalfMerged(pages[left], pages[right], pages[par].cells[i].key)],
                   root, k, metas[root].ht)
           == Held(contents, k)
    {
      MergeStuckFinds(pages, metas, root, next, x, par, i, left, right, root, k, contents);
    }
  }

  /** The pages as a failed merge leaves them; only an internal merge fails. */
  lemma MergeDoesNotFit(pages: Pages, metas: Metas, root: nat, next: nat, x: nat, par: nat, i: nat, left: nat,
                        right: nat,
                        contents: map<nat, nat>)
    requires Neighbours(pages, metas, root, next, x, par, i, left, right) && left in pages && right in pages
    requires Stores(pages, metas, contents)
    requires |Merged(pages[left], pages[right], pages[par].cells[i].key).cells| > ORDER
    requires |pages[left].cells| <= DEGREE && |pages[right].cells| <= DEGREE
    requires |pages[left].cells| < DEGREE || |pages[right].cells| < DEGREE
    ensures !IsLeafLevel(pages[left]) && root in metas && pages[left].kind == Internal && pages[right].kind == Internal
    ensures var l, r, sep := pages[left], pages[right], pages[par].cells[i].key;
            HalfMerged(l, r, sep) == RebuildKept(l, l.cells + [Cell(sep, l.ptr)] + r.cells, Internal, left, r.ptr)
    ensures Finds(pages[left := HalfMerged(pages[left], pages[right], pages[par].cells[i].key)],
                  root, metas[root].ht, contents)
  {
    hide Finds;
    MergeSteps(pages, metas, root, next, x, par, i, left, right);
    MergedSorted(pages, metas, root, next, x, par, i, left, right);
    InternalPages(pages, metas, root, next, x, par, i, left, right);
    HalfMergedIs(pages[left], pages[right], pages[par].cells[i].key, left);
    MergeStuckKeeps(pages, metas, root, next, x, par, i, left, right, contents);
  }

  /** Neighbours above the leaves are no root and no leaves. */
  lemma InternalPages(pages: Pages, metas: Metas, root: nat, next: nat, x: nat, par: nat, i: nat, left: nat, right: nat)
    requires Neighbours(pages, metas, root, next, x, par, i, left, right) && left in pages && right in pages
    requires !IsLeafLevel(pages[left])
    ensures pages[left].kind == Internal && pages[left].id == left && !pages[left].rootLeaf
    ensures pages[right].kind == Internal
  {
    NeighbourRanges(pages, metas, root, next, x, par, i, left, right);
    assert NodeOk(pages, metas, root, x, left) && NodeOk(pages, metas, root, x, right);
  }

  lemma MergedSorted(pages: Pages, metas: Metas, root: nat, next: nat, x: nat, par: nat, i: nat, left: nat, right: nat)
    requires Neighbours(pages, metas, root, next, x, par, i, left, right) && left in pages && right in pages
    ensures Sorted(Merged(pages[left], pages[right], pages[par].cells[i].key).cells)
  {
    hide CellsIn, Sorted;
    NeighbourRanges(pages, metas, root, next, x, par, i, left, right);
    ShapedBody(pages[left], metas[left], root, x, left);
    ShapedBody(pages[right], metas[right], root, x, right);
    JoinBody(pages[left], pages[left], metas[left], pages[right], metas[right]);
  }
}
