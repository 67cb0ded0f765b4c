/** Splitting a full page keeps the tree in order and its contents unchanged. */
module TreeSplit {
  import opened IndexPages
  import opened TreeInv

  // ---------------------------------------------------------------- the two halves

  function SplitAt(p: Page): nat {
    (|p.cells| + 1) / 2
  }

  /** The separator that goes up: the key of the first cell after the left half. */
  function PromotedKey(p: Page): nat
    requires |p.cells| >= 2
  {
    p.cells[SplitAt(p)].key
  }

  function LeftHalf(p: Page, right: nat): Page
    requires |p.cells| >= 2
  {
    var s := SplitAt(p);
    if IsLeafLevel(p) then Page(p.id, Leaf, false, right, p.cells[..s])
    else Page(p.id, Internal, false, p.cells[s].ptr, p.cells[..s])
  }

  /** On the leaf level the promoted key stays in the right half; above, it only moves up. */
  function RightHalf(p: Page, right: nat): Page
    requires |p.cells| >= 2
  {
    var s := SplitAt(p);
    if IsLeafLevel(p) then Page(right, Leaf, false, p.ptr, p.cells[s..])
    else Page(right, Internal, false, p.ptr, p.cells[s + 1..])
  }

  function LeftMeta(p: Page, m: Meta): Meta
    requires |p.cells| >= 2
  {
    m.(hi := PromotedKey(p))
  }

  function RightMeta(p: Page, m: Meta): Meta
    requires |p.cells| >= 2
  {
    m.(lo := PromotedKey(p))
  }

  // ---------------------------------------------------------------- the halves are in order

  ghost predicate Full(p: Page, m: Meta, root: nat, x: nat, id: nat) {
    Shaped(p, m, root, x, id) && |p.cells| == ORDER
  }

  lemma SepInside(p: Page, m: Meta, root: nat, x: nat, id: nat)
    requires Full(p, m, root, x, id)
    ensures m.lo < PromotedKey(p) < m.hi
  {
    assert p.cells[0].key < p.cells[SplitAt(p)].key;
  }

  lemma LeftShaped(p: Page, m: Meta, root: nat, x: nat, id: nat, right: nat, root': nat, x': nat)
    requires Full(p, m, root, x, id) && id != root'
    ensures Shaped(LeftHalf(p, right), LeftMeta(p, m), root', x', id)
    ensures |LeftHalf(p, right).cells| == 102
  {
    SepInside(p, m, root, x, id);
    var l, s := LeftHalf(p, right), SplitAt(p);
    assert forall i {:trigger l.cells[i].key} :: 0 <= i < |l.cells| ==>
      l.cells[i].key == p.cells[i].key < p.cells[s].key;
  }

  /** A suffix of sorted cells is sorted, and its keys are those of the suffix. */
  lemma SuffixSorted(cells: seq<Cell>, d: nat)
    requires Sorted(cells) && d <= |cells|
    ensures Sorted(cells[d..])
    ensures forall i {:trigger cells[d..][i].key} :: 0 <= i < |cells| - d ==> cells[d..][i].key == cells[d + i].key
  {
    var r := cells[d..];
    forall a, b {:trigger r[a].key, r[b].key} | 0 <= a < b < |r| ensures r[a].key < r[b].key {
      assert r[a] == cells[d + a] && r[b] == cells[d + b];
    }
  }

  /** A suffix of a page's cells, with a lower bound that fits its first key. */
  lemma SuffixIn(cells: seq<Cell>, m: Meta, d: nat, lo: nat)
    requires Sorted(cells) && CellsIn(cells, m) && d < |cells|
    requires if m.ht == 0 then lo <= cells[d].key else lo < cells[d].key
    ensures CellsIn(cells[d..], m.(lo := lo))
  {
    var r := cells[d..];
    forall i {:trigger r[i].key} | 0 <= i < |r|
      ensures (if m.ht == 0 then lo <= r[i].key else lo < r[i].key) && r[i].key < m.hi
    {
      assert r[i] == cells[d + i];
      assert i > 0 ==> cells[d].key < cells[d + i].key;
    }
  }

  lemma RightShaped(p: Page, m: Meta, root: nat, x: nat, id: nat, right: nat, root': nat, x': nat)
    requires Full(p, m, root, x, id) && right != root'
    ensures Shaped(RightHalf(p, right), RightMeta(p, m), root', x', right)
    ensures |RightHalf(p, right).cells| == if m.ht == 0 then 101 else 100
  {
    hide Sorted, CellsIn;
    SepInside(p, m, root, x, id);
    var s := SplitAt(p);
    var d := if m.ht == 0 then s else s + 1;
    SuffixSorted(p.cells, d);
    KeysAscend(p.cells, s, d);
    SuffixIn(p.cells, m, d, PromotedKey(p));
  }

  lemma KeysAscend(cells: seq<Cell>, i: nat, j: nat)
    requires Sorted(cells) && i <= j < |cells|
    ensures cells[i].key <= cells[j].key && (i < j ==> cells[i].key < cells[j].key)
  {
  }

  lemma LeftWired(metas: Metas, metas': Metas, p: Page, m: Meta, root: nat, x: nat, id: nat, right: nat)
    requires Full(p, m, root, x, id) && Wired(metas, p, m)
    requires right in metas' && metas'[right] == RightMeta(p, m)
    requires m.ht > 0 ==> ChildrenFit(metas', p, m)
    ensures Wired(metas', LeftHalf(p, right), LeftMeta(p, m))
  {
    SepInside(p, m, root, x, id);
    var l, lm := LeftHalf(p, right), LeftMeta(p, m);
    if m.ht > 0 {
      forall i {:trigger ChildFits(metas', l, lm, i)} | 0 <= i <= |l.cells| ensures ChildFits(metas', l, lm, i) {
        assert ChildFits(metas', p, m, i);
      }
    }
  }

  lemma RightWired(metas': Metas, p: Page, m: Meta, root: nat, x: nat, id: nat, right: nat)
    requires Full(p, m, root, x, id) && Wired(metas', p, m)
    ensures Wired(metas', RightHalf(p, right), RightMeta(p, m))
  {
    var r, rm, s := RightHalf(p, right), RightMeta(p, m), SplitAt(p);
    if m.ht > 0 {
      forall i {:trigger ChildFits(metas', r, rm, i)} | 0 <= i <= |r.cells| ensures ChildFits(metas', r, rm, i) {
        assert ChildFits(metas', p, m, s + 1 + i);
        assert i < |r.cells| ==> r.cells[i] == p.cells[s + 1 + i];
        assert i > 0 ==> r.cells[i - 1] == p.cells[s + i];
      }
    }
  }

  // ---------------------------------------------------------------- under a parent

  /** The parent with the right half in the old child's place and the old child added before it. */
  function ParentAfterSplit(par: Page, j: nat, sep: nat, left: nat, right: nat): Page
    requires j <= |par.cells|
  {
    var swapped := SwapChild(par, j, right);
    swapped.(cells := swapped.cells[..j] + [Cell(sep, left)] + swapped.cells[j..])
  }

  function SwapChild(p: Page, j: nat, c: nat): Page
    requires j <= |p.cells|
  {
    if j < |p.cells| then p.(cells := p.cells[j := p.cells[j].(ptr := c)]) else p.(ptr := c)
  }

  lemma ParentCells(par: Page, j: nat, sep: nat, left: nat, right: nat)
    requires j <= |par.cells| && Child(par, j) == left
    ensures var q := ParentAfterSplit(par, j, sep, left, right);
            && |q.cells| == |par.cells| + 1
            && (forall i {:trigger q.cells[i].key} :: 0 <= i < |q.cells| ==>
                  q.cells[i].key == if i < j then par.cells[i].key else if i == j then sep else par.cells[i - 1].key)
            && (forall i {:trigger Child(q, i)} :: 0 <= i <= |q.cells| ==>
                  Child(q, i) == if i <= j then Child(par, i) else if i == j + 1 then right else Child(par, i - 1))
  {
    var q := ParentAfterSplit(par, j, sep, left, right);
    forall i {:trigger Child(q, i)} | 0 <= i <= |q.cells|
      ensures Child(q, i) == if i <= j then Child(par, i) else if i == j + 1 then right else Child(par, i - 1)
    {
      if i < j { assert q.cells[i] == par.cells[i]; }
      else if j + 1 < i < |q.cells| { assert q.cells[i] == par.cells[i - 1]; }
    }
  }

  /** A parent with room takes the separator: it stays in order. */
  lemma ParentShaped(p: Page, m: Meta, root: nat, x: nat, par: nat, j: nat, sep: nat, right: nat, x': nat)
    requires Shaped(p, m, root, x, par) && m.ht > 0 && |p.cells| < ORDER && j <= |p.cells| && par != x
    requires Low(p, m, j) < sep < High(p, m, j)
    ensures Shaped(ParentAfterSplit(p, j, sep, Child(p, j), right), m, root, x', par)
  {
    var q := ParentAfterSplit(p, j, sep, Child(p, j), right);
    ParentCells(p, j, sep, Child(p, j), right);
    SeparatorOrder(p, m, j);
    assert forall i {:trigger q.cells[i].key} :: 0 <= i < |q.cells| ==> m.lo < q.cells[i].key < m.hi;
    forall a, b {:trigger q.cells[a].key, q.cells[b].key} | 0 <= a < b < |q.cells|
      ensures q.cells[a].key < q.cells[b].key
    {
      assert a < j - 1 ==> p.cells[a].key < p.cells[j - 1].key;
      assert b > j + 1 ==> p.cells[j].key < p.cells[b - 1].key;
    }
  }

  lemma ParentWired(metas: Metas, metas': Metas, p: Page, m: Meta, j: nat, sep: nat, right: nat)
    requires m.ht > 0 && ChildrenFit(metas, p, m) && j <= |p.cells|
    requires forall i {:trigger ChildFits(metas', p, m, i)} :: 0 <= i <= |p.cells| && i != j ==>
      ChildFits(metas', p, m, i)
    requires Child(p, j) in metas' && metas'[Child(p, j)] == Meta(Low(p, m, j), sep, m.ht - 1)
    requires right in metas' && metas'[right] == Meta(sep, High(p, m, j), m.ht - 1)
    ensures Wired(metas', ParentAfterSplit(p, j, sep, Child(p, j), right), m)
  {
    var q := ParentAfterSplit(p, j, sep, Child(p, j), right);
    ParentCells(p, j, sep, Child(p, j), right);
    forall i {:trigger ChildFits(metas', q, m, i)} | 0 <= i <= |q.cells| ensures ChildFits(metas', q, m, i) {
      if i < j {
        assert ChildFits(metas', p, m, i);
      } else if i > j + 1 {
        assert ChildFits(metas', p, m, i - 1);
      }
    }
  }

  // ---------------------------------------------------------------- the whole tree

  function SplitPages(pages: Pages, over: nat, right: nat): Pages
    requires over in pages && |pages[over].cells| >= 2
  {
    pages[over := LeftHalf(pages[over], right)][right := RightHalf(pages[over], right)]
  }

  function SplitMetas(pages: Pages, metas: Metas, over: nat, right: nat): Metas
    requires over in pages && over in metas && |pages[over].cells| >= 2
  {
    metas[over := LeftMeta(pages[over], metas[over])][right := RightMeta(pages[over], metas[over])]
  }

  lemma SplitDisjoint(pages: Pages, metas: Metas, over: nat, right: nat)
    requires Disjoint(metas) && over in metas && over in pages && |pages[over].cells| >= 2 && right !in metas
    requires metas[over].lo < PromotedKey(pages[over]) < metas[over].hi
    ensures Disjoint(SplitMetas(pages, metas, over, right))
  {
    var metas' := SplitMetas(pages, metas, over, right);
    forall a, b {:trigger metas'[a], metas'[b]} | a in metas' && b in metas' && a != b
      ensures Apart(metas'[a], metas'[b])
    {
      var a0 := if a == right then over else a;
      var b0 := if b == right then over else b;
      assert a0 != b0 ==> Apart(metas[a0], metas[b0]);
    }
  }

  /** Pages whose children are none of those whose range changed keep their wiring. */
  lemma StillWired(metas: Metas, metas': Metas, p: Page, m: Meta)
    requires Wired(metas, p, m)
    requires m.ht > 0 ==> forall i {:trigger Child(p, i)} :: 0 <= i <= |p.cells| && Child(p, i) in metas ==>
      Child(p, i) in metas' && metas'[Child(p, i)] == metas[Child(p, i)]
    requires m.ht == 0 && m.hi != KEY_LIMIT ==> p.ptr in metas ==>
      p.ptr in metas' && metas'[p.ptr].ht == metas[p.ptr].ht && metas'[p.ptr].lo == metas[p.ptr].lo
    ensures Wired(metas', p, m)
  {
    if m.ht > 0 {
      forall i {:trigger ChildFits(metas', p, m, i)} | 0 <= i <= |p.cells| ensures ChildFits(metas', p, m, i) {
        assert ChildFits(metas, p, m, i);
      }
    }
  }

  /** Other pages do not have child `j` of `par` among their children. */
  lemma ChildrenElsewhere(pages: Pages, metas: Metas, root: nat, next: nat, x: nat, id: nat, par: nat, j: nat)
    requires TreeOkBut(pages, metas, root, next, x) && id in metas && par in metas && id != par && id in pages
      && par in pages
    requires metas[id].ht > 0 && metas[par].ht > 0 && j <= |pages[par].cells|
    ensures forall i {:trigger Child(pages[id], i)} :: 0 <= i <= |pages[id].cells| ==>
      Child(pages[id], i) != Child(pages[par], j)
  {
    forall i {:trigger Child(pages[id], i)} | 0 <= i <= |pages[id].cells|
      ensures Child(pages[id], i) != Child(pages[par], j)
    {
      if Child(pages[id], i) == Child(pages[par], j) {
        OneParent(pages, metas, root, next, x, id, i, par, j);
      }
    }
  }

  lemma SiblingsElsewhere(pages: Pages, metas: Metas, root: nat, next: nat, x: nat, par: nat, j: nat)
    requires TreeOkBut(pages, metas, root, next, x) && par in metas && par in pages
    requires metas[par].ht > 0 && j <= |pages[par].cells|
    ensures forall i {:trigger Child(pages[par], i)} :: 0 <= i <= |pages[par].cells| && i != j ==>
      Child(pages[par], i) != Child(pages[par], j)
  {
    forall i {:trigger Child(pages[par], i)} | 0 <= i <= |pages[par].cells| && i != j
      ensures Child(pages[par], i) != Child(pages[par], j)
    {
      if Child(pages[par], i) == Child(pages[par], j) {
        OneParent(pages, metas, root, next, x, par, i, par, j);
      }
    }
  }

  /** `metas'` differs from `metas` only at the page that splits and at the new page. */
  ghost predicate SplitOf(metas: Metas, metas': Metas, over: nat, right: nat, p: Page)
    requires over in metas && |p.cells| >= 2
  {
    && right !in metas
    && (forall c {:trigger metas'[c]} {:trigger metas[c]} :: c in metas && c != over ==>
      c in metas' && metas'[c] == metas[c])
    && over in metas' && metas'[over] == LeftMeta(p, metas[over])
    && right in metas' && metas'[right] == RightMeta(p, metas[over])
  }

  /** Child `j` of `par` is the full page `over`. */
  ghost predicate Splits(pages: Pages, metas: Metas, root: nat, next: nat, over: nat, par: nat, j: nat) {
    && TreeOk(pages, metas, root, next) && over in metas && par in metas && metas[par].ht > 0
    && over in pages && par in pages
    && |pages[over].cells| == ORDER && |pages[par].cells| < ORDER
    && j <= |pages[par].cells| && Child(pages[par], j) == over
  }

  /** A full page under a parent with room splits: the tree stays in order. */
  lemma SplitUnderParent(pages: Pages, metas: Metas, root: nat, next: nat, over: nat, par: nat, j: nat)
    requires Splits(pages, metas, root, next, over, par, j)
    ensures var pages' := SplitPages(pages, over, next)
              [par := ParentAfterSplit(pages[par], j, PromotedKey(pages[over]), over, next)];
            TreeOk(pages', SplitMetas(pages, metas, over, next), root, next + 1)
  {
    var p := pages[over];
    var pages' := SplitPages(pages, over, next)[par := ParentAfterSplit(pages[par], j, PromotedKey(p), over, next)];
    var metas' := SplitMetas(pages, metas, over, next);
    SplitStart(pages, metas, root, next, over, par, j);
    forall id {:trigger NodeOk(pages', metas', root, next + 1, id)} | id in metas'
      ensures NodeOk(pages', metas', root, next + 1, id)
    {
      if id == over || id == next {
        HalvesOk(pages, metas, metas', root, next, over, root, next + 1);
      } else if id == par {
        ParentOk(pages, metas, metas', root, next, over, par, j);
      } else {
        OtherOk(pages, metas, metas', root, next, over, par, j, id);
      }
    }
  }

  lemma SplitStart(pages: Pages, metas: Metas, root: nat, next: nat, over: nat, par: nat, j: nat)
    requires Splits(pages, metas, root, next, over, par, j)
    ensures next !in pages && over != root && over != par && next != root
    ensures SplitOf(metas, SplitMetas(pages, metas, over, next), over, next, pages[over])
    ensures Disjoint(SplitMetas(pages, metas, over, next)) && RootOk(SplitMetas(pages, metas, over, next), root)
  {
    assert NodeOk(pages, metas, root, next, over) && NodeOk(pages, metas, root, next, par);
    assert ChildFits(metas, pages[par], metas[par], j);
    PagesBelow(pages, metas, root, next, next);
    SepInside(pages[over], metas[over], root, next, over);
    SplitDisjoint(pages, metas, over, next);
  }

  lemma HalvesOk(pages: Pages, metas: Metas, metas': Metas, root: nat, next: nat, over: nat, root': nat, x': nat)
    requires TreeOk(pages, metas, root, next) && over in metas && over in pages && |pages[over].cells| == ORDER
    requires over != root' && next != root' && SplitOf(metas, metas', over, next, pages[over])
    ensures var p, m := pages[over], metas[over];
            && Shaped(LeftHalf(p, next), metas'[over], root', x', over)
            && Wired(metas', LeftHalf(p, next), metas'[over])
            && Shaped(RightHalf(p, next), metas'[next], root', x', next)
            && Wired(metas', RightHalf(p, next), metas'[next])
  {
    var p, m := pages[over], metas[over];
    assert NodeOk(pages, metas, root, next, over);
    LeftShaped(p, m, root, next, over, next, root', x');
    RightShaped(p, m, root, next, over, next, root', x');
    if m.ht > 0 {
      forall i {:trigger Child(p, i)} | 0 <= i <= |p.cells| ensures Child(p, i) in metas && Child(p, i) != over {
        assert ChildFits(metas, p, m, i);
      }
    }
    StillWired(metas, metas', p, m);
    LeftWired(metas, metas', p, m, root, next, over, next);
    RightWired(metas', p, m, root, next, over, next);
  }

  lemma ParentOk(pages: Pages, metas: Metas, metas': Metas, root: nat, next: nat, over: nat, par: nat, j: nat)
    requires Splits(pages, metas, root, next, over, par, j) && SplitOf(metas, metas', over, next, pages[over])
    ensures var q := ParentAfterSplit(pages[par], j, PromotedKey(pages[over]), over, next);
            Shaped(q, metas[par], root, next + 1, par) && Wired(metas', q, metas[par])
  {
    var p, m, sep := pages[par], metas[par], PromotedKey(pages[over]);
    assert NodeOk(pages, metas, root, next, over) && NodeOk(pages, metas, root, next, par);
    assert ChildFits(metas, p, m, j);
    PagesBelow(pages, metas, root, next, next);
    SepInside(pages[over], metas[over], root, next, over);
    ParentShaped(p, m, root, next, par, j, sep, next, next + 1);
    SiblingsElsewhere(pages, metas, root, next, next, par, j);
    forall i {:trigger ChildFits(metas', p, m, i)} | 0 <= i <= |p.cells| && i != j ensures ChildFits(metas', p, m, i) {
      assert ChildFits(metas, p, m, i);
      assert Child(p, i) != over;
    }
    ParentWired(metas, metas', p, m, j, sep, next);
  }

  lemma OtherOk(pages: Pages, metas: Metas, metas': Metas, root: nat, next: nat, over: nat, par: nat, j: nat, id: nat)
    requires Splits(pages, metas, root, next, over, par, j) && SplitOf(metas, metas', over, next, pages[over])
    requires id in metas && id != over && id != par
    ensures id in pages && Shaped(pages[id], metas[id], root, next + 1, id) && Wired(metas', pages[id], metas[id])
  {
    assert NodeOk(pages, metas, root, next, id);
    if metas[id].ht > 0 {
      ChildrenElsewhere(pages, metas, root, next, next, id, par, j);
    }
    StillWired(metas, metas', pages[id], metas[id]);
  }

  function NewRoot(pages: Pages, root: nat, next: nat): Page
    requires root in pages && |pages[root].cells| >= 2
  {
    Page(next + 1, Root, false, next, [Cell(PromotedKey(pages[root]), root)])
  }

  function SplitRootMetas(pages: Pages, metas: Metas, root: nat, next: nat): Metas
    requires root in pages && root in metas && |pages[root].cells| >= 2
  {
    SplitMetas(pages, metas, root, next)[next + 1 := Meta(0, KEY_LIMIT, metas[root].ht + 1)]
  }

  /** The root splits: a new root above the two halves. */
  lemma SplitRoot(pages: Pages, metas: Metas, root: nat, next: nat)
    requires TreeOk(pages, metas, root, next) && root in pages && |pages[root].cells| == ORDER
    ensures var pages' := SplitPages(pages, root, next)[next + 1 := NewRoot(pages, root, next)];
            TreeOk(pages', SplitRootMetas(pages, metas, root, next), next + 1, next + 2)
  {
    var top, metas' := next + 1, SplitRootMetas(pages, metas, root, next);
    var pages' := SplitPages(pages, root, next)[top := NewRoot(pages, root, next)];
    SplitRootStart(pages, metas, root, next);
    forall id {:trigger NodeOk(pages', metas', top, next + 2, id)} | id in metas'
      ensures NodeOk(pages', metas', top, next + 2, id)
    {
      if id == root || id == next {
        HalvesOk(pages, metas, metas', root, next, root, top, next + 2);
      } else if id == top {
        NewRootWired(metas', NewRoot(pages, root, next), metas'[top]);
      } else {
        assert NodeOk(pages, metas, root, next, id);
        RootIsNoChild(pages, metas, root, next, id);
        StillWired(metas, metas', pages[id], metas[id]);
      }
    }
  }

  lemma NewRootWired(metas: Metas, t: Page, m: Meta)
    requires |t.cells| == 1 && m.ht > 0 && t.cells[0].ptr in metas && t.ptr in metas
    requires metas[t.cells[0].ptr] == Meta(m.lo, t.cells[0].key, m.ht - 1)
    requires metas[t.ptr] == Meta(t.cells[0].key, m.hi, m.ht - 1)
    ensures Wired(metas, t, m)
  {
    forall i {:trigger ChildFits(metas, t, m, i)} | 0 <= i <= |t.cells| ensures ChildFits(metas, t, m, i) {
      assert i == 0 || i == 1;
    }
  }

  lemma SplitRootStart(pages: Pages, metas: Metas, root: nat, next: nat)
    requires TreeOk(pages, metas, root, next) && root in pages && |pages[root].cells| == ORDER
    ensures var metas' := SplitRootMetas(pages, metas, root, next);
            && SplitOf(metas, metas', root, next, pages[root]) && Disjoint(metas') && RootOk(metas', next + 1)
            && next + 1 !in metas && next !in metas && next + 1 != root && next != root
            && 0 < PromotedKey(pages[root]) < KEY_LIMIT
            && (forall id {:trigger metas[id]} :: id in metas ==> id in pages && metas[id].ht <= metas[root].ht)
  {
    hide Sorted, CellsIn, Wired;
    var p, m := pages[root], metas[root];
    assert NodeOk(pages, metas, root, next, root);
    forall id | id in metas ensures id in pages && id < next {
      assert NodeOk(pages, metas, root, next, id);
    }
    SepInside(p, m, root, next, root);
    SplitDisjoint(pages, metas, root, next);
  }

  lemma RootIsNoChild(pages: Pages, metas: Metas, root: nat, next: nat, id: nat)
    requires TreeOk(pages, metas, root, next) && id in metas && id in pages
    ensures metas[id].ht > 0 ==>
      forall i {:trigger Child(pages[id], i)} :: 0 <= i <= |pages[id].cells| ==> Child(pages[id], i) != root
  {
    assert NodeOk(pages, metas, root, next, id);
    if metas[id].ht > 0 {
      forall i {:trigger Child(pages[id], i)} | 0 <= i <= |pages[id].cells| ensures Child(pages[id], i) != root {
        assert ChildFits(metas, pages[id], metas[id], i);
      }
    }
  }
}
