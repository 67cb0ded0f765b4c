/** Replacing a deleted key that was a separator by the new first key of its leaf. */
module TreeRelabel {
  import opened Wrappers
  import opened IndexPages
  import opened TreeInv
  import opened TreeSplit
  import opened TreeContents

  // ---------------------------------------------------------------- bounds are bounds of leaves

  /** Going down the first children: at every lower level some page starts where `id` starts. */
  lemma {:induction false} FirstAt(pages: Pages, metas: Metas, root: nat, next: nat, x: nat, id: nat,
          h: nat) returns (c: nat)
    requires TreeOkBut(pages, metas, root, next, x) && id in metas && h <= metas[id].ht
    ensures c in metas && metas[c].lo == metas[id].lo && metas[c].ht == h
    decreases metas[id].ht
  {
    c := id;
    if h < metas[id].ht {
      assert NodeOk(pages, metas, root, x, id);
      assert ChildFits(metas, pages[id], metas[id], 0);
      c := FirstAt(pages, metas, root, next, x, Child(pages[id], 0), h);
    }
  }

  /** Going down the last children: at every lower level some page ends where `id` ends. */
  lemma {:induction false} LastAt(pages: Pages, metas: Metas, root: nat, next: nat, x: nat, id: nat, h: nat)
    returns (c: nat)
    requires TreeOkBut(pages, metas, root, next, x) && id in metas && h <= metas[id].ht
    ensures c in metas && metas[c].hi == metas[id].hi && metas[c].ht == h
    decreases metas[id].ht
  {
    c := id;
    if h < metas[id].ht {
      assert NodeOk(pages, metas, root, x, id);
      var last := |pages[id].cells|;
      assert ChildFits(metas, pages[id], metas[id], last);
      c := LastAt(pages, metas, root, next, x, Child(pages[id], last), h);
    }
  }

  /** No page begins or ends strictly inside the range of a page at least as low. */
  lemma NoBoundInside(pages: Pages, metas: Metas, root: nat, next: nat, x: nat, low: nat, id: nat)
    requires TreeOkBut(pages, metas, root, next, x) && low in metas && id in metas && metas[low].ht <= metas[id].ht
    ensures !(metas[low].lo < metas[id].lo < metas[low].hi) && !(metas[low].lo < metas[id].hi < metas[low].hi)
  {
    var a := FirstAt(pages, metas, root, next, x, id, metas[low].ht);
    var b := LastAt(pages, metas, root, next, x, id, metas[low].ht);
    assert NodeOk(pages, metas, root, x, a) && NodeOk(pages, metas, root, x, b);
    assert a != low ==> Apart(metas[low], metas[a]);
    assert b != low ==> Apart(metas[low], metas[b]);
  }

  /** A separator is where one of the page's children begins. */
  lemma SeparatorIsLow(pages: Pages, metas: Metas, root: nat, next: nat, x: nat, id: nat, i: nat)
    requires TreeOkBut(pages, metas, root, next, x) && id in metas && id in pages && metas[id].ht > 0
      && i < |pages[id].cells|
    ensures Child(pages[id], i + 1) in metas
    ensures var c := metas[Child(pages[id], i + 1)]; c.lo == pages[id].cells[i].key && c.ht == metas[id].ht - 1
  {
    assert NodeOk(pages, metas, root, x, id);
    assert ChildFits(metas, pages[id], metas[id], i + 1);
  }

  /** A key separates in one page only. */
  lemma OneSeparator(pages: Pages, metas: Metas, root: nat, next: nat, x: nat, a: nat, i: nat, b: nat, j: nat)
    requires TreeOkBut(pages, metas, root, next, x) && a in metas && a in pages && b in metas && b in pages
    requires metas[a].ht >= metas[b].ht > 0 && i < |pages[a].cells| && j < |pages[b].cells|
    requires pages[a].cells[i].key == pages[b].cells[j].key
    ensures a == b && i == j
  {
    assert NodeOk(pages, metas, root, x, a) && NodeOk(pages, metas, root, x, b);
    var k := pages[a].cells[i].key;
    if metas[a].ht == metas[b].ht {
      SamePage(metas, a, b, k);
    } else {
      SeparatorIsLow(pages, metas, root, next, x, a, i);
      NoBoundInside(pages, metas, root, next, x, b, Child(pages[a], i + 1));
    }
  }

  // ---------------------------------------------------------------- the new bound

  function Renamed(v: nat, k: nat, k': nat): nat {
    if v == k then k' else v
  }

  function RenamedMeta(m: Meta, k: nat, k': nat): Meta {
    Meta(Renamed(m.lo, k, k'), Renamed(m.hi, k, k'), m.ht)
  }

  function RenamedMetas(metas: Metas, k: nat, k': nat): Metas {
    map id | id in metas :: RenamedMeta(metas[id], k, k')
  }

  /** No page begins or ends after `k` and up to `k'`. */
  ghost predicate Gap(metas: Metas, k: nat, k': nat) {
    k < k' < KEY_LIMIT && forall id {:trigger metas[id]} :: id in metas ==>
      !(k < metas[id].lo <= k') && !(k < metas[id].hi <= k')
  }

  /** Separator `i` of page `a` is `k`, the leaf that begins there has no key below `k'`, and none of
      its keys is `k` any more. */
  ghost predicate Renames(pages: Pages, metas: Metas, root: nat, next: nat, a: nat, i: nat, leaf: nat, k: nat) {
    && TreeOk(pages, metas, root, next)
    && a in metas && a in pages && metas[a].ht > 0 && i < |pages[a].cells| && pages[a].cells[i].key == k
    && leaf in metas && leaf in pages && metas[leaf].ht == 0 && metas[leaf].lo <= k < metas[leaf].hi
    && |pages[leaf].cells| > 0 && pages[leaf].cells[0].key != k
  }

  lemma RenamesGap(pages: Pages, metas: Metas, root: nat, next: nat, a: nat, i: nat, leaf: nat, k: nat)
    requires Renames(pages, metas, root, next, a, i, leaf, k)
    ensures metas[leaf].lo == k && Gap(metas, k, pages[leaf].cells[0].key)
  {
    assert NodeOk(pages, metas, root, next, leaf);
    var k' := pages[leaf].cells[0].key;
    SeparatorIsLow(pages, metas, root, next, next, a, i);
    NoBoundInside(pages, metas, root, next, next, leaf, Child(pages[a], i + 1));
    forall id {:trigger metas[id]} | id in metas ensures !(k < metas[id].lo <= k') && !(k < metas[id].hi <= k') {
      NoBoundInside(pages, metas, root, next, next, leaf, id);
    }
  }

  lemma RenamedDisjoint(metas: Metas, k: nat, k': nat)
    requires Disjoint(metas) && Gap(metas, k, k')
    ensures Disjoint(RenamedMetas(metas, k, k'))
  {
    var metas' := RenamedMetas(metas, k, k');
    forall p, q {:trigger metas'[p], metas'[q]} | p in metas' && q in metas' && p != q
      ensures Apart(metas'[p], metas'[q])
    {
      assert Apart(metas[p], metas[q]);
    }
  }

  /** Cells that stay inside renamed bounds. */
  lemma InsideRenamed(cells: seq<Cell>, m: Meta, k: nat, k': nat)
    requires CellsIn(cells, m) && k < k'
    requires m.lo == k ==> forall i {:trigger cells[i].key} :: 0 <= i < |cells| ==>
      if m.ht == 0 then k' <= cells[i].key else k' < cells[i].key
    ensures CellsIn(cells, RenamedMeta(m, k, k'))
  {
  }

  /** A leaf's keys stay in its range. */
  lemma RenamedLeaf(pages: Pages, metas: Metas, root: nat, next: nat, a: nat, i: nat, leaf: nat, k: nat, id: nat)
    requires Renames(pages, metas, root, next, a, i, leaf, k) && id in metas && metas[id].ht == 0
    ensures id in pages && Shaped(pages[id], RenamedMeta(metas[id], k, pages[leaf].cells[0].key), root, next, id)
  {
    assert NodeOk(pages, metas, root, next, id);
    assert NodeOk(pages, metas, root, next, leaf);
    RenamesGap(pages, metas, root, next, a, i, leaf, k);
    var k' := pages[leaf].cells[0].key;
    if metas[id].lo == k {
      SamePage(metas, id, leaf, k);
      assert forall j {:trigger pages[id].cells[j].key} :: 0 <= j < |pages[id].cells| ==> k' <= pages[id].cells[j].key;
    }
    InsideRenamed(pages[id].cells, metas[id], k, k');
  }

  /** No separator lies after `k` and up to `k'`, and only page `a` has `k`. */
  lemma SeparatorsElsewhere(pages: Pages, metas: Metas, root: nat, next: nat, a: nat, i: nat, leaf: nat, k: nat,
          id: nat, j: nat)
    requires Renames(pages, metas, root, next, a, i, leaf, k)
    requires id in metas && id in pages && metas[id].ht > 0 && j < |pages[id].cells|
    ensures var v, k' := pages[id].cells[j].key, pages[leaf].cells[0].key;
            !(k < v <= k') && (v == k <==> id == a && j == i)
  {
    RenamesGap(pages, metas, root, next, a, i, leaf, k);
    SeparatorIsLow(pages, metas, root, next, next, id, j);
    var v := pages[id].cells[j].key;
    if v == k {
      if metas[a].ht >= metas[id].ht {
        OneSeparator(pages, metas, root, next, next, a, i, id, j);
      } else {
        OneSeparator(pages, metas, root, next, next, id, j, a, i);
      }
    }
  }

  function RenamedPage(p: Page, i: nat, k': nat): Page
    requires i < |p.cells|
  {
    p.(cells := p.cells[i := p.cells[i].(key := k')])
  }

  /** `q` is `p` with every separator `k` renamed, and no separator is in the gap. */
  ghost predicate IsRenamed(p: Page, q: Page, k: nat, k': nat) {
    && k < k' && q == p.(cells := q.cells) && |q.cells| == |p.cells|
    && (forall j {:trigger q.cells[j]} {:trigger p.cells[j]} :: 0 <= j < |p.cells| ==>
          q.cells[j] == p.cells[j].(key := Renamed(p.cells[j].key, k, k')))
    && (forall j {:trigger p.cells[j]} :: 0 <= j < |p.cells| ==> !(k < p.cells[j].key <= k'))
  }

  lemma RenamedIs(pages: Pages, metas: Metas, root: nat, next: nat, a: nat, i: nat, leaf: nat, k: nat, id: nat)
    requires Renames(pages, metas, root, next, a, i, leaf, k) && id in metas && id in pages && metas[id].ht > 0
    ensures var k' := pages[leaf].cells[0].key;
            IsRenamed(pages[id], if id == a then RenamedPage(pages[a], i, k') else pages[id], k, k')
  {
    RenamesGap(pages, metas, root, next, a, i, leaf, k);
    forall j {:trigger pages[id].cells[j]} | 0 <= j < |pages[id].cells|
      ensures !(k < pages[id].cells[j].key <= pages[leaf].cells[0].key)
      ensures pages[id].cells[j].key == k <==> id == a && j == i
    {
      SeparatorsElsewhere(pages, metas, root, next, a, i, leaf, k, id, j);
    }
  }

  lemma RenamedShaped(p: Page, q: Page, m: Meta, root: nat, x: nat, id: nat, k: nat, k': nat)
    requires Shaped(p, m, root, x, id) && m.ht > 0 && IsRenamed(p, q, k, k') && k' < KEY_LIMIT
    requires !(k < m.lo <= k') && !(k < m.hi <= k')
    ensures Shaped(q, RenamedMeta(m, k, k'), root, x, id)
  {
    var m' := RenamedMeta(m, k, k');
    forall j {:trigger q.cells[j].key} | 0 <= j < |q.cells| ensures m'.lo < q.cells[j].key < m'.hi {
      assert q.cells[j] == p.cells[j].(key := Renamed(p.cells[j].key, k, k'));
    }
    forall j, l {:trigger q.cells[j].key, q.cells[l].key} | 0 <= j < l < |q.cells|
      ensures q.cells[j].key < q.cells[l].key
    {
      assert q.cells[j] == p.cells[j].(key := Renamed(p.cells[j].key, k, k'));
      assert q.cells[l] == p.cells[l].(key := Renamed(p.cells[l].key, k, k'));
      assert p.cells[j].key < p.cells[l].key;
    }
  }

  lemma RenamedWired(metas: Metas, p: Page, q: Page, m: Meta, k: nat, k': nat)
    requires ChildrenFit(metas, p, m) && m.ht > 0 && IsRenamed(p, q, k, k')
    ensures ChildrenFit(RenamedMetas(metas, k, k'), q, RenamedMeta(m, k, k'))
  {
    var metas', m' := RenamedMetas(metas, k, k'), RenamedMeta(m, k, k');
    forall j {:trigger ChildFits(metas', q, m', j)} | 0 <= j <= |q.cells| ensures ChildFits(metas', q, m', j) {
      assert ChildFits(metas, p, m, j);
      assert j < |p.cells| ==> q.cells[j] == p.cells[j].(key := Renamed(p.cells[j].key, k, k'));
      assert j > 0 ==> q.cells[j - 1] == p.cells[j - 1].(key := Renamed(p.cells[j - 1].key, k, k'));
    }
  }

  lemma RenamedPageOk(pages: Pages, metas: Metas, root: nat, next: nat, a: nat, i: nat, leaf: nat, k: nat, id: nat)
    requires Renames(pages, metas, root, next, a, i, leaf, k) && id in metas
    ensures var k' := pages[leaf].cells[0].key;
            NodeOk(pages[a := RenamedPage(pages[a], i, k')], RenamedMetas(metas, k, k'), root, next, id)
  {
    hide Shaped, RenamedPage, IsRenamed;
    assert NodeOk(pages, metas, root, next, id);
    var k' := pages[leaf].cells[0].key;
    RenamesGap(pages, metas, root, next, a, i, leaf, k);
    if metas[id].ht == 0 {
      RenamedLeaf(pages, metas, root, next, a, i, leaf, k, id);
      RenamedLinked(metas, pages[id], metas[id], k, k');
    } else {
      var q := if id == a then RenamedPage(pages[a], i, k') else pages[id];
      RenamedIs(pages, metas, root, next, a, i, leaf, k, id);
      RenamedShaped(pages[id], q, metas[id], root, next, id, k, k');
      RenamedWired(metas, pages[id], q, metas[id], k, k');
    }
  }

  lemma RenamedLinked(metas: Metas, p: Page, m: Meta, k: nat, k': nat)
    requires Linked(metas, p, m) && Gap(metas, k, k')
    ensures Linked(RenamedMetas(metas, k, k'), p, RenamedMeta(m, k, k'))
  {
  }

  lemma RenamedHolds(pages: Pages, metas: Metas, root: nat, next: nat, a: nat, i: nat, leaf: nat, k: nat,
          contents: map<nat, nat>)
    requires Renames(pages, metas, root, next, a, i, leaf, k) && Stores(pages, metas, contents)
    ensures var k' := pages[leaf].cells[0].key;
            Stores(pages[a := RenamedPage(pages[a], i, k')], RenamedMetas(metas, k, k'), contents)
  {
    RenamesGap(pages, metas, root, next, a, i, leaf, k);
    assert NodeOk(pages, metas, root, next, leaf);
    var k' := pages[leaf].cells[0].key;
    var pages', metas' := pages[a := RenamedPage(pages[a], i, k')], RenamedMetas(metas, k, k');
    forall id {:trigger pages'[id]} | id in metas' && id in pages' && metas'[id].ht == 0
      ensures LeafHolds(pages'[id].cells, metas'[id], contents)
    {
      assert NodeOk(pages, metas, root, next, id);
      RenamedLeafHolds(pages[leaf].cells, metas[leaf], pages[id].cells, metas[id], k, contents);
    }
  }

  /** The keys from `k` up to the leaf's first one are in no leaf, so it does not matter which leaf's
      range they belong to. */
  lemma RenamedLeafHolds(first: seq<Cell>, f: Meta, cells: seq<Cell>, m: Meta, k: nat, contents: map<nat, nat>)
    requires |first| > 0 && Sorted(first) && LeafHolds(first, f, contents) && f.lo == k < first[0].key < f.hi
    requires LeafHolds(cells, m, contents) && CellsIn(cells, m) && m.ht == 0
    requires !(k < m.lo <= first[0].key) && !(k < m.hi <= first[0].key)
    ensures LeafHolds(cells, RenamedMeta(m, k, first[0].key), contents)
  {
    var m' := RenamedMeta(m, k, first[0].key);
    forall key, v {:trigger Cell(key, v) in cells} | m'.lo <= key < m'.hi
      ensures Cell(key, v) in cells <==> key in contents && contents[key] == v
    {
      if m.hi == k && k <= key {
        assert Cell(key, v) !in cells;
        assert Cell(key, v) !in first;
      }
    }
  }

  /** Renaming a deleted separator to its leaf's first key keeps the tree in order and its contents. */
  lemma RenameOk(pages: Pages, metas: Metas, root: nat, next: nat, a: nat, i: nat, leaf: nat, k: nat,
          contents: map<nat, nat>)
    requires Renames(pages, metas, root, next, a, i, leaf, k) && Stores(pages, metas, contents)
    ensures var k' := pages[leaf].cells[0].key;
            var pages', metas' := pages[a := RenamedPage(pages[a], i, k')], RenamedMetas(metas, k, k');
            TreeOk(pages', metas', root, next) && Stores(pages', metas', contents)
  {
    hide NodeOk, RenamedPage;
    var k' := pages[leaf].cells[0].key;
    var pages', metas' := pages[a := RenamedPage(pages[a], i, k')], RenamedMetas(metas, k, k');
    RenamesGap(pages, metas, root, next, a, i, leaf, k);
    RenamedDisjoint(metas, k, k');
    forall id {:trigger NodeOk(pages', metas', root, next, id)} | id in metas'
      ensures NodeOk(pages', metas', root, next, id)
    {
      RenamedPageOk(pages, metas, root, next, a, i, leaf, k, id);
    }
    RenamedRoot(pages, metas, root, next, a, i, leaf, k);
    RenamedHolds(pages, metas, root, next, a, i, leaf, k, contents);
  }

  lemma RenamedRoot(pages: Pages, metas: Metas, root: nat, next: nat, a: nat, i: nat, leaf: nat, k: nat)
    requires Renames(pages, metas, root, next, a, i, leaf, k)
    ensures RootOk(RenamedMetas(metas, k, pages[leaf].cells[0].key), root) && a < next
  {
    assert NodeOk(pages, metas, root, next, a);
    RenamesGap(pages, metas, root, next, a, i, leaf, k);
  }

  /** A separator equal to a key that no leaf holds begins the leaf for that key, whose first key is
      another; the rebuild with the new separator succeeds. */
  lemma FirstIsNew(pages: Pages, metas: Metas, root: nat, next: nat, leaf: nat, k: nat, contents: map<nat, nat>,
          a: nat, i: nat)
    requires TreeOk(pages, metas, root, next) && Stores(pages, metas, contents) && k !in contents
    requires leaf in metas && leaf in pages && metas[leaf].ht == 0 && metas[leaf].lo <= k < metas[leaf].hi
    requires |pages[leaf].cells| > 0
    requires a in metas && a in pages && metas[a].ht > 0 && FoundAt(pages[a].cells, k, i)
    ensures Renames(pages, metas, root, next, a, i, leaf, k)
    ensures var p, k' := pages[a], pages[leaf].cells[0].key;
            Rebuild(p, p.cells[i := p.cells[i].(key := k')], p.kind, p.id, p.ptr) == Ok(RenamedPage(p, i, k'))
  {
    hide Rebuild, RenamedPage;
    assert NodeOk(pages, metas, root, next, leaf) && NodeOk(pages, metas, root, next, a);
    var c := pages[leaf].cells[0];
    assert Cell(c.key, c.ptr) in pages[leaf].cells;
    RenamesGap(pages, metas, root, next, a, i, leaf, k);
    RenamedPageOk(pages, metas, root, next, a, i, leaf, k, a);
    RenamedRebuilt(pages[a], i, c.key);
  }

  lemma RenamedRebuilt(p: Page, i: nat, k': nat)
    requires i < |p.cells| <= ORDER && Sorted(RenamedPage(p, i, k').cells) && !(p.kind != Root && p.rootLeaf)
    ensures Rebuild(p, p.cells[i := p.cells[i].(key := k')], p.kind, p.id, p.ptr) == Ok(RenamedPage(p, i, k'))
  {
    RebuildHolds(p, RenamedPage(p, i, k').cells, p.kind, p.id, p.ptr);
  }

  /** After the renaming no page separates at the old key. */
  lemma RenamedGone(pages: Pages, metas: Metas, root: nat, next: nat, a: nat, i: nat, leaf: nat, k: nat)
    requires Renames(pages, metas, root, next, a, i, leaf, k)
    ensures var pages' := pages[a := RenamedPage(pages[a], i, pages[leaf].cells[0].key)];
            forall id {:trigger pages'[id]} :: id in metas && id in pages && metas[id].ht > 0 ==>
              !FoundAt(pages'[id].cells, k, LowerBound(pages'[id].cells, k))
  {
    var k' := pages[leaf].cells[0].key;
    var pages' := pages[a := RenamedPage(pages[a], i, k')];
    forall id {:trigger pages'[id]} | id in metas && id in pages && metas[id].ht > 0
      ensures !FoundAt(pages'[id].cells, k, LowerBound(pages'[id].cells, k))
    {
      RenamedIs(pages, metas, root, next, a, i, leaf, k, id);
      var r := LowerBound(pages'[id].cells, k);
      if r < |pages'[id].cells| {
        assert pages'[id].cells[r] == pages[id].cells[r].(key := Renamed(pages[id].cells[r].key, k, k'));
      }
    }
  }
}
