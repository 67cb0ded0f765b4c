/** What single leaf changes and splits do to the contents of the tree. */
module TreeContents {
  import opened Wrappers
  import opened IndexPages
  import opened TreeInv
  import opened TreeSplit

  // ---------------------------------------------------------------- cells of a sorted page

  lemma KeyFound(cells: seq<Cell>, key: nat)
    requires Sorted(cells)
    ensures FoundAt(cells, key, LowerBound(cells, key)) <==> exists i :: 0 <= i < |cells| && cells[i].key == key
    ensures FoundAt(cells, key, LowerBound(cells, key)) <==> exists v :: Cell(key, v) in cells
  {
    var r := LowerBound(cells, key);
    if i :| 0 <= i < |cells| && cells[i].key == key {
      assert Cell(key, cells[i].ptr) in cells;
    }
    if FoundAt(cells, key, r) {
      assert Cell(key, cells[r].ptr) in cells;
    }
  }

  /** A leaf's search finds a key of its range exactly when the contents have it. */
  lemma KeyKnown(cells: seq<Cell>, m: Meta, contents: map<nat, nat>, key: nat)
    requires Sorted(cells) && LeafHolds(cells, m, contents) && m.lo <= key < m.hi
    ensures FoundAt(cells, key, LowerBound(cells, key)) <==> key in contents
    ensures key in contents ==> contents[key] == cells[LowerBound(cells, key)].ptr
  {
    KeyFound(cells, key);
    if key in contents {
      assert Cell(key, contents[key]) in cells;
      OneCellPerKey(cells, Cell(key, contents[key]), cells[LowerBound(cells, key)]);
    }
  }

  lemma OneCellPerKey(cells: seq<Cell>, a: Cell, b: Cell)
    requires Sorted(cells) && a in cells && b in cells && a.key == b.key
    ensures a == b
  {
    var i :| 0 <= i < |cells| && cells[i] == a;
    var j :| 0 <= j < |cells| && cells[j] == b;
  }

  lemma PrefixMember(cells: seq<Cell>, s: nat, c: Cell)
    requires Sorted(cells) && s < |cells|
    ensures c in cells[..s] <==> c in cells && c.key < cells[s].key
  {
    if c in cells {
      var i :| 0 <= i < |cells| && cells[i] == c;
      assert i < s ==> cells[..s][i] == c;
      assert i > s ==> cells[s].key < cells[i].key;
      if c in cells[..s] {
        var j :| 0 <= j < s && cells[..s][j] == c;
        assert cells[j] == c && cells[j].key < cells[s].key;
      }
    }
  }

  lemma SuffixMember(cells: seq<Cell>, s: nat, c: Cell)
    requires Sorted(cells) && s < |cells|
    ensures c in cells[s..] <==> c in cells && c.key >= cells[s].key
  {
    if c in cells {
      var i :| 0 <= i < |cells| && cells[i] == c;
      assert i >= s ==> cells[s..][i - s] == c;
      assert i < s ==> cells[i].key < cells[s].key;
      if c in cells[s..] {
        var j :| 0 <= j < |cells| - s && cells[s..][j] == c;
        assert cells[s + j] == c;
        assert j > 0 ==> cells[s].key < cells[s + j].key;
      }
    }
  }

  // ---------------------------------------------------------------- one cell in, one cell out

  function Inserted(cells: seq<Cell>, i: nat, c: Cell): seq<Cell>
    requires i <= |cells|
  {
    cells[..i] + [c] + cells[i..]
  }

  lemma InsertedMember(cells: seq<Cell>, i: nat, c: Cell, d: Cell)
    requires i <= |cells|
    ensures d in Inserted(cells, i, c) <==> d == c || d in cells
  {
    var r := Inserted(cells, i, c);
    assert r[i] == c;
    if d in cells {
      var j :| 0 <= j < |cells| && cells[j] == d;
      assert r[if j < i then j else j + 1] == d;
    }
  }

  lemma WithoutMember(cells: seq<Cell>, i: nat, d: Cell)
    requires Sorted(cells) && i < |cells|
    ensures d in Without(cells, i) <==> d in cells && d != cells[i]
  {
    var r := Without(cells, i);
    if d in cells && d != cells[i] {
      var j :| 0 <= j < |cells| && cells[j] == d;
      assert r[if j < i then j else j - 1] == d;
    }
    if d in r {
      var j :| 0 <= j < |r| && r[j] == d;
      assert cells[if j < i then j else j + 1] == d;
      assert cells[if j < i then j else j + 1].key != cells[i].key;
    }
  }

  lemma InsertedHolds(cells: seq<Cell>, m: Meta, contents: map<nat, nat>, i: nat, k: nat, v: nat)
    requires LeafHolds(cells, m, contents) && i <= |cells| && m.lo <= k < m.hi && k !in contents
    ensures LeafHolds(Inserted(cells, i, Cell(k, v)), m, contents[k := v])
  {
    var r := Inserted(cells, i, Cell(k, v));
    forall k', v' {:trigger Cell(k', v') in r} | m.lo <= k' < m.hi
      ensures Cell(k', v') in r <==> k' in contents[k := v] && contents[k := v][k'] == v'
    {
      InsertedMember(cells, i, Cell(k, v), Cell(k', v'));
      assert Cell(k', v') in cells <==> k' in contents && contents[k'] == v';
    }
  }

  lemma WithoutHolds(cells: seq<Cell>, m: Meta, contents: map<nat, nat>, i: nat)
    requires LeafHolds(cells, m, contents) && Sorted(cells) && i < |cells| && m.lo <= cells[i].key < m.hi
    ensures LeafHolds(Without(cells, i), m, contents - {cells[i].key})
  {
    var r, k := Without(cells, i), cells[i].key;
    assert Cell(k, cells[i].ptr) in cells;
    forall k', v' {:trigger Cell(k', v') in r} | m.lo <= k' < m.hi
      ensures Cell(k', v') in r <==> k' in contents - {k} && (contents - {k})[k'] == v'
    {
      WithoutMember(cells, i, Cell(k', v'));
      assert Cell(k', v') in cells <==> k' in contents && contents[k'] == v';
    }
  }

  lemma HoldsElsewhere(metas: Metas, leaf: nat, id: nat, cells: seq<Cell>, k: nat, contents: map<nat, nat>,
          contents': map<nat, nat>)
    requires Disjoint(metas) && leaf in metas && id in metas && metas[leaf].ht == metas[id].ht == 0 && id != leaf
    requires metas[leaf].lo <= k < metas[leaf].hi && LeafHolds(cells, metas[id], contents)
    requires contents' - {k} == contents - {k}
    ensures LeafHolds(cells, metas[id], contents')
  {
    var m := metas[id];
    assert Apart(metas[leaf], m);
    forall k', v' {:trigger Cell(k', v') in cells} | m.lo <= k' < m.hi
      ensures Cell(k', v') in cells <==> k' in contents' && contents'[k'] == v'
    {
      assert k' != k;
      assert k' in contents' <==> k' in contents' - {k};
      assert k' in contents <==> k' in contents - {k};
      if k' in contents { assert (contents - {k})[k'] == contents[k']; assert (contents' - {k})[k'] == contents'[k']; }
    }
  }

  // ---------------------------------------------------------------- the tree

  /** A leaf page with the same header and other cells. */
  lemma LeafChanged(pages: Pages, metas: Metas, root: nat, next: nat, x: nat, leaf: nat, cells: seq<Cell>, x': nat)
    requires TreeOkBut(pages, metas, root, next, x) && leaf in metas && leaf in pages && metas[leaf].ht == 0
    requires Shaped(pages[leaf].(cells := cells), metas[leaf], root, x', leaf)
    requires x == x' || x !in metas || x == leaf
    ensures TreeOkBut(pages[leaf := pages[leaf].(cells := cells)], metas, root, next, x')
  {
    var pages' := pages[leaf := pages[leaf].(cells := cells)];
    forall id {:trigger NodeOk(pages', metas, root, x', id)} | id in metas ensures NodeOk(pages', metas, root, x', id) {
      assert NodeOk(pages, metas, root, x, id);
    }
  }

  lemma InsertShaped(p: Page, m: Meta, root: nat, x: nat, id: nat, i: nat, c: Cell)
    requires Shaped(p, m, root, x, id) && m.ht == 0 && i <= |p.cells| < ORDER && m.lo <= c.key < m.hi
    requires Sorted(Inserted(p.cells, i, c))
    ensures Shaped(p.(cells := Inserted(p.cells, i, c)), m, root, x, id)
  {
    var r := Inserted(p.cells, i, c);
    forall j {:trigger r[j].key} | 0 <= j < |r| ensures m.lo <= r[j].key < m.hi {
      if j < i { assert r[j] == p.cells[j]; } else if j > i { assert r[j] == p.cells[j - 1]; }
    }
  }

  /** Inserting into the leaf for a new key: the tree stays in order, one key richer. */
  lemma InsertIntoLeaf(pages: Pages, metas: Metas, root: nat, next: nat, leaf: nat, k: nat, v: nat,
                       contents: map<nat, nat>)
    requires TreeOk(pages, metas, root, next) && Stores(pages, metas, contents)
    requires leaf in metas && leaf in pages && metas[leaf].ht == 0 && metas[leaf].lo <= k < metas[leaf].hi
    requires !FoundAt(pages[leaf].cells, k, LowerBound(pages[leaf].cells, k)) && |pages[leaf].cells| < ORDER
    ensures k !in contents
    ensures var r := AddCell(pages[leaf], k, v);
            && r.Ok? && |r.value.cells| == |pages[leaf].cells| + 1
            && TreeOk(pages[leaf := r.value], metas, root, next)
            && Stores(pages[leaf := r.value], metas, contents[k := v])
  {
    var p, m := pages[leaf], metas[leaf];
    var i := LowerBound(p.cells, k);
    assert NodeOk(pages, metas, root, next, leaf);
    KeyKnown(p.cells, m, contents, k);
    assert i < |p.cells| ==> !(p.cells[i].key < k);
    assert i > 0 ==> p.cells[i - 1].key < k;
    AddCellAt(p, k, v, i);
    InsertShaped(p, m, root, next, leaf, i, Cell(k, v));
    LeafChanged(pages, metas, root, next, next, leaf, Inserted(p.cells, i, Cell(k, v)), next);
    InsertedHolds(p.cells, m, contents, i, k, v);
    var pages' := pages[leaf := p.(cells := Inserted(p.cells, i, Cell(k, v)))];
    forall id {:trigger pages'[id]} | id in metas && id in pages' && metas[id].ht == 0
      ensures LeafHolds(pages'[id].cells, metas[id], contents[k := v])
    {
      if id != leaf {
        assert contents[k := v] - {k} == contents - {k};
        HoldsElsewhere(metas, leaf, id, pages[id].cells, k, contents, contents[k := v]);
      }
    }
  }

  /** Removing a cell from a leaf: one key fewer; the leaf may now be short. */
  lemma RemoveFromLeaf(pages: Pages, metas: Metas, root: nat, next: nat, leaf: nat, i: nat, contents: map<nat, nat>)
    requires TreeOk(pages, metas, root, next) && Stores(pages, metas, contents)
    requires leaf in metas && leaf in pages && metas[leaf].ht == 0 && i < |pages[leaf].cells|
    ensures var k := pages[leaf].cells[i].key;
            var r := RemoveCellAt(pages[leaf], i);
            && k in contents && r == Ok(pages[leaf].(cells := Without(pages[leaf].cells, i)))
            && TreeOkBut(pages[leaf := r.value], metas, root, next, leaf)
            && Stores(pages[leaf := r.value], metas, contents - {k})
  {
    var p, m, k := pages[leaf], metas[leaf], pages[leaf].cells[i].key;
    assert NodeOk(pages, metas, root, next, leaf);
    assert Cell(k, p.cells[i].ptr) in p.cells;
    RemoveHolds(p, i);
    var w := Without(p.cells, i);
    assert CellsIn(w, m) by {
      forall j {:trigger w[j].key} | 0 <= j < |w| ensures m.lo <= w[j].key < m.hi {
        assert w[j] == p.cells[if j < i then j else j + 1];
      }
    }
    PagesBelow(pages, metas, root, next, next);
    LeafChanged(pages, metas, root, next, next, leaf, w, leaf);
    WithoutHolds(p.cells, m, contents, i);
    var pages' := pages[leaf := p.(cells := w)];
    forall id {:trigger pages'[id]} | id in metas && id in pages' && metas[id].ht == 0
      ensures LeafHolds(pages'[id].cells, metas[id], contents - {k})
    {
      if id != leaf {
        assert (contents - {k}) - {k} == contents - {k};
        HoldsElsewhere(metas, leaf, id, pages[id].cells, k, contents, contents - {k});
      }
    }
  }

  // ---------------------------------------------------------------- splits

  /** A split moves cells, not contents. */
  lemma SplitHolds(pages: Pages, metas: Metas, root: nat, next: nat, over: nat, contents: map<nat, nat>,
                   pages': Pages, metas': Metas)
    requires TreeOk(pages, metas, root, next) && Stores(pages, metas, contents)
    requires over in metas && over in pages && |pages[over].cells| == ORDER
    requires SplitOf(metas, metas', over, next, pages[over])
    requires over in pages' && pages'[over] == LeftHalf(pages[over], next)
    requires next in pages' && pages'[next] == RightHalf(pages[over], next)
    requires forall id {:trigger pages'[id]} :: id in metas' && metas'[id].ht == 0 && id != over && id != next ==>
      id in metas && id in pages && id in pages' && pages'[id] == pages[id]
    ensures Stores(pages', metas', contents)
  {
    assert NodeOk(pages, metas, root, next, over);
    var p, m := pages[over], metas[over];
    forall id {:trigger pages'[id]} | id in metas' && id in pages' && metas'[id].ht == 0
      ensures LeafHolds(pages'[id].cells, metas'[id], contents)
    {
      if id == over || id == next {
        HalfHolds(p.cells, m, SplitAt(p), contents);
      }
    }
  }

  lemma HalfHolds(cells: seq<Cell>, m: Meta, s: nat, contents: map<nat, nat>)
    requires Sorted(cells) && LeafHolds(cells, m, contents) && s < |cells| && m.lo <= cells[s].key < m.hi
    ensures LeafHolds(cells[..s], m.(hi := cells[s].key), contents)
    ensures LeafHolds(cells[s..], m.(lo := cells[s].key), contents)
  {
    forall k, v {:trigger Cell(k, v) in cells[..s]} | m.lo <= k < cells[s].key
      ensures Cell(k, v) in cells[..s] <==> k in contents && contents[k] == v
    {
      PrefixMember(cells, s, Cell(k, v));
      assert Cell(k, v) in cells <==> k in contents && contents[k] == v;
    }
    forall k, v {:trigger Cell(k, v) in cells[s..]} | cells[s].key <= k < m.hi
      ensures Cell(k, v) in cells[s..] <==> k in contents && contents[k] == v
    {
      SuffixMember(cells, s, Cell(k, v));
      assert Cell(k, v) in cells <==> k in contents && contents[k] == v;
    }
  }
}
