/** What holds of the index pages of a B+ tree.

    Every page of the tree has a range of keys `[lo, hi)` and a height, kept in a ghost map.  The
    ranges of a page's children follow from its separators, and pages of equal height have disjoint
    ranges; that each page has one parent, that a descent finds the one leaf for a key, and that all
    leaves lie at the same depth follows.
  */
module TreeInv {
  import opened IndexPages

  /** Keys are 64-bit. */
  const KEY_LIMIT: nat := 0x1_0000_0000_0000_0000

  datatype Meta = Meta(lo: nat, hi: nat, ht: nat)

  type Pages = map<nat, Page>
  type Metas = map<nat, Meta>

  function Low(p: Page, m: Meta, i: nat): nat
    requires i <= |p.cells|
  {
    if i == 0 then m.lo else p.cells[i - 1].key
  }

  function High(p: Page, m: Meta, i: nat): nat
    requires i <= |p.cells|
  {
    if i < |p.cells| then p.cells[i].key else m.hi
  }

  /** The fewest cells of a page other than the root. */
  function MinCells(ht: nat): nat {
    if ht == 0 then DEGREE - 1 else DEGREE - 2
  }

  /** Child `i` covers the keys between its two separators, one level below. */
  ghost predicate ChildFits(metas: Metas, p: Page, m: Meta, i: nat)
    requires i <= |p.cells|
  {
    m.ht > 0 && Child(p, i) in metas && metas[Child(p, i)] == Meta(Low(p, m, i), High(p, m, i), m.ht - 1)
  }

  ghost predicate CellsIn(cells: seq<Cell>, m: Meta) {
    forall i {:trigger cells[i].key} :: 0 <= i < |cells| ==>
      (if m.ht == 0 then m.lo <= cells[i].key else m.lo < cells[i].key) && cells[i].key < m.hi
  }

  ghost predicate ChildrenFit(metas: Metas, p: Page, m: Meta) {
    forall i {:trigger ChildFits(metas, p, m, i)} :: 0 <= i <= |p.cells| ==> ChildFits(metas, p, m, i)
  }

  /** A page on its own, with its range and height.  Page `x` may be short of one cell. */
  ghost predicate Shaped(p: Page, m: Meta, root: nat, x: nat, id: nat) {
    && p.id == id && m.lo < m.hi <= KEY_LIMIT
    && (p.kind == Root <==> id == root) && (p.rootLeaf ==> p.kind == Root)
    && (IsLeafLevel(p) <==> m.ht == 0)
    && Sorted(p.cells) && CellsIn(p.cells, m) && |p.cells| <= ORDER
    && (id != root ==> |p.cells| + (if id == x then 1 else 0) >= MinCells(m.ht))
    && (m.ht > 0 ==> |p.cells| > 0 || id == x)
  }

  /** A page's pointers: to its children, or to its right neighbour. */
  ghost predicate Wired(metas: Metas, p: Page, m: Meta) {
    if m.ht > 0 then ChildrenFit(metas, p, m) else Linked(metas, p, m)
  }

  ghost predicate NodeOk(pages: Pages, metas: Metas, root: nat, x: nat, id: nat)
    requires id in metas
  {
    id in pages && Shaped(pages[id], metas[id], root, x, id) && Wired(metas, pages[id], metas[id])
  }

  /** A leaf's `ptr` is the leaf where its range ends; the last leaf has 0. */
  ghost predicate Linked(metas: Metas, p: Page, m: Meta) {
    if m.hi == KEY_LIMIT then p.ptr == 0
    else p.ptr in metas && metas[p.ptr].ht == 0 && metas[p.ptr].lo == m.hi
  }

  ghost predicate Apart(a: Meta, b: Meta) {
    a.ht == b.ht ==> a.hi <= b.lo || b.hi <= a.lo
  }

  ghost predicate Disjoint(metas: Metas) {
    forall a, b {:trigger metas[a], metas[b]} :: a in metas && b in metas && a != b ==> Apart(metas[a], metas[b])
  }

  /** The root covers every key and is the tallest page. */
  ghost predicate RootOk(metas: Metas, root: nat) {
    && root in metas && metas[root].lo == 0 && metas[root].hi == KEY_LIMIT
    && forall id {:trigger metas[id]} :: id in metas ==> metas[id].ht <= metas[root].ht
  }

  /** The whole tree, with page `x` allowed to be short of one cell. */
  ghost predicate TreeOkBut(pages: Pages, metas: Metas, root: nat, next: nat, x: nat) {
    && RootOk(metas, root) && Disjoint(metas)
    && (forall id {:trigger NodeOk(pages, metas, root, x, id)} :: id in metas ==> NodeOk(pages, metas, root, x, id))
    && (forall id {:trigger id in pages} :: id in pages ==> id < next)
  }

  /** No page is short: `next` is not a page. */
  ghost predicate TreeOk(pages: Pages, metas: Metas, root: nat, next: nat) {
    TreeOkBut(pages, metas, root, next, next)
  }

  /** Every page has room for one more cell. */
  ghost predicate Roomy(pages: Pages, metas: Metas) {
    forall id {:trigger id in metas} :: id in metas && id in pages ==> |pages[id].cells| < ORDER
  }

  /** A leaf holds, of the keys in its range, exactly those of `contents`, with their heap pointers. */
  ghost predicate LeafHolds(cells: seq<Cell>, m: Meta, contents: map<nat, nat>) {
    forall k, v {:trigger Cell(k, v) in cells} :: m.lo <= k < m.hi ==>
      (Cell(k, v) in cells <==> k in contents && contents[k] == v)
  }

  ghost predicate Stores(pages: Pages, metas: Metas, contents: map<nat, nat>) {
    && (forall k :: k in contents ==> k < KEY_LIMIT)
    && forall id {:trigger pages[id]} :: id in metas && id in pages && metas[id].ht == 0 ==>
      LeafHolds(pages[id].cells, metas[id], contents)
  }

  // ---------------------------------------------------------------- consequences

  /** Two pages of one height that share a key are the same page. */
  lemma SamePage(metas: Metas, a: nat, b: nat, k: nat)
    requires Disjoint(metas) && a in metas && b in metas && metas[a].ht == metas[b].ht
    requires metas[a].lo <= k < metas[a].hi && metas[b].lo <= k < metas[b].hi
    ensures a == b
  {
  }

  lemma SeparatorOrder(p: Page, m: Meta, i: nat)
    requires Sorted(p.cells) && CellsIn(p.cells, m) && m.ht > 0 && m.lo < m.hi && i <= |p.cells|
    ensures m.lo <= Low(p, m, i) < High(p, m, i) <= m.hi
    ensures i > 0 ==> m.lo < Low(p, m, i)
    ensures i < |p.cells| ==> High(p, m, i) < m.hi
  {
    if 0 < i < |p.cells| {
      assert p.cells[i - 1].key < p.cells[i].key;
    }
  }

  lemma LowDistinct(p: Page, m: Meta, i: nat, j: nat)
    requires Sorted(p.cells) && CellsIn(p.cells, m) && m.ht > 0 && i <= |p.cells| && j <= |p.cells|
    ensures Low(p, m, i) == Low(p, m, j) ==> i == j
  {
  }

  /** A page is the child of one page only, at one place only. */
  lemma OneParent(pages: Pages, metas: Metas, root: nat, next: nat, x: nat, a: nat, i: nat, b: nat, j: nat)
    requires TreeOkBut(pages, metas, root, next, x) && a in metas && b in metas
    requires metas[a].ht > 0 && metas[b].ht > 0 && a in pages && b in pages
    requires i <= |pages[a].cells| && j <= |pages[b].cells| && Child(pages[a], i) == Child(pages[b], j)
    ensures a == b && i == j
  {
    assert NodeOk(pages, metas, root, x, a) && NodeOk(pages, metas, root, x, b);
    var c := Child(pages[a], i);
    assert ChildFits(metas, pages[a], metas[a], i) && ChildFits(metas, pages[b], metas[b], j);
    SeparatorOrder(pages[a], metas[a], i);
    SeparatorOrder(pages[b], metas[b], j);
    SamePage(metas, a, b, metas[c].lo);
    LowDistinct(pages[a], metas[a], i, j);
  }

  /** The child chosen for a key covers it. */
  lemma DescendCovers(pages: Pages, metas: Metas, root: nat, next: nat, x: nat, id: nat, k: nat)
    requires TreeOkBut(pages, metas, root, next, x) && id in metas && metas[id].ht > 0 && id in pages
    requires metas[id].lo <= k < metas[id].hi
    ensures var i := ChildIndex(pages[id].cells, k);
            i <= |pages[id].cells| && ChildFits(metas, pages[id], metas[id], i)
            && var c := Child(pages[id], i);
               metas[c].lo <= k < metas[c].hi && metas[c].ht == metas[id].ht - 1 && c != root
  {
    assert NodeOk(pages, metas, root, x, id);
    var p := pages[id];
    var i := ChildIndex(p.cells, k);
    var c := Child(p, i);
    assert ChildFits(metas, p, metas[id], i);
    assert i > 0 ==> p.cells[i - 1].key <= k;
    assert i < |p.cells| ==> !(p.cells[i].key <= k);
  }

  /** Every page of the tree exists and was allocated. */
  lemma PagesBelow(pages: Pages, metas: Metas, root: nat, next: nat, x: nat)
    requires TreeOkBut(pages, metas, root, next, x)
    ensures forall id {:trigger id in metas} {:trigger metas[id]} :: id in metas ==> id in pages && id < next
    ensures next !in metas && next + 1 !in metas
  {
    forall id | id in metas ensures id in pages && id < next {
      assert NodeOk(pages, metas, root, x, id);
    }
  }
}
