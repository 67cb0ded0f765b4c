/** What every tree in order has: many keys for its height, and a chain of leaves in key order. */
module TreeFacts {
  import opened IndexPages
  import opened TreeInv
  import opened TreeContents
  import opened TreeDelete
  import opened TreePath
  import opened TreeRelabel

  // ---------------------------------------------------------------- fill

  ghost function KeysIn(contents: map<nat, nat>, lo: nat, hi: nat): set<nat> {
    set k | k in contents && lo <= k < hi
  }

  function Power(b: nat, e: nat): nat {
    if e == 0 then 1 else b * Power(b, e - 1)
  }

  lemma KeysSplit(contents: map<nat, nat>, lo: nat, mid: nat, hi: nat)
    requires lo <= mid <= hi
    ensures |KeysIn(contents, lo, hi)| == |KeysIn(contents, lo, mid)| + |KeysIn(contents, mid, hi)|
  {
    assert KeysIn(contents, lo, hi) == KeysIn(contents, lo, mid) + KeysIn(contents, mid, hi);
    assert KeysIn(contents, lo, mid) !! KeysIn(contents, mid, hi);
  }

  /** Sorted cells with keys in the contents and in a range are as many keys of that range. */
  lemma {:induction false} CellsAreKeys(cells: seq<Cell>, contents: map<nat, nat>, lo: nat, hi: nat)
    requires Sorted(cells) && lo <= hi
    requires forall i {:trigger cells[i].key} :: 0 <= i < |cells| ==>
      cells[i].key in contents && lo <= cells[i].key < hi
    ensures |KeysIn(contents, lo, hi)| >= |cells|
  {
    if cells != [] {
      var n := |cells| - 1;
      assert forall i {:trigger cells[..n][i].key} :: 0 <= i < n ==> cells[..n][i].key == cells[i].key;
      CellsAreKeys(cells[..n], contents, lo, cells[n].key);
      KeysSplit(contents, lo, cells[n].key, hi);
      assert cells[n].key in KeysIn(contents, cells[n].key, hi);
    }
  }

  /** Below a page other than the root lie at least 101 keys for each of 101 children, and so on down. */
  lemma {:induction false} FillBelow(pages: Pages, metas: Metas, root: nat, next: nat, id: nat, contents: map<nat, nat>)
    requires TreeOk(pages, metas, root, next) && Stores(pages, metas, contents) && id in metas && id != root
    ensures |KeysIn(contents, metas[id].lo, metas[id].hi)| >= Power(DEGREE - 1, metas[id].ht + 1)
    decreases metas[id].ht, 0
  {
    assert NodeOk(pages, metas, root, next, id);
    var p, m := pages[id], metas[id];
    if m.ht == 0 {
      LeafKeys(p.cells, m, contents);
      assert Power(DEGREE - 1, 1) == (DEGREE - 1) * Power(DEGREE - 1, 0);
    } else {
      FillOfChildren(pages, metas, root, next, id, contents, |p.cells| + 1);
      Times(DEGREE - 1, |p.cells| + 1, Power(DEGREE - 1, m.ht));
    }
  }

  lemma Times(a: nat, b: nat, c: nat)
    requires a <= b
    ensures a * c <= b * c
  {
  }

  lemma LeafKeys(cells: seq<Cell>, m: Meta, contents: map<nat, nat>)
    requires Sorted(cells) && CellsIn(cells, m) && m.ht == 0 && m.lo <= m.hi && LeafHolds(cells, m, contents)
    ensures |KeysIn(contents, m.lo, m.hi)| >= |cells|
  {
    forall i {:trigger cells[i].key} | 0 <= i < |cells| ensures cells[i].key in contents {
      assert Cell(cells[i].key, cells[i].ptr) in cells;
    }
    CellsAreKeys(cells, contents, m.lo, m.hi);
  }

  /** The keys below the first `n` children of a page. */
  lemma {:induction false} FillOfChildren(pages: Pages, metas: Metas, root: nat, next: nat, id: nat,
          contents: map<nat, nat>, n: nat)
    requires TreeOk(pages, metas, root, next) && Stores(pages, metas, contents) && id in metas && id in pages
      && metas[id].ht > 0
    requires 0 < n <= |pages[id].cells| + 1
    ensures |KeysIn(contents, metas[id].lo, High(pages[id], metas[id], n - 1))| >= n * Power(DEGREE - 1, metas[id].ht)
    decreases metas[id].ht - 1, n
  {
    assert NodeOk(pages, metas, root, next, id);
    var p, m := pages[id], metas[id];
    var c := Child(p, n - 1);
    assert ChildFits(metas, p, m, n - 1);
    SeparatorOrder(p, m, n - 1);
    FillBelow(pages, metas, root, next, c, contents);
    if n > 1 {
      FillOfChildren(pages, metas, root, next, id, contents, n - 1);
      KeysSplit(contents, m.lo, Low(p, m, n - 1), High(p, m, n - 1));
    }
    assert n * Power(DEGREE - 1, m.ht) == (n - 1) * Power(DEGREE - 1, m.ht) + Power(DEGREE - 1, m.ht);
  }

  /** A tree of `h >= 2` levels holds at least `2 * 101^(h - 1)` keys. */
  lemma HeightBound(pages: Pages, metas: Metas, root: nat, next: nat, contents: map<nat, nat>)
    requires TreeOk(pages, metas, root, next) && Stores(pages, metas, contents) && root in metas && metas[root].ht > 0
    ensures |contents| >= 2 * Power(DEGREE - 1, metas[root].ht)
  {
    assert NodeOk(pages, metas, root, next, root);
    var n := |pages[root].cells| + 1;
    FillOfChildren(pages, metas, root, next, root, contents, n);
    Times(2, n, Power(DEGREE - 1, metas[root].ht));
    assert KeysIn(contents, 0, KEY_LIMIT) == contents.Keys;
    assert |contents| == |contents.Keys|;
  }

  /** Of the merges that are attempted, those of two leaves always fit, and of two internal pages only
      101 with 102 cells do not. */
  lemma MergeLimits(n: nat, m: nat)
    requires n < DEGREE && m <= DEGREE
    ensures MergeNeeds(true, n, m) <= ORDER
    ensures MergeNeeds(false, n, m) > ORDER <==> n == 101 && m == 102
  {
  }

  // ---------------------------------------------------------------- the chain of leaves

  ghost function LeavesFrom(metas: Metas, lo: nat): set<nat> {
    set id | id in metas && metas[id].ht == 0 && metas[id].lo >= lo
  }

  /** The pages met by following header pointers `n` times from `id`. */
  function Follow(pages: Pages, id: nat, n: nat): seq<nat>
    decreases n
  {
    if n == 0 || id !in pages then [] else [id] + Follow(pages, pages[id].ptr, n - 1)
  }

  /** The cells of a list of pages. */
  function AllCells(pages: Pages, ids: seq<nat>): seq<Cell> {
    if ids == [] then [] else (if ids[0] in pages then pages[ids[0]].cells else []) + AllCells(pages, ids[1..])
  }

  /** `ids` are the leaves from `lo` on, in key order, each once. */
  ghost predicate InLeafOrder(metas: Metas, ids: seq<nat>, lo: nat) {
    && (forall i {:trigger ids[i]} :: 0 <= i < |ids| ==> ids[i] in LeavesFrom(metas, lo))
    && (forall i, j {:trigger ids[i], ids[j]} :: 0 <= i < j < |ids| && ids[i] in metas && ids[j] in metas ==>
          metas[ids[i]].hi <= metas[ids[j]].lo)
    && (forall id {:trigger id in LeavesFrom(metas, lo)} :: id in LeavesFrom(metas, lo) ==> id in ids)
  }

  lemma NextLeaf(pages: Pages, metas: Metas, root: nat, next: nat, id: nat)
    requires TreeOk(pages, metas, root, next) && id in metas && metas[id].ht == 0
    ensures id in pages && metas[id].lo < metas[id].hi <= KEY_LIMIT
    ensures LeavesFrom(metas, metas[id].lo) == {id} + LeavesFrom(metas, metas[id].hi)
    ensures metas[id].hi == KEY_LIMIT ==> LeavesFrom(metas, metas[id].hi) == {}
    ensures metas[id].hi != KEY_LIMIT ==>
      var q := pages[id].ptr; q in metas && metas[q].ht == 0 && metas[q].lo == metas[id].hi
  {
    assert NodeOk(pages, metas, root, next, id);
    forall c {:trigger metas[c]} | c in metas && metas[c].ht == 0 && metas[c].lo >= metas[id].lo && c != id
      ensures metas[c].lo >= metas[id].hi
    {
      assert NodeOk(pages, metas, root, next, c);
      assert Apart(metas[c], metas[id]);
    }
    forall c {:trigger metas[c]} | c in metas ensures metas[c].lo < KEY_LIMIT {
      assert NodeOk(pages, metas, root, next, c);
    }
  }

  /** From a leaf, following the pointers as often as there are leaves to its right visits exactly
      these, in key order, and meets exactly the entries from its first key on, in order. */
  lemma {:induction false} LeavesFollow(pages: Pages, metas: Metas, root: nat, next: nat, id: nat,
                                        contents: map<nat, nat>)
    requires TreeOk(pages, metas, root, next) && Stores(pages, metas, contents) && id in metas && metas[id].ht == 0
    ensures var lo := metas[id].lo;
            var ids := Follow(pages, id, |LeavesFrom(metas, lo)|);
            && |ids| == |LeavesFrom(metas, lo)| && InLeafOrder(metas, ids, lo)
            && Sorted(AllCells(pages, ids)) && CellsIn(AllCells(pages, ids), Meta(lo, KEY_LIMIT, 0))
            && LeafHolds(AllCells(pages, ids), Meta(lo, KEY_LIMIT, 0), contents)
    decreases KEY_LIMIT - metas[id].lo
  {
    NextLeaf(pages, metas, root, next, id);
    assert NodeOk(pages, metas, root, next, id);
    var lo, hi := metas[id].lo, metas[id].hi;
    var n := |LeavesFrom(metas, lo)|;
    assert id !in LeavesFrom(metas, hi);
    assert n == 1 + |LeavesFrom(metas, hi)|;
    if hi == KEY_LIMIT {
      assert Follow(pages, id, 1) == [id];
      assert AllCells(pages, [id]) == pages[id].cells;
    } else {
      var q := pages[id].ptr;
      LeavesFollow(pages, metas, root, next, q, contents);
      var rest := Follow(pages, q, n - 1);
      var ids := Follow(pages, id, n);
      assert ids == [id] + rest;
      LeafFirst(metas, id, rest, hi);
      assert ids[1..] == rest;
      CellsJoin(pages[id].cells, AllCells(pages, rest), metas[id], contents);
    }
  }

  lemma LeafFirst(metas: Metas, id: nat, rest: seq<nat>, hi: nat)
    requires id in metas && metas[id].ht == 0 && metas[id].lo < metas[id].hi == hi && InLeafOrder(metas, rest, hi)
    requires LeavesFrom(metas, metas[id].lo) == {id} + LeavesFrom(metas, hi)
    ensures InLeafOrder(metas, [id] + rest, metas[id].lo)
  {
    var ids := [id] + rest;
    forall i {:trigger ids[i]} | 0 <= i < |ids| ensures ids[i] in LeavesFrom(metas, metas[id].lo) {
      if i > 0 { assert rest[i - 1] in LeavesFrom(metas, hi); }
    }
    forall i, j {:trigger ids[i], ids[j]} | 0 <= i < j < |ids| && ids[i] in metas && ids[j] in metas
      ensures metas[ids[i]].hi <= metas[ids[j]].lo
    {
      assert ids[j] == rest[j - 1] && rest[j - 1] in LeavesFrom(metas, hi);
      if i > 0 { assert ids[i] == rest[i - 1]; }
    }
    forall c {:trigger c in LeavesFrom(metas, metas[id].lo)} | c in LeavesFrom(metas, metas[id].lo) ensures c in ids {
      if c != id {
        assert c in LeavesFrom(metas, hi) && c in rest;
        var i :| 0 <= i < |rest| && rest[i] == c;
        assert ids[i + 1] == c;
      }
    }
  }

  lemma CellsJoin(a: seq<Cell>, b: seq<Cell>, m: Meta, contents: map<nat, nat>)
    requires Sorted(a) && CellsIn(a, m) && LeafHolds(a, m, contents) && m.ht == 0 && m.lo <= m.hi
    requires var n := Meta(m.hi, KEY_LIMIT, 0);
             Sorted(b) && CellsIn(b, n) && LeafHolds(b, n, contents) && m.hi <= KEY_LIMIT
    ensures var n := Meta(m.lo, KEY_LIMIT, 0); Sorted(a + b) && CellsIn(a + b, n) && LeafHolds(a + b, n, contents)
  {
    JoinedSorted(a, b);
    JoinedIn(a, m, b, Meta(m.hi, KEY_LIMIT, 0));
    JoinedHolds(a, m, b, Meta(m.hi, KEY_LIMIT, 0), contents);
  }

  /** Following the leaf pointers from the first leaf, as many steps as there are leaves, reads the
      whole map in strictly ascending key order. */
  lemma LeafChain(pages: Pages, metas: Metas, root: nat, next: nat, contents: map<nat, nat>) returns (first: nat)
    requires TreeOk(pages, metas, root, next) && Stores(pages, metas, contents)
    ensures first in metas && metas[first].ht == 0 && metas[first].lo == 0
    ensures var ids := Follow(pages, first, |LeavesFrom(metas, 0)|);
            var cells := AllCells(pages, ids);
            && InLeafOrder(metas, ids, 0) && |ids| == |LeavesFrom(metas, 0)|
            && Sorted(cells)
            && forall k, v {:trigger Cell(k, v) in cells} :: Cell(k, v) in cells <==> k in contents && contents[k] == v
  {
    first := FirstAt(pages, metas, root, next, next, root, 0);
    LeavesFollow(pages, metas, root, next, first, contents);
    var cells := AllCells(pages, Follow(pages, first, |LeavesFrom(metas, 0)|));
    assert forall i {:trigger cells[i].key} :: 0 <= i < |cells| ==> cells[i].key < KEY_LIMIT;
    forall k: nat, v: nat {:trigger Cell(k, v) in cells}
      ensures Cell(k, v) in cells <==> k in contents && contents[k] == v
    {
      KeyOfCell(cells, Cell(k, v));
    }
  }

  lemma KeyOfCell(cells: seq<Cell>, c: Cell)
    ensures c in cells
      <==> exists i {:trigger cells[i].key} :: 0 <= i < |cells| && cells[i] == c && cells[i].key == c.key
  {
  }
}
