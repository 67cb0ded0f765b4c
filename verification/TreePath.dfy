/** Descents through the tree, and when the splits and merges along one can be carried out. */
module TreePath {
  import opened IndexPages
  import opened TreeInv
  import opened TreeSplit
  import opened TreeContents

  // ---------------------------------------------------------------- paths

  /** `par` is one level above `c` and covers its range. */
  ghost predicate Over(metas: Metas, par: nat, c: nat) {
    && par in metas && c in metas && metas[par].ht == metas[c].ht + 1
    && metas[par].lo <= metas[c].lo && metas[c].hi <= metas[par].hi
  }

  /** Pages from the root down. */
  ghost predicate Path(metas: Metas, root: nat, trail: seq<nat>) {
    && |trail| > 0 && trail[0] == root && root in metas
    && forall i {:trigger trail[i]} :: 0 < i < |trail| ==> Over(metas, trail[i - 1], trail[i])
  }

  function Last(trail: seq<nat>): nat
    requires |trail| > 0
  {
    trail[|trail| - 1]
  }

  lemma {:induction false} PathHeights(metas: Metas, root: nat, trail: seq<nat>, i: nat)
    requires Path(metas, root, trail) && i < |trail|
    ensures trail[i] in metas && metas[trail[i]].ht + i == metas[root].ht
  {
    if i > 0 { PathHeights(metas, root, trail, i - 1); }
  }

  lemma PathUp(metas: Metas, root: nat, trail: seq<nat>)
    requires Path(metas, root, trail) && |trail| > 1
    ensures Path(metas, root, trail[..|trail| - 1]) && Over(metas, trail[|trail| - 2], Last(trail))
  {
    var up := trail[..|trail| - 1];
    forall i {:trigger up[i]} | 0 < i < |up| ensures Over(metas, up[i - 1], up[i]) {
      assert up[i] == trail[i] && up[i - 1] == trail[i - 1];
    }
  }

  lemma PathDown(metas: Metas, root: nat, trail: seq<nat>, c: nat)
    requires Path(metas, root, trail) && Over(metas, Last(trail), c)
    ensures Path(metas, root, trail + [c])
  {
    var down := trail + [c];
    forall i {:trigger down[i]} | 0 < i < |down| ensures Over(metas, down[i - 1], down[i]) {
      assert down[i - 1] == trail[i - 1];
      assert i < |trail| ==> down[i] == trail[i];
    }
  }

  /** Paths depend only on the ranges along them. */
  lemma PathKept(metas: Metas, metas': Metas, root: nat, trail: seq<nat>)
    requires Path(metas, root, trail)
    requires forall i {:trigger trail[i]} :: 0 <= i < |trail| && trail[i] in metas ==>
      trail[i] in metas' && metas'[trail[i]] == metas[trail[i]]
    ensures Path(metas', root, trail)
  {
    assert trail[0] == root;
    forall i {:trigger trail[i]} | 0 < i < |trail| ensures Over(metas', trail[i - 1], trail[i]) {
      assert Over(metas, trail[i - 1], trail[i]);
      var p := trail[i - 1];
      assert p in metas && metas'[p] == metas[p];
    }
  }

  /** The pages above the last one are higher than it. */
  lemma AboveHigher(metas: Metas, root: nat, trail: seq<nat>, i: nat)
    requires Path(metas, root, trail) && i < |trail| - 1
    ensures trail[i] in metas && metas[trail[i]].ht > metas[Last(trail)].ht && trail[i] != Last(trail)
  {
    PathHeights(metas, root, trail, i);
    PathHeights(metas, root, trail, |trail| - 1);
  }

  // ---------------------------------------------------------------- the descent for a key

  /** The pages visited on the way from `id` down to the leaf for `key`, over `ht` levels. */
  function Descent(pages: Pages, id: nat, key: nat, ht: nat): seq<nat>
    decreases ht
  {
    if ht == 0 || id !in pages then [id]
    else [id] + Descent(pages, Child(pages[id], ChildIndex(pages[id].cells, key)), key, ht - 1)
  }

  // ---------------------------------------------------------------- positions

  /** The position of the first cell that points to `c`, or the number of cells. */
  function PositionOf(cells: seq<Cell>, c: nat): (r: nat)
    ensures r <= |cells| && (r < |cells| ==> cells[r].ptr == c)
    ensures forall j {:trigger cells[j]} :: 0 <= j < r ==> cells[j].ptr != c
  {
    if cells == [] || cells[0].ptr == c then 0 else 1 + PositionOf(cells[1..], c)
  }

  /** The one place where a page is a child of the page over it. */
  lemma ChildPlace(pages: Pages, metas: Metas, root: nat, next: nat, x: nat, par: nat, c: nat)
    requires TreeOkBut(pages, metas, root, next, x) && Over(metas, par, c)
    ensures par in pages && c in pages && par != c && c != root
    ensures Child(pages[par], PositionOf(pages[par].cells, c)) == c
    ensures forall i {:trigger Child(pages[par], i)} ::
      0 <= i <= |pages[par].cells| && i != PositionOf(pages[par].cells, c) ==>
      Child(pages[par], i) != c
  {
    assert NodeOk(pages, metas, root, x, par) && NodeOk(pages, metas, root, x, c);
    var k, p := metas[c].lo, pages[par];
    DescendCovers(pages, metas, root, next, x, par, k);
    var j := ChildIndex(p.cells, k);
    SamePage(metas, Child(p, j), c, k);
    var r := PositionOf(p.cells, c);
    assert j < |p.cells| ==> p.cells[j].ptr == c;
    assert r <= j;
    OneParent(pages, metas, root, next, x, par, r, par, j);
    SiblingsElsewhere(pages, metas, root, next, x, par, r);
  }

  // ---------------------------------------------------------------- when splits can be carried out

  /** The last page of the trail is full: every page that must take a separator has room for it. */
  predicate SplitFits(pages: Pages, trail: seq<nat>) {
    |trail| <= 1
    || (var up := trail[..|trail| - 1];
        && Last(up) in pages && |pages[Last(up)].cells| < ORDER
        && (|pages[Last(up)].cells| + 1 == ORDER ==> SplitFits(pages, up)))
  }

  /** The last page of the trail can take one more cell. */
  predicate InsertFits(pages: Pages, trail: seq<nat>) {
    |trail| > 0 && Last(trail) in pages && |pages[Last(trail)].cells| < ORDER
    && (|pages[Last(trail)].cells| + 1 == ORDER ==> SplitFits(pages, trail))
  }

  /** Every page other than `x` has room for one more cell. */
  ghost predicate RoomyBut(pages: Pages, metas: Metas, x: nat) {
    forall id {:trigger id in metas} :: id in metas && id != x ==> id in pages && |pages[id].cells| < ORDER
  }

  lemma {:induction false} SplitFitsKept(pages: Pages, pages': Pages, trail: seq<nat>)
    requires forall i {:trigger trail[i]} :: 0 <= i < |trail| - 1 ==>
      (trail[i] in pages <==> trail[i] in pages') && (trail[i] in pages ==> pages'[trail[i]] == pages[trail[i]])
    ensures SplitFits(pages', trail) <==> SplitFits(pages, trail)
  {
    if |trail| > 1 {
      assert trail[|trail| - 2] == Last(trail[..|trail| - 1]);
      SplitFitsKept(pages, pages', trail[..|trail| - 1]);
    }
  }

  /** With room in every page, an insertion goes through. */
  lemma RoomyFits(pages: Pages, metas: Metas, root: nat, next: nat, trail: seq<nat>)
    requires TreeOk(pages, metas, root, next) && Roomy(pages, metas) && Path(metas, root, trail)
    ensures InsertFits(pages, trail)
  {
    PagesBelow(pages, metas, root, next, next);
    PathHeights(metas, root, trail, |trail| - 1);
    assert trail[..|trail|] == trail;
    RoomyAbove(pages, metas, root, trail, |trail|);
  }

  lemma {:induction false} RoomyAbove(pages: Pages, metas: Metas, root: nat, trail: seq<nat>, n: nat)
    requires Path(metas, root, trail) && n <= |trail| && RoomyBut(pages, metas, Last(trail))
    ensures SplitFits(pages, trail[..n])
  {
    if n > 1 {
      AboveHigher(metas, root, trail, n - 2);
      assert trail[..n][..n - 1] == trail[..n - 1];
      assert Last(trail[..n - 1]) == trail[n - 2];
      RoomyAbove(pages, metas, root, trail, n - 1);
    }
  }

  // ---------------------------------------------------------------- when merges can be carried out

  function Count(pages: Pages, id: nat): nat {
    if id in pages then |pages[id].cells| else 0
  }

  /** How many cells a merge of two pages needs. */
  function MergeNeeds(leaf: bool, n: nat, m: nat): nat {
    if leaf then n + m else n + m + 1
  }

  datatype Repair = Settled | TooBig | Upward

  /** What becomes of page `x`, short with `n` cells, under its parent: it borrows or is merged within
      the parent's means, or the merge does not fit, or it leaves the parent short. */
  function RepairOf(pages: Pages, x: nat, n: nat, par: Page): Repair
    requires x in pages
  {
    var i := PositionOf(par.cells, x);
    if i > 0 && Count(pages, Child(par, i - 1)) > DEGREE then Settled
    else if i < |par.cells| && Count(pages, Child(par, i + 1)) > DEGREE then Settled
    else if |par.cells| == 0 then Settled
    else if MergeNeeds(IsLeafLevel(pages[x]), n, Count(pages, Child(par, if i > 0 then i - 1 else i + 1))) > ORDER
      then TooBig
    else if |par.cells| - 1 >= DEGREE then Settled
    else Upward
  }

  /** Page `x`, now with `n` cells, is short, and `trail` leads to the page over it: it can borrow, or
      every merge from there up fits in one page. */
  predicate CascadeFits(pages: Pages, x: nat, n: nat, trail: seq<nat>)
    decreases |trail|
  {
    |trail| == 0 || (x in pages && Last(trail) in pages &&
      var par := pages[Last(trail)];
      match RepairOf(pages, x, n, par)
      case Settled => true
      case TooBig => false
      case Upward => |par.cells| > 0 && CascadeFits(pages, Last(trail), |par.cells| - 1, trail[..|trail| - 1]))
  }

  /** What a cascade needs to know of a page and of the pages at its level and above. */
  ghost predicate SameAbove(pages: Pages, pages': Pages, metas: Metas, x: nat) {
    x in metas && x in pages && x in pages' && IsLeafLevel(pages'[x]) == IsLeafLevel(pages[x])
    && forall id {:trigger id in metas} :: id in metas && metas[id].ht >= metas[x].ht && id != x ==>
        id in pages && id in pages' && pages'[id] == pages[id]
  }

  /** A repair looks at the parent and the two neighbours. */
  lemma RepairKept(pages: Pages, pages': Pages, metas: Metas, root: nat, next: nat, x0: nat, x: nat, n: nat, par: nat)
    requires TreeOkBut(pages, metas, root, next, x0) && Over(metas, par, x) && SameAbove(pages, pages', metas, x)
    ensures par in pages && par in pages' && pages'[par] == pages[par] && SameAbove(pages, pages', metas, par)
    ensures RepairOf(pages', x, n, pages[par]) == RepairOf(pages, x, n, pages[par])
  {
    ChildPlace(pages, metas, root, next, x0, par, x);
    assert NodeOk(pages, metas, root, x0, par);
    var p := pages[par];
    var i := PositionOf(p.cells, x);
    if i > 0 {
      assert ChildFits(metas, p, metas[par], i - 1) && Child(p, i - 1) in metas && Child(p, i - 1) != x;
    }
    if i < |p.cells| {
      assert ChildFits(metas, p, metas[par], i + 1) && Child(p, i + 1) in metas && Child(p, i + 1) != x;
    }
  }

  lemma {:induction false} CascadeKept(pages: Pages, pages': Pages, metas: Metas, root: nat, next: nat, x0: nat,
          x: nat, n: nat, trail: seq<nat>)
    requires TreeOkBut(pages, metas, root, next, x0) && Path(metas, root, trail) && Over(metas, Last(trail), x)
    requires SameAbove(pages, pages', metas, x)
    ensures CascadeFits(pages', x, n, trail) <==> CascadeFits(pages, x, n, trail)
    decreases |trail|
  {
    hide TreeOkBut, RepairOf;
    var par := Last(trail);
    RepairKept(pages, pages', metas, root, next, x0, x, n, par);
    if |trail| > 1 && |pages[par].cells| > 0 {
      PathUp(metas, root, trail);
      CascadeKept(pages, pages', metas, root, next, x0, par, |pages[par].cells| - 1, trail[..|trail| - 1]);
    }
  }

  /** One key can be removed from the leaf at the end of the trail, and the shortage repaired. */
  predicate DeleteFits(pages: Pages, trail: seq<nat>) {
    |trail| <= 1 || (Last(trail) in pages && |pages[Last(trail)].cells| > 0 &&
      (|pages[Last(trail)].cells| - 1 >= DEGREE
       || CascadeFits(pages, Last(trail), |pages[Last(trail)].cells| - 1, trail[..|trail| - 1])))
  }

  /** Two neighbours can be merged, and the parent they leave can be repaired. */
  predicate MergeFits(pages: Pages, root: nat, left: nat, right: nat, ancestors: seq<nat>) {
    && |ancestors| > 0 && Last(ancestors) in pages && left in pages && right in pages
    && MergeNeeds(IsLeafLevel(pages[left]), |pages[left].cells|, |pages[right].cells|) <= ORDER
    && (Last(ancestors) == root || |pages[Last(ancestors)].cells| - 1 >= DEGREE
        || (|pages[Last(ancestors)].cells| > 0
            && CascadeFits(pages, Last(ancestors), |pages[Last(ancestors)].cells| - 1, ancestors[..|ancestors| - 1])))
  }

  /** The last page is the root only when it is the only one. */
  lemma RootAlone(metas: Metas, root: nat, trail: seq<nat>)
    requires Path(metas, root, trail)
    ensures Last(trail) == root <==> |trail| == 1
  {
    PathHeights(metas, root, trail, |trail| - 1);
  }

  lemma UpFromPage(metas: Metas, root: nat, trail: seq<nat>)
    requires Path(metas, root, trail) && Last(trail) != root
    ensures |trail| > 1 && Path(metas, root, trail[..|trail| - 1])
    ensures Over(metas, Last(trail[..|trail| - 1]), Last(trail))
  {
    RootAlone(metas, root, trail);
    PathUp(metas, root, trail);
  }

  /** When neither neighbour has a cell to spare, repairing is merging. */
  lemma RepairByMerge(pages: Pages, root: nat, metas: Metas, x: nat, ancestors: seq<nat>)
    requires Path(metas, root, ancestors) && x in pages && Last(ancestors) in pages
    requires |pages[Last(ancestors)].cells| > 0
    requires var p := pages[Last(ancestors)];
             var i := PositionOf(p.cells, x);
             && (i > 0 ==> Child(p, i - 1) in pages && |pages[Child(p, i - 1)].cells| <= DEGREE
                           && IsLeafLevel(pages[Child(p, i - 1)]) == IsLeafLevel(pages[x]))
             && (i < |p.cells| ==> Child(p, i + 1) in pages && |pages[Child(p, i + 1)].cells| <= DEGREE)
    ensures var p := pages[Last(ancestors)];
            var i := PositionOf(p.cells, x);
            CascadeFits(pages, x, |pages[x].cells|, ancestors)
            <==> if i > 0 then MergeFits(pages, root, Child(p, i - 1), x, ancestors)
                 else MergeFits(pages, root, x, Child(p, i + 1), ancestors)
  {
    RootAlone(metas, root, ancestors);
  }
}
