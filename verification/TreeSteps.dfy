/** The steps of a search and of an insertion, each equal to what it is meant to build. */
module TreeSteps {
  import opened Wrappers
  import opened IndexPages
  import opened TreeInv
  import opened TreeSplit
  import opened TreeContents
  import opened TreePath

  // ---------------------------------------------------------------- searching

  /** One step of a search: down to the covering child, or at the leaf the answer. */
  lemma SearchStep(pages: Pages, metas: Metas, root: nat, next: nat, id: nat, key: nat, contents: map<nat, nat>)
    requires TreeOk(pages, metas, root, next) && Stores(pages, metas, contents)
    requires id in metas && metas[id].lo <= key < metas[id].hi
    ensures id in pages && (IsLeafLevel(pages[id]) <==> metas[id].ht == 0)
    ensures metas[id].ht > 0 ==>
      var c := Child(pages[id], ChildIndex(pages[id].cells, key));
      c in metas && metas[c].lo <= key < metas[c].hi && Over(metas, id, c) && c != root
    ensures metas[id].ht == 0 ==>
      var i := LowerBound(pages[id].cells, key);
      (FoundAt(pages[id].cells, key, i) <==> key in contents)
      && (key in contents ==> contents[key] == pages[id].cells[i].ptr)
  {
    assert NodeOk(pages, metas, root, next, id);
    if metas[id].ht > 0 {
      DescendCovers(pages, metas, root, next, next, id, key);
      SeparatorOrder(pages[id], metas[id], ChildIndex(pages[id].cells, key));
    } else {
      KeyKnown(pages[id].cells, metas[id], contents, key);
    }
  }

  lemma DescentStep(pages: Pages, id: nat, key: nat, ht: nat, trail: seq<nat>)
    requires id in pages
    ensures ht > 0 ==>
      trail + Descent(pages, id, key, ht)
      == (trail + [id]) + Descent(pages, Child(pages[id], ChildIndex(pages[id].cells, key)), key, ht - 1)
    ensures ht == 0 ==> trail + Descent(pages, id, key, ht) == trail + [id]
  {
  }

  lemma RootCovers(pages: Pages, metas: Metas, root: nat, next: nat, key: nat)
    requires TreeOk(pages, metas, root, next) && key < KEY_LIMIT
    ensures root in metas && metas[root].lo <= key < metas[root].hi && Path(metas, root, [] + [root])
    ensures [] + Descent(pages, root, key, metas[root].ht) == Descent(pages, root, key, metas[root].ht)
  {
  }

  /** The page into which a search goes on from an internal page. */
  function NextOnWay(p: Page, key: nat): nat {
    var i := LowerBound(p.cells, key);
    if FoundAt(p.cells, key, i) then (if i + 1 < |p.cells| then p.cells[i + 1].ptr else p.ptr)
    else if i < |p.cells| then p.cells[i].ptr else p.ptr
  }

  /** One step of the way down: the trail so far and the rest of the way stay the whole way. */
  lemma BreadcrumbStep(pages: Pages, metas: Metas, root: nat, next: nat, id: nat, key: nat, contents: map<nat, nat>,
                       trail: seq<nat>)
    requires TreeOk(pages, metas, root, next) && Stores(pages, metas, contents)
    requires id in metas && metas[id].lo <= key < metas[id].hi && Path(metas, root, trail + [id])
    ensures id in pages && (IsLeafLevel(pages[id]) <==> metas[id].ht == 0) && Last(trail + [id]) == id
    ensures metas[id].ht == 0 ==>
      (FoundAt(pages[id].cells, key, LowerBound(pages[id].cells, key)) <==> key in contents)
      && trail + Descent(pages, id, key, metas[id].ht) == trail + [id]
    ensures metas[id].ht > 0 ==>
      var c := NextOnWay(pages[id], key);
      c in metas && metas[c].lo <= key < metas[c].hi && metas[c].ht < metas[id].ht
      && Path(metas, root, (trail + [id]) + [c])
      && trail + Descent(pages, id, key, metas[id].ht) == (trail + [id]) + Descent(pages, c, key, metas[c].ht)
  {
    hide TreeOkBut, Stores, Path, Descent, Disjoint;
    SearchStep(pages, metas, root, next, id, key, contents);
    DescentStep(pages, id, key, metas[id].ht, trail);
    assert Last(trail + [id]) == id;
    if metas[id].ht > 0 {
      PathDown(metas, root, trail + [id], NextOnWay(pages[id], key));
    }
  }

  // ---------------------------------------------------------------- splitting

  /** Both rebuilds of a split succeed. */
  lemma HalvesRebuilt(p: Page, right: nat, blank: Page)
    requires Sorted(p.cells) && |p.cells| == ORDER && (p.rootLeaf ==> p.kind == Root) && !blank.rootLeaf
    ensures var s := SplitAt(p);
            if IsLeafLevel(p) then
              Rebuild(p, p.cells[..s], Leaf, p.id, right) == Ok(LeftHalf(p, right))
              && Rebuild(blank, [p.cells[s]] + p.cells[s + 1..], Leaf, right, p.ptr) == Ok(RightHalf(p, right))
            else
              Rebuild(p, p.cells[..s], Internal, p.id, p.cells[s].ptr) == Ok(LeftHalf(p, right))
              && Rebuild(blank, p.cells[s + 1..], Internal, right, p.ptr) == Ok(RightHalf(p, right))
  {
    hide Rebuild;
    var s := SplitAt(p);
    PrefixOfSorted(p.cells, s);
    SuffixSorted(p.cells, s);
    SuffixSorted(p.cells, s + 1);
    assert [p.cells[s]] + p.cells[s + 1..] == p.cells[s..];
    if IsLeafLevel(p) {
      RebuildHolds(p, p.cells[..s], Leaf, p.id, right);
      RebuildHolds(blank, p.cells[s..], Leaf, right, p.ptr);
    } else {
      RebuildHolds(p, p.cells[..s], Internal, p.id, p.cells[s].ptr);
      RebuildHolds(blank, p.cells[s + 1..], Internal, right, p.ptr);
    }
  }

  /** The parent's rebuild succeeds; the separator then needs a free cell. */
  lemma SeparatorAdded(p: Page, j: nat, over: nat, right: nat, sep: nat)
    requires TakesSeparator(p, j, over, sep)
    ensures Rebuild(p, Redirect(p.cells, over, right), p.kind, p.id, if p.ptr == over then right else p.ptr)
         == Ok(SwapChild(p, j, right))
    ensures AddCell(SwapChild(p, j, right), sep, over)
         == if |p.cells| < ORDER then Ok(ParentAfterSplit(p, j, sep, over, right)) else Err("Page overflow")
    ensures |ParentAfterSplit(p, j, sep, over, right).cells| == |p.cells| + 1
  {
    hide Rebuild, Sorted;
    RedirectIsSwap(p, j, over, right);
    SwapSorted(p, j, right);
    var q := SwapChild(p, j, right);
    RebuildHolds(p, q.cells, p.kind, p.id, q.ptr);
    if |p.cells| < ORDER { AddCellAt(q, sep, over, j); }
  }

  function Redirect(cells: seq<Cell>, from: nat, to: nat): (r: seq<Cell>)
    ensures |r| == |cells|
    ensures forall i {:trigger r[i]} {:trigger cells[i]} :: 0 <= i < |r| ==>
      r[i] == if cells[i].ptr == from then cells[i].(ptr := to) else cells[i]
  {
    seq(|cells|, i requires 0 <= i < |cells| => if cells[i].ptr == from then cells[i].(ptr := to) else cells[i])
  }

  /** Redirecting every pointer to a page redirects the one child it is. */
  lemma RedirectIsSwap(p: Page, j: nat, from: nat, to: nat)
    requires j <= |p.cells| && Child(p, j) == from
    requires forall i {:trigger Child(p, i)} :: 0 <= i <= |p.cells| && i != j ==> Child(p, i) != from
    ensures p.(cells := Redirect(p.cells, from, to), ptr := if p.ptr == from then to else p.ptr) == SwapChild(p, j, to)
  {
    var q := SwapChild(p, j, to);
    assert p.ptr == Child(p, |p.cells|);
    assert forall i {:trigger p.cells[i]} :: 0 <= i < |p.cells| ==> p.cells[i].ptr == Child(p, i);
    assert Redirect(p.cells, from, to) == q.cells;
  }

  lemma SwapSorted(p: Page, j: nat, to: nat)
    requires Sorted(p.cells) && j <= |p.cells|
    ensures Sorted(SwapChild(p, j, to).cells) && |SwapChild(p, j, to).cells| == |p.cells|
    ensures forall i {:trigger SwapChild(p, j, to).cells[i].key} :: 0 <= i < |p.cells| ==>
      SwapChild(p, j, to).cells[i].key == p.cells[i].key
  {
    var q := SwapChild(p, j, to);
    forall a, b {:trigger q.cells[a].key, q.cells[b].key} | 0 <= a < b < |q.cells|
      ensures q.cells[a].key < q.cells[b].key
    {
      assert q.cells[a].key == p.cells[a].key && q.cells[b].key == p.cells[b].key;
    }
  }

  /** What `AddSeparator` needs of the parent: the split child is its child `j`, and the separator
      belongs between that child's bounds. */
  ghost predicate TakesSeparator(p: Page, j: nat, over: nat, sep: nat) {
    && Sorted(p.cells) && |p.cells| <= ORDER && !IsLeafLevel(p) && !p.rootLeaf
    && j <= |p.cells| && Child(p, j) == over
    && (forall i {:trigger Child(p, i)} :: 0 <= i <= |p.cells| && i != j ==> Child(p, i) != over)
    && (j > 0 ==> p.cells[j - 1].key < sep) && (j < |p.cells| ==> sep < p.cells[j].key)
  }

  lemma ParentTakesSeparator(pages: Pages, metas: Metas, root: nat, next: nat, par: nat, over: nat)
    requires TreeOk(pages, metas, root, next) && Over(metas, par, over) && over in pages && |pages[over].cells| == ORDER
    ensures par in pages && par != over && over != root
    ensures TakesSeparator(pages[par], PositionOf(pages[par].cells, over), over, PromotedKey(pages[over]))
  {
    ChildPlace(pages, metas, root, next, next, par, over);
    assert NodeOk(pages, metas, root, next, par) && NodeOk(pages, metas, root, next, over);
    SepInside(pages[over], metas[over], root, next, over);
    var j := PositionOf(pages[par].cells, over);
    assert ChildFits(metas, pages[par], metas[par], j);
  }

  /** After a split below it, the rest of the trail is as it was. */
  lemma TrailAfterSplit(pages: Pages, pages': Pages, metas: Metas, root: nat, next: nat, trail: seq<nat>)
    requires TreeOk(pages, metas, root, next) && Path(metas, root, trail) && |trail| > 1
    requires Last(trail) in pages && |pages[Last(trail)].cells| >= 2
    requires forall id {:trigger pages'[id]} {:trigger pages[id]} ::
      id in pages && id != Last(trail) && id != trail[|trail| - 2] ==> id in pages' && pages'[id] == pages[id]
    ensures var up := trail[..|trail| - 1];
            Path(SplitMetas(pages, metas, Last(trail), next), root, up)
              && (SplitFits(pages', up) <==> SplitFits(pages, up))
  {
    var up, metas' := trail[..|trail| - 1], SplitMetas(pages, metas, Last(trail), next);
    PathUp(metas, root, trail);
    PagesBelow(pages, metas, root, next, next);
    forall i {:trigger up[i]} | 0 <= i < |up|
      ensures up[i] in metas && up[i] in metas' && metas'[up[i]] == metas[up[i]]
    {
      AboveHigher(metas, root, trail, i);
    }
    PathKept(metas, metas', root, up);
    forall i {:trigger up[i]} | 0 <= i < |up| - 1 ensures up[i] in pages && up[i] in pages'
      && pages'[up[i]] == pages[up[i]] {
      AboveHigher(metas, root, trail, i);
      AboveHigher(metas, root, up, i);
    }
    SplitFitsKept(pages, pages', up);
  }

  /** A split below a parent with room, as a whole. */
  lemma SplitStep(pages: Pages, metas: Metas, root: nat, next: nat, trail: seq<nat>, contents: map<nat, nat>)
    requires TreeOk(pages, metas, root, next) && Stores(pages, metas, contents) && Path(metas, root, trail)
    requires |trail| > 1
    requires Last(trail) in metas && Last(trail) in pages && |pages[Last(trail)].cells| == ORDER
    ensures trail[|trail| - 2] in pages
    ensures var over, par, up := Last(trail), trail[|trail| - 2], trail[..|trail| - 1];
            var sep, j := PromotedKey(pages[over]), PositionOf(pages[par].cells, over);
            var metas' := SplitMetas(pages, metas, over, next);
            var split := SplitPages(pages, over, next);
            && par in split && split[par] == pages[par] && split[par].id == par && Last(up) == par
            && (|pages[par].cells| < ORDER ==>
                  var pages' := split[par := ParentAfterSplit(pages[par], j, sep, over, next)];
                  && TreeOk(pages', metas', root, next + 1) && Stores(pages', metas', contents)
                  && Path(metas', root, up) && par in metas' && par in pages'
                    && |pages'[par].cells| == |pages[par].cells| + 1
                  && (SplitFits(pages', up) <==> SplitFits(pages, up))
                  && (RoomyBut(pages, metas, over) ==> RoomyBut(pages', metas', par) && (|pages'[par].cells| < ORDER ==>
                    Roomy(pages', metas'))))
  {
    hide TreeOkBut, Stores, TakesSeparator, SplitFits, RoomyBut, Roomy, Shaped, Wired;
    var over, par := Last(trail), trail[|trail| - 2];
    PathUp(metas, root, trail);
    ParentTakesSeparator(pages, metas, root, next, par, over);
    SplitParts(pages, metas, root, next, par, over);
    if |pages[par].cells| < ORDER {
      var j := PositionOf(pages[par].cells, over);
      var sep := PromotedKey(pages[over]);
      var pages' := SplitPages(pages, over, next)[par := ParentAfterSplit(pages[par], j, sep, over, next)];
      PagesBelow(pages, metas, root, next, next);
      SplitUnderParent(pages, metas, root, next, over, par, j);
      SplitHolds(pages, metas, root, next, over, contents, pages', SplitMetas(pages, metas, over, next));
      TrailAfterSplit(pages, pages', metas, root, next, trail);
      if RoomyBut(pages, metas, over) { SplitRoomy(pages, metas, over, next, par, pages'); }
    }
  }

  lemma SplitParts(pages: Pages, metas: Metas, root: nat, next: nat, par: nat, over: nat)
    requires TreeOk(pages, metas, root, next) && Over(metas, par, over) && over in pages && |pages[over].cells| == ORDER
    ensures par in pages && par != over && pages[par].id == par && next !in pages && metas[par].ht > 0
    ensures var j := PositionOf(pages[par].cells, over);
            && Child(pages[par], j) == over && |pages[par].cells| <= ORDER
            && (|pages[par].cells| < ORDER ==> Splits(pages, metas, root, next, over, par, j))
    ensures SplitOf(metas, SplitMetas(pages, metas, over, next), over, next, pages[over])
    ensures var j := PositionOf(pages[par].cells, over);
            forall q: nat :: |ParentAfterSplit(pages[par], j, q, over, next).cells| == |pages[par].cells| + 1
  {
    ChildPlace(pages, metas, root, next, next, par, over);
    PagesBelow(pages, metas, root, next, next);
    assert NodeOk(pages, metas, root, next, par);
  }

  lemma SplitRoomy(pages: Pages, metas: Metas, over: nat, right: nat, par: nat, pages': Pages)
    requires over in pages && over in metas && |pages[over].cells| == ORDER && par in pages'
    requires RoomyBut(pages, metas, over)
    requires over in pages' && pages'[over] == LeftHalf(pages[over], right)
    requires right in pages' && pages'[right] == RightHalf(pages[over], right)
    requires forall id {:trigger pages'[id]} {:trigger pages[id]} ::
      id in pages && id != over && id != right && id != par ==> id in pages' && pages'[id] == pages[id]
    ensures var metas' := SplitMetas(pages, metas, over, right);
            RoomyBut(pages', metas', par) && (|pages'[par].cells| < ORDER ==> Roomy(pages', metas'))
  {
  }

  /** A split of the root, as a whole. */
  lemma SplitRootStep(pages: Pages, metas: Metas, root: nat, next: nat, contents: map<nat, nat>)
    requires TreeOk(pages, metas, root, next) && Stores(pages, metas, contents)
    requires root in metas && root in pages && |pages[root].cells| == ORDER
    ensures var split := SplitPages(pages, root, next);
            var pages' := split[next + 1 := Page(next + 1, Root, false, next, [Cell(PromotedKey(pages[root]), root)])]
                               [root := Demoted(split[root])];
            var metas' := SplitRootMetas(pages, metas, root, next);
            && root < next && TreeOk(pages', metas', next + 1, next + 2) && Stores(pages', metas', contents)
            && (RoomyBut(pages, metas, root) ==> Roomy(pages', metas'))
  {
    hide TreeOkBut, Stores;
    var split := SplitPages(pages, root, next);
    var pages' := split[next + 1 := Page(next + 1, Root, false, next, [Cell(PromotedKey(pages[root]), root)])]
                       [root := Demoted(split[root])];
    PagesBelow(pages, metas, root, next, next);
    SplitRoot(pages, metas, root, next);
    assert pages' == split[next + 1 := NewRoot(pages, root, next)];
    SplitRootStart(pages, metas, root, next);
    SplitHolds(pages, metas, root, next, root, contents, pages', SplitRootMetas(pages, metas, root, next));
  }

  function Demoted(p: Page): Page {
    if p.kind == Root then SetPageKind(p, Internal) else p
  }

  lemma PrefixOfSorted(cells: seq<Cell>, s: nat)
    requires Sorted(cells) && s <= |cells|
    ensures Sorted(cells[..s])
  {
    assert forall i {:trigger cells[..s][i].key} :: 0 <= i < s ==> cells[..s][i].key == cells[i].key;
  }

  lemma RoomyAfterInsert(pages: Pages, metas: Metas, leaf: nat, q: Page)
    requires leaf in pages && |q.cells| <= ORDER
    ensures Roomy(pages, metas) && (forall id {:trigger id in metas} :: id in metas ==> id in pages) ==>
      RoomyBut(pages[leaf := q], metas, leaf) && (|q.cells| < ORDER ==> Roomy(pages[leaf := q], metas))
  {
  }

  /** A change of the leaf does not matter to the pages above it. */
  lemma OnlyLeafChanged(pages: Pages, leaf: nat, q: Page, trail: seq<nat>, metas: Metas, root: nat)
    requires Path(metas, root, trail) && leaf == Last(trail) && leaf in pages
    ensures SplitFits(pages[leaf := q], trail) <==> SplitFits(pages, trail)
  {
    forall i {:trigger trail[i]} | 0 <= i < |trail| - 1 ensures trail[i] != leaf {
      AboveHigher(metas, root, trail, i);
    }
    SplitFitsKept(pages, pages[leaf := q], trail);
  }

  /** A new key goes into its leaf when there is room. */
  lemma LeafTakes(pages: Pages, metas: Metas, root: nat, next: nat, trail: seq<nat>, key: nat, heapId: nat,
          contents: map<nat, nat>)
    requires TreeOk(pages, metas, root, next) && Stores(pages, metas, contents) && |trail| > 0
    requires Path(metas, root, trail)
    requires Last(trail) in metas && Last(trail) in pages && key !in contents
    requires var m := metas[Last(trail)]; m.ht == 0 && m.lo <= key < m.hi
    ensures var leaf := Last(trail);
            var added := AddCell(pages[leaf], key, heapId);
            && (added.Ok? <==> |pages[leaf].cells| < ORDER)
            && (added.Ok? ==>
                  var pages' := pages[leaf := added.value];
                  && |added.value.cells| == |pages[leaf].cells| + 1
                  && TreeOk(pages', metas, root, next) && Stores(pages', metas, contents[key := heapId])
                  && (SplitFits(pages', trail) <==> SplitFits(pages, trail))
                  && (Roomy(pages, metas) ==> RoomyBut(pages', metas, leaf) && (|added.value.cells| < ORDER ==>
                    Roomy(pages', metas))))
  {
    hide Path, SplitFits, Roomy, RoomyBut, Stores;
    var leaf := Last(trail);
    assert NodeOk(pages, metas, root, next, leaf);
    if |pages[leaf].cells| < ORDER {
      SearchStep(pages, metas, root, next, leaf, key, contents);
      InsertIntoLeaf(pages, metas, root, next, leaf, key, heapId, contents);
      PagesBelow(pages, metas, root, next, next);
      var q := AddCell(pages[leaf], key, heapId).value;
      RoomyAfterInsert(pages, metas, leaf, q);
      OnlyLeafChanged(pages, leaf, q, trail, metas, root);
    }
  }
}
