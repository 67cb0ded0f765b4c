/** Trees in order on which an operation fails for want of room in one page: a root leaf that takes no
    key any more, and two internal pages that cannot be merged. */
module TreeLimits {
  import opened IndexPages
  import opened TreeInv
  import opened TreeSplit
  import opened TreePath
  import opened TreeShift
  import opened TreeMerge

  // ---------------------------------------------------------------- a full leaf

  /** `n` cells with ascending keys from `key` on. */
  function Ascending(key: nat, n: nat): (cells: seq<Cell>)
    ensures |cells| == n && forall i :: 0 <= i < n ==> cells[i] == Cell(key + i, 0)
  {
    seq(n, i requires 0 <= i => Cell(key + i, 0))
  }

  /** One page, root and leaf, with all the 203 cells a page takes. */
  function FullLeaf(): Pages {
    map[0 := Page(0, Root, true, 0, Ascending(1, ORDER))]
  }

  function AloneMetas(): Metas {
    map[0 := Meta(0, KEY_LIMIT, 0)]
  }

  /** That tree is in order, and no insertion into it succeeds: a leaf may hold as many cells as a page
      takes, although a leaf that becomes so full by an insertion is split at once. */
  lemma FullLeafTakesNothing(key: nat)
    ensures TreeOk(FullLeaf(), AloneMetas(), 0, 1)
    ensures !InsertFits(FullLeaf(), Descent(FullLeaf(), 0, key, 0))
  {
    assert NodeOk(FullLeaf(), AloneMetas(), 0, 1, 0);
  }

  /** What inserting the keys 0 to 203 in order makes of an empty tree: two leaves of 102 cells. */
  function TwoLeaves(): Pages {
    map[0 := Page(0, Leaf, false, 1, Ascending(0, 102)), 1 := Page(1, Leaf, false, 0, Ascending(102, 102)),
        2 := Page(2, Root, false, 1, [Cell(102, 0)])]
  }

  /** The one split on the way there, of the root leaf with the keys 0 to 202, and the last key. */
  lemma LeavesFromInsertions()
    ensures var full := map[0 := Page(0, Root, true, 0, Ascending(0, ORDER))];
            && |full[0].cells| == ORDER && PromotedKey(full[0]) == 102
            && (var split := SplitPages(full, 0, 1)[2 := Page(2, Root, false, 1, [Cell(102, 0)])];
                AddCell(split[1], 203, 0).Ok? && split[1 := AddCell(split[1], 203, 0).value] == TwoLeaves())
  {
    var full := map[0 := Page(0, Root, true, 0, Ascending(0, ORDER))];
    assert Ascending(0, ORDER)[..102] == Ascending(0, 102);
    assert Ascending(0, ORDER)[102..] == Ascending(102, 101);
    var r := Page(1, Leaf, false, 0, Ascending(102, 101));
    AddCellAt(r, 203, 0, 101);
    assert Ascending(102, 101)[..101] + [Cell(203, 0)] + Ascending(102, 101)[101..] == Ascending(102, 102);
  }

  /** Deleting key 0 from there leaves 101 cells, which merge with the other 102 into a full leaf; the
      emptied root gives way to it. */
  lemma FullLeafFromDeletion()
    ensures Without(TwoLeaves()[0].cells, 0) == Ascending(1, 101) && DeleteFits(TwoLeaves(), [2, 0])
    ensures var left := TwoLeaves()[0].(cells := Ascending(1, 101));
            && |ParentAfterJoin(TwoLeaves()[2], 0, 0).cells| == 0 && ParentAfterJoin(TwoLeaves()[2], 0, 0).ptr == 0
            && map[0 := SetPageKind(Merged(left, TwoLeaves()[1], 102), Root)] == FullLeaf()
  {
    assert Without(Ascending(0, 102), 0) == Ascending(1, 101);
    assert Ascending(1, 101) + Ascending(102, 102) == Ascending(1, ORDER);
    assert [2, 0][..1] == [2];
    assert PositionOf(TwoLeaves()[2].cells, 0) == 0;
  }

  // ---------------------------------------------------------------- a pair that does not merge

  /** In the tree below, leaf `j` of 206 is page `j + 3` and holds the 101 keys from `101 * j` on; the
      first 103 leaves are under page 1, the others under page 2, and the root is page 0. */
  const LEAVES: nat := 206

  function LeafPage(j: nat): Page {
    Page(j + 3, Leaf, false, if j + 1 < LEAVES then j + 4 else 0, Ascending(101 * j, 101))
  }

  /** The page over leaves `j` to `j + 102`. */
  function Upper(id: nat, j: nat): (p: Page)
    ensures |p.cells| == 102 && forall i :: 0 <= i < 102 ==> p.cells[i] == Cell(101 * (j + i + 1), j + i + 3)
  {
    Page(id, Internal, false, j + 105, seq(102, i requires 0 <= i => Cell(101 * (j + i + 1), j + i + 3)))
  }

  function PageAt(id: nat): Page {
    if id == 0 then Page(0, Root, false, 2, [Cell(101 * 103, 1)])
    else if id == 1 then Upper(1, 0)
    else if id == 2 then Upper(2, 103)
    else LeafPage(id - 3)
  }

  function MetaAt(id: nat): Meta {
    if id == 0 then Meta(0, KEY_LIMIT, 2)
    else if id == 1 then Meta(0, 101 * 103, 1)
    else if id == 2 then Meta(101 * 103, KEY_LIMIT, 1)
    else Meta(101 * (id - 3), if id - 2 < LEAVES then 101 * (id - 2) else KEY_LIMIT, 0)
  }

  function TwoPages(): Pages {
    map id: nat | 0 <= id < LEAVES + 3 :: PageAt(id)
  }

  function TwoMetas(): Metas {
    map id: nat | 0 <= id < LEAVES + 3 :: MetaAt(id)
  }

  lemma UpperChild(id: nat, j: nat, i: nat)
    requires i <= 102
    ensures Child(Upper(id, j), i) == j + i + 3
    ensures var p := Upper(id, j);
            (i > 0 ==> p.cells[i - 1].key == 101 * (j + i)) && (i < 102 ==> p.cells[i].key == 101 * (j + i + 1))
  {
  }

  lemma UpperShaped(id: nat)
    requires id == 1 || id == 2
    ensures NodeOk(TwoPages(), TwoMetas(), 0, LEAVES + 3, id)
  {
    hide Upper;
    var j := if id == 1 then 0 else 103;
    var p, m := Upper(id, j), MetaAt(id);
    assert TwoPages()[id] == p && TwoMetas()[id] == m;
    assert p.id == id && p.kind == Internal && !p.rootLeaf by { UpperIs(id, j); }
    forall i {:trigger ChildFits(TwoMetas(), p, m, i)} | 0 <= i <= |p.cells| ensures ChildFits(TwoMetas(), p, m, i) {
      UpperChild(id, j, i);
      assert TwoMetas()[j + i + 3] == MetaAt(j + i + 3);
    }
  }

  lemma UpperIs(id: nat, j: nat)
    ensures var p := Upper(id, j); p.id == id && p.kind == Internal && !p.rootLeaf
  {
  }

  lemma LeafShaped(id: nat)
    requires 3 <= id < LEAVES + 3
    ensures NodeOk(TwoPages(), TwoMetas(), 0, LEAVES + 3, id)
  {
    hide Upper;
    var p, m := LeafPage(id - 3), MetaAt(id);
    assert TwoPages()[id] == p && TwoMetas()[id] == m;
    assert id + 1 < LEAVES + 3 ==> TwoMetas()[id + 1] == MetaAt(id + 1);
  }

  lemma RootShaped()
    ensures NodeOk(TwoPages(), TwoMetas(), 0, LEAVES + 3, 0)
  {
    hide Upper;
    var p, m := PageAt(0), MetaAt(0);
    assert TwoPages()[0] == p && TwoMetas()[0] == m;
    assert TwoMetas()[1] == MetaAt(1) && TwoMetas()[2] == MetaAt(2);
    forall i {:trigger ChildFits(TwoMetas(), p, m, i)} | 0 <= i <= |p.cells| ensures ChildFits(TwoMetas(), p, m, i) {
      assert Child(p, i) == i + 1;
    }
  }

  lemma TwoDisjoint()
    ensures Disjoint(TwoMetas())
  {
    forall a, b {:trigger TwoMetas()[a], TwoMetas()[b]} | a in TwoMetas() && b in TwoMetas() && a != b
      ensures Apart(TwoMetas()[a], TwoMetas()[b])
    {
      assert TwoMetas()[a] == MetaAt(a) && TwoMetas()[b] == MetaAt(b);
    }
  }

  lemma TwoInOrder()
    ensures TreeOk(TwoPages(), TwoMetas(), 0, LEAVES + 3)
  {
    hide NodeOk, PageAt;
    TwoDisjoint();
    assert TwoMetas()[0] == MetaAt(0);
    forall id {:trigger NodeOk(TwoPages(), TwoMetas(), 0, LEAVES + 3, id)} | id in TwoMetas()
      ensures NodeOk(TwoPages(), TwoMetas(), 0, LEAVES + 3, id)
    {
      if id == 0 { RootShaped(); } else if id <= 2 { UpperShaped(id); } else { LeafShaped(id); }
    }
    forall id {:trigger TwoMetas()[id]} | id in TwoMetas() ensures TwoMetas()[id].ht <= 2 {
      assert TwoMetas()[id] == MetaAt(id);
    }
  }

  /** The way to key 0 leads over pages 0 and 1 to page 3. */
  lemma WayToZero()
    ensures Descent(TwoPages(), 0, 0, 2) == [0, 1, 3]
  {
    hide Upper;
    assert TwoPages()[0] == PageAt(0) && TwoPages()[1] == Upper(1, 0);
    UpperChild(1, 0, 0);
    FirstChild(TwoPages()[0].cells);
    FirstChild(TwoPages()[1].cells);
    assert Descent(TwoPages(), 3, 0, 0) == [3];
    assert Descent(TwoPages(), 1, 0, 1) == [1, 3];
  }

  lemma FirstChild(cells: seq<Cell>)
    requires Sorted(cells) && |cells| > 0 && cells[0].key > 0
    ensures ChildIndex(cells, 0) == 0
  {
    assert cells[0].key > 0;
  }

  /** A tree of 206 leaves, in order, from which key 0 cannot be deleted.  Its leaf and the next one merge,
      which leaves the page over them with 101 cells; that page has the page with 102 cells as its only
      neighbour, and their 203 cells and the separator between them do not fit in one page. */
  lemma PairDoesNotMerge()
    ensures TreeOk(TwoPages(), TwoMetas(), 0, LEAVES + 3)
    ensures Descent(TwoPages(), 0, 0, 2) == [0, 1, 3] && Cell(0, 0) in TwoPages()[3].cells
    ensures !DeleteFits(TwoPages(), [0, 1, 3])
  {
    hide Upper, TreeOkBut;
    TwoInOrder();
    WayToZero();
    assert TwoPages()[3] == LeafPage(0) && TwoPages()[4] == LeafPage(1) && TwoPages()[1] == Upper(1, 0);
    assert TwoPages()[2] == Upper(2, 103) && TwoPages()[0] == PageAt(0);
    assert LeafPage(0).cells[0] == Cell(0, 0);
    LeafRepair();
    InnerRepair();
    assert [0, 1, 3][..2] == [0, 1] && [0, 1][..1] == [0];
  }

  lemma LeafRepair()
    ensures |TwoPages()[3].cells| == 101 && RepairOf(TwoPages(), 3, 100, TwoPages()[1]) == Upward
    ensures |TwoPages()[1].cells| == 102
  {
    hide Upper;
    assert TwoPages()[3] == LeafPage(0) && TwoPages()[4] == LeafPage(1) && TwoPages()[1] == Upper(1, 0);
    UpperChild(1, 0, 0);
    UpperChild(1, 0, 1);
    assert TwoPages()[1].cells[0].ptr == 3;
    assert PositionOf(TwoPages()[1].cells, 3) == 0;
  }

  lemma InnerRepair()
    ensures RepairOf(TwoPages(), 1, 101, TwoPages()[0]) == TooBig
  {
    hide Upper;
    assert TwoPages()[0] == PageAt(0) && TwoPages()[1] == Upper(1, 0) && TwoPages()[2] == Upper(2, 103);
    UpperIs(1, 0);
    assert PositionOf(TwoPages()[0].cells, 1) == 0;
  }
}
