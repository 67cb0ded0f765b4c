/** The pages that redistributions and merges build, and why they are in order. */
module TreeDelete {
  import opened IndexPages
  import opened TreeInv
  import opened TreeSplit
  import opened TreeContents
  import opened TreeShift

  // ---------------------------------------------------------------- joined cells

  lemma JoinedSorted(a: seq<Cell>, b: seq<Cell>)
    requires Sorted(a) && Sorted(b) && (a != [] && b != [] ==> a[|a| - 1].key < b[0].key)
    ensures Sorted(a + b)
  {
    var c := a + b;
    forall i, j {:trigger c[i].key, c[j].key} | 0 <= i < j < |c| ensures c[i].key < c[j].key {
      if i < |a| <= j {
        assert c[i] == a[i] && c[j] == b[j - |a|];
        assert i < |a| - 1 ==> a[i].key < a[|a| - 1].key;
        assert j > |a| ==> b[0].key < b[j - |a|].key;
      } else if j < |a| {
        assert c[i] == a[i] && c[j] == a[j];
      } else {
        assert c[i] == b[i - |a|] && c[j] == b[j - |a|];
      }
    }
  }

  lemma JoinedIn(a: seq<Cell>, m: Meta, b: seq<Cell>, n: Meta)
    requires CellsIn(a, m) && CellsIn(b, n) && m.ht == n.ht && m.lo <= n.lo && m.hi <= n.hi
    ensures CellsIn(a + b, m.(hi := n.hi))
  {
    var c := a + b;
    forall i {:trigger c[i].key} | 0 <= i < |c|
      ensures (if m.ht == 0 then m.lo <= c[i].key else m.lo < c[i].key) && c[i].key < n.hi
    {
      assert c[i] == if i < |a| then a[i] else b[i - |a|];
    }
  }

  /** Two adjacent leaves' cells together hold both ranges. */
  lemma JoinedHolds(a: seq<Cell>, m: Meta, b: seq<Cell>, n: Meta, contents: map<nat, nat>)
    requires LeafHolds(a, m, contents) && LeafHolds(b, n, contents) && CellsIn(a, m) && CellsIn(b, n)
    requires m.ht == 0 && n.ht == 0 && m.hi == n.lo
    ensures LeafHolds(a + b, m.(hi := n.hi), contents)
  {
    forall k, v {:trigger Cell(k, v) in a + b} | m.lo <= k < n.hi
      ensures Cell(k, v) in a + b <==> k in contents && contents[k] == v
    {
      if k < m.hi {
        assert Cell(k, v) !in b;
        assert Cell(k, v) in a <==> k in contents && contents[k] == v;
      } else {
        assert Cell(k, v) !in a;
        assert Cell(k, v) in b <==> k in contents && contents[k] == v;
      }
    }
  }

  lemma PrefixSorted(cells: seq<Cell>, m: Meta, s: nat)
    requires Sorted(cells) && CellsIn(cells, m) && s < |cells|
    ensures Sorted(cells[..s]) && CellsIn(cells[..s], m.(hi := cells[s].key))
  {
    forall i {:trigger cells[..s][i].key} | 0 <= i < s
      ensures (if m.ht == 0 then m.lo <= cells[..s][i].key else m.lo < cells[..s][i].key)
        && cells[..s][i].key < cells[s].key
    {
      assert cells[..s][i] == cells[i];
    }
    assert forall i {:trigger cells[..s][i].key} :: 0 <= i < s ==> cells[..s][i].key == cells[i].key;
  }

  // ---------------------------------------------------------------- parts of a page and joins of two

  /** The cells before position `s`; above the leaves, the child of cell `s` becomes the last one. */
  function Before(p: Page, s: nat): Page
    requires s < |p.cells|
  {
    if IsLeafLevel(p) then p.(cells := p.cells[..s]) else p.(cells := p.cells[..s], ptr := p.cells[s].ptr)
  }

  /** The cells from position `s` on; above the leaves, without cell `s` itself. */
  function After(p: Page, s: nat): Page
    requires s < |p.cells|
  {
    if IsLeafLevel(p) then p.(cells := p.cells[s..]) else p.(cells := p.cells[s + 1..])
  }

  /** Two neighbours' cells in one page with `right`'s header pointer; above the leaves, the
      separator between them comes down. */
  function Join(head: Page, left: Page, right: Page, sep: nat): Page {
    head.(cells := if IsLeafLevel(left) then left.cells + right.cells
                   else left.cells + [Cell(sep, left.ptr)] + right.cells,
          ptr := right.ptr)
  }

  // ---------------------------------------------------------------- children of joined pages

  function InnerJoin(left: Page, right: Page, sep: nat): Page {
    left.(cells := left.cells + [Cell(sep, left.ptr)] + right.cells, ptr := right.ptr)
  }

  lemma InnerJoinChild(left: Page, right: Page, sep: nat, k: nat)
    requires k <= |left.cells| + 1 + |right.cells|
    ensures var q := InnerJoin(left, right, sep);
            |q.cells| == |left.cells| + 1 + |right.cells|
            && Child(q, k) == if k <= |left.cells| then Child(left, k) else Child(right, k - |left.cells| - 1)
    ensures var q := InnerJoin(left, right, sep);
            k < |q.cells| ==> q.cells[k].key == if k < |left.cells| then left.cells[k].key
                                                else if k == |left.cells| then sep
                                                else right.cells[k - |left.cells| - 1].key
  {
  }

  lemma InnerJoinWired(metas: Metas, left: Page, m: Meta, right: Page, n: Meta)
    requires ChildrenFit(metas, left, m) && ChildrenFit(metas, right, n) && m.ht == n.ht > 0 && m.hi == n.lo
    ensures ChildrenFit(metas, InnerJoin(left, right, m.hi), m.(hi := n.hi))
  {
    var q, qm := InnerJoin(left, right, m.hi), m.(hi := n.hi);
    forall k {:trigger ChildFits(metas, q, qm, k)} | 0 <= k <= |q.cells| ensures ChildFits(metas, q, qm, k) {
      InnerJoinChild(left, right, m.hi, k);
      if k > 0 { InnerJoinChild(left, right, m.hi, k - 1); }
      if k <= |left.cells| {
        assert ChildFits(metas, left, m, k);
      } else {
        assert ChildFits(metas, right, n, k - |left.cells| - 1);
      }
    }
  }

  /** Splitting an internal page's children at separator `s` wires both parts. */
  lemma InnerPrefixWired(metas: Metas, p: Page, m: Meta, s: nat)
    requires ChildrenFit(metas, p, m) && m.ht > 0 && s < |p.cells|
    ensures ChildrenFit(metas, p.(cells := p.cells[..s], ptr := p.cells[s].ptr), m.(hi := p.cells[s].key))
  {
    var q, qm := p.(cells := p.cells[..s], ptr := p.cells[s].ptr), m.(hi := p.cells[s].key);
    forall k {:trigger ChildFits(metas, q, qm, k)} | 0 <= k <= |q.cells| ensures ChildFits(metas, q, qm, k) {
      assert ChildFits(metas, p, m, k);
    }
  }

  lemma InnerSuffixWired(metas: Metas, p: Page, m: Meta, s: nat)
    requires ChildrenFit(metas, p, m) && m.ht > 0 && s < |p.cells|
    ensures ChildrenFit(metas, p.(cells := p.cells[s + 1..]), m.(lo := p.cells[s].key))
  {
    var q, qm := p.(cells := p.cells[s + 1..]), m.(lo := p.cells[s].key);
    forall k {:trigger ChildFits(metas, q, qm, k)} | 0 <= k <= |q.cells| ensures ChildFits(metas, q, qm, k) {
      assert ChildFits(metas, p, m, s + 1 + k);
      assert k < |q.cells| ==> q.cells[k] == p.cells[s + 1 + k];
      assert k > 0 ==> q.cells[k - 1] == p.cells[s + k];
    }
  }

  // ---------------------------------------------------------------- shapes

  /** A page's cells in order, with the height it claims. */
  ghost predicate Body(p: Page, m: Meta) {
    && m.lo < m.hi <= KEY_LIMIT && Sorted(p.cells) && CellsIn(p.cells, m) && (IsLeafLevel(p) <==> m.ht == 0)
  }

  lemma BeforeBody(p: Page, m: Meta, s: nat)
    requires Body(p, m) && s < |p.cells| && m.lo < p.cells[s].key
    ensures Body(Before(p, s), m.(hi := p.cells[s].key))
  {
    PrefixSorted(p.cells, m, s);
  }

  lemma AfterBody(p: Page, m: Meta, s: nat)
    requires Body(p, m) && s < |p.cells|
    ensures Body(After(p, s), m.(lo := p.cells[s].key))
  {
    var d := if m.ht == 0 then s else s + 1;
    SuffixSorted(p.cells, d);
    if d < |p.cells| {
      assert s < d ==> p.cells[s].key < p.cells[d].key;
      SuffixIn(p.cells, m, d, p.cells[s].key);
    }
  }

  /** Every cell of the left range is below every cell of the right one. */
  lemma JoinBody(head: Page, left: Page, m: Meta, right: Page, n: Meta)
    requires Body(left, m) && Body(right, n) && m.ht == n.ht && m.hi == n.lo
    requires IsLeafLevel(head) <==> m.ht == 0
    ensures Body(Join(head, left, right, m.hi), m.(hi := n.hi))
  {
    var a, b, c := left.cells, right.cells, [Cell(m.hi, left.ptr)];
    if m.ht == 0 {
      JoinedSorted(a, b);
      JoinedIn(a, m, b, n);
    } else {
      JoinedSorted(a, c);
      assert (a + c)[|a + c| - 1] == c[0];
      JoinedSorted(a + c, b);
      assert CellsIn(c, n.(lo := m.lo));
      JoinedIn(a, m, c, n.(lo := m.lo));
      JoinedIn(a + c, n.(lo := m.lo), b, n);
    }
  }

  // ---------------------------------------------------------------- wiring

  lemma BeforeWired(metas: Metas, p: Page, m: Meta, s: nat)
    requires Body(p, m) && s < |p.cells| && m.ht > 0 && ChildrenFit(metas, p, m)
    ensures ChildrenFit(metas, Before(p, s), m.(hi := p.cells[s].key))
  {
    InnerPrefixWired(metas, p, m, s);
  }

  lemma AfterWired(metas: Metas, p: Page, m: Meta, s: nat)
    requires Body(p, m) && s < |p.cells| && m.ht > 0 && ChildrenFit(metas, p, m)
    ensures ChildrenFit(metas, After(p, s), m.(lo := p.cells[s].key))
  {
    InnerSuffixWired(metas, p, m, s);
  }

  lemma JoinWired(metas: Metas, head: Page, left: Page, m: Meta, right: Page, n: Meta)
    requires Body(left, m) && Body(right, n) && m.ht == n.ht > 0 && m.hi == n.lo
    requires ChildrenFit(metas, left, m) && ChildrenFit(metas, right, n)
    ensures ChildrenFit(metas, Join(head, left, right, m.hi), m.(hi := n.hi))
  {
    InnerJoinWired(metas, left, m, right, n);
    var q, q' := InnerJoin(left, right, m.hi), Join(head, left, right, m.hi);
    forall k {:trigger ChildFits(metas, q', m.(hi := n.hi), k)} | 0 <= k <= |q'.cells|
      ensures ChildFits(metas, q', m.(hi := n.hi), k)
    {
      assert ChildFits(metas, q, m.(hi := n.hi), k);
    }
  }

  /** Changing the ranges of two siblings does not unwire pages one level below them. */
  lemma ChildrenKept(metas: Metas, metas': Metas, p: Page, m: Meta)
    requires ChildrenFit(metas, p, m)
    requires forall c {:trigger metas'[c]} {:trigger metas[c]} :: c in metas && metas[c].ht + 1 == m.ht ==>
      c in metas' && metas'[c] == metas[c]
    ensures ChildrenFit(metas', p, m)
  {
    forall k {:trigger ChildFits(metas', p, m, k)} | 0 <= k <= |p.cells| ensures ChildFits(metas', p, m, k) {
      assert ChildFits(metas, p, m, k);
    }
  }
}
