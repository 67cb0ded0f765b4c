/** The buffer pool: page frames with pins, dirty marks and log sequence numbers, and the order in which
    pages were last used. */
module BufferPools {
  import opened Wrappers

  datatype PoolFrame<P> = PoolFrame(page: P, pins: nat, pageLsn: nat, recLsn: nat)

  datatype Evicted<P> = Evicted(id: nat, page: P, wasDirty: bool, pageLsn: nat, recLsn: nat)

  // ---------------------------------------------------------------- the order of use

  /** The list without an entry. */
  function Retain(order: seq<nat>, id: nat): (r: seq<nat>)
    ensures id !in r
    ensures forall x :: x in r <==> x in order && x != id
  {
    if order == [] then []
    else if order[0] == id then Retain(order[1..], id)
    else [order[0]] + Retain(order[1..], id)
  }

  /** The last position at which `id` was used, or -1. */
  ghost function LastUse(uses: seq<nat>, id: nat): (r: int)
    ensures -1 <= r < |uses| && (r >= 0 ==> uses[r] == id)
    ensures forall j {:trigger uses[j]} :: r < j < |uses| ==> uses[j] != id
  {
    if uses == [] then -1
    else if uses[|uses| - 1] == id then |uses| - 1
    else LastUse(uses[..|uses| - 1], id)
  }

  lemma UsedAgain(uses: seq<nat>, id: nat)
    ensures forall x {:trigger LastUse(uses + [id], x)} ::
      LastUse(uses + [id], x) == if x == id then |uses| else LastUse(uses, x)
  {
    assert (uses + [id])[..|uses|] == uses;
  }

  /** Ids in the order of their last uses. */
  ghost predicate Ordered(order: seq<nat>, uses: seq<nat>) {
    && (forall i {:trigger order[i]} :: 0 <= i < |order| ==> LastUse(uses, order[i]) >= 0)
    && forall i, j {:trigger order[i], order[j]} :: 0 <= i < j < |order| ==>
        LastUse(uses, order[i]) < LastUse(uses, order[j])
  }

  ghost predicate NoneTwice(order: seq<nat>) {
    forall i, j {:trigger order[i], order[j]} :: 0 <= i < j < |order| ==> order[i] != order[j]
  }

  lemma OrderedOnce(order: seq<nat>, uses: seq<nat>)
    requires Ordered(order, uses)
    ensures NoneTwice(order)
  {
    hide LastUse;
  }

  lemma {:induction false} RetainOrdered(order: seq<nat>, uses: seq<nat>, id: nat)
    requires Ordered(order, uses)
    ensures Ordered(Retain(order, id), uses)
  {
    hide LastUse;
    if order != [] {
      var rest := order[1..];
      RetainOrdered(rest, uses, id);
      var r := Retain(rest, id);
      if order[0] != id {
        forall j {:trigger r[j]} | 0 <= j < |r| ensures LastUse(uses, order[0]) < LastUse(uses, r[j]) {
          assert r[j] in rest;
          var k :| 0 <= k < |rest| && rest[k] == r[j];
          assert order[k + 1] == r[j];
        }
      }
    }
  }

  /** Touching puts an id last, as the newest use. */
  lemma TouchOrdered(order: seq<nat>, uses: seq<nat>, id: nat)
    requires Ordered(order, uses)
    ensures Ordered(Retain(order, id) + [id], uses + [id])
    ensures forall x :: x in Retain(order, id) + [id] <==> x in order || x == id
  {
    RetainOrdered(order, uses, id);
    UsedAgain(uses, id);
    var r := Retain(order, id);
    assert forall i {:trigger r[i]} :: 0 <= i < |r| ==> r[i] in r && r[i] != id;
  }

  /** Taking an entry out at its place is taking out all of that id. */
  lemma {:induction false} RetainAt(order: seq<nat>, i: nat)
    requires NoneTwice(order) && i < |order|
    ensures order[..i] + order[i + 1..] == Retain(order, order[i])
  {
    if i == 0 {
      RetainAbsent(order[1..], order[0]);
    } else {
      RetainAt(order[1..], i - 1);
      assert order[..i] + order[i + 1..] == [order[0]] + (order[1..][..i - 1] + order[1..][i..]);
    }
  }

  lemma {:induction false} RetainAbsent(order: seq<nat>, id: nat)
    requires id !in order
    ensures Retain(order, id) == order
  {
    if order != [] {
      RetainAbsent(order[1..], id);
    }
  }

  /** The unpinned frame whose last use is longest ago. */
  ghost predicate IsVictim<P>(frames: map<nat, PoolFrame<P>>, uses: seq<nat>, id: nat) {
    && id in frames && frames[id].pins == 0
    && forall x {:trigger frames[x]} :: x in frames && frames[x].pins == 0 && x != id ==>
      LastUse(uses, id) < LastUse(uses, x)
  }

  ghost predicate AllPinned<P>(frames: map<nat, PoolFrame<P>>) {
    forall x {:trigger frames[x]} :: x in frames ==> frames[x].pins > 0
  }

  class BufferPool<P> {
    var frames: map<nat, PoolFrame<P>>
    var dirty: set<nat>
    var lru: seq<nat>
    const maxFrames: nat
    /** Every id used so far, the latest last. */
    ghost var uses: seq<nat>

    /** Every frame is in the list, which is in the order of the last uses; there are never too many
        frames. */
    ghost predicate Valid()
      reads this
    {
      && maxFrames >= 1 && |frames| <= maxFrames
      && Ordered(lru, uses) && forall id {:trigger id in lru} :: id in frames ==> id in lru
    }

    constructor (max: nat)
      requires max >= 1
      ensures Valid() && frames == map[] && dirty == {} && maxFrames == max && lru == [] && uses == []
    {
      frames := map[];
      dirty := {};
      lru := [];
      maxFrames := max;
      uses := [];
    }

    /** Makes `id` the most recently used, whether or not it has a frame. */
    method Touch(id: nat)
      requires Valid()
      modifies this`lru, this`uses
      ensures Valid() && lru == Retain(old(lru), id) + [id] && NoneTwice(lru)
      ensures uses == old(uses) + [id]
    {
      TouchOrdered(lru, uses, id);
      lru := Retain(lru, id) + [id];
      uses := uses + [id];
      OrderedOnce(lru, uses);
    }

    method Get(id: nat) returns (r: Option<P>)
      requires Valid()
      modifies this`lru, this`uses
      ensures Valid() && r == if id in frames then Some(frames[id].page) else None
      ensures lru == Retain(old(lru), id) + [id] && uses == old(uses) + [id]
    {
      Touch(id);
      r := if id in frames then Some(frames[id].page) else None;
    }

    /** Drops the unpinned frame whose last use is longest ago, if there is one. */
    method EvictOne() returns (r: Option<Evicted<P>>)
      requires Valid()
      modifies this`frames, this`dirty, this`lru
      ensures Valid()
      ensures r.None? <==> AllPinned(old(frames))
      ensures r.None? ==> frames == old(frames) && dirty == old(dirty) && lru == old(lru)
      ensures NoneTwice(lru) && (r.Some? ==> lru == Retain(old(lru), r.value.id))
      ensures r.Some? ==>
        var v := r.value;
        && IsVictim(old(frames), uses, v.id) && frames == old(frames) - {v.id} && dirty == old(dirty) - {v.id}
        && v.id in old(frames) && var f := old(frames)[v.id];
           v.page == f.page && v.pageLsn == f.pageLsn && v.recLsn == f.recLsn && v.wasDirty == (v.id in old(dirty))
    {
      hide LastUse, IsVictim, Ordered, NoneTwice;
      var i := 0;
      while i < |lru|
        invariant i <= |lru|
        invariant forall k {:trigger lru[k]} :: 0 <= k < i ==> lru[k] !in frames || frames[lru[k]].pins > 0
      {
        var id := lru[i];
        if id in frames && frames[id].pins == 0 {
          VictimAt(i);
          OrderedOnce(lru, uses);
          RetainAt(lru, i);
          RetainOrdered(lru, uses, id);
          FewerFrames(frames, id);
          lru := lru[..i] + lru[i + 1..];
          var f := frames[id];
          r := Some(Evicted(id, f.page, id in dirty, f.pageLsn, f.recLsn));
          dirty := dirty - {id};
          frames := frames - {id};
          OrderedOnce(lru, uses);
          return;
        }
        i := i + 1;
      }
      forall x {:trigger frames[x]} | x in frames ensures frames[x].pins > 0 {
        assert x in lru;
      }
      OrderedOnce(lru, uses);
      r := None;
    }

    /** The first unpinned frame in the order of use is the victim. */
    lemma VictimAt(i: nat)
      requires Valid() && i < |lru| && lru[i] in frames && frames[lru[i]].pins == 0
      requires forall k {:trigger lru[k]} :: 0 <= k < i ==> lru[k] !in frames || frames[lru[k]].pins > 0
      ensures IsVictim(frames, uses, lru[i])
    {
      forall x {:trigger frames[x]} | x in frames && frames[x].pins == 0 && x != lru[i]
        ensures LastUse(uses, lru[i]) < LastUse(uses, x)
      {
        assert x in lru;
        var k :| 0 <= k < |lru| && lru[k] == x;
        assert k > i;
      }
    }

    /** Adds a clean, unpinned frame.  A full pool gives up its victim first, and fails exactly when
        every frame is pinned. */
    method Insert(id: nat, page: P) returns (r: Result<Option<Evicted<P>>>)
      requires Valid()
      modifies this
      ensures Valid()
      ensures r.Err? <==> id !in old(frames) && |old(frames)| >= maxFrames && AllPinned(old(frames))
      ensures r.Err? ==> frames == old(frames) && dirty == old(dirty) && lru == old(lru) && uses == old(uses)
      ensures r.Ok? ==> uses == old(uses) + [id]
      ensures r.Ok? ==>
        lru == Retain(if r.value.Some? then Retain(old(lru), r.value.value.id) else old(lru), id) + [id]
      ensures r.Ok? && id in old(frames) ==> r.value == None && frames == old(frames) && dirty == old(dirty)
      ensures r.Ok? && id !in old(frames) ==>
        && (r.value.None? <==> |old(frames)| < maxFrames)
        && (r.value.None? ==> frames == old(frames)[id := PoolFrame(page, 0, 0, 0)] && dirty == old(dirty))
        && (r.value.Some? ==>
              var v := r.value.value;
              && IsVictim(old(frames), old(uses), v.id)
              && frames == (old(frames) - {v.id})[id := PoolFrame(page, 0, 0, 0)]
              && dirty == old(dirty) - {v.id} && v.id in old(frames)
              && v.page == old(frames)[v.id].page && v.pageLsn == old(frames)[v.id].pageLsn
              && v.recLsn == old(frames)[v.id].recLsn && v.wasDirty == (v.id in old(dirty)))
    {
      hide Ordered, IsVictim, NoneTwice;
      if id in frames {
        Touch(id);
        return Ok(None);
      }
      var evicted: Option<Evicted<P>> := None;
      if |frames| >= maxFrames {
        evicted := EvictOne();
        if evicted.None? {
          return Err("Buffer pool full: all pages are pinned");
        }
        FewerFrames(old(frames), evicted.value.id);
      }
      TouchOrdered(lru, uses, id);
      frames := frames[id := PoolFrame(page, 0, 0, 0)];
      lru := Retain(lru, id) + [id];
      uses := uses + [id];
      return Ok(evicted);
    }

    /** Replaces a frame's page and marks it dirty.  Without a frame one is added; the page that this
        evicts is dropped even if it was dirty, and in a full pool of pinned frames so is the new one. */
    method UpdatePage(id: nat, page: P)
      requires Valid()
      modifies this
      ensures Valid()
      ensures id in old(frames) ==>
        frames == old(frames)[id := old(frames)[id].(page := page)] && dirty == old(dirty) + {id}
      ensures id !in old(frames) && |old(frames)| < maxFrames ==>
        frames == old(frames)[id := PoolFrame(page, 0, 0, 0)] && dirty == old(dirty) + {id}
      ensures id !in old(frames) && |old(frames)| >= maxFrames && AllPinned(old(frames)) ==>
        frames == old(frames) && dirty == old(dirty) + {id}
      ensures id !in old(frames) && |old(frames)| >= maxFrames && !AllPinned(old(frames)) ==>
        exists v: nat :: IsVictim(old(frames), old(uses), v)
          && frames == (old(frames) - {v})[id := PoolFrame(page, 0, 0, 0)]
          && dirty == old(dirty) - {v} + {id} && lru == Retain(Retain(old(lru), v), id) + [id]
      ensures id in old(frames) || |old(frames)| < maxFrames ==> lru == Retain(old(lru), id) + [id]
      ensures id !in old(frames) && |old(frames)| >= maxFrames && AllPinned(old(frames)) ==> lru == old(lru)
      ensures uses == if id !in old(frames) && |old(frames)| >= maxFrames && AllPinned(old(frames))
                      then old(uses) else old(uses) + [id]
    {
      if id in frames {
        SameCount(frames, id, frames[id].(page := page));
        frames := frames[id := frames[id].(page := page)];
        dirty := dirty + {id};
        Touch(id);
      } else {
        var _ := Insert(id, page);
        dirty := dirty + {id};
      }
    }

    method MarkDirty(id: nat)
      requires Valid()
      modifies this`dirty
      ensures Valid() && dirty == old(dirty) + {id}
    {
      dirty := dirty + {id};
    }

    /** Records a change: the first one since the page was clean stays in `recLsn`. */
    method UpdateLsn(id: nat, lsn: nat)
      requires Valid()
      modifies this
      ensures Valid()
      ensures id in old(frames) ==>
        var f := old(frames)[id];
        frames == old(frames)[id := f.(pageLsn := lsn, recLsn := if f.recLsn == 0 then lsn else f.recLsn)]
          && dirty == old(dirty) + {id}
      ensures id !in old(frames) ==> frames == old(frames) && dirty == old(dirty)
      ensures lru == Retain(old(lru), id) + [id] && uses == old(uses) + [id]
    {
      if id in frames {
        var f := frames[id];
        SameCount(frames, id, f.(pageLsn := lsn, recLsn := if f.recLsn == 0 then lsn else f.recLsn));
        frames := frames[id := f.(pageLsn := lsn, recLsn := if f.recLsn == 0 then lsn else f.recLsn)];
        dirty := dirty + {id};
      }
      Touch(id);
    }

    method ClearDirtySingle(id: nat)
      requires Valid()
      modifies this`dirty, this`frames
      ensures Valid() && dirty == old(dirty) - {id}
      ensures frames == if id in old(frames) then old(frames)[id := old(frames)[id].(recLsn := 0)] else old(frames)
    {
      dirty := dirty - {id};
      if id in frames {
        SameCount(frames, id, frames[id].(recLsn := 0));
        frames := frames[id := frames[id].(recLsn := 0)];
      }
    }

    method ClearDirty()
      requires Valid()
      modifies this`dirty, this`frames
      ensures Valid() && dirty == {} && frames.Keys == old(frames).Keys
      ensures forall x {:trigger frames[x]} :: x in frames ==> frames[x] == old(frames)[x].(recLsn := 0)
    {
      dirty := {};
      SameKeys(frames, map x | x in frames :: frames[x].(recLsn := 0));
      frames := map x | x in frames :: frames[x].(recLsn := 0);
    }

    method Pin(id: nat)
      requires Valid()
      modifies this`frames
      ensures Valid()
      ensures frames
        == if id in old(frames) then old(frames)[id := old(frames)[id].(pins := old(frames)[id].pins + 1)]
          else old(frames)
    {
      if id in frames {
        SameCount(frames, id, frames[id].(pins := frames[id].pins + 1));
        frames := frames[id := frames[id].(pins := frames[id].pins + 1)];
      }
    }

    method Unpin(id: nat)
      requires Valid()
      modifies this`frames
      ensures Valid()
      ensures frames == if id in old(frames)
                        then old(frames)[id := old(frames)[id].(pins := if old(frames)[id].pins > 0
                                                                then old(frames)[id].pins - 1 else 0)]
                        else old(frames)
    {
      if id in frames {
        var f := frames[id];
        SameCount(frames, id, f.(pins := if f.pins > 0 then f.pins - 1 else 0));
        frames := frames[id := f.(pins := if f.pins > 0 then f.pins - 1 else 0)];
      }
    }
  }

  lemma SameCount<P>(frames: map<nat, PoolFrame<P>>, id: nat, f: PoolFrame<P>)
    requires id in frames
    ensures |frames[id := f]| == |frames|
  {
    SameKeys(frames, frames[id := f]);
  }

  lemma SameKeys<P>(a: map<nat, PoolFrame<P>>, b: map<nat, PoolFrame<P>>)
    requires a.Keys == b.Keys
    ensures |a| == |b|
  {
    assert |a| == |a.Keys| && |b| == |b.Keys|;
  }

  lemma FewerFrames<P>(frames: map<nat, PoolFrame<P>>, id: nat)
    requires id in frames
    ensures |frames - {id}| == |frames| - 1
  {
    assert (frames - {id}).Keys == frames.Keys - {id};
    assert |frames| == |frames.Keys| && |frames - {id}| == |(frames - {id}).Keys|;
  }
}
