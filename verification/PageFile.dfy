/** A page file behind a buffer pool: whatever is evicted or flushed when, every page reads as it was
    last written, and the log is always ahead of the file. */
module PageFiles {
  import opened Wrappers
  import opened Records
  import opened LittleEndian
  import IndexPages
  import H = Headers
  import PB = PageBytes
  import opened BufferPools
  import opened WalLogs

  function Zeros(n: nat): (r: Bytes)
    ensures |r| == n && forall i {:trigger r[i]} :: 0 <= i < n ==> r[i] == 0
  {
    seq(n, i => 0 as byte)
  }

  /** A newly allocated index page. */
  function BlankPage(id: nat, kind: IndexPages.Kind): Bytes {
    H.EncodeIndex(H.IndexHeader(id, H.INDEX_HEADER, INDEX_PAGE_SIZE, kind, 0, 0))
      + Zeros(INDEX_PAGE_SIZE - H.INDEX_HEADER)
  }

  /** The bytes of a new page stand for an empty page of its kind, with all its space free. */
  lemma BlankPageIs(id: nat, kind: IndexPages.Kind)
    requires id < U64
    ensures PB.PageOk(BlankPage(id, kind)) && PB.PageOf(BlankPage(id, kind)) == IndexPages.Page(id, kind, false, 0, [])
  {
    hide Zeros, H.EncodeIndex, H.DecodeIndex;
    var h := H.IndexHeader(id, H.INDEX_HEADER, INDEX_PAGE_SIZE, kind, 0, 0);
    H.IndexRoundTrip(h);
    var d := BlankPage(id, kind);
    assert |d| == INDEX_PAGE_SIZE && d[..H.INDEX_HEADER] == H.EncodeIndex(h);
    assert PB.HeaderOf(d) == Some(h) && PB.Count(h) == 0;
    assert PB.SlotsOk(d, 0, INDEX_PAGE_SIZE);
    assert PB.CellsOf(d, 0) == [];
  }

  /** How frames, file and store agree: a frame has the store's page, and so has the file unless the
      frame is dirty.  No frame's LSN is beyond the log. */
  ghost predicate Agree(frames: map<nat, PoolFrame<Bytes>>, dirty: set<nat>, file: seq<Bytes>, store: seq<Bytes>,
                        nextLsn: nat) {
    && |store| == |file|
    && (forall id {:trigger frames[id]} {:trigger id in frames} :: id in frames ==>
      id < |store| && frames[id].page == store[id] && frames[id].pageLsn < nextLsn)
    && forall id {:trigger file[id]} {:trigger store[id]} :: 0 <= id < |store| && !(id in frames && id in dirty) ==>
      file[id] == store[id]
  }

  /** Page `id` enters the pool clean.  `out` leaves it: the unpinned page whose last use is longest ago.
      If it was dirty it is written to the file, and the log is then in its file up to its LSN. */
  ghost predicate Admitted(frames: map<nat, PoolFrame<Bytes>>, dirty: set<nat>, uses: seq<nat>, file: seq<Bytes>,
                           id: nat, page: Bytes, out: Option<Evicted<Bytes>>, frames': map<nat, PoolFrame<Bytes>>,
                           dirty': set<nat>, file': seq<Bytes>, flushedLsn: nat) {
    match out
    case None => frames' == frames[id := PoolFrame(page, 0, 0, 0)] && dirty' == dirty && file' == file
    case Some(v) =>
      && IsVictim(frames, uses, v.id) && frames' == (frames - {v.id})[id := PoolFrame(page, 0, 0, 0)]
        && dirty' == dirty - {v.id} && v.id < |file|
      && (v.id in dirty ==> file' == file[v.id := frames[v.id].page] && frames[v.id].pageLsn <= flushedLsn)
      && (v.id !in dirty ==> file' == file)
  }

  /** Page `id` has entered the pool, and at most one page has left it. */
  ghost predicate Entered(frames: map<nat, PoolFrame<Bytes>>, dirty: set<nat>, uses: seq<nat>, file: seq<Bytes>,
                          id: nat, page: Bytes, frames': map<nat, PoolFrame<Bytes>>, dirty': set<nat>,
                          file': seq<Bytes>, flushedLsn: nat) {
    exists out :: Admitted(frames, dirty, uses, file, id, page, out, frames', dirty', file', flushedLsn)
  }

  /** Log before page: what changed in the file are pages that were dirty in the pool, and the log is in
      its file up to the LSN of each. */
  ghost predicate LoggedFirst(frames: map<nat, PoolFrame<Bytes>>, dirty: set<nat>, file: seq<Bytes>,
                              file': seq<Bytes>, flushedLsn: nat) {
    && |file| <= |file'|
    && forall x {:trigger file[x]} {:trigger file'[x]} :: 0 <= x < |file| && file'[x] != file[x] ==>
        x in frames && x in dirty && file'[x] == frames[x].page && frames[x].pageLsn <= flushedLsn
  }

  lemma AgreeInsert(frames: map<nat, PoolFrame<Bytes>>, dirty: set<nat>, file: seq<Bytes>, store: seq<Bytes>,
                    nextLsn: nat,
                    uses: seq<nat>, id: nat, out: Option<Evicted<Bytes>>, frames': map<nat, PoolFrame<Bytes>>,
                    dirty': set<nat>, file': seq<Bytes>, flushedLsn: nat)
    requires Agree(frames, dirty, file, store, nextLsn) && id !in frames && id < |file| && nextLsn > 0
    requires Admitted(frames, dirty, uses, file, id, file[id], out, frames', dirty', file', flushedLsn)
    ensures store[id] == file[id] && Agree(frames', dirty', file', store, nextLsn)
    ensures LoggedFirst(frames, dirty, file, file', flushedLsn)
  {
  }

  /** A page that exists only in the pool so far, dirty. */
  lemma AgreeAllocate(frames: map<nat, PoolFrame<Bytes>>, dirty: set<nat>, file: seq<Bytes>, store: seq<Bytes>,
                      nextLsn: nat,
                      uses: seq<nat>, blank: Bytes, page: Bytes, out: Option<Evicted<Bytes>>,
                      frames': map<nat, PoolFrame<Bytes>>, dirty': set<nat>, file': seq<Bytes>, flushedLsn: nat)
    requires Agree(frames, dirty, file, store, nextLsn) && nextLsn > 0
    requires Admitted(frames, dirty, uses, file + [blank], |file|, page, out, frames', dirty', file', flushedLsn)
    ensures |file| !in frames && Agree(frames', dirty' + {|file|}, file', store + [page], nextLsn)
    ensures LoggedFirst(frames, dirty, file, file', flushedLsn)
    ensures Entered(frames, dirty + {|file|}, uses, file + [blank], |file|, page, frames', dirty' + {|file|}, file',
              flushedLsn)
  {
    if out.Some? {
      var v := out.value;
      assert v.id < |file|;
      assert dirty - {v.id} + {|file|} == dirty + {|file|} - {v.id};
    }
    assert Admitted(frames, dirty + {|file|}, uses, file + [blank], |file|, page, out, frames', dirty' + {|file|},
        file', flushedLsn);
  }

  lemma AdmittedKeepsPinned(frames: map<nat, PoolFrame<Bytes>>, dirty: set<nat>, uses: seq<nat>, file: seq<Bytes>,
                            id: nat, page: Bytes, out: Option<Evicted<Bytes>>, frames': map<nat, PoolFrame<Bytes>>,
                            dirty': set<nat>, file': seq<Bytes>, flushedLsn: nat)
    requires Admitted(frames, dirty, uses, file, id, page, out, frames', dirty', file', flushedLsn) && id !in frames
    ensures id in frames' && frames'[id] == PoolFrame(page, 0, 0, 0) && |file'| == |file|
    ensures forall x {:trigger frames[x]} :: x in frames && frames[x].pins > 0 ==>
      x in frames' && frames'[x] == frames[x]
  {
  }

  /** A frame's page, pins or LSNs change. */
  lemma AgreeUpdate(frames: map<nat, PoolFrame<Bytes>>, dirty: set<nat>, file: seq<Bytes>, store: seq<Bytes>,
                    nextLsn: nat,
                    id: nat, f: PoolFrame<Bytes>, dirty': set<nat>)
    requires Agree(frames, dirty, file, store, nextLsn) && id in frames && f.pageLsn < nextLsn
      && dirty <= dirty' <= dirty + {id}
    requires f.page == frames[id].page || id in dirty'
    ensures id < |store| && Agree(frames[id := f], dirty', file, store[id := f.page], nextLsn)
  {
  }

  /** A frame was written to the file: it may count as clean. */
  lemma AgreeWritten(frames: map<nat, PoolFrame<Bytes>>, dirty: set<nat>, file: seq<Bytes>, store: seq<Bytes>,
          nextLsn: nat, id: nat)
    requires Agree(frames, dirty, file, store, nextLsn) && id in frames
    ensures id < |file| && Agree(frames, dirty, file[id := frames[id].page], store, nextLsn)
    ensures Agree(frames[id := frames[id].(recLsn := 0)], dirty - {id}, file[id := frames[id].page], store, nextLsn)
  {
  }

  class PageFile {
    const pool: BufferPool<Bytes>
    const wal: WalInner
    var file: seq<Bytes>
    ghost var store: seq<Bytes>

    ghost predicate Valid()
      reads this, pool, wal
    {
      && pool.Valid() && wal.Valid()
      && Agree(pool.frames, pool.dirty, file, store, wal.header.nextLsn)
    }

    /** Pages in use by guards. */
    ghost predicate PinnedKept(was: map<nat, PoolFrame<Bytes>>)
      reads this, pool
    {
      forall x {:trigger was[x]} :: x in was && was[x].pins > 0 ==> x in pool.frames && pool.frames[x] == was[x]
    }

    constructor (p: BufferPool<Bytes>, w: WalInner, f: seq<Bytes>)
      requires p.Valid() && p.frames == map[] && w.Valid()
      ensures Valid() && pool == p && wal == w && file == f && store == f
    {
      hide WalInner.Valid, BufferPool.Valid;
      pool := p;
      wal := w;
      file := f;
      store := f;
    }

    /** Writes a page to the file.  Its log records are already in the log file. */
    method WritePage(id: nat, data: Bytes, ghost lsn: nat)
      requires id < |file| && lsn <= wal.flushedLsn
      modifies this`file
      ensures file == old(file)[id := data]
    {
      file := file[id := data];
    }

    /** The pages in the pool exist and hold what the store says. */
    lemma InBounds()
      requires Valid()
      ensures |store| == |file| && wal.header.nextLsn > 0
      ensures forall id {:trigger id in pool.frames} {:trigger pool.frames[id]} :: id in pool.frames ==>
        id < |store| && pool.frames[id].page == store[id] && pool.frames[id].pageLsn < wal.header.nextLsn
    {
    }

    /** Makes sure that the log is flushed up to `lsn`. */
    method FlushLog(lsn: nat)
      requires wal.Valid() && lsn < wal.header.nextLsn
      modifies wal
      ensures wal.Valid() && wal.flushedLsn >= lsn && wal.flushedLsn >= old(wal.flushedLsn)
      ensures wal.records == old(wal.records) && wal.header == old(wal.header)
    {
      hide WalInner.Valid;
      if lsn > 0 {
        wal.FlushUpTo(lsn);
      }
    }

    /** Writes back what the pool has given up. */
    method WriteBack(evicted: Option<Evicted<Bytes>>)
      requires wal.Valid()
      requires evicted.Some? ==> evicted.value.id < |file| && evicted.value.pageLsn < wal.header.nextLsn
      modifies this`file, wal
      ensures wal.Valid() && wal.records == old(wal.records) && wal.header == old(wal.header)
      ensures file == if evicted.Some?
        && evicted.value.wasDirty then old(file)[evicted.value.id := evicted.value.page] else old(file)
      ensures evicted.Some? && evicted.value.wasDirty ==> wal.flushedLsn >= evicted.value.pageLsn
      ensures wal.flushedLsn >= old(wal.flushedLsn)
    {
      hide WalInner.Valid;
      if evicted.Some? && evicted.value.wasDirty {
        FlushLog(evicted.value.pageLsn);
        WritePage(evicted.value.id, evicted.value.page, evicted.value.pageLsn);
      }
    }

    /** Puts a page into the pool, making room if needed. */
    method Admit(id: nat, page: Bytes) returns (r: Result<()>, ghost out: Option<Evicted<Bytes>>)
      requires pool.Valid() && wal.Valid() && id !in pool.frames
      requires forall x {:trigger pool.frames[x]} :: x in pool.frames ==>
        x < |file| && pool.frames[x].pageLsn < wal.header.nextLsn
      modifies this`file, pool, wal
      ensures pool.Valid() && wal.Valid() && wal.records == old(wal.records) && wal.header == old(wal.header)
      ensures wal.flushedLsn >= old(wal.flushedLsn)
      ensures r.Err? <==> |old(pool.frames)| >= pool.maxFrames && AllPinned(old(pool.frames))
      ensures r.Err? ==> pool.frames == old(pool.frames) && pool.dirty == old(pool.dirty) && file == old(file)
      ensures r.Err? ==> pool.uses == old(pool.uses)
      ensures r.Ok? ==> pool.uses == old(pool.uses) + [id]
      ensures r.Ok? ==>
        Admitted(old(pool.frames), old(pool.dirty), old(pool.uses), old(file), id, page, out, pool.frames, pool.dirty,
          file, wal.flushedLsn)
    {
      hide WalInner.Valid, BufferPool.Valid, AllPinned, LastUse;
      var inserted := pool.Insert(id, page);
      out := None;
      if inserted.Err? {
        return Err(inserted.error), out;
      }
      out := inserted.value;
      WriteBack(inserted.value);
      return Ok(()), out;
    }

    /** Makes room for a page, reads it unless it is in the pool, and returns it.  It fails exactly
        when it is not in the pool and every frame of a full pool is pinned. */
    method Fetch(id: nat) returns (r: Result<Bytes>)
      requires Valid() && id < |file| && pool.maxFrames >= 1
      modifies this`file, pool, wal
      ensures Valid() && store == old(store) && PinnedKept(old(pool.frames))
      ensures r.Err? <==> id !in old(pool.frames) && |old(pool.frames)| >= pool.maxFrames && AllPinned(old(pool.frames))
      ensures r.Ok? ==> r.value == store[id] && id in pool.frames
      ensures id in old(pool.frames) || r.Err? ==>
        pool.frames == old(pool.frames) && pool.dirty == old(pool.dirty) && file == old(file)
          && pool.uses == old(pool.uses) + [id]
      ensures id !in old(pool.frames) && r.Ok? ==>
        pool.uses == old(pool.uses) + [id, id]
          && Entered(old(pool.frames), old(pool.dirty), old(pool.uses) + [id], old(file), id, old(file)[id],
            pool.frames, pool.dirty, file, wal.flushedLsn)
      ensures id !in old(pool.frames) && r.Ok? ==> pool.frames[id] == PoolFrame(r.value, 0, 0, 0)
      ensures LoggedFirst(old(pool.frames), old(pool.dirty), old(file), file, wal.flushedLsn)
      ensures wal.header == old(wal.header) && wal.records == old(wal.records) && wal.flushedLsn >= old(wal.flushedLsn)
    {
      hide WalInner.Valid, BufferPool.Valid, Agree, AllPinned, Admitted, LastUse;
      InBounds();
      var found := pool.Get(id);
      if found.Some? {
        return Ok(found.value);
      }
      var page := file[id];
      ghost var uses := pool.uses;
      var admitted, out := Admit(id, page);
      if admitted.Err? {
        return Err(admitted.error);
      }
      AdmittedKeepsPinned(old(pool.frames), old(pool.dirty), uses, old(file), id, page, out, pool.frames, pool.dirty,
        file, wal.flushedLsn);
      AgreeInsert(old(pool.frames), old(pool.dirty), old(file), store, wal.header.nextLsn, uses, id, out, pool.frames,
        pool.dirty, file, wal.flushedLsn);
      return Ok(page);
    }

    /** A guard: a copy of the page, whose frame stays until the guard is dropped. */
    method FetchMut(id: nat) returns (r: Result<Bytes>)
      requires Valid() && id < |file| && pool.maxFrames >= 1
      modifies this`file, pool, wal
      ensures Valid() && store == old(store)
      ensures r.Err? <==> id !in old(pool.frames) && |old(pool.frames)| >= pool.maxFrames && AllPinned(old(pool.frames))
      ensures r.Ok? ==> r.value == store[id] && id in pool.frames && id in pool.dirty
      ensures r.Ok? ==>
        pool.frames[id] == if id in old(pool.frames)
                           then old(pool.frames)[id].(pins := old(pool.frames)[id].pins + 1)
                           else PoolFrame(r.value, 1, 0, 0)
      ensures forall x {:trigger old(pool.frames)[x]} ::
        x != id && x in old(pool.frames) && old(pool.frames)[x].pins > 0 ==>
        x in pool.frames && pool.frames[x] == old(pool.frames)[x]
      ensures LoggedFirst(old(pool.frames), old(pool.dirty), old(file), file, wal.flushedLsn)
      ensures wal.header == old(wal.header) && wal.records == old(wal.records) && wal.flushedLsn >= old(wal.flushedLsn)
    {
      hide WalInner.Valid, BufferPool.Valid, IsVictim, Agree, AllPinned, LoggedFirst;
      r := Fetch(id);
      if r.Ok? {
        InBounds();
        AgreeUpdate(pool.frames, pool.dirty, file, store, wal.header.nextLsn, id,
            pool.frames[id].(pins := pool.frames[id].pins + 1), pool.dirty + {id});
        assert store[id := store[id]] == store;
        pool.Pin(id);
        pool.MarkDirty(id);
      }
    }

    /** Drops a guard: its page becomes the page. */
    method DropGuard(id: nat, page: Bytes)
      requires Valid() && id in pool.frames && pool.frames[id].pins > 0
      modifies this`store, pool
      ensures Valid() && store == old(store)[id := page]
      ensures var f := old(pool.frames)[id];
              pool.frames == old(pool.frames)[id := f.(page := page, pins := f.pins - 1)]
      ensures pool.dirty == old(pool.dirty) + {id} && pool.uses == old(pool.uses) + [id]
    {
      hide WalInner.Valid, BufferPool.Valid, Agree;
      InBounds();
      ghost var f := pool.frames[id];
      AgreeUpdate(pool.frames, pool.dirty, file, store, wal.header.nextLsn, id, f.(page := page, pins := f.pins - 1),
          pool.dirty + {id});
      pool.UpdatePage(id, page);
      pool.Unpin(id);
      assert pool.frames == old(pool.frames)[id := f.(page := page, pins := f.pins - 1)];
      store := store[id := page];
    }

    /** Adds a page to the end of the file; until it is written it exists only in the pool. */
    method Allocate(kind: IndexPages.Kind) returns (r: Result<nat>)
      requires Valid() && pool.maxFrames >= 1
      modifies this`file, this`store, pool, wal
      ensures r.Err? <==> |old(pool.frames)| >= pool.maxFrames && AllPinned(old(pool.frames))
      ensures r.Ok? ==> Valid() && r.value == |old(store)| && store == old(store) + [BlankPage(r.value, kind)]
      ensures r.Ok? && r.value < U64 ==>
        PB.PageOk(store[r.value]) && PB.PageOf(store[r.value]) == IndexPages.Page(r.value, kind, false, 0, [])
      ensures r.Ok? ==> PinnedKept(old(pool.frames))
      ensures r.Ok? ==> r.value !in old(pool.frames) && pool.uses == old(pool.uses) + [r.value]
      ensures r.Ok? ==>
        Entered(old(pool.frames), old(pool.dirty) + {r.value}, old(pool.uses), old(file) + [Zeros(INDEX_PAGE_SIZE)],
          r.value, store[r.value], pool.frames, pool.dirty, file, wal.flushedLsn)
      ensures LoggedFirst(old(pool.frames), old(pool.dirty), old(file), file, wal.flushedLsn)
      ensures wal.header == old(wal.header) && wal.records == old(wal.records) && wal.flushedLsn >= old(wal.flushedLsn)
    {
      hide WalInner.Valid, BufferPool.Valid, BlankPage, Agree, AllPinned, Zeros, Admitted, Entered, PB.PageOk,
           PB.PageOf;
      InBounds();
      var id := |file|;
      file := file + [Zeros(INDEX_PAGE_SIZE)];
      var page := BlankPage(id, kind);
      ghost var grown := file;
      var admitted, out := Admit(id, page);
      if admitted.Err? {
        return Err(admitted.error);
      }
      AdmittedKeepsPinned(old(pool.frames), old(pool.dirty), old(pool.uses), grown, id, page, out, pool.frames,
        pool.dirty, file, wal.flushedLsn);
      AgreeAllocate(old(pool.frames), old(pool.dirty), old(file), store, wal.header.nextLsn, old(pool.uses),
        Zeros(INDEX_PAGE_SIZE), page, out, pool.frames, pool.dirty, file, wal.flushedLsn);
      if id < U64 { BlankPageIs(id, kind); }
      pool.MarkDirty(id);
      store := store + [page];
      return Ok(id);
    }

    /** Writes one page to the file if it is dirty. */
    method Flush(id: nat)
      requires Valid() && id < |file|
      modifies this`file, pool, wal
      ensures Valid() && store == old(store) && file[id] == store[id]
      ensures forall x {:trigger file[x]} :: 0 <= x < |file| && x != id ==> file[x] == old(file)[x]
      ensures id in old(pool.dirty) && id in old(pool.frames) ==>
        && wal.flushedLsn >= old(pool.frames)[id].pageLsn && pool.dirty == old(pool.dirty) - {id}
        && pool.frames == old(pool.frames)[id := old(pool.frames)[id].(recLsn := 0)]
      ensures !(id in old(pool.dirty) && id in old(pool.frames)) ==>
        pool.dirty == old(pool.dirty) && pool.frames == old(pool.frames) && file == old(file)
      ensures pool.uses == if id in old(pool.dirty) then old(pool.uses) + [id] else old(pool.uses)
      ensures wal.header == old(wal.header) && wal.records == old(wal.records) && wal.flushedLsn >= old(wal.flushedLsn)
    {
      hide WalInner.Valid, BufferPool.Valid;
      if id in pool.dirty {
        var page := pool.Get(id);
        if page.Some? {
          var lsn := pool.frames[id].pageLsn;
          FlushLog(lsn);
          AgreeWritten(pool.frames, pool.dirty, file, store, wal.header.nextLsn, id);
          WritePage(id, page.value, lsn);
          pool.ClearDirtySingle(id);
        }
      }
    }

    /** Writes every dirty page to the file. */
    method FlushAll()
      requires Valid()
      modifies this`file, pool, wal
      ensures Valid() && store == old(store) && file == store && pool.dirty == {}
      ensures forall x {:trigger old(pool.frames)[x]} :: x in old(pool.dirty) && x in old(pool.frames) ==>
        wal.flushedLsn >= old(pool.frames)[x].pageLsn
      ensures LoggedFirst(old(pool.frames), old(pool.dirty), old(file), file, wal.flushedLsn)
      ensures pool.frames.Keys == old(pool.frames).Keys
      ensures forall x {:trigger pool.frames[x]} :: x in pool.frames ==>
        pool.frames[x] == old(pool.frames)[x].(recLsn := 0)
      ensures wal.header == old(wal.header) && wal.records == old(wal.records) && wal.flushedLsn >= old(wal.flushedLsn)
    {
      hide WalInner.Valid, BufferPool.Valid;
      var todo := pool.dirty;
      while todo != {}
        invariant Valid() && store == old(store) && todo <= pool.dirty && |file| == |old(file)|
        invariant pool.frames == old(pool.frames) && pool.dirty == old(pool.dirty)
        invariant forall id {:trigger file[id]} :: 0 <= id < |file| && id !in todo ==> file[id] == store[id]
        invariant forall id {:trigger file[id]} :: 0 <= id < |file| && (id in todo || id !in pool.dirty) ==>
          file[id] == old(file)[id]
        invariant forall x {:trigger pool.frames[x]} :: x in pool.dirty - todo && x in pool.frames ==>
          wal.flushedLsn >= pool.frames[x].pageLsn
        invariant wal.header == old(wal.header) && wal.records == old(wal.records)
        invariant wal.flushedLsn >= old(wal.flushedLsn)
        decreases |todo|
      {
        var id :| id in todo;
        var page := pool.Get(id);
        if page.Some? {
          var lsn := pool.frames[id].pageLsn;
          FlushLog(lsn);
          AgreeWritten(pool.frames, pool.dirty, file, store, wal.header.nextLsn, id);
          WritePage(id, page.value, lsn);
        }
        todo := todo - {id};
      }
      pool.ClearDirty();
      assert file == store;
    }

    /** Records that log record `lsn` changed a page. */
    method UpdateLsn(id: nat, lsn: nat)
      requires Valid() && lsn < wal.header.nextLsn
      modifies pool
      ensures Valid() && (id in pool.frames <==> id in old(pool.frames))
      ensures id in pool.frames ==>
        var f := old(pool.frames)[id];
        && pool.frames == old(pool.frames)[id := f.(pageLsn := lsn, recLsn := if f.recLsn == 0 then lsn else f.recLsn)]
        && pool.dirty == old(pool.dirty) + {id}
      ensures id !in pool.frames ==> pool.frames == old(pool.frames) && pool.dirty == old(pool.dirty)
      ensures pool.uses == old(pool.uses) + [id]
    {
      hide WalInner.Valid, BufferPool.Valid, Agree;
      InBounds();
      if id in pool.frames {
        ghost var f := pool.frames[id];
        AgreeUpdate(pool.frames, pool.dirty, file, store, wal.header.nextLsn, id,
                    f.(pageLsn := lsn, recLsn := if f.recLsn == 0 then lsn else f.recLsn), pool.dirty + {id});
        assert store[id := store[id]] == store;
      }
      pool.UpdateLsn(id, lsn);
    }
  }
}
