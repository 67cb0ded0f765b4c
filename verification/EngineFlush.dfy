/** Flushing the log, fetching, writing back and dropping pages keep the invariant. */
module EngineFlush {
  import opened Records
  import opened Engine
  import opened EngineLog
  import opened EngineInv

  // ---------------------------------------------------------------- the log buffer

  /** The first `k` buffered records become durable. */
  function Flushed(s: State, k: nat): State
    requires k <= |s.buf|
  {
    s.(log := s.log + s.buf[..k], buf := s.buf[k..], diskNext := s.nextLsn)
  }

  lemma FlushedAll(s: State, k: nat)
    requires k <= |s.buf|
    ensures Flushed(s, k).All() == s.All() == Flushed(s, k).log + Flushed(s, k).buf
    ensures Flushed(s, k).log == s.All()[..|s.log| + k]
  {
    assert s.buf == s.buf[..k] + s.buf[k..];
    assert (s.log + s.buf[..k]) + s.buf[k..] == s.log + s.buf;
  }

  lemma FlushedGlobal(s: State, k: nat)
    requires Global(s) && 0 < k <= |s.buf|
    ensures Global(Flushed(s, k))
  {
    var s' := Flushed(s, k);
    FlushedAll(s, k);
    var more := s.buf[..k];
    assert forall i :: 0 <= i < |s'.log| ==> s'.log[i] == s.All()[i];
    CheckpointHoldsOn(s.log, more, s.chkLsn, s.nextLsn);
    assert s'.phase == s.phase;
    assert Shape(s');
  }

  lemma SameEnds(all: seq<Record>, n: nat, t: nat)
    requires n <= |all|
    requires forall j {:trigger OpenClr(all, j)} :: n <= j < |all| ==> OpenClr(all, j)
    ensures Ended(all, t) <==> Ended(all[..n], t)
  {
    var log := all[..n];
    assert all == log + all[n..];
    OpenAtPrefix(log, all[n..], n, t);
    if Ended(all, t) {
      var i :| 0 <= i < |all| && all[i].IsEnd() && all[i].txn == t;
      assert !OpenClr(all, i);
      assert EndedBy(all, n, t);
    } else {
      assert !EndedBy(all, n, t);
    }
  }

  lemma SameLosers(all: seq<Record>, n: nat, p: PageKey, a: nat)
    requires n <= |all|
    requires forall j {:trigger OpenClr(all, j)} :: n <= j < |all| ==> OpenClr(all, j)
    requires LoserCovered(all[..n], p, a)
    ensures LoserCovered(all, p, a)
  {
    var log := all[..n];
    var i :| 0 <= i < |log| && log[i].Covers(p, a) && LoserUpdate(log, log[i]);
    SameEnds(all, n, log[i].txn);
    assert all[i].Covers(p, a) && LoserUpdate(all, all[i]);
  }

  /** A loser's CLRs do not change what is effective. */
  lemma SameEffective(all: seq<Record>, n: nat, p: PageKey, a: nat, b: byte)
    requires n <= |all|
    requires forall j {:trigger OpenClr(all, j)} :: n <= j < |all| ==> OpenClr(all, j)
    ensures Effective(all, p, a, b) == Effective(all[..n], p, a, b)
  {
    forall i | n <= i < |all| && all[i].Covers(p, a) ensures !Kept(all, all[i]) {
      assert OpenClr(all, i);
    }
    KeptUncovered(all, n, |all|, p, a, b);
    SameKept(all, n, n, p, a, b);
  }

  lemma {:induction false} SameKept(all: seq<Record>, m: nat, n: nat, p: PageKey, a: nat, b: byte)
    requires m <= n <= |all|
    requires forall j {:trigger OpenClr(all, j)} :: n <= j < |all| ==> OpenClr(all, j)
    ensures ReplayKept(all, m, p, a, b) == ReplayKept(all[..n], m, p, a, b)
  {
    if m > 0 {
      assert all[..n][m - 1] == all[m - 1];
      SameKept(all, m - 1, n, p, a, b);
      if all[m - 1].IsWrite() {
        SameEnds(all, n, all[m - 1].txn);
      }
    }
  }

  lemma FlushedClrsAreOpen(s: State, k: nat)
    requires Global(s) && 0 < k <= |s.buf| && (s.phase.Undo? || s.phase.Ending?)
    ensures var log' := s.log + s.buf[..k];
            forall j {:trigger OpenClr(log', j)} :: |s.log| <= j < |log'| ==> OpenClr(log', j)
  {
    var log' := s.log + s.buf[..k];
    FlushedAll(s, k);
    forall j {:trigger OpenClr(log', j)} | |s.log| <= j < |log'| ensures OpenClr(log', j) {
      assert s.All()[j] == log'[j];
      assert OpenClr(s.All(), j);
      OpenAtPrefix(log', s.buf[k..], |log'|, log'[j].txn);
      assert !EndedBy(s.All(), |s.All()|, log'[j].txn);
      assert !EndedBy(s.All(), |log'|, log'[j].txn);
    }
  }

  lemma FlushedKeepsRepairable(s: State, k: nat, p: PageKey, a: nat)
    requires Global(s) && 0 < k <= |s.buf| && Shape(Flushed(s, k)) && (s.phase.Undo? || s.phase.Ending?)
    requires AByte(s, p, a) && Repairable(s, p, a)
    ensures Repairable(Flushed(s, k), p, a)
    ensures Effective(Flushed(s, k).log, p, a, s.base[p][a]) == Effective(s.log, p, a, s.base[p][a])
  {
    var log', b := Flushed(s, k).log, s.base[p][a];
    FlushedAll(s, k);
    FlushedClrsAreOpen(s, k);
    assert s.log == log'[..|s.log|];
    assert LsnOrdered(log', s.nextLsn);
    RedoReachesNewRecords(s.log, s.buf[..k], s.chkLsn, s.nextLsn, p, a, b);
    SameEffective(log', |s.log|, p, a, b);
    if LoserCovered(s.log, p, a) {
      SameLosers(log', |s.log|, p, a);
    }
  }

  lemma FlushedByte(s: State, k: nat, p: PageKey, a: nat)
    requires Global(s) && 0 < k <= |s.buf| && Global(Flushed(s, k))
    requires AByte(s, p, a) && ByteHolds(s, p, a)
    ensures ByteHolds(Flushed(s, k), p, a)
    ensures !s.phase.Up? ==> Effective(Flushed(s, k).log, p, a, s.base[p][a]) == Effective(s.log, p, a, s.base[p][a])
  {
    var s', b := Flushed(s, k), s.base[p][a];
    FlushedAll(s, k);
    assert Synced(s', p, a);
    if s.phase.Up? {
      assert LsnOrdered(s'.log, s.nextLsn);
      RedoReachesNewRecords(s.log, s.buf[..k], s.chkLsn, s.nextLsn, p, a, b);
    } else {
      FlushedKeepsRepairable(s, k, p, a);
    }
  }

  lemma FlushLogGlobal(s: State, target: nat)
    requires Global(s)
    ensures Global(FlushLog(s, target)) && FlushLog(s, target).All() == s.All()
  {
    hide Global;
    var k := FlushCount(s.buf, target);
    if k > 0 {
      FlushedAll(s, k);
      FlushedGlobal(s, k);
    }
  }

  lemma FlushLogTracks(s: State, target: nat)
    requires Tracks(s)
    ensures Tracks(FlushLog(s, target))
    ensures FlushLog(s, target).All() == s.All()
    ensures !s.phase.Up? ==> SameEffect(s, FlushLog(s, target))
  {
    var k := FlushCount(s.buf, target);
    if k > 0 {
      FlushedAll(s, k);
      FlushedGlobal(s, k);
      forall p, a: nat | AByte(s, p, a) ensures ByteHolds(Flushed(s, k), p, a)
        && (!s.phase.Up? ==> Effective(Flushed(s, k).log, p, a, s.base[p][a]) == Effective(s.log, p, a, s.base[p][a]))
      {
        FlushedByte(s, k, p, a);
      }
    }
  }

  /** Both durable logs demand the same bytes. */
  ghost predicate SameEffect(s: State, s': State) {
    && s'.base == s.base
    && forall p, a: nat :: p in s.base && a < |s.base[p]| ==>
      Effective(s'.log, p, a, s.base[p][a]) == Effective(s.log, p, a, s.base[p][a])
  }

  /** Forcing the log up to its newest record empties the buffer. */
  lemma FlushNewest(s: State, target: nat)
    requires forall i :: 0 <= i < |s.buf| ==> s.buf[i].lsn <= target
    ensures FlushLog(s, target).buf == []
    ensures FlushLog(s, target).log == s.All()
  {
    var k := FlushCount(s.buf, target);
    assert k == |s.buf|;
    assert s.buf[..k] == s.buf;
  }

  // ---------------------------------------------------------------- pages in and out

  lemma FetchGlobal(s: State, p: PageKey)
    requires Global(s) && p in s.base
    ensures Global(Fetch(s, p))
  {
    hide IdsNotReused, CheckpointHolds, WellSized;
    assert Fetch(s, p).All() == s.All();
  }

  lemma FetchByte(s: State, p: PageKey, q: PageKey, a: nat)
    requires Global(s) && p in s.base && p !in s.frames && AByte(s, q, a) && ByteHolds(s, q, a)
    requires Shape(Fetch(s, p))
    ensures ByteHolds(Fetch(s, p), q, a)
  {
    assert Fetch(s, p).All() == s.All();
    assert Fetch(s, p).Cur(q) == s.Cur(q);
    assert Synced(Fetch(s, p), q, a);
  }

  lemma FetchTracks(s: State, p: PageKey)
    requires Tracks(s) && p in s.base
    ensures Tracks(Fetch(s, p))
  {
    FetchGlobal(s, p);
    if p !in s.frames {
      forall q, a: nat | AByte(s, q, a) ensures ByteHolds(Fetch(s, p), q, a) {
        FetchByte(s, p, q, a);
      }
    }
  }

  /** Forcing the log up to a page's LSN leaves no record of the page in the buffer. */
  lemma NothingLeftBuffered(s: State, p: PageKey)
    requires Shape(s) && LogBeforePage(s) && LsnOrdered(s.All(), s.nextLsn) && p in s.frames
    ensures NothingBuffered(ForceFor(s, p), p)
  {
    hide WellSized;
    var f, s' := s.frames[p].pageLsn, ForceFor(s, p);
    var k := FlushCount(s.buf, f);
    if f > 0 && k > 0 { FlushedAll(s, k); }
    forall i | |s'.log| <= i < |s'.All()| && s'.All()[i].IsWrite() ensures s'.All()[i].page != p {
      assert s'.All() == s.All();
      assert s'.All()[i] == s'.buf[i - |s'.log|];
      if f > 0 {
        assert s.All()[|s.log| + k] == s.buf[k];
        assert i >= |s.log| + k;
      } else {
        assert s.All()[i].lsn >= 1;
      }
    }
  }

  /** After the log was forced for `p`, no record of `p` is left in the buffer (while the system is
      up), and the frame is still there. */
  lemma ForceForGlobal(s: State, p: PageKey)
    requires Global(s) && p in s.frames
    ensures Global(ForceFor(s, p)) && ForceFor(s, p).All() == s.All()
    ensures s.phase.Up? ==> NothingBuffered(ForceFor(s, p), p)
  {
    hide IdsNotReused, CheckpointHolds, WellSized, LsnOrdered, NothingBuffered, LogBeforePage, AttMatches, FlushLog;
    if s.frames[p].pageLsn > 0 {
      FlushLogGlobal(s, s.frames[p].pageLsn);
    }
    if s.phase.Up? {
      NothingLeftBuffered(s, p);
    }
  }

  lemma ForceForTracks(s: State, p: PageKey)
    requires Tracks(s) && p in s.frames
    ensures Tracks(ForceFor(s, p))
    ensures !s.phase.Up? ==> SameEffect(s, ForceFor(s, p))
  {
    hide Global, ByteHolds, Effective;
    if s.frames[p].pageLsn > 0 {
      FlushLogTracks(s, s.frames[p].pageLsn);
    }
  }

  /** A byte of an open transaction's CLR was updated by that transaction in the durable log. */
  lemma ClrIsLoserCovered(s: State, p: PageKey, a: nat)
    requires Global(s) && AByte(s, p, a) && ByteHolds(s, p, a)
    requires s.phase.Undo? || s.phase.Ending?
    requires Covered(s.All(), |s.log|, p, a)
    ensures LoserCovered(s.log, p, a)
  {
    var all := s.All();
    var j :| |s.log| <= j < |all| && all[j].Covers(p, a);
    assert OpenClr(all, j);
    assert UpdatedBefore(all, j, all[j].txn, p, a);
    var i :| 0 <= i < j && all[i].Update? && all[i].txn == all[j].txn && all[i].Covers(p, a);
    assert !OpenClr(all, i);
    OpenAtPrefix(s.log, s.buf, |s.log|, all[j].txn);
    assert !Ended(s.log, all[j].txn);
    assert s.log[i] == all[i];
  }

  lemma StillToUndoIsLoserCovered(s: State, m: nat, i: nat, p: PageKey, a: nat)
    requires Global(s) && s.phase.Undo? && i <= |s.log|
    requires UndoneFrom(s.All(), m, i, p, a)
    ensures LoserCovered(s.log, p, a)
  {
    var all := s.All();
    var j :| m <= j < i && all[j].Covers(p, a) && LoserUpdate(all, all[j]);
    OpenAtPrefix(s.log, s.buf, |s.log|, all[j].txn);
    assert !Ended(s.log, all[j].txn);
    assert s.log[j] == all[j];
  }

  function Written(s: State, p: PageKey): State
    requires p in s.frames
  {
    s.(disk := s.disk[p := s.frames[p].data], frames := s.frames[p := s.frames[p].(recLsn := 0)],
       dirty := s.dirty - {p})
  }

  lemma WrittenGlobal(s: State, p: PageKey)
    requires Global(s) && p in s.frames
    requires s.phase.Up? ==> NothingBuffered(s, p)
    ensures Global(Written(s, p))
  {
    hide LsnOrdered, IdsNotReused, CheckpointHolds, WellSized, AttMatches, AnalysisOf, OpenAt, OpenClr;
    assert Written(s, p).All() == s.All();
  }

  ghost predicate NothingBuffered(s: State, p: PageKey) {
    forall i :: |s.log| <= i < |s.All()| && s.All()[i].IsWrite() ==> s.All()[i].page != p
  }

  lemma WrittenByte(s: State, p: PageKey, a: nat)
    requires Global(s) && p in s.frames && p in s.dirty && AByte(s, p, a) && ByteHolds(s, p, a)
    requires s.phase.Up? ==> NothingBuffered(s, p)
    requires Shape(Written(s, p))
    ensures ByteHolds(Written(s, p), p, a)
  {
    var s' := Written(s, p);
    assert s'.All() == s.All();
    assert s'.Cur(p) == s.Cur(p) == s'.disk[p];
    if !Covered(s.All(), |s.log|, p, a) {
      ReplayUncovered(s.All(), |s.log|, |s.All()|, p, a, s.base[p][a]);
      ReplayOnPrefix(s.log, s.buf, |s.log|, p, a, s.base[p][a]);
    } else if s.phase.Undo? || s.phase.Ending? {
      ClrIsLoserCovered(s, p, a);
    }
    if s.phase.Undo? && UndoneFrom(s.All(), 0, s.phase.next, p, a) {
      StillToUndoIsLoserCovered(s, 0, s.phase.next, p, a);
    }
  }

  lemma WrittenOther(s: State, p: PageKey, q: PageKey, a: nat)
    requires Global(s) && p in s.frames && p != q && AByte(s, q, a) && ByteHolds(s, q, a)
    requires Shape(Written(s, p))
    ensures ByteHolds(Written(s, p), q, a)
  {
    var s' := Written(s, p);
    assert s'.All() == s.All();
    assert s'.Cur(q) == s.Cur(q) && s'.disk[q] == s.disk[q];
    assert Synced(s', q, a);
  }

  lemma WriteBackGlobal(s: State, p: PageKey)
    requires Global(s) && p in s.frames
    ensures Global(WriteBack(s, p)) && WriteBack(s, p).All() == s.All() && p in WriteBack(s, p).frames
    ensures p !in WriteBack(s, p).dirty
    ensures s.phase.Up? ==> NothingBuffered(WriteBack(s, p), p)
  {
    hide LsnOrdered, IdsNotReused, CheckpointHolds, AttMatches, WellSized;
    if p in s.dirty {
      ForceForGlobal(s, p);
      assert WriteBack(s, p) == Written(ForceFor(s, p), p);
      WrittenGlobal(ForceFor(s, p), p);
      assert Written(ForceFor(s, p), p).All() == s.All();
    }
  }

  lemma WriteBackTracks(s: State, p: PageKey)
    requires Tracks(s) && p in s.frames
    ensures Tracks(WriteBack(s, p))
    ensures !s.phase.Up? ==> SameEffect(s, WriteBack(s, p))
  {
    hide LsnOrdered, IdsNotReused, CheckpointHolds, AttMatches, WellSized, ByteHolds, Effective, PhaseHolds;
    WriteBackGlobal(s, p);
    if p in s.dirty {
      ForceForTracks(s, p);
      ForceForGlobal(s, p);
      var s1 := ForceFor(s, p);
      assert WriteBack(s, p) == Written(s1, p);
      forall q, a: nat | AByte(s1, q, a) ensures ByteHolds(Written(s1, p), q, a) {
        if p == q { WrittenByte(s1, p, a); } else { WrittenOther(s1, p, q, a); }
      }
    }
  }

  lemma DropByte(s: State, p: PageKey, q: PageKey, a: nat)
    requires Global(s) && p in s.frames && p !in s.dirty && AByte(s, q, a) && ByteHolds(s, q, a)
    requires Shape(Drop(s, p))
    ensures ByteHolds(Drop(s, p), q, a)
  {
    var s' := Drop(s, p);
    assert s'.All() == s.All() && s'.dirty == s.dirty;
    assert s'.Cur(q)[a] == s.Cur(q)[a];
    assert Synced(s', q, a);
  }

  lemma DropGlobal(s: State, p: PageKey)
    requires Global(s) && p in s.frames && p !in s.dirty
    requires s.phase.Up? ==> NothingBuffered(s, p)
    ensures Global(Drop(s, p))
  {
    hide LsnOrdered, IdsNotReused, CheckpointHolds, AttMatches, WellSized;
    assert Drop(s, p).All() == s.All() && Drop(s, p).dirty == s.dirty;
  }

  lemma DropTracks(s: State, p: PageKey)
    requires Tracks(s) && p in s.frames && p !in s.dirty
    requires s.phase.Up? ==> NothingBuffered(s, p)
    ensures Tracks(Drop(s, p))
  {
    DropGlobal(s, p);
    forall q, a: nat | AByte(s, q, a) ensures ByteHolds(Drop(s, p), q, a) {
      DropByte(s, p, q, a);
    }
  }
}
