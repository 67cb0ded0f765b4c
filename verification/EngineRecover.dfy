/** Analysis, redo, undo and the final aborts keep the invariant, and never change what the
    durable log demands. */
module EngineRecover {
  import opened Records
  import opened Engine
  import opened EngineLog
  import opened EngineInv
  import opened EngineFlush
  import opened EngineUp

  // ---------------------------------------------------------------- analysis and redo

  lemma AnalyseGlobal(s: State)
    requires Global(s) && s.phase.Down?
    ensures Global(s.(phase := Redo(0, AnalysisOf(s.log, s.chkLsn))))
  {
    hide LsnOrdered, IdsNotReused, CheckpointHolds, WellSized, AnalysisOf;
    assert s.(phase := Redo(0, AnalysisOf(s.log, s.chkLsn))).All() == s.All();
  }

  lemma AnalyseTracks(s: State)
    requires Tracks(s) && s.phase.Down?
    ensures Tracks(s.(phase := Redo(0, AnalysisOf(s.log, s.chkLsn))))
  {
    hide LsnOrdered, IdsNotReused, CheckpointHolds, WellSized, AnalysisOf;
    var s' := s.(phase := Redo(0, AnalysisOf(s.log, s.chkLsn)));
    AnalyseGlobal(s);
    forall p, a: nat | AByte(s, p, a) ensures ByteHolds(s', p, a) {
      assert Synced(s, p, a) && Repairable(s, p, a);
      assert Synced(s', p, a);
    }
  }

  lemma RedoSkipGlobal(s: State)
    requires Global(s) && s.phase.Redo? && s.phase.next < |s.log|
    ensures Global(s.(phase := Redo(s.phase.next + 1, s.phase.an)))
  {
    hide LsnOrdered, IdsNotReused, CheckpointHolds, WellSized, AnalysisOf;
    RecordLsn(s, s.phase.next);
    assert s.(phase := Redo(s.phase.next + 1, s.phase.an)).All() == s.All();
  }

  lemma RedoSkipTracks(s: State)
    requires Tracks(s) && s.phase.Redo? && s.phase.next < |s.log|
    requires !Redoable(s.phase.an.dpt, s.log[s.phase.next])
    ensures Tracks(s.(phase := Redo(s.phase.next + 1, s.phase.an)))
  {
    hide Disciplined;
    var i := s.phase.next;
    var s' := s.(phase := Redo(i + 1, s.phase.an));
    assert s'.All() == s.All() == s.log;
    RedoableIsInRedo(s.log, s.chkLsn, i, s.diskNext);
    RedoSkipGlobal(s);
    forall p, a: nat | AByte(s, p, a) ensures ByteHolds(s', p, a) {
      assert ByteHolds(s, p, a);
      assert Synced(s', p, a);
    }
  }

  /** Redo of one record, once its page is in the pool. */
  function Redone(s: State, r: Record): State
    requires r.IsWrite() && r.page in s.frames && r.off + |r.redo| <= |s.frames[r.page].data| && s.phase.Redo?
  {
    UpdateLsn(WriteFrame(s, r.page, Splice(s.frames[r.page].data, r.off, r.redo)), r.page, r.lsn)
      .(phase := Redo(s.phase.next + 1, s.phase.an))
  }

  lemma RedoneShape(s: State, r: Record)
    requires Shape(s) && s.phase.Redo? && r.IsWrite() && r.page in s.frames
    requires r.off + |r.redo| <= |s.frames[r.page].data|
    ensures Shape(Redone(s, r))
  {
    hide WellSized;
    assert Redone(s, r).All() == s.All();
  }

  lemma RecordLsn(s: State, i: nat)
    requires Global(s) && i < |s.log|
    ensures 1 <= s.log[i].lsn < s.diskNext <= s.nextLsn && (i > 0 ==> s.log[i - 1].lsn < s.log[i].lsn)
  {
  }

  lemma RedoneGlobal(s: State, r: Record)
    requires Global(s) && s.phase.Redo? && s.phase.next < |s.log| && r == s.log[s.phase.next]
    requires r.IsWrite() && r.page in s.frames && r.off + |r.redo| <= |s.frames[r.page].data|
    ensures Global(Redone(s, r)) && Redone(s, r).base == s.base
  {
    hide LsnOrdered, IdsNotReused, CheckpointHolds, WellSized, AnalysisOf, Splice, Shape;
    RedoneShape(s, r);
    RecordLsn(s, s.phase.next);
    assert Redone(s, r).All() == s.All();
  }

  /** If redo repeats record `i` and nothing after it, record `i` has the last word on the byte. */
  lemma RedoWins(log: seq<Record>, chk: nat, next: nat, i: nat, p: PageKey, a: nat, b: byte)
    requires LsnOrdered(log, next) && i < |log| && log[i].Covers(p, a) && InRedo(log, chk, log[i])
    requires !InRedoFrom(log, chk, i + 1, p, a)
    ensures Replay(log, |log|, p, a, b) == log[i].redo[a - log[i].off]
  {
    forall j | i < j < |log| ensures !log[j].Covers(p, a) {
      if log[j].Covers(p, a) {
        RedoRangeIsSuffix(log, chk, next, i, j);
      }
    }
    ReplayLastWriter(log, i, |log|, p, a, b);
  }

  lemma RedoneCur(s: State, r: Record, q: PageKey, a: nat)
    requires Shape(s) && s.phase.Redo? && r.IsWrite() && r.page in s.frames && InBounds(r)
    requires AByte(s, q, a)
    ensures var s' := Redone(s, r);
            && s'.base == s.base && s'.disk == s.disk && s'.log == s.log && s'.buf == s.buf && s'.chkLsn == s.chkLsn
            && s'.phase == Redo(s.phase.next + 1, s.phase.an)
            && q in s'.disk && |s'.Cur(q)| == PageSize(q)
            && s'.Cur(q)[a] == if r.Covers(q, a) then r.redo[a - r.off] else s.Cur(q)[a]
  {
    hide WellSized;
  }

  lemma RedoneSynced(s: State, r: Record, q: PageKey, a: nat)
    requires Global(s) && s.phase.Redo? && s.phase.next < |s.log| && r == s.log[s.phase.next]
    requires r.IsWrite() && r.page in s.frames && InBounds(r)
    requires Shape(Redone(s, r)) && AByte(s, q, a) && Synced(s, q, a)
    ensures Synced(Redone(s, r), q, a)
  {
    hide LsnOrdered, IdsNotReused, CheckpointHolds, WellSized, AnalysisOf, Splice;
    var s' := Redone(s, r);
    assert s'.All() == s.All() == s.log;
    RecordLsn(s, s.phase.next);
    RedoneCur(s, r, q, a);
    if r.Covers(q, a) {
      assert CoveredSince(s.log, s'.frames[q].recLsn, q, a);
    }
  }

  lemma RedoneReplay(s: State, q: PageKey, a: nat)
    requires Global(s) && s.phase.Redo? && s.phase.next < |s.log| && AByte(s, q, a)
    requires InRedo(s.log, s.chkLsn, s.log[s.phase.next])
    ensures var i := s.phase.next;
            if s.log[i].Covers(q, a)
            then InRedoFrom(s.log, s.chkLsn, i + 1, q, a)
              || Replay(s.log, |s.log|, q, a, s.base[q][a]) == s.log[i].redo[a - s.log[i].off]
            else InRedoFrom(s.log, s.chkLsn, i, q, a) ==> InRedoFrom(s.log, s.chkLsn, i + 1, q, a)
  {
    var i := s.phase.next;
    if s.log[i].Covers(q, a) && !InRedoFrom(s.log, s.chkLsn, i + 1, q, a) {
      RedoWins(s.log, s.chkLsn, s.diskNext, i, q, a, s.base[q][a]);
    }
  }

  lemma RedoneByte(s: State, r: Record, q: PageKey, a: nat)
    requires Global(s) && s.phase.Redo? && s.phase.next < |s.log| && r == s.log[s.phase.next]
    requires r.IsWrite() && r.page in s.frames && InBounds(r) && InRedo(s.log, s.chkLsn, r)
    requires Shape(Redone(s, r)) && AByte(s, q, a) && ByteHolds(s, q, a)
    ensures ByteHolds(Redone(s, r), q, a)
  {
    hide Synced, Disciplined, InRedo, LoserCovered, LsnOrdered, IdsNotReused, CheckpointHolds, WellSized, InRedoFrom,
      Redone;
    RedoneCur(s, r, q, a);
    RedoneSynced(s, r, q, a);
    RedoneReplay(s, q, a);
  }

  lemma RedoStepIs(s: State)
    requires Shape(s) && s.phase.Redo? && s.phase.next < |s.log| && Redoable(s.phase.an.dpt, s.log[s.phase.next])
    ensures var r := s.log[s.phase.next];
            && InBounds(r) && r.IsWrite() && r.page in s.base && r.page in s.disk
            && RedoStep(s) == Redone(Fetch(s, r.page), r)
  {
    var r := s.log[s.phase.next];
    assert s.All()[s.phase.next] == r && InBounds(s.All()[s.phase.next]);
  }

  lemma RedoableInState(s: State, i: nat)
    requires Global(s) && s.phase.Redo? && i < |s.log| && Redoable(s.phase.an.dpt, s.log[i])
    ensures InRedo(s.log, s.chkLsn, s.log[i])
  {
    RedoableIsInRedo(s.log, s.chkLsn, i, s.diskNext);
  }

  lemma RedoTracks(s: State)
    requires Tracks(s) && s.phase.Redo? && s.phase.next < |s.log|
    requires Redoable(s.phase.an.dpt, s.log[s.phase.next])
    ensures Tracks(RedoStep(s))
  {
    hide LsnOrdered, IdsNotReused, CheckpointHolds, WellSized, ByteHolds, InRedo, AnalysisOf, Redone, RedoStep,
      PhaseHolds;
    var r := s.log[s.phase.next];
    RedoStepIs(s);
    RedoableInState(s, s.phase.next);
    FetchTracks(s, r.page);
    var s1 := Fetch(s, r.page);
    RedoneGlobal(s1, r);
    forall q, a: nat | AByte(s1, q, a) ensures ByteHolds(Redone(s1, r), q, a) {
      RedoneByte(s1, r, q, a);
    }
  }

  lemma RedoStepGlobal(s: State)
    requires Global(s) && s.phase.Redo? && s.phase.next < |s.log|
    requires Redoable(s.phase.an.dpt, s.log[s.phase.next])
    ensures Global(RedoStep(s))
  {
    hide LsnOrdered, IdsNotReused, CheckpointHolds, WellSized, AnalysisOf, Redone, RedoStep, PhaseHolds;
    RedoStepIs(s);
    FetchGlobal(s, s.log[s.phase.next].page);
    RedoneGlobal(Fetch(s, s.log[s.phase.next].page), s.log[s.phase.next]);
  }

  lemma RedoDoneGlobal(s: State)
    requires Global(s) && s.phase.Redo? && s.phase.next == |s.log|
    ensures Global(RedoStep(s))
  {
    hide LsnOrdered, IdsNotReused, CheckpointHolds, AnalysisOf, WellSized, OpenAt;
    var s' := RedoStep(s);
    assert s'.All() == s.All() == s.log;
    forall t ensures t in s'.phase.losers <==> OpenAt(s'.All(), |s'.All()|, t) {
      LosersAreOpenIn(s, t);
    }
  }

  lemma LosersAreOpenIn(s: State, t: nat)
    requires Global(s)
    ensures t in AnalysisOf(s.log, s.chkLsn).att.Keys - {0} <==> OpenAt(s.log, |s.log|, t)
  {
    CrashGlobal(s);
    assert CrashOf(s).All() == s.log;
    LosersAreOpen(s.log, s.chkLsn, s.diskNext, t);
  }

  /** The last record is redone: what is not as the full log says is a loser's. */
  lemma RedoDoneTracks(s: State)
    requires Tracks(s) && s.phase.Redo? && s.phase.next == |s.log|
    ensures Tracks(RedoStep(s))
  {
    var s' := RedoStep(s);
    assert s'.All() == s.All() == s.log;
    RedoDoneGlobal(s);
    forall p, a: nat | AByte(s, p, a) ensures ByteHolds(s', p, a) {
      assert ByteHolds(s, p, a);
      assert LoserCovered(s.log, p, a) <==> UndoneFrom(s.log, 0, |s.log|, p, a);
      assert Synced(s', p, a);
    }
  }

  // ---------------------------------------------------------------- undo

  lemma LoserUpdateIs(s: State, i: nat)
    requires Global(s) && s.phase.Undo? && i < |s.All()|
    ensures LoserUpdate(s.All(), s.All()[i]) <==> s.All()[i].Update? && s.All()[i].txn in s.phase.losers
  {
    var r := s.All()[i];
    if r.Update? {
      assert r.Of(r.txn);
    }
  }

  lemma UndoSkipGlobal(s: State)
    requires Global(s) && s.phase.Undo? && s.phase.next > 0
    ensures Global(s.(phase := Undo(s.phase.logged, s.phase.next - 1, s.phase.losers)))
  {
    hide LsnOrdered, IdsNotReused, CheckpointHolds, WellSized, OpenAt;
    assert s.(phase := Undo(s.phase.logged, s.phase.next - 1, s.phase.losers)).All() == s.All();
  }

  lemma UndoSkipTracks(s: State)
    requires Tracks(s) && s.phase.Undo? && s.phase.next > 0
    requires !LoserUpdate(s.All(), s.All()[s.phase.next - 1])
    ensures Tracks(UndoStep(s))
  {
    LoserUpdateIs(s, s.phase.next - 1);
    hide Disciplined;
    var s' := s.(phase := Undo(s.phase.logged, s.phase.next - 1, s.phase.losers));
    assert s'.All() == s.All();
    UndoSkipGlobal(s);
    forall p, a: nat | AByte(s, p, a) ensures ByteHolds(s', p, a) {
      assert ByteHolds(s, p, a);
      assert Synced(s', p, a);
    }
  }

  /** The compensation record for `r`. */
  function Compensation(lsn: nat, r: Record): Record
    requires r.Update?
  {
    Clr(lsn, r.txn, r.page, r.off, r.undo)
  }

  /** Undo of one Update, once its page is in the pool. */
  function Reverted(s: State, r: Record): State
    requires r.Update? && r.page in s.frames && r.off + |r.undo| <= |s.frames[r.page].data|
    requires s.phase.Undo? && s.phase.next > 0
  {
    var s2 := WriteFrame(s, r.page, Splice(s.frames[r.page].data, r.off, r.undo));
    var s3 := Append(s2, Compensation(s.nextLsn, r));
    (if r.txn != 0 then s3.(active := s3.active[r.txn := s.nextLsn]) else s3)
      .(phase := Undo(s.phase.logged, s.phase.next - 1, s.phase.losers))
  }

  lemma RevertedAll(s: State, r: Record)
    requires r.Update? && r.page in s.frames && r.off + |r.undo| <= |s.frames[r.page].data|
    requires s.phase.Undo? && s.phase.next > 0
    ensures Reverted(s, r).All() == s.All() + [Compensation(s.nextLsn, r)]
  {
    assert s.log + (s.buf + [Compensation(s.nextLsn, r)]) == (s.log + s.buf) + [Compensation(s.nextLsn, r)];
  }

  lemma SameEndsAppend(all: seq<Record>, r: Record, t: nat)
    requires !r.IsEnd()
    ensures Ended(all + [r], t) <==> Ended(all, t)
  {
    OpenAtPrefix(all, [r], |all|, t);
    assert (all + [r])[|all|] == r;
  }

  lemma OpenAppend(all: seq<Record>, r: Record, t: nat)
    requires !r.IsEnd() && r.IsWrite() && OpenAt(all, |all|, r.txn)
    ensures OpenAt(all + [r], |all| + 1, t) <==> OpenAt(all, |all|, t)
  {
    SameEndsAppend(all, r, t);
    OpenAtPrefix(all, [r], |all|, t);
    assert (all + [r])[|all|] == r;
    assert forall i :: 0 <= i < |all| ==> (all + [r])[i] == all[i];
    if exists i {:trigger all[i].Of(t)} :: 0 <= i < |all| && all[i].Of(t) {
      var i :| 0 <= i < |all| && all[i].Of(t);
      assert (all + [r])[i].Of(t);
    }
  }

  lemma RevertedShape(s: State, r: Record)
    requires Shape(s) && r.Update? && r.page in s.frames && InBounds(r) && r.txn != 0
    requires s.phase.Undo? && s.phase.next > 0
    ensures Shape(Reverted(s, r))
  {
    var s' := Reverted(s, r);
    RevertedAll(s, r);
    forall i | 0 <= i < |s'.All()|
      ensures InBounds(s'.All()[i]) && (s'.All()[i].IsWrite() ==> s'.All()[i].page in s'.base)
    {
      if i < |s.All()| { assert s'.All()[i] == s.All()[i]; } else { assert s'.All()[i] == Compensation(s.nextLsn, r); }
    }
  }

  lemma UndoNextInLog(s: State)
    requires Global(s) && s.phase.Undo?
    ensures s.phase.next <= s.phase.logged <= |s.log| <= |s.All()|
  {
  }

  lemma RevertedClrs(all: seq<Record>, c: Record, n: nat)
    requires c.Clr? && c.txn != 0 && !Ended(all, c.txn)
    requires forall j {:trigger OpenClr(all, j)} :: n <= j < |all| ==> OpenClr(all, j)
    ensures forall j {:trigger OpenClr(all + [c], j)} :: n <= j < |all + [c]| ==> OpenClr(all + [c], j)
  {
    var all' := all + [c];
    forall j {:trigger OpenClr(all', j)} | n <= j < |all'| ensures OpenClr(all', j) {
      if j < |all| {
        assert OpenClr(all, j);
        assert all'[j] == all[j];
      }
      SameEndsAppend(all, c, all'[j].txn);
    }
  }

  lemma RevertedPhase(s: State, r: Record)
    requires Global(s) && s.phase.Undo? && s.phase.next > 0
    requires r.Update? && r.txn != 0 && r.txn in s.phase.losers && r.page in s.frames && InBounds(r)
    requires Shape(Reverted(s, r))
    ensures PhaseHolds(Reverted(s, r))
  {
    hide LsnOrdered, IdsNotReused, CheckpointHolds, WellSized, Splice, OpenClr, EndedBy;
    var s', c, all := Reverted(s, r), Compensation(s.nextLsn, r), s.All();
    RevertedAll(s, r);
    assert OpenAt(all, |all|, r.txn);
    forall t ensures t in s'.phase.losers <==> OpenAt(s'.All(), |s'.All()|, t) {
      OpenAppend(all, c, t);
    }
    RevertedClrs(all, c, s.phase.logged);
  }

  lemma RevertedGlobal(s: State, r: Record)
    requires Global(s) && s.phase.Undo? && s.phase.next > 0 && s.phase.next <= |s.All()|
    requires r == s.All()[s.phase.next - 1]
    requires LoserUpdate(s.All(), r) && r.page in s.frames && InBounds(r)
    ensures Global(Reverted(s, r)) && Reverted(s, r).base == s.base
  {
    hide CheckpointHolds, WellSized, Splice, OpenAt, PhaseHolds, LoserUpdate;
    LoserIsOpen(s.All(), r);
    RevertedAll(s, r);
    LoserUpdateIs(s, s.phase.next - 1);
    RevertedShape(s, r);
    RevertedPhase(s, r);
    LogGrows(s.All(), s.nextLsn, Compensation(s.nextLsn, r));
  }

  lemma LoserIsOpen(log: seq<Record>, r: Record)
    requires LoserUpdate(log, r)
    ensures r.Update? && r.txn != 0 && !Ended(log, r.txn)
  {
  }

  lemma {:induction false} UndoneAppend(all: seq<Record>, r: Record, n: nat, i: nat, p: PageKey, a: nat, b: byte)
    requires i <= n <= |all| && !r.IsEnd() && WellSized(all) && WellSized(all + [r])
    ensures Undone(all + [r], n, i, p, a, b) == Undone(all, n, i, p, a, b)
    decreases n - i
  {
    if i == n {
      ReplayOnPrefix(all, [r], n, p, a, b);
    } else {
      assert (all + [r])[i] == all[i];
      if all[i].Update? {
        SameEndsAppend(all, r, all[i].txn);
      }
      UndoneAppend(all, r, n, i + 1, p, a, b);
    }
  }

  lemma UndoneFromAppend(all: seq<Record>, r: Record, i: nat, n: nat, p: PageKey, a: nat)
    requires n <= |all| && !r.IsEnd()
    ensures UndoneFrom(all + [r], i, n, p, a) <==> UndoneFrom(all, i, n, p, a)
  {
    var all' := all + [r];
    if UndoneFrom(all', i, n, p, a) {
      var j :| i <= j < n && all'[j].Covers(p, a) && LoserUpdate(all', all'[j]);
      SameEndsAppend(all, r, all[j].txn);
      assert all[j].Covers(p, a) && LoserUpdate(all, all[j]);
    }
    if UndoneFrom(all, i, n, p, a) {
      var j :| i <= j < n && all[j].Covers(p, a) && LoserUpdate(all, all[j]);
      SameEndsAppend(all, r, all[j].txn);
      assert all'[j].Covers(p, a) && LoserUpdate(all', all'[j]);
    }
  }

  lemma CoveredAppend(all: seq<Record>, r: Record, n: nat, p: PageKey, a: nat)
    requires Covered(all, n, p, a) || (n <= |all| && r.Covers(p, a))
    ensures Covered(all + [r], n, p, a)
  {
    if Covered(all, n, p, a) {
      var i :| n <= i < |all| && all[i].Covers(p, a);
      assert (all + [r])[i] == all[i];
    } else {
      assert (all + [r])[|all|] == r;
    }
  }

  lemma CompensationDisciplined(all: seq<Record>, k: nat, lsn: nat, p: PageKey, a: nat, b: byte)
    requires k < |all| && LoserUpdate(all, all[k]) && |all[k].undo| == |all[k].redo| && Disciplined(all, p, a, b)
    ensures Disciplined(all + [Compensation(lsn, all[k])], p, a, b)
  {
    var c := Compensation(lsn, all[k]);
    if c.Covers(p, a) {
      assert all[k].Covers(p, a);
      assert UpdatedBefore(all, |all|, c.txn, p, a);
    }
    DisciplinedAppend(all, c, p, a, b);
  }

  /** A loser's compensation respects everybody else's bytes. */
  lemma CompensationIsolated(all: seq<Record>, k: nat, lsn: nat, p: PageKey, a: nat)
    requires k < |all| && LoserUpdate(all, all[k]) && |all[k].undo| == |all[k].redo| && Isolated(all, p, a)
    ensures Isolated(all + [Compensation(lsn, all[k])], p, a)
  {
    var c := Compensation(lsn, all[k]);
    forall i | 0 <= i < |all| && c.Covers(p, a) && all[i].Covers(p, a) && all[i].txn != 0 && all[i].txn != c.txn
      ensures Ended(all, all[i].txn)
    {
      assert all[k].Covers(p, a);
      if i < k {
        assert EndedBy(all, k, all[i].txn);
      }
    }
    IsolatedAppend(all, c, p, a);
  }

  lemma RevertedSynced(s: State, r: Record, q: PageKey, a: nat)
    requires Global(s) && r.Update? && r.page in s.frames && InBounds(r) && s.phase.Undo? && s.phase.next > 0
    requires Shape(Reverted(s, r)) && AByte(s, q, a) && Synced(s, q, a)
    ensures Synced(Reverted(s, r), q, a)
  {
    var p, s', c := r.page, Reverted(s, r), Compensation(s.nextLsn, r);
    RevertedAll(s, r);
    hide LsnOrdered, IdsNotReused, CheckpointHolds, WellSized, PhaseHolds;
    if c.Covers(q, a) {
      assert s'.All()[|s.All()|] == c;
      assert CoveredSince(s'.All(), s'.frames[p].recLsn, p, a);
    } else {
      assert s'.Cur(q)[a] == s.Cur(q)[a];
      if q in s.dirty && CoveredSince(s.All(), s.frames[q].recLsn, q, a) {
        SincePersists(s.All(), c, s.frames[q].recLsn, q, a);
      }
    }
  }

  /** What one more compensation record does to the replay of a byte, and to what is left to undo. */
  lemma CompensationReplays(all: seq<Record>, n: nat, i: nat, lsn: nat, p: PageKey, a: nat, b: byte)
    requires 0 < i <= n <= |all| && WellSized(all) && LoserUpdate(all, all[i - 1]) && Disciplined(all, p, a, b)
    requires Replay(all, |all|, p, a, b) == Undone(all, n, i, p, a, b)
    requires UndoneFrom(all, i, n, p, a) ==> Covered(all, n, p, a)
    ensures var c := Compensation(lsn, all[i - 1]);
            var all' := all + [c];
            && WellSized(all') && Disciplined(all', p, a, b)
            && Replay(all', |all'|, p, a, b)
                 == (if c.Covers(p, a) then c.redo[a - c.off] else Replay(all, |all|, p, a, b))
            && Replay(all', |all'|, p, a, b) == Undone(all', n, i - 1, p, a, b)
            && (UndoneFrom(all', i - 1, n, p, a) ==> Covered(all', n, p, a))
            && (UndoneFrom(all, 0, i, p, a) ==> UndoneFrom(all', 0, i - 1, p, a) || c.Covers(p, a))
  {
    assert InBounds(all[i - 1]);
    var c := Compensation(lsn, all[i - 1]);
    assert WellSized(all + [c]);
    CompensationDisciplined(all, i - 1, lsn, p, a, b);
    hide Disciplined;
    ReplayAppend(all, c, p, a, b);
    UndoneAppend(all, c, n, i - 1, p, a, b);
    UndoneFromAppend(all, c, 0, i - 1, p, a);
    UndoneFromAppend(all, c, i - 1, n, p, a);
    assert c.Covers(p, a) <==> all[i - 1].Covers(p, a);
    if c.Covers(p, a) {
      CoveredAppend(all, c, n, p, a);
    } else if UndoneFrom(all, i - 1, n, p, a) {
      assert UndoneFrom(all, i, n, p, a);
      CoveredAppend(all, c, n, p, a);
    }
  }

  lemma RevertedCur(s: State, r: Record, q: PageKey, a: nat)
    requires Shape(s) && r.Update? && r.page in s.frames && InBounds(r) && s.phase.Undo? && s.phase.next > 0
    requires AByte(s, q, a)
    ensures var s', c := Reverted(s, r), Compensation(s.nextLsn, r);
            && s'.base == s.base && s'.disk == s.disk && s'.log == s.log && s'.chkLsn == s.chkLsn
            && s'.All() == s.All() + [c]
            && s'.phase == Undo(s.phase.logged, s.phase.next - 1, s.phase.losers)
            && q in s'.disk && |s'.Cur(q)| == PageSize(q)
            && s'.Cur(q)[a] == if c.Covers(q, a) then c.redo[a - c.off] else s.Cur(q)[a]
  {
    hide WellSized;
    RevertedAll(s, r);
  }

  lemma RevertedByte(s: State, r: Record, q: PageKey, a: nat)
    requires Global(s) && s.phase.Undo? && s.phase.next > 0 && r == s.All()[s.phase.next - 1]
    requires r.Update? && LoserUpdate(s.All(), r) && r.page in s.frames && InBounds(r)
    requires Shape(Reverted(s, r)) && AByte(s, q, a) && ByteHolds(s, q, a)
    ensures ByteHolds(Reverted(s, r), q, a)
  {
    hide LsnOrdered, IdsNotReused, CheckpointHolds, Disciplined, Synced, UndoneFrom, Covered, Splice, LoserUpdate,
         LoserCovered, InRedoFrom, Undone, Reverted, OpenAt;
    RevertedCur(s, r, q, a);
    RevertedSynced(s, r, q, a);
    CompensationReplays(s.All(), s.phase.logged, s.phase.next, s.nextLsn, q, a, s.base[q][a]);
  }

  lemma UndoStepIs(s: State)
    requires Global(s) && s.phase.Undo? && s.phase.next > 0 && LoserUpdate(s.All(), s.All()[s.phase.next - 1])
    ensures var r := s.All()[s.phase.next - 1];
            && r.Update? && InBounds(r) && r.page in s.base && r.page in s.disk && r.txn != 0
            && UndoStep(s) == Reverted(Fetch(s, r.page), r)
  {
    hide LsnOrdered, IdsNotReused, CheckpointHolds, OpenAt, Splice;
    LoserUpdateIs(s, s.phase.next - 1);
    assert InBounds(s.All()[s.phase.next - 1]);
  }

  lemma UndoTracks(s: State)
    requires Tracks(s) && s.phase.Undo? && s.phase.next > 0
    requires LoserUpdate(s.All(), s.All()[s.phase.next - 1])
    ensures Tracks(UndoStep(s))
  {
    hide ByteHolds, LsnOrdered, IdsNotReused, CheckpointHolds, WellSized, LoserUpdate, Reverted, UndoStep, OpenClr,
      OpenAt;
    var r := s.All()[s.phase.next - 1];
    UndoStepIs(s);
    UndoNextInLog(s);
    FetchTracks(s, r.page);
    var s1 := Fetch(s, r.page);
    RevertedGlobal(s1, r);
    forall q, a: nat | AByte(s1, q, a) ensures ByteHolds(Reverted(s1, r), q, a) {
      RevertedByte(s1, r, q, a);
    }
  }

  lemma UndoStepGlobal(s: State)
    requires Global(s) && s.phase.Undo? && s.phase.next > 0
    requires LoserUpdate(s.All(), s.All()[s.phase.next - 1])
    ensures Global(UndoStep(s))
  {
    hide LsnOrdered, IdsNotReused, CheckpointHolds, WellSized, LoserUpdate, Reverted, UndoStep, OpenClr, OpenAt;
    var r := s.All()[s.phase.next - 1];
    UndoStepIs(s);
    UndoNextInLog(s);
    FetchGlobal(s, r.page);
    RevertedGlobal(Fetch(s, r.page), r);
  }
}
