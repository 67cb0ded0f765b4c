/** The end of a recovery: undo is complete, the losers are ended, the system may go on. */
module EngineEnd {
  import opened Records
  import opened Engine
  import opened EngineLog
  import opened EngineInv
  import opened EngineFlush
  import opened EngineUp
  import opened EngineRecover

  // ---------------------------------------------------------------- undo is complete

  lemma {:induction false} UndonePrefix(all: seq<Record>, n: nat, i: nat, p: PageKey, a: nat, b: byte)
    requires i <= n <= |all| && WellSized(all) && WellSized(all[..n])
    requires forall j {:trigger OpenClr(all, j)} :: n <= j < |all| ==> OpenClr(all, j)
    ensures Undone(all, n, i, p, a, b) == Undone(all[..n], n, i, p, a, b)
    decreases n - i
  {
    if i == n {
      assert all == all[..n] + all[n..];
      ReplayOnPrefix(all[..n], all[n..], n, p, a, b);
    } else {
      assert all[..n][i] == all[i];
      if all[i].Update? {
        SameEnds(all, n, all[i].txn);
      }
      UndonePrefix(all, n, i + 1, p, a, b);
    }
  }

  /** With every loser Update undone, the byte has the value the durable log demands. */
  lemma UndoneAllIsEffective(all: seq<Record>, m: nat, n: nat, p: PageKey, a: nat, b: byte)
    requires n <= m <= |all| && WellSized(all) && Disciplined(all, p, a, b) && Isolated(all, p, a)
    requires forall j {:trigger OpenClr(all, j)} :: n <= j < |all| ==> OpenClr(all, j)
    requires Replay(all, |all|, p, a, b) == Undone(all, n, 0, p, a, b)
    ensures Replay(all, |all|, p, a, b) == Effective(all[..m], p, a, b)
  {
    var log := all[..n];
    assert all == log + all[n..];
    assert WellSized(log) by {
      assert forall i :: 0 <= i < n ==> log[i] == all[i];
    }
    UndonePrefix(all, n, 0, p, a, b);
    DisciplinedPrefix(log, all[n..], p, a, b);
    IsolatedPrefix(log, all[n..], p, a);
    UndoneIsEffective(log, p, a, b);
    SameEffective(all, n, p, a, b);
    SameEffective(all, m, p, a, b);
  }

  /** What the file misses of the byte is now in the redo range of the whole log. */
  lemma UndoDoneDisk(s: State, p: PageKey, a: nat)
    requires Global(s) && s.phase.Undo? && s.phase.next == 0
    requires AByte(s, p, a) && Repairable(s, p, a)
    requires UndoneFrom(s.All(), 0, s.phase.logged, p, a) ==> Covered(s.All(), s.phase.logged, p, a)
    ensures InRedoFrom(s.All(), s.chkLsn, 0, p, a)
         || s.disk[p][a] == Replay(s.All(), |s.All()|, p, a, s.base[p][a])
  {
    var all := s.All();
    RedoReachesNewRecords(s.log, s.buf, s.chkLsn, s.nextLsn, p, a, s.base[p][a]);
    if LoserCovered(s.log, p, a) {
      var j :| 0 <= j < |s.log| && s.log[j].Covers(p, a) && LoserUpdate(s.log, s.log[j]);
      SameEndsOfLog(s, s.log[j].txn);
      assert all[j] == s.log[j];
      assert OpenClr(all, j) || j < s.phase.logged;
      assert UndoneFrom(all, 0, s.phase.logged, p, a);
      ClrIsInRedo(s, p, a);
    }
  }

  lemma UndoDoneByte(s: State, p: PageKey, a: nat)
    requires Global(s) && s.phase.Undo? && s.phase.next == 0
    requires AByte(s, p, a) && ByteHolds(s, p, a)
    ensures ByteHolds(s.(phase := Ending(s.phase.losers)), p, a)
  {
    hide LoserCovered, InRedoFrom, LsnOrdered, IdsNotReused, CheckpointHolds, Isolated, BeforeImages, ClrsFollow;
    var s', all := s.(phase := Ending(s.phase.losers)), s.All();
    assert s'.All() == all;
    assert all[..|s.log|] == s.log;
    if Isolated(all, p, a) {
      UndoneAllIsEffective(all, |s.log|, s.phase.logged, p, a, s.base[p][a]);
    }
    UndoDoneDisk(s, p, a);
    assert !UndoneFrom(all, 0, 0, p, a);
    assert Synced(s', p, a);
  }

  lemma SameEndsOfLog(s: State, t: nat)
    requires Global(s) && (s.phase.Undo? || s.phase.Ending?)
    ensures Ended(s.All(), t) <==> Ended(s.log, t)
  {
    assert s.All()[..|s.log|] == s.log;
    SameEnds(s.All(), |s.log|, t);
  }

  lemma ClrIsInRedo(s: State, p: PageKey, a: nat)
    requires Global(s) && s.phase.Undo? && Covered(s.All(), s.phase.logged, p, a)
    ensures InRedoFrom(s.All(), s.chkLsn, 0, p, a)
  {
    var all := s.All();
    var j :| s.phase.logged <= j < |all| && all[j].Covers(p, a);
    ClrIsYoung(s, j);
    CheckpointHoldsOn(s.log, s.buf, s.chkLsn, s.nextLsn);
    var c := AnalysisStart(all, s.chkLsn, s.nextLsn);
    assert InRedo(all, s.chkLsn, all[j]);
  }

  /** Compensation records come after the checkpoint that recovery started from. */
  lemma ClrIsYoung(s: State, j: nat)
    requires Global(s) && s.phase.Undo? && s.phase.logged <= j < |s.All()|
    ensures s.All()[j].lsn > s.chkLsn
  {
    if s.chkLsn != 0 {
      var c :| 0 <= c < |s.log| && CheckpointAt(s.log, s.chkLsn, c);
      assert s.All()[c] == s.log[c] && !OpenClr(s.All(), c);
      assert s.All()[c].lsn < s.All()[j].lsn;
    } else {
      assert s.All()[j].lsn >= 1;
    }
  }

  lemma UndoDoneGlobal(s: State)
    requires Global(s) && s.phase.Undo? && s.phase.next == 0
    ensures Global(s.(phase := Ending(s.phase.losers)))
  {
    hide LsnOrdered, IdsNotReused, CheckpointHolds, WellSized, OpenAt;
    assert s.(phase := Ending(s.phase.losers)).All() == s.All();
  }

  lemma UndoDoneTracks(s: State)
    requires Tracks(s) && s.phase.Undo? && s.phase.next == 0
    ensures Tracks(UndoStep(s))
  {
    var s' := s.(phase := Ending(s.phase.losers));
    UndoDoneGlobal(s);
    forall p, a: nat | AByte(s, p, a) ensures ByteHolds(s', p, a) {
      UndoDoneByte(s, p, a);
    }
  }

  // ---------------------------------------------------------------- ending the losers

  lemma EndedAlso(all: seq<Record>, lsn: nat, t: nat, u: nat)
    ensures Ended(all + [Abort(lsn, t)], u) <==> Ended(all, u) || u == t
  {
    OpenAtPrefix(all, [Abort(lsn, t)], |all|, u);
    assert (all + [Abort(lsn, t)])[|all|].IsEnd();
  }

  /** The first Update of the byte by a loser that stays one is the first by any loser. */
  lemma FirstLoserStays(all: seq<Record>, lsn: nat, t: nat, k: nat, p: PageKey, a: nat)
    requires Isolated(all, p, a) && k < |all|
    requires var all' := all + [Abort(lsn, t)]; all'[k].Covers(p, a) && LoserUpdate(all', all'[k])
    ensures all[k].Covers(p, a) && LoserUpdate(all, all[k])
    ensures forall j {:trigger all[j].Covers(p, a)} :: 0 <= j < k && all[j].Covers(p, a) && LoserUpdate(all, all[j]) ==>
      LoserUpdate(all + [Abort(lsn, t)], all[j])
  {
    EndedAlso(all, lsn, t, all[k].txn);
    forall j | 0 <= j < k && all[j].Covers(p, a) && LoserUpdate(all, all[j])
      ensures LoserUpdate(all + [Abort(lsn, t)], all[j])
    {
      LaterWritersAreThatLoser(all, j, k, p, a);
    }
  }

  /** Ending one loser whose Updates are compensated changes nothing that the log demands. */
  lemma EndKeepsEffect(all: seq<Record>, lsn: nat, t: nat, p: PageKey, a: nat, b: byte)
    requires WellSized(all) && Disciplined(all, p, a, b) && Isolated(all, p, a)
    requires Replay(all, |all|, p, a, b) == Effective(all, p, a, b)
    ensures var all' := all + [Abort(lsn, t)];
            Effective(all', p, a, b) == Replay(all', |all'|, p, a, b) == Effective(all, p, a, b)
  {
    hide Isolated, BeforeImages, ClrsFollow;
    var r := Abort(lsn, t);
    var all' := all + [r];
    assert WellSized(all');
    DisciplinedAppend(all, r, p, a, b);
    IsolatedAppend(all, r, p, a);
    ReplayAppend(all, r, p, a, b);
    if LoserCovered(all', p, a) {
      var k := FirstLoser(all', |all'|, p, a);
      FirstLoserStays(all, lsn, t, k, p, a);
      assert forall j :: 0 <= j < k ==> all'[j] == all[j];
      UndoneAt(all, |all|, 0, k, p, a, b);
      UndoneAt(all', |all'|, 0, k, p, a, b);
      UndoneIsEffective(all, p, a, b);
      UndoneIsEffective(all', p, a, b);
    } else {
      UntouchedIsEffective(all', p, a, b);
    }
  }

  function EndNoted(s: State, t: nat): State
    requires s.phase.Ending?
  {
    Append(s, Abort(s.nextLsn, t)).(active := s.active - {t})
  }

  lemma EndStepLog(s: State, t: nat)
    requires Global(s) && s.phase.Ending?
    ensures EndStep(s, t).log == s.All() + [Abort(s.nextLsn, t)] && EndStep(s, t).buf == []
    ensures EndStep(s, t).diskNext == EndStep(s, t).nextLsn == s.nextLsn + 1
  {
    var s1 := EndNoted(s, t);
    assert s1.All() == s.All() + [Abort(s.nextLsn, t)];
    forall i | 0 <= i < |s1.buf| ensures s1.buf[i].lsn <= s.nextLsn {
      assert s1.All()[|s1.log| + i] == s1.buf[i];
      assert i < |s.buf| ==> s.All()[|s.log| + i] == s.buf[i];
    }
    FlushNewest(s1, s.nextLsn);
  }

  lemma EndStepShape(s: State, t: nat)
    requires Shape(s) && s.phase.Ending? && EndStep(s, t).All() == s.All() + [Abort(s.nextLsn, t)]
    ensures Shape(EndStep(s, t))
  {
    var s' := EndStep(s, t);
    forall i | 0 <= i < |s'.All()|
      ensures InBounds(s'.All()[i]) && (s'.All()[i].IsWrite() ==> s'.All()[i].page in s'.base)
    {
      if i < |s.All()| { assert s'.All()[i] == s.All()[i]; } else { assert s'.All()[i] == Abort(s.nextLsn, t); }
    }
  }

  lemma EndStepPhase(s: State, t: nat)
    requires Global(s) && s.phase.Ending? && t in s.phase.todo && Shape(EndStep(s, t))
    requires EndStep(s, t).All() == s.All() + [Abort(s.nextLsn, t)] && EndStep(s, t).buf == []
    ensures PhaseHolds(EndStep(s, t))
  {
    var s', r := EndStep(s, t), Abort(s.nextLsn, t);
    assert OpenAt(s.All(), |s.All()|, t);
    forall u ensures u in s'.phase.todo <==> OpenAt(s'.All(), |s'.All()|, u) {
      EndOpens(s.All(), r, u);
    }
    hide OpenAt, LsnOrdered, IdsNotReused, CheckpointHolds, Shape;
  }

  lemma EndStepGlobal(s: State, t: nat)
    requires Global(s) && s.phase.Ending? && t in s.phase.todo
    ensures Global(EndStep(s, t))
  {
    var s', r, all := EndStep(s, t), Abort(s.nextLsn, t), s.All();
    EndStepLog(s, t);
    assert s'.All() == all + [r] == s'.log;
    EndStepShape(s, t);
    EndStepPhase(s, t);
    assert t != 0 && !Ended(all, t) by {
      assert OpenAt(all, |all|, t);
    }
    LogGrows(all, s.nextLsn, r);
    assert s'.log == s.log + (s.buf + [r]);
    CheckpointHoldsOn(s.log, s.buf + [r], s.chkLsn, s'.nextLsn);
    hide IdsNotReused, CheckpointHolds, LsnOrdered, Shape, PhaseHolds;
  }

  lemma EndOpens(all: seq<Record>, r: Record, u: nat)
    requires r.IsEnd()
    requires OpenAt(all, |all|, r.txn)
    ensures OpenAt(all + [r], |all| + 1, u) <==> OpenAt(all, |all|, u) && u != r.txn
  {
    var all' := all + [r];
    OpenAtPrefix(all, [r], |all|, u);
    assert all'[|all|] == r;
    assert EndedBy(all', |all'|, u) <==> EndedBy(all', |all|, u) || u == r.txn;
    assert forall i :: 0 <= i < |all| ==> all'[i] == all[i];
    if exists i {:trigger all[i].Of(u)} :: 0 <= i < |all| && all[i].Of(u) {
      var i :| 0 <= i < |all| && all[i].Of(u);
      assert all'[i].Of(u);
    }
  }

  lemma EndStepReplay(s: State, t: nat, p: PageKey, a: nat)
    requires Global(s) && s.phase.Ending? && AByte(s, p, a) && ByteHolds(s, p, a)
    ensures var all', b := s.All() + [Abort(s.nextLsn, t)], s.base[p][a];
            Disciplined(all', p, a, b) && Replay(all', |all'|, p, a, b) == s.Cur(p)[a]
  {
    hide LsnOrdered, IdsNotReused, CheckpointHolds, WellSized, PhaseHolds, Repairable, Synced, BeforeImages, ClrsFollow;
    ReplayAppend(s.All(), Abort(s.nextLsn, t), p, a, s.base[p][a]);
    DisciplinedAppend(s.All(), Abort(s.nextLsn, t), p, a, s.base[p][a]);
  }

  lemma EndStepEffect(s: State, t: nat, p: PageKey, a: nat)
    requires Global(s) && s.phase.Ending? && AByte(s, p, a) && ByteHolds(s, p, a) && Isolated(s.All(), p, a)
    ensures var all', b := s.All() + [Abort(s.nextLsn, t)], s.base[p][a];
            Effective(all', p, a, b) == Effective(s.log, p, a, b) == s.Cur(p)[a]
  {
    hide LsnOrdered, IdsNotReused, CheckpointHolds, Repairable, Synced, BeforeImages, ClrsFollow, Isolated;
    assert s.All()[..|s.log|] == s.log;
    SameEffective(s.All(), |s.log|, p, a, s.base[p][a]);
    EndKeepsEffect(s.All(), s.nextLsn, t, p, a, s.base[p][a]);
  }

  lemma EndStepDisk(s: State, t: nat, p: PageKey, a: nat)
    requires Global(s) && s.phase.Ending? && Global(EndStep(s, t))
    requires EndStep(s, t).log == s.All() + [Abort(s.nextLsn, t)]
    requires AByte(s, p, a) && ByteHolds(s, p, a)
    ensures var s' := EndStep(s, t);
            InRedoFrom(s'.log, s.chkLsn, 0, p, a) || s.disk[p][a] == Replay(s'.log, |s'.log|, p, a, s.base[p][a])
  {
    hide Disciplined, Synced, Repairable, IdsNotReused, InRedoFrom;
    var s' := EndStep(s, t);
    CheckpointHoldsOn(s.log, s.buf, s.chkLsn, s.nextLsn);
    RedoReachesNewRecords(s.All(), [Abort(s.nextLsn, t)], s.chkLsn, s'.nextLsn, p, a, s.base[p][a]);
  }

  lemma EndStepSynced(s: State, t: nat, p: PageKey, a: nat)
    requires Shape(s) && s.phase.Ending? && Shape(EndStep(s, t))
    requires EndStep(s, t).All() == s.All() + [Abort(s.nextLsn, t)]
    requires AByte(s, p, a) && Synced(s, p, a)
    ensures Synced(EndStep(s, t), p, a)
  {
    hide WellSized;
    var s' := EndStep(s, t);
    if p in s.dirty && CoveredSince(s.All(), s.frames[p].recLsn, p, a) {
      SincePersists(s.All(), Abort(s.nextLsn, t), s.frames[p].recLsn, p, a);
    }
    assert s'.Cur(p) == s.Cur(p) && s'.disk == s.disk;
  }

  lemma EndStepByte(s: State, t: nat, p: PageKey, a: nat)
    requires Global(s) && s.phase.Ending? && t in s.phase.todo && Global(EndStep(s, t))
    requires AByte(s, p, a) && ByteHolds(s, p, a)
    ensures ByteHolds(EndStep(s, t), p, a)
    ensures Isolated(s.All(), p, a) ==>
      Effective(EndStep(s, t).log, p, a, s.base[p][a]) == Effective(s.log, p, a, s.base[p][a])
  {
    var s' := EndStep(s, t);
    EndStepLog(s, t);
    assert s'.All() == s.All() + [Abort(s.nextLsn, t)] == s'.log;
    EndStepReplay(s, t, p, a);
    if Isolated(s.All(), p, a) {
      EndStepEffect(s, t, p, a);
    } else if Isolated(s'.All(), p, a) {
      IsolatedPrefix(s.All(), [Abort(s.nextLsn, t)], p, a);
    }
    EndStepDisk(s, t, p, a);
    EndStepSynced(s, t, p, a);
    hide Disciplined, LoserCovered, InRedoFrom, Global, Synced;
    assert s'.Cur(p) == s.Cur(p) && s'.disk == s.disk;
  }

  lemma EndStepTracks(s: State, t: nat)
    requires Tracks(s) && s.phase.Ending? && t in s.phase.todo
    ensures Tracks(EndStep(s, t)) && (AllIsolated(s) ==> SameEffect(s, EndStep(s, t)))
  {
    EndStepGlobal(s, t);
    forall p, a: nat | AByte(s, p, a)
      ensures ByteHolds(EndStep(s, t), p, a)
      ensures Isolated(s.All(), p, a) ==>
        Effective(EndStep(s, t).log, p, a, s.base[p][a]) == Effective(s.log, p, a, s.base[p][a])
    {
      EndStepByte(s, t, p, a);
    }
  }

  // ---------------------------------------------------------------- finish and resume

  /** A buffered record is a compensation of a transaction that is still to be ended. */
  lemma BufferedIsToDo(s: State)
    requires Global(s) && s.phase.Ending?
    ensures s.buf != [] ==> s.phase.todo != {}
  {
    if s.buf != [] {
      var j := |s.log|;
      assert OpenClr(s.All(), j);
      assert s.All()[j].Of(s.All()[j].txn);
      assert OpenAt(s.All(), |s.All()|, s.All()[j].txn);
    }
  }

  lemma FinishGlobal(s: State)
    requires Global(s) && s.phase.Ending? && s.phase.todo == {}
    ensures Global(FlushWholeLog(s).(phase := Recovered)) && s.buf == []
  {
    BufferedIsToDo(s);
    assert s.(phase := Recovered).All() == s.All() == s.log;
  }

  lemma FinishTracks(s: State)
    requires Tracks(s) && s.phase.Ending? && s.phase.todo == {}
    ensures Tracks(FlushWholeLog(s).(phase := Recovered))
    ensures FlushWholeLog(s).log == s.log
  {
    BufferedIsToDo(s);
    var s' := s.(phase := Recovered);
    assert s'.All() == s.All() == s.log;
    FinishGlobal(s);
    forall p, a: nat | AByte(s, p, a) ensures ByteHolds(s', p, a) {
      assert ByteHolds(s, p, a);
      assert Synced(s', p, a);
    }
  }

  lemma ResumeTracks(s: State)
    requires Tracks(s) && s.phase.Recovered? && forall p :: p in s.dirty ==> !BlindDirty(s, p)
    ensures Tracks(s.(phase := Up))
  {
    var s' := s.(phase := Up);
    assert s'.All() == s.All() == s.log;
    assert Global(s');
    forall p, a: nat | AByte(s, p, a) ensures ByteHolds(s', p, a) {
      assert ByteHolds(s, p, a);
      assert Synced(s', p, a);
    }
  }
}
