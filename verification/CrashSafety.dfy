/** Crash safety over whole runs. */
module CrashSafety {
  import opened Records
  import opened Engine
  import opened EngineLog
  import opened EngineInv
  import opened EngineFlush
  import opened EngineUp
  import opened EngineRecover
  import opened EngineEnd

  /** A fresh database: empty log, files holding the pages as allocated. */
  ghost predicate Initial(s: State) {
    && (forall p :: p in s.base ==> |s.base[p]| == PageSize(p))
    && s.disk == s.base && s.frames == map[] && s.dirty == {}
    && s.log == [] && s.buf == [] && s.nextLsn == s.diskNext == 1 && s.chkLsn == 0
    && s.active == map[] && s.phase == Up
  }

  lemma InitialHolds(s: State)
    requires Initial(s)
    ensures Holds(s)
  {
    assert s.All() == [];
    assert Global(s);
    forall p, a: nat | AByte(s, p, a) ensures ByteHolds(s, p, a) {
      InitialByte(s, p, a);
    }
  }

  lemma InitialByte(s: State, p: PageKey, a: nat)
    requires Initial(s) && Shape(s) && AByte(s, p, a)
    ensures ByteHolds(s, p, a)
  {
    assert s.All() == [];
    assert s.Cur(p) == s.disk[p] == s.base[p];
  }

  /** While a recovery is due or under way, what the durable log demands must not change. */
  predicate Recovering(ph: Phase) {
    !ph.Up?
  }

  /** The action may be taken as far as ids and undone pages are concerned; it may overwrite bytes of
      open transactions. */
  ghost predicate Careful(s: State, act: Action)
    requires Shape(s)
  {
    Possible(s, act) && RespectsIds(s, act) && RespectsUndo(s, act)
  }

  // ---------------------------------------------------------------- one step

  lemma UpdateStepTracks(s: State, t: nat, p: PageKey, data: seq<byte>)
    requires Tracks(s) && Careful(s, UpdatePage(t, p, data))
    ensures Tracks(Next(s, UpdatePage(t, p, data)))
  {
    hide ByteHolds, LsnOrdered, IdsNotReused, CheckpointHolds, WellSized, LogDiff;
    FetchTracks(s, p);
    var s1 := Fetch(s, p);
    assert s1.frames[p].data == s.Cur(p) && s1.All() == s.All();
    if s.Cur(p) == data {
      TouchTracks(s1, p);
    } else {
      UpdateTracks(s1, t, p, data);
    }
  }

  lemma UpStepTracks(s: State, act: Action)
    requires Tracks(s) && Careful(s, act) && s.phase.Up?
    ensures Tracks(Next(s, act))
  {
    hide ByteHolds, WellSized, LogDiff, CheckpointStep, Effective, LsnOrdered, IdsNotReused, CheckpointHolds,
      PhaseHolds;
    match act {
      case BeginTxn(t) =>
        NotedTracks(s, Begin(s.nextLsn, t));
      case UpdatePage(t, p, data) =>
        UpdateStepTracks(s, t, p, data);
      case CommitTxn(t) =>
        EndTracks(s, Commit(s.nextLsn, t));
      case AbortTxn(t) =>
        EndTracks(s, Abort(s.nextLsn, t));
      case TakeCheckpoint =>
        CheckpointTracks(s);
      case TornCheckpoint =>
        CheckpointWrittenTracks(s);
        CrashTracks(FlushLog(Append(s, CheckpointRecord(s)), s.nextLsn));
      case _ =>
        AnyPhaseStepTracks(s, act);
    }
  }

  predicate OfPool(act: Action) {
    act.FlushLogTo? || act.FlushPage? || act.EvictPage? || act.FetchPage?
  }

  lemma AnyPhaseStepTracks(s: State, act: Action)
    requires Tracks(s) && Possible(s, act) && (OfPool(act) || act.Crash?)
    ensures Tracks(Next(s, act))
    ensures Recovering(s.phase) ==> SameEffect(s, Next(s, act))
  {
    hide ByteHolds, LsnOrdered, IdsNotReused, CheckpointHolds, WellSized, Effective, AttMatches, OpenAt, FlushLog,
      WriteBack;
    match act {
      case FlushLogTo(lsn) => FlushLogTracks(s, lsn);
      case FlushPage(p) => WriteBackTracks(s, p);
      case EvictPage(p) =>
        WriteBackTracks(s, p);
        WriteBackGlobal(s, p);
        DropTracks(WriteBack(s, p), p);
      case FetchPage(p) => FetchTracks(s, p);
      case Crash => CrashTracks(s);
    }
  }

  lemma RedoStepTracks(s: State)
    requires Tracks(s) && Possible(s, RedoNext)
    ensures Tracks(RedoStep(s)) && SameEffect(s, RedoStep(s))
  {
    hide ByteHolds, LsnOrdered, IdsNotReused, CheckpointHolds, AnalysisOf, WellSized, Effective, RedoStep, PhaseHolds;
    var i := s.phase.next;
    RedoKeepsLog(s);
    if i == |s.log| {
      RedoDoneTracks(s);
    } else if Redoable(s.phase.an.dpt, s.log[i]) {
      RedoTracks(s);
    } else {
      RedoSkipTracks(s);
      RedoSkipIs(s);
    }
  }

  lemma RedoSkipIs(s: State)
    requires Shape(s) && s.phase.Redo? && s.phase.next < |s.log| && !Redoable(s.phase.an.dpt, s.log[s.phase.next])
    ensures RedoStep(s) == s.(phase := Redo(s.phase.next + 1, s.phase.an))
  {
  }

  lemma UndoSkipIs(s: State)
    requires Shape(s) && s.phase.Undo? && 0 < s.phase.next <= |s.All()|
    requires var r := s.All()[s.phase.next - 1]; !(r.Update? && r.txn in s.phase.losers)
    ensures UndoStep(s) == s.(phase := Undo(s.phase.logged, s.phase.next - 1, s.phase.losers))
  {
  }

  lemma UndoOneIs(s: State)
    requires Shape(s) && s.phase.Undo? && 0 < s.phase.next <= |s.All()|
    requires var r := s.All()[s.phase.next - 1]; r.Update? && r.txn in s.phase.losers
    ensures var r := s.All()[s.phase.next - 1];
            && r.page in s.disk && (r.page in s.frames ==> |s.frames[r.page].data| == |s.disk[r.page]|)
            && |r.undo| == |r.redo| && r.off + |r.undo| <= |s.disk[r.page]|
            && UndoStep(s) == UndoOne(s, r).(phase := Undo(s.phase.logged, s.phase.next - 1, s.phase.losers))
  {
    hide UndoOne;
    assert InBounds(s.All()[s.phase.next - 1]);
  }

  lemma UndoEndIs(s: State)
    requires Shape(s) && s.phase.Undo? && s.phase.next == 0
    ensures UndoStep(s) == s.(phase := Ending(s.phase.losers))
  {
  }

  lemma UndoStepTracks(s: State)
    requires Tracks(s) && Possible(s, UndoNext)
    ensures Tracks(UndoStep(s)) && SameEffect(s, UndoStep(s))
  {
    hide ByteHolds, LsnOrdered, IdsNotReused, CheckpointHolds, WellSized, Effective, OpenAt, UndoStep;
    var i := s.phase.next;
    UndoKeepsLog(s);
    if i == 0 {
      UndoDoneTracks(s);
    } else if LoserUpdate(s.All(), s.All()[i - 1]) {
      UndoTracks(s);
    } else {
      UndoSkipTracks(s);
    }
  }

  lemma RecoveryStepTracks(s: State, act: Action)
    requires Tracks(s) && Careful(s, act) && Recovering(s.phase)
    ensures Tracks(Next(s, act)) && (AllIsolated(s) ==> SameEffect(s, Next(s, act)))
  {
    hide ByteHolds, Global, AnalysisOf, WellSized, Effective, RedoStep, UndoStep, EndStep;
    match act {
      case Analyse => AnalyseTracks(s);
      case RedoNext => RedoStepTracks(s);
      case UndoNext => UndoStepTracks(s);
      case EndLoser(t) => EndStepTracks(s, t);
      case FinishRecovery => FinishTracks(s);
      case Resume => ResumeTracks(s);
      case _ => AnyPhaseStepTracks(s, act);
    }
  }

  /** Every step keeps what the program tracks of each byte, even where callers overwrite each other. */
  lemma StepTracks(s: State, act: Action)
    requires Tracks(s) && Careful(s, act)
    ensures Tracks(Next(s, act))
    ensures AllIsolated(s) && Recovering(s.phase) ==> SameEffect(s, Next(s, act))
  {
    hide Tracks, SameEffect, Next;
    TracksGlobal(s);
    if s.phase.Up? { UpStepTracks(s, act); } else { RecoveryStepTracks(s, act); }
  }

  lemma TracksGlobal(s: State)
    requires Tracks(s)
    ensures Global(s) && Shape(s)
  {
  }

  // ---------------------------------------------------------------- the pool changes no byte

  /** What the two states have in common when only the log buffer and the pool have changed. */
  ghost predicate SameByte(s: State, s': State, p: PageKey, a: nat) {
    && s'.base == s.base && s'.chkLsn == s.chkLsn && s'.phase == s.phase && p in s.disk && p in s'.disk
    && a < |s.Cur(p)| && a < |s'.Cur(p)| && s'.Cur(p)[a] == s.Cur(p)[a]
    && (s.buf == [] ==> s'.log == s.log)
  }

  lemma FlushKeepsByte(s: State, target: nat, p: PageKey, a: nat)
    requires p in s.disk && a < |s.Cur(p)|
    ensures SameByte(s, FlushLog(s, target), p, a)
    ensures FlushLog(s, target).disk == s.disk && FlushLog(s, target).frames == s.frames
  {
  }

  lemma WriteBackKeepsByte(s: State, q: PageKey, p: PageKey, a: nat)
    requires q in s.frames && p in s.disk && a < |s.Cur(p)|
    ensures SameByte(s, WriteBack(s, q), p, a)
    ensures WriteBack(s, q).frames.Keys == s.frames.Keys
    ensures q in s.dirty ==> q in WriteBack(s, q).disk && WriteBack(s, q).disk[q] == s.frames[q].data
    ensures q !in s.dirty ==> WriteBack(s, q) == s
  {
    hide FlushLog;
    FlushKeepsByte(s, s.frames[q].pageLsn, p, a);
  }

  lemma EvictKeepsByte(s: State, q: PageKey, p: PageKey, a: nat)
    requires Shape(s) && q in s.frames && AByte(s, p, a) && Synced(s, p, a)
    ensures SameByte(s, Drop(WriteBack(s, q), q), p, a)
  {
    hide WriteBack, WellSized, CoveredSince;
    WriteBackKeepsByte(s, q, p, a);
  }

  lemma PoolStepByte(s: State, act: Action, p: PageKey, a: nat)
    requires Tracks(s) && Possible(s, act) && OfPool(act) && AByte(s, p, a)
    ensures SameByte(s, Next(s, act), p, a)
  {
    hide LsnOrdered, IdsNotReused, CheckpointHolds, WellSized, BytePhase, Disciplined, SameByte, PhaseHolds, Synced,
      FlushLog,
         WriteBack;
    assert ByteHolds(s, p, a);
    match act {
      case FlushLogTo(lsn) => FlushKeepsByte(s, lsn, p, a);
      case FlushPage(q) => WriteBackKeepsByte(s, q, p, a);
      case EvictPage(q) => EvictKeepsByte(s, q, p, a);
      case FetchPage(q) => FetchKeepsByte(s, q, p, a);
    }
  }

  lemma FetchKeepsByte(s: State, q: PageKey, p: PageKey, a: nat)
    requires q in s.disk && p in s.disk && a < |s.Cur(p)|
    ensures SameByte(s, Fetch(s, q), p, a)
  {
  }

  // ---------------------------------------------------------------- writes stay apart

  lemma PoolStepLog(s: State, act: Action)
    requires Global(s) && Possible(s, act) && OfPool(act)
    ensures Next(s, act).All() == s.All()
  {
    hide LsnOrdered, IdsNotReused, CheckpointHolds, WellSized, PhaseHolds, FlushLog, WriteBack;
    match act {
      case FlushLogTo(lsn) => FlushLogGlobal(s, lsn);
      case FlushPage(p) => WriteBackGlobal(s, p);
      case EvictPage(p) => WriteBackGlobal(s, p);
      case FetchPage(p) =>
    }
  }

  lemma NotedLog(s: State, r: Record)
    requires Tracks(s) && s.phase.Up? && r.lsn == s.nextLsn && !r.IsWrite()
    requires forall t :: t != 0 && r.Of(t) ==> !Ended(s.All(), t)
    ensures FlushLog(Noted(s, r), s.nextLsn).All() == s.All() + [r]
    ensures FlushLog(Noted(s, r), s.nextLsn).log == s.All() + [r]
  {
    hide ByteHolds, LsnOrdered, IdsNotReused, CheckpointHolds, WellSized, PhaseHolds;
    NextLsnPositive(s);
    NotedAll(s, r);
    NotedGlobal(s, r);
    FlushLogGlobal(Noted(s, r), s.nextLsn);
    BufferedBelow(Noted(s, r));
    FlushNewest(Noted(s, r), s.nextLsn);
  }

  lemma CrashLog(s: State)
    ensures CrashOf(s).All() == s.log
  {
  }

  /** The record that a step other than an update or a compensation appends writes no page. */
  lemma UpStepIsolated(s: State, act: Action, p: PageKey, a: nat)
    requires Tracks(s) && Careful(s, act) && s.phase.Up? && !act.UpdatePage? && Isolated(s.All(), p, a)
    ensures Isolated(Next(s, act).All(), p, a)
  {
    hide ByteHolds, LsnOrdered, IdsNotReused, CheckpointHolds, WellSized, PhaseHolds, FlushLog, WriteBack, Isolated,
      Fetch;
    match act {
      case BeginTxn(t) =>
        NotedAll(s, Begin(s.nextLsn, t));
        IsolatedAppend(s.All(), Begin(s.nextLsn, t), p, a);
      case CommitTxn(t) =>
        NotedLog(s, Commit(s.nextLsn, t));
        IsolatedAppend(s.All(), Commit(s.nextLsn, t), p, a);
      case AbortTxn(t) =>
        NotedLog(s, Abort(s.nextLsn, t));
        IsolatedAppend(s.All(), Abort(s.nextLsn, t), p, a);
      case TakeCheckpoint =>
        CheckpointWritten(s);
        assert CheckpointStep(s).All() == CheckpointStep(s).log;
        IsolatedAppend(s.All(), CheckpointRecord(s), p, a);
      case TornCheckpoint =>
        CheckpointWritten(s);
        CrashLog(FlushLog(Append(s, CheckpointRecord(s)), s.nextLsn));
        IsolatedAppend(s.All(), CheckpointRecord(s), p, a);
      case Crash =>
        CrashLog(s);
        IsolatedPrefix(s.log, s.buf, p, a);
      case _ => PoolStepLog(s, act);
    }
  }

  lemma UpdateStepIsolated(s: State, act: Action, p: PageKey, a: nat)
    requires Tracks(s) && Enabled(s, act) && act.UpdatePage? && Isolated(s.All(), p, a)
    ensures Isolated(Next(s, act).All(), p, a)
  {
    hide ByteHolds, LsnOrdered, IdsNotReused, CheckpointHolds, WellSized, PhaseHolds, Isolated, MayOverwrite;
    var s1, was := Fetch(s, act.p), s.Cur(act.p);
    if was != act.data {
      LogDiffIsChanged(s1, act.t, act.p, act.data);
      ChangedAll(s1, DiffRecord(s.nextLsn, act.t, act.p, was, act.data), act.data);
      UpdateIsolated(s, act.t, act.p, was, act.data, p, a);
    }
  }

  lemma UndoStepIsolated(s: State, p: PageKey, a: nat)
    requires Tracks(s) && Possible(s, UndoNext) && Isolated(s.All(), p, a)
    ensures Isolated(UndoStep(s).All(), p, a)
  {
    hide Tracks, Global, Shape, Isolated, Reverted, LoserUpdate, UndoStep;
    TracksGlobal(s);
    if s.phase.next == 0 {
      UndoEndIs(s);
    } else {
      var r := s.All()[s.phase.next - 1];
      LoserUpdateIs(s, s.phase.next - 1);
      if LoserUpdate(s.All(), r) {
        UndoStepIs(s);
        RevertedAddsClr(s, r);
        LoserImages(s.All(), s.phase.next - 1, s);
        CompensationIsolated(s.All(), s.phase.next - 1, s.nextLsn, p, a);
      } else {
        UndoSkipIs(s);
      }
    }
  }

  lemma LoserImages(all: seq<Record>, k: nat, s: State)
    requires Shape(s) && all == s.All() && k < |all| && all[k].Update?
    ensures |all[k].undo| == |all[k].redo|
  {
    assert InBounds(all[k]);
  }

  lemma RevertedAddsClr(s: State, r: Record)
    requires Shape(s) && s.phase.Undo? && s.phase.next > 0 && r.Update? && InBounds(r) && r.page in s.disk
    ensures r.page in Fetch(s, r.page).frames
    ensures r.off + |r.undo| <= |Fetch(s, r.page).frames[r.page].data|
    ensures Reverted(Fetch(s, r.page), r).All() == s.All() + [Compensation(s.nextLsn, r)]
  {
    hide WellSized, Reverted;
    RevertedAll(Fetch(s, r.page), r);
    assert Fetch(s, r.page).All() == s.All();
  }

  lemma RecoveryStepIsolated(s: State, act: Action, p: PageKey, a: nat)
    requires Tracks(s) && Careful(s, act) && Recovering(s.phase) && Isolated(s.All(), p, a)
    ensures Isolated(Next(s, act).All(), p, a)
  {
    hide ByteHolds, LsnOrdered, IdsNotReused, CheckpointHolds, WellSized, PhaseHolds, FlushLog, WriteBack, Isolated,
      Fetch,
         RedoStep, UndoStep, EndStep, AnalysisOf;
    match act {
      case Analyse =>
      case RedoNext => RedoKeepsLog(s);
      case UndoNext => UndoStepIsolated(s, p, a);
      case EndLoser(t) =>
        EndStepLog(s, t);
        assert EndStep(s, t).All() == EndStep(s, t).log;
        IsolatedAppend(s.All(), Abort(s.nextLsn, t), p, a);
      case FinishRecovery =>
        assert FlushWholeLog(s).All() == s.All();
      case Resume =>
      case Crash =>
        CrashLog(s);
        IsolatedPrefix(s.log, s.buf, p, a);
      case _ => PoolStepLog(s, act);
    }
  }

  lemma StepIsolated(s: State, act: Action)
    requires Holds(s) && Enabled(s, act) && Global(Next(s, act))
    ensures AllIsolated(Next(s, act))
  {
    hide Tracks, Next, Isolated, ByteHolds, MayOverwrite;
    TracksGlobal(s);
    StepGrows(s, act);
    forall p, a: nat | AByte(s, p, a) ensures Isolated(Next(s, act).All(), p, a) {
      if act.UpdatePage? { UpdateStepIsolated(s, act, p, a); }
      else if s.phase.Up? { UpStepIsolated(s, act, p, a); }
      else { RecoveryStepIsolated(s, act, p, a); }
    }
  }

  /** Every enabled step keeps the invariant; every step of a recovery, and every crash during one,
      leaves the demanded content of every byte as it was. */
  lemma StepHolds(s: State, act: Action)
    requires Holds(s) && Enabled(s, act)
    ensures Holds(Next(s, act))
    ensures Recovering(s.phase) ==> SameEffect(s, Next(s, act))
  {
    hide Tracks, AllIsolated, Next, SameEffect, RespectsWrites;
    TracksGlobal(s);
    StepTracks(s, act);
    TracksGlobal(Next(s, act));
    StepIsolated(s, act);
  }

  // ---------------------------------------------------------------- runs

  /** The states follow each other by steps that the program can take, whatever its callers do. */
  ghost predicate Steps(run: seq<State>, acts: seq<Action>) {
    && |run| == |acts| + 1
    && forall i :: 0 <= i < |acts| ==>
      Shape(run[i]) && Possible(run[i], acts[i]) && run[i + 1] == Next(run[i], acts[i])
  }

  /** A run goes on with any step that can be taken where it ends. */
  lemma Snoc(run: seq<State>, acts: seq<Action>, act: Action) returns (run': seq<State>, acts': seq<Action>)
    requires Steps(run, acts) && Shape(run[|acts|]) && Possible(run[|acts|], act)
    ensures Steps(run', acts') && acts' == acts + [act] && run' == run + [Next(run[|acts|], act)]
    ensures IsRun(run, acts) && Enabled(run[|acts|], act) ==> IsRun(run', acts')
  {
    hide Shape, Possible, RespectsIds, RespectsUndo, RespectsWrites, Next;
    run', acts' := run + [Next(run[|acts|], act)], acts + [act];
  }

  /** Two runs, the second starting where the first ends, make one. */
  lemma JoinSteps(run: seq<State>, acts: seq<Action>, more: seq<State>, moreActs: seq<Action>)
    returns (run': seq<State>, acts': seq<Action>)
    requires Steps(run, acts) && Steps(more, moreActs) && more[0] == run[|acts|]
    ensures Steps(run', acts') && acts' == acts + moreActs && run' == run + more[1..]
    ensures forall i :: 0 <= i < |more| ==> run'[|acts| + i] == more[i]
    ensures forall i :: 0 <= i < |moreActs| ==> acts'[|acts| + i] == moreActs[i]
  {
    hide Shape, Possible, Next;
    run', acts' := run + more[1..], acts + moreActs;
    forall i | 0 <= i < |acts'|
      ensures Shape(run'[i]) && Possible(run'[i], acts'[i]) && run'[i + 1] == Next(run'[i], acts'[i])
    {
      if i >= |acts| {
        assert run'[i] == more[i - |acts|] && run'[i + 1] == more[i - |acts| + 1] && acts'[i] == moreActs[i - |acts|];
      }
    }
  }

  /** The states `run` follow each other by the actions `acts`, each of them enabled. */
  ghost predicate IsRun(run: seq<State>, acts: seq<Action>) {
    && |run| == |acts| + 1
    && forall i :: 0 <= i < |acts| ==> Shape(run[i]) && Enabled(run[i], acts[i]) && run[i + 1] == Next(run[i], acts[i])
  }

  lemma {:induction false} RunHolds(run: seq<State>, acts: seq<Action>, n: nat)
    requires IsRun(run, acts) && n < |run| && Holds(run[0])
    ensures Holds(run[n]) && run[n].base == run[0].base
  {
    hide Holds, Shape, Possible, RespectsIds, RespectsWrites, RespectsUndo, Next;
    if n > 0 {
      RunHolds(run, acts, n - 1);
      StepHolds(run[n - 1], acts[n - 1]);
      StepGrows(run[n - 1], acts[n - 1]);
    }
  }

  ghost predicate Grows(s: State, s': State) {
    s'.base == s.base && s.log <= s'.log
  }

  lemma FlushGrows(s: State, target: nat)
    ensures Grows(s, FlushLog(s, target))
  {
  }

  lemma WriteBackGrows(s: State, p: PageKey)
    requires p in s.frames
    ensures Grows(s, WriteBack(s, p))
  {
    hide FlushLog;
    FlushGrows(s, s.frames[p].pageLsn);
  }

  lemma UpdateGrows(s: State, t: nat, p: PageKey, was: seq<byte>, now: seq<byte>)
    requires p in s.frames && |was| == |now| && was != now
    ensures Grows(s, LogDiff(s, t, p, was, now))
  {
    hide DiffStart, DiffEnd;
  }

  lemma RedoKeepsLog(s: State)
    requires Shape(s) && s.phase.Redo? && s.phase.next <= |s.log|
    ensures RedoStep(s).base == s.base && RedoStep(s).log == s.log && RedoStep(s).buf == s.buf
  {
    hide WellSized, AnalysisOf, Splice, UpdateLsn, WriteFrame, Shape;
    ShapeBounds(s);
    if s.phase.next < |s.log| && Redoable(s.phase.an.dpt, s.log[s.phase.next]) {
      var r := s.log[s.phase.next];
      assert s.All()[s.phase.next] == r;
      assert InBounds(r) && r.page in s.disk;
      RedoOneKeepsLog(s, r);
    }
  }

  lemma ShapeBounds(s: State)
    requires Shape(s)
    ensures forall i :: 0 <= i < |s.All()| ==>
      InBounds(s.All()[i]) && (s.All()[i].IsWrite() ==> s.All()[i].page in s.disk)
    ensures forall p :: p in s.disk ==>
      |s.disk[p]| == PageSize(p) && (p in s.frames ==> |s.frames[p].data| == |s.disk[p]|)
  {
  }

  lemma RedoOneKeepsLog(s: State, r: Record)
    requires r.IsWrite() && r.page in s.disk && (r.page in s.frames ==> |s.frames[r.page].data| == |s.disk[r.page]|)
    requires r.off + |r.redo| <= |s.disk[r.page]|
    ensures RedoOne(s, r).base == s.base && RedoOne(s, r).log == s.log && RedoOne(s, r).buf == s.buf
  {
    hide Splice;
  }

  lemma UndoOneKeepsLog(s: State, r: Record)
    requires r.Update? && r.page in s.disk && (r.page in s.frames ==> |s.frames[r.page].data| == |s.disk[r.page]|)
    requires r.off + |r.undo| <= |s.disk[r.page]|
    ensures UndoOne(s, r).base == s.base && UndoOne(s, r).log == s.log
  {
    hide Splice;
  }

  lemma UndoKeepsLog(s: State)
    requires Shape(s) && s.phase.Undo? && s.phase.next <= |s.All()|
    ensures UndoStep(s).base == s.base && UndoStep(s).log == s.log
  {
    hide WellSized, UndoOne, Shape;
    ShapeBounds(s);
    if s.phase.next > 0 && s.All()[s.phase.next - 1].Update? && s.All()[s.phase.next - 1].txn in s.phase.losers {
      assert InBounds(s.All()[s.phase.next - 1]);
      UndoOneKeepsLog(s, s.All()[s.phase.next - 1]);
    }
  }

  lemma PageStepGrows(s: State, act: Action)
    requires Shape(s) && Possible(s, act)
    requires act.UpdatePage? || act.FlushPage? || act.EvictPage? || act.FetchPage? || act.RedoNext? || act.UndoNext?
    ensures Grows(s, Next(s, act))
  {
    hide LogDiff, RedoStep, UndoStep, WriteBack, WellSized;
    match act {
      case UpdatePage(t, p, data) =>
        if s.Cur(p) != data {
          UpdateGrows(WriteFrame(Fetch(s, p), p, data), t, p, s.Cur(p), data);
        }
      case RedoNext => RedoKeepsLog(s);
      case UndoNext => UndoKeepsLog(s);
      case FlushPage(p) => WriteBackGrows(s, p);
      case EvictPage(p) => WriteBackGrows(s, p);
      case FetchPage(p) =>
    }
  }

  lemma LogStepGrows(s: State, act: Action)
    requires Shape(s) && Possible(s, act)
    requires act.BeginTxn? || act.CommitTxn? || act.AbortTxn? || act.FlushLogTo? || act.TakeCheckpoint?
      || act.TornCheckpoint?
    ensures Grows(s, Next(s, act))
  {
    hide WellSized, FlushLog, CheckpointRecord, Shape;
    match act {
      case BeginTxn(t) =>
      case CommitTxn(t) => FlushGrows(Append(s, Commit(s.nextLsn, t)).(active := s.active - {t}), s.nextLsn);
      case AbortTxn(t) => FlushGrows(Append(s, Abort(s.nextLsn, t)).(active := s.active - {t}), s.nextLsn);
      case FlushLogTo(lsn) => FlushGrows(s, lsn);
      case TakeCheckpoint => FlushGrows(Append(s, CheckpointRecord(s)), s.nextLsn);
      case TornCheckpoint => FlushGrows(Append(s, CheckpointRecord(s)), s.nextLsn);
    }
  }

  lemma EndGrows(s: State, t: nat)
    requires s.phase.Ending?
    ensures Grows(s, EndStep(s, t))
  {
    hide FlushLog;
    FlushGrows(Append(s, Abort(s.nextLsn, t)).(active := s.active - {t}), s.nextLsn);
  }

  /** A step leaves the base images alone, and the log file only grows. */
  lemma StepGrows(s: State, act: Action)
    requires Shape(s) && Possible(s, act)
    ensures Grows(s, Next(s, act))
  {
    hide LogDiff, RedoStep, UndoStep, WriteBack, WellSized, AnalysisOf, Fetch, CheckpointStep, EndStep, FlushLog;
    if act.UpdatePage? || act.FlushPage? || act.EvictPage? || act.FetchPage? || act.RedoNext? || act.UndoNext? {
      PageStepGrows(s, act);
    } else if act.BeginTxn? || act.CommitTxn? || act.AbortTxn? || act.FlushLogTo? || act.TakeCheckpoint?
      || act.TornCheckpoint? {
      LogStepGrows(s, act);
    } else if act.EndLoser? {
      EndGrows(s, act.t);
    }
  }

  lemma SameEffectChain(s: State, s': State, s'': State)
    requires SameEffect(s, s') && SameEffect(s', s'')
    ensures SameEffect(s, s'')
  {
    hide Effective;
  }

  lemma {:induction false} EffectStays(run: seq<State>, acts: seq<Action>, c: nat, n: nat)
    requires IsRun(run, acts) && c <= n < |run| && Holds(run[0])
    requires forall i :: c <= i < n ==> Recovering(run[i].phase)
    ensures SameEffect(run[c], run[n])
    decreases n
  {
    hide Holds, Shape, Possible, RespectsIds, RespectsWrites, RespectsUndo, Next, Effective;
    if c < n {
      RunHolds(run, acts, n - 1);
      EffectStays(run, acts, c, n - 1);
      StepHolds(run[n - 1], acts[n - 1]);
      SameEffectChain(run[c], run[n - 1], run[n]);
    }
  }

  /** Crash safety from any state in which the invariant holds. */
  lemma RecoveryIsRight(run: seq<State>, acts: seq<Action>, c: nat, n: nat, p: PageKey, a: nat)
    requires IsRun(run, acts) && c < n < |run| && Holds(run[0])
    requires run[c].phase.Down? && run[n].phase.Recovered?
    requires forall i :: c <= i < n ==> Recovering(run[i].phase)
    requires p in run[0].base && a < PageSize(p)
    ensures Shape(run[n]) && run[n].base == run[0].base
    ensures run[n].Cur(p)[a] == Effective(run[c].log, p, a, run[0].base[p][a])
  {
    EffectStays(run, acts, c, n);
    RunHolds(run, acts, c);
    RunHolds(run, acts, n);
    assert AByte(run[n], p, a) && ByteHolds(run[n], p, a);
  }

  /** Crash safety.  Take any run from a fresh database, any moment `c` in it at which the system is
      down, and any later moment `n` at which a recovery has finished with no return to normal
      operation in between; evictions, log flushes and further crashes may have interrupted the
      recovery any number of times.  Then every byte of every page is what replaying, from the log
      that was durable at `c`, only transaction 0 and the transactions with a Commit or Abort gives. */
  lemma RecoveryIsCorrect(run: seq<State>, acts: seq<Action>, c: nat, n: nat, p: PageKey, a: nat)
    requires IsRun(run, acts) && c < n < |run| && Initial(run[0])
    requires run[c].phase.Down? && run[n].phase.Recovered?
    requires forall i :: c <= i < n ==> Recovering(run[i].phase)
    requires p in run[0].base && a < PageSize(p)
    ensures Shape(run[n]) && run[n].base == run[0].base
    ensures run[n].Cur(p)[a] == Effective(run[c].log, p, a, run[0].base[p][a])
  {
    InitialHolds(run[0]);
    RecoveryIsRight(run, acts, c, n, p, a);
  }

  // ---------------------------------------------------------------- what follows from it

  /** A second recovery after a completed one changes no byte, even if crashes lie in between ... */
  lemma RecoverAgain(run: seq<State>, acts: seq<Action>, c: nat, n: nat, m: nat, p: PageKey, a: nat)
    requires IsRun(run, acts) && c < n <= m < |run| && Initial(run[0])
    requires run[c].phase.Down? && run[n].phase.Recovered? && run[m].phase.Recovered?
    requires forall i :: c <= i < m ==> Recovering(run[i].phase)
    requires p in run[0].base && a < PageSize(p)
    ensures Shape(run[n]) && Shape(run[m]) && p in run[n].disk && p in run[m].disk
    ensures |run[n].Cur(p)| == |run[m].Cur(p)| == PageSize(p)
    ensures run[m].Cur(p)[a] == run[n].Cur(p)[a]
  {
    RecoveryIsCorrect(run, acts, c, n, p, a);
    RecoveryIsCorrect(run, acts, c, m, p, a);
  }

  /** ... and finds no transaction to undo. */
  lemma NothingToUndo(s: State)
    requires Holds(s) && s.phase.Recovered?
    ensures AnalysisOf(CrashOf(s).log, CrashOf(s).chkLsn).att.Keys - {0} == {}
  {
    assert s.All() == s.log;
    forall t ensures t !in AnalysisOf(s.log, s.chkLsn).att.Keys - {0} {
      LosersAreOpen(s.log, s.chkLsn, s.diskNext, t);
    }
  }

  lemma {:induction false} LogKept(run: seq<State>, acts: seq<Action>, i: nat, n: nat)
    requires IsRun(run, acts) && i <= n < |run|
    ensures run[i].log <= run[n].log
    decreases n
  {
    hide Shape, Possible, RespectsIds, RespectsWrites, RespectsUndo, Next, Initial;
    if i < n {
      LogKept(run, acts, i, n - 1);
      StepGrows(run[n - 1], acts[n - 1]);
    }
  }

  /** Durability: once a commit has returned, every record its transaction had written is in the
      log file at every later moment, whatever crashes, and counts as effective. */
  lemma CommitIsDurable(run: seq<State>, acts: seq<Action>, i: nat, n: nat, t: nat, k: nat)
    requires IsRun(run, acts) && i < |acts| && i < n < |run| && Initial(run[0])
    requires acts[i] == CommitTxn(t)
    requires k < |run[i].All()| && run[i].All()[k].IsWrite() && run[i].All()[k].txn == t
    ensures Ended(run[n].log, t)
    ensures k < |run[n].log| && run[n].log[k] == run[i].All()[k] && Kept(run[n].log, run[n].log[k])
  {
    hide ByteHolds, LsnOrdered, IdsNotReused, CheckpointHolds, WellSized, PhaseHolds, Isolated;
    InitialHolds(run[0]);
    RunHolds(run, acts, i);
    var s := run[i];
    EndTracks(s, Commit(s.nextLsn, t));
    LogKept(run, acts, i + 1, n);
    var end := |s.All()|;
    assert run[i + 1].log == s.All() + [Commit(s.nextLsn, t)];
    assert run[n].log[end] == run[i + 1].log[end] == Commit(s.nextLsn, t);
    assert run[n].log[end].IsEnd();
    assert run[n].log[k] == run[i + 1].log[k];
  }

  lemma ForcedLog(s: State, p: PageKey)
    requires Holds(s) && p in s.frames
    ensures forall r :: r in ForceFor(s, p).buf ==> r.lsn > s.frames[p].pageLsn
  {
    hide ByteHolds, IdsNotReused, CheckpointHolds, PhaseHolds, WellSized;
    var f := s.frames[p].pageLsn;
    var k := FlushCount(s.buf, f);
    forall j | (if f > 0 then k else 0) <= j < |s.buf| ensures s.buf[j].lsn > f {
      assert s.All()[|s.log| + j] == s.buf[j];
      if f > 0 && k < j {
        assert s.All()[|s.log| + k] == s.buf[k];
        assert s.All()[|s.log| + k].lsn < s.All()[|s.log| + j].lsn;
      }
    }
  }

  lemma ForcedPage(s: State, p: PageKey)
    requires Holds(s) && p in s.frames && s.phase.Up?
    ensures forall r :: r in ForceFor(s, p).buf && r.IsWrite() ==> r.page != p
  {
    hide ByteHolds, LsnOrdered, IdsNotReused, CheckpointHolds, WellSized;
    ForceForGlobal(s, p);
    var s1 := ForceFor(s, p);
    forall j | 0 <= j < |s1.buf| && s1.buf[j].IsWrite() ensures s1.buf[j].page != p {
      assert s1.All()[|s1.log| + j] == s1.buf[j];
    }
  }

  /** Log before page: when a dirty page goes to its file, by a flush or by an eviction, every
      record up to the page's LSN is in the log file, and during normal operation so is every
      record that ever touched the page. */
  lemma PageWrittenAfterLog(run: seq<State>, acts: seq<Action>, i: nat, p: PageKey)
    requires IsRun(run, acts) && i < |acts| && Initial(run[0])
    requires acts[i] == FlushPage(p) || acts[i] == EvictPage(p)
    requires p in run[i].dirty && p in run[i].frames
    ensures run[i + 1].disk == run[i].disk[p := run[i].frames[p].data]
    ensures forall r :: r in run[i + 1].buf ==> r.lsn > run[i].frames[p].pageLsn
    ensures run[i].phase.Up? ==> forall r :: r in run[i + 1].buf && r.IsWrite() ==> r.page != p
  {
    hide Holds, Shape, Initial;
    InitialHolds(run[0]);
    RunHolds(run, acts, i);
    ForcedLog(run[i], p);
    if run[i].phase.Up? {
      ForcedPage(run[i], p);
    }
  }
}
