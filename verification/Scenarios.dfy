/** Three runs, for any database, any page of it and any change of that page: in the first, recovery rolls
    back a committed transaction because its id was used again; in the second, it restores a loser's
    before-image over a committed byte; in the third, it leaves a page dirty that no checkpoint will
    know how to redo. */
module Scenarios {
  import opened Records
  import opened Engine
  import opened EngineLog
  import opened EngineInv
  import opened EngineFlush
  import opened EngineUp
  import opened EngineRecover
  import opened CrashSafety
  import opened ReusedIds
  import opened Unrepairable
  import opened Overwrites

  // ---------------------------------------------------------------- single steps

  /** A run goes on; where the step is one of a recovery, a crash, or one of the pool, callers have
      nothing to respect. */
  lemma Goes(run: seq<State>, acts: seq<Action>, act: Action) returns (run': seq<State>, acts': seq<Action>)
    requires Steps(run, acts) && Initial(run[0]) && Shape(run[|acts|]) && Possible(run[|acts|], act)
    ensures Steps(run', acts') && acts' == acts + [act] && run' == run + [Next(run[|acts|], act)]
    ensures |run'| == |acts'| + 1 && run'[|acts'|] == Next(run[|acts|], act) && run'[0] == run[0]
    ensures Shape(run'[|acts'|])
    ensures IsRun(run, acts) && Enabled(run[|acts|], act) ==> IsRun(run', acts')
    ensures forall i :: 0 <= i < |run| ==> run'[i] == run[i]
  {
    hide Shape, Possible, RespectsIds, RespectsUndo, RespectsWrites, Next, Initial;
    run', acts' := Snoc(run, acts, act);
    RunTables(run', acts', |acts'|);
  }

  lemma StepsLength(run: seq<State>, acts: seq<Action>)
    requires Steps(run, acts)
    ensures |run| == |acts| + 1
  {
  }

  lemma FreelyEnabled(s: State, act: Action)
    requires Shape(s) && Possible(s, act)
    requires !act.BeginTxn? && !act.UpdatePage? && !act.CommitTxn? && !act.AbortTxn? && !act.Resume?
    ensures Enabled(s, act)
  {
  }

  /** A flush that reaches the newest record empties the buffer. */
  lemma FlushesAll(s: State, target: nat)
    requires s.buf != [] && forall i :: 0 <= i < |s.buf| ==> s.buf[i].lsn <= target
    ensures FlushLog(s, target) == s.(log := s.All(), buf := [], diskNext := s.nextLsn)
  {
    FlushNewest(s, target);
  }

  lemma UpdatedState(s: State, t: nat, p: PageKey, now: seq<byte>)
    requires Shape(s) && s.phase.Up? && p in s.base && p !in s.frames && |now| == PageSize(p) && now != s.disk[p]
    requires t != 0
    ensures Possible(s, UpdatePage(t, p, now))
    ensures Next(s, UpdatePage(t, p, now))
      == s.(frames := s.frames[p := Frame(now, s.nextLsn, s.nextLsn)],
            dirty := s.dirty + {p}, buf := s.buf + [DiffRecord(s.nextLsn, t, p, s.disk[p], now)],
            nextLsn := s.nextLsn + 1, active := s.active[t := s.nextLsn])
  {
    hide WellSized, DiffRecord;
    DiffRecordIs(s.nextLsn, t, p, s.disk[p], now);
    LogDiffIsChanged(Fetch(s, p), t, p, now);
  }

  lemma CrashNext(s: State)
    requires Shape(s) && s.buf == [] && s.nextLsn == s.diskNext
    ensures Possible(s, Crash) && Next(s, Crash) == s.(frames := map[], dirty := {}, active := map[], phase := Down)
  {
  }

  lemma RedoSkips(s: State)
    requires Shape(s) && s.phase.Redo? && s.phase.next < |s.log| && !Redoable(s.phase.an.dpt, s.log[s.phase.next])
    ensures Possible(s, RedoNext) && Next(s, RedoNext) == s.(phase := Redo(s.phase.next + 1, s.phase.an))
  {
    RedoSkipIs(s);
  }

  lemma UndoSkips(s: State)
    requires Shape(s) && s.phase.Undo? && 0 < s.phase.next <= |s.log| && !s.log[s.phase.next - 1].Update?
    ensures Possible(s, UndoNext)
    ensures Next(s, UndoNext) == s.(phase := Undo(s.phase.logged, s.phase.next - 1, s.phase.losers))
  {
    assert s.All()[s.phase.next - 1] == s.log[s.phase.next - 1];
  }

  /** The page content after transaction 1's only Update is undone. */
  lemma UndoneState(s: State, p: PageKey, lsn: nat, was: seq<byte>, now: seq<byte>)
    requires Shape(s) && s.phase.Undo? && 0 < s.phase.next <= |s.log| && s.phase.losers == {1} && s.buf == []
    requires p in s.disk && |was| == |now| && was != now && s.log[s.phase.next - 1] == DiffRecord(lsn, 1, p, was, now)
    requires s.Cur(p) == now
    ensures Possible(s, UndoNext)
    ensures var s' := Next(s, UndoNext);
            && s'.phase == Undo(s.phase.logged, s.phase.next - 1, s.phase.losers) && s'.log == s.log
            && s'.disk == s.disk
            && s'.base == s.base && s'.nextLsn == s.nextLsn + 1 && |s'.buf| == 1 && s'.buf[0].Clr?
            && s'.buf[0].lsn == s.nextLsn && s'.dirty == s.dirty + {p} && p in s'.frames && s'.frames[p].data == was
            && s'.frames[p].recLsn == (if p in s.frames then s.frames[p].recLsn else 0)
  {
    hide WellSized, Splice, DiffRecord;
    var r := DiffRecord(lsn, 1, p, was, now);
    DiffRecordIs(lsn, 1, p, was, now);
    DiffImages(lsn, p, was, now);
    assert s.All()[s.phase.next - 1] == r;
  }

  lemma DiffImages(lsn: nat, p: PageKey, was: seq<byte>, now: seq<byte>)
    requires |was| == |now| && was != now
    ensures var r := DiffRecord(lsn, 1, p, was, now);
            && r.Update? && r.off + |r.undo| <= |now| && r.off + |r.redo| <= |was|
            && Splice(now, r.off, r.undo) == was && Splice(was, r.off, r.redo) == now
  {
    DiffRoundTrip(was, now);
  }

  // ---------------------------------------------------------------- the end of both runs

  lemma UndoEnds(s: State)
    requires Shape(s) && s.phase.Undo? && s.phase.next == 0
    ensures Possible(s, UndoNext) && Next(s, UndoNext) == s.(phase := Ending(s.phase.losers))
  {
  }

  lemma LoserEnds(s: State)
    requires Shape(s) && s.phase == Ending({1}) && |s.buf| == 1 && s.buf[0].lsn < s.nextLsn
    ensures Possible(s, EndLoser(1))
    ensures var s' := Next(s, EndLoser(1));
            && s'.phase == Ending({}) && s'.buf == [] && s'.frames == s.frames && s'.dirty == s.dirty
            && s'.disk == s.disk && s'.base == s.base
  {
    hide Shape, FlushLog;
    FlushesAll(Append(s, Abort(s.nextLsn, 1)).(active := s.active - {1}), s.nextLsn);
  }

  lemma Finishes(s: State)
    requires Shape(s) && s.phase == Ending({}) && s.buf == []
    ensures Possible(s, FinishRecovery) && Next(s, FinishRecovery) == s.(phase := Recovered)
  {
  }

  lemma EndingSteps(run0: seq<State>, acts0: seq<Action>) returns (run: seq<State>, acts: seq<Action>)
    requires Steps(run0, acts0) && Initial(run0[0]) && Shape(run0[|acts0|])
    requires var u := run0[|acts0|]; u.phase == Ending({1}) && |u.buf| == 1 && u.buf[0].lsn < u.nextLsn
    ensures Steps(run, acts) && run[0] == run0[0] && |acts| == |acts0| + 2 && run0 <= run
    ensures IsRun(run0, acts0) ==> IsRun(run, acts)
    ensures var u, e := run0[|acts0|], run[|acts|];
            && e.phase.Recovered? && e.disk == u.disk && e.base == u.base && e.frames == u.frames && e.dirty == u.dirty
  {
    hide Shape, Possible, Next, Initial, Enabled;
    LoserEnds(run0[|acts0|]);
    FreelyEnabled(run0[|acts0|], EndLoser(1));
    run, acts := Goes(run0, acts0, EndLoser(1));
    Finishes(run[|acts|]);
    FreelyEnabled(run[|acts|], FinishRecovery);
    run, acts := Goes(run, acts, FinishRecovery);
  }

  /** From the point where undo reaches transaction 1's Update: it is reverted, transaction 1 is
      ended, and the recovery is complete. */
  lemma LastSteps(run0: seq<State>, acts0: seq<Action>, p: PageKey, lsn: nat, was: seq<byte>, now: seq<byte>)
    returns (run: seq<State>, acts: seq<Action>)
    requires Steps(run0, acts0) && Initial(run0[0]) && Shape(run0[|acts0|])
    requires var u := run0[|acts0|];
             && u.phase.Undo? && u.phase.next == 2 && u.phase.losers == {1} && u.buf == [] && p in u.disk
             && |u.log| >= 2 && u.log[0].Begin? && u.Cur(p) == now
             && |was| == |now| && was != now && u.log[1] == DiffRecord(lsn, 1, p, was, now)
    ensures Steps(run, acts) && run[0] == run0[0] && |acts| == |acts0| + 5 && run0 <= run
    ensures IsRun(run0, acts0) ==> IsRun(run, acts)
    ensures var u, e := run0[|acts0|], run[|acts|];
            && e.phase.Recovered? && e.disk == u.disk && e.base == u.base && p in e.frames && p in e.dirty
            && e.frames[p].data == was && e.frames[p].recLsn == (if p in u.frames then u.frames[p].recLsn else 0)
  {
    hide Shape, DiffRecord, Possible, Next, Initial, Enabled, Steps, IsRun;
    StepsLength(run0, acts0);
    UndoneState(run0[|acts0|], p, lsn, was, now);
    FreelyEnabled(run0[|acts0|], UndoNext);
    run, acts := Goes(run0, acts0, UndoNext);
    UndoSkips(run[|acts|]);
    FreelyEnabled(run[|acts|], UndoNext);
    run, acts := Goes(run, acts, UndoNext);
    UndoEnds(run[|acts|]);
    FreelyEnabled(run[|acts|], UndoNext);
    run, acts := Goes(run, acts, UndoNext);
    run, acts := EndingSteps(run, acts);
  }

  lemma RedoEnds(s: State)
    requires Shape(s) && s.phase.Redo? && s.phase.next == |s.log|
    ensures Possible(s, RedoNext)
    ensures Next(s, RedoNext) == s.(phase := Undo(|s.log|, |s.log|, s.phase.an.att.Keys - {0}))
  {
  }

  /** Redo passes over the rest of the log when nothing in it is to be repeated. */
  lemma {:induction false} RedoRest(run0: seq<State>, acts0: seq<Action>) returns (run: seq<State>, acts: seq<Action>)
    requires Steps(run0, acts0) && Initial(run0[0]) && Shape(run0[|acts0|])
    requires var s := run0[|acts0|];
             && s.phase.Redo? && s.phase.next <= |s.log|
             && forall i :: s.phase.next <= i < |s.log| ==> !Redoable(s.phase.an.dpt, s.log[i])
    ensures Steps(run, acts) && run[0] == run0[0] && Shape(run[|acts|]) && run0 <= run
    ensures IsRun(run0, acts0) ==> IsRun(run, acts)
    ensures var s, n := run0[|acts0|], |run0[|acts0|].log|;
            run[|acts|] == s.(phase := Undo(n, n, s.phase.an.att.Keys - {0}))
    decreases |run0[|acts0|].log| - run0[|acts0|].phase.next
  {
    hide Shape, Possible, Next, Initial, Enabled, Redoable;
    var s := run0[|acts0|];
    FreelyEnabledRedo(s);
    if s.phase.next == |s.log| {
      RedoEnds(s);
      run, acts := Goes(run0, acts0, RedoNext);
    } else {
      RedoSkips(s);
      run, acts := Goes(run0, acts0, RedoNext);
      run, acts := RedoRest(run, acts);
    }
  }

  lemma FreelyEnabledRedo(s: State)
    requires Shape(s) && s.phase.Redo? && s.phase.next <= |s.log|
    ensures Possible(s, RedoNext) && Enabled(s, RedoNext)
  {
    FreelyEnabled(s, RedoNext);
  }

  // ---------------------------------------------------------------- a run that undoes a commit

  /** The log of the run below: transaction 1 changes a page and commits, and its id is taken again. */
  function ReuseLog(p: PageKey, was: seq<byte>, now: seq<byte>): seq<Record>
    requires |was| == |now| && was != now
  {
    [Begin(1, 1), DiffRecord(2, 1, p, was, now), Commit(3, 1), Begin(4, 1)]
  }

  /** The state in which the crash leaves that run. */
  function ReuseDown(s0: State, p: PageKey, now: seq<byte>): State
    requires p in s0.base && |now| == |s0.base[p]| && now != s0.base[p]
  {
    s0.(log := ReuseLog(p, s0.base[p], now), nextLsn := 5, diskNext := 5, phase := Down)
  }

  lemma ReuseUpdate(s0: State, p: PageKey, now: seq<byte>)
    requires Initial(s0) && p in s0.base && |now| == PageSize(p) && now != s0.base[p]
    ensures var s1 := s0.(buf := [Begin(1, 1)], nextLsn := 2, active := map[1 := 1]);
            && Shape(s0) && Tables(s0) && Possible(s0, BeginTxn(1)) && Next(s0, BeginTxn(1)) == s1 && Shape(s1)
            && Possible(s1, UpdatePage(1, p, now))
            && Next(s1, UpdatePage(1, p, now))
              == s0.(frames := map[p := Frame(now, 2, 2)], dirty := {p}, nextLsn := 3, active := map[1 := 2],
                     buf := [Begin(1, 1), DiffRecord(2, 1, p, s0.base[p], now)])
  {
    hide WellSized, DiffRecord, Tables;
    InitialTables(s0);
    StepTables(s0, BeginTxn(1));
    UpdatedState(Next(s0, BeginTxn(1)), 1, p, now);
  }

  lemma ReuseCommit(s2: State, r: Record, s0: State, p: PageKey, now: seq<byte>)
    requires s2 == s0.(frames := map[p := Frame(now, 2, 2)], dirty := {p}, nextLsn := 3, active := map[1 := 2],
                       buf := [Begin(1, 1), r])
    requires s0.log == [] && s0.phase.Up? && Shape(s2) && r.lsn == 2
    ensures Possible(s2, Action.CommitTxn(1))
    ensures Next(s2, Action.CommitTxn(1))
      == s2.(log := [Begin(1, 1), r, Commit(3, 1)], buf := [], nextLsn := 4, diskNext := 4, active := map[])
  {
    hide Shape, FlushLog;
    var s3 := Append(s2, Commit(3, 1)).(active := s2.active - {1});
    assert s3.buf == [Begin(1, 1), r, Commit(3, 1)] && s3.active == map[];
    FlushesAll(s3, 3);
    assert s3.All() == [] + s3.buf;
  }

  lemma ReuseAgain(s3: State)
    requires Shape(s3) && s3.phase.Up? && s3.buf == [] && s3.nextLsn == 4 && s3.active == map[]
    ensures Possible(s3, BeginTxn(1))
    ensures var s4 := s3.(buf := [Begin(4, 1)], nextLsn := 5, active := map[1 := 4]);
            && Next(s3, BeginTxn(1)) == s4
            && FlushLog(s4, 4) == s4.(log := s3.log + [Begin(4, 1)], buf := [], diskNext := 5)
  {
    hide Shape, FlushLog;
    FlushesAll(s3.(buf := [Begin(4, 1)], nextLsn := 5, active := map[1 := 4]), 4);
  }

  lemma FlushNext(s: State, target: nat)
    requires Shape(s)
    ensures Possible(s, FlushLogTo(target)) && Next(s, FlushLogTo(target)) == FlushLog(s, target)
  {
  }

  lemma ReuseStart(s0: State, p: PageKey, now: seq<byte>) returns (run: seq<State>, acts: seq<Action>)
    requires Initial(s0) && p in s0.base && |now| == PageSize(p) && now != s0.base[p]
    ensures Steps(run, acts) && run[0] == s0 && run[|acts|] == ReuseDown(s0, p, now)
  {
    hide Shape, TablesHold, DiffRecord, Possible, Next, Initial;
    InitialTables(s0);
    InitialIs(s0);
    var r := DiffRecord(2, 1, p, s0.base[p], now);
    DiffRecordIs(2, 1, p, s0.base[p], now);
    ReuseUpdate(s0, p, now);
    run, acts := Goes([s0], [], BeginTxn(1));
    run, acts := Goes(run, acts, UpdatePage(1, p, now));
    ReuseCommit(run[2], r, s0, p, now);
    run, acts := Goes(run, acts, Action.CommitTxn(1));
    ReuseAgain(run[3]);
    run, acts := Goes(run, acts, BeginTxn(1));
    FlushNext(run[4], 4);
    run, acts := Goes(run, acts, FlushLogTo(4));
    CrashNext(run[5]);
    run, acts := Goes(run, acts, Crash);
    assert run[5].log == ReuseLog(p, s0.base[p], now);
    assert run[5].(frames := map[], dirty := {}, active := map[], phase := Down) == ReuseDown(s0, p, now);
  }

  /** The analysis of that log takes transaction 1 for a loser. */
  lemma ReuseAnalysis(p: PageKey, was: seq<byte>, now: seq<byte>)
    requires |was| == |now| && was != now
    ensures AnalysisOf(ReuseLog(p, was, now), 0) == Analysis(map[p := 2], map[1 := 4])
  {
    hide DiffRecord;
    DiffRecordIs(2, 1, p, was, now);
    var log, none := ReuseLog(p, was, now), Analysis(map[], map[]);
    assert Scan(log, 0, 0, none) == none;
    assert Scan(log, 1, 0, none) == Analysis(map[], map[1 := 1]);
    assert Scan(log, 2, 0, none) == Analysis(map[p := 2], map[1 := 2]);
    assert Scan(log, 3, 0, none).att == map[1 := 2] - {1} == map[];
    assert Scan(log, 4, 0, none) == Analysis(map[p := 2], map[1 := 4]);
  }

  lemma ReuseRedoable(p: PageKey, was: seq<byte>, now: seq<byte>)
    requires |was| == |now| && was != now
    ensures forall i :: 0 <= i < 4 && i != 1 ==> !Redoable(map[p := 2], ReuseLog(p, was, now)[i])
  {
  }

  /** Redo of that log brings the change back. */
  lemma ReuseRedo(run0: seq<State>, acts0: seq<Action>, s0: State, p: PageKey, now: seq<byte>)
    returns (run: seq<State>, acts: seq<Action>)
    requires Initial(s0) && p in s0.base && |now| == PageSize(p) && now != s0.base[p]
    requires Steps(run0, acts0) && run0[0] == s0 && run0[|acts0|] == ReuseDown(s0, p, now)
    ensures Steps(run, acts) && run[0] == s0 && run0 <= run
    ensures var s, log := run[|acts|], ReuseLog(p, s0.base[p], now);
            && Shape(s) && s.phase == Undo(4, 4, {1}) && s.buf == [] && s.log == log && s.base == s0.base && p in s.disk
            && s.Cur(p) == now
  {
    hide Shape, DiffRecord, Possible, Next, Initial, Enabled, AnalysisOf, Redoable, Steps, IsRun;
    StepsLength(run0, acts0);
    InitialIs(s0);
    ReuseRedoable(p, s0.base[p], now);
    var d := run0[|acts0|];
    DiffRecordIs(2, 1, p, s0.base[p], now);
    RunTables(run0, acts0, |acts0|);
    ReuseAnalysis(p, s0.base[p], now);
    AnalyseNext(d);
    run, acts := Goes(run0, acts0, Analyse);
    RedoSkips(run[|acts|]);
    run, acts := Goes(run, acts, RedoNext);
    RedoBrings(run[|acts|], p, 2, s0.base[p], now);
    run, acts := Goes(run, acts, RedoNext);
    run, acts := RedoRest(run, acts);
  }

  /** What an initial state holds besides its pages. */
  predicate InitialFields(s0: State) {
    && s0.frames == map[] && s0.dirty == {} && s0.active == map[] && s0.disk == s0.base && s0.log == s0.buf == []
    && s0.chkLsn == 0 && s0.phase.Up? && s0.nextLsn == s0.diskNext == 1
  }

  lemma InitialIs(s0: State)
    requires Initial(s0)
    ensures InitialFields(s0)
    ensures forall p :: p in s0.base ==> |s0.base[p]| == PageSize(p)
  {
  }

  lemma AnalyseNext(s: State)
    requires Shape(s) && s.phase.Down?
    ensures Possible(s, Analyse) && Next(s, Analyse) == s.(phase := Redo(0, AnalysisOf(s.log, s.chkLsn)))
  {
  }

  lemma RedoBrings(s: State, p: PageKey, lsn: nat, was: seq<byte>, now: seq<byte>)
    requires Shape(s) && s.phase.Redo? && s.phase.next < |s.log| && p in s.phase.an.dpt && s.phase.an.dpt[p] <= lsn
    requires |was| == |now| && was != now && s.log[s.phase.next] == DiffRecord(lsn, 1, p, was, now)
    requires p in s.disk && s.Cur(p) == was
    ensures Possible(s, RedoNext)
    ensures var s' := Next(s, RedoNext);
            && s'.phase == Redo(s.phase.next + 1, s.phase.an) && s'.log == s.log && s'.buf == s.buf && s'.disk == s.disk
            && s'.base == s.base && s'.Cur(p) == now
  {
    hide WellSized, Splice, DiffRecord;
    DiffRecordIs(lsn, 1, p, was, now);
    DiffImages(lsn, p, was, now);
    RedoStepIs(s);
  }

  /** A run of the program in which recovery rolls back a committed transaction.  Transaction 1
      changes a page and commits; its id is begun again, and the system crashes.  The log file holds
      the Commit, so the change is what the log demands; the recovery that follows restores the old
      content. */
  lemma CommitUndone(s0: State, p: PageKey, now: seq<byte>) returns (run: seq<State>, acts: seq<Action>, c: nat)
    requires Initial(s0) && p in s0.base && |now| == PageSize(p) && now != s0.base[p]
    ensures Steps(run, acts) && run[0] == s0 && c < |acts| && run[c].phase.Down? && run[|acts|].phase.Recovered?
    ensures Commit(3, 1) in run[c].log
    ensures forall a: nat :: a < PageSize(p) ==> Effective(run[c].log, p, a, s0.base[p][a]) == now[a]
    ensures p in run[|acts|].disk && run[|acts|].Cur(p) == s0.base[p]
  {
    hide Shape, DiffRecord, Possible, Next, Initial, Effective;
    InitialIs(s0);
    run, acts := ReuseStart(s0, p, now);
    c := |acts|;
    assert run[c].log[2] == Commit(3, 1);
    forall a: nat | a < PageSize(p) ensures Effective(run[c].log, p, a, s0.base[p][a]) == now[a] {
      ReuseDemands(p, s0.base[p], now, a);
    }
    var redo, redoActs := ReuseRedo(run, acts, s0, p, now);
    var undo, undoActs := redo, redoActs;
    UndoSkips(undo[|undoActs|]);
    undo, undoActs := Goes(undo, undoActs, UndoNext);
    UndoSkips(undo[|undoActs|]);
    undo, undoActs := Goes(undo, undoActs, UndoNext);
    assert undo[c] == run[c];
    run, acts := LastSteps(undo, undoActs, p, 2, s0.base[p], now);
    RunTables(run, acts, |acts|);
    FramesOnDisk(run[|acts|], p);
  }

  lemma FramesOnDisk(s: State, p: PageKey)
    requires Shape(s) && p in s.frames
    ensures p in s.disk
  {
  }

  lemma ReuseDemands(p: PageKey, was: seq<byte>, now: seq<byte>, a: nat)
    requires |was| == |now| == PageSize(p) && was != now && a < |now|
    ensures Effective(ReuseLog(p, was, now), p, a, was[a]) == now[a]
  {
    hide DiffRecord;
    DiffRecordIs(2, 1, p, was, now);
    DiffDescribes(2, 1, p, was, now);
    var log := ReuseLog(p, was, now);
    assert log[2].IsEnd() && log[2].txn == 1;
    assert Ended(log, 1);
    assert Describes(log[1], was, now, a) && Kept(log, log[1]);
    assert ReplayKept(log, 0, p, a, was[a]) == ReplayKept(log, 1, p, a, was[a]) == was[a];
    assert ReplayKept(log, 2, p, a, was[a]) == now[a];
    assert ReplayKept(log, 4, p, a, was[a]) == ReplayKept(log, 3, p, a, was[a]) == ReplayKept(log, 2, p, a, was[a]);
  }

  // ---------------------------------------------------------------- a run that overwrites a commit

  /** The log of the run below: transaction 2 overwrites a byte of the open transaction 1, and commits. */
  function OverwriteLog(p: PageKey, was: seq<byte>, mid: seq<byte>, now: seq<byte>): seq<Record>
    requires |was| == |mid| == |now| && was != mid && mid != now
  {
    [Begin(1, 1), DiffRecord(2, 1, p, was, mid), DiffRecord(3, 2, p, mid, now), Commit(4, 2)]
  }

  lemma UpdatedAgain(s: State, t: nat, p: PageKey, now: seq<byte>)
    requires Shape(s) && s.phase.Up? && p in s.base && p in s.frames && |now| == PageSize(p) && now != s.frames[p].data
    requires t != 0 && s.frames[p].recLsn > 0
    ensures Possible(s, UpdatePage(t, p, now)) && |s.frames[p].data| == |now|
    ensures Next(s, UpdatePage(t, p, now))
      == s.(frames := s.frames[p := Frame(now, s.nextLsn, s.frames[p].recLsn)],
            dirty := s.dirty + {p}, buf := s.buf + [DiffRecord(s.nextLsn, t, p, s.frames[p].data, now)],
            nextLsn := s.nextLsn + 1, active := s.active[t := s.nextLsn])
  {
    hide WellSized, DiffRecord;
    DiffRecordIs(s.nextLsn, t, p, s.frames[p].data, now);
    LogDiffIsChanged(s, t, p, now);
  }

  lemma OverwriteCommit(s3: State, s0: State, p: PageKey, now: seq<byte>, r: Record, r': Record)
    requires s3 == s0.(frames := map[p := Frame(now, 3, 2)], dirty := {p}, nextLsn := 4, active := map[1 := 2, 2 := 3],
                       buf := [Begin(1, 1), r, r'])
    requires s0.log == [] && s0.phase.Up? && Shape(s3) && r.lsn == 2 && r'.lsn == 3
    ensures Possible(s3, Action.CommitTxn(2))
    ensures Next(s3, Action.CommitTxn(2))
      == s3.(log := [Begin(1, 1), r, r', Commit(4, 2)], buf := [], nextLsn := 5, diskNext := 5, active := map[1 := 2])
  {
    hide Shape, FlushLog;
    var s4 := Append(s3, Commit(4, 2)).(active := s3.active - {2});
    assert s4.buf == [Begin(1, 1), r, r', Commit(4, 2)] && s4.active == map[1 := 2];
    FlushesAll(s4, 4);
    assert s4.All() == [] + s4.buf;
  }

  lemma OverwriteSecond(s2: State, s0: State, p: PageKey, mid: seq<byte>, now: seq<byte>, r: Record)
    requires s2 == s0.(frames := map[p := Frame(mid, 2, 2)], dirty := {p}, nextLsn := 3, active := map[1 := 2],
                       buf := [Begin(1, 1), r])
    requires s0.log == [] && s0.phase.Up? && Shape(s2) && p in s0.base && |mid| == |now| == PageSize(p) && now != mid
    requires r.Update?
    ensures Possible(s2, UpdatePage(2, p, now)) && RespectsIds(s2, UpdatePage(2, p, now))
    ensures Next(s2, UpdatePage(2, p, now))
      == s0.(frames := map[p := Frame(now, 3, 2)], dirty := {p}, nextLsn := 4, active := map[1 := 2, 2 := 3],
             buf := [Begin(1, 1), r, DiffRecord(3, 2, p, mid, now)])
  {
    hide Shape, DiffRecord, Possible, Next, RespectsIds;
    UpdatedAgain(s2, 2, p, now);
    NoEndIds(s2, UpdatePage(2, p, now));
    assert [Begin(1, 1), r] + [DiffRecord(3, 2, p, mid, now)] == [Begin(1, 1), r, DiffRecord(3, 2, p, mid, now)];
    assert s2.frames[p := Frame(now, 3, 2)] == map[p := Frame(now, 3, 2)] && {p} + {p} == {p};
  }

  lemma OverwriteUpdates(s0: State, p: PageKey, mid: seq<byte>, now: seq<byte>)
    returns (run: seq<State>, acts: seq<Action>)
    requires Initial(s0) && p in s0.base && |mid| == |now| == PageSize(p) && mid != s0.base[p] && now != mid
    ensures |s0.base[p]| == PageSize(p) && CarefulRun(run, acts) && run[0] == s0 && |acts| == 3 && Shape(run[3])
    ensures run[3] == s0.(frames := map[p := Frame(now, 3, 2)], dirty := {p}, nextLsn := 4,
                          active := map[1 := 2, 2 := 3],
                          buf := [Begin(1, 1), DiffRecord(2, 1, p, s0.base[p], mid), DiffRecord(3, 2, p, mid, now)])
  {
    hide Shape, DiffRecord, Possible, Next, Initial, RespectsIds;
    InitialIs(s0);
    DiffRecordIs(2, 1, p, s0.base[p], mid);
    ReuseUpdate(s0, p, mid);
    FirstIds(s0, p, mid);
    run, acts := Goes([s0], [], BeginTxn(1));
    run, acts := Goes(run, acts, UpdatePage(1, p, mid));
    OverwriteSecond(run[2], s0, p, mid, now, DiffRecord(2, 1, p, s0.base[p], mid));
    run, acts := Goes(run, acts, UpdatePage(2, p, now));
  }

  /** Up to the crash. */
  lemma OverwriteStart(s0: State, p: PageKey, mid: seq<byte>, now: seq<byte>)
    returns (run: seq<State>, acts: seq<Action>)
    requires Initial(s0) && p in s0.base && |mid| == |now| == PageSize(p) && mid != s0.base[p] && now != mid
    ensures |s0.base[p]| == PageSize(p)
    ensures CarefulRun(run, acts) && run[0] == s0 && run[|acts|].phase.Down?
    ensures run[|acts|].log == OverwriteLog(p, s0.base[p], mid, now)
  {
    hide Shape, DiffRecord, Possible, Next, Initial, RespectsIds;
    InitialIs(s0);
    DiffRecordIs(2, 1, p, s0.base[p], mid);
    DiffRecordIs(3, 2, p, mid, now);
    run, acts := OverwriteUpdates(s0, p, mid, now);
    OverwriteCommit(run[3], s0, p, now, DiffRecord(2, 1, p, s0.base[p], mid), DiffRecord(3, 2, p, mid, now));
    NoEndIds(run[3], Action.CommitTxn(2));
    run, acts := Goes(run, acts, Action.CommitTxn(2));
    CrashNext(run[4]);
    NoIds(run[4]);
    run, acts := Goes(run, acts, Crash);
  }

  lemma FirstIds(s0: State, p: PageKey, now: seq<byte>)
    requires Initial(s0) && Shape(s0)
    ensures RespectsIds(s0, BeginTxn(1))
    ensures var s1 := s0.(buf := [Begin(1, 1)], nextLsn := 2, active := map[1 := 1]);
            Shape(s1) ==> RespectsIds(s1, UpdatePage(1, p, now))
  {
    assert s0.All() == [];
    assert s0.(buf := [Begin(1, 1)], nextLsn := 2, active := map[1 := 1]).All() == [Begin(1, 1)];
  }

  lemma NoEndIds(s: State, act: Action)
    requires Shape(s) && s.log == [] && forall i :: 0 <= i < |s.buf| ==> !s.buf[i].IsEnd()
    ensures RespectsIds(s, act)
  {
    assert s.All() == s.buf;
  }

  lemma NoIds(s: State)
    requires Shape(s)
    ensures RespectsIds(s, Crash)
  {
  }

  /** What the overwriting log demands of a byte, and what undoing its loser makes of it. */
  lemma OverwriteDemands(p: PageKey, was: seq<byte>, mid: seq<byte>, now: seq<byte>, a: nat)
    requires |was| == |mid| == |now| == PageSize(p) && a < |was| && was[a] != mid[a] && mid[a] != now[a]
    ensures was != mid && mid != now
    ensures var log := OverwriteLog(p, was, mid, now);
            && WellSized(log) && Effective(log, p, a, was[a]) == now[a] && Undone(log, 4, 0, p, a, was[a]) == was[a]
  {
    hide DiffRecord;
    assert was != mid && mid != now;
    DiffRecordIs(2, 1, p, was, mid);
    DiffRecordIs(3, 2, p, mid, now);
    DiffDescribes(2, 1, p, was, mid);
    DiffDescribes(3, 2, p, mid, now);
    var log := OverwriteLog(p, was, mid, now);
    assert log[3].IsEnd() && log[3].txn == 2;
    assert Describes(log[1], was, mid, a) && Describes(log[2], mid, now, a);
    assert Ended(log, 2) && !Ended(log, 1);
    assert Kept(log, log[2]) && LoserUpdate(log, log[1]);
    assert ReplayKept(log, 4, p, a, was[a]) == ReplayKept(log, 3, p, a, was[a]) == now[a];
    assert Undone(log, 4, 0, p, a, was[a]) == Undone(log, 4, 1, p, a, was[a]) == was[a];
  }

  /** A run in which recovery loses a committed byte.  Transaction 1 changes a byte and stays open;
      transaction 2 changes the same byte and commits; the system crashes.  The recovery that follows
      puts transaction 1's before-image over the committed content. */
  lemma CommitOverwritten(s0: State, p: PageKey, a: nat, x: byte, y: byte)
    returns (run: seq<State>, acts: seq<Action>, c: nat)
    requires Initial(s0) && p in s0.base && a < PageSize(p) && a < |s0.base[p]|
    requires s0.base[p][a] != x && x != y && y != s0.base[p][a]
    ensures CarefulRun(run, acts) && run[0] == s0 && RunsThrough(run, acts, c, |acts|) && run[|acts|].phase.Recovered?
    ensures Commit(4, 2) in run[c].log && Effective(run[c].log, p, a, s0.base[p][a]) == y
    ensures p in run[|acts|].disk && a < |run[|acts|].Cur(p)| && run[|acts|].Cur(p)[a] == s0.base[p][a]
  {
    hide Shape, Possible, Next, Initial, RespectsIds, Effective, Tracks, Global, DiffRecord, Undone;
    InitialIs(s0);
    var was := s0.base[p];
    var mid, now := was[a := x], was[a := y];
    assert mid[a] == x && now[a] == y;
    var first, firstActs := OverwriteStart(s0, p, mid, now);
    c := |firstActs|;
    assert first[c].log[3] == Commit(4, 2);
    CarefulRunTracks(first, firstActs, c);
    TracksGlobal(first[c]);
    var more, moreActs := RecoveryCompletes(first[c]);
    run, acts := JoinSteps(first, firstActs, more, moreActs);
    JoinedCareful(first, firstActs, more, moreActs, run, acts);
    OverwriteDemands(p, was, mid, now, a);
    RecoveryUndoes(run, acts, c, |acts|, p, a);
    CarefulRunTracks(run, acts, |acts|);
    TracksGlobal(run[|acts|]);
    ByteInFile(run[|acts|], p, a);
  }

  lemma ByteInFile(s: State, p: PageKey, a: nat)
    requires Shape(s) && AByte(s, p, a)
    ensures p in s.disk && a < |s.Cur(p)|
  {
  }

  // ---------------------------------------------------------------- a run that leaves a page blind

  /** The log of the run below: transaction 1 changes a page, the page is written, a checkpoint follows. */
  function BlindLog(p: PageKey, was: seq<byte>, now: seq<byte>): seq<Record>
    requires |was| == |now| && was != now
  {
    [Begin(1, 1), DiffRecord(2, 1, p, was, now), Checkpoint(3, map[], map[1 := 2])]
  }

  function BlindDown(s0: State, p: PageKey, now: seq<byte>): State
    requires p in s0.base && |now| == |s0.base[p]| && now != s0.base[p]
  {
    s0.(log := BlindLog(p, s0.base[p], now), disk := s0.base[p := now], nextLsn := 4, diskNext := 4, chkLsn := 3,
        phase := Down)
  }

  lemma WriteBackNext(s: State, p: PageKey)
    requires Shape(s) && p in s.frames && p in s.dirty && s.frames[p].pageLsn > 0
    requires s.buf != [] && forall i :: 0 <= i < |s.buf| ==> s.buf[i].lsn <= s.frames[p].pageLsn
    ensures Possible(s, Action.FlushPage(p))
    ensures Next(s, Action.FlushPage(p))
      == s.(log := s.All(), buf := [], diskNext := s.nextLsn, disk := s.disk[p := s.frames[p].data],
            frames := s.frames[p := s.frames[p].(recLsn := 0)], dirty := s.dirty - {p})
  {
    hide FlushLog;
    FlushesAll(s, s.frames[p].pageLsn);
  }

  lemma CheckpointNext(s: State)
    requires Shape(s) && s.phase.Up? && s.buf == [] && s.dirty == {}
    ensures Possible(s, TakeCheckpoint)
    ensures Next(s, TakeCheckpoint)
      == s.(log := s.log + [Checkpoint(s.nextLsn, map[], s.active)], nextLsn := s.nextLsn + 1, chkLsn := s.nextLsn,
            diskNext := s.nextLsn + 1)
  {
    hide FlushLog, Shape;
    assert CheckpointRecord(s) == Checkpoint(s.nextLsn, map[], s.active);
    FlushesAll(Append(s, CheckpointRecord(s)), s.nextLsn);
  }

  lemma BlindUpdate(s0: State, p: PageKey, now: seq<byte>) returns (run: seq<State>, acts: seq<Action>)
    requires Initial(s0) && p in s0.base && |now| == PageSize(p) && now != s0.base[p]
    ensures IsRun(run, acts) && Steps(run, acts) && run[0] == s0 && |acts| == 2 && Shape(run[2])
    ensures run[2] == s0.(frames := map[p := Frame(now, 2, 2)], dirty := {p}, nextLsn := 3, active := map[1 := 2],
                          buf := [Begin(1, 1), DiffRecord(2, 1, p, s0.base[p], now)])
  {
    hide DiffRecord, Shape;
    ReuseUpdate(s0, p, now);
    FirstEnabled(s0, p, now);
    run, acts := Goes([s0], [], BeginTxn(1));
    run, acts := Goes(run, acts, UpdatePage(1, p, now));
  }

  lemma FirstEnabled(s0: State, p: PageKey, now: seq<byte>)
    requires Initial(s0) && Shape(s0) && p in s0.base && |now| == PageSize(p)
    ensures Enabled(s0, BeginTxn(1))
    ensures var s1 := s0.(buf := [Begin(1, 1)], nextLsn := 2, active := map[1 := 1]);
            Shape(s1) ==> Enabled(s1, UpdatePage(1, p, now))
  {
    var s1 := s0.(buf := [Begin(1, 1)], nextLsn := 2, active := map[1 := 1]);
    assert s0.All() == [] && s1.All() == [Begin(1, 1)];
  }

  /** The flush, the checkpoint and the crash of that run. */
  lemma BlindFlush(s2: State, r: Record, s0: State, p: PageKey, now: seq<byte>)
    requires InitialFields(s0) && Shape(s2) && r.lsn == 2
    requires s2 == s0.(frames := map[p := Frame(now, 2, 2)], dirty := {p}, nextLsn := 3, active := map[1 := 2],
                       buf := [Begin(1, 1), r])
    ensures Possible(s2, Action.FlushPage(p))
    ensures Next(s2, Action.FlushPage(p))
      == s0.(log := [Begin(1, 1), r], diskNext := 3, nextLsn := 3, active := map[1 := 2], disk := s0.base[p := now],
             frames := map[p := Frame(now, 2, 0)])
  {
    hide Shape, WriteBack;
    WriteBackNext(s2, p);
    assert s2.All() == s2.buf;
    assert s2.frames[p := Frame(now, 2, 0)] == map[p := Frame(now, 2, 0)];
  }

  lemma BlindCheckpoint(s3: State, r: Record, s0: State, p: PageKey, now: seq<byte>)
    requires InitialFields(s0) && Shape(s3)
    requires s3 == s0.(log := [Begin(1, 1), r], diskNext := 3, nextLsn := 3, active := map[1 := 2],
                       disk := s0.base[p := now], frames := map[p := Frame(now, 2, 0)])
    ensures Possible(s3, TakeCheckpoint)
    ensures Next(s3, TakeCheckpoint)
      == s3.(log := [Begin(1, 1), r, Checkpoint(3, map[], map[1 := 2])], nextLsn := 4, diskNext := 4, chkLsn := 3)
  {
    hide Shape, CheckpointStep;
    CheckpointNext(s3);
  }

  lemma BlindStart(s0: State, p: PageKey, now: seq<byte>) returns (run: seq<State>, acts: seq<Action>)
    requires Initial(s0) && p in s0.base && |now| == PageSize(p) && now != s0.base[p]
    ensures IsRun(run, acts) && Steps(run, acts) && run[0] == s0 && run[|acts|] == BlindDown(s0, p, now)
    ensures Shape(run[|acts|])
  {
    hide Shape, DiffRecord, Possible, Next, Enabled, Initial;
    InitialIs(s0);
    DiffRecordIs(2, 1, p, s0.base[p], now);
    var r := DiffRecord(2, 1, p, s0.base[p], now);
    run, acts := BlindUpdate(s0, p, now);
    BlindFlush(run[2], r, s0, p, now);
    FreelyEnabled(run[2], Action.FlushPage(p));
    run, acts := Goes(run, acts, Action.FlushPage(p));
    BlindCheckpoint(run[3], r, s0, p, now);
    FreelyEnabled(run[3], TakeCheckpoint);
    run, acts := Goes(run, acts, TakeCheckpoint);
    CrashNext(run[4]);
    FreelyEnabled(run[4], Crash);
    run, acts := Goes(run, acts, Crash);
  }

  lemma BlindAnalysis(p: PageKey, was: seq<byte>, now: seq<byte>)
    requires |was| == |now| && was != now
    ensures AnalysisOf(BlindLog(p, was, now), 3) == Analysis(map[], map[1 := 2])
  {
    hide DiffRecord;
    DiffRecordIs(2, 1, p, was, now);
    var log := BlindLog(p, was, now);
    FindLsnFinds(log, 3, 2);
    assert log[2].lsn == 3;
    ScanSkips(log, 3, 4, Analysis(map[], map[1 := 2]));
  }

  /** A run from a fresh database that ends with a blind page: transaction 1 changes a page; the page
      goes to its file; a checkpoint is taken, at which the page is clean; the system crashes.  The
      recovery has nothing to redo, and undo changes the page without giving it a recLSN. */
  lemma BlindPageReached(s0: State, p: PageKey, now: seq<byte>) returns (run: seq<State>, acts: seq<Action>)
    requires Initial(s0) && p in s0.base && |now| == PageSize(p) && now != s0.base[p]
    ensures IsRun(run, acts) && run[0] == s0
    ensures Holds(run[|acts|]) && run[|acts|].phase.Recovered? && BlindDirty(run[|acts|], p)
  {
    hide Shape, DiffRecord, Possible, Next, Enabled, Initial, AnalysisOf, Holds;
    InitialIs(s0);
    DiffRecordIs(2, 1, p, s0.base[p], now);
    run, acts := BlindStart(s0, p, now);
    BlindAnalysis(p, s0.base[p], now);
    AnalyseNext(run[|acts|]);
    FreelyEnabled(run[|acts|], Analyse);
    run, acts := Goes(run, acts, Analyse);
    run, acts := RedoRest(run, acts);
    UndoSkips(run[|acts|]);
    FreelyEnabled(run[|acts|], UndoNext);
    run, acts := Goes(run, acts, UndoNext);
    run, acts := LastSteps(run, acts, p, 2, s0.base[p], now);
    InitialHolds(s0);
    RunHolds(run, acts, |acts|);
    HoldsShape(run[|acts|]);
    FramesOnDisk(run[|acts|], p);
  }

  lemma HoldsShape(s: State)
    requires Holds(s)
    ensures Shape(s)
  {
  }
}
