/** Redo on its own: although it begins at the oldest recLSN and repeats records that are already on
    disk, it leaves every byte as replaying the whole log from the allocated pages would. */
module RedoReplay {
  import opened Records
  import opened Engine
  import opened EngineLog
  import opened EngineInv
  import opened EngineFlush
  import opened EngineUp
  import opened EngineRecover
  import opened CrashSafety

  /** The byte has its replayed value, or redo, which is due or under way, will still write it. */
  ghost predicate Redoing(s: State, p: PageKey, a: nat)
    requires Shape(s) && AByte(s, p, a)
  {
    && (s.phase.Down? || s.phase.Redo?)
    && (InRedoFrom(s.log, s.chkLsn, if s.phase.Redo? then s.phase.next else 0, p, a)
        || s.Cur(p)[a] == Replay(s.log, |s.log|, p, a, s.base[p][a]))
  }

  lemma ShapeOf(s: State)
    requires Global(s)
    ensures Shape(s)
  {
  }

  lemma RedoneKeeps(s: State, p: PageKey, a: nat)
    requires Global(s) && s.phase.Redo? && s.phase.next < |s.log| && AByte(s, p, a) && Redoing(s, p, a)
    requires var r := s.log[s.phase.next];
             r.IsWrite() && r.page in s.frames && InBounds(r) && InRedo(s.log, s.chkLsn, r)
    ensures var s' := Redone(s, s.log[s.phase.next]); Shape(s') && AByte(s', p, a) && Redoing(s', p, a)
  {
    hide Global, LsnOrdered, InRedo, AnalysisOf, InRedoFrom, WellSized, Redone;
    var r := s.log[s.phase.next];
    ShapeOf(s);
    RedoneShape(s, r);
    RedoneCur(s, r, p, a);
    RedoneReplay(s, p, a);
  }

  lemma SkippedKeeps(s: State, p: PageKey, a: nat)
    requires Shape(s) && s.phase.Redo? && s.phase.next < |s.log| && AByte(s, p, a) && Redoing(s, p, a)
    requires !InRedo(s.log, s.chkLsn, s.log[s.phase.next])
    ensures var s' := s.(phase := Redo(s.phase.next + 1, s.phase.an));
            Shape(s') && AByte(s', p, a) && Redoing(s', p, a)
  {
    hide WellSized, InRedo;
    assert s.(phase := Redo(s.phase.next + 1, s.phase.an)).All() == s.All();
  }

  lemma RedoKeeps(s: State, p: PageKey, a: nat)
    requires Global(s) && s.phase.Redo? && s.phase.next < |s.log| && AByte(s, p, a) && Redoing(s, p, a)
    ensures Shape(RedoStep(s)) && AByte(RedoStep(s), p, a) && Redoing(RedoStep(s), p, a)
  {
    hide LsnOrdered, IdsNotReused, CheckpointHolds, InRedo, AnalysisOf, WellSized, Redone, RedoStep, Redoing;
    var r := s.log[s.phase.next];
    RedoableIsInRedo(s.log, s.chkLsn, s.phase.next, s.diskNext);
    if Redoable(s.phase.an.dpt, r) {
      RedoStepIs(s);
      FetchGlobal(s, r.page);
      FetchKeeps(s, r.page, p, a);
      RedoneKeeps(Fetch(s, r.page), p, a);
    } else {
      RedoSkipIs(s);
      SkippedKeeps(s, p, a);
    }
  }

  lemma FetchKeeps(s: State, q: PageKey, p: PageKey, a: nat)
    requires Shape(s) && q in s.disk && AByte(s, p, a) && Redoing(s, p, a) && Shape(Fetch(s, q))
    ensures AByte(Fetch(s, q), p, a) && Redoing(Fetch(s, q), p, a)
  {
    hide WellSized, InRedoFrom;
  }

  lemma AnalyseKeeps(s: State, p: PageKey, a: nat)
    requires Shape(s) && s.phase.Down? && AByte(s, p, a) && Redoing(s, p, a)
    ensures var s' := s.(phase := Redo(0, AnalysisOf(s.log, s.chkLsn)));
            Shape(s') && AByte(s', p, a) && Redoing(s', p, a)
  {
    hide WellSized, InRedoFrom, AnalysisOf;
    assert s.(phase := Redo(0, AnalysisOf(s.log, s.chkLsn))).All() == s.All();
  }

  /** Pages going to their files or coming from them, and log flushes, change no byte and no record. */
  lemma PoolStepRedoing(s: State, act: Action, p: PageKey, a: nat)
    requires Tracks(s) && Possible(s, act) && AByte(s, p, a) && Redoing(s, p, a) && OfPool(act)
    requires Shape(Next(s, act)) && AByte(Next(s, act), p, a)
    ensures Redoing(Next(s, act), p, a)
  {
    hide Tracks, InRedoFrom, Next, Shape, Global;
    NothingBufferedYet(s);
    PoolStepByte(s, act, p, a);
  }

  lemma NothingBufferedYet(s: State)
    requires Tracks(s) && (s.phase.Down? || s.phase.Redo?)
    ensures s.buf == []
  {
  }

  lemma RedoEnds(s: State)
    requires Shape(s) && s.phase.Redo? && s.phase.next == |s.log|
    ensures RedoStep(s).phase.Undo?
  {
  }

  lemma RedoingStep(s: State, act: Action, p: PageKey, a: nat)
    requires Tracks(s) && Possible(s, act) && AByte(s, p, a) && Redoing(s, p, a) && !act.Crash?
    requires Shape(Next(s, act)) && AByte(Next(s, act), p, a) && !Next(s, act).phase.Undo?
    ensures Redoing(Next(s, act), p, a)
  {
    hide Tracks, InRedoFrom, AnalysisOf, Shape, RedoStep, WriteBack, FlushLog, AByte;
    TracksGlobal(s);
    match act {
      case Analyse => AnalyseKeeps(s, p, a);
      case RedoNext =>
        if s.phase.next == |s.log| { RedoEnds(s); } else { RedoKeeps(s, p, a); }
      case _ => PoolStepRedoing(s, act, p, a);
    }
  }

  lemma CrashIsRedoing(s: State, p: PageKey, a: nat)
    requires Tracks(s) && s.phase.Up? && AByte(s, p, a)
    ensures Shape(CrashOf(s)) && AByte(CrashOf(s), p, a) && Redoing(CrashOf(s), p, a)
  {
    hide LsnOrdered, IdsNotReused, CheckpointHolds, WellSized, Disciplined, Synced, InRedoFrom;
    assert ByteHolds(s, p, a);
    CrashShape(s);
  }

  lemma CrashShape(s: State)
    requires Tracks(s)
    ensures Shape(CrashOf(s))
  {
    CrashTracks(s);
  }

  /** When the system stops during normal operation, redo will write every byte that is not as the
      durable log has it. */
  lemma StopIsRedoing(s: State, act: Action, p: PageKey, a: nat)
    requires Tracks(s) && Possible(s, act) && s.phase.Up? && (act.Crash? || act.TornCheckpoint?) && AByte(s, p, a)
    ensures Next(s, act).phase.Down? && Shape(Next(s, act)) && AByte(Next(s, act), p, a) && Redoing(Next(s, act), p, a)
  {
    hide Tracks, Redoing, FlushLog;
    if act.TornCheckpoint? {
      CheckpointWrittenTracks(s);
      FlushGrows(Append(s, CheckpointRecord(s)), s.nextLsn);
      FlushKeepsPhase(Append(s, CheckpointRecord(s)), s.nextLsn);
      CrashIsRedoing(FlushLog(Append(s, CheckpointRecord(s)), s.nextLsn), p, a);
    } else {
      CrashIsRedoing(s, p, a);
    }
  }

  lemma FlushKeepsPhase(s: State, target: nat)
    ensures FlushLog(s, target).phase == s.phase
  {
  }

  lemma {:induction false} RedoRuns(run: seq<State>, acts: seq<Action>, c: nat, n: nat, p: PageKey, a: nat)
    requires IsRun(run, acts) && c < n < |run| && Holds(run[0])
    requires run[c].phase.Up? && (acts[c].Crash? || acts[c].TornCheckpoint?)
    requires forall i :: c < i < n ==> !acts[i].Crash?
    requires forall i :: c < i <= n ==> !run[i].phase.Undo?
    requires p in run[0].base && a < PageSize(p)
    ensures Shape(run[n]) && AByte(run[n], p, a) && Redoing(run[n], p, a)
    decreases n
  {
    hide Redoing, Tracks, AllIsolated, Shape, Possible, RespectsIds, RespectsWrites, RespectsUndo, Next;
    RunHolds(run, acts, n);
    RunHolds(run, acts, n - 1);
    TracksGlobal(run[n]);
    TracksGlobal(run[n - 1]);
    if n == c + 1 {
      StopIsRedoing(run[c], acts[c], p, a);
    } else {
      RedoRuns(run, acts, c, n - 1, p, a);
      RedoingStep(run[n - 1], acts[n - 1], p, a);
    }
  }

  /** Redo equals full replay.  Stop the system at any moment of any run, by a crash or in the middle
      of a checkpoint; let analysis and all of redo happen, with any pages flushed, evicted and fetched
      before and in between.  Then every byte has the value that replaying the whole durable log
      gives, on whatever prefix of it the files were. */
  lemma RedoIsFullReplay(run: seq<State>, acts: seq<Action>, c: nat, n: nat, p: PageKey, a: nat)
    requires IsRun(run, acts) && c < n < |run| && Initial(run[0])
    requires run[c].phase.Up? && (acts[c].Crash? || acts[c].TornCheckpoint?)
    requires forall i :: c < i < n ==> !acts[i].Crash?
    requires forall i :: c < i <= n ==> !run[i].phase.Undo?
    requires run[n].phase.Redo? && run[n].phase.next == |run[n].log|
    requires p in run[0].base && a < PageSize(p)
    ensures Shape(run[n]) && AByte(run[n], p, a)
    ensures run[n].Cur(p)[a] == Replay(run[n].log, |run[n].log|, p, a, run[0].base[p][a])
  {
    hide Holds;
    InitialHolds(run[0]);
    RedoRuns(run, acts, c, n, p, a);
    RunHolds(run, acts, n);
  }
}
