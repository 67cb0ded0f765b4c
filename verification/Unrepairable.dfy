/** Bytes that no recovery can bring back: what becomes of a byte that a crash finds neither as the
    durable log has it, nor in the redo range, nor written by a loser. */
module Unrepairable {
  import opened Records
  import opened Engine
  import opened EngineLog
  import opened EngineInv
  import opened EngineFlush
  import opened EngineUp
  import opened EngineRecover
  import opened EngineEnd
  import opened CrashSafety

  // ---------------------------------------------------------------- bytes recovery does not touch

  /** Nothing in the log tells recovery to write the byte, and file and pool agree on it. */
  ghost predicate Passive(s: State, p: PageKey, a: nat)
    requires Shape(s)
  {
    && AByte(s, p, a)
    && !InRedoFrom(s.log, s.chkLsn, 0, p, a) && !LoserCovered(s.log, p, a) && !Covered(s.All(), |s.log|, p, a)
    && s.Cur(p)[a] == s.disk[p][a]
  }

  /** The steps a recovery consists of, the interruptions it may suffer, and nothing else. */
  predicate OfRecovery(act: Action) {
    || act.Analyse? || act.RedoNext? || act.UndoNext? || act.EndLoser? || act.FinishRecovery?
    || act.FlushLogTo? || act.FlushPage? || act.EvictPage? || act.FetchPage? || act.Crash?
  }

  lemma PageStepGlobal(s: State, act: Action)
    requires Global(s) && Possible(s, act)
    requires act.FlushLogTo? || act.FlushPage? || act.EvictPage? || act.FetchPage? || act.Crash?
    ensures Global(Next(s, act))
  {
    hide LsnOrdered, IdsNotReused, CheckpointHolds, WellSized, AnalysisOf, OpenAt, AttMatches, WriteBack, FlushLog;
    match act {
      case FlushLogTo(lsn) => FlushLogGlobal(s, lsn);
      case FlushPage(p) => WriteBackGlobal(s, p);
      case EvictPage(p) => WriteBackGlobal(s, p); DropGlobal(WriteBack(s, p), p);
      case FetchPage(p) => FetchGlobal(s, p);
      case Crash => CrashGlobal(s);
    }
  }

  lemma GlobalShape(s: State)
    requires Global(s)
    ensures Shape(s)
  {
  }

  lemma RecoveryStepGlobal(s: State, act: Action)
    requires Global(s) && Possible(s, act) && OfRecovery(act)
    ensures Global(Next(s, act))
  {
    hide Global, Shape, AnalysisOf, RedoStep, UndoStep, EndStep, LoserUpdate, FlushWholeLog, FlushLog, WriteBack;
    GlobalShape(s);
    match act {
      case Analyse => AnalyseGlobal(s);
      case RedoNext =>
        if s.phase.next == |s.log| { RedoDoneGlobal(s); }
        else if Redoable(s.phase.an.dpt, s.log[s.phase.next]) { RedoStepGlobal(s); }
        else { RedoSkipIs(s); RedoSkipGlobal(s); }
      case UndoNext =>
        if s.phase.next == 0 { UndoEndIs(s); UndoDoneGlobal(s); }
        else {
          LoserUpdateIs(s, s.phase.next - 1);
          if LoserUpdate(s.All(), s.All()[s.phase.next - 1]) { UndoStepGlobal(s); }
          else { UndoSkipIs(s); UndoSkipGlobal(s); }
        }
      case EndLoser(t) => EndStepGlobal(s, t);
      case FinishRecovery => FinishGlobal(s);
      case _ => PageStepGlobal(s, act);
    }
  }

  /** Durable records that do not write the byte give recovery no new reason to write it. */
  lemma NoNewReason(log: seq<Record>, more: seq<Record>, chk: nat, next: nat, p: PageKey, a: nat)
    requires LsnOrdered(log + more, next) && CheckpointHolds(log, chk) && !Covered(log + more, |log|, p, a)
    ensures InRedoFrom(log + more, chk, 0, p, a) ==> InRedoFrom(log, chk, 0, p, a)
    ensures LoserCovered(log + more, p, a) ==> LoserCovered(log, p, a)
  {
    CheckpointHoldsOn(log, more, chk, next);
    var log' := log + more;
    if InRedoFrom(log', chk, 0, p, a) {
      var i :| 0 <= i < |log'| && log'[i].Covers(p, a) && InRedo(log', chk, log'[i]);
      assert i < |log| && log[i] == log'[i];
    }
    if LoserCovered(log', p, a) {
      var i :| 0 <= i < |log'| && log'[i].Covers(p, a) && LoserUpdate(log', log'[i]);
      assert i < |log| && log[i] == log'[i];
      OpenAtPrefix(log, more, |log|, log[i].txn);
    }
  }

  lemma StillPassive(s: State, s': State, more: seq<Record>, p: PageKey, a: nat)
    requires Global(s) && Global(s') && Passive(s, p, a)
    requires s'.base == s.base && s'.chkLsn == s.chkLsn && s'.log == s.log + more
    requires !Covered(s'.log, |s.log|, p, a) && !Covered(s'.All(), |s'.log|, p, a)
    requires s'.Cur(p)[a] == s'.disk[p][a]
    ensures Passive(s', p, a)
  {
    hide InRedoFrom, LoserCovered, IdsNotReused, WellSized, PhaseHolds;
    NoNewReason(s.log, more, s.chkLsn, s'.diskNext, p, a);
  }

  /** What one step does to a passive byte's pool and file content, and to the log. */
  ghost predicate LeftAlone(s: State, s': State, p: PageKey, a: nat)
    requires Shape(s) && Shape(s') && AByte(s, p, a)
  {
    && s'.base == s.base && s'.chkLsn == s.chkLsn && s.log <= s'.log
    && !Covered(s'.log, |s.log|, p, a) && !Covered(s'.All(), |s'.log|, p, a)
    && s'.disk[p][a] == s'.Cur(p)[a] == s.disk[p][a]
  }

  lemma FlushLeavesAlone(s: State, k: nat, p: PageKey, a: nat)
    requires Shape(s) && Passive(s, p, a) && k <= |s.buf| && Shape(Flushed(s, k))
    ensures LeftAlone(s, Flushed(s, k), p, a)
  {
    hide WellSized, InRedoFrom, LoserCovered;
    var s' := Flushed(s, k);
    FlushedAll(s, k);
    forall i | |s.log| <= i < |s'.All()| ensures !s'.All()[i].Covers(p, a) {
      assert s.All()[i] == s'.All()[i];
    }
    forall i | |s.log| <= i < |s'.log| ensures !s'.log[i].Covers(p, a) {
      assert s'.All()[i] == s'.log[i];
    }
  }

  lemma FlushLogLeavesAlone(s: State, target: nat, p: PageKey, a: nat)
    requires Global(s) && Passive(s, p, a)
    ensures Global(FlushLog(s, target)) && LeftAlone(s, FlushLog(s, target), p, a)
  {
    hide WellSized, InRedoFrom, LoserCovered, LsnOrdered, IdsNotReused, CheckpointHolds, PhaseHolds;
    FlushLogGlobal(s, target);
    var k := FlushCount(s.buf, target);
    if k > 0 {
      FlushLeavesAlone(s, k, p, a);
    } else {
      NothingNew(s, p, a);
    }
  }

  lemma NothingNew(s: State, p: PageKey, a: nat)
    requires Shape(s) && Passive(s, p, a)
    ensures LeftAlone(s, s, p, a)
  {
    hide WellSized, InRedoFrom, LoserCovered;
    assert !Covered(s.log, |s.log|, p, a);
  }

  lemma WriteBackLeavesAlone(s: State, q: PageKey, p: PageKey, a: nat)
    requires Global(s) && Passive(s, p, a) && q in s.frames && Shape(WriteBack(s, q))
    ensures LeftAlone(s, WriteBack(s, q), p, a)
  {
    hide WellSized, InRedoFrom, LoserCovered, LsnOrdered, IdsNotReused, CheckpointHolds, PhaseHolds, FlushLog, Covered;
    NothingNew(s, p, a);
    if q in s.dirty && s.frames[q].pageLsn > 0 {
      FlushLogLeavesAlone(s, s.frames[q].pageLsn, p, a);
      FlushKeepsPages(s, s.frames[q].pageLsn);
    }
  }

  lemma FlushKeepsPages(s: State, target: nat)
    ensures var s' := FlushLog(s, target);
            s'.disk == s.disk && s'.frames == s.frames && s'.dirty == s.dirty && s'.chkLsn == s.chkLsn
  {
  }

  lemma RedoneLeavesAlone(s: State, r: Record, p: PageKey, a: nat)
    requires Shape(s) && s.phase.Redo? && r.IsWrite() && r.page in s.frames && InBounds(r) && Passive(s, p, a)
    requires Shape(Redone(s, r)) && !r.Covers(p, a)
    ensures LeftAlone(s, Redone(s, r), p, a)
  {
    hide WellSized, InRedoFrom, LoserCovered, Splice, Redone;
    RedoneCur(s, r, p, a);
    NothingNew(s, p, a);
  }

  lemma FetchIsPassive(s: State, q: PageKey, p: PageKey, a: nat)
    requires Global(s) && Passive(s, p, a) && q in s.base
    ensures Global(Fetch(s, q)) && Passive(Fetch(s, q), p, a)
    ensures var s' := Fetch(s, q);
            s'.base == s.base && s'.disk == s.disk && s'.log == s.log && s'.buf == s.buf && s'.chkLsn == s.chkLsn
            && s'.phase == s.phase && q in s'.frames && s'.nextLsn == s.nextLsn
  {
    hide WellSized, InRedoFrom, LoserCovered, Covered, LsnOrdered, IdsNotReused, CheckpointHolds, PhaseHolds;
    FetchGlobal(s, q);
  }

  lemma RedoLeavesAlone(s: State, p: PageKey, a: nat)
    requires Global(s) && s.phase.Redo? && s.phase.next < |s.log| && Passive(s, p, a)
    requires Redoable(s.phase.an.dpt, s.log[s.phase.next])
    ensures Shape(RedoStep(s)) && LeftAlone(s, RedoStep(s), p, a)
  {
    hide LsnOrdered, IdsNotReused, CheckpointHolds, AnalysisOf, LoserCovered, Splice, Redone, PhaseHolds, Covered;
    var i := s.phase.next;
    var r := s.log[i];
    RedoStepIs(s);
    RedoableInState(s, i);
    assert !r.Covers(p, a);
    FetchIsPassive(s, r.page, p, a);
    RedoneShape(Fetch(s, r.page), r);
    RedoneLeavesAlone(Fetch(s, r.page), r, p, a);
  }

  lemma RevertedLeavesAlone(s: State, r: Record, p: PageKey, a: nat)
    requires Shape(s) && s.phase.Undo? && s.phase.next > 0 && Passive(s, p, a)
    requires r.Update? && r.page in s.frames && InBounds(r) && Shape(Reverted(s, r)) && !r.Covers(p, a)
    ensures LeftAlone(s, Reverted(s, r), p, a)
  {
    hide WellSized, InRedoFrom, LoserCovered, Splice, Reverted;
    RevertedCur(s, r, p, a);
    var s', c := Reverted(s, r), Compensation(s.nextLsn, r);
    assert !c.Covers(p, a);
    forall j | |s.log| <= j < |s'.All()| ensures !s'.All()[j].Covers(p, a) {
      assert j < |s.All()| ==> s'.All()[j] == s.All()[j];
    }
  }

  lemma UndoLeavesAlone(s: State, p: PageKey, a: nat)
    requires Global(s) && s.phase.Undo? && s.phase.next > 0 && Passive(s, p, a)
    requires LoserUpdate(s.All(), s.All()[s.phase.next - 1])
    ensures Shape(UndoStep(s)) && LeftAlone(s, UndoStep(s), p, a)
  {
    hide LsnOrdered, IdsNotReused, CheckpointHolds, InRedoFrom, Splice, OpenAt, Reverted, Covered;
    var r := s.All()[s.phase.next - 1];
    UndoStepIs(s);
    UndoneRecordMisses(s, p, a);
    FetchIsPassive(s, r.page, p, a);
    RevertedShape(Fetch(s, r.page), r);
    RevertedLeavesAlone(Fetch(s, r.page), r, p, a);
  }

  lemma UndoneRecordMisses(s: State, p: PageKey, a: nat)
    requires Global(s) && s.phase.Undo? && s.phase.next > 0 && LoserUpdate(s.All(), s.All()[s.phase.next - 1])
    requires !LoserCovered(s.log, p, a)
    ensures !s.All()[s.phase.next - 1].Covers(p, a)
  {
    hide LsnOrdered, IdsNotReused, CheckpointHolds, OpenAt;
    var i := s.phase.next;
    assert s.log[i - 1] == s.All()[i - 1];
    SameEndsOfLog(s, s.log[i - 1].txn);
  }

  lemma EndLeavesAlone(s: State, t: nat, p: PageKey, a: nat)
    requires Global(s) && s.phase.Ending? && t in s.phase.todo && Passive(s, p, a) && Shape(EndStep(s, t))
    ensures LeftAlone(s, EndStep(s, t), p, a)
  {
    hide LsnOrdered, IdsNotReused, CheckpointHolds, InRedoFrom, LoserCovered, WellSized, PhaseHolds;
    EndStepLog(s, t);
    var s' := EndStep(s, t);
    forall j | |s.log| <= j < |s'.log| ensures !s'.log[j].Covers(p, a) {
      assert j < |s.All()| ==> s'.log[j] == s.All()[j];
    }
  }

  /** No step of a recovery, and no interruption of one, writes a passive byte. */
  lemma PassiveStep(s: State, act: Action, p: PageKey, a: nat)
    requires Global(s) && Possible(s, act) && OfRecovery(act) && Recovering(s.phase) && Passive(s, p, a)
    ensures Global(Next(s, act)) && Passive(Next(s, act), p, a)
    ensures Next(s, act).disk[p][a] == s.disk[p][a] && Next(s, act).base == s.base
  {
    hide LsnOrdered, IdsNotReused, CheckpointHolds, WellSized, AnalysisOf, OpenAt, Splice, RedoOne, UndoOne, Covered,
         InRedoFrom, LoserCovered, FlushLog, WriteBack, RedoStep, UndoStep, EndStep, PhaseHolds;
    RecoveryStepGlobal(s, act);
    var s' := Next(s, act);
    LeavesAlone(s, act, p, a);
    assert s'.log == s.log + s'.log[|s.log|..];
    StillPassive(s, s', s'.log[|s.log|..], p, a);
  }

  lemma RedoStepLeavesAlone(s: State, p: PageKey, a: nat)
    requires Global(s) && Possible(s, RedoNext) && Passive(s, p, a) && Global(RedoStep(s))
    ensures LeftAlone(s, RedoStep(s), p, a)
  {
    hide LsnOrdered, IdsNotReused, CheckpointHolds, WellSized, AnalysisOf, RedoOne, InRedoFrom, LoserCovered,
      PhaseHolds;
    NothingNew(s, p, a);
    if s.phase.next < |s.log| && Redoable(s.phase.an.dpt, s.log[s.phase.next]) { RedoLeavesAlone(s, p, a); }
  }

  lemma UndoStepLeavesAlone(s: State, p: PageKey, a: nat)
    requires Global(s) && Possible(s, UndoNext) && Passive(s, p, a) && Global(UndoStep(s))
    ensures LeftAlone(s, UndoStep(s), p, a)
  {
    hide LsnOrdered, IdsNotReused, CheckpointHolds, WellSized, UndoOne, InRedoFrom, LoserCovered, PhaseHolds;
    NothingNew(s, p, a);
    if s.phase.next > 0 {
      LoserUpdateIs(s, s.phase.next - 1);
      if LoserUpdate(s.All(), s.All()[s.phase.next - 1]) { UndoLeavesAlone(s, p, a); }
    }
  }

  lemma OtherLeavesAlone(s: State, act: Action, p: PageKey, a: nat)
    requires Global(s) && Possible(s, act) && Passive(s, p, a) && Global(Next(s, act))
    requires act.Analyse? || act.Crash? || act.FetchPage? || act.FinishRecovery?
    ensures LeftAlone(s, Next(s, act), p, a)
  {
    hide LsnOrdered, IdsNotReused, CheckpointHolds, WellSized, AnalysisOf, InRedoFrom, LoserCovered, PhaseHolds;
    NothingNew(s, p, a);
    if act.FinishRecovery? { BufferedIsToDo(s); }
  }

  lemma LeavesAlone(s: State, act: Action, p: PageKey, a: nat)
    requires Global(s) && Possible(s, act) && OfRecovery(act) && Recovering(s.phase) && Passive(s, p, a)
    requires Global(Next(s, act))
    ensures LeftAlone(s, Next(s, act), p, a)
  {
    hide Global, Shape, Passive, LeftAlone, RedoStep, UndoStep, EndStep, FlushLog, WriteBack, AnalysisOf;
    GlobalShape(s);
    GlobalShape(Next(s, act));
    match act {
      case RedoNext => RedoStepLeavesAlone(s, p, a);
      case UndoNext => UndoStepLeavesAlone(s, p, a);
      case EndLoser(t) => EndLeavesAlone(s, t, p, a);
      case FlushLogTo(lsn) => FlushLogLeavesAlone(s, lsn, p, a);
      case FlushPage(q) => WriteBackLeavesAlone(s, q, p, a);
      case EvictPage(q) => EvictLeavesAlone(s, q, p, a);
      case _ => OtherLeavesAlone(s, act, p, a);
    }
  }

  lemma EvictLeavesAlone(s: State, q: PageKey, p: PageKey, a: nat)
    requires Global(s) && Passive(s, p, a) && q in s.frames && Shape(Drop(WriteBack(s, q), q))
    ensures LeftAlone(s, Drop(WriteBack(s, q), q), p, a)
  {
    hide LsnOrdered, IdsNotReused, CheckpointHolds, WellSized, InRedoFrom, LoserCovered, PhaseHolds, WriteBack;
    WriteBackGlobal(s, q);
    WriteBackLeavesAlone(s, q, p, a);
    assert Drop(WriteBack(s, q), q).All() == WriteBack(s, q).All();
  }

  /** A recovery: it starts when the system is down, and only its own steps and interruptions occur. */
  ghost predicate IsRecovery(run: seq<State>, acts: seq<Action>) {
    IsRun(run, acts) && run[0].phase.Down? && forall i :: 0 <= i < |acts| ==> OfRecovery(acts[i])
  }

  lemma {:induction false} PassiveRun(run: seq<State>, acts: seq<Action>, n: nat, p: PageKey, a: nat)
    requires IsRecovery(run, acts) && n < |run| && Global(run[0]) && Passive(run[0], p, a)
    ensures Global(run[n]) && Recovering(run[n].phase) && Passive(run[n], p, a)
    ensures run[n].disk[p][a] == run[0].disk[p][a] && run[n].base == run[0].base
  {
    hide Global, Passive, RedoStep, UndoStep, EndStep, AnalysisOf, FlushLog, WriteBack;
    if n > 0 {
      PassiveRun(run, acts, n - 1, p, a);
      PassiveStep(run[n - 1], acts[n - 1], p, a);
      StaysRecovering(run[n - 1], acts[n - 1]);
    }
  }

  lemma StaysRecovering(s: State, act: Action)
    requires Shape(s) && Possible(s, act) && OfRecovery(act) && Recovering(s.phase)
    ensures Recovering(Next(s, act).phase)
  {
    hide WellSized, AnalysisOf, Splice, FlushCount;
  }

  /** The converse of crash safety, byte by byte: when a crash finds a byte that is neither as the
      durable log has it, nor in the redo range, nor a loser's, every recovery gets it wrong. */
  lemma UnrepairableStaysWrong(run: seq<State>, acts: seq<Action>, n: nat, p: PageKey, a: nat)
    requires IsRecovery(run, acts) && n < |run| && Global(run[0]) && AByte(run[0], p, a)
    requires Disciplined(run[0].log, p, a, run[0].base[p][a]) && !Repairable(run[0], p, a)
    requires run[n].phase.Recovered?
    ensures Shape(run[n]) && p in run[n].disk && |run[n].Cur(p)| == PageSize(p)
    ensures run[n].Cur(p)[a] == run[0].disk[p][a] != Effective(run[0].log, p, a, run[0].base[p][a])
  {
    DownIsPassive(run[0], p, a);
    PassiveRun(run, acts, n, p, a);
  }

  lemma DownIsPassive(s: State, p: PageKey, a: nat)
    requires Global(s) && s.phase.Down? && AByte(s, p, a)
    requires Disciplined(s.log, p, a, s.base[p][a]) && !Repairable(s, p, a)
    ensures Passive(s, p, a) && s.disk[p][a] != Effective(s.log, p, a, s.base[p][a])
  {
    assert s.All() == s.log;
    UntouchedIsEffective(s.log, p, a, s.base[p][a]);
  }

  // ---------------------------------------------------------------- a recovery always completes

  /** A recovery in which every step is one of its own and nothing interrupts it. */
  ghost predicate Undisturbed(run: seq<State>, acts: seq<Action>) {
    IsRecovery(run, acts) && forall i :: 0 <= i < |acts| ==> !acts[i].Crash? && Recovering(run[i].phase)
  }

  lemma RecoveryStep(run: seq<State>, acts: seq<Action>, act: Action) returns (run': seq<State>, acts': seq<Action>)
    requires Undisturbed(run, acts) && Global(run[|acts|]) && Possible(run[|acts|], act) && OfRecovery(act)
    requires !act.Crash? && Recovering(run[|acts|].phase)
    ensures Undisturbed(run', acts') && |run'| == |acts'| + 1 && run'[0] == run[0]
    ensures run'[|acts'|] == Next(run[|acts|], act) && Global(run'[|acts'|])
  {
    hide Shape, Possible, Next;
    GlobalShape(run[|acts|]);
    assert Enabled(run[|acts|], act);
    run', acts' := Snoc(run, acts, act);
    RecoveryStepGlobal(run[|acts|], act);
  }

  lemma RecoveryLength(run: seq<State>, acts: seq<Action>)
    requires IsRecovery(run, acts)
    ensures |run| == |acts| + 1 && run[0].phase.Down?
  {
  }

  lemma UndisturbedLength(run: seq<State>, acts: seq<Action>)
    requires Undisturbed(run, acts)
    ensures |run| == |acts| + 1
  {
  }

  lemma {:induction false} RedoCompletes(run0: seq<State>, acts0: seq<Action>)
    returns (run: seq<State>, acts: seq<Action>)
    requires Undisturbed(run0, acts0) && Global(run0[|acts0|])
    requires run0[|acts0|].phase.Redo? && run0[|acts0|].phase.next <= |run0[|acts0|].log|
    ensures Undisturbed(run, acts) && |run| == |acts| + 1 && run[0] == run0[0]
    ensures Global(run[|acts|]) && run[|acts|].phase.Undo?
    decreases |run0[|acts0|].log| - run0[|acts0|].phase.next
  {
    hide Global, Undisturbed, RedoStep;
    UndisturbedLength(run0, acts0);
    var s := run0[|acts0|];
    GlobalShape(s);
    run, acts := RecoveryStep(run0, acts0, RedoNext);
    RedoMoves(s);
    if s.phase.next < |s.log| {
      run, acts := RedoCompletes(run, acts);
    }
  }

  lemma RedoMoves(s: State)
    requires Shape(s) && s.phase.Redo? && s.phase.next <= |s.log|
    ensures RedoStep(s).log == s.log
    ensures RedoStep(s).phase == if s.phase.next == |s.log| then Undo(|s.log|, |s.log|, s.phase.an.att.Keys - {0})
                                 else Redo(s.phase.next + 1, s.phase.an)
  {
    hide WellSized, Splice;
    RedoKeepsLog(s);
  }

  lemma UndoMoves(s: State)
    requires Global(s) && s.phase.Undo?
    ensures s.phase.next <= |s.All()|
    ensures UndoStep(s).phase == if s.phase.next == 0 then Ending(s.phase.losers)
                                 else Undo(s.phase.logged, s.phase.next - 1, s.phase.losers)
  {
    hide WellSized, Splice, UndoOne, LsnOrdered, IdsNotReused, CheckpointHolds;
  }

  lemma {:induction false} UndoCompletes(run0: seq<State>, acts0: seq<Action>)
    returns (run: seq<State>, acts: seq<Action>)
    requires Undisturbed(run0, acts0) && Global(run0[|acts0|]) && run0[|acts0|].phase.Undo?
    ensures Undisturbed(run, acts) && |run| == |acts| + 1 && run[0] == run0[0]
    ensures Global(run[|acts|]) && run[|acts|].phase.Ending?
    decreases run0[|acts0|].phase.next
  {
    hide Global, Undisturbed, UndoStep;
    UndisturbedLength(run0, acts0);
    var s := run0[|acts0|];
    GlobalShape(s);
    UndoMoves(s);
    run, acts := RecoveryStep(run0, acts0, UndoNext);
    if s.phase.next > 0 {
      run, acts := UndoCompletes(run, acts);
    }
  }

  lemma {:induction false} EndingCompletes(run0: seq<State>, acts0: seq<Action>)
    returns (run: seq<State>, acts: seq<Action>)
    requires Undisturbed(run0, acts0) && Global(run0[|acts0|]) && run0[|acts0|].phase.Ending?
    ensures Undisturbed(run, acts) && |run| == |acts| + 1 && run[0] == run0[0]
    ensures Global(run[|acts|]) && run[|acts|].phase.Recovered?
    decreases run0[|acts0|].phase.todo
  {
    hide Global, Undisturbed, FlushLog, FlushWholeLog;
    UndisturbedLength(run0, acts0);
    var s := run0[|acts0|];
    GlobalShape(s);
    if s.phase.todo == {} {
      run, acts := RecoveryStep(run0, acts0, FinishRecovery);
    } else {
      var t :| t in s.phase.todo;
      run, acts := RecoveryStep(run0, acts0, EndLoser(t));
      run, acts := EndingCompletes(run, acts);
    }
  }

  /** From every state in which the system is down, a recovery that is not interrupted completes. */
  lemma RecoveryCompletes(s: State) returns (run: seq<State>, acts: seq<Action>)
    requires Global(s) && s.phase.Down?
    ensures Undisturbed(run, acts) && |run| == |acts| + 1 && run[0] == s && run[|acts|].phase.Recovered?
  {
    hide Global, AnalysisOf;
    GlobalShape(s);
    run, acts := RecoveryStep([s], [], Analyse);
    run, acts := RedoCompletes(run, acts);
    run, acts := UndoCompletes(run, acts);
    run, acts := EndingCompletes(run, acts);
  }
}
