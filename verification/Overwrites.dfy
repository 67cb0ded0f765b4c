/** Transactions that overwrite each other's bytes: what recovery then leaves in each byte, in every
    run whose callers neither reuse ids nor resume with a blind page. */
module Overwrites {
  import opened Records
  import opened Engine
  import opened EngineLog
  import opened EngineInv
  import opened EngineFlush
  import opened EngineUp
  import opened EngineRecover
  import opened EngineEnd
  import opened CrashSafety
  import opened Unrepairable

  // ---------------------------------------------------------------- undo over full replay, at one byte

  /** A surviving record has overwritten a byte after a loser updated it. */
  predicate Clobbered(log: seq<Record>, p: PageKey, a: nat) {
    exists k, m {:trigger log[k].Covers(p, a), log[m].Covers(p, a)} :: 0 <= k < m < |log|
      && log[k].Covers(p, a) && LoserUpdate(log, log[k]) && log[m].Covers(p, a) && Kept(log, log[m])
  }

  /** Record `k` is the losers' first Update of the byte, record `m` the last write of it that survives. */
  ghost predicate FirstAndLast(log: seq<Record>, k: nat, m: nat, p: PageKey, a: nat)
    requires k < |log| && m < |log|
  {
    && log[k].Covers(p, a) && LoserUpdate(log, log[k]) && log[m].Covers(p, a) && Kept(log, log[m])
    && (forall j {:trigger log[j].Covers(p, a)} :: 0 <= j < k && log[j].Covers(p, a) ==> !LoserUpdate(log, log[j]))
    && (forall j {:trigger log[j].Covers(p, a)} :: m < j < |log| && log[j].Covers(p, a) ==> !Kept(log, log[j]))
  }

  function UndoImage(r: Record, a: nat): byte {
    if r.Update? && r.off <= a < r.off + |r.undo| then r.undo[a - r.off] else 0
  }

  function RedoImage(r: Record, a: nat): byte {
    if r.IsWrite() && r.off <= a < r.off + |r.redo| then r.redo[a - r.off] else 0
  }

  /** Undo is right about every byte that is not clobbered, whether or not the transactions
      respected each other elsewhere ... */
  lemma NotClobberedIsRecovered(log: seq<Record>, p: PageKey, a: nat, b: byte)
    requires WellSized(log) && BeforeImages(log, p, a, b) && ClrsFollow(log, p, a) && !Clobbered(log, p, a)
    ensures Undone(log, |log|, 0, p, a, b) == Effective(log, p, a, b)
  {
    var n := |log|;
    if LoserCovered(log, p, a) {
      var k := FirstLoser(log, n, p, a);
      UndoneAt(log, n, 0, k, p, a, b);
      KeptBeforeLosers(log, k, p, a);
      AllKept(log, k, p, a, b);
      KeptUncovered(log, k, n, p, a, b);
    } else {
      UndoneUntouched(log, n, 0, p, a, b);
      KeptBeforeLosers(log, n, p, a);
      AllKept(log, n, p, a, b);
    }
  }

  lemma {:induction false} LastKept(log: seq<Record>, n: nat, p: PageKey, a: nat, b: byte, j: nat) returns (m: nat)
    requires j < n <= |log| && log[j].Covers(p, a) && Kept(log, log[j])
    ensures j <= m < n && log[m].Covers(p, a) && Kept(log, log[m])
    ensures forall i {:trigger log[i].Covers(p, a)} :: m < i < n && log[i].Covers(p, a) ==> !Kept(log, log[i])
    ensures ReplayKept(log, n, p, a, b) == log[m].redo[a - log[m].off]
  {
    if log[n - 1].Covers(p, a) && Kept(log, log[n - 1]) {
      m := n - 1;
    } else {
      m := LastKept(log, n - 1, p, a, b, j);
    }
  }

  /** ... and about a clobbered byte it restores the loser's before-image over the surviving write:
      the byte is right only if the two happen to be the same. */
  lemma ClobberedByte(log: seq<Record>, p: PageKey, a: nat, b: byte) returns (k: nat, m: nat)
    requires WellSized(log) && Clobbered(log, p, a)
    ensures k < m < |log| && FirstAndLast(log, k, m, p, a)
    ensures Undone(log, |log|, 0, p, a, b) == UndoImage(log[k], a)
    ensures Effective(log, p, a, b) == RedoImage(log[m], a)
  {
    var x, j :| 0 <= x < j < |log| && log[x].Covers(p, a) && LoserUpdate(log, log[x])
      && log[j].Covers(p, a) && Kept(log, log[j]);
    k := FirstLoser(log, |log|, p, a);
    UndoneAt(log, |log|, 0, k, p, a, b);
    m := LastKept(log, |log|, p, a, b, j);
  }

  // ---------------------------------------------------------------- the same for runs of the machine

  /** A run whose callers may overwrite the bytes of open transactions. */
  ghost predicate CarefulRun(run: seq<State>, acts: seq<Action>) {
    Steps(run, acts) && forall i :: 0 <= i < |acts| ==> Careful(run[i], acts[i])
  }

  lemma {:induction false} CarefulRunTracks(run: seq<State>, acts: seq<Action>, n: nat)
    requires CarefulRun(run, acts) && n < |run| && Initial(run[0])
    ensures Tracks(run[n]) && run[n].base == run[0].base
  {
    hide Tracks, Shape, Possible, RespectsIds, RespectsUndo, Next;
    if n == 0 {
      InitialHolds(run[0]);
    } else {
      CarefulRunTracks(run, acts, n - 1);
      StepTracks(run[n - 1], acts[n - 1]);
      StepGrows(run[n - 1], acts[n - 1]);
    }
  }

  /** How far a recovery from the log `log0` has come with a byte, no crash in between. */
  ghost predicate Undoing(s: State, log0: seq<Record>, p: PageKey, a: nat)
    requires Shape(s) && AByte(s, p, a) && WellSized(log0)
  {
    match s.phase
    case Up => false
    case Down => s.All() == log0
    case Redo(_, _) => s.All() == log0
    case Undo(n, _, _) => n == |log0| <= |s.All()| && s.All()[..n] == log0
    case Ending(_) => s.Cur(p)[a] == Undone(log0, |log0|, 0, p, a, s.base[p][a])
    case Recovered => s.Cur(p)[a] == Undone(log0, |log0|, 0, p, a, s.base[p][a])
  }

  lemma UndoDoneUndoing(s: State, log0: seq<Record>, p: PageKey, a: nat)
    requires Tracks(s) && s.phase.Undo? && s.phase.next == 0 && WellSized(log0)
    requires AByte(s, p, a) && Undoing(s, log0, p, a)
    ensures Shape(UndoStep(s)) && AByte(UndoStep(s), p, a) && Undoing(UndoStep(s), log0, p, a)
  {
    hide LsnOrdered, IdsNotReused, CheckpointHolds, Synced, Disciplined, Repairable, Covered, OpenAt;
    assert ByteHolds(s, p, a);
    assert BytePhase(s, p, a);
    assert !UndoneFrom(s.All(), 0, 0, p, a);
    UndonePrefix(s.All(), |log0|, 0, p, a, s.base[p][a]);
    assert UndoStep(s).All() == s.All();
  }

  lemma UndoUndoing(s: State, log0: seq<Record>, p: PageKey, a: nat)
    requires Global(s) && s.phase.Undo? && s.phase.next > 0 && WellSized(log0)
    requires AByte(s, p, a) && Undoing(s, log0, p, a)
    requires Shape(UndoStep(s)) && AByte(UndoStep(s), p, a)
    ensures Undoing(UndoStep(s), log0, p, a)
  {
    hide LsnOrdered, IdsNotReused, CheckpointHolds, OpenAt, OpenClr, WellSized, Reverted, LoserUpdate, Shape;
    UndoNextInLog(s);
    GlobalShape(s);
    LoserUpdateIs(s, s.phase.next - 1);
    if LoserUpdate(s.All(), s.All()[s.phase.next - 1]) {
      var r := s.All()[s.phase.next - 1];
      UndoStepIs(s);
      RevertedAll(Fetch(s, r.page), r);
      UndoMoves(s);
    }
  }

  lemma RedoUndoing(s: State, log0: seq<Record>, p: PageKey, a: nat)
    requires Global(s) && Possible(s, RedoNext) && WellSized(log0) && AByte(s, p, a) && Undoing(s, log0, p, a)
    requires Shape(RedoStep(s)) && AByte(RedoStep(s), p, a)
    ensures Undoing(RedoStep(s), log0, p, a)
  {
    hide LsnOrdered, IdsNotReused, CheckpointHolds, WellSized, Shape, RedoStep;
    GlobalShape(s);
    RedoKeepsLog(s);
    RedoMoves(s);
    assert s.All() == s.log && RedoStep(s).All() == s.All();
  }

  lemma EndUndoing(s: State, act: Action, log0: seq<Record>, p: PageKey, a: nat)
    requires Shape(s) && Possible(s, act) && (act.EndLoser? || act.FinishRecovery? || act.Analyse?) && WellSized(log0)
    requires AByte(s, p, a) && Undoing(s, log0, p, a)
    requires Shape(Next(s, act)) && AByte(Next(s, act), p, a)
    ensures Undoing(Next(s, act), log0, p, a)
  {
    hide WellSized, Undone, FlushCount, AnalysisOf;
  }

  lemma PoolUndoing(s: State, act: Action, log0: seq<Record>, p: PageKey, a: nat)
    requires Tracks(s) && Possible(s, act) && OfPool(act) && WellSized(log0)
    requires AByte(s, p, a) && Undoing(s, log0, p, a)
    requires Shape(Next(s, act)) && AByte(Next(s, act), p, a)
    ensures Undoing(Next(s, act), log0, p, a)
  {
    hide Tracks, Next, Undone, Shape, WellSized, Global;
    TracksGlobal(s);
    PoolStepLog(s, act);
    PoolStepByte(s, act, p, a);
  }

  lemma UndoingStep(s: State, act: Action, log0: seq<Record>, p: PageKey, a: nat)
    requires Tracks(s) && Careful(s, act) && Recovering(s.phase) && !act.Crash? && WellSized(log0)
    requires AByte(s, p, a) && Undoing(s, log0, p, a)
    requires Shape(Next(s, act)) && AByte(Next(s, act), p, a) && Recovering(Next(s, act).phase)
    ensures Undoing(Next(s, act), log0, p, a)
  {
    hide Tracks, Undone, Shape, WellSized, Global, RedoStep, UndoStep, EndStep, Undoing, AByte, FlushLog, WriteBack;
    TracksGlobal(s);
    match act {
      case RedoNext => RedoUndoing(s, log0, p, a);
      case UndoNext =>
        if s.phase.next == 0 { UndoDoneUndoing(s, log0, p, a); } else { UndoUndoing(s, log0, p, a); }
      case Resume =>
      case Analyse => EndUndoing(s, act, log0, p, a);
      case EndLoser(_) => EndUndoing(s, act, log0, p, a);
      case FinishRecovery => EndUndoing(s, act, log0, p, a);
      case _ => PoolUndoing(s, act, log0, p, a);
    }
  }

  /** The recovery between `c` and `n` runs through: no crash interrupts it. */
  predicate RunsThrough(run: seq<State>, acts: seq<Action>, c: nat, n: nat) {
    && |run| == |acts| + 1 && c < n < |run| && run[c].phase.Down?
    && forall i :: c <= i < n ==> Recovering(run[i].phase) && !acts[i].Crash?
  }

  /** A recovery without crashes, appended to a run that ends with the system down. */
  lemma JoinedCareful(run: seq<State>, acts: seq<Action>, more: seq<State>, moreActs: seq<Action>,
                      run': seq<State>, acts': seq<Action>)
    requires CarefulRun(run, acts) && Undisturbed(more, moreActs) && more[0] == run[|acts|] && |moreActs| > 0
    requires Steps(run', acts') && acts' == acts + moreActs && run' == run + more[1..]
    ensures CarefulRun(run', acts') && RunsThrough(run', acts', |acts|, |acts'|)
  {
    hide Shape, Possible, RespectsIds, RespectsWrites, RespectsUndo, Next;
    forall i | 0 <= i < |acts'| ensures Careful(run'[i], acts'[i]) {
      if i >= |acts| { assert run'[i] == more[i - |acts|] && acts'[i] == moreActs[i - |acts|]; }
    }
    forall i | |acts| <= i < |acts'| ensures Recovering(run'[i].phase) && !acts'[i].Crash? {
      assert run'[i] == more[i - |acts|] && acts'[i] == moreActs[i - |acts|];
    }
  }

  lemma DownLog(s: State)
    requires Tracks(s) && s.phase.Down?
    ensures Shape(s) && s.All() == s.log && WellSized(s.log)
  {
  }

  lemma {:induction false} UndoingRun(run: seq<State>, acts: seq<Action>, c: nat, n: nat, p: PageKey, a: nat)
    requires CarefulRun(run, acts) && Initial(run[0]) && RunsThrough(run, acts, c, n) && Recovering(run[n].phase)
    requires p in run[0].base && a < PageSize(p)
    ensures WellSized(run[c].log) && Shape(run[n]) && AByte(run[n], p, a) && Undoing(run[n], run[c].log, p, a)
    decreases n
  {
    hide Tracks, Shape, Undoing, Initial, Possible, RespectsIds, RespectsUndo, Next;
    CarefulRunTracks(run, acts, c);
    CarefulRunTracks(run, acts, n - 1);
    CarefulRunTracks(run, acts, n);
    DownLog(run[c]);
    TracksGlobal(run[n]);
    TracksGlobal(run[n - 1]);
    if n == c + 1 {
      DownUndoing(run[c], p, a);
    } else {
      UndoingRun(run, acts, c, n - 1, p, a);
    }
    UndoingStep(run[n - 1], acts[n - 1], run[c].log, p, a);
  }

  lemma DownUndoing(s: State, p: PageKey, a: nat)
    requires Shape(s) && s.phase.Down? && AByte(s, p, a) && s.All() == s.log && WellSized(s.log)
    ensures Undoing(s, s.log, p, a)
  {
  }

  /** Where callers overwrite each other, a recovery that runs through leaves every byte as undoing, over
      a full replay of the log it found, every Update of every loser. */
  lemma RecoveryUndoes(run: seq<State>, acts: seq<Action>, c: nat, n: nat, p: PageKey, a: nat)
    requires CarefulRun(run, acts) && Initial(run[0]) && RunsThrough(run, acts, c, n) && run[n].phase.Recovered?
    requires p in run[0].base && a < PageSize(p)
    ensures WellSized(run[c].log) && Shape(run[n]) && AByte(run[n], p, a) && run[n].base == run[0].base
    ensures run[n].Cur(p)[a] == Undone(run[c].log, |run[c].log|, 0, p, a, run[0].base[p][a])
  {
    hide Tracks, Shape, Undone;
    CarefulRunTracks(run, acts, n);
    UndoingRun(run, acts, c, n, p, a);
  }

  /** Such a recovery is right about every byte that is not clobbered in the log it found, and about a
      clobbered byte exactly when the loser's before-image is the surviving write's content. */
  lemma RightUnlessClobbered(run: seq<State>, acts: seq<Action>, c: nat, n: nat, p: PageKey, a: nat)
    returns (k: nat, m: nat)
    requires CarefulRun(run, acts) && Initial(run[0]) && RunsThrough(run, acts, c, n) && run[n].phase.Recovered?
    requires p in run[0].base && a < PageSize(p)
    ensures Shape(run[n]) && AByte(run[n], p, a) && AByte(run[0], p, a)
    ensures !Clobbered(run[c].log, p, a) ==>
      run[n].Cur(p)[a] == Effective(run[c].log, p, a, run[0].base[p][a])
    ensures Clobbered(run[c].log, p, a) ==> k < m < |run[c].log| && FirstAndLast(run[c].log, k, m, p, a)
    ensures Clobbered(run[c].log, p, a) ==>
      (run[n].Cur(p)[a] == Effective(run[c].log, p, a, run[0].base[p][a]) <==>
        UndoImage(run[c].log[k], a) == RedoImage(run[c].log[m], a))
  {
    hide Tracks, Shape, Undone, Effective, Clobbered;
    InitialHolds(run[0]);
    TracksGlobal(run[0]);
    CarefulRunTracks(run, acts, c);
    RecoveryUndoes(run, acts, c, n, p, a);
    DownDiscipline(run[c], p, a);
    if Clobbered(run[c].log, p, a) {
      k, m := ClobberedByte(run[c].log, p, a, run[0].base[p][a]);
    } else {
      k, m := 0, 0;
      NotClobberedIsRecovered(run[c].log, p, a, run[0].base[p][a]);
    }
  }

  lemma DownDiscipline(s: State, p: PageKey, a: nat)
    requires Tracks(s) && s.phase.Down? && p in s.base && a < PageSize(p)
    ensures WellSized(s.log) && a < |s.base[p]|
    ensures BeforeImages(s.log, p, a, s.base[p][a]) && ClrsFollow(s.log, p, a)
  {
    assert s.All() == s.log;
    assert AByte(s, p, a) && ByteHolds(s, p, a);
  }
}
