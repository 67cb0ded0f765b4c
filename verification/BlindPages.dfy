/** Resuming normal operation while a page is dirty without a recLSN: exactly then some continuation
    ends with a recovery that leaves a byte wrong. */
module BlindPages {
  import opened Records
  import opened Engine
  import opened EngineLog
  import opened EngineInv
  import opened EngineFlush
  import opened EngineUp
  import opened EngineRecover
  import opened EngineEnd
  import opened CrashSafety
  import opened Unrepairable

  // ---------------------------------------------------------------- resuming with a blind page

  /** Normal operation resumes after a recovery. */
  function Resumed(s: State): State {
    s.(phase := Up)
  }

  lemma ResumedGlobal(s: State)
    requires Global(s) && s.phase.Recovered?
    ensures Global(Resumed(s))
  {
    assert Resumed(s).All() == s.All() == s.log;
  }

  /** Where one logged change of the page, a checkpoint, and a crash lead after resuming. */
  function Doom(s: State, p: PageKey, now: seq<byte>): State
    requires p in s.frames && |now| == |s.frames[p].data| && now != s.frames[p].data
  {
    CrashOf(CheckpointStep(Changed(Resumed(s), DiffRecord(s.nextLsn, 0, p, s.frames[p].data, now), now)))
  }

  lemma ChangeRecord(s: State, p: PageKey, now: seq<byte>) returns (r: Record)
    requires Holds(s) && s.phase.Recovered? && p in s.frames && |now| == PageSize(p) && now != s.frames[p].data
    ensures r == DiffRecord(s.nextLsn, 0, p, s.frames[p].data, now) && r.Update? && r.txn == 0 && r.lsn == s.nextLsn
    ensures r.page == p && InBounds(r)
    ensures Global(Resumed(s)) && Global(Changed(Resumed(s), r, now))
    ensures Changed(Resumed(s), r, now).All() == s.log + [r]
  {
    hide ByteHolds, LsnOrdered, IdsNotReused, CheckpointHolds, OpenAt, WellSized, DiffStart, DiffEnd, Changed,
      AttMatches;
    r := DiffRecord(s.nextLsn, 0, p, s.frames[p].data, now);
    DiffDescribes(s.nextLsn, 0, p, s.frames[p].data, now);
    ResumedGlobal(s);
    NextLsnPositive(s);
    ChangedGlobal(Resumed(s), r, now);
    ChangedAll(Resumed(s), r, now);
  }

  lemma SingleByteRecord(lsn: nat, p: PageKey, was: seq<byte>, c: nat, x: byte)
    requires c < |was| && was[c] != x && was != was[c := x]
    ensures var r := DiffRecord(lsn, 0, p, was, was[c := x]);
            r.Update? && r.page == p && r.off == c && |r.redo| == 1
  {
    SingleByteDiff(was, c, x);
  }

  lemma SingleByteDiff(was: seq<byte>, c: nat, x: byte)
    requires c < |was| && was[c] != x
    ensures DiffStart(was, was[c := x], 0) == c && DiffEnd(was, was[c := x], |was|) == c + 1
  {
    var now := was[c := x];
    assert was[c] != now[c];
  }

  /** The log after the doomed change and its checkpoint, seen from a byte the change missed: redo
      starts too late for it, no loser covers it, and it still demands what recovery had restored. */
  lemma DoomedLog(s: State, r: Record, cp: Record, p: PageKey, a: nat)
    requires Holds(s) && s.phase.Recovered? && AByte(s, p, a)
    requires r.Update? && r.txn == 0 && r.lsn == s.nextLsn && r.page == p && InBounds(r) && !r.Covers(p, a)
    requires cp.Checkpoint? && cp.lsn == s.nextLsn + 1 && p in cp.dpt && cp.dpt[p] == r.lsn
    ensures var log := (s.log + [r]) + [cp];
            && Disciplined(log, p, a, s.base[p][a]) && !LoserCovered(log, p, a)
            && Effective(log, p, a, s.base[p][a]) == Replay(log, |log|, p, a, s.base[p][a]) == s.Cur(p)[a]
  {
    var b, log := s.base[p][a], (s.log + [r]) + [cp];
    assert s.All() == s.log && ByteHolds(s, p, a);
    DisciplinedAppend(s.log, r, p, a, b);
    DisciplinedAppend(s.log + [r], cp, p, a, b);
    ReplayAppend(s.log, r, p, a, b);
    ReplayAppend(s.log + [r], cp, p, a, b);
    assert WellSized(log);
    forall i | 0 <= i < |log| && log[i].Covers(p, a) ensures !LoserUpdate(log, log[i]) {
      assert i < |s.log| && log[i] == s.log[i];
      NobodyIsOpen(s, i);
      assert log == s.log + ([r] + [cp]);
      OpenAtPrefix(s.log, [r] + [cp], |s.log|, log[i].txn);
    }
    UntouchedIsEffective(log, p, a, b);
  }

  lemma NobodyIsOpen(s: State, i: nat)
    requires Global(s) && s.phase.Recovered? && i < |s.log| && s.log[i].IsWrite()
    ensures s.log[i].txn == 0 || Ended(s.log, s.log[i].txn)
  {
    assert s.All() == s.log;
    assert s.log[i].Of(s.log[i].txn);
    assert !OpenAt(s.log, |s.log|, s.log[i].txn);
  }

  lemma DoomedRedo(log0: seq<Record>, r: Record, cp: Record, p: PageKey, a: nat)
    requires LsnOrdered((log0 + [r]) + [cp], cp.lsn + 1) && cp.Checkpoint? && r.IsWrite() && r.page == p
    requires p in cp.dpt && cp.dpt[p] == r.lsn && !r.Covers(p, a)
    ensures !InRedoFrom((log0 + [r]) + [cp], cp.lsn, 0, p, a)
  {
    var log := (log0 + [r]) + [cp];
    assert log[|log0|] == r && log[|log0| + 1] == cp;
    assert 1 <= log[|log0| + 1].lsn;
    FindLsnFinds(log, |log|, |log0| + 1);
    assert StartDpt(log, cp.lsn) == cp.dpt;
    forall i | 0 <= i < |log| && log[i].Covers(p, a) ensures !InRedo(log, cp.lsn, log[i]) {
      assert i < |log0|;
      assert log[i].lsn < log[|log0|].lsn;
    }
  }

  /** What the doomed crash leaves behind. */
  lemma DoomedState(s: State, p: PageKey, now: seq<byte>, r: Record) returns (cp: Record)
    requires Holds(s) && s.phase.Recovered? && p in s.frames && |now| == PageSize(p) && now != s.frames[p].data
    requires s.frames[p].recLsn == 0
    requires r == DiffRecord(s.nextLsn, 0, p, s.frames[p].data, now)
    ensures Global(Doom(s, p, now)) && Doom(s, p, now).phase.Down?
    ensures Doom(s, p, now).base == s.base && Doom(s, p, now).disk == s.disk
    ensures Doom(s, p, now).chkLsn == s.nextLsn + 1
    ensures cp.Checkpoint? && cp.lsn == s.nextLsn + 1 && p in cp.dpt && cp.dpt[p] == r.lsn
    ensures Doom(s, p, now).log == (s.log + [r]) + [cp]
  {
    hide ByteHolds, LsnOrdered, IdsNotReused, CheckpointHolds, OpenAt, WellSized, DiffRecord, PhaseHolds;
    var r' := ChangeRecord(s, p, now);
    var s2 := Changed(Resumed(s), r, now);
    CheckpointGlobal(s2);
    CheckpointWritten(s2);
    CrashGlobal(CheckpointStep(s2));
    cp := CheckpointRecord(s2);
    assert cp.Checkpoint? && cp.lsn == s.nextLsn + 1 && p in cp.dpt && cp.dpt[p] == r.lsn;
  }

  /** Resuming with a blind page loses the undo.  If, after a recovery, a page is dirty without a
      recLSN and differs from its file, then one more logged change of that page, a checkpoint and a
      crash leave a byte that no later recovery ever repairs: it keeps the rolled back content of the
      file, where the log demands the content that the first recovery had restored. */
  lemma BlindResumeLosesUndo(s: State, p: PageKey) returns (now: seq<byte>, a: nat)
    requires Holds(s) && s.phase.Recovered? && BlindDirty(s, p)
    ensures p in s.frames && |now| == |s.frames[p].data| == PageSize(p) && now != s.frames[p].data
    ensures AByte(s, p, a) && now[a] == s.frames[p].data[a] != s.disk[p][a]
    ensures var s' := Doom(s, p, now);
            && Global(s') && AByte(s', p, a) && s'.base == s.base
            && Effective(s'.log, p, a, s.base[p][a]) == s.Cur(p)[a]
            && Disciplined(s'.log, p, a, s.base[p][a]) && !Repairable(s', p, a)
            && s'.phase.Down? && s'.disk[p][a] == s.disk[p][a]
  {
    var was := s.frames[p].data;
    a :| 0 <= a < |was| && was[a] != s.disk[p][a];
    var c := if a == 0 then 1 else 0;
    var x: byte := if was[c] == 0 then 1 else 0;
    now := was[c := x];
    SingleByteDiff(was, c, x);
    assert now[c] != was[c];
    DoomedByte(s, p, c, x, a);
  }

  lemma DoomedByte(s: State, p: PageKey, c: nat, x: byte, a: nat)
    requires Holds(s) && s.phase.Recovered? && BlindDirty(s, p) && a < PageSize(p) && c < PageSize(p) && a != c
    requires s.frames[p].data[c] != x && s.frames[p].data[a] != s.disk[p][a]
    requires s.frames[p].data[c := x] != s.frames[p].data
    ensures var s' := Doom(s, p, s.frames[p].data[c := x]);
            && Global(s') && AByte(s', p, a) && s'.base == s.base
            && Effective(s'.log, p, a, s.base[p][a]) == s.Cur(p)[a]
            && Disciplined(s'.log, p, a, s.base[p][a]) && !Repairable(s', p, a)
            && s'.phase.Down? && s'.disk[p][a] == s.disk[p][a]
  {
    hide ByteHolds, IdsNotReused, CheckpointHolds, OpenAt, WellSized, PhaseHolds, DiffRecord, Doom, Disciplined,
         LoserCovered, InRedoFrom, Effective, Changed, Replay, Resumed;
    var was := s.frames[p].data;
    var now := was[c := x];
    SingleByteRecord(s.nextLsn, p, was, c, x);
    var r := ChangeRecord(s, p, now);
    assert !r.Covers(p, a);
    var cp := DoomedState(s, p, now, r);
    var s' := Doom(s, p, now);
    DoomedLog(s, r, cp, p, a);
    assert LsnOrdered((s.log + [r]) + [cp], cp.lsn + 1);
    DoomedRedo(s.log, r, cp, p, a);
  }

  // ---------------------------------------------------------------- the same as steps of the machine

  /** `run` goes on from the recovered state `s`: normal operation resumes, with or without blind pages,
      and from then on every action is enabled. */
  ghost predicate Continues(s: State, run: seq<State>, acts: seq<Action>) {
    && Steps(run, acts) && |acts| > 0 && run[0] == s && acts[0].Resume?
    && forall i :: 1 <= i < |acts| ==> Enabled(run[i], acts[i])
  }

  /** The system is down at `c`, and at `n` a recovery has completed, with no normal operation in between. */
  predicate CompletesRecovery(run: seq<State>, c: nat, n: nat) {
    && c < n < |run| && run[c].phase.Down? && run[n].phase.Recovered?
    && forall i :: c <= i < n ==> Recovering(run[i].phase)
  }

  /** Every byte at `n` is what the log that was durable at `c` demands. */
  ghost predicate RecoversRight(run: seq<State>, c: nat, n: nat)
    requires c < |run| && n < |run|
  {
    forall p, a: nat :: p in run[0].base && a < PageSize(p) ==>
      ByteIs(run[n], p, a, Effective(run[c].log, p, a, AllocatedByte(run[0], p, a)))
  }

  function AllocatedByte(s: State, p: PageKey, a: nat): byte {
    if p in s.base && a < |s.base[p]| then s.base[p][a] else 0
  }

  predicate ByteIs(s: State, p: PageKey, a: nat, v: byte) {
    p in s.disk && a < |s.Cur(p)| && s.Cur(p)[a] == v
  }

  /** Whatever happens after resuming from `s`, every recovery that completes is right. */
  ghost predicate SafeToResume(s: State) {
    forall run: seq<State>, acts: seq<Action>, c: nat,
      n: nat {:trigger Continues(s, run, acts), CompletesRecovery(run, c, n)} ::
      Continues(s, run, acts) && CompletesRecovery(run, c, n) ==> RecoversRight(run, c, n)
  }

  lemma ResumeNext(s: State)
    requires Global(s) && s.phase.Recovered?
    ensures Shape(s) && Possible(s, Resume) && Next(s, Resume) == Resumed(s)
  {
  }

  lemma ChangeEnabled(s: State, p: PageKey, now: seq<byte>)
    requires Global(s) && s.phase.Recovered? && p in s.frames && |now| == PageSize(p) && now != s.frames[p].data
    ensures var u := Resumed(s);
            && Shape(u) && |s.frames[p].data| == |now| && Enabled(u, UpdatePage(0, p, now))
            && Next(u, UpdatePage(0, p, now)) == Changed(u, DiffRecord(s.nextLsn, 0, p, s.frames[p].data, now), now)
  {
    hide LsnOrdered, IdsNotReused, CheckpointHolds, OpenAt, WellSized, DiffStart, DiffEnd, DiffRecord, Changed, LogDiff;
    ResumedGlobal(s);
    var u := Resumed(s);
    LogDiffIsChanged(u, 0, p, now);
    assert u.All() == s.log by { assert s.All() == s.log; }
    forall i | 0 <= i < |s.log| && s.log[i].IsWrite() ensures s.log[i].txn == 0 || Ended(s.log, s.log[i].txn) {
      NobodyIsOpen(s, i);
    }
  }

  lemma NormalStep(s: State, act: Action)
    requires Global(s) && (act.Crash? || (act.TakeCheckpoint? && s.phase.Up?))
    ensures Shape(s) && Enabled(s, act) && Next(s, act) == if act.Crash? then CrashOf(s) else CheckpointStep(s)
  {
  }

  lemma HoldsGlobal(s: State)
    requires Holds(s)
    ensures Global(s)
  {
  }

  lemma ContinuesOn(s: State, run: seq<State>, acts: seq<Action>, act: Action)
    returns (run': seq<State>, acts': seq<Action>)
    requires Continues(s, run, acts) && Shape(run[|acts|]) && Enabled(run[|acts|], act)
    ensures Continues(s, run', acts') && |run'| == |acts'| + 1
    ensures acts' == acts + [act] && run'[|acts'|] == Next(run[|acts|], act)
  {
    hide Shape, Possible, RespectsIds, RespectsWrites, RespectsUndo, Next;
    run', acts' := Snoc(run, acts, act);
  }

  /** The doomed continuation: resume, one logged change of the page, a checkpoint, a crash. */
  lemma DoomedRun(s: State, p: PageKey, now: seq<byte>) returns (run: seq<State>, acts: seq<Action>)
    requires Holds(s) && s.phase.Recovered? && p in s.frames && |now| == PageSize(p) && now != s.frames[p].data
    requires |now| == |s.frames[p].data|
    ensures acts == [Resume, UpdatePage(0, p, now), TakeCheckpoint, Crash]
    ensures Continues(s, run, acts) && |run| == 5 && run[4] == Doom(s, p, now)
  {
    hide Holds, Global, Shape, Enabled, Possible, Next, Changed, Resumed, CheckpointStep, DiffRecord, CrashOf,
      Continues;
    HoldsGlobal(s);
    ResumeNext(s);
    ResumedIsUp(s);
    ChangeEnabled(s, p, now);
    var r := ChangeRecord(s, p, now);
    ChangedIsUp(Resumed(s), r, now);
    var v := Changed(Resumed(s), r, now);
    NormalStep(v, TakeCheckpoint);
    CheckpointGlobal(v);
    NormalStep(CheckpointStep(v), Crash);
    run, acts := ContinuesFirst(s);
    run, acts := ContinuesOn(s, run, acts, UpdatePage(0, p, now));
    run, acts := ContinuesOn(s, run, acts, TakeCheckpoint);
    run, acts := ContinuesOn(s, run, acts, Crash);
  }

  lemma ContinuesFirst(s: State) returns (run: seq<State>, acts: seq<Action>)
    requires Shape(s) && Possible(s, Resume)
    ensures run == [s, Next(s, Resume)] && acts == [Resume] && Continues(s, run, acts)
  {
    hide Shape, Possible, Next;
    run, acts := [s, Next(s, Resume)], [Resume];
  }

  lemma ResumedIsUp(s: State)
    ensures Resumed(s).phase.Up? && Resumed(s).frames == s.frames
  {
  }

  lemma ChangedIsUp(s: State, r: Record, now: seq<byte>)
    requires r.IsWrite() && r.page in s.frames
    ensures Changed(s, r, now).phase == s.phase
  {
  }

  lemma JoinContinues(s: State, run: seq<State>, acts: seq<Action>, more: seq<State>, moreActs: seq<Action>)
    returns (run': seq<State>, acts': seq<Action>)
    requires Continues(s, run, acts) && IsRun(more, moreActs) && more[0] == run[|acts|]
    ensures Continues(s, run', acts') && |run'| == |acts'| + 1 && |acts'| == |acts| + |moreActs|
    ensures forall i :: 0 <= i < |more| ==> run'[|acts| + i] == more[i]
  {
    hide Shape, Possible, RespectsIds, RespectsWrites, RespectsUndo, Next;
    run', acts' := JoinSteps(run, acts, more, moreActs);
    forall i | 1 <= i < |acts'| ensures Enabled(run'[i], acts'[i]) {
      if i >= |acts| { assert run'[|acts| + (i - |acts|)] == more[i - |acts|]; }
    }
  }

  /** Resuming with a blind page has a continuation whose recovery completes and leaves a byte wrong. */
  lemma BlindResumeGoesWrong(s: State, p: PageKey) returns (run: seq<State>, acts: seq<Action>, n: nat)
    requires Holds(s) && s.phase.Recovered? && BlindDirty(s, p)
    ensures Continues(s, run, acts) && CompletesRecovery(run, 4, n) && !RecoversRight(run, 4, n)
  {
    hide Holds, Global, BlindDirty, Effective, Disciplined, Repairable, Doom, IsRun, Continues;
    var now, a := BlindResumeLosesUndo(s, p);
    var first, firstActs := DoomedRun(s, p, now);
    ContinuesLength(s, first, firstActs);
    var d := Doom(s, p, now);
    var more, moreActs := RecoveryCompletes(d);
    n := 4 + |moreActs|;
    run, acts := JoinContinues(s, first, firstActs, more, moreActs);
    UnrepairableStaysWrong(more, moreActs, |moreActs|, p, a);
    RecoveryRecovers(d, more, moreActs, p, a);
    assert run[4] == more[0] && run[n] == more[|moreActs|];
    HoldsAByte(s, p, a);
    ContinuesLength(s, run, acts);
    assert AllocatedByte(run[0], p, a) == s.base[p][a];
    assert !ByteIs(run[n], p, a, Effective(run[4].log, p, a, AllocatedByte(run[0], p, a)));
    forall i | 4 <= i < n ensures Recovering(run[i].phase) {
      assert run[i] == more[i - 4];
    }
  }

  lemma ContinuesLength(s: State, run: seq<State>, acts: seq<Action>)
    requires Continues(s, run, acts)
    ensures |run| == |acts| + 1 && run[0] == s
  {
  }

  lemma RecoveryRecovers(d: State, run: seq<State>, acts: seq<Action>, p: PageKey, a: nat)
    requires IsRecovery(run, acts) && run[0] == d && Global(d) && AByte(d, p, a)
    requires Disciplined(d.log, p, a, d.base[p][a]) && !Repairable(d, p, a)
    ensures forall i :: 0 <= i < |run| ==> Recovering(run[i].phase)
  {
    hide Global, Disciplined, Repairable, IsRecovery;
    RecoveryLength(run, acts);
    DownIsPassive(d, p, a);
    forall i | 0 <= i < |run| ensures Recovering(run[i].phase) {
      PassiveRun(run, acts, i, p, a);
    }
  }

  /** It is safe to resume after a recovery exactly when no page is blind: if none is, every recovery
      that any continuation completes is right, and if one is, some continuation completes a recovery
      that leaves a byte wrong. */
  lemma ResumeIsSafeIff(s: State)
    requires Holds(s) && s.phase.Recovered?
    ensures SafeToResume(s) <==> forall p :: p in s.dirty ==> !BlindDirty(s, p)
  {
    hide Holds, BlindDirty, Effective;
    if p :| p in s.dirty && BlindDirty(s, p) {
      var run, acts, n := BlindResumeGoesWrong(s, p);
      assert CompletesRecovery(run, 4, n);
    } else {
      forall run: seq<State>, acts: seq<Action>, c: nat, n: nat | Continues(s, run, acts)
        && CompletesRecovery(run, c, n)
        ensures RecoversRight(run, c, n)
      {
        GuardedIsRun(s, run, acts);
        forall p, a: nat | p in s.base && a < PageSize(p)
          ensures ByteIs(run[n], p, a, Effective(run[c].log, p, a, AllocatedByte(s, p, a)))
        {
          GuardedIsRight(s, run, acts, c, n, p, a);
        }
      }
    }
  }

  lemma GuardedIsRun(s: State, run: seq<State>, acts: seq<Action>)
    requires Continues(s, run, acts) && forall p :: p in s.dirty ==> !BlindDirty(s, p)
    ensures IsRun(run, acts) && run[0] == s
  {
    hide Shape, Possible, RespectsWrites, Next, BlindDirty;
    assert Enabled(s, acts[0]) by { ResumeEnabled(s); }
  }

  lemma ResumeEnabled(s: State)
    requires Shape(s) && Possible(s, Resume) && forall p :: p in s.dirty ==> !BlindDirty(s, p)
    ensures Enabled(s, Resume)
  {
  }

  lemma GuardedIsRight(s: State, run: seq<State>, acts: seq<Action>, c: nat, n: nat, p: PageKey, a: nat)
    requires Holds(s) && IsRun(run, acts) && run[0] == s && CompletesRecovery(run, c, n) && p in s.base
    requires a < PageSize(p)
    ensures ByteIs(run[n], p, a, Effective(run[c].log, p, a, AllocatedByte(s, p, a)))
  {
    hide Holds, Effective, IsRun, Global;
    RecoveryIsRight(run, acts, c, n, p, a);
    RunHolds(run, acts, n);
    HoldsAByte(run[n], p, a);
    HoldsAByte(s, p, a);
  }

  lemma HoldsAByte(s: State, p: PageKey, a: nat)
    requires Holds(s) && p in s.base && a < PageSize(p)
    ensures p in s.disk && a < |s.base[p]| && a < |s.Cur(p)|
  {
  }
}
