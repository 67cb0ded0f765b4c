/** What a checkpoint writes, told from the run that came before it: the dirty pages, each with the first
    change that its file may lack, and the open transactions, each with its last record. */
module Checkpoints {
  import opened Records
  import opened Engine
  import opened EngineLog
  import opened EngineFlush
  import opened EngineUp
  import opened EngineRecover
  import opened CrashSafety
  import opened ReusedIds

  // ---------------------------------------------------------------- what a step does to one page

  /** The step changes page `p` and gives it the LSN of that change: it logs a new change, or redo
      repeats a logged one.  (What undo writes gets no LSN on its page.) */
  ghost predicate ChangesAs(s: State, act: Action, s': State, p: PageKey, lsn: nat) {
    || (act.UpdatePage? && |s'.All()| == |s.All()| + 1
        && s'.All()[|s.All()|].IsWrite() && s'.All()[|s.All()|].page == p && s'.All()[|s.All()|].lsn == lsn)
    || (act.RedoNext? && s.phase.Redo? && s.phase.next < |s.log| && Redoable(s.phase.an.dpt, s.log[s.phase.next])
        && s.log[s.phase.next].page == p && s.log[s.phase.next].lsn == lsn)
  }

  /** Moment `m` is the last one before `n` at which page `p` had no frame or was just written to its
      file. */
  ghost predicate Since(run: seq<State>, acts: seq<Action>, m: nat, n: nat, p: PageKey) {
    && m <= n < |run| == |acts| + 1
    && (p !in run[m].frames || (m > 0 && acts[m - 1] == FlushPage(p)))
    && (forall k {:trigger run[k]} :: m < k <= n ==> p in run[k].frames)
    && forall k {:trigger acts[k]} :: m <= k < n ==> acts[k] != FlushPage(p)
  }

  ghost predicate ChangedAt(run: seq<State>, acts: seq<Action>, k: nat, p: PageKey, lsn: nat) {
    k < |acts| && |run| == |acts| + 1 && ChangesAs(run[k], acts[k], run[k + 1], p, lsn)
  }

  ghost predicate NotChanged(run: seq<State>, acts: seq<Action>, m: nat, n: nat, p: PageKey) {
    forall k: nat, l: nat {:trigger ChangedAt(run, acts, k, p, l)} :: m <= k < n ==> !ChangedAt(run, acts, k, p, l)
  }

  /** The first change of page `p` between `m` and `n` has the LSN `lsn`; 0 stands for no change. */
  ghost predicate FirstFrom(run: seq<State>, acts: seq<Action>, m: nat, n: nat, p: PageKey, lsn: nat) {
    if lsn == 0 then NotChanged(run, acts, m, n, p)
    else exists k: nat {:trigger ChangedAt(run, acts, k, p, lsn)} ::
        m <= k < n && ChangedAt(run, acts, k, p, lsn) && NotChanged(run, acts, m, k, p)
  }

  /** `lsn` is the first change of page `p` since its frame was fetched or last written to its file. */
  ghost predicate FirstChange(run: seq<State>, acts: seq<Action>, n: nat, p: PageKey, lsn: nat) {
    exists m: nat {:trigger Since(run, acts, m, n, p)} ::
      Since(run, acts, m, n, p) && FirstFrom(run, acts, m, n, p, lsn)
  }

  /** There is one such moment, so one such LSN. */
  lemma SinceOnce(run: seq<State>, acts: seq<Action>, m: nat, m': nat, n: nat, p: PageKey)
    requires Since(run, acts, m, n, p) && Since(run, acts, m', n, p)
    ensures m == m'
  {
  }

  // ---------------------------------------------------------------- recLSNs

  function RecLsn(frames: map<PageKey, Frame>, p: PageKey): nat {
    if p in frames then frames[p].recLsn else 0
  }

  /** Only dirty frames have a recLSN. */
  ghost predicate CleanIsZero(frames: map<PageKey, Frame>, dirty: set<PageKey>) {
    forall p {:trigger frames[p]} :: p in frames && p !in dirty ==> frames[p].recLsn == 0
  }

  ghost predicate Clean(s: State) {
    CleanIsZero(s.frames, s.dirty)
  }

  lemma FetchRecLsn(s: State, p: PageKey)
    requires p in s.disk && Clean(s)
    ensures Clean(Fetch(s, p)) && p in Fetch(s, p).frames
    ensures forall x {:trigger RecLsn(Fetch(s, p).frames, x)} :: RecLsn(Fetch(s, p).frames, x) == RecLsn(s.frames, x)
  {
  }

  lemma WriteFrameRecLsn(s: State, p: PageKey, data: seq<byte>)
    requires p in s.frames && Clean(s)
    ensures Clean(WriteFrame(s, p, data)) && p in WriteFrame(s, p, data).frames
    ensures forall x {:trigger RecLsn(WriteFrame(s, p, data).frames, x)} ::
      RecLsn(WriteFrame(s, p, data).frames, x) == RecLsn(s.frames, x)
  {
  }

  lemma UpdateLsnRecLsn(s: State, p: PageKey, lsn: nat)
    requires p in s.frames && Clean(s)
    ensures Clean(UpdateLsn(s, p, lsn))
    ensures forall x {:trigger RecLsn(UpdateLsn(s, p, lsn).frames, x)} ::
      RecLsn(UpdateLsn(s, p, lsn).frames, x)
      == if x == p && RecLsn(s.frames, p) == 0 then lsn else RecLsn(s.frames, x)
  {
  }

  /** The frames after a step that gives page `p` the LSN `lsn`, or none if `lsn` is 0. */
  ghost predicate Stamps(s: State, s': State, p: PageKey, lsn: nat) {
    && Clean(s')
    && forall x {:trigger RecLsn(s'.frames, x)} ::
        RecLsn(s'.frames, x) == if x == p && RecLsn(s.frames, p) == 0 then lsn else RecLsn(s.frames, x)
  }

  lemma UpdateStamps(s: State, t: nat, p: PageKey, data: seq<byte>)
    requires Shape(s) && Possible(s, UpdatePage(t, p, data)) && Clean(s)
    ensures var s' := Next(s, UpdatePage(t, p, data));
            && (s.Cur(p) == data ==> s'.All() == s.All() && Stamps(s, s', p, 0))
            && (s.Cur(p) != data ==>
                  && Stamps(s, s', p, s.nextLsn) && |s'.All()| == |s.All()| + 1
                  && var r := s'.All()[|s.All()|]; r.IsWrite() && r.page == p && r.lsn == s.nextLsn)
  {
    hide WellSized, DiffStart, DiffEnd, CleanIsZero, RecLsn, PageSize;
    FetchRecLsn(s, p);
    var s1 := Fetch(s, p);
    WriteFrameRecLsn(s1, p, data);
    var s2 := WriteFrame(s1, p, data);
    var was := s.Cur(p);
    if was != data {
      DiffNonempty(was, data);
      var r := DiffRecord(s2.nextLsn, t, p, was, data);
      var s3 := Append(s2, r);
      var s4 := if t != 0 then s3.(active := s3.active[t := s.nextLsn]) else s3;
      assert LogDiff(s2, t, p, was, data) == UpdateLsn(s4, p, s.nextLsn);
      UpdateLsnRecLsn(s4, p, s.nextLsn);
    }
  }

  lemma RedoStamps(s: State)
    requires Shape(s) && s.phase.Redo? && s.phase.next < |s.log| && Clean(s)
    ensures var r := s.log[s.phase.next];
            if Redoable(s.phase.an.dpt, r) then Stamps(s, RedoStep(s), r.page, r.lsn)
            else RedoStep(s).frames == s.frames && RedoStep(s).dirty == s.dirty
  {
    hide WellSized, Splice, CleanIsZero, RecLsn, PageSize;
    var r := s.log[s.phase.next];
    assert s.All()[s.phase.next] == r;
    assert InBounds(s.All()[s.phase.next]) by { WellSizedAt(s, s.phase.next); }
    if Redoable(s.phase.an.dpt, r) {
      FetchRecLsn(s, r.page);
      var s1 := Fetch(s, r.page);
      var now := Splice(s1.frames[r.page].data, r.off, r.redo);
      WriteFrameRecLsn(s1, r.page, now);
      UpdateLsnRecLsn(WriteFrame(s1, r.page, now), r.page, r.lsn);
    }
  }

  lemma WellSizedAt(s: State, i: nat)
    requires Shape(s) && i < |s.All()|
    ensures InBounds(s.All()[i]) && (s.All()[i].IsWrite() ==> s.All()[i].page in s.disk)
  {
  }

  lemma UndoStamps(s: State)
    requires Shape(s) && s.phase.Undo? && s.phase.next <= |s.All()| && Clean(s)
    ensures Clean(UndoStep(s))
    ensures forall x {:trigger RecLsn(UndoStep(s).frames, x)} :: RecLsn(UndoStep(s).frames, x) == RecLsn(s.frames, x)
  {
    hide WellSized, Splice, CleanIsZero, RecLsn, PageSize;
    if s.phase.next > 0 {
      var r := s.All()[s.phase.next - 1];
      WellSizedAt(s, s.phase.next - 1);
      if r.Update? && r.txn in s.phase.losers {
        FetchRecLsn(s, r.page);
        var s1 := Fetch(s, r.page);
        WriteFrameRecLsn(s1, r.page, Splice(s1.frames[r.page].data, r.off, r.undo));
      }
    }
  }

  /** One step: a page's recLSN goes to 0 when the page is written, and takes the LSN of a change when
      it was 0. */
  ghost predicate TakesFirst(s: State, act: Action, s': State, p: PageKey) {
    var was, now := RecLsn(s.frames, p), RecLsn(s'.frames, p);
    && (act == FlushPage(p) ==> now == 0)
    && (act != FlushPage(p) && p in s'.frames ==>
          && (forall l: nat {:trigger ChangesAs(s, act, s', p, l)} :: ChangesAs(s, act, s', p, l) ==>
                l > 0 && now == if was == 0 then l else was)
          && (was != now ==> ChangesAs(s, act, s', p, now)))
  }

  lemma StepRecLsn(s: State, act: Action, p: PageKey)
    requires Shape(s) && Possible(s, act) && Tables(s) && Clean(s)
    ensures Clean(Next(s, act)) && TakesFirst(s, act, Next(s, act), p)
  {
    hide Shape, TablesHold, Next, TakesFirst;
    match act {
      case UpdatePage(t, x, data) => UpdateTakesFirst(s, t, x, data, p);
      case RedoNext => RedoTakesFirst(s, p);
      case UndoNext => UndoTakesFirst(s, p);
      case _ => OtherTakesFirst(s, act, p);
    }
  }

  lemma UpdateTakesFirst(s: State, t: nat, x: PageKey, data: seq<byte>, p: PageKey)
    requires Shape(s) && Possible(s, UpdatePage(t, x, data)) && Tables(s) && Clean(s)
    ensures Clean(Next(s, UpdatePage(t, x, data)))
      && TakesFirst(s, UpdatePage(t, x, data), Next(s, UpdatePage(t, x, data)), p)
  {
    hide WellSized, TablesHold, Next, CleanIsZero, RecLsn;
    UpdateStamps(s, t, x, data);
    LsnsPositive(s);
    StampsMeans(s, Next(s, UpdatePage(t, x, data)), x, if s.Cur(x) == data then 0 else s.nextLsn, p);
  }

  lemma StampsMeans(s: State, s': State, x: PageKey, lsn: nat, p: PageKey)
    requires Stamps(s, s', x, lsn)
    ensures Clean(s')
    ensures RecLsn(s'.frames, p) == if p == x && RecLsn(s.frames, x) == 0 then lsn else RecLsn(s.frames, p)
  {
  }

  lemma RedoTakesFirst(s: State, p: PageKey)
    requires Shape(s) && Possible(s, RedoNext) && Tables(s) && Clean(s)
    ensures Clean(Next(s, RedoNext)) && TakesFirst(s, RedoNext, Next(s, RedoNext), p)
  {
    hide Shape, TablesHold, RedoStep, WellSized;
    LsnsPositive(s);
    if s.phase.next < |s.log| {
      RedoStamps(s);
    } else {
      RedoEnds(s);
    }
  }

  lemma UndoTakesFirst(s: State, p: PageKey)
    requires Shape(s) && Possible(s, UndoNext) && Clean(s)
    ensures Clean(Next(s, UndoNext)) && TakesFirst(s, UndoNext, Next(s, UndoNext), p)
  {
    hide Shape, UndoStep, WellSized;
    UndoStamps(s);
  }

  lemma OtherRecLsn(s: State, act: Action, p: PageKey)
    requires Shape(s) && Possible(s, act) && Clean(s)
    requires !act.UpdatePage? && !act.RedoNext? && !act.UndoNext?
    ensures Clean(Next(s, act)) && (act == FlushPage(p) ==> RecLsn(Next(s, act).frames, p) == 0)
    ensures act != FlushPage(p) && p in Next(s, act).frames ==>
      RecLsn(Next(s, act).frames, p) == RecLsn(s.frames, p)
  {
    hide WellSized, FlushLog, LogDiff, RedoStep, UndoStep, CheckpointRecord, AnalysisOf, PageSize;
    match act {
      case FlushPage(x) => FlushKeepsPool(s, s.frames[x].pageLsn);
      case EvictPage(x) => FlushKeepsPool(s, s.frames[x].pageLsn);
      case FlushLogTo(lsn) => FlushKeepsPool(s, lsn);
      case CommitTxn(t) => FlushKeepsPool(Append(s, Commit(s.nextLsn, t)).(active := s.active - {t}), s.nextLsn);
      case AbortTxn(t) => FlushKeepsPool(Append(s, Abort(s.nextLsn, t)).(active := s.active - {t}), s.nextLsn);
      case TakeCheckpoint => FlushKeepsPool(Append(s, CheckpointRecord(s)), s.nextLsn);
      case EndLoser(t) => FlushKeepsPool(Append(s, Abort(s.nextLsn, t)).(active := s.active - {t}), s.nextLsn);
      case _ =>
    }
  }

  lemma OtherTakesFirst(s: State, act: Action, p: PageKey)
    requires Shape(s) && Possible(s, act) && Clean(s)
    requires !act.UpdatePage? && !act.RedoNext? && !act.UndoNext?
    ensures Clean(Next(s, act)) && TakesFirst(s, act, Next(s, act), p)
  {
    hide Shape, Possible, Next, RecLsn, Redoable;
    OtherRecLsn(s, act, p);
  }

  lemma FlushKeepsPool(s: State, target: nat)
    ensures FlushLog(s, target).frames == s.frames && FlushLog(s, target).dirty == s.dirty
  {
  }

  lemma LsnsPositive(s: State)
    requires Tables(s)
    ensures s.nextLsn > 0 && forall i {:trigger s.log[i].lsn} :: 0 <= i < |s.log| ==> s.log[i].lsn > 0
  {
  }

  lemma RedoEnds(s: State)
    requires Shape(s) && s.phase.Redo? && s.phase.next == |s.log|
    ensures RedoStep(s).frames == s.frames && RedoStep(s).dirty == s.dirty
  {
  }

  // ---------------------------------------------------------------- recLSNs over a run

  lemma {:induction false} RunClean(run: seq<State>, acts: seq<Action>, n: nat)
    requires Steps(run, acts) && n < |run| && Initial(run[0])
    ensures Clean(run[n])
  {
    hide Shape, TablesHold, Possible, Next, CleanIsZero, TakesFirst;
    if n == 0 {
      InitialIsClean(run[0]);
    } else {
      RunClean(run, acts, n - 1);
      RunTables(run, acts, n - 1);
      StepRecLsn(run[n - 1], acts[n - 1], PageKey(true, 0));
    }
  }

  lemma InitialIsClean(s: State)
    requires Initial(s)
    ensures Clean(s)
  {
  }

  /** A frame has been there since some moment. */
  lemma {:induction false} SinceSome(run: seq<State>, acts: seq<Action>, n: nat, p: PageKey) returns (m: nat)
    requires Steps(run, acts) && n < |run| && Initial(run[0]) && p in run[n].frames
    ensures Since(run, acts, m, n, p)
  {
    hide Shape, Next;
    if p !in run[n - 1].frames {
      m := n - 1;
    } else if acts[n - 1] == FlushPage(p) {
      m := n;
    } else {
      m := SinceSome(run, acts, n - 1, p);
    }
  }

  lemma FirstStep(run: seq<State>, acts: seq<Action>, m: nat, n: nat, p: PageKey, was: nat, now: nat)
    requires |run| == |acts| + 1 && m <= n < |acts| && FirstFrom(run, acts, m, n, p, was)
    requires forall l: nat {:trigger ChangedAt(run, acts, n, p, l)} :: ChangedAt(run, acts, n, p, l) ==>
      l > 0 && now == if was == 0 then l else was
    requires was != now ==> ChangedAt(run, acts, n, p, now)
    ensures FirstFrom(run, acts, m, n + 1, p, now)
  {
    hide ChangedAt;
  }

  /** A frame's recLSN is the first change since the frame was fetched or last written. */
  lemma {:induction false} RecLsnIsFirst(run: seq<State>, acts: seq<Action>, m: nat, n: nat, p: PageKey)
    requires Steps(run, acts) && Initial(run[0]) && Since(run, acts, m, n, p)
    ensures FirstFrom(run, acts, m, n, p, RecLsn(run[n].frames, p))
    decreases n
  {
    hide Shape, TablesHold, Possible, Next, Initial, Clean, ChangesAs, FirstFrom;
    if n == m {
      WrittenOrAbsent(run, acts, n, p);
      NothingBetween(run, acts, n, p);
    } else {
      RecLsnIsFirst(run, acts, m, n - 1, p);
      RunTables(run, acts, n - 1);
      RunClean(run, acts, n - 1);
      StepRecLsn(run[n - 1], acts[n - 1], p);
      FirstStep(run, acts, m, n - 1, p, RecLsn(run[n - 1].frames, p), RecLsn(run[n].frames, p));
    }
  }

  lemma WrittenOrAbsent(run: seq<State>, acts: seq<Action>, n: nat, p: PageKey)
    requires Steps(run, acts) && Initial(run[0]) && n < |run|
    requires p !in run[n].frames || (n > 0 && acts[n - 1] == FlushPage(p))
    ensures RecLsn(run[n].frames, p) == 0
  {
    hide Shape, TablesHold, Possible, Next, Initial, Clean, ChangesAs;
    if p in run[n].frames {
      RunTables(run, acts, n - 1);
      RunClean(run, acts, n - 1);
      StepRecLsn(run[n - 1], acts[n - 1], p);
    }
  }

  lemma NothingBetween(run: seq<State>, acts: seq<Action>, n: nat, p: PageKey)
    ensures FirstFrom(run, acts, n, n, p, 0)
  {
  }

  // ---------------------------------------------------------------- last records of transactions

  /** The last record of transaction `t` has the LSN `lsn`. */
  ghost predicate LastRecord(log: seq<Record>, t: nat, lsn: nat) {
    exists j {:trigger log[j].Of(t)} :: 0 <= j < |log| && log[j].Of(t) && log[j].lsn == lsn
      && forall k {:trigger log[k].Of(t)} :: j < k < |log| ==> !log[k].Of(t)
  }

  ghost predicate ActiveLast(s: State) {
    forall t {:trigger s.active[t]} :: t in s.active && t != 0 ==> LastRecord(s.All(), t, s.active[t])
  }

  lemma LastAppend(log: seq<Record>, r: Record, t: nat, lsn: nat)
    requires if r.Of(t) then r.lsn == lsn else LastRecord(log, t, lsn)
    ensures LastRecord(log + [r], t, lsn)
  {
    var all := log + [r];
    if r.Of(t) {
      assert all[|log|].Of(t);
    } else {
      var j :| 0 <= j < |log| && log[j].Of(t) && log[j].lsn == lsn
        && forall k {:trigger log[k].Of(t)} :: j < k < |log| ==> !log[k].Of(t);
      assert all[j].Of(t);
      forall k {:trigger all[k].Of(t)} | j < k < |all| ensures !all[k].Of(t) {
        if k < |log| { assert !log[k].Of(t); }
      }
    }
  }

  /** A step writes no record, or one that the table of active transactions takes note of, or forgets
      the table. */
  ghost predicate Notes(s: State, s': State) {
    || s'.active == map[]
    || (s'.All() == s.All() && s'.active == s.active)
    || (|s'.All()| == |s.All()| + 1 && s'.All() == s.All() + [s'.All()[|s.All()|]]
        && s'.active == AnalysisStep(Analysis(map[], s.active), s'.All()[|s.All()|]).att)
  }

  lemma NotesKeeps(s: State, s': State)
    requires ActiveLast(s) && Notes(s, s')
    ensures ActiveLast(s')
  {
    hide LastRecord;
    if s'.active != map[] && !(s'.All() == s.All() && s'.active == s.active) {
      var r := s'.All()[|s.All()|];
      forall t {:trigger s'.active[t]} | t in s'.active && t != 0 ensures LastRecord(s'.All(), t, s'.active[t]) {
        LastAppend(s.All(), r, t, s'.active[t]);
      }
    }
  }

  lemma FlushKeepsLog(s: State, target: nat)
    ensures FlushLog(s, target).All() == s.All() && FlushLog(s, target).active == s.active
  {
    var k := FlushCount(s.buf, target);
    FlushedAll(s, k);
  }

  lemma FlushedNotes(s: State, r: Record)
    requires r.lsn == s.nextLsn
    ensures Notes(s, Noted(s, r)) && Notes(s, FlushLog(Noted(s, r), s.nextLsn))
  {
    hide FlushLog, AnalysisStep;
    NotedAll(s, r);
    FlushKeepsLog(Noted(s, r), s.nextLsn);
  }

  lemma StepNotes(s: State, act: Action)
    requires Shape(s) && Possible(s, act)
    ensures Notes(s, Next(s, act))
  {
    hide WellSized, FlushLog, LogDiff, RedoStep, UndoStep, CheckpointRecord, AnalysisOf, Splice, PageSize, Redoable;
    match act {
      case BeginTxn(t) => FlushedNotes(s, Begin(s.nextLsn, t));
      case UpdatePage(t, p, data) => UpdateNotes(s, t, p, data);
      case CommitTxn(t) => FlushedNotes(s, Commit(s.nextLsn, t));
      case AbortTxn(t) => FlushedNotes(s, Abort(s.nextLsn, t));
      case TakeCheckpoint =>
        CheckpointIs(s);
        FlushedNotes(s, CheckpointRecord(s));
        assert CheckpointStep(s).All() == FlushLog(Noted(s, CheckpointRecord(s)), s.nextLsn).All();
      case RedoNext => RedoKeepsLogOf(s);
      case UndoNext => UndoNotes(s);
      case FinishRecovery =>
      case EndLoser(t) =>
        FlushedNotes(s, Abort(s.nextLsn, t));
        assert EndStep(s, t).All() == FlushLog(Noted(s, Abort(s.nextLsn, t)), s.nextLsn).All();
      case FlushPage(p) => WriteBackKeepsLog(s, p);
      case EvictPage(p) =>
        WriteBackKeepsLog(s, p);
        assert Drop(WriteBack(s, p), p).All() == WriteBack(s, p).All();
      case FlushLogTo(lsn) => FlushKeepsLog(s, lsn);
      case _ =>
    }
  }

  lemma WriteBackKeepsLog(s: State, p: PageKey)
    requires p in s.frames
    ensures WriteBack(s, p).All() == s.All() && WriteBack(s, p).active == s.active
  {
    hide FlushLog;
    FlushKeepsLog(s, s.frames[p].pageLsn);
    assert WriteBack(s, p).All() == ForceFor(s, p).All() || p !in s.dirty;
  }

  lemma UpdateNotes(s: State, t: nat, p: PageKey, data: seq<byte>)
    requires Shape(s) && Possible(s, UpdatePage(t, p, data))
    ensures Notes(s, Next(s, UpdatePage(t, p, data)))
  {
    hide WellSized, PageSize, Changed, DiffRecord, AnalysisStep, LogDiff;
    var s1, was := Fetch(s, p), s.Cur(p);
    assert s1.All() == s.All();
    if was == data {
      assert WriteFrame(s1, p, data).All() == s.All();
    } else {
      var r := DiffRecord(s.nextLsn, t, p, was, data);
      DiffRecordIs(s.nextLsn, t, p, was, data);
      LogDiffIsChanged(s1, t, p, data);
      ChangedAll(s1, r, data);
    }
  }

  lemma RedoKeepsLogOf(s: State)
    requires Shape(s) && s.phase.Redo? && s.phase.next <= |s.log|
    ensures RedoStep(s).All() == s.All() && RedoStep(s).active == s.active
  {
    hide WellSized, Splice, PageSize, Redoable;
    if s.phase.next < |s.log| {
      assert s.All()[s.phase.next] == s.log[s.phase.next];
      WellSizedAt(s, s.phase.next);
    }
  }

  lemma RevertedNotes(s: State, r: Record)
    requires r.Update? && r.page in s.frames && r.off + |r.undo| <= |s.frames[r.page].data|
    requires s.phase.Undo? && s.phase.next > 0
    ensures Notes(s, Reverted(s, r))
  {
    hide Splice;
    RevertedAll(s, r);
  }

  lemma UndoNotes(s: State)
    requires Shape(s) && s.phase.Undo? && s.phase.next <= |s.All()|
    ensures Notes(s, UndoStep(s))
  {
    hide WellSized, Splice, PageSize, AnalysisStep;
    if s.phase.next > 0 {
      var r := s.All()[s.phase.next - 1];
      WellSizedAt(s, s.phase.next - 1);
      if r.Update? && r.txn in s.phase.losers {
        assert UndoStep(s) == Reverted(Fetch(s, r.page), r);
        assert Fetch(s, r.page).All() == s.All();
        RevertedNotes(Fetch(s, r.page), r);
      } else {
        assert UndoStep(s).All() == s.All();
      }
    } else {
      assert UndoStep(s).All() == s.All();
    }
  }

  lemma {:induction false} RunActive(run: seq<State>, acts: seq<Action>, n: nat)
    requires Steps(run, acts) && n < |run| && Initial(run[0])
    ensures ActiveLast(run[n])
  {
    hide Shape, Possible, Next, LastRecord, Notes;
    if n > 0 {
      RunActive(run, acts, n - 1);
      StepNotes(run[n - 1], acts[n - 1]);
      NotesKeeps(run[n - 1], run[n]);
    }
  }

  // ---------------------------------------------------------------- the record

  /** What a checkpoint writes at any point of any run: its page table has exactly the dirty pages, each
      with the first change since its frame was fetched or last written to its file, and its transaction
      table exactly the transactions that the log leaves open, each with its last record. */
  lemma CheckpointLists(run: seq<State>, acts: seq<Action>, i: nat)
    requires Steps(run, acts) && Initial(run[0]) && i < |acts| && (acts[i].TakeCheckpoint? || acts[i].TornCheckpoint?)
    ensures |run[i + 1].log| == |run[i].All()| + 1 && run[i + 1].log[..|run[i].All()|] == run[i].All()
    ensures var r := run[i + 1].log[|run[i].All()|];
            && r.Checkpoint? && r.lsn == run[i].nextLsn && r.dpt.Keys == run[i].dirty
            && (forall p {:trigger r.dpt[p]} :: p in r.dpt ==> FirstChange(run, acts, i, p, r.dpt[p]))
            && (forall t {:trigger r.att[t]} :: t in r.att && t != 0 ==> LastRecord(run[i].All(), t, r.att[t]))
            && (forall t {:trigger LeftOpen(run[i].All(), |run[i].All()|, t)} :: t != 0 ==>
                  (t in r.att <==> LeftOpen(run[i].All(), |run[i].All()|, t)))
            && (acts[i].TakeCheckpoint? ==> run[i + 1].chkLsn == r.lsn)
  {
    hide Initial, LastRecord, LeftOpen, WellSized, LsnOrdered, CheckpointLeftOpen, FlushLog, FirstFrom, Since;
    var s := run[i];
    RunTables(run, acts, i);
    RunActive(run, acts, i);
    CheckpointTables(s);
    var r := CheckpointRecord(s);
    CheckpointIs(s);
    NotedAll(s, r);
    AllBelowNext(s, r);
    assert run[i + 1].log == s.All() + [r];
    forall p | p in r.dpt ensures FirstChange(run, acts, i, p, r.dpt[p]) {
      var m := SinceSome(run, acts, i, p);
      RecLsnIsFirst(run, acts, m, i, p);
    }
  }

  lemma AllBelowNext(s: State, r: Record)
    requires Tables(s) && r.lsn == s.nextLsn && Noted(s, r).All() == s.All() + [r]
    ensures FlushLog(Noted(s, r), s.nextLsn).log == s.All() + [r]
  {
    hide FlushLog, CheckpointLeftOpen, AttLeftOpen, LosersOpen, AnalysisOf, AnalysisStep;
    OrderGrows(s.All(), s.nextLsn, r);
    var s' := Noted(s, r);
    forall i | 0 <= i < |s'.buf| ensures s'.buf[i].lsn <= s.nextLsn {
      assert s'.All()[|s'.log| + i] == s'.buf[i];
    }
    FlushNewest(s', s.nextLsn);
  }
}
