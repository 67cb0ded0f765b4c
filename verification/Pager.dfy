/** The pager as an object: the operations of the state machine, performed on fields, and the
    recovery loops. */
module Pagers {
  import opened Wrappers
  import opened Records
  import opened Engine
  import opened EngineLog
  import opened EngineInv
  import opened EngineFlush
  import opened EngineUp
  import opened EngineRecover
  import opened EngineEnd
  import opened CrashSafety

  datatype RecoveryReport = RecoveryReport(checkpointLsn: nat, redone: nat, undone: nat, losers: set<nat>)

  function CountRedoable(log: seq<Record>, n: nat, dpt: map<PageKey, nat>): nat
    requires n <= |log|
  {
    if n == 0 then 0 else CountRedoable(log, n - 1, dpt) + if Redoable(dpt, log[n - 1]) then 1 else 0
  }

  /** How many of the records from position `i` on are Updates of the losers. */
  function CountLost(log: seq<Record>, i: nat, losers: set<nat>): nat
    requires i <= |log|
    decreases |log| - i
  {
    if i == |log| then 0
    else CountLost(log, i + 1, losers) + if log[i].Update? && log[i].txn in losers then 1 else 0
  }

  ghost function RedoableAmong(log: seq<Record>, n: nat, dpt: map<PageKey, nat>): set<nat>
    requires n <= |log|
  {
    set i: nat | i < n && Redoable(dpt, log[i])
  }

  lemma {:induction false} CountRedoableIs(log: seq<Record>, n: nat, dpt: map<PageKey, nat>)
    requires n <= |log|
    ensures CountRedoable(log, n, dpt) == |RedoableAmong(log, n, dpt)|
  {
    hide Redoable;
    if n > 0 {
      CountRedoableIs(log, n - 1, dpt);
      OneMore(RedoableAmong(log, n - 1, dpt), RedoableAmong(log, n, dpt), n - 1, Redoable(dpt, log[n - 1]));
    }
  }

  lemma OneMore(before: set<nat>, all: set<nat>, x: nat, more: bool)
    requires x !in before && forall i: nat :: i in all <==> i in before || (more && i == x)
    ensures |all| == |before| + if more then 1 else 0
  {
    if more { assert all == before + {x}; } else { assert all == before; }
  }

  ghost function LostFrom(log: seq<Record>, n: nat, losers: set<nat>): set<nat> {
    set i: nat | n <= i < |log| && log[i].Update? && log[i].txn in losers
  }

  lemma {:induction false} CountLostIs(log: seq<Record>, n: nat, losers: set<nat>)
    requires n <= |log|
    ensures CountLost(log, n, losers) == |LostFrom(log, n, losers)|
    decreases |log| - n
  {
    if n < |log| {
      CountLostIs(log, n + 1, losers);
      OneMore(LostFrom(log, n + 1, losers), LostFrom(log, n, losers), n, log[n].Update? && log[n].txn in losers);
    }
  }

  /** The records that a recovery from this log repeats. */
  ghost function RedoneAt(log: seq<Record>, chk: nat): set<nat> {
    set i: nat | i < |log| && InRedo(log, chk, log[i])
  }

  /** The records that it reverts: the Updates of transactions left open. */
  ghost function LostAt(log: seq<Record>): set<nat> {
    set i: nat | i < |log| && log[i].Update? && OpenAt(log, |log|, log[i].txn)
  }

  /** The report of a recovery: how many records are redone and undone, and which transactions lose. */
  lemma ReportIs(s: State)
    requires Global(s)
    ensures var an := AnalysisOf(s.log, s.chkLsn);
            && CountRedoable(s.log, |s.log|, an.dpt) == |RedoneAt(s.log, s.chkLsn)|
            && CountLost(s.log, 0, an.att.Keys - {0}) == |LostAt(s.log)|
            && forall t {:trigger OpenAt(s.log, |s.log|, t)} :: t in an.att.Keys - {0} <==> OpenAt(s.log, |s.log|, t)
  {
    hide LsnOrdered, CheckpointHolds, Shape, AnalysisOf, InRedo, OpenAt, Redoable, PhaseHolds;
    var an, log := AnalysisOf(s.log, s.chkLsn), s.log;
    OpenPrefixIds(s);
    CountRedoableIs(log, |log|, an.dpt);
    CountLostIs(log, 0, an.att.Keys - {0});
    forall i: nat | i < |log| ensures Redoable(an.dpt, log[i]) <==> InRedo(log, s.chkLsn, log[i]) {
      RedoableIsInRedo(log, s.chkLsn, i, s.diskNext);
    }
    forall t ensures t in an.att.Keys - {0} <==> OpenAt(log, |log|, t) {
      LosersAreOpen(log, s.chkLsn, s.diskNext, t);
    }
    assert RedoableAmong(log, |log|, an.dpt) == RedoneAt(log, s.chkLsn);
    assert LostFrom(log, 0, an.att.Keys - {0}) == LostAt(log);
  }

  /** The log file reuses no id either. */
  lemma OpenPrefixIds(s: State)
    requires Global(s)
    ensures IdsNotReused(s.log)
  {
    assert forall i :: 0 <= i < |s.log| ==> s.All()[i] == s.log[i];
  }

  /** The record of a change from `was` to `now`: it holds the images of the smallest range outside which
      the page did not change. */
  ghost predicate IsTightDiff(r: Record, lsn: nat, t: nat, p: PageKey, was: seq<byte>, now: seq<byte>) {
    && r.Update? && r.lsn == lsn && r.txn == t && r.page == p
    && |r.undo| == |r.redo| > 0 && |was| == |now| && r.off + |r.redo| <= |was|
    && r.undo == was[r.off..r.off + |r.undo|] && r.redo == now[r.off..r.off + |r.redo|]
    && was[..r.off] == now[..r.off] && was[r.off + |r.redo|..] == now[r.off + |r.redo|..]
    && r.undo[0] != r.redo[0] && r.undo[|r.undo| - 1] != r.redo[|r.redo| - 1]
  }

  lemma DiffIsTight(s: State, t: nat, p: PageKey, data: seq<byte>)
    requires Shape(s) && Possible(s, Action.UpdatePage(t, p, data))
    ensures |s.Cur(p)| == |data|
    ensures var s' := Next(s, Action.UpdatePage(t, p, data));
            && s'.log == s.log && (s.Cur(p) == data ==> s'.buf == s.buf)
            && (s.Cur(p) != data ==>
                  && |s'.buf| == |s.buf| + 1 && s'.buf[..|s.buf|] == s.buf
                  && IsTightDiff(s'.buf[|s.buf|], s.nextLsn, t, p, s.Cur(p), data))
  {
    hide WellSized, PageSize, IsTightDiff;
    var was := s.Cur(p);
    if was != data {
      DiffRecordIsTight(s.nextLsn, t, p, was, data);
    }
  }

  lemma DiffRecordIsTight(lsn: nat, t: nat, p: PageKey, was: seq<byte>, now: seq<byte>)
    requires |was| == |now| && was != now
    ensures IsTightDiff(DiffRecord(lsn, t, p, was, now), lsn, t, p, was, now)
  {
    DiffNonempty(was, now);
  }

  /** The smallest contiguous range that holds every differing byte, or None for equal pages. */
  method PageDiff(was: seq<byte>, now: seq<byte>) returns (r: Option<(nat, nat)>)
    requires |was| == |now|
    ensures r.None? <==> was == now
    ensures r.Some? ==>
      var (start, end) := r.value;
      && start < end <= |was|
      && was[start] != now[start] && was[end - 1] != now[end - 1]
      && Splice(was, start, now[start..end]) == now
      && Splice(now, start, was[start..end]) == was
    ensures was != now ==> r == Some((DiffStart(was, now, 0), DiffEnd(was, now, |was|)))
  {
    hide Splice;
    var start := 0;
    while start < |was| && was[start] == now[start]
      invariant start <= |was|
      invariant forall a :: 0 <= a < start ==> was[a] == now[a]
      invariant DiffStart(was, now, 0) == DiffStart(was, now, start)
    {
      start := start + 1;
    }
    if start == |was| {
      assert was == now;
      return None;
    }
    var i := |was|;
    while was[i - 1] == now[i - 1]
      invariant start < i <= |was|
      invariant DiffEnd(was, now, |was|) == DiffEnd(was, now, i)
      decreases i
    {
      i := i - 1;
    }
    DiffRoundTrip(was, now);
    r := Some((start, i));
  }

  lemma SameEffectRefl(s: State)
    ensures SameEffect(s, s)
  {
  }

  lemma FlushPageIsWriteBack(s: State, p: PageKey)
    requires Holds(s) && p in s.frames
    ensures Shape(s) && Possible(s, Action.FlushPage(p)) && Next(s, Action.FlushPage(p)) == WriteBack(s, p)
    ensures Holds(WriteBack(s, p))
    ensures forall r :: r in ForceFor(s, p).buf ==> r.lsn > s.frames[p].pageLsn
  {
    hide Tracks, AllIsolated, Global, Shape, WriteBack, FlushLog;
    TracksGlobal(s);
    StepHolds(s, Action.FlushPage(p));
    ForcedLog(s, p);
  }

  class Pager {
    var disk: map<PageKey, seq<byte>>
    var frames: map<PageKey, Frame>
    var dirty: set<PageKey>
    var log: seq<Record>
    var buf: seq<Record>
    var nextLsn: nat
    var diskNext: nat
    var chkLsn: nat
    var active: map<nat, nat>
    ghost var base: map<PageKey, seq<byte>>
    ghost var phase: Phase

    ghost function View(): State
      reads this
    {
      State(base, disk, frames, dirty, log, buf, nextLsn, diskNext, chkLsn, active, phase)
    }

    // ---------------------------------------------------------------- the log

    method WriteRecord(r: Record)
      requires r.lsn == nextLsn
      modifies this`buf, this`nextLsn
      ensures View() == Append(old(View()), r)
    {
      buf := buf + [r];
      nextLsn := nextLsn + 1;
    }

    /** Writes the buffered records with LSNs up to `target` to the log file. */
    method FlushUpTo(target: nat)
      modifies this`log, this`buf, this`diskNext
      ensures View() == FlushLog(old(View()), target)
    {
      var k := 0;
      while k < |buf| && buf[k].lsn <= target
        invariant k <= |buf|
        invariant FlushCount(buf, target) == k + FlushCount(buf[k..], target)
      {
        assert buf[k..][1..] == buf[k + 1..];
        k := k + 1;
      }
      if k > 0 {
        log := log + buf[..k];
        buf := buf[k..];
        diskNext := nextLsn;
      }
    }

    // ---------------------------------------------------------------- transactions

    method BeginTransaction(t: nat)
      requires Holds(View()) && Enabled(View(), BeginTxn(t))
      modifies this
      ensures View() == Next(old(View()), BeginTxn(t)) && Holds(View())
      ensures buf == old(buf) + [Begin(old(nextLsn), t)] && log == old(log) && active == old(active)[t := old(nextLsn)]
    {
      hide Holds;
      StepHolds(View(), BeginTxn(t));
      var lsn := nextLsn;
      WriteRecord(Begin(lsn, t));
      active := active[t := lsn];
    }

    /** When commit returns, everything logged before it is in the log file. */
    method CommitTransaction(t: nat)
      requires Holds(View()) && Enabled(View(), Action.CommitTxn(t))
      modifies this
      ensures View() == Next(old(View()), Action.CommitTxn(t)) && Holds(View())
      ensures log == old(log + buf) + [Commit(old(nextLsn), t)] && buf == [] && active == old(active) - {t}
    {
      hide Tracks, AllIsolated, Global, Shape;
      TracksGlobal(View());
      StepHolds(View(), Action.CommitTxn(t));
      EndTracks(View(), Commit(nextLsn, t));
      var lsn := nextLsn;
      WriteRecord(Commit(lsn, t));
      active := active - {t};
      FlushUpTo(lsn);
    }

    /** Abort only logs: no page changes. */
    method AbortTransaction(t: nat)
      requires Holds(View()) && Enabled(View(), Action.AbortTxn(t))
      modifies this
      ensures View() == Next(old(View()), Action.AbortTxn(t)) && Holds(View())
      ensures disk == old(disk) && frames == old(frames)
      ensures log == old(log + buf) + [Abort(old(nextLsn), t)] && buf == [] && active == old(active) - {t}
    {
      hide Tracks, AllIsolated, Global, Shape;
      TracksGlobal(View());
      StepHolds(View(), Action.AbortTxn(t));
      EndTracks(View(), Abort(nextLsn, t));
      var lsn := nextLsn;
      WriteRecord(Abort(lsn, t));
      active := active - {t};
      FlushUpTo(lsn);
    }

    // ---------------------------------------------------------------- pages

    method FetchFrame(p: PageKey)
      requires p in disk
      modifies this`frames
      ensures View() == Fetch(old(View()), p)
    {
      if p !in frames {
        frames := frames[p := Frame(disk[p], 0, 0)];
      }
    }

    /** What dropping a page guard does. */
    method UpdatePageFrame(p: PageKey, data: seq<byte>)
      requires p in frames
      modifies this`frames, this`dirty
      ensures View() == WriteFrame(old(View()), p, data)
    {
      frames := frames[p := frames[p].(data := data)];
      dirty := dirty + {p};
    }

    method SetLsn(p: PageKey, lsn: nat)
      requires p in frames
      modifies this`frames, this`dirty
      ensures View() == UpdateLsn(old(View()), p, lsn)
    {
      var f := frames[p];
      frames := frames[p := Frame(f.data, lsn, if f.recLsn == 0 then lsn else f.recLsn)];
      dirty := dirty + {p};
    }

    /** Logs the byte range in which a page changed, if it did. */
    method LogPageDiff(t: nat, p: PageKey, was: seq<byte>, now: seq<byte>)
      requires p in frames && |was| == |now|
      modifies this`frames, this`dirty, this`buf, this`nextLsn, this`active
      ensures View() == if was == now then old(View()) else LogDiff(old(View()), t, p, was, now)
    {
      hide Splice, DiffStart, DiffEnd;
      var diff := PageDiff(was, now);
      if diff.Some? {
        var (lo, hi) := diff.value;
        var lsn := nextLsn;
        WriteRecord(Record.Update(lsn, t, p, lo, was[lo..hi], now[lo..hi]));
        if t != 0 {
          active := active[t := lsn];
        }
        SetLsn(p, lsn);
      }
    }

    /** Changes a page through a guard and logs the difference. */
    method Update(t: nat, p: PageKey, data: seq<byte>)
      requires Holds(View()) && Enabled(View(), Action.UpdatePage(t, p, data))
      modifies this
      ensures View() == Next(old(View()), Action.UpdatePage(t, p, data)) && Holds(View())
      ensures p in old(disk) && |old(View()).Cur(p)| == |data| && log == old(log)
      ensures data == old(View()).Cur(p) ==> buf == old(buf)
      ensures data != old(View()).Cur(p) ==>
        |buf| == |old(buf)| + 1 && buf[..|old(buf)|] == old(buf)
          && IsTightDiff(buf[|old(buf)|], old(nextLsn), t, p, old(View()).Cur(p), data)
    {
      hide Tracks, AllIsolated, Global, LogDiff, MayOverwrite, WellSized, Ended, IsTightDiff;
      TracksGlobal(View());
      StepHolds(View(), Action.UpdatePage(t, p, data));
      DiffIsTight(View(), t, p, data);
      FetchFrame(p);
      var was := frames[p].data;
      UpdatePageFrame(p, data);
      LogPageDiff(t, p, was, data);
    }

    /** Writes a dirty page to its file, after the log. */
    method FlushPageFrame(p: PageKey)
      requires Holds(View()) && p in frames
      modifies this`frames, this`dirty, this`disk, this`log, this`buf, this`diskNext
      ensures View() == Next(old(View()), Action.FlushPage(p)) && Holds(View())
      ensures disk == if p in old(dirty) then old(disk)[p := old(frames)[p].data] else old(disk)
      ensures p in old(dirty) ==> forall r :: r in buf ==> r.lsn > old(frames)[p].pageLsn
      ensures p in frames && p !in dirty
    {
      hide Holds, Shape, Possible, Next, FlushLog;
      FlushPageIsWriteBack(View(), p);
      if p in dirty {
        var f := frames[p];
        if f.pageLsn > 0 {
          FlushUpTo(f.pageLsn);
        }
        disk := disk[p := f.data];
        frames := frames[p := f.(recLsn := 0)];
        dirty := dirty - {p};
      }
    }

    method FuzzyCheckpoint() returns (lsn: nat)
      requires Holds(View()) && Enabled(View(), TakeCheckpoint)
      modifies this
      ensures View() == Next(old(View()), TakeCheckpoint) && Holds(View())
      ensures lsn == old(nextLsn) == chkLsn && buf == []
      ensures |log| == |old(log + buf)| + 1 && log[..|log| - 1] == old(log + buf)
      ensures var r := log[|log| - 1];
              && r.Checkpoint? && r.lsn == lsn && r.dpt.Keys == old(dirty) && r.att == old(active)
              && forall p {:trigger r.dpt[p]} :: p in r.dpt ==>
                  p in old(frames) && r.dpt[p] == old(frames)[p].recLsn
    {
      hide Tracks, AllIsolated, Global, Shape, FlushLog, WellSized;
      TracksGlobal(View());
      StepHolds(View(), TakeCheckpoint);
      CheckpointWritten(View());
      lsn := nextLsn;
      var dpt := map p | p in dirty :: if p in frames then frames[p].recLsn else 0;
      WriteRecord(Checkpoint(lsn, dpt, active));
      FlushUpTo(lsn);
      chkLsn := lsn;
      diskNext := nextLsn;
    }

    // ---------------------------------------------------------------- recovery

    /** The analysis pass: a loop over the records with LSNs from `start` on. */
    method AnalysisPass(start: nat, an0: Analysis) returns (an: Analysis)
      ensures an == Scan(log, |log|, start, an0)
    {
      an := an0;
      for i := 0 to |log|
        invariant an == Scan(log, i, start, an0)
      {
        var r := log[i];
        if r.lsn >= start {
          match r {
            case Begin(lsn, t) =>
              an := an.(att := an.att[t := lsn]);
            case Update(lsn, t, p, _, _, _) =>
              if t != 0 { an := an.(att := an.att[t := lsn]); }
              if p !in an.dpt { an := an.(dpt := an.dpt[p := lsn]); }
            case Commit(_, t) =>
              an := an.(att := an.att - {t});
            case Abort(_, t) =>
              an := an.(att := an.att - {t});
            case Clr(lsn, t, p, _, _) =>
              if t != 0 { an := an.(att := an.att[t := lsn]); }
              if p !in an.dpt { an := an.(dpt := an.dpt[p := lsn]); }
            case Checkpoint(_, _, _) =>
          }
        }
      }
    }

    method FindRecord(lsn: nat) returns (r: Option<Record>)
      ensures r == FindLsn(log, |log|, lsn)
    {
      r := None;
      for i := 0 to |log|
        invariant r == FindLsn(log, i, lsn)
      {
        if r.None? && log[i].lsn == lsn {
          r := Some(log[i]);
        }
      }
    }

    method RedoRecord(r: Record)
      requires Shape(View()) && phase.Redo? && phase.next < |log| && r == log[phase.next]
      requires Redoable(phase.an.dpt, r)
      modifies this`frames, this`dirty, this`phase
      ensures View() == RedoStep(old(View()))
    {
      hide Shape, Splice;
      ShapeBounds(View());
      assert View().All()[phase.next] == r && InBounds(View().All()[phase.next]);
      FetchFrame(r.page);
      UpdatePageFrame(r.page, Splice(frames[r.page].data, r.off, r.redo));
      SetLsn(r.page, r.lsn);
      phase := Redo(phase.next + 1, phase.an);
    }

    method UndoRecord(r: Record)
      requires Shape(View()) && phase.Undo? && 0 < phase.next <= |log| && r == log[phase.next - 1]
      requires r.Update? && r.txn in phase.losers
      modifies this
      ensures View() == UndoStep(old(View()))
    {
      hide Shape, Splice, UndoStep;
      assert View().All()[phase.next - 1] == r;
      UndoOneIs(View());
      FetchFrame(r.page);
      UpdatePageFrame(r.page, Splice(frames[r.page].data, r.off, r.undo));
      var lsn := nextLsn;
      WriteRecord(Clr(lsn, r.txn, r.page, r.off, r.undo));
      if r.txn != 0 {
        active := active[r.txn := lsn];
      }
      phase := Undo(phase.logged, phase.next - 1, phase.losers);
    }

    /** One turn of the redo loop. */
    method RedoTurn(i: nat, an: Analysis) returns (did: bool)
      requires Holds(View()) && phase == Redo(i, an) && i < |log|
      modifies this`frames, this`dirty, this`phase
      ensures View() == RedoStep(old(View())) && Holds(View()) && SameEffect(old(View()), View())
      ensures phase == Redo(i + 1, an) && did == Redoable(an.dpt, log[i])
    {
      hide Tracks, AllIsolated, Shape, SameEffect, RedoOne;
      TracksGlobal(View());
      StepHolds(View(), RedoNext);
      did := Redoable(an.dpt, log[i]);
      if did {
        RedoRecord(log[i]);
      } else {
        phase := Redo(i + 1, an);
      }
    }

    method RedoPass(an: Analysis) returns (redone: nat)
      requires Holds(View()) && phase == Redo(0, an)
      modifies this`frames, this`dirty, this`phase
      ensures Holds(View()) && SameEffect(old(View()), View())
      ensures phase == Undo(|log|, |log|, an.att.Keys - {0})
      ensures redone == CountRedoable(log, |log|, an.dpt)
    {
      hide Holds, SameEffect;
      SameEffectRefl(View());
      redone := 0;
      for i := 0 to |log|
        invariant Holds(View()) && phase == Redo(i, an) && SameEffect(old(View()), View())
        invariant redone == CountRedoable(log, i, an.dpt)
      {
        ghost var s := View();
        var did := RedoTurn(i, an);
        if did {
          redone := redone + 1;
        }
        SameEffectChain(old(View()), s, View());
      }
      ghost var last := View();
      RedoEnd(an);
      SameEffectChain(old(View()), last, View());
    }

    ghost method RedoEnd(an: Analysis)
      requires Holds(View()) && phase == Redo(|log|, an)
      modifies this`phase
      ensures Holds(View()) && SameEffect(old(View()), View()) && phase == Undo(|log|, |log|, an.att.Keys - {0})
    {
      hide Tracks, AllIsolated, Global, Shape, SameEffect;
      TracksGlobal(View());
      StepHolds(View(), RedoNext);
      phase := Undo(|log|, |log|, an.att.Keys - {0});
    }

    /** One turn of the undo loop. */
    method UndoTurn(r: Record, i: nat, losers: set<nat>) returns (did: bool)
      requires Holds(View()) && phase.Undo? && phase.next == i && 0 < i <= |log| && phase.losers == losers
      requires r == log[i - 1]
      modifies this
      ensures View() == UndoStep(old(View())) && Holds(View()) && SameEffect(old(View()), View())
      ensures phase == Undo(old(phase).logged, i - 1, losers) && log == old(log)
      ensures did == (r.Update? && r.txn in losers)
    {
      hide Tracks, AllIsolated, Global, Shape, SameEffect, UndoOne;
      TracksGlobal(View());
      UndoKeepsLog(View());
      assert View().All()[i - 1] == log[i - 1];
      StepHolds(View(), UndoNext);
      did := r.Update? && r.txn in losers;
      if did {
        UndoRecord(r);
      } else {
        phase := Undo(phase.logged, i - 1, losers);
      }
    }

    /** Undo walks the log file backwards from where it ended when undo began. */
    method UndoPass(losers: set<nat>) returns (undone: nat)
      requires Holds(View()) && phase == Undo(|log|, |log|, losers) && buf == []
      modifies this
      ensures Holds(View()) && SameEffect(old(View()), View())
      ensures phase == Ending(losers)
      ensures undone == CountLost(old(log), 0, losers)
    {
      hide Holds, SameEffect, UndoStep;
      SameEffectRefl(View());
      var records := log;
      undone := 0;
      for i := |records| downto 0
        invariant records == log == old(log)
        invariant Holds(View()) && phase == Undo(|records|, i, losers) && SameEffect(old(View()), View())
        invariant undone == CountLost(records, i, losers)
      {
        ghost var s := View();
        var did := UndoTurn(records[i], i + 1, losers);
        if did {
          undone := undone + 1;
        }
        SameEffectChain(old(View()), s, View());
      }
      ghost var last := View();
      UndoEnd(losers);
      SameEffectChain(old(View()), last, View());
    }

    ghost method UndoEnd(losers: set<nat>)
      requires Holds(View()) && phase.Undo? && phase.next == 0 && phase.losers == losers
      modifies this`phase
      ensures Holds(View()) && SameEffect(old(View()), View()) && phase == Ending(losers)
    {
      hide Tracks, AllIsolated, Global, Shape, SameEffect;
      TracksGlobal(View());
      StepHolds(View(), UndoNext);
      phase := Ending(losers);
    }

    method AbortLoser(t: nat, todo: set<nat>)
      requires Holds(View()) && phase == Ending(todo) && t in todo
      modifies this
      ensures Holds(View()) && SameEffect(old(View()), View()) && phase == Ending(todo - {t})
    {
      hide Tracks, AllIsolated, Global, Shape, SameEffect;
      TracksGlobal(View());
      StepHolds(View(), EndLoser(t));
      var lsn := nextLsn;
      WriteRecord(Abort(lsn, t));
      active := active - {t};
      FlushUpTo(lsn);
      phase := Ending(todo - {t});
    }

    method AbortLosers(losers: set<nat>)
      requires Holds(View()) && phase == Ending(losers)
      modifies this
      ensures Holds(View()) && SameEffect(old(View()), View())
      ensures phase == Ending({})
    {
      hide Holds, SameEffect;
      SameEffectRefl(View());
      var todo := losers;
      while todo != {}
        invariant Holds(View()) && phase == Ending(todo) && SameEffect(old(View()), View())
      {
        ghost var s := View();
        var t :| t in todo;
        AbortLoser(t, todo);
        todo := todo - {t};
        SameEffectChain(old(View()), s, View());
      }
    }

    /** Finds the checkpoint and analyses the records after it. */
    method Analyze() returns (an: Analysis)
      ensures an == AnalysisOf(log, chkLsn)
    {
      var start := 0;
      an := Analysis(map[], map[]);
      if chkLsn > 0 {
        var found := FindRecord(chkLsn);
        if found.Some? && found.value.Checkpoint? {
          an, start := Analysis(found.value.dpt, found.value.att), chkLsn + 1;
        }
      }
      an := AnalysisPass(start, an);
    }

    method FlushAllLog()
      modifies this`log, this`buf, this`diskNext
      ensures View() == FlushWholeLog(old(View()))
    {
      if buf != [] {
        log, buf, diskNext := log + buf, [], nextLsn;
      }
    }

    /** Recovery leaves every byte of every page as replaying the surviving transactions of the
        durable log makes it, with an empty log buffer and no open transaction. */
    method Recover() returns (report: RecoveryReport)
      requires Holds(View()) && phase.Down?
      modifies this
      ensures Holds(View()) && phase.Recovered? && base == old(base) && buf == [] && active == map[]
      ensures forall p, a: nat :: p in base && a < PageSize(p) ==>
        View().Cur(p)[a] == Effective(old(log), p, a, base[p][a])
      ensures var an := AnalysisOf(old(log), old(chkLsn));
              report == RecoveryReport(old(chkLsn), CountRedoable(old(log), |old(log)|, an.dpt),
                                       CountLost(old(log), 0, an.att.Keys - {0}), an.att.Keys - {0})
      ensures report.redone == |RedoneAt(old(log), old(chkLsn))| && report.undone == |LostAt(old(log))|
      ensures forall t {:trigger OpenAt(old(log), |old(log)|, t)} ::
        t in report.losers <==> OpenAt(old(log), |old(log)|, t)
    {
      TracksGlobal(View());
      ReportIs(View());
      var chk := chkLsn;
      var an := Analyze();
      var redone, undone := RecoverPages(an);
      report := RecoveryReport(chk, redone, undone, an.att.Keys - {0});
      forall p, a: nat | p in base && a < PageSize(p)
        ensures View().Cur(p)[a] == Effective(old(log), p, a, base[p][a])
      {
        RecoveredByte(old(View()), View(), p, a);
      }
    }

    method RecoverPages(an: Analysis) returns (redone: nat, undone: nat)
      requires Holds(View()) && phase.Down? && an == AnalysisOf(log, chkLsn)
      modifies this
      ensures Holds(View()) && phase.Recovered? && SameEffect(old(View()), View())
      ensures redone == CountRedoable(old(log), |old(log)|, an.dpt)
      ensures undone == CountLost(old(log), 0, an.att.Keys - {0})
    {
      hide Holds, SameEffect, AnalysisOf;
      ghost var s0 := View();
      RecoveryStart(an);
      ghost var s1 := View();
      redone := RedoPass(an);
      SameEffectChain(s0, s1, View());
      ghost var s2 := View();
      undone := UndoPass(an.att.Keys - {0});
      SameEffectChain(s0, s2, View());
      ghost var s3 := View();
      AbortLosers(an.att.Keys - {0});
      SameEffectChain(s0, s3, View());
      ghost var s4 := View();
      RecoveryEnd();
      SameEffectChain(s0, s4, View());
    }

    ghost method RecoveryStart(an: Analysis)
      requires Holds(View()) && phase.Down? && an == AnalysisOf(log, chkLsn)
      modifies this`phase
      ensures Holds(View()) && SameEffect(old(View()), View()) && phase == Redo(0, an) && buf == []
    {
      hide Tracks, AllIsolated, LsnOrdered, IdsNotReused, CheckpointHolds, WellSized, AnalysisOf, SameEffect;
      TracksGlobal(View());
      StepHolds(View(), Analyse);
      phase := Redo(0, an);
    }

    method RecoveryEnd()
      requires Holds(View()) && phase == Ending({})
      modifies this
      ensures Holds(View()) && SameEffect(old(View()), View()) && phase == Recovered
    {
      hide Tracks, AllIsolated, Global, Shape, SameEffect;
      TracksGlobal(View());
      StepHolds(View(), FinishRecovery);
      FlushAllLog();
      phase := Recovered;
    }
  }

  lemma RecoveredByte(s: State, s': State, p: PageKey, a: nat)
    requires Holds(s') && s'.phase.Recovered? && SameEffect(s, s')
    requires p in s'.base && a < PageSize(p)
    ensures s'.Cur(p)[a] == Effective(s.log, p, a, s'.base[p][a])
  {
    assert AByte(s', p, a) && ByteHolds(s', p, a);
  }
}
