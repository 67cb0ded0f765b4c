/** Transaction ids that are used again after their Commit or Abort: what the analysis then takes for
    a loser, in every run of the program, however its callers choose ids and overwrite each other. */
module ReusedIds {
  import opened Records
  import opened Engine
  import opened EngineLog
  import opened EngineInv
  import opened EngineFlush
  import opened EngineUp
  import opened EngineRecover
  import opened EngineEnd
  import opened CrashSafety

  // ---------------------------------------------------------------- the analysis, from any checkpoint

  /** The last word on `t` among the first `n` records is not a Commit or Abort. */
  predicate LeftOpen(log: seq<Record>, n: nat, t: nat)
    requires n <= |log|
  {
    exists i {:trigger log[i].Of(t)} :: 0 <= i < n && log[i].Of(t) && !log[i].IsEnd()
      && forall j {:trigger log[j].IsEnd()} :: i < j < n && log[j].IsEnd() ==> log[j].txn != t
  }

  /** The table lists exactly the transactions, other than 0, that the first `n` records leave open. */
  ghost predicate AttLeftOpen(att: map<nat, nat>, log: seq<Record>, n: nat)
    requires n <= |log|
  {
    forall t {:trigger LeftOpen(log, n, t)} :: t != 0 ==> (t in att <==> LeftOpen(log, n, t))
  }

  ghost predicate NamedAt(log: seq<Record>, chk: nat, c: nat)
    requires c < |log|
  {
    log[c].Checkpoint? && log[c].lsn == chk && AttLeftOpen(log[c].att, log, c)
  }

  /** There is no checkpoint, or it names a record whose table was true at its place in the log. */
  ghost predicate CheckpointLeftOpen(log: seq<Record>, chk: nat) {
    chk == 0 || exists c {:trigger NamedAt(log, chk, c)} :: 0 <= c < |log| && NamedAt(log, chk, c)
  }

  lemma LeftOpenStep(log: seq<Record>, n: nat, t: nat)
    requires n < |log|
    ensures LeftOpen(log, n + 1, t) <==> if log[n].Of(t) then !log[n].IsEnd() else LeftOpen(log, n, t)
  {
    if LeftOpen(log, n, t) && !log[n].Of(t) {
      var i :| 0 <= i < n && log[i].Of(t) && !log[i].IsEnd()
        && forall j {:trigger log[j].IsEnd()} :: i < j < n && log[j].IsEnd() ==> log[j].txn != t;
      assert log[i].Of(t);
    }
  }

  lemma LeftOpenPrefix(log: seq<Record>, more: seq<Record>, n: nat, t: nat)
    requires n <= |log|
    ensures LeftOpen(log + more, n, t) <==> LeftOpen(log, n, t)
  {
    var all := log + more;
    assert forall i :: 0 <= i < n ==> all[i] == log[i];
    if LeftOpen(log, n, t) {
      var i :| 0 <= i < n && log[i].Of(t) && !log[i].IsEnd()
        && forall j {:trigger log[j].IsEnd()} :: i < j < n && log[j].IsEnd() ==> log[j].txn != t;
      assert all[i].Of(t);
    }
    if LeftOpen(all, n, t) {
      var i :| 0 <= i < n && all[i].Of(t) && !all[i].IsEnd()
        && forall j {:trigger all[j].IsEnd()} :: i < j < n && all[j].IsEnd() ==> all[j].txn != t;
      assert log[i].Of(t);
      forall j {:trigger log[j].IsEnd()} | i < j < n && log[j].IsEnd() ensures log[j].txn != t {
        assert all[j].IsEnd();
      }
    }
  }

  /** One more record keeps the table true, whether or not its transaction had ended before. */
  lemma AttStepLeftOpen(log: seq<Record>, n: nat, an: Analysis)
    requires n < |log| && AttLeftOpen(an.att, log, n)
    ensures AttLeftOpen(AnalysisStep(an, log[n]).att, log, n + 1)
  {
    hide LeftOpen;
    forall t | t != 0 ensures t in AnalysisStep(an, log[n]).att <==> LeftOpen(log, n + 1, t) {
      LeftOpenStep(log, n, t);
    }
  }

  lemma {:induction false} ScanLeftOpen(log: seq<Record>, c: nat, n: nat, start: nat, an: Analysis)
    requires c <= n <= |log| && AttLeftOpen(an.att, log, c)
    requires forall i :: 0 <= i < c ==> log[i].lsn < start
    requires forall i :: c <= i < |log| ==> log[i].lsn >= start
    ensures AttLeftOpen(Scan(log, n, start, an).att, log, n)
    decreases n
  {
    if c < n {
      ScanLeftOpen(log, c, n - 1, start, an);
      AttStepLeftOpen(log, n - 1, Scan(log, n - 1, start, an));
    } else {
      ScanSkips(log, n, start, an);
    }
  }

  /** The losers that the analysis finds, starting at any true checkpoint, are the transactions that
      the whole log leaves open. */
  lemma LosersAreLeftOpen(log: seq<Record>, chk: nat, next: nat, t: nat)
    requires LsnOrdered(log, next) && CheckpointLeftOpen(log, chk)
    ensures t in AnalysisOf(log, chk).att.Keys - {0} <==> t != 0 && LeftOpen(log, |log|, t)
  {
    hide LeftOpen;
    var (start, an) := ScanStart(log, chk);
    if chk == 0 {
      assert AttLeftOpen(an.att, log, 0) by { NoneLeftOpen(log); }
      ScanLeftOpen(log, 0, |log|, start, an);
    } else {
      var c :| 0 <= c < |log| && NamedAt(log, chk, c);
      FindLsnFinds(log, |log|, c);
      assert AttLeftOpen(an.att, log, c + 1) by { AttStepLeftOpen(log, c, an); }
      ScanLeftOpen(log, c + 1, |log|, start, an);
    }
  }

  lemma NoneLeftOpen(log: seq<Record>)
    ensures AttLeftOpen(map[], log, 0)
  {
  }

  /** Recovery rolls back a transaction whose Commit or Abort is in the log exactly when its id was
      used again afterwards and left open. */
  lemma ReusedIdIsRolledBack(log: seq<Record>, chk: nat, next: nat, t: nat)
    requires LsnOrdered(log, next) && CheckpointLeftOpen(log, chk) && t != 0 && Ended(log, t)
    ensures t in AnalysisOf(log, chk).att.Keys - {0} <==>
      exists i, j {:trigger log[i].IsEnd(), log[j].Of(t)} :: 0 <= i < j < |log| && log[i].IsEnd() && log[i].txn == t
        && log[j].Of(t) && !log[j].IsEnd()
        && forall k {:trigger log[k].IsEnd()} :: j < k < |log| && log[k].IsEnd() ==> log[k].txn != t
  {
    LosersAreLeftOpen(log, chk, next, t);
    if LeftOpen(log, |log|, t) {
      var i :| 0 <= i < |log| && log[i].IsEnd() && log[i].txn == t;
      var j :| 0 <= j < |log| && log[j].Of(t) && !log[j].IsEnd()
        && forall k {:trigger log[k].IsEnd()} :: j < k < |log| && log[k].IsEnd() ==> log[k].txn != t;
      assert i < j;
    }
  }

  // ---------------------------------------------------------------- runs in which callers do as they like

  /** What the log, the table of active transactions and the checkpoint keep, with ids used at will. */
  ghost predicate TablesHold(log: seq<Record>, buf: seq<Record>, nextLsn: nat, diskNext: nat, chk: nat,
                             active: map<nat, nat>, phase: Phase)
  {
    var all := log + buf;
    && LsnOrdered(all, nextLsn) && LsnOrdered(log, diskNext) && 1 <= diskNext <= nextLsn
    && CheckpointLeftOpen(log, chk)
    && match phase
       case Up => AttLeftOpen(active, all, |all|)
       case Down => buf == [] && active == map[]
       case Redo(_, an) => buf == [] && active == map[] && an == AnalysisOf(log, chk)
       case Undo(_, _, losers) => LosersOpen(losers, all) && active.Keys <= losers
       case Ending(todo) => LosersOpen(todo, all) && active.Keys <= todo
       case Recovered => buf == [] && active == map[] && LosersOpen({}, all)
  }

  ghost predicate LosersOpen(losers: set<nat>, log: seq<Record>) {
    0 !in losers && forall t {:trigger LeftOpen(log, |log|, t)} :: t != 0 ==> (t in losers <==> LeftOpen(log, |log|, t))
  }

  ghost predicate Tables(s: State) {
    TablesHold(s.log, s.buf, s.nextLsn, s.diskNext, s.chkLsn, s.active, s.phase)
  }

  /** The log in order and extended by one record. */
  lemma OrderGrows(all: seq<Record>, next: nat, r: Record)
    requires LsnOrdered(all, next) && r.lsn == next >= 1
    ensures LsnOrdered(all + [r], next + 1)
  {
  }

  lemma CheckpointStays(log: seq<Record>, more: seq<Record>, chk: nat)
    requires CheckpointLeftOpen(log, chk)
    ensures CheckpointLeftOpen(log + more, chk)
  {
    hide LeftOpen;
    if chk != 0 {
      var c :| 0 <= c < |log| && NamedAt(log, chk, c);
      forall t | t != 0 ensures t in log[c].att <==> LeftOpen(log + more, c, t) {
        LeftOpenPrefix(log, more, c, t);
      }
      assert NamedAt(log + more, chk, c);
    }
  }

  lemma OrderedPrefix(log: seq<Record>, more: seq<Record>, next: nat)
    requires LsnOrdered(log + more, next)
    ensures LsnOrdered(log, next)
  {
    assert forall i :: 0 <= i < |log| ==> (log + more)[i] == log[i];
  }

  lemma FlushTables(s: State, target: nat)
    requires Tables(s) && !s.phase.Redo?
    ensures Tables(FlushLog(s, target)) && FlushLog(s, target).All() == s.All()
  {
    hide LsnOrdered, CheckpointLeftOpen, AttLeftOpen, LosersOpen, FlushCount;
    var k := FlushCount(s.buf, target);
    assert k <= |s.buf|;
    if k > 0 {
      FlushedAll(s, k);
      assert s.All() == (s.log + s.buf[..k]) + s.buf[k..];
      OrderedPrefix(s.log + s.buf[..k], s.buf[k..], s.nextLsn);
      CheckpointStays(s.log, s.buf[..k], s.chkLsn);
    }
  }

  lemma AttAppend(att: map<nat, nat>, all: seq<Record>, r: Record)
    requires AttLeftOpen(att, all, |all|)
    ensures AttLeftOpen(AnalysisStep(Analysis(map[], att), r).att, all + [r], |all| + 1)
  {
    hide LeftOpen;
    forall t | t != 0 ensures t in att <==> LeftOpen(all + [r], |all|, t) {
      LeftOpenPrefix(all, [r], |all|, t);
    }
    assert (all + [r])[|all|] == r;
    AttStepLeftOpen(all + [r], |all|, Analysis(map[], att));
  }

  lemma NotedTables(s: State, r: Record)
    requires Tables(s) && s.phase.Up? && r.lsn == s.nextLsn
    ensures Tables(Noted(s, r))
  {
    hide LsnOrdered, CheckpointLeftOpen, AttLeftOpen, AnalysisStep;
    NotedAll(s, r);
    OrderGrows(s.All(), s.nextLsn, r);
    AttAppend(s.active, s.All(), r);
  }

  lemma NotedShape(s: State, r: Record)
    requires Shape(s) && !r.IsWrite()
    ensures Shape(Noted(s, r))
  {
    NotedAll(s, r);
    var s' := Noted(s, r);
    forall i | 0 <= i < |s'.All()|
      ensures InBounds(s'.All()[i]) && (s'.All()[i].IsWrite() ==> s'.All()[i].page in s'.base)
    {
      if i < |s.All()| { assert s'.All()[i] == s.All()[i]; } else { assert s'.All()[i] == r; }
    }
  }

  lemma ChangedTables(s: State, r: Record, now: seq<byte>)
    requires Tables(s) && s.phase.Up? && r.Update? && r.page in s.frames && r.lsn == s.nextLsn
    ensures Tables(Changed(s, r, now))
  {
    hide LsnOrdered, CheckpointLeftOpen, AttLeftOpen, AnalysisStep;
    ChangedAll(s, r, now);
    OrderGrows(s.All(), s.nextLsn, r);
    AttAppend(s.active, s.All(), r);
  }

  /** The table that a checkpoint writes is true at its place, ids reused or not. */
  lemma CheckpointTables(s: State)
    requires Tables(s) && s.phase.Up?
    ensures Tables(CheckpointStep(s)) && CheckpointStep(s).log == s.All() + [CheckpointRecord(s)]
    ensures Tables(FlushLog(Append(s, CheckpointRecord(s)), s.nextLsn))
    ensures FlushLog(Append(s, CheckpointRecord(s)), s.nextLsn).All() == s.All() + [CheckpointRecord(s)]
  {
    hide CheckpointLeftOpen, AttLeftOpen, AnalysisStep, LsnOrdered, CheckpointRecord;
    var r := CheckpointRecord(s);
    CheckpointIs(s);
    NotedAll(s, r);
    NotedTables(s, r);
    FlushTables(Noted(s, r), s.nextLsn);
    AllBelow(Noted(s, r));
    FlushNewest(Noted(s, r), s.nextLsn);
    CheckpointIsTrue(s.All(), r);
  }

  lemma CheckpointIs(s: State)
    ensures var r := CheckpointRecord(s);
            r.Checkpoint? && r.lsn == s.nextLsn && r.att == s.active && Append(s, r) == Noted(s, r)
  {
  }

  lemma CheckpointIsTrue(all: seq<Record>, r: Record)
    requires r.Checkpoint? && AttLeftOpen(r.att, all, |all|)
    ensures CheckpointLeftOpen(all + [r], r.lsn)
  {
    hide LeftOpen;
    forall t | t != 0 ensures t in r.att <==> LeftOpen(all + [r], |all|, t) {
      LeftOpenPrefix(all, [r], |all|, t);
    }
    assert NamedAt(all + [r], r.lsn, |all|);
  }

  lemma AllBelow(s: State)
    requires LsnOrdered(s.All(), s.nextLsn)
    ensures forall i :: 0 <= i < |s.buf| ==> s.buf[i].lsn < s.nextLsn
  {
    forall i | 0 <= i < |s.buf| ensures s.buf[i].lsn < s.nextLsn {
      assert s.All()[|s.log| + i] == s.buf[i];
    }
  }

  lemma CrashTables(s: State)
    requires Tables(s)
    ensures Tables(CrashOf(s))
  {
    hide CheckpointLeftOpen, LsnOrdered;
    CrashLog(s);
  }

  lemma CrashKeepsShape(s: State)
    requires Shape(s)
    ensures Shape(CrashOf(s))
  {
    CrashLog(s);
    assert forall i :: 0 <= i < |s.log| ==> s.All()[i] == s.log[i];
  }

  lemma FlushShape(s: State, target: nat)
    requires Shape(s)
    ensures Shape(FlushLog(s, target))
  {
    var k := FlushCount(s.buf, target);
    if k > 0 { FlushedAll(s, k); }
  }

  // ---------------------------------------------------------------- every step of the program

  lemma WriteBackTables(s: State, p: PageKey)
    requires Shape(s) && Tables(s) && p in s.frames && !s.phase.Redo?
    ensures Shape(WriteBack(s, p)) && Tables(WriteBack(s, p)) && p in WriteBack(s, p).frames
    ensures p !in WriteBack(s, p).dirty
  {
    hide TablesHold, FlushLog, WellSized;
    FlushTables(s, s.frames[p].pageLsn);
    FlushShape(s, s.frames[p].pageLsn);
    FlushKeeps(s, s.frames[p].pageLsn);
    assert WriteBack(s, p).All() == s.All();
  }

  lemma FlushKeeps(s: State, target: nat)
    ensures var s' := FlushLog(s, target);
            && s'.base == s.base && s'.disk == s.disk && s'.frames == s.frames && s'.dirty == s.dirty
            && s'.phase == s.phase && (s.buf == [] ==> s' == s)
  {
  }

  lemma RedoWriteBackTables(s: State, p: PageKey)
    requires Shape(s) && Tables(s) && p in s.frames && s.phase.Redo?
    ensures Shape(WriteBack(s, p)) && Tables(WriteBack(s, p)) && p in WriteBack(s, p).frames
    ensures p !in WriteBack(s, p).dirty
  {
    hide FlushLog, WellSized, LsnOrdered, CheckpointLeftOpen;
    FlushKeeps(s, s.frames[p].pageLsn);
    assert WriteBack(s, p).All() == s.All();
  }

  lemma PoolTables(s: State, act: Action)
    requires Shape(s) && Tables(s) && Possible(s, act) && OfPool(act)
    ensures Shape(Next(s, act)) && Tables(Next(s, act))
  {
    hide TablesHold, FlushLog, WellSized, WriteBack;
    match act {
      case FlushLogTo(lsn) =>
        FlushShape(s, lsn);
        if s.phase.Redo? { NothingBufferedInRedo(s); FlushKeeps(s, lsn); } else { FlushTables(s, lsn); }
      case FlushPage(p) =>
        if s.phase.Redo? { RedoWriteBackTables(s, p); } else { WriteBackTables(s, p); }
      case EvictPage(p) =>
        if s.phase.Redo? { RedoWriteBackTables(s, p); } else { WriteBackTables(s, p); }
        assert Drop(WriteBack(s, p), p).All() == WriteBack(s, p).All();
      case FetchPage(p) =>
        assert Fetch(s, p).All() == s.All();
    }
  }

  lemma NothingBufferedInRedo(s: State)
    requires Tables(s) && (s.phase.Redo? || s.phase.Down?)
    ensures s.buf == []
  {
  }

  lemma UpdateTables(s: State, t: nat, p: PageKey, data: seq<byte>)
    requires Shape(s) && Tables(s) && Possible(s, UpdatePage(t, p, data))
    ensures Shape(Next(s, UpdatePage(t, p, data))) && Tables(Next(s, UpdatePage(t, p, data)))
  {
    hide TablesHold, WellSized, LogDiff, Changed, DiffRecord;
    var s1, was := Fetch(s, p), s.Cur(p);
    assert s1.All() == s.All() && s1.frames[p].data == was;
    if was == data {
      assert WriteFrame(s1, p, data).All() == s.All();
    } else {
      var r := DiffRecord(s.nextLsn, t, p, was, data);
      DiffDescribes(s.nextLsn, t, p, was, data);
      DiffRecordIs(s.nextLsn, t, p, was, data);
      LogDiffIsChanged(s1, t, p, data);
      ChangedShape(s1, r, data);
      ChangedTables(s1, r, data);
    }
  }

  lemma DiffRecordIs(lsn: nat, t: nat, p: PageKey, was: seq<byte>, now: seq<byte>)
    requires |was| == |now| && was != now
    ensures var r := DiffRecord(lsn, t, p, was, now); r.Update? && r.lsn == lsn && r.txn == t && r.page == p
  {
  }

  lemma EndTables(s: State, r: Record)
    requires Shape(s) && Tables(s) && s.phase.Up? && r.IsEnd() && r.lsn == s.nextLsn
    ensures Shape(FlushLog(Noted(s, r), s.nextLsn)) && Tables(FlushLog(Noted(s, r), s.nextLsn))
  {
    hide TablesHold, FlushLog, Shape;
    NotedShape(s, r);
    NotedTables(s, r);
    NotedPhase(s, r);
    FlushShape(Noted(s, r), s.nextLsn);
    FlushTables(Noted(s, r), s.nextLsn);
  }

  lemma NotedPhase(s: State, r: Record)
    ensures Noted(s, r).phase == s.phase
  {
  }

  lemma CheckpointShape(s: State)
    requires Shape(s)
    ensures Shape(FlushLog(Append(s, CheckpointRecord(s)), s.nextLsn)) && Shape(CheckpointStep(s))
  {
    hide FlushLog, WellSized, CheckpointRecord;
    CheckpointIs(s);
    NotedShape(s, CheckpointRecord(s));
    FlushShape(Append(s, CheckpointRecord(s)), s.nextLsn);
    assert CheckpointStep(s).All() == FlushLog(Append(s, CheckpointRecord(s)), s.nextLsn).All();
  }

  lemma UpTables(s: State, act: Action)
    requires Shape(s) && Tables(s) && Possible(s, act) && s.phase.Up?
    ensures Shape(Next(s, act)) && Tables(Next(s, act))
  {
    hide TablesHold, FlushLog, Shape, LogDiff, CheckpointStep, CheckpointRecord, WriteBack;
    match act {
      case BeginTxn(t) =>
        NotedShape(s, Begin(s.nextLsn, t));
        NotedTables(s, Begin(s.nextLsn, t));
      case UpdatePage(t, p, data) => UpdateTables(s, t, p, data);
      case CommitTxn(t) => EndTables(s, Commit(s.nextLsn, t));
      case AbortTxn(t) => EndTables(s, Abort(s.nextLsn, t));
      case TakeCheckpoint =>
        CheckpointTables(s);
        CheckpointShape(s);
      case TornCheckpoint =>
        CheckpointTables(s);
        CheckpointShape(s);
        CrashTables(FlushLog(Append(s, CheckpointRecord(s)), s.nextLsn));
        CrashKeepsShape(FlushLog(Append(s, CheckpointRecord(s)), s.nextLsn));
      case Crash =>
        CrashTables(s);
        CrashKeepsShape(s);
      case _ => PoolTables(s, act);
    }
  }

  lemma RedoneTables(s: State)
    requires Shape(s) && Tables(s) && s.phase.Redo? && s.phase.next < |s.log|
    ensures Shape(RedoStep(s)) && Tables(RedoStep(s))
  {
    hide WellSized, LsnOrdered, CheckpointLeftOpen, Splice, AnalysisOf;
    RedoKeepsLog(s);
    if Redoable(s.phase.an.dpt, s.log[s.phase.next]) {
      var r := s.log[s.phase.next];
      RedoStepIs(s);
      assert Fetch(s, r.page).All() == s.All();
      RedoneShape(Fetch(s, r.page), r);
    } else {
      assert RedoStep(s).All() == s.All();
    }
  }

  lemma RedoEndTables(s: State)
    requires Shape(s) && Tables(s) && s.phase.Redo? && s.phase.next == |s.log|
    ensures Shape(RedoStep(s)) && Tables(RedoStep(s))
  {
    hide WellSized, LsnOrdered, CheckpointLeftOpen, AnalysisOf, LeftOpen;
    assert RedoStep(s).All() == s.All() == s.log;
    forall t | t != 0 ensures t in s.phase.an.att.Keys - {0} <==> LeftOpen(s.log, |s.log|, t) {
      LosersAreLeftOpen(s.log, s.chkLsn, s.diskNext, t);
    }
  }

  /** A record of an open transaction that does not end it leaves the same transactions open. */
  lemma LosersAppend(losers: set<nat>, all: seq<Record>, c: Record)
    requires LosersOpen(losers, all) && c.Clr? && c.txn in losers
    ensures LosersOpen(losers, all + [c])
  {
    hide LeftOpen;
    forall t | t != 0 ensures t in losers <==> LeftOpen(all + [c], |all + [c]|, t) {
      LeftOpenPrefix(all, [c], |all|, t);
      LeftOpenStep(all + [c], |all|, t);
    }
  }

  lemma LoserIff(losers: set<nat>, log: seq<Record>, t: nat)
    requires LosersOpen(losers, log)
    ensures t in losers <==> t != 0 && LeftOpen(log, |log|, t)
  {
  }

  /** Undo reverts a record exactly when it is an Update of a transaction that the log leaves open,
      even one that had ended before. */
  lemma UndoReverts(s: State)
    requires Shape(s) && Tables(s) && s.phase.Undo? && 0 < s.phase.next <= |s.All()|
    ensures var r := s.All()[s.phase.next - 1];
            if r.Update? && r.txn != 0 && LeftOpen(s.All(), |s.All()|, r.txn)
            then r.page in s.disk && InBounds(r) && UndoStep(s) == Reverted(Fetch(s, r.page), r)
            else UndoStep(s) == s.(phase := Undo(s.phase.logged, s.phase.next - 1, s.phase.losers))
  {
    hide LsnOrdered, CheckpointLeftOpen, LeftOpen, Splice;
    var r := s.All()[s.phase.next - 1];
    assert InBounds(s.All()[s.phase.next - 1]);
    if r.Update? { LoserIff(s.phase.losers, s.All(), r.txn); }
  }

  lemma RevertedTables(s: State, r: Record)
    requires Tables(s) && s.phase.Undo? && s.phase.next > 0 && r.Update? && r.txn in s.phase.losers
    requires r.page in s.frames && r.off + |r.undo| <= |s.frames[r.page].data|
    ensures Tables(Reverted(s, r))
  {
    hide LosersOpen, LsnOrdered, CheckpointLeftOpen, Splice;
    RevertedAll(s, r);
    OrderGrows(s.All(), s.nextLsn, Compensation(s.nextLsn, r));
    LosersAppend(s.phase.losers, s.All(), Compensation(s.nextLsn, r));
  }

  lemma LosersKnown(s: State)
    requires Tables(s) && s.phase.Undo?
    ensures LosersOpen(s.phase.losers, s.All())
  {
  }

  lemma UndoTables(s: State)
    requires Shape(s) && Tables(s) && s.phase.Undo? && 0 < s.phase.next <= |s.All()|
    ensures Shape(UndoStep(s)) && Tables(UndoStep(s))
  {
    hide LeftOpen, LsnOrdered, CheckpointLeftOpen, UndoStep, Reverted, WellSized, LosersOpen;
    UndoReverts(s);
    LosersKnown(s);
    var r := s.All()[s.phase.next - 1];
    if r.Update? && r.txn != 0 && LeftOpen(s.All(), |s.All()|, r.txn) {
      LoserIff(s.phase.losers, s.All(), r.txn);
      assert Fetch(s, r.page).All() == s.All();
      RevertedShape(Fetch(s, r.page), r);
      RevertedTables(Fetch(s, r.page), r);
    } else {
      assert UndoStep(s).All() == s.All();
    }
  }

  lemma UndoEndTables(s: State)
    requires Shape(s) && Tables(s) && s.phase.Undo? && s.phase.next == 0
    ensures Shape(UndoStep(s)) && Tables(UndoStep(s))
  {
    hide LsnOrdered, CheckpointLeftOpen, LosersOpen, WellSized;
    assert UndoStep(s).All() == s.All();
  }

  lemma LosersEnd(todo: set<nat>, all: seq<Record>, r: Record)
    requires LosersOpen(todo, all) && r.IsEnd()
    ensures LosersOpen(todo - {r.txn}, all + [r])
  {
    hide LeftOpen;
    forall t | t != 0 ensures t in todo - {r.txn} <==> LeftOpen(all + [r], |all + [r]|, t) {
      LeftOpenPrefix(all, [r], |all|, t);
      LeftOpenStep(all + [r], |all|, t);
    }
  }

  lemma EndStepTables(s: State, t: nat)
    requires Shape(s) && Tables(s) && s.phase.Ending? && t in s.phase.todo
    ensures Shape(EndStep(s, t)) && Tables(EndStep(s, t))
  {
    hide LsnOrdered, CheckpointLeftOpen, LosersOpen, WellSized, FlushCount;
    var r := Abort(s.nextLsn, t);
    var s1 := EndNoted(s, t).(phase := Ending(s.phase.todo - {t}));
    assert s1.All() == s.All() + [r];
    OrderGrows(s.All(), s.nextLsn, r);
    LosersEnd(s.phase.todo, s.All(), r);
    assert Tables(s1);
    FlushTables(s1, s.nextLsn);
    assert EndStep(s, t) == FlushLog(s1, s.nextLsn);
    EndStepShape(s, t);
  }

  lemma FinishTables(s: State)
    requires Shape(s) && Tables(s) && s.phase.Ending? && s.phase.todo == {}
    ensures var s' := FlushWholeLog(s).(phase := Recovered); Shape(s') && Tables(s')
  {
    hide LsnOrdered, CheckpointLeftOpen, LosersOpen, WellSized;
    var s' := FlushWholeLog(s).(phase := Recovered);
    assert s'.All() == s.All() == s'.log;
    CheckpointStays(s.log, s.buf, s.chkLsn);
  }

  lemma PhaseTables(s: State, act: Action)
    requires Shape(s) && Tables(s) && Possible(s, act) && (act.Analyse? || act.Resume?)
    ensures Shape(Next(s, act)) && Tables(Next(s, act))
  {
    hide LsnOrdered, CheckpointLeftOpen, LeftOpen, WellSized, AnalysisOf;
    assert Next(s, act).All() == s.All();
  }

  /** Every step of the program keeps the tables true, whatever its callers do. */
  lemma StepTables(s: State, act: Action)
    requires Shape(s) && Tables(s) && Possible(s, act)
    ensures Shape(Next(s, act)) && Tables(Next(s, act))
  {
    hide Shape, TablesHold, RedoStep, UndoStep, EndStep, FlushWholeLog, WriteBack, FlushLog, AnalysisOf, LogDiff;
    if s.phase.Up? {
      UpTables(s, act);
    } else {
      match act {
        case Analyse => PhaseTables(s, act);
        case RedoNext => if s.phase.next < |s.log| { RedoneTables(s); } else { RedoEndTables(s); }
        case UndoNext => if s.phase.next > 0 { UndoTables(s); } else { UndoEndTables(s); }
        case EndLoser(t) => EndStepTables(s, t);
        case FinishRecovery => FinishTables(s);
        case Resume => PhaseTables(s, act);
        case Crash => CrashTables(s); CrashKeepsShape(s);
        case _ => PoolTables(s, act);
      }
    }
  }

  lemma InitialTables(s: State)
    requires Initial(s)
    ensures Shape(s) && Tables(s)
  {
    assert s.All() == [];
  }

  lemma {:induction false} RunTables(run: seq<State>, acts: seq<Action>, n: nat)
    requires Steps(run, acts) && n < |run| && Initial(run[0])
    ensures Shape(run[n]) && Tables(run[n])
  {
    hide Shape, TablesHold, Possible, Next, Initial;
    if n == 0 {
      InitialTables(run[0]);
    } else {
      RunTables(run, acts, n - 1);
      StepTables(run[n - 1], acts[n - 1]);
    }
  }

  /** In every run of the program: whenever the system is down, the recovery that follows will roll
      back a transaction that has its Commit or Abort in the log file exactly when its id was used
      again after that, and left open. */
  lemma RolledBackAlthoughEnded(run: seq<State>, acts: seq<Action>, n: nat, t: nat)
    requires Steps(run, acts) && n < |run| && Initial(run[0]) && run[n].phase.Down?
    requires t != 0 && Ended(run[n].log, t)
    ensures var log := run[n].log;
            t in AnalysisOf(log, run[n].chkLsn).att.Keys - {0} <==>
              exists i, j {:trigger log[i].IsEnd(), log[j].Of(t)} :: 0 <= i < j < |log| && log[i].IsEnd()
                && log[i].txn == t && log[j].Of(t) && !log[j].IsEnd()
                && forall k {:trigger log[k].IsEnd()} :: j < k < |log| && log[k].IsEnd() ==> log[k].txn != t
  {
    hide Shape, Possible, Next, Initial, AnalysisOf, LsnOrdered, CheckpointLeftOpen;
    RunTables(run, acts, n);
    ReusedIdIsRolledBack(run[n].log, run[n].chkLsn, run[n].diskNext, t);
  }
}
