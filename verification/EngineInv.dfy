/** The invariant of the machine: facts about the whole state, and facts about one byte. */
module EngineInv {
  import opened Records
  import opened Engine
  import opened EngineLog

  ghost predicate Covered(log: seq<Record>, m: nat, p: PageKey, a: nat) {
    exists i {:trigger log[i].Covers(p, a)} :: m <= i < |log| && log[i].Covers(p, a)
  }

  ghost predicate CoveredSince(log: seq<Record>, lsn: nat, p: PageKey, a: nat) {
    exists i {:trigger log[i].Covers(p, a)} :: 0 <= i < |log| && log[i].Covers(p, a) && log[i].lsn >= lsn
  }

  /** Redo will write the byte, from record `m` on. */
  ghost predicate InRedoFrom(log: seq<Record>, chk: nat, m: nat, p: PageKey, a: nat) {
    exists i {:trigger log[i].Covers(p, a)} :: m <= i < |log| && log[i].Covers(p, a) && InRedo(log, chk, log[i])
  }

  // ---------------------------------------------------------------- the whole state

  ghost predicate Global(s: State) {
    && Shape(s)
    && LsnOrdered(s.All(), s.nextLsn) && LsnOrdered(s.log, s.diskNext) && s.diskNext <= s.nextLsn
    && IdsNotReused(s.All())
    && CheckpointHolds(s.log, s.chkLsn) && s.chkLsn < s.diskNext
    && (forall p :: p in s.frames ==> s.frames[p].recLsn < s.nextLsn && s.frames[p].pageLsn < s.nextLsn)
    && PhaseHolds(s)
  }

  ghost predicate PhaseHolds(s: State)
    requires Shape(s)
  {
    match s.phase
    case Up => AttMatches(s.active, s.All(), |s.All()|) && LogBeforePage(s)
    case Down =>
      && s.buf == [] && s.active == map[] && s.dirty == {}
      && (forall p :: p in s.frames ==> s.frames[p] == Frame(s.disk[p], 0, 0))
    case Redo(i, an) =>
      && s.buf == [] && i <= |s.log| && an == AnalysisOf(s.log, s.chkLsn) && s.active == map[]
      && (forall p :: p in s.frames && s.frames[p].recLsn > 0 ==> i > 0 && s.frames[p].recLsn <= s.log[i - 1].lsn)
    case Undo(n, i, losers) =>
      && i <= n <= |s.log|
      && (forall t :: t in losers <==> OpenAt(s.All(), |s.All()|, t))
      && (forall j {:trigger OpenClr(s.All(), j)} :: n <= j < |s.All()| ==> OpenClr(s.All(), j))
      && s.active.Keys <= losers
    case Ending(todo) =>
      && (forall t :: t in todo <==> OpenAt(s.All(), |s.All()|, t))
      && (forall j {:trigger OpenClr(s.All(), j)} :: |s.log| <= j < |s.All()| ==> OpenClr(s.All(), j))
      && s.active.Keys <= todo
    case Recovered =>
      && s.buf == [] && s.active == map[]
      && (forall t :: !OpenAt(s.All(), |s.All()|, t))
  }

  ghost predicate OpenClr(log: seq<Record>, j: nat)
    requires j < |log|
  {
    log[j].Clr? && log[j].txn != 0 && !Ended(log, log[j].txn)
  }

  /** A buffered record's page is dirty and its frame carries an LSN at least as high, so that
      writing the page back forces the record out first. */
  ghost predicate LogBeforePage(s: State)
    requires Shape(s)
  {
    forall i :: |s.log| <= i < |s.All()| && s.All()[i].IsWrite() ==>
      s.All()[i].page in s.dirty && s.All()[i].lsn <= s.frames[s.All()[i].page].pageLsn
  }

  // ---------------------------------------------------------------- one byte

  ghost predicate AByte(s: State, p: PageKey, a: nat)
    requires Shape(s)
  {
    p in s.base && a < PageSize(p)
  }

  /** A recovery started now would repair the byte on disk. */
  ghost predicate Repairable(s: State, p: PageKey, a: nat)
    requires Shape(s) && AByte(s, p, a)
  {
    || InRedoFrom(s.log, s.chkLsn, 0, p, a)
    || LoserCovered(s.log, p, a)
    || s.disk[p][a] == Replay(s.log, |s.log|, p, a, s.base[p][a])
  }

  /** How far the byte in the pool may be ahead of the byte in the file. */
  ghost predicate Synced(s: State, p: PageKey, a: nat)
    requires Shape(s) && AByte(s, p, a)
  {
    && (p !in s.dirty ==> s.disk[p][a] == s.Cur(p)[a])
    && (p in s.dirty ==>
          if s.frames[p].recLsn > 0
          then CoveredSince(s.All(), s.frames[p].recLsn, p, a) || s.disk[p][a] == s.Cur(p)[a]
          else (s.phase.Up? || s.phase.Redo? ==> s.disk[p][a] == s.Cur(p)[a]))
  }

  ghost predicate ByteHolds(s: State, p: PageKey, a: nat)
    requires Shape(s) && AByte(s, p, a)
  {
    && Disciplined(s.All(), p, a, s.base[p][a])
    && Synced(s, p, a)
    && BytePhase(s, p, a)
  }

  ghost predicate BytePhase(s: State, p: PageKey, a: nat)
    requires Shape(s) && AByte(s, p, a)
  {
    var b, d, c, all := s.base[p][a], s.disk[p][a], s.Cur(p)[a], s.All();
    match s.phase
    case Up =>
      && c == Replay(all, |all|, p, a, b)
      && (InRedoFrom(s.log, s.chkLsn, 0, p, a) || d == Replay(s.log, |s.log|, p, a, b))
    case Down => Repairable(s, p, a)
    case Redo(i, _) =>
      && Repairable(s, p, a)
      && (InRedoFrom(s.log, s.chkLsn, i, p, a) || LoserCovered(s.log, p, a) || c == Replay(s.log, |s.log|, p, a, b))
    case Undo(n, i, _) =>
      && i <= n <= |all|
      && Repairable(s, p, a)
      && (c == Replay(all, |all|, p, a, b) || UndoneFrom(all, 0, i, p, a))
      && Replay(all, |all|, p, a, b) == Undone(all, n, i, p, a, b)
      && (UndoneFrom(all, i, n, p, a) ==> Covered(all, n, p, a))
    case Ending(_) =>
      && Repairable(s, p, a)
      && c == Replay(all, |all|, p, a, b) && (Isolated(all, p, a) ==> c == Effective(s.log, p, a, b))
      && (InRedoFrom(all, s.chkLsn, 0, p, a) || d == Replay(all, |all|, p, a, b))
    case Recovered =>
      && c == Replay(all, |all|, p, a, b) && (Isolated(all, p, a) ==> c == Effective(s.log, p, a, b))
      && (InRedoFrom(s.log, s.chkLsn, 0, p, a) || d == Replay(s.log, |s.log|, p, a, b))
  }

  /** The invariant of every run in which callers reuse no id and resume with no blind page. */
  ghost predicate Tracks(s: State) {
    Global(s) && forall p, a: nat :: AByte(s, p, a) ==> ByteHolds(s, p, a)
  }

  ghost predicate AllIsolated(s: State)
    requires Shape(s)
  {
    forall p, a: nat :: AByte(s, p, a) ==> Isolated(s.All(), p, a)
  }

  /** The invariant of every run whose callers also keep their writes apart. */
  ghost predicate Holds(s: State) {
    Tracks(s) && AllIsolated(s)
  }

  // ---------------------------------------------------------------- longer logs, seen from one byte

  lemma ReplayAppend(log: seq<Record>, r: Record, p: PageKey, a: nat, b: byte)
    ensures Replay(log + [r], |log| + 1, p, a, b)
         == if r.Covers(p, a) then r.redo[a - r.off] else Replay(log, |log|, p, a, b)
  {
    assert (log + [r])[|log|] == r;
    ReplayOnPrefix(log, [r], |log|, p, a, b);
  }

  lemma DisciplinedAppend(log: seq<Record>, r: Record, p: PageKey, a: nat, b: byte)
    requires Disciplined(log, p, a, b)
    requires r.Covers(p, a) && r.Update? && |r.undo| == |r.redo| ==> r.undo[a - r.off] == Replay(log, |log|, p, a, b)
    requires r.Covers(p, a) && r.Clr? ==> UpdatedBefore(log, |log|, r.txn, p, a)
    ensures Disciplined(log + [r], p, a, b)
  {
    var log' := log + [r];
    assert forall i :: 0 <= i < |log| ==> log'[i] == log[i];
    forall i | 0 <= i < |log'| && log'[i].Update? && log'[i].Covers(p, a) && |log'[i].undo| == |log'[i].redo|
      ensures log'[i].undo[a - log'[i].off] == Replay(log', i, p, a, b)
    {
      ReplayOnPrefix(log, [r], i, p, a, b);
    }
    forall j | 0 <= j < |log'| && log'[j].Clr? && log'[j].Covers(p, a)
      ensures UpdatedBefore(log', j, log'[j].txn, p, a)
    {
      assert UpdatedBefore(log, j, log'[j].txn, p, a);
      var i :| 0 <= i < j && log[i].Update? && log[i].txn == log'[j].txn && log[i].Covers(p, a);
      assert log'[i] == log[i];
    }
  }

  lemma IsolatedAppend(log: seq<Record>, r: Record, p: PageKey, a: nat)
    requires Isolated(log, p, a)
    requires r.Covers(p, a) ==>
      forall i {:trigger log[i].Covers(p, a)} ::
        0 <= i < |log| && log[i].Covers(p, a) && log[i].txn != 0 && log[i].txn != r.txn ==> Ended(log, log[i].txn)
    ensures Isolated(log + [r], p, a)
  {
    var log' := log + [r];
    assert forall i :: 0 <= i < |log| ==> log'[i] == log[i];
    forall i, j | 0 <= i < j < |log'| && log'[i].Covers(p, a) && log'[j].Covers(p, a)
      && log'[i].txn != 0 && log'[i].txn != log'[j].txn
      ensures EndedBy(log', j, log'[i].txn)
    {
      OpenAtPrefix(log, [r], j, log'[i].txn);
    }
  }

  lemma IsolatedPrefix(log: seq<Record>, more: seq<Record>, p: PageKey, a: nat)
    requires Isolated(log + more, p, a)
    ensures Isolated(log, p, a)
  {
    var all := log + more;
    assert forall i :: 0 <= i < |log| ==> all[i] == log[i];
    forall i, j | 0 <= i < j < |log| && log[i].Covers(p, a) && log[j].Covers(p, a)
      && log[i].txn != 0 && log[i].txn != log[j].txn
      ensures EndedBy(log, j, log[i].txn)
    {
      OpenAtPrefix(log, more, j, log[i].txn);
    }
  }

  lemma DisciplinedPrefix(log: seq<Record>, more: seq<Record>, p: PageKey, a: nat, b: byte)
    requires Disciplined(log + more, p, a, b)
    ensures Disciplined(log, p, a, b)
  {
    var all := log + more;
    assert forall i :: 0 <= i < |log| ==> all[i] == log[i];
    forall i | 0 <= i < |log| && log[i].Update? && log[i].Covers(p, a) && |log[i].undo| == |log[i].redo|
      ensures log[i].undo[a - log[i].off] == Replay(log, i, p, a, b)
    {
      ReplayOnPrefix(log, more, i, p, a, b);
    }
    forall j | 0 <= j < |log| && log[j].Clr? && log[j].Covers(p, a)
      ensures UpdatedBefore(log, j, log[j].txn, p, a)
    {
      assert UpdatedBefore(all, j, log[j].txn, p, a);
      var i :| 0 <= i < j && all[i].Update? && all[i].txn == log[j].txn && all[i].Covers(p, a);
    }
  }

  /** When more of the log becomes durable, redo reaches it. */
  lemma RedoReachesNewRecords(log: seq<Record>, more: seq<Record>, chk: nat, next: nat, p: PageKey, a: nat, b: byte)
    requires LsnOrdered(log + more, next) && CheckpointHolds(log, chk)
    ensures CheckpointHolds(log + more, chk)
    ensures InRedoFrom(log, chk, 0, p, a) ==> InRedoFrom(log + more, chk, 0, p, a)
    ensures Covered(log + more, |log|, p, a) ==> InRedoFrom(log + more, chk, 0, p, a)
    ensures !Covered(log + more, |log|, p, a) ==>
      Replay(log + more, |log + more|, p, a, b) == Replay(log, |log|, p, a, b)
  {
    var all := log + more;
    CheckpointHoldsOn(log, more, chk, next);
    assert LsnOrdered(log, next) by {
      assert forall i :: 0 <= i < |log| ==> all[i] == log[i];
    }
    var c := AnalysisStart(log, chk, next);
    if InRedoFrom(log, chk, 0, p, a) {
      var i :| 0 <= i < |log| && log[i].Covers(p, a) && InRedo(log, chk, log[i]);
      assert all[i] == log[i];
    }
    if Covered(all, |log|, p, a) {
      var i :| |log| <= i < |all| && all[i].Covers(p, a);
      if c > 0 {
        assert all[c - 1].lsn < all[i].lsn;
      }
      assert InRedo(all, chk, all[i]);
    } else {
      ReplayUncovered(all, |log|, |all|, p, a, b);
      ReplayOnPrefix(log, more, |log|, p, a, b);
    }
  }

  /** Redo's range is closed under "later": after a record in it, all records of the page are in it. */
  lemma RedoRangeIsSuffix(log: seq<Record>, chk: nat, next: nat, i: nat, j: nat)
    requires LsnOrdered(log, next) && i < j < |log|
    requires InRedo(log, chk, log[i]) && log[j].IsWrite() && log[j].page == log[i].page
    ensures InRedo(log, chk, log[j])
  {
  }
}
