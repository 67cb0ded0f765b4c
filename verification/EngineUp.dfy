/** Transactions, updates, checkpoints and crashes keep the invariant. */
module EngineUp {
  import opened Records
  import opened Engine
  import opened EngineLog
  import opened EngineInv
  import opened EngineFlush

  /** A record that speaks for a live transaction (or none) extends the log's order, its id
      discipline, and the active transaction table. */
  lemma LogGrows(all: seq<Record>, next: nat, r: Record)
    requires LsnOrdered(all, next) && IdsNotReused(all) && r.lsn == next && next >= 1
    requires forall t :: t != 0 && r.Of(t) ==> !Ended(all, t)
    ensures LsnOrdered(all + [r], next + 1) && IdsNotReused(all + [r])
  {
    var all' := all + [r];
    assert forall i :: 0 <= i < |all| ==> all'[i] == all[i];
    forall i, j | 0 <= i < j < |all'| && all'[i].IsEnd() && all'[i].txn != 0
      ensures !all'[j].Of(all'[i].txn)
    {
      assert all[i].IsEnd();
      if j < |all| {
        assert !all[j].Of(all[i].txn);
      } else {
        assert Ended(all, all[i].txn);
      }
    }
  }

  lemma AttGrows(all: seq<Record>, r: Record, att: map<nat, nat>)
    requires IdsNotReused(all + [r]) && AttMatches(att, all, |all|)
    ensures AttMatches(AnalysisStep(Analysis(map[], att), r).att, all + [r], |all + [r]|)
  {
    forall t | t != 0 ensures t in att <==> OpenAt(all + [r], |all|, t) {
      OpenAtPrefix(all, [r], |all|, t);
    }
    assert (all + [r])[|all|] == r;
    AttStep(all + [r], |all|, Analysis(map[], att));
  }

  lemma NextLsnPositive(s: State)
    requires Global(s)
    ensures s.nextLsn >= 1
  {
  }

  lemma BufferedBelow(s: State)
    requires Global(s)
    ensures forall i :: 0 <= i < |s.buf| ==> s.buf[i].lsn < s.nextLsn
  {
    forall i | 0 <= i < |s.buf| ensures s.buf[i].lsn < s.nextLsn {
      assert s.All()[|s.log| + i] == s.buf[i];
    }
  }

  // ---------------------------------------------------------------- records that write no page

  function Noted(s: State, r: Record): State {
    Append(s, r).(active := AnalysisStep(Analysis(map[], s.active), r).att)
  }

  lemma NotedAll(s: State, r: Record)
    ensures Noted(s, r).All() == s.All() + [r]
  {
    assert s.log + (s.buf + [r]) == (s.log + s.buf) + [r];
  }

  lemma NotedGlobal(s: State, r: Record)
    requires Global(s) && s.phase.Up? && !r.IsWrite() && r.lsn == s.nextLsn && 1 <= s.nextLsn
    requires forall t :: t != 0 && r.Of(t) ==> !Ended(s.All(), t)
    ensures Global(Noted(s, r))
  {
    NotedAll(s, r);
    LogGrows(s.All(), s.nextLsn, r);
    AttGrows(s.All(), r, s.active);
    var s' := Noted(s, r);
    assert forall i :: 0 <= i < |s.All()| ==> s'.All()[i] == s.All()[i];
    assert Shape(s');
    assert LogBeforePage(s');
  }

  lemma SincePersists(all: seq<Record>, r: Record, lsn: nat, p: PageKey, a: nat)
    requires CoveredSince(all, lsn, p, a)
    ensures CoveredSince(all + [r], lsn, p, a)
  {
    var i :| 0 <= i < |all| && all[i].Covers(p, a) && all[i].lsn >= lsn;
    assert (all + [r])[i] == all[i];
  }

  lemma NotedByte(s: State, r: Record, p: PageKey, a: nat)
    requires Global(s) && s.phase.Up? && !r.IsWrite() && Shape(Noted(s, r))
    requires AByte(s, p, a) && ByteHolds(s, p, a)
    ensures ByteHolds(Noted(s, r), p, a)
  {
    NotedAll(s, r);
    ReplayAppend(s.All(), r, p, a, s.base[p][a]);
    DisciplinedAppend(s.All(), r, p, a, s.base[p][a]);
    if p in s.dirty && CoveredSince(s.All(), s.frames[p].recLsn, p, a) {
      SincePersists(s.All(), r, s.frames[p].recLsn, p, a);
    }
    assert Synced(Noted(s, r), p, a);
  }

  lemma NotedTracks(s: State, r: Record)
    requires Tracks(s) && s.phase.Up? && !r.IsWrite() && r.lsn == s.nextLsn
    requires forall t :: t != 0 && r.Of(t) ==> !Ended(s.All(), t)
    ensures Tracks(Noted(s, r))
    ensures Noted(s, r).All() == s.All() + [r]
  {
    NotedAll(s, r);
    NotedGlobal(s, r);
    forall p, a: nat | AByte(s, p, a) ensures ByteHolds(Noted(s, r), p, a) {
      NotedByte(s, r, p, a);
    }
  }

  /** When commit returns, everything logged so far is in the log file. */
  lemma EndTracks(s: State, r: Record)
    requires Tracks(s) && s.phase.Up? && r.IsEnd() && r.lsn == s.nextLsn
    requires r.txn == 0 || !Ended(s.All(), r.txn)
    ensures Tracks(FlushLog(Noted(s, r), s.nextLsn))
    ensures FlushLog(Noted(s, r), s.nextLsn).log == s.All() + [r]
    ensures FlushLog(Noted(s, r), s.nextLsn).buf == []
  {
    NotedTracks(s, r);
    FlushLogTracks(Noted(s, r), s.nextLsn);
    BufferedBelow(Noted(s, r));
    FlushNewest(Noted(s, r), s.nextLsn);
  }

  // ---------------------------------------------------------------- updates

  lemma TouchByte(s: State, p: PageKey, q: PageKey, a: nat)
    requires Global(s) && p in s.frames && AByte(s, q, a) && ByteHolds(s, q, a) && s.phase.Up?
    requires Shape(WriteFrame(s, p, s.frames[p].data))
    ensures ByteHolds(WriteFrame(s, p, s.frames[p].data), q, a)
  {
    var s' := WriteFrame(s, p, s.frames[p].data);
    assert s'.All() == s.All() && s'.Cur(q) == s.Cur(q);
    assert Synced(s', q, a);
  }

  /** Handing out a guard and dropping it unchanged only marks the page dirty. */
  lemma TouchTracks(s: State, p: PageKey)
    requires Tracks(s) && p in s.frames && s.phase.Up?
    ensures Tracks(WriteFrame(s, p, s.frames[p].data))
  {
    var s' := WriteFrame(s, p, s.frames[p].data);
    assert s'.All() == s.All();
    assert Global(s');
    forall q, a: nat | AByte(s, q, a) ensures ByteHolds(s', q, a) {
      TouchByte(s, p, q, a);
    }
  }

  /** Splicing the redo image into the old page gives the new page, and the undo image undoes it. */
  lemma DiffRoundTrip(was: seq<byte>, now: seq<byte>)
    requires |was| == |now| && was != now
    ensures var lo, hi := DiffStart(was, now, 0), DiffEnd(was, now, |was|);
            lo < hi <= |was| && Splice(was, lo, now[lo..hi]) == now && Splice(now, lo, was[lo..hi]) == was
  {
    DiffNonempty(was, now);
    SpliceDiff(was, now, DiffStart(was, now, 0), DiffEnd(was, now, |was|));
    SpliceDiff(now, was, DiffStart(was, now, 0), DiffEnd(was, now, |was|));
  }

  lemma SpliceDiff(was: seq<byte>, now: seq<byte>, lo: nat, hi: nat)
    requires lo <= hi <= |was| == |now|
    requires forall a :: 0 <= a < |was| && !(lo <= a < hi) ==> was[a] == now[a]
    ensures Splice(was, lo, now[lo..hi]) == now
  {
  }

  /** At byte `a`, record `r` turns the content `was` into `now`. */
  ghost predicate Describes(r: Record, was: seq<byte>, now: seq<byte>, a: nat)
    requires r.Update? && |r.undo| == |r.redo| && a < |was| == |now|
  {
    if r.Covers(r.page, a) then r.undo[a - r.off] == was[a] && r.redo[a - r.off] == now[a] else was[a] == now[a]
  }

  /** A frame gets new content and the record that describes the change is logged. */
  function Changed(s: State, r: Record, now: seq<byte>): State
    requires r.IsWrite() && r.page in s.frames
  {
    var s1 := Append(WriteFrame(s, r.page, now), r);
    UpdateLsn(if r.txn != 0 then s1.(active := s1.active[r.txn := r.lsn]) else s1, r.page, r.lsn)
  }

  lemma ChangedAll(s: State, r: Record, now: seq<byte>)
    requires r.IsWrite() && r.page in s.frames
    ensures Changed(s, r, now).All() == s.All() + [r]
    ensures Changed(s, r, now).active == AnalysisStep(Analysis(map[], s.active), r).att
  {
    assert s.log + (s.buf + [r]) == (s.log + s.buf) + [r];
  }

  lemma ChangedShape(s: State, r: Record, now: seq<byte>)
    requires Shape(s) && r.Update? && r.page in s.frames && |now| == PageSize(r.page) && InBounds(r)
    ensures Shape(Changed(s, r, now))
  {
    var s' := Changed(s, r, now);
    ChangedAll(s, r, now);
    forall i | 0 <= i < |s'.All()|
      ensures InBounds(s'.All()[i]) && (s'.All()[i].IsWrite() ==> s'.All()[i].page in s'.base)
    {
      if i < |s.All()| { assert s'.All()[i] == s.All()[i]; } else { assert s'.All()[i] == r; }
    }
  }

  lemma ChangedLogBeforePage(s: State, r: Record, now: seq<byte>)
    requires Shape(s) && LogBeforePage(s) && r.Update? && r.page in s.frames && Shape(Changed(s, r, now))
    requires LsnOrdered(s.All(), r.lsn)
    ensures LogBeforePage(Changed(s, r, now))
  {
    var s' := Changed(s, r, now);
    ChangedAll(s, r, now);
    forall i | |s'.log| <= i < |s'.All()| && s'.All()[i].IsWrite()
      ensures s'.All()[i].page in s'.dirty && s'.All()[i].lsn <= s'.frames[s'.All()[i].page].pageLsn
    {
      if i < |s.All()| {
        assert s'.All()[i] == s.All()[i];
        assert s.All()[i].lsn < r.lsn;
      } else {
        assert s'.All()[i] == r;
      }
    }
  }

  lemma ChangedGlobal(s: State, r: Record, now: seq<byte>)
    requires Global(s) && s.phase.Up? && r.Update? && r.page in s.frames && 1 <= s.nextLsn == r.lsn
    requires |now| == PageSize(r.page) && InBounds(r)
    requires r.txn == 0 || !Ended(s.All(), r.txn)
    ensures Global(Changed(s, r, now))
  {
    hide CheckpointHolds, WellSized, AttMatches, LogBeforePage, InBounds, LsnOrdered, IdsNotReused, Shape;
    ChangedAll(s, r, now);
    LogGrows(s.All(), s.nextLsn, r);
    AttGrows(s.All(), r, s.active);
    ChangedShape(s, r, now);
    ChangedLogBeforePage(s, r, now);
  }

  lemma ChangedOther(s: State, r: Record, now: seq<byte>, q: PageKey, a: nat)
    requires Global(s) && s.phase.Up? && r.IsWrite() && r.page in s.frames && q != r.page
    requires Shape(Changed(s, r, now)) && AByte(s, q, a) && ByteHolds(s, q, a)
    ensures ByteHolds(Changed(s, r, now), q, a)
  {
    hide LsnOrdered, IdsNotReused, CheckpointHolds, PhaseHolds, WellSized, Disciplined, InRedoFrom, Global;
    ChangedAll(s, r, now);
    ReplayAppend(s.All(), r, q, a, s.base[q][a]);
    DisciplinedAppend(s.All(), r, q, a, s.base[q][a]);
    if q in s.dirty && CoveredSince(s.All(), s.frames[q].recLsn, q, a) {
      SincePersists(s.All(), r, s.frames[q].recLsn, q, a);
    }
    assert Synced(Changed(s, r, now), q, a);
  }

  /** The log after the change: still disciplined at the byte, and it replays to the new content. */
  lemma ChangedLog(s: State, r: Record, now: seq<byte>, a: nat)
    requires Shape(s) && r.Update? && r.page in s.frames && InBounds(r) && AByte(s, r.page, a)
    requires |now| == PageSize(r.page)
    requires var was, b := s.frames[r.page].data, s.base[r.page][a];
             && Disciplined(s.All(), r.page, a, b) && was[a] == Replay(s.All(), |s.All()|, r.page, a, b)
             && Describes(r, was, now, a)
    ensures var all := s.All() + [r];
            Disciplined(all, r.page, a, s.base[r.page][a]) && Replay(all, |all|, r.page, a, s.base[r.page][a]) == now[a]
  {
    ReplayAppend(s.All(), r, r.page, a, s.base[r.page][a]);
    DisciplinedAppend(s.All(), r, r.page, a, s.base[r.page][a]);
  }

  lemma ChangedSynced(s: State, r: Record, now: seq<byte>, a: nat)
    requires Shape(s) && s.phase.Up? && r.Update? && r.page in s.frames && InBounds(r)
    requires r.lsn > s.frames[r.page].recLsn
    requires Shape(Changed(s, r, now)) && AByte(s, r.page, a) && Synced(s, r.page, a)
    requires Describes(r, s.frames[r.page].data, now, a)
    ensures Synced(Changed(s, r, now), r.page, a)
  {
    var p, s' := r.page, Changed(s, r, now);
    ChangedAll(s, r, now);
    if r.Covers(p, a) {
      assert s'.All()[|s.All()|] == r;
      assert CoveredSince(s'.All(), s'.frames[p].recLsn, p, a);
    } else if p in s.dirty && CoveredSince(s.All(), s.frames[p].recLsn, p, a) {
      SincePersists(s.All(), r, s.frames[p].recLsn, p, a);
    }
  }

  lemma ChangedByte(s: State, r: Record, now: seq<byte>, a: nat)
    requires Global(s) && s.phase.Up? && r.Update? && r.page in s.frames && 1 <= s.nextLsn == r.lsn
    requires |now| == PageSize(r.page) && InBounds(r)
    requires Shape(Changed(s, r, now)) && AByte(s, r.page, a) && ByteHolds(s, r.page, a)
    requires Describes(r, s.frames[r.page].data, now, a)
    ensures ByteHolds(Changed(s, r, now), r.page, a)
  {
    ChangedAll(s, r, now);
    ChangedLog(s, r, now, a);
    ChangedSynced(s, r, now, a);
  }

  lemma ChangedTracks(s: State, r: Record, now: seq<byte>)
    requires Tracks(s) && s.phase.Up? && r.Update? && r.page in s.frames && s.nextLsn == r.lsn
    requires |now| == PageSize(r.page) && InBounds(r)
    requires forall a: nat :: a < |now| ==> Describes(r, s.frames[r.page].data, now, a)
    requires r.txn == 0 || !Ended(s.All(), r.txn)
    ensures Tracks(Changed(s, r, now))
  {
    ChangedGlobal(s, r, now);
    forall q, a: nat | AByte(s, q, a) ensures ByteHolds(Changed(s, r, now), q, a) {
      if r.page == q { ChangedByte(s, r, now, a); } else { ChangedOther(s, r, now, q, a); }
    }
  }

  /** The record that a logged update writes. */
  function DiffRecord(lsn: nat, t: nat, p: PageKey, was: seq<byte>, now: seq<byte>): Record
    requires |was| == |now| && was != now
  {
    var lo, hi := DiffStart(was, now, 0), DiffEnd(was, now, |was|);
    DiffNonempty(was, now);
    Update(lsn, t, p, lo, was[lo..hi], now[lo..hi])
  }

  lemma DiffDescribes(lsn: nat, t: nat, p: PageKey, was: seq<byte>, now: seq<byte>)
    requires |was| == |now| == PageSize(p) && was != now
    ensures var r := DiffRecord(lsn, t, p, was, now);
            InBounds(r) && forall a: nat :: a < |now| ==> Describes(r, was, now, a)
  {
    DiffNonempty(was, now);
  }

  lemma LogDiffIsChanged(s: State, t: nat, p: PageKey, now: seq<byte>)
    requires p in s.frames && |s.frames[p].data| == |now| && s.frames[p].data != now
    ensures LogDiff(WriteFrame(s, p, now), t, p, s.frames[p].data, now)
         == Changed(s, DiffRecord(s.nextLsn, t, p, s.frames[p].data, now), now)
  {
  }

  lemma UpdateTracks(s: State, t: nat, p: PageKey, now: seq<byte>)
    requires Tracks(s) && s.phase.Up? && p in s.frames && |now| == PageSize(p) && s.frames[p].data != now
    requires t == 0 || !Ended(s.All(), t)
    ensures Tracks(LogDiff(WriteFrame(s, p, now), t, p, s.frames[p].data, now))
  {
    var r := DiffRecord(s.nextLsn, t, p, s.frames[p].data, now);
    DiffDescribes(s.nextLsn, t, p, s.frames[p].data, now);
    LogDiffIsChanged(s, t, p, now);
    ChangedTracks(s, r, now);
  }

  /** An update that may overwrite what it overwrites leaves every byte isolated. */
  lemma UpdateIsolated(s: State, t: nat, p: PageKey, was: seq<byte>, now: seq<byte>, q: PageKey, a: nat)
    requires |was| == |now| && was != now && MayOverwrite(s, t, p, was, now) && Isolated(s.All(), q, a)
    ensures Isolated(s.All() + [DiffRecord(s.nextLsn, t, p, was, now)], q, a)
  {
    DiffNonempty(was, now);
    IsolatedAppend(s.All(), DiffRecord(s.nextLsn, t, p, was, now), q, a);
  }

  // ---------------------------------------------------------------- checkpoints

  lemma CheckpointWrittenTracks(s: State)
    requires Tracks(s) && s.phase.Up?
    ensures Tracks(FlushLog(Append(s, CheckpointRecord(s)), s.nextLsn))
  {
    var r := CheckpointRecord(s);
    assert Append(s, r) == Noted(s, r);
    NotedTracks(s, r);
    FlushLogTracks(Noted(s, r), s.nextLsn);
  }

  /** The checkpoint record with everything before it durable, the header still the old one. */
  lemma CheckpointWritten(s: State)
    requires Global(s) && s.phase.Up?
    ensures var s1 := FlushLog(Append(s, CheckpointRecord(s)), s.nextLsn);
            && Global(s1) && s1.buf == [] && s1.log == s.All() + [CheckpointRecord(s)]
            && s1.frames == s.frames && s1.dirty == s.dirty && s1.disk == s.disk && s1.active == s.active
            && s1.base == s.base && s1.phase == s.phase && s1.nextLsn == s.nextLsn + 1
  {
    hide LsnOrdered, IdsNotReused, CheckpointHolds, WellSized, PhaseHolds;
    var r := CheckpointRecord(s);
    assert Append(s, r) == Noted(s, r);
    NotedAll(s, r);
    NextLsnPositive(s);
    NotedGlobal(s, r);
    FlushLogGlobal(Noted(s, r), s.nextLsn);
    BufferedBelow(Noted(s, r));
    FlushNewest(Noted(s, r), s.nextLsn);
  }

  lemma CheckpointNamed(s: State, s1: State, chk: nat)
    requires Global(s1) && s1.phase.Up? && s1.buf == [] && s1.log != [] && s1.diskNext == s1.nextLsn == chk + 1
    requires CheckpointAt(s1.log, chk, |s1.log| - 1)
    ensures Global(s1.(chkLsn := chk))
    ensures StartDpt(s1.log, chk) == s1.log[|s1.log| - 1].dpt
  {
    var s' := s1.(chkLsn := chk);
    assert s'.All() == s1.All() == s1.log;
    FindLsnFinds(s1.log, |s1.log|, |s1.log| - 1);
    assert Shape(s');
    assert PhaseHolds(s');
  }

  lemma CheckpointGlobal(s: State)
    requires Global(s) && s.phase.Up?
    ensures Global(CheckpointStep(s))
    ensures var s' := CheckpointStep(s);
            s'.All() == s'.log == s.All() + [CheckpointRecord(s)]
              && StartDpt(s'.log, s'.chkLsn) == CheckpointRecord(s).dpt
  {
    var r, n := CheckpointRecord(s), |s.All()|;
    CheckpointWritten(s);
    var s1 := FlushLog(Append(s, r), s.nextLsn);
    assert s1.log[n] == r;
    forall t | t != 0 ensures t in r.att <==> OpenAt(s1.log, n, t) {
      OpenAtPrefix(s.All(), [r], n, t);
    }
    assert CheckpointAt(s1.log, s.nextLsn, n);
    CheckpointNamed(s, s1, s.nextLsn);
  }

  lemma CheckpointByte(s: State, p: PageKey, a: nat)
    requires Global(s) && s.phase.Up? && AByte(s, p, a) && ByteHolds(s, p, a)
    requires var s' := CheckpointStep(s);
             && s'.log == s.All() + [CheckpointRecord(s)] && s'.buf == []
             && s'.frames == s.frames && s'.dirty == s.dirty && s'.disk == s.disk && s'.base == s.base && s'.phase.Up?
             && Shape(s') && StartDpt(s'.log, s'.chkLsn) == CheckpointRecord(s).dpt
             && Disciplined(s'.log, p, a, s.base[p][a])
    ensures ByteHolds(CheckpointStep(s), p, a)
  {
    hide LsnOrdered, IdsNotReused, CheckpointHolds, PhaseHolds, WellSized, Disciplined;
    var s', r := CheckpointStep(s), CheckpointRecord(s);
    assert s'.All() == s'.log;
    ReplayAppend(s.All(), r, p, a, s.base[p][a]);
    if p in s.dirty && CoveredSince(s.All(), s.frames[p].recLsn, p, a) {
      SincePersists(s.All(), r, s.frames[p].recLsn, p, a);
      var i :| 0 <= i < |s'.log| && s'.log[i].Covers(p, a) && s'.log[i].lsn >= s.frames[p].recLsn;
      assert InRedo(s'.log, s'.chkLsn, s'.log[i]);
    }
    assert Synced(s', p, a);
  }

  lemma CheckpointTracks(s: State)
    requires Tracks(s) && s.phase.Up?
    ensures Tracks(CheckpointStep(s))
  {
    hide LsnOrdered, IdsNotReused, CheckpointHolds, WellSized, BytePhase, Synced;
    CheckpointWritten(s);
    CheckpointGlobal(s);
    forall p, a: nat | AByte(s, p, a) ensures ByteHolds(CheckpointStep(s), p, a) {
      DisciplinedAppend(s.All(), CheckpointRecord(s), p, a, s.base[p][a]);
      CheckpointByte(s, p, a);
    }
  }

  // ---------------------------------------------------------------- crash

  lemma CrashGlobal(s: State)
    requires Global(s)
    ensures Global(CrashOf(s))
  {
    var s' := CrashOf(s);
    assert s'.All() == s.log;
    assert forall i :: 0 <= i < |s.log| ==> s.All()[i] == s.log[i];
    forall i, j | 0 <= i < j < |s.log| && s.log[i].IsEnd() && s.log[i].txn != 0
      ensures !s.log[j].Of(s.log[i].txn)
    {
      assert s.All()[i].IsEnd() && !s.All()[j].Of(s.All()[i].txn);
    }
    assert Shape(s');
  }

  lemma CrashByte(s: State, p: PageKey, a: nat)
    requires Global(s) && Shape(CrashOf(s)) && AByte(s, p, a) && ByteHolds(s, p, a)
    ensures ByteHolds(CrashOf(s), p, a)
  {
    var s' := CrashOf(s);
    assert s'.All() == s.log;
    DisciplinedPrefix(s.log, s.buf, p, a, s.base[p][a]);
    assert Repairable(s, p, a);
    assert Synced(s', p, a);
  }

  /** Whatever a crash takes away, what is left can be repaired. */
  lemma CrashTracks(s: State)
    requires Tracks(s)
    ensures Tracks(CrashOf(s))
  {
    CrashGlobal(s);
    forall p, a: nat | AByte(s, p, a) ensures ByteHolds(CrashOf(s), p, a) {
      CrashByte(s, p, a);
    }
  }
}
