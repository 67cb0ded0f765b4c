/** The log as bytes stands for the log that recovery works on: records decode to what was logged, and a
    flush moves the same ones. */
module LogRefinement {
  import opened Wrappers
  import opened Records
  import opened LittleEndian
  import opened WalRecords
  import E = Engine
  import C = CrashSafety
  import T = ReusedIds
  import opened WalLogs

  // ---------------------------------------------------------------- tables

  ghost predicate ListsDirty(entries: seq<DirtyPageEntry>, table: map<PageKey, nat>) {
    && (forall i {:trigger entries[i]} :: 0 <= i < |entries| ==>
          var p := PageKey(entries[i].isIndex, entries[i].pageId); p in table && table[p] == entries[i].recLsn)
    && forall p :: p in table ==> exists i {:trigger entries[i]} ::
        0 <= i < |entries| && PageKey(entries[i].isIndex, entries[i].pageId) == p
  }

  ghost predicate ListsActive(entries: seq<ActiveTxnEntry>, table: map<nat, nat>) {
    && (forall i {:trigger entries[i]} :: 0 <= i < |entries| ==>
          entries[i].txn in table && table[entries[i].txn] == entries[i].lastLsn)
    && forall t :: t in table ==> exists i {:trigger entries[i]} :: 0 <= i < |entries| && entries[i].txn == t
  }

  /** The table that a list of entries fills, later entries last. */
  function DirtyTable(entries: seq<DirtyPageEntry>): map<PageKey, nat> {
    if entries == [] then map[]
    else
      var e := entries[|entries| - 1];
      DirtyTable(entries[..|entries| - 1])[PageKey(e.isIndex, e.pageId) := e.recLsn]
  }

  function ActiveTable(entries: seq<ActiveTxnEntry>): map<nat, nat> {
    if entries == [] then map[]
    else ActiveTable(entries[..|entries| - 1])[entries[|entries| - 1].txn := entries[|entries| - 1].lastLsn]
  }

  lemma {:induction false} DirtyTableKeys(entries: seq<DirtyPageEntry>, p: PageKey)
    ensures p in DirtyTable(entries) <==> exists i {:trigger entries[i]} ::
      0 <= i < |entries| && PageKey(entries[i].isIndex, entries[i].pageId) == p
    ensures p in DirtyTable(entries) ==> exists i {:trigger entries[i]} ::
      0 <= i < |entries| && PageKey(entries[i].isIndex, entries[i].pageId) == p
        && DirtyTable(entries)[p] == entries[i].recLsn
  {
    if entries != [] {
      var n := |entries| - 1;
      DirtyTableKeys(entries[..n], p);
      assert forall i {:trigger entries[..n][i]} :: 0 <= i < n ==> entries[..n][i] == entries[i];
    }
  }

  lemma {:induction false} ActiveTableKeys(entries: seq<ActiveTxnEntry>, t: nat)
    ensures t in ActiveTable(entries) <==> exists i {:trigger entries[i]} :: 0 <= i < |entries| && entries[i].txn == t
    ensures t in ActiveTable(entries) ==> exists i {:trigger entries[i]} ::
      0 <= i < |entries| && entries[i].txn == t && ActiveTable(entries)[t] == entries[i].lastLsn
  {
    if entries != [] {
      var n := |entries| - 1;
      ActiveTableKeys(entries[..n], t);
      assert forall i {:trigger entries[..n][i]} :: 0 <= i < n ==> entries[..n][i] == entries[i];
    }
  }

  /** Whatever order a table is listed in, the list fills it again. */
  lemma TablesAgain(dirty: seq<DirtyPageEntry>, dpt: map<PageKey, nat>, active: seq<ActiveTxnEntry>, att: map<nat, nat>)
    requires ListsDirty(dirty, dpt) && ListsActive(active, att)
    ensures DirtyTable(dirty) == dpt && ActiveTable(active) == att
  {
    forall p: PageKey ensures p in DirtyTable(dirty) <==> p in dpt
    ensures p in dpt && p in DirtyTable(dirty) ==> DirtyTable(dirty)[p] == dpt[p]
    {
      DirtyTableKeys(dirty, p);
    }
    forall t: nat ensures t in ActiveTable(active) <==> t in att
    ensures t in att && t in ActiveTable(active) ==> ActiveTable(active)[t] == att[t]
    {
      ActiveTableKeys(active, t);
    }
  }

  // ---------------------------------------------------------------- records

  /** The record that recovery sees in a log record. */
  function Seen(w: WalRecord): Option<Record> {
    var h := w.header;
    match h.kind
    case TBegin => Some(Begin(h.lsn, h.txn))
    case TCommit => Some(Commit(h.lsn, h.txn))
    case TAbort => Some(Abort(h.lsn, h.txn))
    case TUpdate =>
      (match ParseUpdate(w.payload)
       case Some((undo, redo)) => Some(Update(h.lsn, h.txn, PageKey(h.isIndex, h.pageId), h.pageOffset, undo, redo))
       case None => None)
    case TClr =>
      (match ParseUpdate(w.payload)
       case Some((_, redo)) => Some(Clr(h.lsn, h.txn, PageKey(h.isIndex, h.pageId), h.pageOffset, redo))
       case None => None)
    case TCheckpoint =>
      (match CheckpointOf(w.payload)
       case Some((dpt, att)) => Some(Checkpoint(h.lsn, DirtyTable(dpt), ActiveTable(att)))
       case None => None)
  }

  /** `w` is what the log writes for `r`: the payload that the writers build, under a header with the
      same fields. */
  ghost predicate Writes(w: WalRecord, r: Record) {
    && w.header.lsn == r.lsn
    && match r
       case Begin(_, t) => w.header.kind == TBegin && w.header.txn == t
       case Commit(_, t) => w.header.kind == TCommit && w.header.txn == t
       case Abort(_, t) => w.header.kind == TAbort && w.header.txn == t
       case Update(_, t, p, off, undo, redo) =>
         && w.header.kind == TUpdate && w.header.txn == t && |undo| < U16 && |redo| < U16
         && p == PageKey(w.header.isIndex, w.header.pageId) && off == w.header.pageOffset
         && w.payload == EncodeUpdate(undo, redo)
       case Clr(_, t, p, off, redo) =>
         && w.header.kind == TClr && w.header.txn == t && |redo| < U16
         && p == PageKey(w.header.isIndex, w.header.pageId) && off == w.header.pageOffset
         && w.payload == EncodeUpdate([], redo)
       case Checkpoint(_, dpt, att) =>
         && w.header.kind == TCheckpoint
         && exists dirty, active {:trigger EncodeCheckpoint(dirty, active)} ::
              ListsDirty(dirty, dpt) && ListsActive(active, att) && DptFits(dirty) && AttFits(active)
              && w.payload == EncodeCheckpoint(dirty, active)
  }

  /** A written record is seen as the record it was written for. */
  lemma SeenIsWritten(w: WalRecord, r: Record)
    requires Writes(w, r)
    ensures Seen(w) == Some(r)
  {
    hide ParseUpdate, CheckpointOf, EncodeUpdate, EncodeCheckpoint, DirtyTable, ActiveTable;
    match r {
      case Update(_, _, _, _, undo, redo) => UpdateRoundTrip(undo, redo);
      case Clr(_, _, _, _, redo) => UpdateRoundTrip([], redo);
      case Checkpoint(_, dpt, att) =>
        var dirty, active :| ListsDirty(dirty, dpt) && ListsActive(active, att) && DptFits(dirty) && AttFits(active)
                             && w.payload == EncodeCheckpoint(dirty, active);
        CheckpointRoundTrip(dirty, active);
        TablesAgain(dirty, dpt, active, att);
      case _ =>
    }
  }

  /** The log records `ws` are what is written for `rs`. */
  ghost predicate AllWrite(ws: seq<WalRecord>, rs: seq<Record>) {
    |ws| == |rs| && forall i {:trigger ws[i]} {:trigger rs[i]} :: 0 <= i < |ws| ==> Writes(ws[i], rs[i])
  }

  // ---------------------------------------------------------------- a run of the byte log follows the machine

  /** The byte log holds what the machine's log holds: its records are written for the machine's, as many
      of them are in the file, and both count LSNs alike, in memory and in the file. */
  ghost predicate Coupled(v: LogView, s: E.State) {
    && AllWrite(v.records, s.All()) && v.kept == |s.log|
    && v.nextLsn == s.nextLsn && v.diskNext == s.diskNext && v.checkpoint == s.chkLsn && v.active == s.active
  }

  /** What is asked of the byte log. */
  datatype LogCall =
    | NoCall
    | LogBegin(txn: nat)
    | LogUpdate(txn: nat, page: PageKey, off: nat, undo: Bytes, redo: Bytes)
    | LogClr(txn: nat, page: PageKey, off: nat, redo: Bytes)
    | LogCommit(txn: nat)
    | LogAbort(txn: nat)
    | LogCheckpoint(dirty: seq<DirtyPageEntry>, active: seq<ActiveTxnEntry>)
    | LogTorn(dirty: seq<DirtyPageEntry>, active: seq<ActiveTxnEntry>)
    | LogFlush(target: nat)
    | LogCrash

  /** The byte log after a call, when its buffer has room; a full buffer is one `LogFlush` more. */
  function Called(v: LogView, call: LogCall): LogView
    requires v.kept <= |v.records|
  {
    match call
    case NoCall => v
    case LogBegin(t) => v.Appended(v.NextRecord(t, TBegin, 0, false, 0, [])).(active := v.active[t := v.nextLsn])
    case LogUpdate(t, p, off, undo, redo) =>
      v.Appended(v.NextRecord(t, TUpdate, p.id, p.isIndex, off, EncodeUpdate(undo, redo))).Active(t)
    case LogClr(t, p, off, redo) =>
      v.Appended(v.NextRecord(t, TClr, p.id, p.isIndex, off, EncodeUpdate([], redo))).Active(t)
    case LogCommit(t) => v.Ended(v.NextRecord(t, TCommit, 0, false, 0, []))
    case LogAbort(t) => v.Ended(v.NextRecord(t, TAbort, 0, false, 0, []))
    case LogCheckpoint(dirty, active) =>
      v.Checkpointed(v.NextRecord(0, TCheckpoint, 0, false, 0, EncodeCheckpoint(dirty, active)))
    case LogTorn(dirty, active) =>
      v.Appended(v.NextRecord(0, TCheckpoint, 0, false, 0, EncodeCheckpoint(dirty, active))).FlushedTo(v.nextLsn)
       .Reopened()
    case LogFlush(target) => v.FlushedTo(target)
    case LogCrash => v.Reopened()
  }

  /** The call that an action of the machine makes, given lists of the two tables for a checkpoint. */
  ghost predicate Calls(s: E.State, act: E.Action, call: LogCall)
    requires E.Shape(s) && E.Possible(s, act)
  {
    match act
    case BeginTxn(t) => call == LogBegin(t)
    case UpdatePage(t, p, data) =>
      if s.Cur(p) == data then call == NoCall
      else
        E.DiffNonempty(s.Cur(p), data);
        var lo, hi := E.DiffStart(s.Cur(p), data, 0), E.DiffEnd(s.Cur(p), data, |data|);
        call == LogUpdate(t, p, lo, s.Cur(p)[lo..hi], data[lo..hi])
    case CommitTxn(t) => call == LogCommit(t)
    case AbortTxn(t) => call == LogAbort(t)
    case TakeCheckpoint => call.LogCheckpoint? && ListsTables(s, call.dirty, call.active)
    case TornCheckpoint => call.LogTorn? && ListsTables(s, call.dirty, call.active)
    case FlushLogTo(lsn) => call == LogFlush(lsn)
    case FlushPage(p) => call == ForceCall(s, p)
    case EvictPage(p) => call == ForceCall(s, p)
    case FetchPage(_) => call == NoCall
    case Crash => call == LogCrash
    case Analyse => call == NoCall
    case RedoNext => call == NoCall
    case UndoNext =>
      if s.phase.next > 0 && s.All()[s.phase.next - 1].Update? && s.All()[s.phase.next - 1].txn in s.phase.losers
      then var r := s.All()[s.phase.next - 1]; call == LogClr(r.txn, r.page, r.off, r.undo)
      else call == NoCall
    case EndLoser(t) => call == LogAbort(t)
    case FinishRecovery => call == LogFlush(s.nextLsn)
    case Resume => call == NoCall
  }

  ghost predicate ListsTables(s: E.State, dirty: seq<DirtyPageEntry>, active: seq<ActiveTxnEntry>) {
    ListsDirty(dirty, E.CheckpointRecord(s).dpt) && ListsActive(active, s.active) && DptFits(dirty) && AttFits(active)
  }

  function ForceCall(s: E.State, p: PageKey): LogCall
    requires p in s.frames
  {
    if p in s.dirty && s.frames[p].pageLsn > 0 then LogFlush(s.frames[p].pageLsn) else NoCall
  }

  // ---------------------------------------------------------------- single calls

  lemma CoupledAppend(v: LogView, s: E.State, w: WalRecord, r: Record)
    requires Coupled(v, s) && Writes(w, r)
    ensures Coupled(v.Appended(w), E.Append(s, r))
  {
    hide Writes;
    assert E.Append(s, r).All() == s.All() + [r];
  }

  lemma CoupledActive(v: LogView, s: E.State, active: map<nat, nat>)
    requires Coupled(v, s)
    ensures Coupled(v.(active := active), s.(active := active))
  {
    assert s.(active := active).All() == s.All();
  }

  /** Both flushes move the same records. */
  lemma {:induction false} ReachAgrees(ws: seq<WalRecord>, rs: seq<Record>, n: nat, target: nat)
    requires AllWrite(ws, rs) && n <= |ws|
    ensures Reach(ws, n, target) == n + E.FlushCount(rs[n..], target)
    decreases |ws| - n
  {
    if n < |ws| {
      assert Writes(ws[n], rs[n]);
      assert rs[n..][1..] == rs[n + 1..];
      ReachAgrees(ws, rs, n + 1, target);
    }
  }

  lemma CoupledFlush(v: LogView, s: E.State, target: nat)
    requires Coupled(v, s)
    ensures Coupled(v.FlushedTo(target), E.FlushLog(s, target))
  {
    hide Writes, Reach, E.FlushCount;
    assert s.All()[|s.log|..] == s.buf;
    ReachAgrees(v.records, s.All(), v.kept, target);
    var k := E.FlushCount(s.buf, target);
    assert k <= |s.buf| by { CountFits(s.buf, target); }
    assert (s.log + s.buf[..k]) + s.buf[k..] == s.All();
  }

  lemma CountFits(buf: seq<Record>, target: nat)
    ensures E.FlushCount(buf, target) <= |buf|
  {
  }

  lemma CoupledReopen(v: LogView, s: E.State)
    requires Coupled(v, s) && v.kept <= |v.records|
    ensures Coupled(v.Reopened(), E.CrashOf(s))
  {
    hide Writes;
    assert E.CrashOf(s).All() == s.log == s.All()[..|s.log|];
  }

  lemma CoupledEnd(v: LogView, s: E.State, w: WalRecord, r: Record)
    requires Coupled(v, s) && Writes(w, r) && r.IsEnd()
    ensures w.header.txn == r.txn && w.header.lsn == r.lsn
    ensures Coupled(v.Ended(w), E.FlushLog(E.Append(s, r).(active := s.active - {r.txn}), r.lsn))
  {
    hide Coupled, E.FlushLog;
    assert w.header.txn == r.txn && w.header.lsn == r.lsn;
    CoupledAppend(v, s, w, r);
    assert v.active == s.active by { SameActive(v, s); }
    CoupledActive(v.Appended(w), E.Append(s, r), s.active - {r.txn});
    CoupledFlush(v.Appended(w).(active := s.active - {r.txn}), E.Append(s, r).(active := s.active - {r.txn}), r.lsn);
  }

  lemma SameActive(v: LogView, s: E.State)
    requires Coupled(v, s)
    ensures v.active == s.active && v.nextLsn == s.nextLsn && v.kept <= |v.records|
  {
  }

  /** The record of a checkpoint, and what logging it up to the flush does to both logs. */
  lemma CheckpointFlushed(v: LogView, s: E.State, dirty: seq<DirtyPageEntry>, active: seq<ActiveTxnEntry>)
    requires Coupled(v, s) && ListsTables(s, dirty, active)
    ensures var w := v.NextRecord(0, TCheckpoint, 0, false, 0, EncodeCheckpoint(dirty, active));
            && w.header.lsn == s.nextLsn
            && Coupled(v.Appended(w).FlushedTo(s.nextLsn), E.FlushLog(E.Append(s, E.CheckpointRecord(s)), s.nextLsn))
  {
    hide Coupled, E.FlushLog, EncodeCheckpoint, ListsDirty, ListsActive, DptFits, AttFits;
    SameActive(v, s);
    var w := v.NextRecord(0, TCheckpoint, 0, false, 0, EncodeCheckpoint(dirty, active));
    assert Writes(w, E.CheckpointRecord(s));
    CoupledAppend(v, s, w, E.CheckpointRecord(s));
    CoupledFlush(v.Appended(w), E.Append(s, E.CheckpointRecord(s)), s.nextLsn);
  }

  /** The checkpoint is named in both headers. */
  lemma CoupledNamed(v: LogView, s: E.State, chk: nat)
    requires Coupled(v, s)
    ensures Coupled(v.(checkpoint := chk, diskNext := v.nextLsn), s.(chkLsn := chk, diskNext := s.nextLsn))
  {
    hide Writes;
    assert s.(chkLsn := chk, diskNext := s.nextLsn).All() == s.All();
  }

  /** States with the same log fields are coupled to the same byte logs. */
  lemma CoupledSame(v: LogView, s: E.State, s': E.State)
    requires Coupled(v, s) && s'.log == s.log && s'.buf == s.buf && s'.nextLsn == s.nextLsn && s'.diskNext == s.diskNext
    requires s'.chkLsn == s.chkLsn && s'.active == s.active
    ensures Coupled(v, s')
  {
    hide Writes;
    assert s'.All() == s.All();
  }

  lemma UpdateLogged(v: LogView, s: E.State, t: nat, p: PageKey, off: nat, undo: Bytes, redo: Bytes)
    returns (s': E.State)
    requires Coupled(v, s) && v.kept <= |v.records| && |undo| < U16 && |redo| < U16
    ensures s' == E.Append(s, Update(s.nextLsn, t, p, off, undo, redo))
                   .(active := if t != 0 then s.active[t := s.nextLsn] else s.active)
    ensures Coupled(Called(v, LogUpdate(t, p, off, undo, redo)), s')
  {
    hide Coupled, EncodeUpdate;
    SameActive(v, s);
    var r := Update(s.nextLsn, t, p, off, undo, redo);
    var w := v.NextRecord(t, TUpdate, p.id, p.isIndex, off, EncodeUpdate(undo, redo));
    assert Writes(w, r);
    CoupledAppend(v, s, w, r);
    var active := if t != 0 then s.active[t := s.nextLsn] else s.active;
    CoupledActive(v.Appended(w), E.Append(s, r), active);
    s' := E.Append(s, r).(active := active);
  }

  lemma UpdateCoupled(v: LogView, s: E.State, act: E.Action, call: LogCall)
    requires Coupled(v, s) && E.Shape(s) && E.Possible(s, act) && Calls(s, act, call) && act.UpdatePage?
    ensures v.kept <= |v.records| && Coupled(Called(v, call), E.Next(s, act))
  {
    hide Coupled, E.Shape, EncodeUpdate, E.DiffStart, E.DiffEnd;
    SameActive(v, s);
    PageSizes(s, act.p);
    if s.Cur(act.p) == act.data {
      CoupledSame(v, s, E.Next(s, act));
    } else {
      var was := s.Cur(act.p);
      E.DiffNonempty(was, act.data);
      var lo, hi := E.DiffStart(was, act.data, 0), E.DiffEnd(was, act.data, |act.data|);
      var s' := UpdateLogged(v, s, act.t, act.p, lo, was[lo..hi], act.data[lo..hi]);
      CoupledSame(Called(v, call), s', E.Next(s, act));
    }
  }

  lemma PageSizes(s: E.State, p: PageKey)
    requires E.Shape(s) && p in s.base
    ensures p in s.disk && |s.Cur(p)| == PageSize(p) < U16
  {
    Widths();
  }

  lemma UndoCoupled(v: LogView, s: E.State, call: LogCall)
    requires Coupled(v, s) && E.Shape(s) && E.Possible(s, E.UndoNext) && Calls(s, E.UndoNext, call)
    ensures v.kept <= |v.records| && Coupled(Called(v, call), E.Next(s, E.UndoNext))
  {
    hide Coupled, E.Shape, EncodeUpdate, E.Splice;
    SameActive(v, s);
    C.ShapeBounds(s);
    if call.NoCall? {
      CoupledSame(v, s, E.Next(s, E.UndoNext));
    } else {
      var r := s.All()[s.phase.next - 1];
      assert InBounds(r) && r.page in s.disk;
      RedoFits(s, s.phase.next - 1);
      var c := Clr(s.nextLsn, r.txn, r.page, r.off, r.undo);
      var w := v.NextRecord(r.txn, TClr, r.page.id, r.page.isIndex, r.off, EncodeUpdate([], r.undo));
      assert Writes(w, c);
      CoupledAppend(v, s, w, c);
      var active := if r.txn != 0 then s.active[r.txn := s.nextLsn] else s.active;
      CoupledActive(v.Appended(w), E.Append(s, c), active);
      CoupledSame(v.Appended(w).(active := active), E.Append(s, c).(active := active), E.Next(s, E.UndoNext));
    }
  }

  lemma RedoFits(s: E.State, i: nat)
    requires E.Shape(s) && i < |s.All()| && s.All()[i].Update?
    ensures |s.All()[i].undo| < U16
  {
    Widths();
    assert InBounds(s.All()[i]);
  }

  lemma EndCoupled(v: LogView, s: E.State, act: E.Action, call: LogCall)
    requires Coupled(v, s) && E.Shape(s) && E.Possible(s, act) && Calls(s, act, call)
    requires act.CommitTxn? || act.AbortTxn? || act.EndLoser?
    ensures v.kept <= |v.records| && Coupled(Called(v, call), E.Next(s, act))
  {
    hide Coupled, E.FlushLog, E.Shape;
    SameActive(v, s);
    match act {
      case CommitTxn(t) => CoupledEnd(v, s, v.NextRecord(t, TCommit, 0, false, 0, []), Commit(s.nextLsn, t));
      case AbortTxn(t) => CoupledEnd(v, s, v.NextRecord(t, TAbort, 0, false, 0, []), Abort(s.nextLsn, t));
      case EndLoser(t) =>
        CoupledEnd(v, s, v.NextRecord(t, TAbort, 0, false, 0, []), Abort(s.nextLsn, t));
        var s1 := E.FlushLog(E.Append(s, Abort(s.nextLsn, t)).(active := s.active - {t}), s.nextLsn);
        CoupledSame(Called(v, call), s1, E.Next(s, act));
    }
  }

  lemma CheckpointCoupled(v: LogView, s: E.State, act: E.Action, call: LogCall)
    requires Coupled(v, s) && E.Shape(s) && E.Possible(s, act) && Calls(s, act, call)
    requires act.TakeCheckpoint? || act.TornCheckpoint?
    ensures v.kept <= |v.records| && Coupled(Called(v, call), E.Next(s, act))
  {
    hide Coupled, E.FlushLog, E.Shape, ListsTables, EncodeCheckpoint, E.CheckpointRecord;
    SameActive(v, s);
    CheckpointFlushed(v, s, call.dirty, call.active);
    var w := v.NextRecord(0, TCheckpoint, 0, false, 0, EncodeCheckpoint(call.dirty, call.active));
    var v1, s1 := v.Appended(w).FlushedTo(s.nextLsn), E.FlushLog(E.Append(s, E.CheckpointRecord(s)), s.nextLsn);
    SameActive(v1, s1);
    if act.TakeCheckpoint? { CoupledNamed(v1, s1, s.nextLsn); } else { CoupledReopen(v1, s1); }
  }

  lemma PoolCoupled(v: LogView, s: E.State, act: E.Action, call: LogCall)
    requires Coupled(v, s) && E.Shape(s) && E.Possible(s, act) && Calls(s, act, call) && C.OfPool(act)
    ensures v.kept <= |v.records| && Coupled(Called(v, call), E.Next(s, act))
  {
    hide Coupled, E.FlushLog, E.Shape, LogView.FlushedTo;
    SameActive(v, s);
    if call.LogFlush? {
      CoupledFlush(v, s, call.target);
      CoupledSame(Called(v, call), E.FlushLog(s, call.target), E.Next(s, act));
    } else {
      CoupledSame(v, s, E.Next(s, act));
    }
  }

  lemma FinishCoupled(v: LogView, s: E.State)
    requires Coupled(v, s) && LsnOrdered(s.All(), s.nextLsn)
    ensures Coupled(v.FlushedTo(s.nextLsn), E.FlushWholeLog(s).(phase := E.Recovered))
  {
    hide Coupled, LogView.FlushedTo;
    CoupledFlush(v, s, s.nextLsn);
    T.AllBelow(s);
    var k := E.FlushCount(s.buf, s.nextLsn);
    assert k == |s.buf| && s.buf[..k] == s.buf && s.buf[k..] == [];
    assert E.FlushLog(s, s.nextLsn) == E.FlushWholeLog(s);
    CoupledSame(v.FlushedTo(s.nextLsn), E.FlushWholeLog(s), E.FlushWholeLog(s).(phase := E.Recovered));
  }

  lemma RecoveryCoupled(v: LogView, s: E.State, act: E.Action, call: LogCall)
    requires Coupled(v, s) && E.Shape(s) && T.Tables(s) && E.Possible(s, act) && Calls(s, act, call)
    requires act.Analyse? || act.RedoNext? || act.FinishRecovery? || act.Resume?
    ensures v.kept <= |v.records| && Coupled(Called(v, call), E.Next(s, act))
  {
    hide Coupled, E.Shape, E.RedoStep, E.AnalysisOf, E.FlushWholeLog;
    SameActive(v, s);
    if act.FinishRecovery? {
      FinishCoupled(v, s);
    } else {
      if act.RedoNext? { RedoKeepsFields(s); }
      CoupledSame(v, s, E.Next(s, act));
    }
  }

  lemma RedoKeepsFields(s: E.State)
    requires E.Shape(s) && s.phase.Redo? && s.phase.next <= |s.log|
    ensures var s' := E.RedoStep(s);
            && s'.log == s.log && s'.buf == s.buf && s'.nextLsn == s.nextLsn && s'.diskNext == s.diskNext
            && s'.chkLsn == s.chkLsn && s'.active == s.active
  {
    hide E.Shape, E.Splice;
    C.ShapeBounds(s);
    if s.phase.next < |s.log| { assert s.All()[s.phase.next] == s.log[s.phase.next]; }
  }

  /** One step of the machine and the call it makes keep the two logs together. */
  lemma CallCoupled(v: LogView, s: E.State, act: E.Action, call: LogCall)
    requires Coupled(v, s) && E.Shape(s) && T.Tables(s) && E.Possible(s, act) && Calls(s, act, call)
    ensures v.kept <= |v.records| && Coupled(Called(v, call), E.Next(s, act))
  {
    hide E.Shape, T.Tables, E.RedoStep, E.UndoStep, E.EndStep, E.CheckpointStep, E.FlushLog, E.WriteBack, E.LogDiff,
         EncodeUpdate, EncodeCheckpoint, Coupled, ListsTables, E.AnalysisOf;
    SameActive(v, s);
    match act {
      case BeginTxn(t) =>
        var w := v.NextRecord(t, TBegin, 0, false, 0, []);
        assert Writes(w, Begin(s.nextLsn, t));
        CoupledAppend(v, s, w, Begin(s.nextLsn, t));
        CoupledActive(v.Appended(w), E.Append(s, Begin(s.nextLsn, t)), s.active[t := s.nextLsn]);
      case UpdatePage(_, _, _) => UpdateCoupled(v, s, act, call);
      case CommitTxn(_) => EndCoupled(v, s, act, call);
      case AbortTxn(_) => EndCoupled(v, s, act, call);
      case TakeCheckpoint => CheckpointCoupled(v, s, act, call);
      case TornCheckpoint => CheckpointCoupled(v, s, act, call);
      case Crash => CoupledReopen(v, s);
      case UndoNext => UndoCoupled(v, s, call);
      case EndLoser(_) => EndCoupled(v, s, act, call);
      case Analyse => RecoveryCoupled(v, s, act, call);
      case RedoNext => RecoveryCoupled(v, s, act, call);
      case FinishRecovery => RecoveryCoupled(v, s, act, call);
      case Resume => RecoveryCoupled(v, s, act, call);
      case _ => PoolCoupled(v, s, act, call);
    }
  }

  /** The byte log `views` takes the calls `calls`, one after the other. */
  ghost predicate TakesCalls(views: seq<LogView>, calls: seq<LogCall>) {
    && |views| == |calls| + 1
    && forall i :: 0 <= i < |calls| ==>
      views[i].kept <= |views[i].records| && views[i + 1] == Called(views[i], calls[i])
  }

  ghost predicate RunCalls(run: seq<E.State>, acts: seq<E.Action>, calls: seq<LogCall>)
    requires C.Steps(run, acts)
  {
    |calls| == |acts| && forall i :: 0 <= i < |acts| ==> Calls(run[i], acts[i], calls[i])
  }

  /** A whole run.  Let the machine run from a fresh database, through crashes and recoveries, and let a new
      byte log take the calls that its steps make.  Then after every step the byte log holds what the
      machine's log holds: the same records, as many of them durable, the same LSN counters in memory and
      in the file, the same checkpoint and the same active transactions. */
  lemma {:induction false} RunIsLogged(run: seq<E.State>, acts: seq<E.Action>, calls: seq<LogCall>,
                                       views: seq<LogView>, n: nat)
    requires C.Steps(run, acts) && C.Initial(run[0]) && RunCalls(run, acts, calls) && TakesCalls(views, calls)
    requires views[0] == LogView([], 0, 1, 1, 0, map[]) && n < |run|
    ensures Coupled(views[n], run[n])
  {
    hide Coupled, E.Shape, E.Possible, Calls, Called, E.Next, C.Initial, T.Tables;
    if n == 0 {
      NewIsCoupled(run[0]);
    } else {
      RunIsLogged(run, acts, calls, views, n - 1);
      T.RunTables(run, acts, n - 1);
      CallCoupled(views[n - 1], run[n - 1], acts[n - 1], calls[n - 1]);
    }
  }

  lemma NewIsCoupled(s: E.State)
    requires C.Initial(s)
    ensures Coupled(LogView([], 0, 1, 1, 0, map[]), s)
  {
    assert s.All() == [];
  }

  /** A full buffer: making room for a record is one flush of the whole log. */
  lemma RoomIsFlush(v: LogView, s: E.State, frames: nat)
    requires Coupled(v, s) && LsnOrdered(s.All(), s.nextLsn)
    ensures v.kept <= |v.records|
    ensures v.MadeRoom(frames) == if |s.buf| >= frames then Called(v, LogFlush(s.nextLsn)) else v
  {
    hide Writes;
    T.AllBelow(s);
    forall i {:trigger v.records[i]} | v.kept <= i < |v.records| ensures v.records[i].header.lsn <= s.nextLsn {
      WritesLsn(v.records[i], s.All()[i]);
    }
    ReachIs(v.records, v.kept, s.nextLsn, |v.records|);
  }

  lemma WritesLsn(w: WalRecord, r: Record)
    requires Writes(w, r)
    ensures w.header.lsn == r.lsn
  {
  }

  // ---------------------------------------------------------------- the log file

  /** What recovery reads from a log file: if the file holds log records written for `rs`, and they are
      read in order, then exactly `rs` is seen. */
  lemma FileIsSeen(file: Bytes, ws: seq<WalRecord>, rs: seq<Record>, i: nat)
    requires LogFile(file, ws) && AllWrite(ws, rs) && i < |ws|
    ensures var read := ReadAt(file, StartOf(ws, i));
            read.Some? && Seen(read.value.0) == Some(rs[i]) && read.value.1 == StartOf(ws, i + 1)
  {
    hide ReadAt, LogFile, Seen;
    ReadsRecord(file, ws, i);
    assert Writes(ws[i], rs[i]);
    SeenIsWritten(ws[i], rs[i]);
  }
}
