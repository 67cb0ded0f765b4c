/** The pager, the buffer pools and the write-ahead log as one state machine.

    A state holds the page files, the frames of both pools, the durable and the buffered part of
    the log, and how far a recovery has come.  `Next` gives the state after each action; a run may
    interleave the actions freely, and a crash may come after any of them.
  */
module Engine {
  import opened Wrappers
  import opened Records

  datatype Frame = Frame(data: seq<byte>, pageLsn: nat, recLsn: nat)

  datatype Analysis = Analysis(dpt: map<PageKey, nat>, att: map<nat, nat>)

  datatype Phase =
    | Up
    | Down
    | Redo(next: nat, an: Analysis)
    | Undo(logged: nat, next: nat, losers: set<nat>)
    | Ending(todo: set<nat>)
    | Recovered

  datatype State = State(
    base: map<PageKey, seq<byte>>,   // the pages as allocated
    disk: map<PageKey, seq<byte>>,   // the page files
    frames: map<PageKey, Frame>,     // the buffer pools
    dirty: set<PageKey>,
    log: seq<Record>,                // the log file
    buf: seq<Record>,                // the log buffer
    nextLsn: nat,
    diskNext: nat,                   // next_lsn as last written to the log file's header
    chkLsn: nat,                     // last_checkpoint_lsn of that header
    active: map<nat, nat>,           // active transactions and their last LSN
    phase: Phase)
  {
    function All(): seq<Record> {
      log + buf
    }

    /** The page as a reader sees it. */
    function Cur(p: PageKey): seq<byte>
      requires p in disk
    {
      if p in frames then frames[p].data else disk[p]
    }
  }

  datatype Action =
    | BeginTxn(t: nat)
    | UpdatePage(t: nat, p: PageKey, data: seq<byte>)
    | CommitTxn(t: nat)
    | AbortTxn(t: nat)
    | TakeCheckpoint
    | TornCheckpoint
    | FlushLogTo(lsn: nat)
    | FlushPage(p: PageKey)
    | EvictPage(p: PageKey)
    | FetchPage(p: PageKey)
    | Crash
    | Analyse
    | RedoNext
    | UndoNext
    | EndLoser(t: nat)
    | FinishRecovery
    | Resume

  // ---------------------------------------------------------------- pieces of a step

  function Splice(page: seq<byte>, off: nat, data: seq<byte>): (r: seq<byte>)
    requires off + |data| <= |page|
    ensures |r| == |page|
    ensures forall a :: 0 <= a < |page| ==> r[a] == if off <= a < off + |data| then data[a - off] else page[a]
  {
    page[..off] + data + page[off + |data|..]
  }

  /** First position at which the pages differ, from `i` on. */
  function DiffStart(old_: seq<byte>, new_: seq<byte>, i: nat): (r: nat)
    requires |old_| == |new_| && i <= |old_|
    ensures i <= r <= |old_|
    ensures forall a :: i <= a < r ==> old_[a] == new_[a]
    ensures r < |old_| ==> old_[r] != new_[r]
    decreases |old_| - i
  {
    if i == |old_| || old_[i] != new_[i] then i else DiffStart(old_, new_, i + 1)
  }

  /** One past the last position below `i` at which the pages differ. */
  function DiffEnd(old_: seq<byte>, new_: seq<byte>, i: nat): (r: nat)
    requires |old_| == |new_| && i <= |old_|
    ensures r <= i
    ensures forall a :: r <= a < i ==> old_[a] == new_[a]
    ensures r > 0 ==> old_[r - 1] != new_[r - 1]
  {
    if i == 0 || old_[i - 1] != new_[i - 1] then i else DiffEnd(old_, new_, i - 1)
  }

  function Append(s: State, r: Record): State {
    s.(buf := s.buf + [r], nextLsn := s.nextLsn + 1)
  }

  /** How many buffered records a flush up to `target` writes. */
  function FlushCount(buf: seq<Record>, target: nat): (k: nat)
    ensures k <= |buf|
    ensures forall i :: 0 <= i < k ==> buf[i].lsn <= target
    ensures k < |buf| ==> buf[k].lsn > target
  {
    if buf == [] || buf[0].lsn > target then 0
    else
      var k := FlushCount(buf[1..], target);
      assert forall i :: 0 <= i < k + 1 ==> buf[i].lsn <= target by {
        assert forall i :: 1 <= i < k + 1 ==> buf[i] == buf[1..][i - 1];
      }
      k + 1
  }

  function FlushLog(s: State, target: nat): State {
    var k := FlushCount(s.buf, target);
    if k == 0 then s else s.(log := s.log + s.buf[..k], buf := s.buf[k..], diskNext := s.nextLsn)
  }

  function FlushWholeLog(s: State): State {
    if s.buf == [] then s else s.(log := s.log + s.buf, buf := [], diskNext := s.nextLsn)
  }

  function Fetch(s: State, p: PageKey): State
    requires p in s.disk
  {
    if p in s.frames then s else s.(frames := s.frames[p := Frame(s.disk[p], 0, 0)])
  }

  /** A guard's write-back: new content, marked dirty. */
  function WriteFrame(s: State, p: PageKey, data: seq<byte>): State
    requires p in s.frames
  {
    s.(frames := s.frames[p := s.frames[p].(data := data)], dirty := s.dirty + {p})
  }

  function UpdateLsn(s: State, p: PageKey, lsn: nat): State
    requires p in s.frames
  {
    var f := s.frames[p];
    s.(frames := s.frames[p := Frame(f.data, lsn, if f.recLsn == 0 then lsn else f.recLsn)],
       dirty := s.dirty + {p})
  }

  /** The log is forced up to the page's LSN before the page goes to its file. */
  function ForceFor(s: State, p: PageKey): State
    requires p in s.frames
  {
    if s.frames[p].pageLsn > 0 then FlushLog(s, s.frames[p].pageLsn) else s
  }

  function WriteBack(s: State, p: PageKey): State
    requires p in s.frames
  {
    if p in s.dirty
    then ForceFor(s, p).(disk := s.disk[p := s.frames[p].data],
                         frames := s.frames[p := s.frames[p].(recLsn := 0)],
                         dirty := s.dirty - {p})
    else s
  }

  function Drop(s: State, p: PageKey): State {
    s.(frames := s.frames - {p}, dirty := s.dirty - {p})
  }

  function LogDiff(s: State, t: nat, p: PageKey, was: seq<byte>, now: seq<byte>): State
    requires p in s.frames && |was| == |now| && was != now
  {
    var lo, hi := DiffStart(was, now, 0), DiffEnd(was, now, |was|);
    DiffNonempty(was, now);
    var s1 := Append(s, Update(s.nextLsn, t, p, lo, was[lo..hi], now[lo..hi]));
    UpdateLsn(if t != 0 then s1.(active := s1.active[t := s.nextLsn]) else s1, p, s.nextLsn)
  }

  lemma DiffNonempty(was: seq<byte>, now: seq<byte>)
    requires |was| == |now| && was != now
    ensures DiffStart(was, now, 0) < DiffEnd(was, now, |was|) <= |was|
    ensures forall a :: 0 <= a < |was| && !(DiffStart(was, now, 0) <= a < DiffEnd(was, now, |was|)) ==> was[a] == now[a]
  {
    var a :| 0 <= a < |was| && was[a] != now[a];
  }

  /** The checkpoint record: the dirty pages with their recLSNs and the active transactions. */
  function CheckpointRecord(s: State): Record {
    Checkpoint(s.nextLsn,
               map p | p in s.dirty :: if p in s.frames then s.frames[p].recLsn else 0,
               s.active)
  }

  function CrashOf(s: State): State {
    s.(frames := map[], dirty := {}, buf := [], nextLsn := s.diskNext, active := map[], phase := Down)
  }

  // ---------------------------------------------------------------- analysis

  function FindLsn(log: seq<Record>, n: nat, lsn: nat): Option<Record>
    requires n <= |log|
  {
    if n == 0 then None
    else
      var r := FindLsn(log, n - 1, lsn);
      if r.Some? then r else if log[n - 1].lsn == lsn then Some(log[n - 1]) else None
  }

  /** The checkpoint a recovery starts from, if there is one. */
  function StartCheckpoint(log: seq<Record>, chk: nat): Option<Record> {
    if chk == 0 then None
    else
      var r := FindLsn(log, |log|, chk);
      if r.Some? && r.value.Checkpoint? then r else None
  }

  function AnalysisStep(an: Analysis, r: Record): Analysis {
    match r
    case Begin(lsn, t) => an.(att := an.att[t := lsn])
    case Update(lsn, t, p, _, _, _) =>
      Analysis(if p in an.dpt then an.dpt else an.dpt[p := lsn], if t != 0 then an.att[t := lsn] else an.att)
    case Clr(lsn, t, p, _, _) =>
      Analysis(if p in an.dpt then an.dpt else an.dpt[p := lsn], if t != 0 then an.att[t := lsn] else an.att)
    case Commit(_, t) => an.(att := an.att - {t})
    case Abort(_, t) => an.(att := an.att - {t})
    case Checkpoint(_, _, _) => an
  }

  /** The analysis of the records among the first `n` whose LSN is at least `start`. */
  function Scan(log: seq<Record>, n: nat, start: nat, an: Analysis): Analysis
    requires n <= |log|
  {
    if n == 0 then an
    else
      var prev := Scan(log, n - 1, start, an);
      if log[n - 1].lsn >= start then AnalysisStep(prev, log[n - 1]) else prev
  }

  function ScanStart(log: seq<Record>, chk: nat): (nat, Analysis) {
    match StartCheckpoint(log, chk)
    case Some(c) => (chk + 1, if c.Checkpoint? then Analysis(c.dpt, c.att) else Analysis(map[], map[]))
    case None => (0, Analysis(map[], map[]))
  }

  function AnalysisOf(log: seq<Record>, chk: nat): Analysis {
    var (start, an) := ScanStart(log, chk);
    Scan(log, |log|, start, an)
  }

  predicate Redoable(dpt: map<PageKey, nat>, r: Record) {
    r.IsWrite() && r.page in dpt && r.lsn >= dpt[r.page]
  }

  // ---------------------------------------------------------------- recovery, one record at a time

  function RedoOne(s: State, r: Record): State
    requires r.IsWrite() && r.page in s.disk && (r.page in s.frames ==> |s.frames[r.page].data| == |s.disk[r.page]|)
    requires r.off + |r.redo| <= |s.disk[r.page]|
  {
    var s1 := Fetch(s, r.page);
    UpdateLsn(WriteFrame(s1, r.page, Splice(s1.frames[r.page].data, r.off, r.redo)), r.page, r.lsn)
  }

  function UndoOne(s: State, r: Record): State
    requires r.Update? && r.page in s.disk && (r.page in s.frames ==> |s.frames[r.page].data| == |s.disk[r.page]|)
    requires r.off + |r.undo| <= |s.disk[r.page]|
  {
    var s1 := Fetch(s, r.page);
    var s2 := WriteFrame(s1, r.page, Splice(s1.frames[r.page].data, r.off, r.undo));
    var s3 := Append(s2, Clr(s2.nextLsn, r.txn, r.page, r.off, r.undo));
    if r.txn != 0 then s3.(active := s3.active[r.txn := s2.nextLsn]) else s3
  }

  // ---------------------------------------------------------------- the machine

  /** Sizes and key sets: what every function above needs in order to be applied. */
  ghost predicate Shape(s: State) {
    && s.disk.Keys == s.base.Keys
    && s.frames.Keys <= s.base.Keys
    && s.dirty <= s.frames.Keys
    && (forall p :: p in s.base ==> |s.base[p]| == PageSize(p))
    && (forall p :: p in s.disk ==> |s.disk[p]| == PageSize(p))
    && (forall p :: p in s.frames ==> |s.frames[p].data| == PageSize(p))
    && WellSized(s.All())
    && (forall i :: 0 <= i < |s.All()| && s.All()[i].IsWrite() ==> s.All()[i].page in s.base)
  }

  /** No open transaction other than `t` was the last to write a byte that changes. */
  ghost predicate MayOverwrite(s: State, t: nat, p: PageKey, was: seq<byte>, now: seq<byte>)
    requires |was| == |now|
  {
    forall a, i :: DiffStart(was, now, 0) <= a < DiffEnd(was, now, |was|) && 0 <= i < |s.All()|
      && s.All()[i].Covers(p, a) && s.All()[i].txn != 0 && s.All()[i].txn != t
      ==> Ended(s.All(), s.All()[i].txn)
  }

  /** A page that recovery changed without giving its frame a recLSN, and that has not been written
      to its file since. */
  predicate BlindDirty(s: State, p: PageKey) {
    p in s.dirty && p in s.frames && s.frames[p].recLsn == 0 && p in s.disk && s.frames[p].data != s.disk[p]
  }

  /** The program itself can take the action: its own conditions, whatever its callers do. */
  ghost predicate Possible(s: State, act: Action)
    requires Shape(s)
  {
    match act
    case BeginTxn(_) => s.phase.Up?
    case UpdatePage(_, p, data) => s.phase.Up? && p in s.base && |data| == PageSize(p)
    case CommitTxn(_) => s.phase.Up?
    case AbortTxn(_) => s.phase.Up?
    case TakeCheckpoint => s.phase.Up?
    case TornCheckpoint => s.phase.Up?
    case FlushLogTo(_) => true
    case FlushPage(p) => p in s.frames
    case EvictPage(p) => p in s.frames
    case FetchPage(p) => p in s.base
    case Crash => true
    case Analyse => s.phase.Down?
    case RedoNext => s.phase.Redo? && s.phase.next <= |s.log|
    case UndoNext => s.phase.Undo? && s.phase.next <= |s.All()|
    case EndLoser(t) => s.phase.Ending? && t in s.phase.todo
    case FinishRecovery => s.phase.Ending? && s.phase.todo == {}
    case Resume => s.phase.Recovered?
  }

  /** First duty of the callers: a transaction id is not used again after its Commit or Abort. */
  ghost predicate RespectsIds(s: State, act: Action)
    requires Shape(s)
  {
    act.BeginTxn? || act.UpdatePage? || act.CommitTxn? || act.AbortTxn? ==> act.t == 0 || !Ended(s.All(), act.t)
  }

  /** Second duty of the callers: open transactions do not overwrite each other's bytes. */
  ghost predicate RespectsWrites(s: State, act: Action)
    requires Shape(s) && Possible(s, act)
  {
    act.UpdatePage? ==> MayOverwrite(s, act.t, act.p, s.Cur(act.p), act.data)
  }

  /** Third duty of the callers: after a recovery, pages that it left dirty without a recLSN go to
      their files before normal operation resumes. */
  predicate RespectsUndo(s: State, act: Action) {
    act.Resume? ==> forall p :: p in s.dirty ==> !BlindDirty(s, p)
  }

  /** When an action is taken: the program's own conditions, and the three duties of its callers. */
  ghost predicate Enabled(s: State, act: Action)
    requires Shape(s)
  {
    Possible(s, act) && RespectsIds(s, act) && RespectsWrites(s, act) && RespectsUndo(s, act)
  }

  ghost function Next(s: State, act: Action): State
    requires Shape(s) && Possible(s, act)
  {
    match act
    case BeginTxn(t) => Append(s, Begin(s.nextLsn, t)).(active := s.active[t := s.nextLsn])
    case UpdatePage(t, p, data) =>
      var s1 := Fetch(s, p);
      var s2 := WriteFrame(s1, p, data);
      if s.Cur(p) == data then s2 else LogDiff(s2, t, p, s.Cur(p), data)
    case CommitTxn(t) => FlushLog(Append(s, Commit(s.nextLsn, t)).(active := s.active - {t}), s.nextLsn)
    case AbortTxn(t) => FlushLog(Append(s, Abort(s.nextLsn, t)).(active := s.active - {t}), s.nextLsn)
    case TakeCheckpoint => CheckpointStep(s)
    case TornCheckpoint => CrashOf(FlushLog(Append(s, CheckpointRecord(s)), s.nextLsn))
    case FlushLogTo(lsn) => FlushLog(s, lsn)
    case FlushPage(p) => WriteBack(s, p)
    case EvictPage(p) => Drop(WriteBack(s, p), p)
    case FetchPage(p) => Fetch(s, p)
    case Crash => CrashOf(s)
    case Analyse => s.(phase := Redo(0, AnalysisOf(s.log, s.chkLsn)))
    case RedoNext => RedoStep(s)
    case UndoNext => UndoStep(s)
    case EndLoser(t) => EndStep(s, t)
    case FinishRecovery => FlushWholeLog(s).(phase := Recovered)
    case Resume => s.(phase := Up)
  }

  function CheckpointStep(s: State): State {
    var s1 := FlushLog(Append(s, CheckpointRecord(s)), s.nextLsn);
    s1.(chkLsn := s.nextLsn, diskNext := s1.nextLsn)
  }

  /** Redo looks at one record; after the last one, undo starts from the end of the log file. */
  ghost function RedoStep(s: State): State
    requires Shape(s) && s.phase.Redo? && s.phase.next <= |s.log|
  {
    var i := s.phase.next;
    if i == |s.log| then s.(phase := Undo(i, i, s.phase.an.att.Keys - {0}))
    else
      var r := s.log[i];
      assert s.All()[i] == r;
      assert InBounds(s.All()[i]);
      (if Redoable(s.phase.an.dpt, r) then RedoOne(s, r) else s).(phase := Redo(i + 1, s.phase.an))
  }

  /** Undo looks at one record, backwards; then the losers are ended one by one. */
  ghost function UndoStep(s: State): State
    requires Shape(s) && s.phase.Undo? && s.phase.next <= |s.All()|
  {
    var i := s.phase.next;
    if i == 0 then s.(phase := Ending(s.phase.losers))
    else
      var r := s.All()[i - 1];
      assert InBounds(s.All()[i - 1]);
      (if r.Update? && r.txn in s.phase.losers then UndoOne(s, r) else s)
        .(phase := Undo(s.phase.logged, i - 1, s.phase.losers))
  }

  function EndStep(s: State, t: nat): State
    requires s.phase.Ending?
  {
    FlushLog(Append(s, Abort(s.nextLsn, t)).(active := s.active - {t}), s.nextLsn)
      .(phase := Ending(s.phase.todo - {t}))
  }
}
