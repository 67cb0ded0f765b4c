/** The records of the write-ahead log, as recovery sees them, and what replaying them means.

    Everything is stated for one byte at a time: byte `a` of page `p`, whose value before the
    first record is `b`.  A record writes the byte when it is an Update or a Clr for that page
    whose byte range contains `a`.
  */
module Records {

  newtype byte = x: int | 0 <= x < 256

  /** One page of the index file (`isIndex`) or of the heap file. */
  datatype PageKey = PageKey(isIndex: bool, id: nat)

  const INDEX_PAGE_SIZE: nat := 4096
  const HEAP_PAGE_SIZE: nat := 8192

  function PageSize(p: PageKey): nat {
    if p.isIndex then INDEX_PAGE_SIZE else HEAP_PAGE_SIZE
  }

  datatype Record =
    | Begin(lsn: nat, txn: nat)
    | Update(lsn: nat, txn: nat, page: PageKey, off: nat, undo: seq<byte>, redo: seq<byte>)
    | Commit(lsn: nat, txn: nat)
    | Abort(lsn: nat, txn: nat)
    | Clr(lsn: nat, txn: nat, page: PageKey, off: nat, redo: seq<byte>)
    | Checkpoint(lsn: nat, dpt: map<PageKey, nat>, att: map<nat, nat>)
  {
    predicate IsWrite() {
      Update? || Clr?
    }

    predicate IsEnd() {
      Commit? || Abort?
    }

    /** The record writes byte `a` of page `p`. */
    predicate Covers(p: PageKey, a: nat) {
      IsWrite() && page == p && off <= a < off + |redo|
    }

    /** The transaction a record speaks for; checkpoints speak for none. */
    predicate Of(t: nat) {
      !Checkpoint? && txn == t
    }
  }

  /** The byte after replaying the first `n` records, in log order. */
  function Replay(log: seq<Record>, n: nat, p: PageKey, a: nat, b: byte): byte
    requires n <= |log|
  {
    if n == 0 then b
    else if log[n - 1].Covers(p, a) then log[n - 1].redo[a - log[n - 1].off]
    else Replay(log, n - 1, p, a, b)
  }

  /** A Commit or Abort of `t` is among the first `n` records. */
  predicate EndedBy(log: seq<Record>, n: nat, t: nat)
    requires n <= |log|
  {
    exists i {:trigger log[i].IsEnd()} :: 0 <= i < n && log[i].IsEnd() && log[i].txn == t
  }

  predicate Ended(log: seq<Record>, t: nat) {
    EndedBy(log, |log|, t)
  }

  /** A record whose effect must survive: written by transaction 0, or by a transaction that has
      a Commit or an Abort in the log. */
  predicate Kept(log: seq<Record>, r: Record) {
    r.IsWrite() && (r.txn == 0 || Ended(log, r.txn))
  }

  /** The byte after replaying only the kept ones of the first `n` records. */
  function ReplayKept(log: seq<Record>, n: nat, p: PageKey, a: nat, b: byte): byte
    requires n <= |log|
  {
    if n == 0 then b
    else if log[n - 1].Covers(p, a) && Kept(log, log[n - 1]) then log[n - 1].redo[a - log[n - 1].off]
    else ReplayKept(log, n - 1, p, a, b)
  }

  /** What recovery from `log` must leave in the byte. */
  function Effective(log: seq<Record>, p: PageKey, a: nat, b: byte): byte {
    ReplayKept(log, |log|, p, a, b)
  }

  /** An Update that recovery has to undo. */
  predicate LoserUpdate(log: seq<Record>, r: Record) {
    r.Update? && r.txn != 0 && !Ended(log, r.txn)
  }

  predicate LoserCovered(log: seq<Record>, p: PageKey, a: nat) {
    exists i {:trigger log[i].Covers(p, a)} :: 0 <= i < |log| && log[i].Covers(p, a) && LoserUpdate(log, log[i])
  }

  predicate UndoneFrom(log: seq<Record>, i: nat, n: nat, p: PageKey, a: nat)
    requires n <= |log|
  {
    exists j {:trigger log[j].Covers(p, a)} :: i <= j < n && log[j].Covers(p, a) && LoserUpdate(log, log[j])
  }

  /** The byte after a full replay of the first `n` records, followed by undoing, backwards, the
      losers' Updates at positions `i` and above. */
  function Undone(log: seq<Record>, n: nat, i: nat, p: PageKey, a: nat, b: byte): byte
    requires i <= n <= |log|
    requires forall j :: 0 <= j < |log| && log[j].Update? ==> |log[j].undo| == |log[j].redo|
    decreases n - i
  {
    if i == n then Replay(log, n, p, a, b)
    else if log[i].Covers(p, a) && LoserUpdate(log, log[i]) then log[i].undo[a - log[i].off]
    else Undone(log, n, i + 1, p, a, b)
  }

  // ---------------------------------------------------------------- what a run keeps true of the log

  /** LSNs grow strictly, start at 1, and stay below `next`. */
  ghost predicate LsnOrdered(log: seq<Record>, next: nat) {
    && (forall i {:trigger log[i].lsn} :: 0 <= i < |log| ==> 1 <= log[i].lsn < next)
    && (forall i, j {:trigger log[i].lsn, log[j].lsn} :: 0 <= i < j < |log| ==> log[i].lsn < log[j].lsn)
  }

  ghost predicate InBounds(r: Record) {
    && (r.IsWrite() ==> r.off + |r.redo| <= PageSize(r.page))
    && (r.Update? ==> |r.undo| == |r.redo|)
    && (r.Clr? ==> r.txn != 0)
  }

  ghost predicate WellSized(log: seq<Record>) {
    forall i :: 0 <= i < |log| ==> InBounds(log[i])
  }

  /** No transaction id other than 0 appears again after its Commit or Abort. */
  ghost predicate IdsNotReused(log: seq<Record>) {
    forall i, j {:trigger log[i].IsEnd(), log[j].Of(log[i].txn)} ::
      0 <= i < j < |log| && log[i].IsEnd() && log[i].txn != 0 ==> !log[j].Of(log[i].txn)
  }

  /** A byte last written by an open transaction is overwritten by that transaction only. */
  ghost predicate Isolated(log: seq<Record>, p: PageKey, a: nat) {
    forall i, j {:trigger log[i].Covers(p, a), log[j].Covers(p, a)} | 0 <= i < j < |log| && log[i].Covers(p, a)
      && log[j].Covers(p, a) ::
      log[i].txn != 0 && log[i].txn != log[j].txn ==> EndedBy(log, j, log[i].txn)
  }

  /** An Update's undo image is the byte as the records before it left it. */
  ghost predicate BeforeImages(log: seq<Record>, p: PageKey, a: nat, b: byte) {
    forall i {:trigger log[i].Covers(p, a)} ::
      0 <= i < |log| && log[i].Update? && log[i].Covers(p, a) && |log[i].undo| == |log[i].redo| ==>
      log[i].undo[a - log[i].off] == Replay(log, i, p, a, b)
  }

  /** A compensation record only touches bytes its transaction updated earlier. */
  ghost predicate ClrsFollow(log: seq<Record>, p: PageKey, a: nat) {
    forall j {:trigger log[j].Covers(p, a)} :: 0 <= j < |log| && log[j].Clr? && log[j].Covers(p, a) ==>
      UpdatedBefore(log, j, log[j].txn, p, a)
  }

  predicate UpdatedBefore(log: seq<Record>, j: nat, t: nat, p: PageKey, a: nat)
    requires j <= |log|
  {
    exists i {:trigger log[i].Covers(p, a)} :: 0 <= i < j && log[i].Update? && log[i].txn == t && log[i].Covers(p, a)
  }

  /** What the program keeps true of the records of one byte, whatever its callers do. */
  ghost predicate Disciplined(log: seq<Record>, p: PageKey, a: nat, b: byte) {
    BeforeImages(log, p, a, b) && ClrsFollow(log, p, a)
  }

  // ---------------------------------------------------------------- replay over prefixes and extensions

  lemma {:induction false} ReplayOnPrefix(log: seq<Record>, more: seq<Record>, n: nat, p: PageKey, a: nat, b: byte)
    requires n <= |log|
    ensures Replay(log + more, n, p, a, b) == Replay(log, n, p, a, b)
  {
    if n > 0 {
      assert (log + more)[n - 1] == log[n - 1];
      ReplayOnPrefix(log, more, n - 1, p, a, b);
    }
  }

  lemma {:induction false} ReplayUncovered(log: seq<Record>, m: nat, n: nat, p: PageKey, a: nat, b: byte)
    requires m <= n <= |log|
    requires forall i {:trigger log[i].Covers(p, a)} :: m <= i < n ==> !log[i].Covers(p, a)
    ensures Replay(log, n, p, a, b) == Replay(log, m, p, a, b)
    decreases n
  {
    if m < n {
      ReplayUncovered(log, m, n - 1, p, a, b);
    }
  }

  lemma {:induction false} ReplayLastWriter(log: seq<Record>, i: nat, n: nat, p: PageKey, a: nat, b: byte)
    requires i < n <= |log| && log[i].Covers(p, a)
    requires forall j {:trigger log[j].Covers(p, a)} :: i < j < n ==> !log[j].Covers(p, a)
    ensures Replay(log, n, p, a, b) == log[i].redo[a - log[i].off]
  {
    ReplayUncovered(log, i + 1, n, p, a, b);
  }

  lemma {:induction false} KeptUncovered(log: seq<Record>, m: nat, n: nat, p: PageKey, a: nat, b: byte)
    requires m <= n <= |log|
    requires forall i {:trigger log[i].Covers(p, a)} :: m <= i < n && log[i].Covers(p, a) ==> !Kept(log, log[i])
    ensures ReplayKept(log, n, p, a, b) == ReplayKept(log, m, p, a, b)
    decreases n
  {
    if m < n {
      KeptUncovered(log, m, n - 1, p, a, b);
    }
  }

  /** Where every writer of the byte is kept, replaying the kept records is replaying them all. */
  lemma {:induction false} AllKept(log: seq<Record>, n: nat, p: PageKey, a: nat, b: byte)
    requires n <= |log|
    requires forall i {:trigger log[i].Covers(p, a)} :: 0 <= i < n && log[i].Covers(p, a) ==> Kept(log, log[i])
    ensures ReplayKept(log, n, p, a, b) == Replay(log, n, p, a, b)
  {
    if n > 0 {
      AllKept(log, n - 1, p, a, b);
    }
  }

  // ---------------------------------------------------------------- undo

  lemma {:induction false} UndoneUntouched(log: seq<Record>, n: nat, i: nat, p: PageKey, a: nat, b: byte)
    requires i <= n <= |log| && WellSized(log)
    requires forall j {:trigger log[j].Covers(p, a)} :: i <= j < n && log[j].Covers(p, a) ==> !LoserUpdate(log, log[j])
    ensures Undone(log, n, i, p, a, b) == Replay(log, n, p, a, b)
    decreases n - i
  {
    if i < n {
      UndoneUntouched(log, n, i + 1, p, a, b);
    }
  }

  /** Undoing everything leaves the before-image of the losers' first Update of the byte. */
  lemma {:induction false} UndoneAt(log: seq<Record>, n: nat, i: nat, k: nat, p: PageKey, a: nat, b: byte)
    requires i <= k < n <= |log| && WellSized(log)
    requires log[k].Covers(p, a) && LoserUpdate(log, log[k])
    requires forall j {:trigger log[j].Covers(p, a)} :: i <= j < k && log[j].Covers(p, a) ==> !LoserUpdate(log, log[j])
    ensures Undone(log, n, i, p, a, b) == log[k].undo[a - log[k].off]
    decreases k - i
  {
    if i < k {
      UndoneAt(log, n, i + 1, k, p, a, b);
    }
  }

  /** The least position from which a loser's Update covers the byte. */
  lemma {:induction false} FirstLoser(log: seq<Record>, n: nat, p: PageKey, a: nat) returns (k: nat)
    requires n <= |log|
    requires exists i {:trigger log[i].Covers(p, a)} :: 0 <= i < n && log[i].Covers(p, a) && LoserUpdate(log, log[i])
    ensures k < n && log[k].Covers(p, a) && LoserUpdate(log, log[k])
    ensures forall j {:trigger log[j].Covers(p, a)} :: 0 <= j < k && log[j].Covers(p, a) ==> !LoserUpdate(log, log[j])
  {
    if exists i {:trigger log[i].Covers(p, a)} :: 0 <= i < n - 1 && log[i].Covers(p, a) && LoserUpdate(log, log[i]) {
      k := FirstLoser(log, n - 1, p, a);
    } else {
      k := n - 1;
    }
  }

  /** Once a loser has updated the byte, every later writer of it is that same loser. */
  lemma LaterWritersAreThatLoser(log: seq<Record>, k: nat, j: nat, p: PageKey, a: nat)
    requires k < j < |log| && log[k].Covers(p, a) && log[j].Covers(p, a)
    requires LoserUpdate(log, log[k]) && Isolated(log, p, a)
    ensures log[j].txn == log[k].txn && !Kept(log, log[j])
  {
  }

  /** If no loser's Update covers the byte among the first `k` records, all its writers there are kept. */
  lemma KeptBeforeLosers(log: seq<Record>, k: nat, p: PageKey, a: nat)
    requires k <= |log| && WellSized(log) && ClrsFollow(log, p, a)
    requires forall j {:trigger log[j].Covers(p, a)} :: 0 <= j < k && log[j].Covers(p, a) ==> !LoserUpdate(log, log[j])
    ensures forall i {:trigger log[i].Covers(p, a)} :: 0 <= i < k && log[i].Covers(p, a) ==> Kept(log, log[i])
  {
    forall i | 0 <= i < k && log[i].Covers(p, a) ensures Kept(log, log[i]) {
      assert log[i].Clr? ==> UpdatedBefore(log, i, log[i].txn, p, a);
    }
  }

  /** A byte no loser touched has its effective value after a plain replay. */
  lemma UntouchedIsEffective(log: seq<Record>, p: PageKey, a: nat, b: byte)
    requires WellSized(log) && Disciplined(log, p, a, b) && !LoserCovered(log, p, a)
    ensures Replay(log, |log|, p, a, b) == Effective(log, p, a, b)
  {
    KeptBeforeLosers(log, |log|, p, a);
    AllKept(log, |log|, p, a, b);
  }

  /** Redo followed by undo leaves exactly the effective byte: replaying the whole log and then
      restoring the losers' before-images backwards equals replaying the kept records alone. */
  lemma UndoneIsEffective(log: seq<Record>, p: PageKey, a: nat, b: byte)
    requires WellSized(log) && Disciplined(log, p, a, b) && Isolated(log, p, a)
    ensures Undone(log, |log|, 0, p, a, b) == Effective(log, p, a, b)
  {
    var n := |log|;
    if LoserCovered(log, p, a) {
      var k := FirstLoser(log, n, p, a);
      UndoneAt(log, n, 0, k, p, a, b);
      assert log[k].undo[a - log[k].off] == Replay(log, k, p, a, b);
      KeptBeforeLosers(log, k, p, a);
      AllKept(log, k, p, a, b);
      forall j | k <= j < n && log[j].Covers(p, a) ensures !Kept(log, log[j]) {
        if k < j { LaterWritersAreThatLoser(log, k, j, p, a); }
      }
      KeptUncovered(log, k, n, p, a, b);
    } else {
      UndoneUntouched(log, n, 0, p, a, b);
      UntouchedIsEffective(log, p, a, b);
    }
  }
}
