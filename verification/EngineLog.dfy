/** What the analysis pass computes: which records redo repeats and which transactions lose. */
module EngineLog {
  import opened Wrappers
  import opened Records
  import opened Engine

  /** `t` has a record among the first `n` and has not ended there. */
  ghost predicate OpenAt(log: seq<Record>, n: nat, t: nat)
    requires n <= |log|
  {
    t != 0 && (exists i {:trigger log[i].Of(t)} :: 0 <= i < n && log[i].Of(t)) && !EndedBy(log, n, t)
  }

  ghost predicate AttMatches(att: map<nat, nat>, log: seq<Record>, n: nat)
    requires n <= |log|
  {
    forall t :: t != 0 ==> (t in att <==> OpenAt(log, n, t))
  }

  /** The dirty page table that the analysis starts from. */
  function StartDpt(log: seq<Record>, chk: nat): map<PageKey, nat> {
    var (start, an) := ScanStart(log, chk);
    an.dpt
  }

  /** Redo repeats `r`: its page was dirty at the checkpoint and `r` is not older than the page's
      recLSN, or its page was clean then and `r` is younger than the checkpoint. */
  predicate InRedo(log: seq<Record>, chk: nat, r: Record) {
    var dpt := StartDpt(log, chk);
    r.IsWrite() && if r.page in dpt then r.lsn >= dpt[r.page] else r.lsn > chk
  }

  /** The header's checkpoint LSN is 0, or names a checkpoint record of the durable log that was
      true when it was written. */
  ghost predicate CheckpointHolds(log: seq<Record>, chk: nat) {
    chk == 0 || exists c {:trigger CheckpointAt(log, chk, c)} :: 0 <= c < |log| && CheckpointAt(log, chk, c)
  }

  ghost predicate CheckpointAt(log: seq<Record>, chk: nat, c: nat)
    requires c < |log|
  {
    && log[c].Checkpoint? && log[c].lsn == chk
    && AttMatches(log[c].att, log, c)
    && forall p :: p in log[c].dpt ==> log[c].dpt[p] < chk
  }

  lemma {:induction false} FindLsnFinds(log: seq<Record>, n: nat, c: nat)
    requires c < n <= |log|
    requires forall i, j {:trigger log[i].lsn, log[j].lsn} :: 0 <= i < j < |log| ==> log[i].lsn < log[j].lsn
    ensures FindLsn(log, n, log[c].lsn) == Some(log[c])
  {
    if c < n - 1 {
      FindLsnFinds(log, n - 1, c);
    } else {
      FindLsnMisses(log, n - 1, log[c].lsn);
    }
  }

  lemma {:induction false} FindLsnMisses(log: seq<Record>, n: nat, lsn: nat)
    requires n <= |log|
    requires forall i :: 0 <= i < n ==> log[i].lsn != lsn
    ensures FindLsn(log, n, lsn) == None
  {
    if n > 0 {
      FindLsnMisses(log, n - 1, lsn);
    }
  }

  /** Where the analysis starts: after the checkpoint `c`, or at the beginning. */
  lemma AnalysisStart(log: seq<Record>, chk: nat, next: nat) returns (c: nat)
    requires LsnOrdered(log, next) && CheckpointHolds(log, chk)
    ensures c <= |log|
    ensures forall i :: 0 <= i < c ==> log[i].lsn < ScanStart(log, chk).0
    ensures forall i :: c <= i < |log| ==> log[i].lsn >= ScanStart(log, chk).0
    ensures forall i :: 0 <= i < |log| && log[i].IsWrite() ==> (i >= c <==> log[i].lsn > chk)
    ensures AttMatches(ScanStart(log, chk).1.att, log, c)
    ensures forall p :: p in StartDpt(log, chk) ==> chk != 0 && StartDpt(log, chk)[p] < chk
    ensures chk != 0 ==> c > 0 && log[c - 1].lsn == chk
    ensures chk == 0 ==> c == 0
  {
    if chk == 0 {
      c := 0;
    } else {
      var k :| 0 <= k < |log| && CheckpointAt(log, chk, k);
      FindLsnFinds(log, |log|, k);
      c := k + 1;
      forall t | t != 0 ensures t in log[k].att <==> OpenAt(log, c, t) {
        assert OpenAt(log, k, t) <==> OpenAt(log, c, t);
      }
    }
  }

  lemma AttStep(log: seq<Record>, n: nat, an: Analysis)
    requires n < |log| && IdsNotReused(log) && AttMatches(an.att, log, n)
    ensures AttMatches(AnalysisStep(an, log[n]).att, log, n + 1)
  {
    var r := log[n];
    forall t | t != 0 ensures t in AnalysisStep(an, r).att <==> OpenAt(log, n + 1, t) {
      assert EndedBy(log, n + 1, t) <==> EndedBy(log, n, t) || (r.IsEnd() && r.txn == t);
      assert (exists i :: 0 <= i < n + 1 && log[i].Of(t))
        <==> (exists i {:trigger log[i].Of(t)} :: 0 <= i < n && log[i].Of(t)) || r.Of(t);
      if EndedBy(log, n, t) {
        var i :| 0 <= i < n && log[i].IsEnd() && log[i].txn == t;
        assert !log[n].Of(log[i].txn);
      }
    }
  }

  lemma {:induction false} ScanAtt(log: seq<Record>, c: nat, n: nat, start: nat, an: Analysis)
    requires c <= n <= |log| && IdsNotReused(log) && AttMatches(an.att, log, c)
    requires forall i :: 0 <= i < c ==> log[i].lsn < start
    requires forall i :: c <= i < |log| ==> log[i].lsn >= start
    ensures AttMatches(Scan(log, n, start, an).att, log, n)
    decreases n
  {
    if c < n {
      ScanAtt(log, c, n - 1, start, an);
      AttStep(log, n - 1, Scan(log, n - 1, start, an));
    } else {
      ScanSkips(log, n, start, an);
    }
  }

  lemma {:induction false} ScanSkips(log: seq<Record>, n: nat, start: nat, an: Analysis)
    requires n <= |log| && forall i :: 0 <= i < n ==> log[i].lsn < start
    ensures Scan(log, n, start, an) == an
  {
    if n > 0 {
      ScanSkips(log, n - 1, start, an);
    }
  }

  /** Entries that were there stay; a new entry is the first scanned write of its page. */
  lemma {:induction false} ScanDpt(log: seq<Record>, n: nat, start: nat, an: Analysis, p: PageKey, next: nat)
    requires n <= |log| && LsnOrdered(log, next)
    ensures var dpt := Scan(log, n, start, an).dpt;
            && (p in an.dpt ==> p in dpt && dpt[p] == an.dpt[p])
            && (p !in an.dpt && p in dpt ==> start <= dpt[p])
            && (forall i :: 0 <= i < n && log[i].IsWrite() && log[i].page == p && log[i].lsn >= start && p !in an.dpt
                  ==> p in dpt && dpt[p] <= log[i].lsn)
            && (p !in an.dpt && p in dpt ==> n > 0 && dpt[p] <= log[n - 1].lsn)
  {
    if n > 0 {
      ScanDpt(log, n - 1, start, an, p, next);
    }
  }

  /** The redo pass repeats exactly the records that `InRedo` describes. */
  lemma RedoableIsInRedo(log: seq<Record>, chk: nat, i: nat, next: nat)
    requires i < |log| && LsnOrdered(log, next) && CheckpointHolds(log, chk)
    ensures Redoable(AnalysisOf(log, chk).dpt, log[i]) <==> InRedo(log, chk, log[i])
  {
    var c := AnalysisStart(log, chk, next);
    if log[i].IsWrite() {
      var (start, an) := ScanStart(log, chk);
      ScanDpt(log, |log|, start, an, log[i].page, next);
    }
  }

  /** The losers are the transactions with a record but no Commit or Abort in the log. */
  lemma LosersAreOpen(log: seq<Record>, chk: nat, next: nat, t: nat)
    requires LsnOrdered(log, next) && CheckpointHolds(log, chk) && IdsNotReused(log)
    ensures t in AnalysisOf(log, chk).att.Keys - {0} <==> OpenAt(log, |log|, t)
  {
    var c := AnalysisStart(log, chk, next);
    var (start, an) := ScanStart(log, chk);
    ScanAtt(log, c, |log|, start, an);
  }

  // ---------------------------------------------------------------- longer logs

  lemma OpenAtPrefix(log: seq<Record>, more: seq<Record>, n: nat, t: nat)
    requires n <= |log|
    ensures OpenAt(log + more, n, t) <==> OpenAt(log, n, t)
    ensures EndedBy(log + more, n, t) <==> EndedBy(log, n, t)
  {
    assert forall i :: 0 <= i < n ==> (log + more)[i] == log[i];
    if EndedBy(log, n, t) {
      var i :| 0 <= i < n && log[i].IsEnd() && log[i].txn == t;
      assert (log + more)[i].IsEnd();
    }
    if exists i {:trigger log[i].Of(t)} :: 0 <= i < n && log[i].Of(t) {
      var i :| 0 <= i < n && log[i].Of(t);
      assert (log + more)[i].Of(t);
    }
  }

  lemma CheckpointHoldsOn(log: seq<Record>, more: seq<Record>, chk: nat, next: nat)
    requires CheckpointHolds(log, chk) && LsnOrdered(log + more, next)
    ensures CheckpointHolds(log + more, chk)
    ensures StartDpt(log + more, chk) == StartDpt(log, chk)
  {
    if chk != 0 {
      var c :| 0 <= c < |log| && CheckpointAt(log, chk, c);
      assert (log + more)[c] == log[c];
      forall t | t != 0 ensures t in log[c].att <==> OpenAt(log + more, c, t) {
        OpenAtPrefix(log, more, c, t);
      }
      assert CheckpointAt(log + more, chk, c);
      FindLsnFinds(log + more, |log + more|, c);
      assert forall i, j :: 0 <= i < j < |log| ==> (log + more)[i] == log[i] && (log + more)[j] == log[j];
      FindLsnFinds(log, |log|, c);
    }
  }
}
