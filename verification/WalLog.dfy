/** The write-ahead log: a file, and a buffer of records that are not yet in it. */
module WalLogs {
  import opened Wrappers
  import opened Records
  import opened LittleEndian
  import opened WalRecords
  import H = Headers

  const U64_MAX: nat := U64 - 1

  /** The file after writing `b` at offset `off`, no further than its end. */
  function WriteAt(file: Bytes, off: nat, b: Bytes): Bytes
    requires off <= |file|
  {
    file[..off] + b + if off + |b| < |file| then file[off + |b|..] else []
  }

  /** Where record `n` begins, or where it would. */
  function StartOf(rs: seq<WalRecord>, n: nat): nat
    requires n <= |rs|
  {
    H.WAL_HEADER + |EncodeAll(rs[..n])|
  }

  /** The length of the record before position `n`; 0 before the first. */
  function LenBefore(rs: seq<WalRecord>, n: nat): nat
    requires n <= |rs|
  {
    if n == 0 then 0 else rs[n - 1].Len()
  }

  function LastStart(rs: seq<WalRecord>): nat {
    if rs == [] then H.WAL_HEADER else StartOf(rs, |rs| - 1)
  }

  ghost predicate RecordOk(rs: seq<WalRecord>, i: nat)
    requires i < |rs|
  {
    rs[i].Ok() && rs[i].Len() < U32 && rs[i].header.prevLen == LenBefore(rs, i)
  }

  /** Records as the log writes them: well-formed, each naming its predecessor's length, LSNs rising. */
  ghost predicate Chained(rs: seq<WalRecord>) {
    && (forall i {:trigger RecordOk(rs, i)} :: 0 <= i < |rs| ==> RecordOk(rs, i))
    && forall i, j {:trigger rs[i], rs[j]} :: 0 <= i < j < |rs| ==> rs[i].header.lsn < rs[j].header.lsn
  }

  /** A log file that holds the records `rs`: its header points at the last of them. */
  ghost predicate LogFile(file: Bytes, rs: seq<WalRecord>) {
    && |file| >= H.WAL_HEADER && file[H.WAL_HEADER..] == EncodeAll(rs) && |file| < U64
    && Chained(rs)
    && var h := H.DecodeWal(file);
       && h.lastOffset == LastStart(rs) && h.lastLen == LenBefore(rs, |rs|) && h.Fits() && h.nextLsn > 0
       && forall i {:trigger rs[i]} :: 0 <= i < |rs| ==> rs[i].header.lsn < h.nextLsn
  }

  /** The buffered records: their bytes, and an entry (LSN, offset) for each. */
  ghost predicate Buffered(buffer: Bytes, offsets: seq<(nat, nat)>, rs: seq<WalRecord>, kept: nat, flushedLsn: nat) {
    && kept <= |rs| && buffer == EncodeAll(rs[kept..]) && |offsets| == |rs| - kept
    && forall i {:trigger Entry(offsets, rs, kept, flushedLsn, i)} :: 0 <= i < |offsets| ==>
      Entry(offsets, rs, kept, flushedLsn, i)
  }

  /** Buffer entry `i` names its record's LSN and where the record will begin in the file. */
  ghost predicate Entry(offsets: seq<(nat, nat)>, rs: seq<WalRecord>, kept: nat, flushedLsn: nat, i: nat)
    requires i < |offsets| == |rs| - kept && kept <= |rs|
  {
    offsets[i] == (flushedLsn + 1 + i, StartOf(rs, kept + i)) && rs[kept + i].header.lsn == flushedLsn + 1 + i
  }

  // ---------------------------------------------------------------- facts about positions

  lemma StartNext(rs: seq<WalRecord>, n: nat)
    requires n < |rs|
    ensures StartOf(rs, n + 1) == StartOf(rs, n) + rs[n].Len()
  {
    assert rs[..n + 1] == rs[..n] + [rs[n]];
    EncodeAllAdd(rs[..n], rs[n]);
  }

  lemma StartKept(rs: seq<WalRecord>, r: WalRecord, n: nat)
    requires n <= |rs|
    ensures StartOf(rs + [r], n) == StartOf(rs, n)
  {
    assert (rs + [r])[..n] == rs[..n];
  }

  lemma StartOfPrefix(rs: seq<WalRecord>, k: nat, n: nat)
    requires n <= k <= |rs|
    ensures StartOf(rs[..k], n) == StartOf(rs, n)
  {
    assert rs[..k][..n] == rs[..n];
  }

  lemma {:induction false} StartMonotone(rs: seq<WalRecord>, m: nat, n: nat)
    requires m <= n <= |rs|
    ensures StartOf(rs, m) <= StartOf(rs, n) && (m < n ==> StartOf(rs, m) + RECORD_HEADER <= StartOf(rs, n))
  {
    hide StartOf, EncodeAll;
    if m < n {
      StartMonotone(rs, m, n - 1);
      StartNext(rs, n - 1);
    }
  }

  lemma ChainedPrefix(rs: seq<WalRecord>, k: nat)
    requires Chained(rs) && k <= |rs|
    ensures Chained(rs[..k])
  {
    forall i {:trigger RecordOk(rs[..k], i)} | 0 <= i < k ensures RecordOk(rs[..k], i) {
      assert RecordOk(rs, i);
    }
  }

  lemma ChainedAdd(rs: seq<WalRecord>, r: WalRecord)
    requires Chained(rs) && r.Ok() && r.Len() < U32 && r.header.prevLen == LenBefore(rs, |rs|)
    requires forall i {:trigger rs[i]} :: 0 <= i < |rs| ==> rs[i].header.lsn < r.header.lsn
    ensures Chained(rs + [r])
  {
    var rs' := rs + [r];
    forall i {:trigger RecordOk(rs', i)} | 0 <= i < |rs'| ensures RecordOk(rs', i) {
      if i < |rs| { assert RecordOk(rs, i); }
    }
    forall i, j {:trigger rs'[i], rs'[j]} | 0 <= i < j < |rs'| ensures rs'[i].header.lsn < rs'[j].header.lsn {
      assert rs'[i] == rs[i];
    }
  }

  /** The bytes of a middle part. */
  lemma MiddleBytes(rs: seq<WalRecord>, m: nat, n: nat)
    requires m <= n <= |rs|
    ensures EncodeAll(rs[m..]) == EncodeAll(rs[m..n]) + EncodeAll(rs[n..])
    ensures EncodeAll(rs[..n]) == EncodeAll(rs[..m]) + EncodeAll(rs[m..n])
    ensures |EncodeAll(rs[m..n])| == StartOf(rs, n) - StartOf(rs, m)
  {
    hide EncodeAll;
    assert rs[m..] == rs[m..n] + rs[n..];
    EncodeAllSplit(rs[m..n], rs[n..]);
    assert rs[..n] == rs[..m] + rs[m..n];
    EncodeAllSplit(rs[..m], rs[m..n]);
  }

  /** Record `i` can be read where it begins. */
  lemma ReadsRecord(file: Bytes, rs: seq<WalRecord>, i: nat)
    requires LogFile(file, rs) && i < |rs|
    ensures ReadAt(file, StartOf(rs, i)) == Some((rs[i], StartOf(rs, i + 1)))
  {
    hide ReadAt, EncodeRecord, H.DecodeWal, Chained, EncodeAll;
    var front, back := file[..H.WAL_HEADER] + EncodeAll(rs[..i]), EncodeAll(rs[i + 1..]);
    AllAround(rs, i);
    assert file == file[..H.WAL_HEADER] + file[H.WAL_HEADER..];
    assert file == front + EncodeRecord(rs[i]) + back;
    assert RecordOk(rs, i) by { ChainedAt(rs, i); }
    ReadWritten(front, rs[i], back);
    StartNext(rs, i);
  }

  lemma ChainedAt(rs: seq<WalRecord>, i: nat)
    requires Chained(rs) && i < |rs|
    ensures RecordOk(rs, i)
  {
  }

  lemma AllAround(rs: seq<WalRecord>, i: nat)
    requires i < |rs|
    ensures EncodeAll(rs) == EncodeAll(rs[..i]) + EncodeRecord(rs[i]) + EncodeAll(rs[i + 1..])
  {
    hide EncodeRecord, EncodeAll;
    MiddleBytes(rs, i, i + 1);
    MiddleBytes(rs, i, |rs|);
    assert rs[..|rs|] == rs && rs[i..|rs|] == rs[i..] && rs[i..i + 1] == [] + [rs[i]];
    EncodeAllAdd([], rs[i]);
    NoBytes();
    Assoc(EncodeAll(rs[..i]), EncodeRecord(rs[i]), EncodeAll(rs[i + 1..]));
  }

  lemma NoBytes()
    ensures EncodeAll([]) == []
    ensures forall b: Bytes {:trigger [] + b} :: [] + b == b
  {
  }

  function Reversed(rs: seq<WalRecord>): seq<WalRecord> {
    if rs == [] then [] else [rs[|rs| - 1]] + Reversed(rs[..|rs| - 1])
  }

  lemma {:induction false} ReversedAt(rs: seq<WalRecord>, i: nat)
    requires i < |rs|
    ensures |Reversed(rs)| == |rs| && Reversed(rs)[i] == rs[|rs| - 1 - i]
  {
    var n := |rs| - 1;
    if n == 0 {
      assert Reversed(rs[..0]) == [];
    } else {
      ReversedAt(rs[..n], if i == 0 then 0 else i - 1);
    }
  }

  lemma AllReversed(rs: seq<WalRecord>)
    ensures |Reversed(rs)| == |rs|
    ensures forall i {:trigger Reversed(rs)[i]} :: 0 <= i < |rs| ==> Reversed(rs)[i] == rs[|rs| - 1 - i]
  {
    hide Reversed;
    if rs == [] {
      assert Reversed([]) == [] by { NoneReversed(); }
    } else {
      ReversedAt(rs, 0);
      forall i | 0 <= i < |rs| ensures Reversed(rs)[i] == rs[|rs| - 1 - i] {
        ReversedAt(rs, i);
      }
    }
  }

  lemma NoneReversed()
    ensures Reversed([]) == []
  {
  }

  lemma ReversedStep(rs: seq<WalRecord>, n: nat)
    requires 0 < n <= |rs|
    ensures Reversed(rs[..n]) == [rs[n - 1]] + Reversed(rs[..n - 1])
  {
    assert rs[..n][..n - 1] == rs[..n - 1];
  }

  // ---------------------------------------------------------------- steps

  /** Writing the first buffered records and a new header gives a file with these records too. */
  lemma FlushedFile(file: Bytes, rs: seq<WalRecord>, kept: nat, n: nat, h: H.WalHeader)
    requires kept <= n <= |rs| && LogFile(file, rs[..kept]) && Chained(rs)
    requires h.lastOffset == LastStart(rs[..n]) && h.lastLen == LenBefore(rs[..n], n) && h.Fits() && h.nextLsn > 0
    requires forall i {:trigger rs[i]} :: 0 <= i < |rs| ==> rs[i].header.lsn < h.nextLsn
    requires StartOf(rs, n) < U64
    ensures StartOf(rs, kept) == |file| && |EncodeAll(rs[kept..n])| == StartOf(rs, n) - StartOf(rs, kept)
    ensures EncodeAll(rs[kept..n]) <= EncodeAll(rs[kept..])
    ensures var f := WriteAt(WriteAt(file, StartOf(rs, kept), EncodeAll(rs[kept..n])), 0, H.EncodeWal(h));
            LogFile(f, rs[..n]) && H.DecodeWal(f) == h
  {
    hide H.EncodeWal, H.DecodeWal, Chained, EncodeAll;
    MiddleBytes(rs, kept, n);
    ChainedPrefix(rs, n);
    var e := EncodeAll(rs[kept..n]);
    var f1 := WriteAt(file, |file|, e);
    assert f1 == file + e;
    var f2 := WriteAt(f1, 0, H.EncodeWal(h));
    assert f2 == H.EncodeWal(h) + f1[H.WAL_HEADER..];
    assert f1[H.WAL_HEADER..] == file[H.WAL_HEADER..] + e;
    assert f2[H.WAL_HEADER..] == EncodeAll(rs[..n]);
    H.WalRoundTrip(h, f1[H.WAL_HEADER..]);
    assert forall i {:trigger rs[..n][i]} :: 0 <= i < n ==> rs[..n][i] == rs[i];
  }

  /** The buffer after its first records were written. */
  lemma FlushedBuffer(buffer: Bytes, offsets: seq<(nat, nat)>, rs: seq<WalRecord>, kept: nat, n: nat, flushedLsn: nat)
    requires Buffered(buffer, offsets, rs, kept, flushedLsn) && kept <= n <= |rs|
    ensures StartOf(rs, n) - StartOf(rs, kept) <= |buffer| && StartOf(rs, n) >= StartOf(rs, kept)
    ensures buffer[..StartOf(rs, n) - StartOf(rs, kept)] == EncodeAll(rs[kept..n])
    ensures Buffered(buffer[StartOf(rs, n) - StartOf(rs, kept)..], offsets[n - kept..], rs, n, flushedLsn + n - kept)
  {
    hide EncodeAll;
    MiddleBytes(rs, kept, n);
    StartMonotone(rs, kept, n);
    var rest := offsets[n - kept..];
    forall i {:trigger Entry(rest, rs, n, flushedLsn + (n - kept), i)} | 0 <= i < |rest|
      ensures Entry(rest, rs, n, flushedLsn + (n - kept), i)
    {
      assert Entry(offsets, rs, kept, flushedLsn, n - kept + i);
      assert kept + (n - kept + i) == n + i;
    }
  }

  /** The buffer after one more record. */
  lemma BufferedAdd(buffer: Bytes, offsets: seq<(nat, nat)>, rs: seq<WalRecord>, kept: nat, flushedLsn: nat,
                    r: WalRecord)
    requires Buffered(buffer, offsets, rs, kept, flushedLsn) && r.header.lsn == flushedLsn + 1 + |offsets|
    ensures Buffered(buffer + EncodeRecord(r), offsets + [(r.header.lsn, StartOf(rs, |rs|))], rs + [r], kept,
                     flushedLsn)
    ensures StartOf(rs + [r], |rs| + 1) == StartOf(rs, |rs|) + r.Len() && LastStart(rs + [r]) == StartOf(rs, |rs|)
  {
    hide EncodeRecord;
    var rs', offsets' := rs + [r], offsets + [(r.header.lsn, StartOf(rs, |rs|))];
    assert rs'[kept..] == rs[kept..] + [r];
    EncodeAllAdd(rs[kept..], r);
    forall i {:trigger Entry(offsets', rs', kept, flushedLsn, i)} | 0 <= i < |offsets'|
      ensures Entry(offsets', rs', kept, flushedLsn, i)
    {
      StartKept(rs, r, kept + i);
      if i < |offsets| { assert Entry(offsets, rs, kept, flushedLsn, i); }
    }
    StartNext(rs', |rs|);
    StartKept(rs, r, |rs|);
  }

  // ---------------------------------------------------------------- the log without its bytes

  /** What the log holds, bytes aside: its records, how many of them are in the file, the next LSN in
      memory and in the file's header, the last checkpoint, and the active transactions. */
  datatype LogView = LogView(records: seq<WalRecord>, kept: nat, nextLsn: nat, diskNext: nat, checkpoint: nat,
                             active: map<nat, nat>)
  {
    /** The record that the next write appends. */
    function NextRecord(txn: nat, kind: RecordType, pageId: nat, isIndex: bool, pageOffset: nat, payload: Bytes):
      WalRecord
    {
      WalRecord(RecordHeader(nextLsn, LenBefore(records, |records|), txn, kind, isIndex, pageId, |payload|, pageOffset),
                payload)
    }

    function Appended(r: WalRecord): LogView {
      this.(records := records + [r], nextLsn := nextLsn + 1)
    }

    /** The last record's transaction becomes active, unless it is 0. */
    function Active(txn: nat): LogView
      requires nextLsn > 0
    {
      if txn != 0 then this.(active := active[txn := nextLsn - 1]) else this
    }

    /** After the end of a transaction was logged and everything up to it written. */
    function Ended(r: WalRecord): LogView {
      Appended(r).(active := active - {r.header.txn}).FlushedTo(r.header.lsn)
    }

    /** After a checkpoint was logged, written, and named in the header. */
    function Checkpointed(r: WalRecord): LogView {
      var v := Appended(r).FlushedTo(r.header.lsn);
      v.(checkpoint := r.header.lsn, diskNext := v.nextLsn)
    }

    /** After a flush of the records with LSNs up to `target`. */
    function FlushedTo(target: nat): LogView {
      FlushedAt(Reach(records, kept, target))
    }

    function FlushedAt(n: nat): LogView {
      if n == kept then this else this.(kept := n, diskNext := nextLsn)
    }

    /** After a full buffer was flushed to make room for one more record. */
    function MadeRoom(frames: nat): LogView {
      if |records| - kept >= frames then FlushedAt(|records|) else this
    }

    /** After the log file was closed and opened again: what was not in it is gone. */
    function Reopened(): LogView
      requires kept <= |records|
    {
      LogView(records[..kept], kept, diskNext, diskNext, checkpoint, map[])
    }
  }

  /** The first position from `n` on whose record has an LSN above `target`. */
  function Reach(rs: seq<WalRecord>, n: nat, target: nat): (r: nat)
    ensures r >= n && (n <= |rs| ==> r <= |rs|)
    decreases |rs| - n
  {
    if n < |rs| && rs[n].header.lsn <= target then Reach(rs, n + 1, target) else n
  }

  lemma {:induction false} ReachIs(rs: seq<WalRecord>, n: nat, target: nat, k: nat)
    requires n <= k <= |rs|
    requires forall i {:trigger rs[i]} :: n <= i < |rs| ==> (i < k <==> rs[i].header.lsn <= target)
    ensures Reach(rs, n, target) == k
    decreases |rs| - n
  {
    if n < k {
      ReachIs(rs, n + 1, target, k);
    }
  }

  /** A file and a buffer that hold the records `rs` between them, the first `kept` of them in the file,
      with the header `h` in memory. */
  ghost predicate LogOk(file: Bytes, buffer: Bytes, offsets: seq<(nat, nat)>, h: H.WalHeader, flushedLsn: nat,
                        rs: seq<WalRecord>, kept: nat)
  {
    && |file| >= H.WAL_HEADER && kept <= |rs| && LogFile(file, rs[..kept]) && Chained(rs)
    && Buffered(buffer, offsets, rs, kept, flushedLsn)
    && (forall i {:trigger rs[i]} :: 0 <= i < |rs| ==> rs[i].header.lsn < h.nextLsn)
    && h.nextLsn == flushedLsn + 1 + |offsets|
    && h.lastOffset == LastStart(rs) && h.lastLen == LenBefore(rs, |rs|) && h.Fits()
    && StartOf(rs, |rs|) < U64
    && H.DecodeWal(file).lastCheckpoint == h.lastCheckpoint
  }

  /** One more record in the buffer. */
  lemma AppendOk(file: Bytes, buffer: Bytes, offsets: seq<(nat, nat)>, h: H.WalHeader, flushedLsn: nat,
                 rs: seq<WalRecord>, kept: nat, r: WalRecord, h': H.WalHeader)
    requires r.Ok() && r.header.lsn == h.nextLsn < U64_MAX && r.header.prevLen == h.lastLen
    requires r.Len() < U32 && StartOf(rs, |rs|) + r.Len() < U64
    requires h' == h.(nextLsn := h.nextLsn + 1, lastLen := r.Len(), lastOffset := h.lastOffset + h.lastLen)
    requires LogOk(file, buffer, offsets, h, flushedLsn, rs, kept)
    ensures LogOk(file, buffer + EncodeRecord(r), offsets + [(h.nextLsn, h'.lastOffset)], h', flushedLsn, rs + [r],
                  kept)
  {
    hide Chained, LogFile, Buffered, EncodeAll, StartOf, LastStart, EncodeRecord, H.DecodeWal;
    EndOf(rs);
    BufferedAdd(buffer, offsets, rs, kept, flushedLsn, r);
    ChainedAdd(rs, r);
    assert (rs + [r])[..kept] == rs[..kept];
  }

  ghost predicate HeaderIs(file: Bytes, h: H.WalHeader) {
    |file| >= H.WAL_HEADER && H.DecodeWal(file) == h
  }

  /** The first buffered records, up to position `n`, and a header that points at the last of them, were
      written to the file. */
  lemma PrefixOk(file: Bytes, buffer: Bytes, offsets: seq<(nat, nat)>, h: H.WalHeader, flushedLsn: nat,
                 rs: seq<WalRecord>, kept: nat, n: nat, len: nat, disk: H.WalHeader, f: Bytes)
    requires LogOk(file, buffer, offsets, h, flushedLsn, rs, kept)
    requires kept < n <= |rs| && n - kept <= |offsets| && len <= |buffer| && len == StartOf(rs, n) - StartOf(rs, kept)
    requires disk == h.(lastOffset := StartOf(rs, n - 1), lastLen := LenBefore(rs, n))
    requires f == WriteAt(WriteAt(file, |file|, buffer[..len]), 0, H.EncodeWal(disk))
    ensures HeaderIs(f, disk) && LogOk(f, buffer[len..], offsets[n - kept..], h, flushedLsn + (n - kept), rs, n)
  {
    hide Chained, EncodeAll, H.EncodeWal, H.DecodeWal, LogFile, EncodeRecord, Buffered, StartOf, LastStart,
         RecordOk, WriteAt;
    BufferedLength(buffer, offsets, rs, kept, flushedLsn);
    FlushedBuffer(buffer, offsets, rs, kept, n, flushedLsn);
    EndsAt(rs, n);
    LenFits(rs, n - 1);
    StartMonotone(rs, n, |rs|);
    FlushedFile(file, rs, kept, n, disk);
    LogFileLength(f, rs[..n]);
  }

  lemma StartsInFile(file: Bytes, buffer: Bytes, offsets: seq<(nat, nat)>, h: H.WalHeader, flushedLsn: nat,
                     rs: seq<WalRecord>, kept: nat, n: nat)
    requires LogOk(file, buffer, offsets, h, flushedLsn, rs, kept) && kept <= n <= |rs|
    ensures StartOf(rs, kept) == |file| && 0 <= StartOf(rs, n) - StartOf(rs, kept) <= |buffer|
  {
    hide Chained, EncodeAll, H.DecodeWal, EncodeRecord, StartOf;
    FlushedBuffer(buffer, offsets, rs, kept, n, flushedLsn);
    FileLength(file, rs[..kept]);
    StartOfPrefix(rs, kept, kept);
  }

  lemma ReopenOk(file: Bytes, rs: seq<WalRecord>)
    requires LogFile(file, rs)
    ensures |file| >= H.WAL_HEADER && H.DecodeWal(file).nextLsn > 0
    ensures LogOk(file, [], [], H.DecodeWal(file), H.DecodeWal(file).nextLsn - 1, rs, |rs|)
  {
    hide Chained, H.DecodeWal, EncodeAll, StartOf;
    assert rs[..|rs|] == rs && rs[|rs|..] == [];
    NoBytes();
    FileLength(file, rs);
  }

  lemma LenFits(rs: seq<WalRecord>, i: nat)
    requires Chained(rs) && i < |rs|
    ensures rs[i].Len() < U32
  {
    ChainedAt(rs, i);
  }

  lemma LogFileLength(file: Bytes, rs: seq<WalRecord>)
    requires LogFile(file, rs)
    ensures |file| >= H.WAL_HEADER
  {
  }

  /** The parts of `LogOk` that the methods read. */
  lemma LogIs(file: Bytes, buffer: Bytes, offsets: seq<(nat, nat)>, h: H.WalHeader, flushedLsn: nat,
              rs: seq<WalRecord>, kept: nat)
    requires LogOk(file, buffer, offsets, h, flushedLsn, rs, kept)
    ensures kept <= |rs| && |offsets| == |rs| - kept && Buffered(buffer, offsets, rs, kept, flushedLsn) && Chained(rs)
    ensures h.nextLsn == flushedLsn + 1 + |offsets| && h.Fits() && LogFile(file, rs[..kept])
    ensures h.lastOffset == LastStart(rs) && h.lastLen == LenBefore(rs, |rs|)
    ensures forall i {:trigger rs[i]} :: 0 <= i < |rs| ==> rs[i].header.lsn < h.nextLsn
  {
  }

  /** What the entries of the buffer say of the records after position `kept`. */
  lemma EntriesAre(buffer: Bytes, offsets: seq<(nat, nat)>, rs: seq<WalRecord>, kept: nat, flushedLsn: nat)
    requires Buffered(buffer, offsets, rs, kept, flushedLsn)
    ensures |offsets| == |rs| - kept
    ensures forall i {:trigger offsets[i]} :: 0 <= i < |offsets| ==>
      offsets[i].0 == flushedLsn + 1 + i && offsets[i].1 == StartOf(rs, kept + i)
    ensures forall i {:trigger rs[i]} :: kept <= i < |rs| ==> rs[i].header.lsn == flushedLsn + 1 + i - kept
  {
    hide StartOf, EncodeAll;
    forall i {:trigger offsets[i]} | 0 <= i < |offsets|
      ensures offsets[i].0 == flushedLsn + 1 + i && offsets[i].1 == StartOf(rs, kept + i)
    {
      assert Entry(offsets, rs, kept, flushedLsn, i);
    }
    forall i {:trigger rs[i]} | kept <= i < |rs| ensures rs[i].header.lsn == flushedLsn + 1 + i - kept {
      assert Entry(offsets, rs, kept, flushedLsn, i - kept);
    }
  }

  class WalInner {
    var file: Bytes
    var buffer: Bytes
    var offsets: seq<(nat, nat)>
    const maxFrames: nat
    var header: H.WalHeader
    var flushedLsn: nat
    var activeTxns: map<nat, nat>
    ghost var records: seq<WalRecord>
    ghost var kept: nat

    /** The file followed by the buffer holds all records; the first `kept` are in the file. */
    ghost predicate Valid()
      reads this`file, this`buffer, this`offsets, this`header, this`flushedLsn, this`records, this`kept
    {
      LogOk(file, buffer, offsets, header, flushedLsn, records, kept)
    }

    /** What "flushed up to an LSN" means: the file holds every record up to that LSN. */
    lemma FlushedIsFiled(lsn: nat)
      requires Valid() && lsn <= flushedLsn
      ensures kept <= |records| && LogFile(file, records[..kept])
      ensures forall i {:trigger records[i]} :: 0 <= i < |records| && records[i].header.lsn <= lsn ==> i < kept
    {
      LogIs(file, buffer, offsets, header, flushedLsn, records, kept);
      EntriesAre(buffer, offsets, records, kept, flushedLsn);
    }

    ghost function View(): LogView
      requires |file| >= H.WAL_HEADER
      reads this`file, this`header, this`records, this`kept, this`activeTxns
    {
      LogView(records, kept, header.nextLsn, H.DecodeWal(file).nextLsn, header.lastCheckpoint, activeTxns)
    }

    /** A new log: only a header. */
    constructor Create(max: nat)
      ensures Valid() && records == [] && kept == 0 && buffer == [] && flushedLsn == 0 && maxFrames == max
      ensures View() == LogView([], 0, 1, 1, 0, map[])
    {
      var h := H.WalHeader(0, H.WAL_HEADER, 0, 1);
      file := H.EncodeWal(h);
      buffer := [];
      offsets := [];
      maxFrames := max;
      header := h;
      flushedLsn := 0;
      activeTxns := map[];
      records := [];
      kept := 0;
      new;
      Widths();
      H.WalRoundTrip(h, []);
      assert H.EncodeWal(h) + [] == H.EncodeWal(h);
      assert records[..0] == [] && records[0..] == [];
    }

    /** Opens a file by its header, whatever follows it.  If it is a log file that holds `rs`, all of it
        counts as flushed. */
    constructor Reopen(f: Bytes, max: nat, ghost rs: seq<WalRecord>)
      requires |f| >= H.WAL_HEADER
      ensures file == f && buffer == [] && offsets == [] && header == H.DecodeWal(f) && maxFrames == max
      ensures records == rs && kept == |rs|
      ensures flushedLsn == if header.nextLsn > 0 then header.nextLsn - 1 else 0
      ensures View() == LogView(rs, |rs|, header.nextLsn, header.nextLsn, header.lastCheckpoint, map[])
      ensures LogFile(f, rs) ==> Valid() && flushedLsn + 1 == header.nextLsn
    {
      hide LogOk, LogFile;
      if LogFile(f, rs) {
        ReopenOk(f, rs);
      }
      file := f;
      buffer := [];
      offsets := [];
      maxFrames := max;
      header := H.DecodeWal(f);
      flushedLsn := if H.DecodeWal(f).nextLsn > 0 then H.DecodeWal(f).nextLsn - 1 else 0;
      activeTxns := map[];
      records := rs;
      kept := |rs|;
    }

    // -------------------------------------------------------------- writing

    /** Buffers one record; a full buffer is flushed first. */
    method WriteRawRecord(txn: nat, kind: RecordType, pageId: nat, isIndex: bool, pageOffset: nat, payload: Bytes)
      returns (lsn: nat)
      requires Valid() && CanGrow(|payload|) && txn < U64 && pageId < U64 && pageOffset < U16
      modifies this`file, this`buffer, this`offsets, this`header, this`flushedLsn, this`records, this`kept
      ensures Valid() && lsn == old(header.nextLsn) && header.nextLsn == lsn + 1
      ensures kept == if |old(offsets)| >= maxFrames then |old(records)| else old(kept)
      ensures var v := old(View()).MadeRoom(maxFrames);
              View() == v.Appended(v.NextRecord(txn, kind, pageId, isIndex, pageOffset, payload))
    {
      hide LogOk, LogFile, Chained, Buffered, EncodeRecord, StartOf, LenBefore, H.DecodeWal;
      LogIs(file, buffer, offsets, header, flushedLsn, records, kept);
      if |offsets| >= maxFrames {
        FlushAll();
        LogIs(file, buffer, offsets, header, flushedLsn, records, kept);
      }
      lsn := header.nextLsn;
      var recOffset := header.lastOffset + header.lastLen;
      var rec := WalRecord(RecordHeader(lsn, header.lastLen, txn, kind, isIndex, pageId, |payload|, pageOffset),
                           payload);
      AppendOk(file, buffer, offsets, header, flushedLsn, records, kept, rec,
               header.(nextLsn := lsn + 1, lastLen := RECORD_HEADER + |payload|, lastOffset := recOffset));
      header := header.(nextLsn := header.nextLsn + 1, lastLen := RECORD_HEADER + |payload|, lastOffset := recOffset);
      buffer := buffer + EncodeRecord(rec);
      offsets := offsets + [(lsn, recOffset)];
      records := records + [rec];
    }

    /** Writes the buffered records up to `target` to the file; the largest 64-bit number means all. */
    method FlushUpTo(target: nat)
      requires Valid()
      modifies this`file, this`buffer, this`offsets, this`flushedLsn, this`kept
      ensures Valid()
      ensures forall i {:trigger records[i]} :: old(kept) <= i < |records| ==>
        (i < kept <==> records[i].header.lsn <= target)
      ensures kept >= old(kept) && kept - old(kept) == flushedLsn - old(flushedLsn)
      ensures target >= header.nextLsn - 1 ==> kept == |records| && offsets == []
      ensures flushedLsn >= old(flushedLsn) && (target < header.nextLsn ==> flushedLsn >= target)
      ensures View() == old(View()).FlushedTo(target)
    {
      hide LogOk, Chained, LogFile, EncodeAll, H.EncodeWal, H.DecodeWal, StartOf, Buffered, Reach;
      LogIs(file, buffer, offsets, header, flushedLsn, records, kept);
      EntriesAre(buffer, offsets, records, kept, flushedLsn);
      if flushedLsn >= target && target != U64_MAX {
        ReachIs(records, kept, target, kept);
        return;
      }
      if |offsets| == 0 {
        ReachIs(records, kept, target, kept);
        return;
      }
      var firstLsn := offsets[0].0;
      if target < firstLsn && target != U64_MAX {
        ReachIs(records, kept, target, kept);
        return;
      }
      var lastLsn := offsets[|offsets| - 1].0;
      if target >= lastLsn {
        FlushPrefix(|offsets| - 1);
      } else {
        var idx := 0;
        var i := 0;
        while i < |offsets|
          invariant idx < |offsets| && i <= |offsets| && offsets[idx].0 <= target
          invariant if i == 0 then idx == 0 else idx == i - 1
          decreases |offsets| - i
        {
          if offsets[i].0 > target {
            break;
          }
          idx := i;
          i := i + 1;
        }
        FlushPrefix(idx);
      }
      ReachIs(records, old(kept), target, kept);
    }

    /** Writes the buffered records up to entry `idx`, and a header that points at the last of them. */
    method FlushPrefix(idx: nat)
      requires Valid() && idx < |offsets|
      modifies this`file, this`buffer, this`offsets, this`flushedLsn, this`kept
      ensures Valid() && kept == old(kept) + idx + 1 && flushedLsn == old(flushedLsn) + idx + 1
      ensures offsets == old(offsets)[idx + 1..]
      ensures |file| >= H.WAL_HEADER && H.DecodeWal(file).nextLsn == header.nextLsn
    {
      hide LogOk, Chained, EncodeAll, H.EncodeWal, H.DecodeWal, LogFile, StartOf, Buffered, WriteAt, EncodeRecord;
      ghost var n := kept + idx + 1;
      LogIs(file, buffer, offsets, header, flushedLsn, records, kept);
      EntriesAre(buffer, offsets, records, kept, flushedLsn);
      StartsInFile(file, buffer, offsets, header, flushedLsn, records, kept, n);
      FlushLength(buffer, offsets, records, kept, n, flushedLsn);
      StartNext(records, n - 1);
      var start := offsets[0].1;
      var flushedOffset := offsets[idx].1;
      // The record after the flushed ones, or the end of the log, tells the flushed length.
      var flushedLen := if idx + 1 < |offsets| then offsets[idx + 1].1 - offsets[idx].1 else header.lastLen;
      var flushLen := if idx + 1 < |offsets| then offsets[idx + 1].1 - offsets[0].1 else |buffer|;
      var diskHeader := header.(lastOffset := flushedOffset, lastLen := flushedLen);
      assert diskHeader == header.(lastOffset := StartOf(records, n - 1), lastLen := LenBefore(records, n));
      PrefixOk(file, buffer, offsets, header, flushedLsn, records, kept, n, flushLen, diskHeader,
               WriteAt(WriteAt(file, |file|, buffer[..flushLen]), 0, H.EncodeWal(diskHeader)));
      file := WriteAt(file, start, buffer[..flushLen]);
      flushedLsn := offsets[idx].0;
      buffer := buffer[flushLen..];
      offsets := offsets[idx + 1..];
      file := WriteAt(file, 0, H.EncodeWal(diskHeader));
      kept := n;
    }

    method FlushAll()
      requires Valid()
      modifies this`file, this`buffer, this`offsets, this`flushedLsn, this`kept
      ensures Valid() && kept == |records| && offsets == [] && flushedLsn == header.nextLsn - 1
      ensures View() == old(View()).FlushedAt(|records|)
    {
      FlushUpTo(U64_MAX);
    }

    /** There is room for one more record in the 64-bit LSNs and file offsets. */
    ghost predicate CanGrow(n: nat)
      reads this`header, this`records
    {
      header.nextLsn < U64_MAX && RECORD_HEADER + n < U32 && StartOf(records, |records|) + RECORD_HEADER + n < U64
    }

    /** Logs an update with its images, which can be read back from the record. */
    method WriteRecord(txn: nat, pageId: nat, isIndex: bool, offsetInPage: nat, undo: Bytes, redo: Bytes)
      returns (lsn: nat)
      requires Valid() && CanGrow(|undo| + |redo| + 4) && txn < U64 && pageId < U64 && offsetInPage < U16
      requires |undo| < U16 && |redo| < U16
      modifies this
      ensures Valid() && lsn == old(header.nextLsn)
      ensures var v := old(View()).MadeRoom(maxFrames);
              var r := v.NextRecord(txn, TUpdate, pageId, isIndex, offsetInPage, EncodeUpdate(undo, redo));
              View() == v.Appended(r).Active(txn) && ParseUpdate(r.payload) == Some((undo, redo))
    {
      hide Valid, EncodeUpdate, ParseUpdate;
      PayloadLength(undo, redo);
      UpdateRoundTrip(undo, redo);
      lsn := WriteRawRecord(txn, TUpdate, pageId, isIndex, offsetInPage, EncodeUpdate(undo, redo));
      if txn != 0 {
        activeTxns := activeTxns[txn := lsn];
      }
    }

    method BeginTransaction(txn: nat) returns (id: nat)
      requires Valid() && CanGrow(0) && txn < U64
      modifies this
      ensures Valid() && id == txn
      ensures var v := old(View()).MadeRoom(maxFrames);
              View() == v.Appended(v.NextRecord(txn, TBegin, 0, false, 0, [])).(active := v.active[txn := v.nextLsn])
    {
      hide Valid;
      var lsn := WriteRawRecord(txn, TBegin, 0, false, 0, []);
      activeTxns := activeTxns[txn := lsn];
      return txn;
    }

    /** When commit returns, the file holds every record up to the commit. */
    method CommitTransaction(txn: nat) returns (lsn: nat)
      requires Valid() && CanGrow(0) && txn < U64
      modifies this
      ensures Valid() && lsn == old(header.nextLsn)
      ensures var v := old(View()).MadeRoom(maxFrames);
              View() == v.Ended(v.NextRecord(txn, TCommit, 0, false, 0, []))
      ensures kept == |records| && LogFile(file, records)
    {
      lsn := EndTransaction(txn, TCommit);
    }

    /** An abort is logged and flushed; nothing is undone here. */
    method AbortTransaction(txn: nat) returns (lsn: nat)
      requires Valid() && CanGrow(0) && txn < U64
      modifies this
      ensures Valid() && lsn == old(header.nextLsn)
      ensures var v := old(View()).MadeRoom(maxFrames);
              View() == v.Ended(v.NextRecord(txn, TAbort, 0, false, 0, []))
      ensures kept == |records| && LogFile(file, records)
    {
      lsn := EndTransaction(txn, TAbort);
    }

    method EndTransaction(txn: nat, kind: RecordType) returns (lsn: nat)
      requires Valid() && CanGrow(0) && txn < U64
      modifies this
      ensures Valid() && lsn == old(header.nextLsn)
      ensures var v := old(View()).MadeRoom(maxFrames);
              View() == v.Ended(v.NextRecord(txn, kind, 0, false, 0, []))
      ensures kept == |records| && LogFile(file, records)
    {
      hide Valid, LogFile;
      lsn := WriteRawRecord(txn, kind, 0, false, 0, []);
      activeTxns := activeTxns - {txn};
      FlushUpTo(lsn);
      AllKept();
    }

    lemma AllKept()
      requires Valid() && kept == |records|
      ensures LogFile(file, records)
    {
      assert records[..kept] == records;
    }

    /** Logs a compensation: an update with an empty undo image. */
    method WriteClr(txn: nat, isIndex: bool, pageId: nat, pageOffset: nat, redo: Bytes) returns (lsn: nat)
      requires Valid() && CanGrow(|redo| + 4) && txn < U64 && pageId < U64 && pageOffset < U16 && |redo| < U16
      modifies this
      ensures Valid() && lsn == old(header.nextLsn)
      ensures var v := old(View()).MadeRoom(maxFrames);
              var r := v.NextRecord(txn, TClr, pageId, isIndex, pageOffset, EncodeUpdate([], redo));
              View() == v.Appended(r).Active(txn) && ParseUpdate(r.payload) == Some(([], redo))
    {
      hide Valid, ParseUpdate, Encode;
      PayloadLength([], redo);
      UpdateRoundTrip([], redo);
      var payload := Encode(0, 2) + Encode(|redo|, 2) + redo;
      assert payload == EncodeUpdate([], redo) by { assert Encode(0, 2) + [] == Encode(0, 2); }
      lsn := WriteRawRecord(txn, TClr, pageId, isIndex, pageOffset, payload);
      if txn != 0 {
        activeTxns := activeTxns[txn := lsn];
      }
    }

    /** Logs a checkpoint with both tables and flushes everything; the file's header then names it. */
    method WriteCheckpoint(dpt: seq<DirtyPageEntry>, att: seq<ActiveTxnEntry>) returns (lsn: nat)
      requires Valid() && CanGrow(|EncodeCheckpoint(dpt, att)|) && DptFits(dpt) && AttFits(att)
      modifies this
      ensures Valid() && lsn == old(header.nextLsn)
      ensures var v := old(View()).MadeRoom(maxFrames);
              var r := v.NextRecord(0, TCheckpoint, 0, false, 0, EncodeCheckpoint(dpt, att));
              View() == v.Checkpointed(r) && CheckpointOf(r.payload) == Some((dpt, att))
      ensures kept == |records| && LogFile(file, records) && H.DecodeWal(file).lastCheckpoint == lsn
    {
      hide Valid, EncodeCheckpoint, CheckpointOf, LogFile, H.DecodeWal, DptFits, AttFits;
      CheckpointRoundTrip(dpt, att);
      lsn := WriteRawRecord(0, TCheckpoint, 0, false, 0, EncodeCheckpoint(dpt, att));
      FlushUpTo(lsn);
      NameCheckpoint(lsn);
    }

    /** Stores a checkpoint's LSN in the header, in memory and in the file. */
    method NameCheckpoint(lsn: nat)
      requires Valid() && kept == |records| && lsn < U64
      modifies this`header, this`file
      ensures Valid() && header == old(header).(lastCheckpoint := lsn)
      ensures LogFile(file, records) && H.DecodeWal(file) == header
    {
      hide H.EncodeWal, H.DecodeWal, Chained, EncodeAll, Buffered;
      var h := header.(lastCheckpoint := lsn);
      assert records[..kept] == records;
      HeaderRewritten(file, records, h);
      header := h;
      FlushHeader();
    }

    /** Writes the header in memory to the file. */
    method FlushHeader()
      requires |file| >= H.WAL_HEADER
      modifies this`file
      ensures file == WriteAt(old(file), 0, H.EncodeWal(header))
    {
      file := WriteAt(file, 0, H.EncodeWal(header));
    }

    // -------------------------------------------------------------- reading

    /** The records of the file, first to last: all those that were flushed. */
    method ReadAllRecords() returns (rs: seq<WalRecord>)
      requires Valid()
      ensures rs == records[..kept]
    {
      hide ReadAt, LogFile, Buffered, Chained, StartOf;
      ghost var all := records[..kept];
      FileLength(file, all);
      var offset := H.WAL_HEADER;
      rs := [];
      while offset + RECORD_HEADER <= |file|
        invariant |rs| <= |all| && rs == all[..|rs|] && offset == StartOf(all, |rs|)
        decreases |all| - |rs|
      {
        NextIsRead(file, all, |rs|);
        var read := ReadAt(file, offset);
        if read.None? {
          break;
        }
        rs := rs + [read.value.0];
        offset := read.value.1;
      }
      NoMoreRecords(file, all, |rs|);
    }

    /** The records from the last one back to the first, by the lengths of the predecessors.  It works
        exactly when nothing is buffered: the walk begins at the last record, written or not. */
    method ReadRecordsBackward() returns (r: Result<seq<WalRecord>>)
      requires Valid()
      ensures r.Ok? <==> kept == |records|
      ensures r.Ok? ==> |r.value| == |records| && forall i {:trigger r.value[i]} :: 0 <= i < |records| ==>
        r.value[i] == records[|records| - 1 - i]
    {
      hide ReadAt, LogFile, Buffered, Chained, StartOf, EncodeAll;
      EndOf(records);
      if header.lastLen == 0 {
        LenPositive(records);
        return Ok([]);
      }
      BackwardStart(file, records, kept);
      var rs: seq<WalRecord> := [];
      var offset := header.lastOffset;
      ghost var n := |records|;
      while offset >= H.WAL_HEADER
        invariant 0 < n <= |records| && offset == StartOf(records, n - 1) && offset >= H.WAL_HEADER
        invariant n < |records| ==> kept == |records|
        invariant kept == |records| ==> Reversed(records) == rs + Reversed(records[..n])
        decreases n
      {
        if kept == |records| {
          assert records[..kept] == records;
          ReadsRecord(file, records, n - 1);
          ChainedAt(records, n - 1);
          ReversedStep(records, n);
        }
        var read := ReadAt(file, offset);
        if read.None? {
          return Err("failed to fill whole buffer");
        }
        var prevLen := read.value.0.header.prevLen;
        rs := rs + [read.value.0];
        BackwardStep(records, n);
        if prevLen == 0 {
          break;
        }
        if offset < H.WAL_HEADER + prevLen {
          break;
        }
        offset := offset - prevLen;
        n := n - 1;
      }
      AllReversed(records);
      return Ok(rs);
    }
  }

  /** Opening a log: an empty file gets a header, a whole header is read, a cut one is an error.  A file
      that holds the records `rs` is opened as the log of exactly these. */
  method Open(file: Bytes, max: nat, ghost rs: seq<WalRecord>) returns (r: Result<WalInner>)
    ensures r.Ok? <==> file == [] || |file| >= H.WAL_HEADER
    ensures r.Ok? ==> fresh(r.value) && r.value.maxFrames == max && r.value.buffer == []
    ensures r.Ok? && file == [] ==> r.value.Valid() && r.value.View() == LogView([], 0, 1, 1, 0, map[])
    ensures r.Ok? && file != [] ==> r.value.file == file && r.value.header == H.DecodeWal(file)
    ensures r.Ok? && file != [] && LogFile(file, rs) ==>
      r.value.Valid() && r.value.records == rs && r.value.kept == |rs|
  {
    hide LogFile, LogOk;
    if |file| == 0 {
      var w := new WalInner.Create(max);
      return Ok(w);
    } else if |file| >= H.WAL_HEADER {
      var w := new WalInner.Reopen(file, max, rs);
      return Ok(w);
    } else {
      return Err("wal file exists but header is truncated/corrupt");
    }
  }

  /** Where the log ends: after its last record. */
  lemma EndOf(rs: seq<WalRecord>)
    ensures LastStart(rs) + LenBefore(rs, |rs|) == StartOf(rs, |rs|)
  {
    if rs != [] { StartNext(rs, |rs| - 1); }
  }

  lemma EndsAt(rs: seq<WalRecord>, n: nat)
    requires 0 < n <= |rs|
    ensures LastStart(rs[..n]) == StartOf(rs, n - 1)
      && LenBefore(rs[..n], n) == StartOf(rs, n) - StartOf(rs, n - 1) == rs[n - 1].Len()
  {
    StartNext(rs, n - 1);
    StartOfPrefix(rs, n, n - 1);
  }

  lemma BufferedLength(buffer: Bytes, offsets: seq<(nat, nat)>, rs: seq<WalRecord>, kept: nat, flushedLsn: nat)
    requires Buffered(buffer, offsets, rs, kept, flushedLsn)
    ensures kept <= |rs| && |offsets| == |rs| - kept
  {
  }

  lemma FlushLength(buffer: Bytes, offsets: seq<(nat, nat)>, rs: seq<WalRecord>, kept: nat, n: nat, flushedLsn: nat)
    requires Buffered(buffer, offsets, rs, kept, flushedLsn) && kept < n <= |rs|
    ensures n < |rs| ==> offsets[n - kept].1 + StartOf(rs, kept) == offsets[0].1 + StartOf(rs, n)
    ensures n == |rs| ==> |buffer| == StartOf(rs, n) - StartOf(rs, kept)
  {
    hide EncodeAll, StartOf;
    if n == |rs| {
      MiddleBytes(rs, kept, n);
      assert rs[kept..n] == rs[kept..];
    } else {
      assert Entry(offsets, rs, kept, flushedLsn, n - kept) && Entry(offsets, rs, kept, flushedLsn, 0);
    }
  }

  lemma PayloadLength(undo: Bytes, redo: Bytes)
    ensures |EncodeUpdate(undo, redo)| == |undo| + |redo| + 4
  {
  }

  lemma HeaderRewritten(file: Bytes, rs: seq<WalRecord>, h: H.WalHeader)
    requires LogFile(file, rs) && h.Fits() && h.nextLsn > 0
    requires h.lastOffset == LastStart(rs) && h.lastLen == LenBefore(rs, |rs|)
    requires forall i {:trigger rs[i]} :: 0 <= i < |rs| ==> rs[i].header.lsn < h.nextLsn
    ensures LogFile(WriteAt(file, 0, H.EncodeWal(h)), rs) && H.DecodeWal(WriteAt(file, 0, H.EncodeWal(h))) == h
  {
    hide H.EncodeWal, H.DecodeWal, Chained, EncodeAll;
    var f := WriteAt(file, 0, H.EncodeWal(h));
    assert f == H.EncodeWal(h) + file[H.WAL_HEADER..];
    H.WalRoundTrip(h, file[H.WAL_HEADER..]);
  }

  lemma FileLength(file: Bytes, rs: seq<WalRecord>)
    requires LogFile(file, rs)
    ensures |file| == StartOf(rs, |rs|) && StartOf(rs, 0) == H.WAL_HEADER
  {
    assert rs[..|rs|] == rs && rs[..0] == [];
  }

  lemma NextIsRead(file: Bytes, rs: seq<WalRecord>, n: nat)
    requires LogFile(file, rs) && n <= |rs| && StartOf(rs, n) + RECORD_HEADER <= |file|
    ensures n < |rs| && ReadAt(file, StartOf(rs, n)) == Some((rs[n], StartOf(rs, n + 1)))
    ensures rs[..n + 1] == rs[..n] + [rs[n]]
  {
    hide LogFile, StartOf, ReadAt;
    FileLength(file, rs);
    ReadsRecord(file, rs, n);
  }

  lemma NoMoreRecords(file: Bytes, rs: seq<WalRecord>, n: nat)
    requires LogFile(file, rs) && n <= |rs| && StartOf(rs, n) + RECORD_HEADER > |file|
    ensures n == |rs| && rs[..n] == rs
  {
    hide LogFile, StartOf;
    FileLength(file, rs);
    StartMonotone(rs, n, |rs|);
  }

  lemma LenPositive(rs: seq<WalRecord>)
    requires LenBefore(rs, |rs|) == 0
    ensures rs == []
  {
  }

  /** When records are buffered, the last one lies behind the end of the file. */
  lemma BackwardStart(file: Bytes, rs: seq<WalRecord>, kept: nat)
    requires kept <= |rs| && rs != [] && LogFile(file, rs[..kept])
    ensures kept < |rs| ==> ReadAt(file, StartOf(rs, |rs| - 1)) == None
    ensures rs[..|rs|] == rs && StartOf(rs, |rs| - 1) >= H.WAL_HEADER
  {
    hide EncodeAll, Chained, H.DecodeWal;
    FileLength(file, rs[..kept]);
    assert rs[..kept][..kept] == rs[..kept];
    if kept < |rs| { StartMonotone(rs, kept, |rs| - 1); }
  }

  /** One step back from record `n - 1`. */
  lemma BackwardStep(rs: seq<WalRecord>, n: nat)
    requires 0 < n <= |rs| && Chained(rs)
    ensures rs[n - 1].header.prevLen == 0 <==> n == 1
    ensures n > 1 ==> StartOf(rs, n - 1) == StartOf(rs, n - 2) + rs[n - 1].header.prevLen
    ensures n == 1 ==> Reversed(rs[..n]) == [rs[0]]
    ensures StartOf(rs, n - 1) >= H.WAL_HEADER && (n > 1 ==> StartOf(rs, n - 2) >= H.WAL_HEADER)
  {
    ChainedAt(rs, n - 1);
    if n > 1 {
      StartNext(rs, n - 2);
    } else {
      assert rs[..1] == [rs[0]];
      assert rs[..1][..0] == [];
      assert Reversed([]) == [];
    }
  }
}
