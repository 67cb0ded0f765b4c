/** Log records as bytes. */
module WalRecords {
  import opened Wrappers
  import opened Records
  import opened LittleEndian
  import H = Headers

  const RECORD_HEADER: nat := 36

  datatype RecordType = TBegin | TUpdate | TCommit | TAbort | TClr | TCheckpoint

  function TypeByte(t: RecordType): byte {
    match t
    case TBegin => 1
    case TUpdate => 2
    case TCommit => 3
    case TAbort => 4
    case TClr => 5
    case TCheckpoint => 6
  }

  function TypeFrom(v: byte): Option<RecordType> {
    if v == 1 then Some(TBegin)
    else if v == 2 then Some(TUpdate)
    else if v == 3 then Some(TCommit)
    else if v == 4 then Some(TAbort)
    else if v == 5 then Some(TClr)
    else if v == 6 then Some(TCheckpoint)
    else None
  }

  datatype RecordHeader = RecordHeader(lsn: nat, prevLen: nat, txn: nat, kind: RecordType, isIndex: bool, pageId: nat,
                                       payloadLen: nat, pageOffset: nat)
  {
    predicate Fits() {
      && lsn < U64 && prevLen < U32 && txn < U64 && pageId < U64 && payloadLen < U32 && pageOffset < U16
    }
  }

  datatype WalRecord = WalRecord(header: RecordHeader, payload: Bytes)
  {
    /** The header's fields fit their widths and it states the payload's length. */
    predicate Ok() {
      header.Fits() && header.payloadLen == |payload|
    }

    function Len(): nat {
      RECORD_HEADER + |payload|
    }
  }

  function EncodeHeader(h: RecordHeader): (r: Bytes)
    ensures |r| == RECORD_HEADER
  {
    Encode(h.lsn, 8) + (Encode(h.prevLen, 4) + (Encode(h.txn, 8) + ([TypeByte(h.kind), if h.isIndex then 1 else 0]
      + (Encode(h.pageId, 8) + (Encode(h.payloadLen, 4) + Encode(h.pageOffset, 2))))))
  }

  function DecodeHeader(s: Bytes): Option<RecordHeader>
    requires |s| >= RECORD_HEADER
  {
    match TypeFrom(s[20])
    case None => None
    case Some(t) =>
      Some(RecordHeader(H.Field(s, 0, 8), H.Field(s, 8, 4), H.Field(s, 12, 8), t, s[21] == 1,
                        H.Field(s, 22, 8), H.Field(s, 30, 4), H.Field(s, 34, 2)))
  }

  /** Where the fields lie, and the number of each type of record. */
  lemma HeaderLayout(h: RecordHeader)
    ensures var e := EncodeHeader(h);
            && Lies(e, 0, h.lsn, 8) && Lies(e, 8, h.prevLen, 4) && Lies(e, 12, h.txn, 8)
            && Lies(e, 22, h.pageId, 8) && Lies(e, 30, h.payloadLen, 4) && Lies(e, 34, h.pageOffset, 2)
            && e[21] == (if h.isIndex then 1 else 0)
            && (h.kind == TBegin ==> e[20] == 1) && (h.kind == TUpdate ==> e[20] == 2)
            && (h.kind == TCommit ==> e[20] == 3) && (h.kind == TAbort ==> e[20] == 4)
            && (h.kind == TClr ==> e[20] == 5) && (h.kind == TCheckpoint ==> e[20] == 6)
  {
    hide Encode, Lies;
    var e := EncodeHeader(h);
    HeaderSlices(h);
    EncodingLies(e, 0, h.lsn, 8);
    EncodingLies(e, 8, h.prevLen, 4);
    EncodingLies(e, 12, h.txn, 8);
    EncodingLies(e, 22, h.pageId, 8);
    EncodingLies(e, 30, h.payloadLen, 4);
    EncodingLies(e, 34, h.pageOffset, 2);
  }

  lemma HeaderSlices(h: RecordHeader)
    ensures var e := EncodeHeader(h);
            && e[0..8] == Encode(h.lsn, 8) && e[8..12] == Encode(h.prevLen, 4) && e[12..20] == Encode(h.txn, 8)
            && e[22..30] == Encode(h.pageId, 8) && e[30..34] == Encode(h.payloadLen, 4)
            && e[34..36] == Encode(h.pageOffset, 2)
            && e[20] == TypeByte(h.kind) && e[21] == (if h.isIndex then 1 else 0)
  {
    hide Encode, TypeByte;
  }

  /** A record header within its field widths decodes to itself, whatever follows. */
  lemma HeaderRoundTrip(h: RecordHeader, rest: Bytes)
    requires h.Fits()
    ensures DecodeHeader(EncodeHeader(h) + rest) == Some(h)
  {
    hide H.Field, Encode, TypeByte;
    Widths();
    var g := Encode(h.pageOffset, 2) + rest;
    var f := Encode(h.payloadLen, 4) + g;
    var e := Encode(h.pageId, 8) + f;
    var d := [TypeByte(h.kind), if h.isIndex then 1 else 0] + e;
    var c := Encode(h.txn, 8) + d;
    var b := Encode(h.prevLen, 4) + c;
    var s := Encode(h.lsn, 8) + b;
    HeaderThen(h, rest);
    Drops(s, Encode(h.lsn, 8), b, 0);
    Drops(b, Encode(h.prevLen, 4), c, 0);
    DropDrop(s, 8, 4);
    Drops(c, Encode(h.txn, 8), d, 0);
    DropDrop(s, 12, 8);
    Drops(d, [TypeByte(h.kind), if h.isIndex then 1 else 0], e, 0);
    DropDrop(s, 20, 2);
    Drops(e, Encode(h.pageId, 8), f, 0);
    DropDrop(s, 22, 8);
    Drops(f, Encode(h.payloadLen, 4), g, 0);
    DropDrop(s, 30, 4);
    H.FieldEncoded(h.lsn, 8, b);
    H.FieldEncoded(h.prevLen, 4, c);
    H.FieldEncoded(h.txn, 8, d);
    H.FieldEncoded(h.pageId, 8, f);
    H.FieldEncoded(h.payloadLen, 4, g);
    H.FieldEncoded(h.pageOffset, 2, rest);
    Skip(s, 8, 4);
    Skip(s, 12, 8);
    Skip(s, 22, 8);
    Skip(s, 30, 4);
    Skip(s, 34, 2);
    assert s[20] == d[0] && s[21] == d[1];
    TypeRoundTrip(h.kind);
  }

  lemma TypeRoundTrip(t: RecordType)
    ensures TypeFrom(TypeByte(t)) == Some(t)
  {
  }

  /** The fields of a header one after the other, and what follows. */
  lemma HeaderThen(h: RecordHeader, rest: Bytes)
    ensures EncodeHeader(h) + rest
         == Encode(h.lsn, 8)
           + (Encode(h.prevLen, 4) + (Encode(h.txn, 8) + ([TypeByte(h.kind), if h.isIndex then 1 else 0]
            + (Encode(h.pageId, 8) + (Encode(h.payloadLen, 4) + (Encode(h.pageOffset, 2) + rest))))))
  {
    hide Encode, TypeByte;
    var f, g := Encode(h.payloadLen, 4), Encode(h.pageOffset, 2);
    var e, d := Encode(h.pageId, 8), [TypeByte(h.kind), if h.isIndex then 1 as byte else 0];
    var c, b, a := Encode(h.txn, 8), Encode(h.prevLen, 4), Encode(h.lsn, 8);
    Assoc(f, g, rest);
    Assoc(e, f + g, rest);
    Assoc(d, e + (f + g), rest);
    Assoc(c, d + (e + (f + g)), rest);
    Assoc(b, c + (d + (e + (f + g))), rest);
    Assoc(a, b + (c + (d + (e + (f + g)))), rest);
  }

  lemma Assoc(a: Bytes, b: Bytes, c: Bytes)
    ensures (a + b) + c == a + (b + c)
  {
  }

  lemma Drops(s: Bytes, a: Bytes, b: Bytes, n: nat)
    requires s == a + b
    ensures s[|a|..] == b && (n < |a| ==> s[n] == a[n])
  {
  }

  lemma DropDrop(s: Bytes, m: nat, n: nat)
    requires m + n <= |s|
    ensures s[m..][n..] == s[m + n..]
  {
  }

  /** A field is the first field of what begins there. */
  lemma Skip(s: Bytes, off: nat, w: nat)
    requires off + w <= |s|
    ensures H.Field(s, off, w) == H.Field(s[off..], 0, w)
  {
    assert s[off..off + w] == s[off..][0..w];
  }

  // ---------------------------------------------------------------- records in a file

  function EncodeRecord(r: WalRecord): Bytes {
    EncodeHeader(r.header) + r.payload
  }

  /** Records one after the other. */
  function EncodeAll(rs: seq<WalRecord>): Bytes {
    if rs == [] then [] else EncodeAll(rs[..|rs| - 1]) + EncodeRecord(rs[|rs| - 1])
  }

  lemma {:induction false} EncodeAllSplit(a: seq<WalRecord>, b: seq<WalRecord>)
    ensures EncodeAll(a + b) == EncodeAll(a) + EncodeAll(b)
  {
    hide EncodeRecord;
    if b == [] {
      assert a + b == a;
    } else {
      var n := |b| - 1;
      assert (a + b)[..|a + b| - 1] == a + b[..n];
      EncodeAllSplit(a, b[..n]);
      assert (a + b)[|a + b| - 1] == b[n];
      Assoc(EncodeAll(a), EncodeAll(b[..n]), EncodeRecord(b[n]));
    }
  }

  lemma EncodeAllAdd(rs: seq<WalRecord>, r: WalRecord)
    ensures EncodeAll(rs + [r]) == EncodeAll(rs) + EncodeRecord(r)
    ensures |EncodeAll(rs + [r])| == |EncodeAll(rs)| + r.Len()
  {
    assert (rs + [r])[..|rs + [r]| - 1] == rs;
  }

  /** The record at an offset, and the offset after it. */
  function ReadAt(file: Bytes, off: nat): Option<(WalRecord, nat)> {
    if off + RECORD_HEADER > |file| then None
    else
      var h := DecodeHeader(file[off..off + RECORD_HEADER]);
      if h.None? || off + RECORD_HEADER + h.value.payloadLen > |file| then None
      else Some((WalRecord(h.value, file[off + RECORD_HEADER..off + RECORD_HEADER + h.value.payloadLen]),
                 off + RECORD_HEADER + h.value.payloadLen))
  }

  /** Where a well-formed record was written, it is read. */
  lemma ReadWritten(front: Bytes, r: WalRecord, back: Bytes)
    requires r.Ok()
    ensures ReadAt(front + EncodeRecord(r) + back, |front|) == Some((r, |front| + r.Len()))
  {
    hide EncodeHeader, DecodeHeader;
    var file, off := front + EncodeRecord(r) + back, |front|;
    assert file[off..off + RECORD_HEADER] == EncodeHeader(r.header);
    HeaderRoundTrip(r.header, []);
    assert EncodeHeader(r.header) + [] == EncodeHeader(r.header);
    assert file[off + RECORD_HEADER..off + RECORD_HEADER + |r.payload|] == r.payload;
  }

  // ---------------------------------------------------------------- update and compensation payloads

  function EncodeUpdate(undo: Bytes, redo: Bytes): Bytes {
    Encode(|undo|, 2) + undo + Encode(|redo|, 2) + redo
  }

  /** The undo and redo images of a payload, if its lengths are consistent. */
  function ParseUpdate(payload: Bytes): Option<(Bytes, Bytes)> {
    if |payload| < 4 then None
    else
      var undoLen := Decode(payload[0..2]);
      if |payload| < 4 + undoLen then None
      else
        var redoLen := Decode(payload[2 + undoLen..4 + undoLen]);
        if |payload| < 4 + undoLen + redoLen then None
        else Some((payload[2..2 + undoLen], payload[4 + undoLen..4 + undoLen + redoLen]))
  }

  /** Each image lies behind its length. */
  lemma UpdateLayout(undo: Bytes, redo: Bytes)
    ensures var p := EncodeUpdate(undo, redo);
            && |p| == 4 + |undo| + |redo| && Lies(p, 0, |undo|, 2) && p[2..2 + |undo|] == undo
            && Lies(p, 2 + |undo|, |redo|, 2) && p[4 + |undo|..] == redo
  {
    hide Encode, Lies;
    var p := EncodeUpdate(undo, redo);
    assert p[0..2] == Encode(|undo|, 2) && p[2 + |undo|..4 + |undo|] == Encode(|redo|, 2);
    EncodingLies(p, 0, |undo|, 2);
    EncodingLies(p, 2 + |undo|, |redo|, 2);
  }

  /** Images come back from their payload exactly when both lengths fit 16 bits. */
  lemma UpdateRoundTrip(undo: Bytes, redo: Bytes)
    ensures ParseUpdate(EncodeUpdate(undo, redo)) == Some((undo, redo)) <==> |undo| < U16 && |redo| < U16
  {
    hide Encode, Decode;
    Widths();
    var p := EncodeUpdate(undo, redo);
    assert p[0..2] == Encode(|undo|, 2);
    DecodeEncode(|undo|, 2);
    DecodeEncode(|redo|, 2);
    if |undo| < U16 {
      assert p[2 + |undo|..4 + |undo|] == Encode(|redo|, 2);
      assert p[2..2 + |undo|] == undo;
      if |redo| < U16 {
        assert p[4 + |undo|..4 + |undo| + |redo|] == redo;
      }
    }
  }

  // ---------------------------------------------------------------- checkpoint payloads

  datatype DirtyPageEntry = DirtyPageEntry(isIndex: bool, pageId: nat, recLsn: nat)
  datatype ActiveTxnEntry = ActiveTxnEntry(txn: nat, lastLsn: nat)

  const DPT_ENTRY: nat := 17
  const ATT_ENTRY: nat := 16

  predicate DptFits(dpt: seq<DirtyPageEntry>) {
    |dpt| < U32 && forall i {:trigger dpt[i]} :: 0 <= i < |dpt| ==> dpt[i].pageId < U64 && dpt[i].recLsn < U64
  }

  predicate AttFits(att: seq<ActiveTxnEntry>) {
    |att| < U32 && forall i {:trigger att[i]} :: 0 <= i < |att| ==> att[i].txn < U64 && att[i].lastLsn < U64
  }

  function EncodeDirty(e: DirtyPageEntry): (r: Bytes)
    ensures |r| == DPT_ENTRY
  {
    [if e.isIndex then 1 else 0] + Encode(e.pageId, 8) + Encode(e.recLsn, 8)
  }

  function EncodeActive(e: ActiveTxnEntry): (r: Bytes)
    ensures |r| == ATT_ENTRY
  {
    Encode(e.txn, 8) + Encode(e.lastLsn, 8)
  }

  function EncodeDpt(dpt: seq<DirtyPageEntry>): (r: Bytes)
    ensures |r| == DPT_ENTRY * |dpt|
  {
    if dpt == [] then [] else EncodeDirty(dpt[0]) + EncodeDpt(dpt[1..])
  }

  function EncodeAtt(att: seq<ActiveTxnEntry>): (r: Bytes)
    ensures |r| == ATT_ENTRY * |att|
  {
    if att == [] then [] else EncodeActive(att[0]) + EncodeAtt(att[1..])
  }

  function EncodeCheckpoint(dpt: seq<DirtyPageEntry>, att: seq<ActiveTxnEntry>): Bytes {
    Encode(|dpt|, 4) + EncodeDpt(dpt) + Encode(|att|, 4) + EncodeAtt(att)
  }

  function DirtyAt(s: Bytes, off: nat): DirtyPageEntry
    requires off + DPT_ENTRY <= |s|
  {
    DirtyPageEntry(s[off] == 1, H.Field(s, off + 1, 8), H.Field(s, off + 9, 8))
  }

  function ActiveAt(s: Bytes, off: nat): ActiveTxnEntry
    requires off + ATT_ENTRY <= |s|
  {
    ActiveTxnEntry(H.Field(s, off, 8), H.Field(s, off + 8, 8))
  }

  /** Where the fields of an entry lie. */
  lemma EntryLayout(d: DirtyPageEntry, a: ActiveTxnEntry)
    ensures EncodeDirty(d)[0] == (if d.isIndex then 1 else 0)
    ensures Lies(EncodeDirty(d), 1, d.pageId, 8) && Lies(EncodeDirty(d), 9, d.recLsn, 8)
    ensures Lies(EncodeActive(a), 0, a.txn, 8) && Lies(EncodeActive(a), 8, a.lastLsn, 8)
  {
    hide Encode, Lies;
    assert EncodeDirty(d)[1..9] == Encode(d.pageId, 8) && EncodeDirty(d)[9..17] == Encode(d.recLsn, 8);
    assert EncodeActive(a)[0..8] == Encode(a.txn, 8) && EncodeActive(a)[8..16] == Encode(a.lastLsn, 8);
    EncodingLies(EncodeDirty(d), 1, d.pageId, 8);
    EncodingLies(EncodeDirty(d), 9, d.recLsn, 8);
    EncodingLies(EncodeActive(a), 0, a.txn, 8);
    EncodingLies(EncodeActive(a), 8, a.lastLsn, 8);
  }

  lemma {:induction false} DirtySlice(dpt: seq<DirtyPageEntry>, i: nat)
    requires i < |dpt|
    ensures DPT_ENTRY * (i + 1) <= |EncodeDpt(dpt)|
    ensures EncodeDpt(dpt)[DPT_ENTRY * i..DPT_ENTRY * (i + 1)] == EncodeDirty(dpt[i])
  {
    hide EncodeDirty;
    if i > 0 {
      DirtySlice(dpt[1..], i - 1);
      var x, y := EncodeDirty(dpt[0]), EncodeDpt(dpt[1..]);
      assert (x + y)[DPT_ENTRY * i..DPT_ENTRY * (i + 1)] == y[DPT_ENTRY * (i - 1)..DPT_ENTRY * i];
    }
  }

  lemma {:induction false} ActiveSlice(att: seq<ActiveTxnEntry>, i: nat)
    requires i < |att|
    ensures ATT_ENTRY * (i + 1) <= |EncodeAtt(att)|
    ensures EncodeAtt(att)[ATT_ENTRY * i..ATT_ENTRY * (i + 1)] == EncodeActive(att[i])
  {
    hide EncodeActive;
    if i > 0 {
      ActiveSlice(att[1..], i - 1);
      var x, y := EncodeActive(att[0]), EncodeAtt(att[1..]);
      assert (x + y)[ATT_ENTRY * i..ATT_ENTRY * (i + 1)] == y[ATT_ENTRY * (i - 1)..ATT_ENTRY * i];
    }
  }

  /** The two counters, and the entries behind each. */
  lemma CheckpointLayout(dpt: seq<DirtyPageEntry>, att: seq<ActiveTxnEntry>)
    ensures var p, m := EncodeCheckpoint(dpt, att), 4 + DPT_ENTRY * |dpt|;
            && |p| == m + 4 + ATT_ENTRY * |att| && Lies(p, 0, |dpt|, 4) && Lies(p, m, |att|, 4)
            && (forall i: nat {:trigger dpt[i]} :: i < |dpt| ==>
                  4 + DPT_ENTRY * (i + 1) <= |p|
                  && p[4 + DPT_ENTRY * i..4 + DPT_ENTRY * (i + 1)] == EncodeDirty(dpt[i]))
            && (forall i: nat {:trigger att[i]} :: i < |att| ==>
                  m + 4 + ATT_ENTRY * (i + 1) <= |p|
                  && p[m + 4 + ATT_ENTRY * i..m + 4 + ATT_ENTRY * (i + 1)] == EncodeActive(att[i]))
  {
    hide Encode, Lies, EncodeDpt, EncodeAtt, EncodeDirty, EncodeActive;
    var p, d, a := EncodeCheckpoint(dpt, att), EncodeDpt(dpt), EncodeAtt(att);
    var m := 4 + |d|;
    assert p[0..4] == Encode(|dpt|, 4) && p[m..m + 4] == Encode(|att|, 4);
    assert p[4..m] == d && p[m + 4..] == a;
    EncodingLies(p, 0, |dpt|, 4);
    EncodingLies(p, m, |att|, 4);
    forall i: nat {:trigger dpt[i]} | i < |dpt| ensures 4 + DPT_ENTRY * (i + 1) <= |p|
      && p[4 + DPT_ENTRY * i..4 + DPT_ENTRY * (i + 1)] == EncodeDirty(dpt[i]) {
      DirtySlice(dpt, i);
      SliceOf(p, d, 4, DPT_ENTRY * i, DPT_ENTRY);
    }
    forall i: nat {:trigger att[i]} | i < |att| ensures m + 4 + ATT_ENTRY * (i + 1) <= |p|
      && p[m + 4 + ATT_ENTRY * i..m + 4 + ATT_ENTRY * (i + 1)] == EncodeActive(att[i]) {
      ActiveSlice(att, i);
      SliceOf(p, a, m + 4, ATT_ENTRY * i, ATT_ENTRY);
    }
  }

  lemma SliceOf(p: Bytes, part: Bytes, at: nat, off: nat, w: nat)
    requires at + |part| <= |p| && p[at..at + |part|] == part && off + w <= |part|
    ensures p[at + off..at + off + w] == part[off..off + w]
  {
    assert forall k {:trigger part[k]} :: 0 <= k < |part| ==> part[k] == p[at..at + |part|][k] == p[at + k];
    var x, y := p[at + off..at + off + w], part[off..off + w];
    forall k {:trigger x[k]} | 0 <= k < w ensures x[k] == y[k] {
      assert part[off + k] == p[at + (off + k)];
    }
  }

  lemma DirtyRoundTrip(front: Bytes, e: DirtyPageEntry, back: Bytes)
    requires e.pageId < U64 && e.recLsn < U64
    ensures |front + EncodeDirty(e) + back| >= |front| + DPT_ENTRY
    ensures DirtyAt(front + EncodeDirty(e) + back, |front|) == e
  {
    hide Encode, Decode;
    Widths();
    var s, off := front + EncodeDirty(e) + back, |front|;
    assert s[off] == EncodeDirty(e)[0];
    assert s[off + 1..off + 9] == Encode(e.pageId, 8);
    assert s[off + 9..off + 17] == Encode(e.recLsn, 8);
    DecodeEncode(e.pageId, 8);
    DecodeEncode(e.recLsn, 8);
  }

  lemma ActiveRoundTrip(front: Bytes, e: ActiveTxnEntry, back: Bytes)
    requires e.txn < U64 && e.lastLsn < U64
    ensures |front + EncodeActive(e) + back| >= |front| + ATT_ENTRY
    ensures ActiveAt(front + EncodeActive(e) + back, |front|) == e
  {
    hide Encode, Decode;
    Widths();
    var s, off := front + EncodeActive(e) + back, |front|;
    assert s[off..off + 8] == Encode(e.txn, 8);
    assert s[off + 8..off + 16] == Encode(e.lastLsn, 8);
    DecodeEncode(e.txn, 8);
    DecodeEncode(e.lastLsn, 8);
  }

  lemma Regroup(a: Bytes, b: Bytes, c: Bytes, d: Bytes)
    ensures a + (b + c) + d == a + b + (c + d)
    ensures a + (b + c) + d == (a + b) + c + d
  {
    Assoc(a, b, c);
    Assoc(a + b, c, d);
  }

  /** Entry `i` of a written dirty page table. */
  lemma {:induction false} DptAt(front: Bytes, dpt: seq<DirtyPageEntry>, back: Bytes, i: nat)
    requires i < |dpt| && DptFits(dpt)
    ensures |front + EncodeDpt(dpt) + back| >= |front| + DPT_ENTRY * (i + 1)
    ensures DirtyAt(front + EncodeDpt(dpt) + back, |front| + DPT_ENTRY * i) == dpt[i]
    decreases i
  {
    hide DirtyAt, EncodeDirty;
    var x, y := EncodeDirty(dpt[0]), EncodeDpt(dpt[1..]);
    Regroup(front, x, y, back);
    if i == 0 {
      DirtyRoundTrip(front, dpt[0], y + back);
    } else {
      DptAt(front + x, dpt[1..], back, i - 1);
    }
  }

  lemma {:induction false} AttAt(front: Bytes, att: seq<ActiveTxnEntry>, back: Bytes, i: nat)
    requires i < |att| && AttFits(att)
    ensures |front + EncodeAtt(att) + back| >= |front| + ATT_ENTRY * (i + 1)
    ensures ActiveAt(front + EncodeAtt(att) + back, |front| + ATT_ENTRY * i) == att[i]
    decreases i
  {
    hide ActiveAt, EncodeActive;
    var x, y := EncodeActive(att[0]), EncodeAtt(att[1..]);
    Regroup(front, x, y, back);
    if i == 0 {
      ActiveRoundTrip(front, att[0], y + back);
    } else {
      AttAt(front + x, att[1..], back, i - 1);
    }
  }

  /** The two tables of a payload; a payload that ends too early has none. */
  function CheckpointOf(buf: Bytes): Option<(seq<DirtyPageEntry>, seq<ActiveTxnEntry>)> {
    if |buf| < 4 then None
    else
      var n := Decode(buf[0..4]);
      var o := 4 + DPT_ENTRY * n;
      if o + 4 > |buf| then None
      else
        var m := Decode(buf[o..o + 4]);
        if o + 4 + ATT_ENTRY * m > |buf| then None
        else Some((seq(n, i requires 0 <= i < n => DirtyAt(buf, 4 + DPT_ENTRY * i)),
                   seq(m, i requires 0 <= i < m => ActiveAt(buf, o + 4 + ATT_ENTRY * i))))
  }

  /** Reads the two tables of a checkpoint payload, entry by entry. */
  method ParseCheckpoint(buf: Bytes) returns (r: Option<(seq<DirtyPageEntry>, seq<ActiveTxnEntry>)>)
    ensures r == CheckpointOf(buf)
  {
    hide Decode, DirtyAt, ActiveAt;
    if |buf| < 4 {
      return None;
    }
    var dptLen := Decode(buf[0..4]);
    var offset := 4;
    var dpt := [];
    for i := 0 to dptLen
      invariant offset == 4 + DPT_ENTRY * i <= |buf|
      invariant dpt == seq(i, k requires 0 <= k < i => DirtyAt(buf, 4 + DPT_ENTRY * k))
    {
      if offset + DPT_ENTRY > |buf| {
        return None;
      }
      dpt := dpt + [DirtyAt(buf, offset)];
      offset := offset + DPT_ENTRY;
    }
    if offset + 4 > |buf| {
      return None;
    }
    var attLen := Decode(buf[offset..offset + 4]);
    offset := offset + 4;
    var start := offset;
    var att := [];
    for i := 0 to attLen
      invariant offset == start + ATT_ENTRY * i <= |buf|
      invariant att == seq(i, k requires 0 <= k < i => ActiveAt(buf, start + ATT_ENTRY * k))
    {
      if offset + ATT_ENTRY > |buf| {
        return None;
      }
      att := att + [ActiveAt(buf, offset)];
      offset := offset + ATT_ENTRY;
    }
    return Some((dpt, att));
  }

  /** The tables that were written are read, for any number of entries that fits the counters. */
  lemma CheckpointRoundTrip(dpt: seq<DirtyPageEntry>, att: seq<ActiveTxnEntry>)
    requires DptFits(dpt) && AttFits(att)
    ensures CheckpointOf(EncodeCheckpoint(dpt, att)) == Some((dpt, att))
  {
    hide Encode, Decode, DirtyAt, ActiveAt, EncodeDpt, EncodeAtt;
    Widths();
    var a, b, c, d := Encode(|dpt|, 4), EncodeDpt(dpt), Encode(|att|, 4), EncodeAtt(att);
    var buf, o := EncodeCheckpoint(dpt, att), 4 + DPT_ENTRY * |dpt|;
    assert buf[0..4] == a && buf[o..o + 4] == c;
    DecodeEncode(|dpt|, 4);
    DecodeEncode(|att|, 4);
    assert buf == a + b + (c + d) by { Assoc(a + b, c, d); }
    forall i | 0 <= i < |dpt| ensures 4 + DPT_ENTRY * (i + 1) <= |buf| && DirtyAt(buf, 4 + DPT_ENTRY * i) == dpt[i] {
      DptAt(a, dpt, c + d, i);
    }
    assert buf == (a + b + c) + d + [];
    forall i | 0 <= i < |att| ensures o + 4 + ATT_ENTRY * (i + 1) <= |buf|
      && ActiveAt(buf, o + 4 + ATT_ENTRY * i) == att[i] {
      AttAt(a + b + c, att, [], i);
    }
    assert |buf| == o + 4 + ATT_ENTRY * |att|;
    assert seq(|dpt|, i requires 0 <= i < |dpt| => DirtyAt(buf, 4 + DPT_ENTRY * i)) == dpt;
    assert seq(|att|, i requires 0 <= i < |att| => ActiveAt(buf, o + 4 + ATT_ENTRY * i)) == att;
  }
}
