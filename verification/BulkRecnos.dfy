/** Record-number lists: three header words a record, ended by a zero word. */
module BulkRecnos {
  import opened Options
  import opened Words
  import opened BulkMacros
  import opened BulkLayout

  datatype Record = Record(recno: Word, data: seq<Byte>)

  // ---------------------------------------------------------------- the encoding

  function Payload(recs: seq<Record>): seq<Byte> {
    if recs == [] then [] else Payload(recs[..|recs| - 1]) + recs[|recs| - 1].data
  }

  /** The (recno, offset, length) words of a list, from the top of the buffer downward. */
  function Header(recs: seq<Record>): (ws: seq<int>)
    ensures |ws| == 3 * |recs|
  {
    if recs == [] then [] else
      var front, last := recs[..|recs| - 1], recs[|recs| - 1];
      Header(front) + [last.recno, |Payload(front)|, |last.data|]
  }

  function Size(recs: seq<Record>): nat {
    |Payload(recs)| + 12 * |recs| + 4
  }

  ghost predicate Encodes(buf: seq<Byte>, p: int, recs: seq<Record>) {
    && Sized(buf)
    && p == Top(buf) - 12 * |recs|
    && Layout(buf, Payload(recs), Header(recs) + [RECNO_END])
  }

  lemma {:induction false} RecordAt(recs: seq<Record>, k: nat)
    requires k < |recs|
    ensures Header(recs)[3 * k] == recs[k].recno
    ensures Header(recs)[3 * k + 1] == |Payload(recs[..k])|
    ensures Header(recs)[3 * k + 2] == |recs[k].data|
    ensures var off := |Payload(recs[..k])|;
      off + |recs[k].data| <= |Payload(recs)| && Payload(recs)[off..off + |recs[k].data|] == recs[k].data
  {
    var n := |recs| - 1;
    if k < n {
      RecordAt(recs[..n], k);
      assert recs[..n][..k] == recs[..k];
      var off := |Payload(recs[..k])|;
      SliceOfPrefix(Payload(recs), |Payload(recs[..n])|, off, off + |recs[k].data|);
      assert Payload(recs)[..|Payload(recs[..n])|] == Payload(recs[..n]);
    } else {
      assert recs[..k] == recs[..n];
    }
  }

  lemma WordsOf(buf: seq<Byte>, p: int, recs: seq<Record>, k: nat)
    requires Encodes(buf, p, recs) && k <= |recs|
    ensures 0 <= Top(buf) - 12 * k
    ensures k < |recs| ==>
      && 8 <= Top(buf) - 12 * k
      && Load(buf, Top(buf) - 12 * k) == recs[k].recno
      && Load(buf, Top(buf) - 12 * k - 4) == |Payload(recs[..k])|
      && Load(buf, Top(buf) - 12 * k - 8) == |recs[k].data|
      && |Payload(recs[..k])| + |recs[k].data| <= |Payload(recs)|
      && |Payload(recs[..k])| < |buf|
    ensures k == |recs| ==> Load(buf, Top(buf) - 12 * k) == RECNO_END
  {
    hide Load;
    var ws := Header(recs) + [RECNO_END];
    assert Load(buf, Top(buf) - 4 * (3 * k)) == ws[3 * k];
    if k < |recs| {
      RecordAt(recs, k);
      assert Load(buf, Top(buf) - 4 * (3 * k + 1)) == ws[3 * k + 1];
      assert Load(buf, Top(buf) - 4 * (3 * k + 2)) == ws[3 * k + 2];
    }
  }

  /** Record `k`'s data and its three header words, the data region ending below the
      pointer and the header region above it. */
  ghost predicate TwoEnded(buf: seq<Byte>, p: int, recs: seq<Record>, k: nat)
    requires k < |recs|
  {
    var off, len := |Payload(recs[..k])|, |recs[k].data|;
    var at := Top(buf) - 12 * k;
    && 0 <= off + len <= |Payload(recs)| <= p == Top(buf) - 12 * |recs|
    && Load(buf, p) == 0
    && p < at - 8 < at <= Top(buf)
    && Load(buf, at) == recs[k].recno && Load(buf, at - 4) == off && Load(buf, at - 8) == len
    && buf[off..off + len] == recs[k].data
  }

  lemma EncodesTwoEnded(buf: seq<Byte>, p: int, recs: seq<Record>, k: nat)
    requires Encodes(buf, p, recs) && k < |recs|
    ensures TwoEnded(buf, p, recs, k)
  {
    hide Load;
    WordsOf(buf, p, recs, k);
    WordsOf(buf, p, recs, |recs|);
    RecordAt(recs, k);
    var off := |Payload(recs[..k])|;
    SliceOfPrefix(buf, |Payload(recs)|, off, off + |recs[k].data|);
  }

  // ---------------------------------------------------------------- one append

  lemma OffsetIsTotal(buf: seq<Byte>, p: int, recs: seq<Record>)
    requires Encodes(buf, p, recs)
    ensures WritePointer(buf, p)
    ensures NextOffset(buf, p) == |Payload(recs)|
    ensures p != Top(buf) ==> Load(buf, p + 4) + Load(buf, p + 8) < 0x1_0000_0000
  {
    hide Load;
    if recs != [] {
      var k := |recs| - 1;
      WordsOf(buf, p, recs, k);
      assert p + 12 == Top(buf) - 12 * k;
      assert Payload(recs) == Payload(recs[..k]) + recs[k].data;
    }
  }

  lemma Append(recs: seq<Record>, rec: Record)
    ensures Payload(recs + [rec]) == Payload(recs) + rec.data
    ensures Header(recs + [rec]) == Header(recs) + [rec.recno, |Payload(recs)|, |rec.data|]
    ensures Size(recs + [rec]) == Size(recs) + |rec.data| + 12
  {
    assert (recs + [rec])[..|recs|] == recs;
  }

  lemma ReserveStores(buf: seq<Byte>, p: int, recno: Word, len: nat, off: Word)
    requires WritePointer(buf, p) && |buf| < 0x1_0000_0000 && NextOffset(buf, p) == off
    ensures off + len > p - 12 ==> RecnoReserveNext(buf, p, recno, len) == NoSlot
    ensures off + len <= p - 12 ==>
      && len < 0x1_0000_0000
      && RecnoReserveNext(buf, p, recno, len)
         == Slot(StoreDown(buf, p, [recno, off, len, RECNO_END]), p - 12, off)
  {
    hide Load;
    if off + len <= p - 12 {
      assert Truncate(len) == len;
    }
  }

  lemma SlotAppends(buf: seq<Byte>, p: int, recs: seq<Record>, rec: Record, r: seq<Byte>)
    requires Encodes(buf, p, recs) && Size(recs + [rec]) <= |buf|
    requires 12 <= p && Wrote(buf, p, [rec.recno, |Payload(recs)|, |rec.data|, RECNO_END], r)
    ensures Encodes(CopyIn(r, |Payload(recs)|, rec.data), p - 12, recs + [rec])
  {
    hide Load, Layout, Payload;
    Append(recs, rec);
    var more: seq<Word> := [rec.recno, |Payload(recs)|, |rec.data|, RECNO_END];
    LayoutGrows(buf, Payload(recs), Header(recs), RECNO_END, more, r, rec.data);
    assert Header(recs) + more == Header(recs + [rec]) + [RECNO_END];
  }

  lemma CopyNothing(s: seq<Byte>, at: int)
    requires 0 <= at <= |s|
    ensures CopyIn(s, at, []) == s
  {
  }

  /** A record is accepted exactly when the longer list fits; refused, nothing changes. */
  lemma WriteAppends(buf: seq<Byte>, p: int, recs: seq<Record>, rec: Record)
    requires Encodes(buf, p, recs)
    ensures WritePointer(buf, p)
    ensures var c := RecnoWriteNext(buf, p, rec.recno, rec.data);
      if Size(recs + [rec]) <= |buf|
      then c.pointer.At? && Encodes(c.buf, c.pointer.addr, recs + [rec])
      else c == Cursor(buf, Null)
  {
    hide Load, Layout;
    OffsetIsTotal(buf, p, recs);
    ReserveStores(buf, p, rec.recno, |rec.data|, |Payload(recs)|);
    Append(recs, rec);
    if Size(recs + [rec]) <= |buf| {
      var ws: seq<Word> := [rec.recno, |Payload(recs)|, |rec.data|, RECNO_END];
      StoreDownWrote(buf, p, ws);
      SlotAppends(buf, p, recs, rec, StoreDown(buf, p, ws));
      CopyNothing(StoreDown(buf, p, ws), |Payload(recs)|);
    }
  }

  /** A record reserved and not filled yet: its data is whatever bytes the gap held, and
      every earlier record is as before. */
  lemma ReserveAppends(buf: seq<Byte>, p: int, recs: seq<Record>, recno: Word, len: nat)
    requires Encodes(buf, p, recs)
    ensures WritePointer(buf, p)
    ensures RecnoReserveNext(buf, p, recno, len).Slot? <==> Size(recs) + len + 12 <= |buf|
    ensures match RecnoReserveNext(buf, p, recno, len)
      case NoSlot => true
      case Slot(b, q, dest) =>
        && dest == |Payload(recs)| && dest + len <= |buf|
        && Encodes(b, q, recs + [Record(recno, buf[dest..dest + len])])
  {
    hide Load, Layout;
    OffsetIsTotal(buf, p, recs);
    ReserveStores(buf, p, recno, len, |Payload(recs)|);
    if |Payload(recs)| + len <= p - 12 {
      GapAppends(buf, p, recs, recno, len);
    }
  }

  lemma GapAppends(buf: seq<Byte>, p: int, recs: seq<Record>, recno: Word, len: Word)
    requires Encodes(buf, p, recs) && |Payload(recs)| + len <= p - 12
    ensures var off := |Payload(recs)|;
      Encodes(StoreDown(buf, p, [recno, off, len, RECNO_END]), p - 12,
              recs + [Record(recno, buf[off..off + len])])
  {
    hide Load, Layout;
    var off := |Payload(recs)|;
    var gap, ws: seq<Word> := buf[off..off + len], [recno, off, len, RECNO_END];
    var r := StoreDown(buf, p, ws);
    Append(recs, Record(recno, gap));
    StoreDownWrote(buf, p, ws);
    SlotAppends(buf, p, recs, Record(recno, gap), r);
    BelowWrote(buf, p, ws, r, off, off + len);
    KeepBytes(r, off, len, gap);
  }

  lemma {:induction false} Replaced(recs: seq<Record>, k: nat, src: seq<Byte>)
    requires k < |recs| && |src| == |recs[k].data|
    ensures |Payload(recs[..k])| + |src| <= |Payload(recs)|
    ensures Payload(recs[k := recs[k].(data := src)]) == CopyIn(Payload(recs), |Payload(recs[..k])|, src)
    ensures Header(recs[k := recs[k].(data := src)]) == Header(recs)
  {
    var n := |recs| - 1;
    var recs' := recs[k := recs[k].(data := src)];
    if k == n {
      assert recs'[..n] == recs[..n];
      CopyOfLast(Payload(recs[..n]), recs[n].data, src);
    } else {
      assert recs'[..n] == recs[..n][k := recs[k].(data := src)] && recs[..n][..k] == recs[..k];
      Replaced(recs[..n], k, src);
      CopyOfAppend(Payload(recs[..n]), recs[n].data, |Payload(recs[..k])|, src);
    }
  }

  /** Filling a reserved record, however many appends later, changes its data and nothing else. */
  lemma FillReplaces(buf: seq<Byte>, p: int, recs: seq<Record>, k: nat, src: seq<Byte>)
    requires Encodes(buf, p, recs) && k < |recs| && |src| == |recs[k].data|
    ensures |Payload(recs[..k])| + |src| <= |buf|
    ensures Encodes(CopyIn(buf, |Payload(recs[..k])|, src), p, recs[k := recs[k].(data := src)])
  {
    hide Load, Layout, Payload, Header;
    Replaced(recs, k, src);
    PayloadFits(buf, Payload(recs), Header(recs) + [RECNO_END]);
    LayoutOverwritten(buf, Payload(recs), Header(recs) + [RECNO_END], |Payload(recs[..k])|, src);
  }

  // ---------------------------------------------------------------- reading

  /** `DB_MULTIPLE_RECNO_NEXT` until the pointer is NULL; `None` if a step would look
      outside the buffer. */
  function ReadRecords(buf: seq<Byte>, p: int): Option<seq<Record>>
    decreases p
  {
    if !ReadPointer(buf, p, 3, RECNO_END) then None else
      match RecnoNext(buf, p)
      case NoRecnoItem => Some([])
      case RecnoItem(recno, data, len, q) =>
        if !InBuffer(buf, data, len) then None else
          match ReadRecords(buf, q)
          case None => None
          case Some(rest) => Some([Record(recno, Bytes(buf, data, len))] + rest)
  }

  /** The records in front of the first one whose number is zero. */
  function UntilZero(recs: seq<Record>): seq<Record> {
    if recs == [] || recs[0].recno == 0 then [] else [recs[0]] + UntilZero(recs[1..])
  }

  predicate AllNonzero(recs: seq<Record>) {
    forall k | 0 <= k < |recs| :: recs[k].recno != 0
  }

  lemma {:induction false} UntilZeroIsAll(recs: seq<Record>)
    ensures UntilZero(recs) == recs <==> AllNonzero(recs)
  {
    if recs == [] {
    } else {
      UntilZeroIsAll(recs[1..]);
      assert recs == [recs[0]] + recs[1..];
      if recs[0].recno != 0 {
        assert UntilZero(recs)[1..] == UntilZero(recs[1..]);
      }
    }
  }

  lemma NextIsRecord(buf: seq<Byte>, p: int, recs: seq<Record>, k: nat)
    requires Encodes(buf, p, recs) && k < |recs|
    ensures ReadPointer(buf, Top(buf) - 12 * k, 3, RECNO_END)
    ensures var r := RecnoNext(buf, Top(buf) - 12 * k);
      if recs[k].recno == 0 then r == NoRecnoItem else
        && r.RecnoItem? && r.pointer == Top(buf) - 12 * (k + 1) && r.recno == recs[k].recno
        && InBuffer(buf, r.data, r.len) && Bytes(buf, r.data, r.len) == recs[k].data
  {
    hide Load;
    WordsOf(buf, p, recs, k);
    RecordAt(recs, k);
    var off := |Payload(recs[..k])|;
    SliceOfPrefix(buf, |Payload(recs)|, off, off + |recs[k].data|);
  }

  lemma {:induction false} ReadsSuffix(buf: seq<Byte>, p: int, recs: seq<Record>, k: nat)
    requires Encodes(buf, p, recs) && k <= |recs|
    ensures ReadRecords(buf, Top(buf) - 12 * k) == Some(UntilZero(recs[k..]))
    decreases |recs| - k
  {
    hide Load, Layout;
    WordsOf(buf, p, recs, k);
    if k < |recs| {
      NextIsRecord(buf, p, recs, k);
      ReadsSuffix(buf, p, recs, k + 1);
      assert recs[k..] == [recs[k]] + recs[k + 1..];
    } else {
      assert recs[k..] == [];
    }
  }

  // ---------------------------------------------------------------- whole runs

  /** One `DB_MULTIPLE_RECNO_WRITE_NEXT` per record by a caller that keeps its last
      good pointer when the macro sets it to NULL. */
  function Run(buf: seq<Byte>, p: int, recs: seq<Record>): (c: Cursor)
    requires WritePointer(buf, p)
    ensures |c.buf| == |buf|
    decreases |recs|
  {
    if recs == [] then Cursor(buf, At(p)) else
      var c := RecnoWriteNext(buf, p, recs[0].recno, recs[0].data);
      Run(c.buf, if c.pointer.At? then c.pointer.addr else p, recs[1..])
  }

  /** The list the buffer stands for: append a record if the result fits. */
  function AcceptAll(capacity: nat, recs: seq<Record>, more: seq<Record>): seq<Record>
    decreases |more|
  {
    if more == [] then recs else
      var ext := recs + [more[0]];
      AcceptAll(capacity, if Size(ext) <= capacity then ext else recs, more[1..])
  }

  lemma {:induction false} RunRefinesAcceptAll(buf: seq<Byte>, p: int, recs: seq<Record>, more: seq<Record>)
    requires Encodes(buf, p, recs)
    ensures WritePointer(buf, p)
    ensures var c := Run(buf, p, more);
      c.pointer.At? && Encodes(c.buf, c.pointer.addr, AcceptAll(|buf|, recs, more))
    decreases |more|
  {
    hide Load, Layout, RecnoWriteNext;
    OffsetIsTotal(buf, p, recs);
    if more == [] {
    } else {
      WriteAppends(buf, p, recs, more[0]);
      var c, ext := RecnoWriteNext(buf, p, more[0].recno, more[0].data), recs + [more[0]];
      if Size(ext) <= |buf| {
        RunRefinesAcceptAll(c.buf, c.pointer.addr, ext, more[1..]);
      } else {
        RunRefinesAcceptAll(buf, p, recs, more[1..]);
      }
    }
  }

  lemma InitEncodes(buf: seq<Byte>)
    requires Sized(buf)
    ensures var c := WriteInit(buf, RECNO_END); c.pointer.At? && Encodes(c.buf, c.pointer.addr, [])
  {
    StoreLoads(buf, Top(buf), RECNO_END);
  }

  lemma {:induction false} AllAccepted(capacity: nat, recs: seq<Record>, more: seq<Record>)
    requires Size(recs) <= capacity
    ensures AcceptAll(capacity, recs, more) == recs + more <==> Size(recs + more) <= capacity
    ensures |AcceptAll(capacity, recs, more)| <= |recs| + |more|
    ensures Size(recs) <= Size(recs + more)
    ensures Size(AcceptAll(capacity, recs, more)) <= capacity
    decreases |more|
  {
    if more == [] {
      assert recs + more == recs;
    } else {
      var ext := recs + [more[0]];
      Append(recs, more[0]);
      assert ext + more[1..] == recs + more;
      if Size(ext) <= capacity {
        AllAccepted(capacity, ext, more[1..]);
      } else {
        AllAccepted(Size(ext), ext, more[1..]);
        AllAccepted(capacity, recs, more[1..]);
      }
    }
  }

  /** Whatever the buffer held and whatever records were tried, the reader returns the
      accepted records up to the first one numbered zero. */
  lemma ReaderSeesAccepted(buf: seq<Byte>, recs: seq<Record>)
    requires Sized(buf)
    ensures var c := Run(WriteInit(buf, RECNO_END).buf, Top(buf), recs);
      ReadRecords(c.buf, Top(c.buf)) == Some(UntilZero(AcceptAll(|buf|, [], recs)))
  {
    hide Load, Encodes, ReadRecords, AcceptAll, Run;
    InitEncodes(buf);
    var b, accepted := WriteInit(buf, RECNO_END).buf, AcceptAll(|buf|, [], recs);
    RunRefinesAcceptAll(b, Top(buf), [], recs);
    var c := Run(b, Top(buf), recs);
    EncodesReads(c.buf, c.pointer.addr, accepted);
  }

  lemma EncodesReads(buf: seq<Byte>, p: int, recs: seq<Record>)
    requires Encodes(buf, p, recs)
    ensures ReadRecords(buf, Top(buf)) == Some(UntilZero(recs))
  {
    ReadsSuffix(buf, p, recs, 0);
    assert recs[0..] == recs;
  }

  /** Zero is the terminator and yet accepted as a record number, so a batch comes back
      whole if and only if it fits at twelve header bytes a record and no record in it
      is numbered zero. */
  lemma RecnoRoundTrip(buf: seq<Byte>, recs: seq<Record>)
    requires Sized(buf)
    ensures var c := Run(WriteInit(buf, RECNO_END).buf, Top(buf), recs);
      ReadRecords(c.buf, Top(c.buf)) == Some(recs)
      <==> |Payload(recs)| + 12 * |recs| + 4 <= |buf| && AllNonzero(recs)
  {
    hide Load, Layout, ReadRecords, Run;
    var accepted := AcceptAll(|buf|, [], recs);
    ReaderSeesAccepted(buf, recs);
    AllAccepted(|buf|, [], recs);
    assert [] + recs == recs;
    UntilZeroIsAll(recs);
    UntilZeroIsAll(accepted);
    UntilZeroLength(accepted);
  }

  lemma {:induction false} UntilZeroLength(recs: seq<Record>)
    ensures |UntilZero(recs)| <= |recs|
    ensures |UntilZero(recs)| == |recs| ==> UntilZero(recs) == recs
  {
    if recs == [] {
    } else {
      UntilZeroLength(recs[1..]);
      assert recs == [recs[0]] + recs[1..];
    }
  }
}
