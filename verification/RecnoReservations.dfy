/** Runs on a record-number list in which a caller also reserves records and fills them
    in place, at once or after later appends. */
module RecnoReservations {
  import opened Options
  import opened Words
  import opened BulkMacros
  import opened BulkLayout
  import opened BulkRecnos
  import opened Reservations = BulkReservations

  // -------------------------------------------------- the buffer machine

  datatype Call =
    | WriteRecord(rec: Record)
    | ReserveRecord(recno: Word, len: nat)
    | FillRecord(k: nat, src: seq<Byte>)

  /** A buffer, the caller's last good pointer, and a handle for each record reserved. */
  datatype RecordHolder = RecordHolder(buf: seq<Byte>, pointer: int, handles: seq<Option<Handle>>)

  function Open(buf: seq<Byte>): RecordHolder
    requires Sized(buf)
  {
    RecordHolder(WriteInit(buf, RECNO_END).buf, Top(buf), [])
  }

  ghost predicate Usable(h: RecordHolder) {
    && WritePointer(h.buf, h.pointer)
    && (forall k | 0 <= k < |h.handles| && h.handles[k].Some? ::
          h.handles[k].value.dest + h.handles[k].value.len <= |h.buf|)
  }

  function Step(h: RecordHolder, call: Call): (h': RecordHolder)
    requires Usable(h)
    ensures Usable(h') && |h'.buf| == |h.buf|
  {
    match call
    case WriteRecord(rec) =>
      var c := RecnoWriteNext(h.buf, h.pointer, rec.recno, rec.data);
      if c.pointer.At? then RecordHolder(c.buf, c.pointer.addr, h.handles + [None]) else h.(buf := c.buf)
    case ReserveRecord(recno, len) =>
      (match RecnoReserveNext(h.buf, h.pointer, recno, len)
       case NoSlot => h
       case Slot(b, q, dest) => RecordHolder(b, q, h.handles + [Some(Handle(dest, len))]))
    case FillRecord(k, src) =>
      if k < |h.handles| && h.handles[k].Some? && h.handles[k].value.len == |src| then
        h.(buf := CopyIn(h.buf, h.handles[k].value.dest, src))
      else
        h
  }

  function Run(h: RecordHolder, calls: seq<Call>): (h': RecordHolder)
    requires Usable(h)
    ensures Usable(h')
    decreases |calls|
  {
    if calls == [] then h else Run(Step(h, calls[0]), calls[1..])
  }

  // -------------------------------------------------- the list it refines

  datatype Numbered = Numbered(recno: Word, entry: Entry)

  function Total(entries: seq<Numbered>): nat {
    if entries == [] then 0 else Total(entries[..|entries| - 1]) + Length(entries[|entries| - 1].entry)
  }

  /** What a call would append. */
  function NumberedBy(call: Call): seq<Numbered> {
    match call
    case WriteRecord(rec) => [Numbered(rec.recno, Written(rec.data))]
    case ReserveRecord(recno, len) => [Numbered(recno, Reserved(len, None))]
    case FillRecord(_, _) => []
  }

  function Accept(capacity: nat, entries: seq<Numbered>, call: Call): seq<Numbered> {
    match call
    case FillRecord(k, src) =>
      if k < |entries| && entries[k].entry.Reserved? && entries[k].entry.len == |src| then
        entries[k := Numbered(entries[k].recno, Reserved(|src|, Some(src)))]
      else
        entries
    case _ =>
      var longer := entries + NumberedBy(call);
      if Total(longer) + 12 * |longer| + 4 <= capacity then longer else entries
  }

  function AcceptAll(capacity: nat, entries: seq<Numbered>, calls: seq<Call>): seq<Numbered>
    decreases |calls|
  {
    if calls == [] then entries else AcceptAll(capacity, Accept(capacity, entries, calls[0]), calls[1..])
  }

  // -------------------------------------------------- what a reader may see

  ghost predicate RecordShows(rec: Record, e: Numbered) {
    rec.recno == e.recno && Shows(rec.data, e.entry)
  }

  ghost predicate RecordsShow(recs: seq<Record>, entries: seq<Numbered>) {
    |recs| == |entries| && forall k | 0 <= k < |recs| :: RecordShows(recs[k], entries[k])
  }

  function HandleOf(recs: seq<Record>, e: Entry): Option<Handle> {
    match e
    case Written(_) => None
    case Reserved(len, _) => Some(Handle(|Payload(recs)|, len))
  }

  ghost predicate Matches(handles: seq<Option<Handle>>, recs: seq<Record>, entries: seq<Numbered>) {
    && RecordsShow(recs, entries)
    && |handles| == |recs|
    && (forall k | 0 <= k < |recs| :: handles[k] == HandleOf(recs[..k], entries[k].entry))
  }

  ghost predicate Holds(h: RecordHolder, recs: seq<Record>, entries: seq<Numbered>) {
    Encodes(h.buf, h.pointer, recs) && Matches(h.handles, recs, entries)
  }

  /** The buffer is one that `entries` may have left. */
  ghost predicate Becomes(h: RecordHolder, entries: seq<Numbered>) {
    exists recs :: Holds(h, recs, entries)
  }

  lemma {:induction false} TotalIsSize(recs: seq<Record>, entries: seq<Numbered>)
    requires RecordsShow(recs, entries)
    ensures Size(recs) == Total(entries) + 12 * |entries| + 4
  {
    if recs == [] {
    } else {
      var n := |recs| - 1;
      assert RecordShows(recs[n], entries[n]);
      TotalIsSize(recs[..n], entries[..n]);
    }
  }

  lemma MatchesLonger(handles: seq<Option<Handle>>, recs: seq<Record>, entries: seq<Numbered>,
                      rec: Record, e: Numbered)
    requires Matches(handles, recs, entries) && RecordShows(rec, e)
    ensures Matches(handles + [HandleOf(recs, e.entry)], recs + [rec], entries + [e])
    ensures Size(recs + [rec]) == Total(entries + [e]) + 12 * |entries + [e]| + 4
  {
    hide Payload, RecordShows, HandleOf, Total, Size;
    var longer := recs + [rec];
    assert longer[..|recs|] == recs;
    assert forall k | 0 <= k < |recs| :: longer[..k] == recs[..k];
    TotalIsSize(longer, entries + [e]);
  }

  lemma MatchesFilled(handles: seq<Option<Handle>>, recs: seq<Record>, entries: seq<Numbered>, k: nat, src: seq<Byte>)
    requires Matches(handles, recs, entries) && k < |recs|
    requires entries[k].entry.Reserved? && entries[k].entry.len == |src|
    ensures Matches(handles, recs[k := recs[k].(data := src)],
                    entries[k := Numbered(entries[k].recno, Reserved(|src|, Some(src)))])
  {
    hide Payload;
    assert RecordShows(recs[k], entries[k]);
    var filled := recs[k := recs[k].(data := src)];
    var entries' := entries[k := Numbered(entries[k].recno, Reserved(|src|, Some(src)))];
    forall j | 0 <= j < |recs| ensures handles[j] == HandleOf(filled[..j], entries'[j].entry) {
      if k < j {
        assert filled[..j] == recs[..j][k := recs[k].(data := src)];
        assert recs[..j][..k] == recs[..k];
        Replaced(recs[..j], k, src);
      } else {
        assert filled[..j] == recs[..j];
      }
    }
  }

  lemma HoldsUsable(h: RecordHolder, recs: seq<Record>, entries: seq<Numbered>)
    requires Holds(h, recs, entries)
    ensures Usable(h)
  {
    hide Load, Layout, Payload, Header;
    OffsetIsTotal(h.buf, h.pointer, recs);
    PayloadFits(h.buf, Payload(recs), Header(recs) + [RECNO_END]);
    forall k | 0 <= k < |h.handles| && h.handles[k].Some?
      ensures h.handles[k].value.dest + h.handles[k].value.len <= |h.buf|
    {
      assert RecordShows(recs[k], entries[k]);
      RecordAt(recs, k);
    }
  }

  // -------------------------------------------------- one call

  lemma WriteHolds(h: RecordHolder, recs: seq<Record>, entries: seq<Numbered>, rec: Record)
    requires Holds(h, recs, entries) && Usable(h)
    ensures Becomes(Step(h, WriteRecord(rec)), Accept(|h.buf|, entries, WriteRecord(rec)))
  {
    hide Load, Layout, Payload, Header, RecnoWriteNext, Total, Size, Matches, Usable;
    var e := Numbered(rec.recno, Written(rec.data));
    WriteAppends(h.buf, h.pointer, recs, rec);
    MatchesLonger(h.handles, recs, entries, rec, e);
    var h' := Step(h, WriteRecord(rec));
    if Size(recs + [rec]) <= |h.buf| {
      assert Holds(h', recs + [rec], entries + [e]);
    } else {
      assert Holds(h', recs, entries);
    }
  }

  lemma ReserveHolds(h: RecordHolder, recs: seq<Record>, entries: seq<Numbered>, recno: Word, len: nat)
    requires Holds(h, recs, entries) && Usable(h)
    ensures Becomes(Step(h, ReserveRecord(recno, len)), Accept(|h.buf|, entries, ReserveRecord(recno, len)))
  {
    hide Load, Layout, Payload, Header, RecnoReserveNext, Total, Size, Matches, Usable;
    var e := Numbered(recno, Reserved(len, None));
    ReserveAppends(h.buf, h.pointer, recs, recno, len);
    var any := Record(recno, Gap(len));
    MatchesLonger(h.handles, recs, entries, any, e);
    Append(recs, any);
    match RecnoReserveNext(h.buf, h.pointer, recno, len)
    case NoSlot => assert Holds(h, recs, entries);
    case Slot(b, q, dest) =>
      var rec := Record(recno, h.buf[dest..dest + len]);
      MatchesLonger(h.handles, recs, entries, rec, e);
      assert Holds(Step(h, ReserveRecord(recno, len)), recs + [rec], entries + [e]);
  }

  lemma FillHolds(h: RecordHolder, recs: seq<Record>, entries: seq<Numbered>, k: nat, src: seq<Byte>)
    requires Holds(h, recs, entries) && Usable(h)
    ensures Becomes(Step(h, FillRecord(k, src)), Accept(|h.buf|, entries, FillRecord(k, src)))
  {
    hide Load, Layout, Payload, Header, Total, Usable, Encodes;
    if k < |entries| {
      assert RecordShows(recs[k], entries[k]);
      assert h.handles[k] == HandleOf(recs[..k], entries[k].entry);
    }
    if k < |entries| && entries[k].entry.Reserved? && entries[k].entry.len == |src| {
      FillReplaces(h.buf, h.pointer, recs, k, src);
      MatchesFilled(h.handles, recs, entries, k, src);
      assert Holds(Step(h, FillRecord(k, src)), recs[k := recs[k].(data := src)],
                   entries[k := Numbered(entries[k].recno, Reserved(|src|, Some(src)))]);
    } else {
      assert Holds(h, recs, entries);
    }
  }

  /** One call does to the buffer what `Accept` does to the list of numbered entries. */
  lemma StepRefinesAccept(h: RecordHolder, entries: seq<Numbered>, call: Call)
    requires Becomes(h, entries)
    ensures Usable(h) && Becomes(Step(h, call), Accept(|h.buf|, entries, call))
  {
    hide Holds, Usable, Step, Accept;
    var recs :| Holds(h, recs, entries);
    HoldsUsable(h, recs, entries);
    match call
    case WriteRecord(rec) => WriteHolds(h, recs, entries, rec);
    case ReserveRecord(recno, len) => ReserveHolds(h, recs, entries, recno, len);
    case FillRecord(k, src) => FillHolds(h, recs, entries, k, src);
  }

  // -------------------------------------------------- whole runs

  lemma {:induction false} RunRefinesAcceptAll(h: RecordHolder, entries: seq<Numbered>, calls: seq<Call>)
    requires Becomes(h, entries)
    ensures Usable(h) && Becomes(Run(h, calls), AcceptAll(|h.buf|, entries, calls))
    decreases |calls|
  {
    hide Becomes, Usable, Step, Accept;
    if calls == [] {
      StepRefinesAccept(h, entries, FillRecord(0, []));
    } else {
      StepRefinesAccept(h, entries, calls[0]);
      RunRefinesAcceptAll(Step(h, calls[0]), Accept(|h.buf|, entries, calls[0]), calls[1..]);
    }
  }

  /** Over any run of writes, reserves and fills the buffer holds one record for each accepted
      entry, each with its number and its bytes as written or last filled, and the reader
      returns them in order up to the first one numbered zero. */
  lemma {:induction false} ReaderSeesNumbered(buf: seq<Byte>, calls: seq<Call>)
    requires Sized(buf)
    ensures Usable(Open(buf))
    ensures var b := Run(Open(buf), calls).buf;
      exists recs :: ReadRecords(b, Top(b)) == Some(UntilZero(recs))
        && RecordsShow(recs, AcceptAll(|buf|, [], calls))
  {
    hide Load, Layout, ReadRecords, Usable;
    InitEncodes(buf);
    var h0 := Open(buf);
    assert Holds(h0, [], []);
    RunRefinesAcceptAll(h0, [], calls);
    var h := Run(h0, calls);
    var recs :| Holds(h, recs, AcceptAll(|buf|, [], calls));
    EncodesReads(h.buf, h.pointer, recs);
    assert ReadRecords(h.buf, Top(h.buf)) == Some(UntilZero(recs));
  }
}
