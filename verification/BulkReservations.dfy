/** Runs in which a caller also reserves space and fills it in place, at once or after
    later appends. */
module BulkReservations {
  import opened Options
  import opened Words
  import opened BulkMacros
  import opened BulkLayout
  import opened BulkLists
  import opened BulkPairs
  import Runs = BulkRuns

  // -------------------------------------------------- the buffer machine

  datatype Call =
    | Write(op: Runs.Append)
    | Reserve(len: nat)
    | ReservePair(klen: nat, dlen: nat)
    | Fill(k: nat, src: seq<Byte>)

  /** What a reserve macro gives its caller to fill. */
  datatype Handle = Handle(dest: nat, len: nat)

  /** A writer, and for each accepted item the handle its caller holds, if any. */
  datatype Holder = Holder(w: Runs.Writer, handles: seq<Option<Handle>>)

  ghost predicate Usable(h: Holder) {
    && Runs.Writable(h.w)
    && (forall k | 0 <= k < |h.handles| && h.handles[k].Some? ::
          h.handles[k].value.dest + h.handles[k].value.len <= |h.w.buf|)
  }

  /** A fill copies a whole reservation's worth of bytes to where the reserve said. */
  function Step(h: Holder, call: Call): (h': Holder)
    requires Usable(h)
    ensures Usable(h') && |h'.w.buf| == |h.w.buf|
  {
    match call
    case Write(op) =>
      var w := Runs.Step(h.w, op);
      Holder(w, if w.pointer == h.w.pointer then h.handles else h.handles + Nothing(|Runs.Items(op)|))
    case Reserve(len) =>
      (match ReserveNext(h.w.buf, h.w.pointer, len)
       case NoSlot => h
       case Slot(b, q, dest) => Holder(Runs.Writer(b, q), h.handles + [Some(Handle(dest, len))]))
    case ReservePair(klen, dlen) =>
      (match KeyReserveNext(h.w.buf, h.w.pointer, klen, dlen)
       case NoKeySlot => h
       case KeySlot(b, q, kdest, ddest) =>
         Holder(Runs.Writer(b, q), h.handles + [Some(Handle(kdest, klen)), Some(Handle(ddest, dlen))]))
    case Fill(k, src) =>
      if k < |h.handles| && h.handles[k].Some? && h.handles[k].value.len == |src| then
        h.(w := h.w.(buf := CopyIn(h.w.buf, h.handles[k].value.dest, src)))
      else
        h
  }

  function Nothing(n: nat): (hs: seq<Option<Handle>>)
    ensures |hs| == n && forall k | 0 <= k < n :: hs[k] == None
  {
    if n == 0 then [] else Nothing(n - 1) + [None]
  }

  function Run(h: Holder, calls: seq<Call>): (h': Holder)
    requires Usable(h)
    ensures Usable(h')
    decreases |calls|
  {
    if calls == [] then h else Run(Step(h, calls[0]), calls[1..])
  }

  // -------------------------------------------------- the list it refines

  /** An item as its writer knows it: written, or reserved and perhaps filled since. */
  datatype Entry = Written(bytes: seq<Byte>) | Reserved(len: nat, content: Option<seq<Byte>>)

  function Length(e: Entry): nat {
    match e
    case Written(bytes) => |bytes|
    case Reserved(len, _) => len
  }

  function Total(entries: seq<Entry>): nat {
    if entries == [] then 0 else Total(entries[..|entries| - 1]) + Length(entries[|entries| - 1])
  }

  /** What a call would append. */
  function Added(call: Call): seq<Entry> {
    match call
    case Write(Plain(item)) => [Written(item)]
    case Write(Pair(key, data)) => [Written(key), Written(data)]
    case Reserve(len) => [Reserved(len, None)]
    case ReservePair(klen, dlen) => [Reserved(klen, None), Reserved(dlen, None)]
    case Fill(_, _) => []
  }

  function Accept(capacity: nat, entries: seq<Entry>, call: Call): seq<Entry> {
    match call
    case Fill(k, src) =>
      if k < |entries| && entries[k].Reserved? && entries[k].len == |src| then
        entries[k := Reserved(|src|, Some(src))]
      else
        entries
    case _ =>
      var longer := entries + Added(call);
      if Total(longer) + 8 * |longer| + 4 <= capacity then longer else entries
  }

  function AcceptAll(capacity: nat, entries: seq<Entry>, calls: seq<Call>): seq<Entry>
    decreases |calls|
  {
    if calls == [] then entries else AcceptAll(capacity, Accept(capacity, entries, calls[0]), calls[1..])
  }

  // -------------------------------------------------- what a reader may see

  ghost predicate Shows(item: seq<Byte>, e: Entry) {
    match e
    case Written(bytes) => item == bytes
    case Reserved(len, content) => |item| == len && (content.Some? ==> item == content.value)
  }

  /** Every item is as written or as last filled; a reservation not filled yet shows
      something of its length. */
  ghost predicate AllShow(items: seq<seq<Byte>>, entries: seq<Entry>) {
    |items| == |entries| && forall k | 0 <= k < |items| :: Shows(items[k], entries[k])
  }

  function HandleOf(items: seq<seq<Byte>>, e: Entry): Option<Handle> {
    match e
    case Written(_) => None
    case Reserved(len, _) => Some(Handle(|Concat(items)|, len))
  }

  /** The handles of reservations point at their items. */
  ghost predicate Matches(handles: seq<Option<Handle>>, items: seq<seq<Byte>>, entries: seq<Entry>) {
    && AllShow(items, entries)
    && |handles| == |items|
    && (forall k | 0 <= k < |items| :: handles[k] == HandleOf(items[..k], entries[k]))
  }

  ghost predicate Holds(h: Holder, items: seq<seq<Byte>>, entries: seq<Entry>) {
    Encodes(h.w.buf, h.w.pointer, items) && Matches(h.handles, items, entries)
  }

  lemma {:induction false} TotalIsSize(items: seq<seq<Byte>>, entries: seq<Entry>)
    requires AllShow(items, entries)
    ensures Size(items) == Total(entries) + 8 * |entries| + 4
  {
    if items == [] {
    } else {
      var n := |items| - 1;
      assert Shows(items[n], entries[n]);
      TotalIsSize(items[..n], entries[..n]);
    }
  }

  lemma MatchesLonger(handles: seq<Option<Handle>>, items: seq<seq<Byte>>, entries: seq<Entry>,
                      item: seq<Byte>, e: Entry)
    requires Matches(handles, items, entries) && Shows(item, e)
    ensures Matches(handles + [HandleOf(items, e)], items + [item], entries + [e])
    ensures Size(items + [item]) == Total(entries + [e]) + 8 * |entries + [e]| + 4
  {
    hide Concat, Shows, HandleOf, Total, Size;
    var longer := items + [item];
    assert longer[..|items|] == items;
    assert forall k | 0 <= k < |items| :: longer[..k] == items[..k];
    TotalIsSize(longer, entries + [e]);
  }

  lemma HoldsUsable(h: Holder, items: seq<seq<Byte>>, entries: seq<Entry>)
    requires Holds(h, items, entries)
    ensures Usable(h)
  {
    hide Load, Layout, Concat, Header;
    OffsetIsTotal(h.w.buf, h.w.pointer, items);
    PayloadFits(h.w.buf, Concat(items), Header(items) + [END]);
    forall k | 0 <= k < |h.handles| && h.handles[k].Some?
      ensures h.handles[k].value.dest + h.handles[k].value.len <= |h.w.buf|
    {
      assert Shows(items[k], entries[k]);
      ItemAt(items, k);
    }
  }

  /** The list after a call, when the list before it was `items`. */
  ghost predicate Becomes(h: Holder, entries: seq<Entry>) {
    exists items :: Holds(h, items, entries)
  }

  lemma WriteHolds(h: Holder, items: seq<seq<Byte>>, entries: seq<Entry>, item: seq<Byte>)
    requires Holds(h, items, entries) && Usable(h)
    ensures Becomes(Step(h, Write(Runs.Plain(item))), Accept(|h.w.buf|, entries, Write(Runs.Plain(item))))
  {
    hide Load, Layout, Concat, Header, WriteNext, Total, Size, Matches, Usable;
    WriteAppends(h.w.buf, h.w.pointer, items, item);
    MatchesLonger(h.handles, items, entries, item, Written(item));
    NothingIs();
    var h' := Step(h, Write(Runs.Plain(item)));
    if Size(items + [item]) <= |h.w.buf| {
      assert Holds(h', items + [item], entries + [Written(item)]);
    } else {
      assert Holds(h', items, entries);
    }
  }

  lemma NothingIs()
    ensures Nothing(1) == [None] && Nothing(2) == [None, None]
  {
    assert Nothing(1) == [None];
  }

  lemma PairHolds(h: Holder, items: seq<seq<Byte>>, entries: seq<Entry>, key: seq<Byte>, data: seq<Byte>)
    requires Holds(h, items, entries) && Usable(h)
    ensures Becomes(Step(h, Write(Runs.Pair(key, data))), Accept(|h.w.buf|, entries, Write(Runs.Pair(key, data))))
  {
    hide Load, Layout, Concat, Header, KeyWriteNext, Total, Size, Matches, Usable;
    PairAppends(h.w.buf, h.w.pointer, items, key, data);
    MatchesTwoLonger(h.handles, items, entries, key, Written(key), data, Written(data));
    NothingIs();
    var h' := Step(h, Write(Runs.Pair(key, data)));
    if Size(items + [key, data]) <= |h.w.buf| {
      assert Holds(h', items + [key, data], entries + [Written(key), Written(data)]);
    } else {
      assert Holds(h', items, entries);
    }
  }

  lemma MatchesTwoLonger(handles: seq<Option<Handle>>, items: seq<seq<Byte>>, entries: seq<Entry>,
                         item: seq<Byte>, e: Entry, item': seq<Byte>, e': Entry)
    requires Matches(handles, items, entries) && Shows(item, e) && Shows(item', e')
    ensures Matches(handles + [HandleOf(items, e), HandleOf(items + [item], e')],
                    items + [item, item'], entries + [e, e'])
    ensures Size(items + [item, item']) == Total(entries + [e, e']) + 8 * |entries + [e, e']| + 4
  {
    hide Concat, Shows, HandleOf, Total, Size, Matches;
    MatchesLonger(handles, items, entries, item, e);
    MatchesLonger(handles + [HandleOf(items, e)], items + [item], entries + [e], item', e');
    assert handles + [HandleOf(items, e)] + [HandleOf(items + [item], e')]
        == handles + [HandleOf(items, e), HandleOf(items + [item], e')];
    assert items + [item] + [item'] == items + [item, item'] && entries + [e] + [e'] == entries + [e, e'];
  }

  lemma ReserveHolds(h: Holder, items: seq<seq<Byte>>, entries: seq<Entry>, len: nat)
    requires Holds(h, items, entries) && Usable(h)
    ensures Becomes(Step(h, Reserve(len)), Accept(|h.w.buf|, entries, Reserve(len)))
  {
    hide Load, Layout, Concat, Header, ReserveNext, Total, Matches, Usable;
    ReserveAppends(h.w.buf, h.w.pointer, items, len);
    MatchesLonger(h.handles, items, entries, Gap(len), Reserved(len, None));
    HeaderAppend(items, Gap(len));
    match ReserveNext(h.w.buf, h.w.pointer, len)
    case NoSlot => assert Holds(h, items, entries);
    case Slot(b, q, dest) =>
      var gap := h.w.buf[dest..dest + len];
      MatchesLonger(h.handles, items, entries, gap, Reserved(len, None));
      assert Holds(Step(h, Reserve(len)), items + [gap], entries + [Reserved(len, None)]);
  }

  /** Some bytes of a given length. */
  function Gap(len: nat): (b: seq<Byte>)
    ensures |b| == len
  {
    if len == 0 then [] else Gap(len - 1) + [0]
  }

  lemma PairReserveAppends(buf: seq<Byte>, p: int, items: seq<seq<Byte>>, klen: nat, dlen: nat)
    requires Encodes(buf, p, items)
    ensures WritePointer(buf, p)
    ensures KeyReserveNext(buf, p, klen, dlen).KeySlot? <==> Size(items) + klen + dlen + 16 <= |buf|
    ensures match KeyReserveNext(buf, p, klen, dlen)
      case NoKeySlot => true
      case KeySlot(b, q, kdest, ddest) =>
        exists key, data :: |key| == klen && |data| == dlen && Encodes(b, q, items + [key, data])
          && kdest == |Concat(items)| && ddest == |Concat(items + [key])|
  {
    hide Load, Layout, Concat, Header, ReserveNext, KeyReserveNext, Size;
    ReserveAppends(buf, p, items, klen);
    KeyReserveIsTwoReserves(buf, p, klen, dlen);
    var k := ReserveNext(buf, p, klen);
    if k.Slot? {
      var key := buf[k.dest..k.dest + klen];
      HeaderAppend(items, key);
      ReserveAppends(k.buf, k.pointer, items + [key], dlen);
      var d := ReserveNext(k.buf, k.pointer, dlen);
      if d.Slot? {
        var data := k.buf[d.dest..d.dest + dlen];
        assert items + [key] + [data] == items + [key, data];
        assert Encodes(d.buf, d.pointer, items + [key, data]);
      }
    }
  }

  lemma PairReserveHolds(h: Holder, items: seq<seq<Byte>>, entries: seq<Entry>, klen: nat, dlen: nat)
    requires Holds(h, items, entries) && Usable(h)
    ensures Becomes(Step(h, ReservePair(klen, dlen)), Accept(|h.w.buf|, entries, ReservePair(klen, dlen)))
  {
    hide Load, Layout, Concat, Header, KeyReserveNext, Total, Matches, Usable, Size;
    var ke, de := Reserved(klen, None), Reserved(dlen, None);
    PairReserveAppends(h.w.buf, h.w.pointer, items, klen, dlen);
    MatchesTwoLonger(h.handles, items, entries, Gap(klen), ke, Gap(dlen), de);
    HeaderAppend(items, Gap(klen));
    HeaderAppend(items + [Gap(klen)], Gap(dlen));
    assert items + [Gap(klen)] + [Gap(dlen)] == items + [Gap(klen), Gap(dlen)];
    match KeyReserveNext(h.w.buf, h.w.pointer, klen, dlen)
    case NoKeySlot => assert Holds(h, items, entries);
    case KeySlot(b, q, kdest, ddest) =>
      var key, data :| |key| == klen && |data| == dlen && Encodes(b, q, items + [key, data])
        && kdest == |Concat(items)| && ddest == |Concat(items + [key])|;
      MatchesTwoLonger(h.handles, items, entries, key, ke, data, de);
      assert Holds(Step(h, ReservePair(klen, dlen)), items + [key, data], entries + [ke, de]);
  }

  lemma FillHolds(h: Holder, items: seq<seq<Byte>>, entries: seq<Entry>, k: nat, src: seq<Byte>)
    requires Holds(h, items, entries) && Usable(h)
    ensures Becomes(Step(h, Fill(k, src)), Accept(|h.w.buf|, entries, Fill(k, src)))
  {
    hide Load, Layout, Concat, Header, Total, Usable, Encodes;
    if k < |entries| {
      assert Shows(items[k], entries[k]);
      assert h.handles[k] == HandleOf(items[..k], entries[k]);
    }
    if k < |entries| && entries[k].Reserved? && entries[k].len == |src| {
      FillReplaces(h.w.buf, h.w.pointer, items, k, src);
      MatchesFilled(h.handles, items, entries, k, src);
      assert Holds(Step(h, Fill(k, src)), items[k := src], entries[k := Reserved(|src|, Some(src))]);
    } else {
      assert Holds(h, items, entries);
    }
  }

  lemma MatchesFilled(handles: seq<Option<Handle>>, items: seq<seq<Byte>>, entries: seq<Entry>, k: nat, src: seq<Byte>)
    requires Matches(handles, items, entries) && k < |items|
    requires entries[k].Reserved? && entries[k].len == |src|
    ensures Matches(handles, items[k := src], entries[k := Reserved(|src|, Some(src))])
  {
    hide Concat;
    assert Shows(items[k], entries[k]);
    var filled, entries' := items[k := src], entries[k := Reserved(|src|, Some(src))];
    forall j | 0 <= j < |items| ensures handles[j] == HandleOf(filled[..j], entries'[j]) {
      if k < j {
        assert filled[..j] == items[..j][k := src];
        assert items[..j][..k] == items[..k];
        ConcatReplaced(items[..j], k, src);
      } else {
        assert filled[..j] == items[..j];
      }
    }
  }

  /** One call does to the buffer what `Accept` does to the list of entries. */
  lemma StepRefinesAccept(h: Holder, entries: seq<Entry>, call: Call)
    requires Becomes(h, entries)
    ensures Usable(h) && Becomes(Step(h, call), Accept(|h.w.buf|, entries, call))
  {
    hide Holds, Usable, Step, Accept;
    var items :| Holds(h, items, entries);
    HoldsUsable(h, items, entries);
    match call
    case Write(Plain(item)) => WriteHolds(h, items, entries, item);
    case Write(Pair(key, data)) => PairHolds(h, items, entries, key, data);
    case Reserve(len) => ReserveHolds(h, items, entries, len);
    case ReservePair(klen, dlen) => PairReserveHolds(h, items, entries, klen, dlen);
    case Fill(k, src) => FillHolds(h, items, entries, k, src);
  }

  lemma {:induction false} RunRefinesAcceptAll(h: Holder, entries: seq<Entry>, calls: seq<Call>)
    requires Becomes(h, entries)
    ensures Usable(h) && Becomes(Run(h, calls), AcceptAll(|h.w.buf|, entries, calls))
    decreases |calls|
  {
    hide Becomes, Usable, Step, Accept;
    if calls == [] {
      StepRefinesAccept(h, entries, Fill(0, []));
    } else {
      StepRefinesAccept(h, entries, calls[0]);
      RunRefinesAcceptAll(Step(h, calls[0]), Accept(|h.w.buf|, entries, calls[0]), calls[1..]);
    }
  }

  /** Over any run of writes, reserves and fills, in any order, the readers return one item
      for each accepted entry, in order: what was written, what the reservation was last
      filled with, or, before that, something of the reserved length. The key reader returns
      them two by two, or leaves the buffer if their number is odd. */
  lemma {:induction false} ReadersSeeEntries(buf: seq<Byte>, calls: seq<Call>)
    requires Sized(buf)
    ensures Usable(Holder(Runs.Open(buf), []))
    ensures var b := Run(Holder(Runs.Open(buf), []), calls).w.buf;
      exists items ::
        && AllShow(items, AcceptAll(|buf|, [], calls))
        && ReadAll(b, Top(b)) == Some(items)
        && ReadPairs(b, Top(b)) == if |items| % 2 == 0 then Some(PairUp(items)) else None
  {
    hide Load, Layout, ReadAll, ReadPairs, Usable;
    InitEncodes(buf);
    var h0 := Holder(Runs.Open(buf), []);
    assert Holds(h0, [], []);
    RunRefinesAcceptAll(h0, [], calls);
    var h := Run(h0, calls);
    var items :| Holds(h, items, AcceptAll(|buf|, [], calls));
    Runs.EncodesReads(h.w.buf, h.w.pointer, items);
    assert AllShow(items, AcceptAll(|buf|, [], calls)) && ReadAll(h.w.buf, Top(h.w.buf)) == Some(items);
  }
}
