/** Whole runs of the plain and key/data writers. A buffer behaves like a list with a
    limit on its encoded size, whatever mixture of plain and key appends a caller makes. */
module BulkRuns {
  import opened Options
  import opened Words
  import opened BulkMacros
  import opened BulkLayout
  import opened BulkLists
  import opened BulkPairs

  // -------------------------------------------------- the buffer machine

  datatype Append = Plain(item: seq<Byte>) | Pair(key: seq<Byte>, data: seq<Byte>)

  datatype Writer = Writer(buf: seq<Byte>, pointer: int)

  ghost predicate Writable(w: Writer) {
    Sized(w.buf) && WritePointer(w.buf, w.pointer)
  }

  function Open(buf: seq<Byte>): (w: Writer)
    requires Sized(buf)
    ensures Writable(w) && |w.buf| == |buf|
  {
    var c := WriteInit(buf, END);
    Writer(c.buf, c.pointer.addr)
  }

  /** A caller that keeps its last good pointer when a macro sets it to NULL. */
  function Step(w: Writer, op: Append): (w': Writer)
    requires Writable(w)
    ensures Writable(w') && |w'.buf| == |w.buf|
  {
    var c := match op
      case Plain(item) => WriteNext(w.buf, w.pointer, item)
      case Pair(key, data) => KeyWriteNext(w.buf, w.pointer, key, data);
    Writer(c.buf, if c.pointer.At? then c.pointer.addr else w.pointer)
  }

  function Run(w: Writer, ops: seq<Append>): (w': Writer)
    requires Writable(w)
    ensures Writable(w')
    decreases |ops|
  {
    if ops == [] then w else Run(Step(w, ops[0]), ops[1..])
  }

  // -------------------------------------------------- the list it refines

  function Items(op: Append): seq<seq<Byte>> {
    match op
    case Plain(item) => [item]
    case Pair(key, data) => [key, data]
  }

  /** Append the whole of `op` if the result fits in `capacity` bytes, else nothing. */
  function Accept(capacity: nat, items: seq<seq<Byte>>, op: Append): seq<seq<Byte>> {
    if Size(items + Items(op)) <= capacity then items + Items(op) else items
  }

  function AcceptAll(capacity: nat, items: seq<seq<Byte>>, ops: seq<Append>): seq<seq<Byte>>
    decreases |ops|
  {
    if ops == [] then items else AcceptAll(capacity, Accept(capacity, items, ops[0]), ops[1..])
  }

  /** One append, accepted or refused, does to the buffer what `Accept` does to the
      list. Refused, it changes no byte and leaves the pointer where it was. */
  lemma StepRefinesAccept(w: Writer, items: seq<seq<Byte>>, op: Append)
    requires Encodes(w.buf, w.pointer, items)
    ensures Writable(w)
    ensures var w' := Step(w, op);
      && Encodes(w'.buf, w'.pointer, Accept(|w.buf|, items, op))
      && (Size(items + Items(op)) > |w.buf| ==> w' == w)
  {
    hide Load;
    match op
    case Plain(item) => WriteAppends(w.buf, w.pointer, items, item);
    case Pair(key, data) => PairAppends(w.buf, w.pointer, items, key, data);
  }

  lemma {:induction false} RunRefinesAcceptAll(w: Writer, items: seq<seq<Byte>>, ops: seq<Append>)
    requires Encodes(w.buf, w.pointer, items)
    ensures Writable(w)
    ensures var w' := Run(w, ops); Encodes(w'.buf, w'.pointer, AcceptAll(|w.buf|, items, ops))
    decreases |ops|
  {
    hide Load;
    OffsetIsTotal(w.buf, w.pointer, items);
    if ops == [] {
    } else {
      StepRefinesAccept(w, items, ops[0]);
      RunRefinesAcceptAll(Step(w, ops[0]), Accept(|w.buf|, items, ops[0]), ops[1..]);
    }
  }

  // -------------------------------------------------- main results

  /** Whatever bytes the buffer held and whatever appends were tried, the plain
      reader gives back exactly the accepted items, in order, and the key reader
      gives them back as pairs if and only if their number is even. */
  lemma {:induction false} ReadersSeeAccepted(buf: seq<Byte>, ops: seq<Append>)
    requires Sized(buf)
    ensures var w, items := Run(Open(buf), ops), AcceptAll(|buf|, [], ops);
      && ReadAll(w.buf, Top(w.buf)) == Some(items)
      && ReadPairs(w.buf, Top(w.buf)) == (if |items| % 2 == 0 then Some(PairUp(items)) else None)
  {
    hide Load;
    InitEncodes(buf);
    RunRefinesAcceptAll(Open(buf), [], ops);
    var w := Run(Open(buf), ops);
    EncodesReads(w.buf, w.pointer, AcceptAll(|buf|, [], ops));
  }

  lemma EncodesReads(buf: seq<Byte>, p: int, items: seq<seq<Byte>>)
    requires Encodes(buf, p, items)
    ensures ReadAll(buf, Top(buf)) == Some(items)
    ensures ReadPairs(buf, Top(buf)) == if |items| % 2 == 0 then Some(PairUp(items)) else None
  {
    hide Load;
    ReadsSuffix(buf, p, items, 0);
    ReadsPairs(buf, p, items, 0);
    assert items[0..] == items;
  }

  /** Later appends only extend the list: what a reader saw before it still sees. */
  lemma {:induction false} AcceptAllExtends(capacity: nat, items: seq<seq<Byte>>, ops: seq<Append>)
    ensures items <= AcceptAll(capacity, items, ops)
    ensures Size(items) <= capacity ==> Size(AcceptAll(capacity, items, ops)) <= capacity
    decreases |ops|
  {
    if ops == [] {
    } else {
      AcceptAllExtends(capacity, Accept(capacity, items, ops[0]), ops[1..]);
    }
  }

  /** In every reachable buffer data and header lie in two disjoint regions, and no
      header word of an item looks like the terminator: an offset is at most
      `ulen - 12`. */
  lemma {:induction false} ReachableLayout(
      buf: seq<Byte>, ops: seq<Append>, w: Writer, items: seq<seq<Byte>>, k: nat)
    requires Sized(buf) && w == Run(Open(buf), ops) && items == AcceptAll(|buf|, [], ops)
    requires k < |items|
    ensures TwoEnded(w.buf, w.pointer, items, k)
  {
    InitEncodes(buf);
    RunRefinesAcceptAll(Open(buf), [], ops);
    EncodesTwoEnded(w.buf, w.pointer, items, k);
  }

  // -------------------------------------------------- batches that stop at NULL

  /** One `DB_MULTIPLE_WRITE_NEXT` per item until one sets the pointer to NULL. */
  function WriteEach(c: Cursor, items: seq<seq<Byte>>): (c': Cursor)
    requires c.pointer.At? ==> WritePointer(c.buf, c.pointer.addr)
    decreases |items|
  {
    if items == [] || c.pointer == Null then c else
      WriteEach(WriteNext(c.buf, c.pointer.addr, items[0]), items[1..])
  }

  /** One `DB_MULTIPLE_KEY_WRITE_NEXT` per pair until one sets the pointer to NULL. */
  function WriteEachPair(c: Cursor, pairs: seq<KeyData>): (c': Cursor)
    requires c.pointer.At? ==> WritePointer(c.buf, c.pointer.addr)
    requires |c.buf| < 0x1_0000_0000
    decreases |pairs|
  {
    if pairs == [] || c.pointer == Null then c else
      WriteEachPair(KeyWriteNext(c.buf, c.pointer.addr, pairs[0].key, pairs[0].data), pairs[1..])
  }

  lemma {:induction false} SizeGrows(items: seq<seq<Byte>>, more: seq<seq<Byte>>)
    ensures Size(items) <= Size(items + more)
    decreases |more|
  {
    if more == [] {
      assert items + more == items;
    } else {
      HeaderAppend(items, more[0]);
      SizeGrows(items + [more[0]], more[1..]);
      assert items + [more[0]] + more[1..] == items + more;
    }
  }

  lemma {:induction false} WriteEachFits(buf: seq<Byte>, p: int, items: seq<seq<Byte>>, more: seq<seq<Byte>>)
    requires Encodes(buf, p, items) && Size(items) <= |buf|
    ensures WritePointer(buf, p)
    ensures var c := WriteEach(Cursor(buf, At(p)), more);
      && (c.pointer.At? <==> Size(items + more) <= |buf|)
      && (c.pointer.At? ==> |c.buf| == |buf| && Encodes(c.buf, c.pointer.addr, items + more))
    decreases |more|
  {
    hide Load, Layout, WriteNext;
    OffsetIsTotal(buf, p, items);
    if more == [] {
      assert items + more == items;
    } else {
      WriteAppends(buf, p, items, more[0]);
      var c, ext := WriteNext(buf, p, more[0]), items + [more[0]];
      assert ext + more[1..] == items + more;
      SizeGrows(ext, more[1..]);
      if c.pointer.At? {
        WriteEachFits(c.buf, c.pointer.addr, ext, more[1..]);
      }
    }
  }

  lemma {:induction false} WriteEachPairFits(buf: seq<Byte>, p: int, items: seq<seq<Byte>>, more: seq<KeyData>)
    requires Encodes(buf, p, items) && Size(items) <= |buf|
    ensures WritePointer(buf, p)
    ensures var c := WriteEachPair(Cursor(buf, At(p)), more);
      && (c.pointer.At? <==> Size(items + Flatten(more)) <= |buf|)
      && (c.pointer.At? ==> |c.buf| == |buf| && Encodes(c.buf, c.pointer.addr, items + Flatten(more)))
    decreases |more|
  {
    hide Load, Layout, KeyWriteNext;
    OffsetIsTotal(buf, p, items);
    if more == [] {
      assert items + Flatten(more) == items;
    } else {
      var kd := more[0];
      PairAppends(buf, p, items, kd.key, kd.data);
      var c, ext := KeyWriteNext(buf, p, kd.key, kd.data), items + [kd.key, kd.data];
      assert ext + Flatten(more[1..]) == items + Flatten(more);
      SizeGrows(ext, Flatten(more[1..]));
      if c.pointer.At? {
        WriteEachPairFits(c.buf, c.pointer.addr, ext, more[1..]);
      }
    }
  }

  /** A batch of items goes through if and only if its data, eight bytes an item and
      the terminator fit in `ulen`, and then the reader returns the batch. */
  lemma {:induction false} PlainRoundTrip(buf: seq<Byte>, items: seq<seq<Byte>>)
    requires Sized(buf)
    ensures var c := WriteEach(WriteInit(buf, END), items);
      && (c.pointer.At? <==> |Concat(items)| + 8 * |items| + 4 <= |buf|)
      && (c.pointer.At? ==> ReadAll(c.buf, Top(c.buf)) == Some(items))
  {
    InitEncodes(buf);
    var c0 := WriteInit(buf, END);
    WriteEachFits(c0.buf, c0.pointer.addr, [], items);
    assert [] + items == items;
    var c := WriteEach(c0, items);
    if c.pointer.At? {
      EncodesReads(c.buf, c.pointer.addr, items);
    }
  }

  lemma PairBatch(buf: seq<Byte>, p: int, pairs: seq<KeyData>)
    requires Encodes(buf, p, [])
    ensures WritePointer(buf, p)
    ensures var c := WriteEachPair(Cursor(buf, At(p)), pairs);
      && (c.pointer.At? <==> Size(Flatten(pairs)) <= |buf|)
      && (c.pointer.At? ==> ReadPairs(c.buf, Top(c.buf)) == Some(pairs))
  {
    hide Load, Layout, WriteEachPair, ReadPairs;
    var items := Flatten(pairs);
    WriteEachPairFits(buf, p, [], pairs);
    assert [] + items == items;
    var c := WriteEachPair(Cursor(buf, At(p)), pairs);
    if c.pointer.At? {
      PairsRead(c.buf, c.pointer.addr, pairs);
    }
  }

  lemma PairsRead(buf: seq<Byte>, p: int, pairs: seq<KeyData>)
    requires Encodes(buf, p, Flatten(pairs))
    ensures ReadPairs(buf, Top(buf)) == Some(pairs)
  {
    hide Load, Encodes, ReadPairs, Flatten, PairUp;
    PairUpFlatten(pairs);
    EncodesReads(buf, p, Flatten(pairs));
  }

  /** The same for pairs, at sixteen header bytes a pair. */
  lemma {:induction false} PairRoundTrip(buf: seq<Byte>, pairs: seq<KeyData>)
    requires Sized(buf)
    ensures var c := WriteEachPair(WriteInit(buf, END), pairs);
      && (c.pointer.At? <==> |Concat(Flatten(pairs))| + 16 * |pairs| + 4 <= |buf|)
      && (c.pointer.At? ==> ReadPairs(c.buf, Top(c.buf)) == Some(pairs))
  {
    hide Load, Layout, WriteEachPair, ReadPairs;
    InitEncodes(buf);
    var c := WriteInit(buf, END);
    PairBatch(c.buf, c.pointer.addr, pairs);
  }

  /** Written by two plain calls instead, a pair whose key fits and whose data does
      not leaves the key behind, and on a list of pairs the key reader then runs past
      the terminator. This happens exactly when the gap holds the one but not both. */
  lemma TwoCallsStrandKey(buf: seq<Byte>, p: int, pairs: seq<KeyData>, key: seq<Byte>, data: seq<Byte>)
    requires Encodes(buf, p, Flatten(pairs))
    ensures WritePointer(buf, p)
    ensures var items, k := Flatten(pairs), WriteNext(buf, p, key);
      var stranded := k.pointer.At? && WriteNext(k.buf, k.pointer.addr, data).pointer == Null;
      && (stranded <==> Size(items) + |key| + 8 <= |buf| < Size(items) + |key| + |data| + 16)
      && (stranded ==> ReadPairs(k.buf, Top(k.buf)) == None && KeyWriteNext(buf, p, key, data) == Cursor(buf, Null))
  {
    hide Load, Layout, WriteNext, KeyWriteNext, ReadPairs;
    OffsetIsTotal(buf, p, Flatten(pairs));
    var items, k := Flatten(pairs), WriteNext(buf, p, key);
    HeaderAppend(items, key);
    HeaderAppend(items + [key], data);
    WriteAppends(buf, p, items, key);
    KeyWriteIsTwoWrites(buf, p, key, data);
    if k.pointer.At? {
      WriteAppends(k.buf, k.pointer.addr, items + [key], data);
      EncodesReads(k.buf, k.pointer.addr, items + [key]);
    }
  }
}
