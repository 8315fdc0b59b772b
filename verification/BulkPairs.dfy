/** Key/data pairs: each key macro is two plain steps, taken both or not at all. */
module BulkPairs {
  import opened Options
  import opened Words
  import opened BulkMacros
  import opened BulkLayout
  import opened BulkLists

  // ---------------------------------------------------------------- writing a pair

  /** After a key's header is in place the next offset is the end of the key. */
  lemma KeyHeader(buf: seq<Byte>, p: int, off: Word, klen: Word, b: seq<Byte>)
    requires WritePointer(buf, p) && |buf| < 0x1_0000_0000 && off + klen <= p - 8
    requires Wrote(buf, p, [off, klen, END], b)
    ensures Load(b, p) == off && Load(b, p - 4) == klen
    ensures NextOffset(b, p - 8) == off + klen
  {
    var ws: seq<Word> := [off, klen, END];
    assert Load(b, p - 4 * 0) == ws[0];
    assert Load(b, p - 4 * 1) == ws[1];
  }

  /** The key's header and then the data's header, over the key's terminator. */
  lemma HeadersJoin(buf: seq<Byte>, p: int, off: Word, klen: Word, off': Word, dlen: Word)
    requires 16 <= p <= |buf| - 4
    ensures StoreDown(StoreDown(buf, p, [off, klen, END]), p - 8, [off', dlen, END])
         == StoreDown(buf, p, [off, klen, off', dlen, END])
  {
    var front: seq<Word>, more: seq<Word> := [off, klen], [off', dlen, END];
    var b := StoreDown(buf, p, [off, klen, END]);
    var r := StoreDown(b, p - 8, more);
    assert [off, klen, END] == front + [END] && [off, klen, off', dlen, END] == front + more;
    StoreDownWrote(buf, p, front + [END]);
    StoreDownWrote(b, p - 8, more);
    StoreDownWrote(buf, p, front + more);
    WroteOn(buf, p, front, END, b, more, r);
    WroteDetermines(buf, p, front + more, r, StoreDown(buf, p, front + more));
  }

  /** In any buffer, well formed or not, the pair form reserves exactly when the key
      and then the data could be reserved one after the other, and then it leaves the
      same bytes, pointer and destinations. */
  lemma KeyReserveIsTwoReserves(buf: seq<Byte>, p: int, klen: nat, dlen: nat)
    requires WritePointer(buf, p) && |buf| < 0x1_0000_0000
    ensures var r := KeyReserveNext(buf, p, klen, dlen);
      var k := ReserveNext(buf, p, klen);
      if k.Slot? && ReserveNext(k.buf, k.pointer, dlen).Slot?
      then var d := ReserveNext(k.buf, k.pointer, dlen);
        r == KeySlot(d.buf, d.pointer, k.dest, d.dest)
      else r == NoKeySlot
  {
    hide Load;
    var off := NextOffset(buf, p);
    ReserveStores(buf, p, klen, off);
    KeyReserveStores(buf, p, klen, dlen, off);
    if off + klen <= p - 8 {
      var b := StoreDown(buf, p, [off, klen, END]);
      StoreDownWrote(buf, p, [off, klen, END]);
      KeyHeader(buf, p, off, klen, b);
      ReserveStores(b, p - 8, dlen, off + klen);
      if off + klen + dlen <= p - 16 {
        HeadersJoin(buf, p, off, klen, off + klen, dlen);
      }
    }
  }

  /** Copying the key in before the data's header is stored makes no difference. */
  lemma KeyCopyCommutes(b: seq<Byte>, p: int, off: Word, key: seq<Byte>, ws: seq<Word>)
    requires 0 <= off + |key| <= p + 4 - 4 * |ws| <= p + 4 <= |b|
    ensures StoreDown(CopyIn(b, off, key), p, ws) == CopyIn(StoreDown(b, p, ws), off, key)
  {
    StoreDownWrote(b, p, ws);
    StoreDownWrote(CopyIn(b, off, key), p, ws);
    CopyWroteCommute(b, off, key, p, ws, StoreDown(b, p, ws));
    WroteDetermines(CopyIn(b, off, key), p, ws, StoreDown(CopyIn(b, off, key), p, ws),
                    CopyIn(StoreDown(b, p, ws), off, key));
  }

  /** The same with the bytes copied in: a pair is written exactly as its key and
      then its data would be. */
  lemma KeyWriteIsTwoWrites(buf: seq<Byte>, p: int, key: seq<Byte>, src: seq<Byte>)
    requires WritePointer(buf, p) && |buf| < 0x1_0000_0000
    ensures var c := KeyWriteNext(buf, p, key, src);
      var k := WriteNext(buf, p, key);
      if k.pointer.At? && WriteNext(k.buf, k.pointer.addr, src).pointer.At?
      then c == WriteNext(k.buf, k.pointer.addr, src)
      else c == Cursor(buf, Null)
  {
    hide Load, StoreDown;
    var klen, dlen := |key|, |src|;
    var off := NextOffset(buf, p);
    ReserveStores(buf, p, klen, off);
    KeyReserveStores(buf, p, klen, dlen, off);
    if off + klen <= p - 8 {
      var b := StoreDown(buf, p, [off, klen, END]);
      StoreDownWrote(buf, p, [off, klen, END]);
      KeyHeader(buf, p, off, klen, b);
      OffsetAfterCopy(b, p - 8, off, key);
      ReserveStores(CopyIn(b, off, key), p - 8, dlen, off + klen);
      if off + klen + dlen <= p - 16 {
        KeyCopyCommutes(b, p - 8, off, key, [off + klen, dlen, END]);
        HeadersJoin(buf, p, off, klen, off + klen, dlen);
      }
    }
  }

  lemma OffsetAfterCopy(b: seq<Byte>, p: int, off: Word, key: seq<Byte>)
    requires WritePointer(b, p) && off + |key| <= p
    ensures NextOffset(CopyIn(b, off, key), p) == NextOffset(b, p)
  {
    if p != Top(b) {
      CopyBelow(b, off, key, p + 4);
      CopyBelow(b, off, key, p + 8);
    }
  }

  /** A pair is accepted exactly when the list with both its key and its data fits;
      refused, nothing changes. */
  lemma PairAppends(buf: seq<Byte>, p: int, items: seq<seq<Byte>>, key: seq<Byte>, src: seq<Byte>)
    requires Encodes(buf, p, items)
    ensures WritePointer(buf, p)
    ensures var c := KeyWriteNext(buf, p, key, src);
      if Size(items + [key, src]) <= |buf|
      then c.pointer.At? && Encodes(c.buf, c.pointer.addr, items + [key, src])
      else c == Cursor(buf, Null)
  {
    hide Load;
    WriteAppends(buf, p, items, key);
    KeyWriteIsTwoWrites(buf, p, key, src);
    HeaderAppend(items, key);
    HeaderAppend(items + [key], src);
    assert items + [key] + [src] == items + [key, src];
    var c := WriteNext(buf, p, key);
    if c.pointer.At? {
      WriteAppends(c.buf, c.pointer.addr, items + [key], src);
    }
  }

  // ---------------------------------------------------------------- lists of pairs

  datatype KeyData = KeyData(key: seq<Byte>, data: seq<Byte>)

  /** A list of pairs as the plain list of its keys and data in turn. */
  function Flatten(pairs: seq<KeyData>): (items: seq<seq<Byte>>)
    ensures |items| == 2 * |pairs|
  {
    if pairs == [] then [] else [pairs[0].key, pairs[0].data] + Flatten(pairs[1..])
  }

  function PairUp(items: seq<seq<Byte>>): (pairs: seq<KeyData>)
    requires |items| % 2 == 0
    ensures 2 * |pairs| == |items|
  {
    if items == [] then [] else [KeyData(items[0], items[1])] + PairUp(items[2..])
  }

  lemma {:induction false} PairUpFlatten(pairs: seq<KeyData>)
    ensures PairUp(Flatten(pairs)) == pairs
  {
    if pairs == [] {
    } else {
      PairUpFlatten(pairs[1..]);
      assert Flatten(pairs)[2..] == Flatten(pairs[1..]);
    }
  }

  /** `DB_MULTIPLE_KEY_NEXT` until the pointer is NULL; `None` if a step would look
      outside the buffer. */
  function ReadPairs(buf: seq<Byte>, p: int): Option<seq<KeyData>>
    decreases p
  {
    if !ReadPointer(buf, p, 4, END) then None else
      match KeyNext(buf, p)
      case NoKeyItem => Some([])
      case KeyItem(key, klen, data, dlen, q) =>
        if !InBuffer(buf, key, klen) || !InBuffer(buf, data, dlen) then None else
          match ReadPairs(buf, q)
          case None => None
          case Some(rest) => Some([KeyData(Bytes(buf, key, klen), Bytes(buf, data, dlen))] + rest)
  }

  /** One key step reads what two plain steps read, except that the plain reader
      turns an empty item at offset 0 into NULL and the key reader does not. */
  lemma KeyNextIsTwoNexts(buf: seq<Byte>, p: int)
    requires ReadPointer(buf, p, 4, END) && Load(buf, p) != END && Load(buf, p - 8) != END
    ensures ReadPointer(buf, p, 2, END) && ReadPointer(buf, p - 8, 2, END)
    ensures var kd, k, d := KeyNext(buf, p), Next(buf, p), Next(buf, p - 8);
      && k.Item? && d.Item? && kd.KeyItem? && k.pointer == p - 8 && kd.pointer == d.pointer
      && kd.klen == k.len && kd.dlen == d.len
      && kd.key == (if k.data == Null then At(0) else k.data)
      && kd.data == (if d.data == Null then At(0) else d.data)
      && (k.data == Null ==> k.len == 0) && (d.data == Null ==> d.len == 0)
  {
  }

  /** The key reader gives a plain list back two by two. It stays in the buffer if
      and only if an even number of items is left: it looks for the terminator only
      in front of a key, so a key without data makes it take the terminator for an
      offset. */
  lemma {:induction false} ReadsPairs(buf: seq<Byte>, p: int, items: seq<seq<Byte>>, k: nat)
    requires Encodes(buf, p, items) && k <= |items|
    ensures var rest := items[k..];
      ReadPairs(buf, Top(buf) - 8 * k) == if |rest| % 2 == 0 then Some(PairUp(rest)) else None
    decreases |items| - k
  {
    hide Load, Layout;
    WordsOf(buf, p, items, k);
    if k + 1 < |items| {
      PairIsItems(buf, p, items, k);
      ReadsPairs(buf, p, items, k + 2);
      assert items[k..][2..] == items[k + 2..];
    } else if k + 1 == |items| {
      LoneKey(buf, p, items);
    } else {
      assert items[k..] == [];
    }
  }

  lemma LoneKey(buf: seq<Byte>, p: int, items: seq<seq<Byte>>)
    requires Encodes(buf, p, items) && items != []
    ensures ReadPairs(buf, p + 8) == None
  {
    hide Load;
    WordsOf(buf, p, items, |items|);
    if ReadPointer(buf, p + 8, 4, END) && Load(buf, p + 8) != END {
      assert KeyNext(buf, p + 8).data == At(END);
    } else {
      WordsOf(buf, p, items, |items| - 1);
    }
  }

  lemma PairIsItems(buf: seq<Byte>, p: int, items: seq<seq<Byte>>, k: nat)
    requires Encodes(buf, p, items) && k + 1 < |items|
    ensures ReadPointer(buf, Top(buf) - 8 * k, 4, END)
    ensures var r := KeyNext(buf, Top(buf) - 8 * k);
      && r.KeyItem? && r.pointer == Top(buf) - 8 * (k + 2)
      && InBuffer(buf, r.key, r.klen) && Bytes(buf, r.key, r.klen) == items[k]
      && InBuffer(buf, r.data, r.dlen) && Bytes(buf, r.data, r.dlen) == items[k + 1]
  {
    hide Load;
    WordsOf(buf, p, items, k);
    WordsOf(buf, p, items, k + 1);
    NextIsItem(buf, p, items, k);
    NextIsItem(buf, p, items, k + 1);
    KeyNextIsTwoNexts(buf, Top(buf) - 8 * k);
  }
}
