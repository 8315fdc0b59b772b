/** Plain and key/data lists: the writers refine a list with a size limit, and the
    readers give that list back. */
module BulkLists {
  import opened Options
  import opened Words
  import opened BulkMacros
  import opened BulkLayout

  // ---------------------------------------------------------------- the encoding

  /** The (offset, length) words of a list, from the top of the buffer downward. */
  function Header(items: seq<seq<Byte>>): (ws: seq<int>)
    ensures |ws| == 2 * |items|
  {
    if items == [] then [] else
      var front := items[..|items| - 1];
      Header(front) + [|Concat(front)|, |items[|items| - 1]|]
  }

  /** The bytes a list takes up: its data, two words per item, and the terminator. */
  function Size(items: seq<seq<Byte>>): nat {
    |Concat(items)| + 8 * |items| + 4
  }

  ghost predicate Encodes(buf: seq<Byte>, p: int, items: seq<seq<Byte>>) {
    && Sized(buf)
    && p == Top(buf) - 8 * |items|
    && Layout(buf, Concat(items), Header(items) + [END])
  }

  lemma {:induction false} HeaderAt(items: seq<seq<Byte>>, k: nat)
    requires k < |items|
    ensures Header(items)[2 * k] == |Concat(items[..k])|
    ensures Header(items)[2 * k + 1] == |items[k]|
  {
    var n := |items| - 1;
    if k < n {
      HeaderAt(items[..n], k);
      assert items[..n][..k] == items[..k];
    }
  }

  /** The header words of item `k`, and of the terminator when `k` is the list's
      length, as a reader finds them. */
  lemma WordsOf(buf: seq<Byte>, p: int, items: seq<seq<Byte>>, k: nat)
    requires Encodes(buf, p, items) && k <= |items|
    ensures 0 <= Top(buf) - 8 * k
    ensures k < |items| ==>
      && 4 <= Top(buf) - 8 * k
      && Load(buf, Top(buf) - 8 * k) == |Concat(items[..k])|
      && Load(buf, Top(buf) - 8 * k - 4) == |items[k]|
      && |Concat(items[..k])| + |items[k]| <= |Concat(items)|
      && |Concat(items[..k])| < |buf|
    ensures k == |items| ==> Load(buf, Top(buf) - 8 * k) == END
  {
    var ws := Header(items) + [END];
    assert Load(buf, Top(buf) - 4 * (2 * k)) == ws[2 * k];
    if k < |items| {
      HeaderAt(items, k);
      ItemAt(items, k);
      assert Load(buf, Top(buf) - 4 * (2 * k + 1)) == ws[2 * k + 1];
    }
  }

  /** Where item `k` and its two header words lie, and that the data region ends
      below the pointer, where the terminator is, and the header region above it. */
  ghost predicate TwoEnded(buf: seq<Byte>, p: int, items: seq<seq<Byte>>, k: nat)
    requires k < |items|
  {
    var off, len := |Concat(items[..k])|, |items[k]|;
    var at := Top(buf) - 8 * k;
    && 0 <= off + len <= |Concat(items)| <= p == Top(buf) - 8 * |items|
    && Load(buf, p) == 0xFFFF_FFFF
    && p < at - 4 < at <= Top(buf)
    && Load(buf, at) == off <= |buf| - 12
    && Load(buf, at - 4) == len
    && buf[off..off + len] == items[k]
  }

  lemma EncodesTwoEnded(buf: seq<Byte>, p: int, items: seq<seq<Byte>>, k: nat)
    requires Encodes(buf, p, items) && k < |items|
    ensures TwoEnded(buf, p, items, k)
  {
    hide Load;
    WordsOf(buf, p, items, k);
    WordsOf(buf, p, items, |items|);
    ItemAt(items, k);
    var off, len := |Concat(items[..k])|, |items[k]|;
    SliceOfPrefix(buf, |Concat(items)|, off, off + len);
  }

  // ---------------------------------------------------------------- one append

  /** The offset a writer computes is the total length so far: the 32-bit sum of the
      two words above the pointer never wraps. */
  lemma OffsetIsTotal(buf: seq<Byte>, p: int, items: seq<seq<Byte>>)
    requires Encodes(buf, p, items)
    ensures WritePointer(buf, p)
    ensures NextOffset(buf, p) == |Concat(items)|
    ensures p != Top(buf) ==> Load(buf, p + 4) + Load(buf, p + 8) < 0x1_0000_0000
  {
    if items != [] {
      var k := |items| - 1;
      WordsOf(buf, p, items, k);
      assert p + 8 == Top(buf) - 8 * k;
      assert Concat(items) == Concat(items[..k]) + items[k];
    }
  }

  lemma HeaderAppend(items: seq<seq<Byte>>, src: seq<Byte>)
    ensures Header(items + [src]) == Header(items) + [|Concat(items)|, |src|]
    ensures Size(items + [src]) == Size(items) + |src| + 8
  {
    assert (items + [src])[..|items|] == items;
    ConcatAppend(items, src);
  }

  lemma SlotAppends(buf: seq<Byte>, p: int, items: seq<seq<Byte>>, src: seq<Byte>, r: seq<Byte>)
    requires Encodes(buf, p, items) && Size(items + [src]) <= |buf|
    requires 8 <= p && Wrote(buf, p, [|Concat(items)|, |src|, END], r)
    ensures Encodes(CopyIn(r, |Concat(items)|, src), p - 8, items + [src])
  {
    hide Load, Layout, Concat;
    HeaderAppend(items, src);
    ConcatAppend(items, src);
    var more: seq<Word> := [|Concat(items)|, |src|, END];
    LayoutGrows(buf, Concat(items), Header(items), END, more, r, src);
    assert Header(items) + more == Header(items + [src]) + [END];
  }

  /** A reserve is accepted exactly when the longer list fits. Once the record is
      copied in, the buffer encodes the longer list; refused, nothing changes. */
  lemma WriteAppends(buf: seq<Byte>, p: int, items: seq<seq<Byte>>, src: seq<Byte>)
    requires Encodes(buf, p, items)
    ensures WritePointer(buf, p)
    ensures var c := WriteNext(buf, p, src);
      if Size(items + [src]) <= |buf|
      then c.pointer.At? && Encodes(c.buf, c.pointer.addr, items + [src])
      else c == Cursor(buf, Null) && ReserveNext(buf, p, |src|) == NoSlot
  {
    hide Load;
    OffsetIsTotal(buf, p, items);
    ReserveStores(buf, p, |src|, |Concat(items)|);
    HeaderAppend(items, src);
    if Size(items + [src]) <= |buf| {
      StoreDownWrote(buf, p, [|Concat(items)|, |src|, END]);
      SlotAppends(buf, p, items, src, StoreDown(buf, p, [|Concat(items)|, |src|, END]));
    }
  }

  /** A reservation that the caller has not filled yet: the new item is whatever
      bytes the gap held, and every earlier item is as before. */
  lemma ReserveAppends(buf: seq<Byte>, p: int, items: seq<seq<Byte>>, len: nat)
    requires Encodes(buf, p, items)
    ensures WritePointer(buf, p)
    ensures ReserveNext(buf, p, len).Slot? <==> Size(items) + len + 8 <= |buf|
    ensures match ReserveNext(buf, p, len)
      case NoSlot => true
      case Slot(b, q, dest) =>
        dest == |Concat(items)| && dest + len <= |buf| && Encodes(b, q, items + [buf[dest..dest + len]])
  {
    hide Load;
    OffsetIsTotal(buf, p, items);
    ReserveStores(buf, p, len, |Concat(items)|);
    if |Concat(items)| + len <= p - 8 {
      GapAppends(buf, p, items, len);
    }
  }

  lemma GapAppends(buf: seq<Byte>, p: int, items: seq<seq<Byte>>, len: Word)
    requires Encodes(buf, p, items) && |Concat(items)| + len <= p - 8
    ensures var off := |Concat(items)|;
      Encodes(StoreDown(buf, p, [off, len, END]), p - 8, items + [buf[off..off + len]])
  {
    hide Load;
    var off := |Concat(items)|;
    var gap, ws: seq<Word> := buf[off..off + len], [off, len, END];
    var r := StoreDown(buf, p, ws);
    HeaderAppend(items, gap);
    StoreDownWrote(buf, p, ws);
    SlotAppends(buf, p, items, gap, r);
    BelowWrote(buf, p, ws, r, off, off + len);
    KeepBytes(r, off, len, gap);
  }

  lemma {:induction false} HeaderReplaced(items: seq<seq<Byte>>, k: nat, src: seq<Byte>)
    requires k < |items| && |src| == |items[k]|
    ensures Header(items[k := src]) == Header(items)
  {
    var n := |items| - 1;
    if k == n {
      assert items[k := src][..n] == items[..n];
    } else {
      assert items[k := src][..n] == items[..n][k := src];
      HeaderReplaced(items[..n], k, src);
      ConcatReplaced(items[..n], k, src);
    }
  }

  /** Filling a reservation, however many appends later, changes that item and no other. */
  lemma FillReplaces(buf: seq<Byte>, p: int, items: seq<seq<Byte>>, k: nat, src: seq<Byte>)
    requires Encodes(buf, p, items) && k < |items| && |src| == |items[k]|
    ensures |Concat(items[..k])| + |src| <= |buf|
    ensures Encodes(CopyIn(buf, |Concat(items[..k])|, src), p, items[k := src])
  {
    hide Load, Layout, Concat, Header;
    ConcatReplaced(items, k, src);
    HeaderReplaced(items, k, src);
    PayloadFits(buf, Concat(items), Header(items) + [END]);
    LayoutOverwritten(buf, Concat(items), Header(items) + [END], |Concat(items[..k])|, src);
  }

  /** Opening a buffer, whatever it held, encodes the empty list. */
  lemma InitEncodes(buf: seq<Byte>)
    requires Sized(buf)
    ensures var c := WriteInit(buf, END); c.pointer.At? && Encodes(c.buf, c.pointer.addr, [])
  {
    StoreLoads(buf, Top(buf), END);
  }

  // ---------------------------------------------------------------- reading

  /** The documented loop, `DB_MULTIPLE_NEXT` until the pointer is NULL; `None` if
      a step would look outside the buffer. */
  function ReadAll(buf: seq<Byte>, p: int): Option<seq<seq<Byte>>>
    decreases p
  {
    if !ReadPointer(buf, p, 2, END) then None else
      match Next(buf, p)
      case NoItem => Some([])
      case Item(data, len, q) =>
        if !InBuffer(buf, data, len) then None else
          match ReadAll(buf, q)
          case None => None
          case Some(rest) => Some([Bytes(buf, data, len)] + rest)
  }

  /** The item a reader is handed. Its data pointer is NULL exactly for an empty
      item at offset 0, so NULL data does not mean the end of the list. */
  lemma NextIsItem(buf: seq<Byte>, p: int, items: seq<seq<Byte>>, k: nat)
    requires Encodes(buf, p, items) && k < |items|
    ensures ReadPointer(buf, Top(buf) - 8 * k, 2, END)
    ensures var r := Next(buf, Top(buf) - 8 * k);
      && r.Item? && r.pointer == Top(buf) - 8 * (k + 1)
      && InBuffer(buf, r.data, r.len) && Bytes(buf, r.data, r.len) == items[k]
      && (r.data == Null <==> items[k] == [] && Concat(items[..k]) == [])
  {
    hide Load;
    WordsOf(buf, p, items, k);
    ItemAt(items, k);
    var off, len := |Concat(items[..k])|, |items[k]|;
    SliceOfPrefix(buf, |Concat(items)|, off, off + len);
  }

  lemma {:induction false} ReadsSuffix(buf: seq<Byte>, p: int, items: seq<seq<Byte>>, k: nat)
    requires Encodes(buf, p, items) && k <= |items|
    ensures ReadAll(buf, Top(buf) - 8 * k) == Some(items[k..])
    decreases |items| - k
  {
    hide Load, Layout, Concat, Header, Next;
    WordsOf(buf, p, items, k);
    if k < |items| {
      var at := Top(buf) - 8 * k;
      NextIsItem(buf, p, items, k);
      ReadsSuffix(buf, p, items, k + 1);
      assert ReadAll(buf, at) == Some([items[k]] + items[k + 1..]);
      assert items[k..] == [items[k]] + items[k + 1..];
    } else {
      EndOfList(buf, p);
      assert items[k..] == [];
    }
  }

  lemma EndOfList(buf: seq<Byte>, p: int)
    requires 0 <= p <= |buf| - 4 && Load(buf, p) == END
    ensures ReadAll(buf, p) == Some([])
  {
  }
}
