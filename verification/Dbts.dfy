/** The bulk macros as operations on a `DBT`: words and record bytes are stored in
    place in `dbt->data`, and the caller's `pointer` goes in and comes back. */
module Dbts {
  import opened Words
  import opened BulkMacros
  import opened Options
  import BulkLists
  import BulkPairs
  import BulkRecnos
  import BulkRuns

  /** Internal flag, set by the two write inits. */
  const DB_DBT_BULK: bv32 := 0x0002

  class Dbt {
    /** `dbt->data`; its length is `dbt->ulen`. */
    const data: array<Byte>
    var flags: bv32

    constructor (data: array<Byte>, flags: bv32)
      ensures this.data == data && this.flags == flags
    {
      this.data, this.flags := data, flags;
    }

    // -------------------------------------------------- words and bytes in place

    method LoadWord(at: int) returns (w: Word)
      requires 0 <= at <= data.Length - 4
      ensures w == Load(data[..], at)
    {
      var s := data[..];
      ghost var hi := at + 4;
      assert LoadBytes(s, at + 3, hi) == s[at + 3];
      assert LoadBytes(s, at + 2, hi) == s[at + 2] + 0x100 * LoadBytes(s, at + 3, hi);
      assert LoadBytes(s, at + 1, hi) == s[at + 1] + 0x100 * LoadBytes(s, at + 2, hi);
      var b0: int, b1: int, b2: int, b3: int := data[at], data[at + 1], data[at + 2], data[at + 3];
      w := b0 + 0x100 * (b1 + 0x100 * (b2 + 0x100 * b3));
    }

    method StoreWord(at: int, w: Word)
      requires 0 <= at <= data.Length - 4
      modifies data
      ensures data[..] == Store(old(data[..]), at, w)
    {
      var rest: nat := w;
      for i := 0 to 4
        invariant StoreBytes(data[..], at + i, at + 4, rest) == Store(old(data[..]), at, w)
      {
        ghost var s := data[..];
        var b: Byte := rest % 0x100;
        data[at + i] := b;
        assert data[..] == s[at + i := b];
        rest := rest / 0x100;
      }
    }

    /** `memcpy(data + at, src, |src|)`. */
    method CopyBytes(at: int, src: seq<Byte>)
      requires 0 <= at && at + |src| <= data.Length
      modifies data
      ensures data[..] == CopyIn(old(data[..]), at, src)
    {
      forall i | 0 <= i < |src| {
        data[at + i] := src[i];
      }
      assert data[..] == CopyIn(old(data[..]), at, src);
    }

    /** The `__off` that every writer computes first. */
    method Offset(p: int) returns (off: Word)
      requires WritePointer(data[..], p)
      ensures off == NextOffset(data[..], p)
    {
      if p == data.Length - 4 {
        off := 0;
      } else {
        var w1 := LoadWord(p + 4);
        var w2 := LoadWord(p + 8);
        off := AddWords(w1, w2);
      }
    }

    // -------------------------------------------------- plain

    /** `DB_MULTIPLE_WRITE_INIT`, and with terminator 0 `DB_MULTIPLE_RECNO_WRITE_INIT`. */
    method WriteInit(terminator: Word) returns (pointer: Ptr)
      requires Sized(data[..])
      modifies this`flags, data
      ensures flags == old(flags) | 0x0002
      ensures Cursor(data[..], pointer) == BulkMacros.WriteInit(old(data[..]), terminator)
    {
      flags := flags | DB_DBT_BULK;
      pointer := At(data.Length - 4);
      StoreWord(data.Length - 4, terminator);
    }

    method ReserveNext(pointer: Ptr, len: nat) returns (next: Ptr, dest: Ptr)
      requires pointer.At? && WritePointer(data[..], pointer.addr)
      modifies data
      ensures match BulkMacros.ReserveNext(old(data[..]), pointer.addr, len)
        case NoSlot => data[..] == old(data[..]) && next == pointer && dest == Null
        case Slot(b, q, d) => data[..] == b && next == At(q) && dest == At(d)
    {
      hide Store, Load;
      ghost var s := data[..];
      var p := pointer.addr;
      var off := Offset(p);
      if off + len > p - 8 {
        next, dest := pointer, Null;
      } else {
        dest := At(off);
        StoreWord(p, off);
        StoreWord(p - 4, Truncate(len));
        StoreWord(p - 8, END);
        next := At(p - 8);
        Stored3(s, p, off, Truncate(len), END);
      }
    }

    method WriteNext(pointer: Ptr, src: seq<Byte>) returns (next: Ptr)
      requires pointer.At? && WritePointer(data[..], pointer.addr)
      modifies data
      ensures Cursor(data[..], next) == BulkMacros.WriteNext(old(data[..]), pointer.addr, src)
    {
      hide StoreDown, Load;
      var dest;
      next, dest := ReserveNext(pointer, |src|);
      if dest == Null {
        next := Null;
      } else {
        CopyBytes(dest.addr, src);
      }
    }

    /** `DB_MULTIPLE_INIT`: where every reader starts. From there each of the three sees
        the whole of any list the buffer holds, record numbers up to the first zero. */
    method Init() returns (pointer: Ptr)
      requires 4 <= data.Length
      ensures pointer == At(Top(data[..]))
      ensures forall p, items | BulkLists.Encodes(data[..], p, items) ::
        && BulkLists.ReadAll(data[..], pointer.addr) == Some(items)
        && (|items| % 2 == 0 ==> BulkPairs.ReadPairs(data[..], pointer.addr) == Some(BulkPairs.PairUp(items)))
      ensures forall p, recs | BulkRecnos.Encodes(data[..], p, recs) ::
        BulkRecnos.ReadRecords(data[..], pointer.addr) == Some(BulkRecnos.UntilZero(recs))
    {
      hide BulkLists.Encodes, BulkLists.ReadAll, BulkPairs.ReadPairs, BulkRecnos.Encodes, BulkRecnos.ReadRecords;
      pointer := At(data.Length - 4);
      forall p, items | BulkLists.Encodes(data[..], p, items)
        ensures BulkLists.ReadAll(data[..], pointer.addr) == Some(items)
        ensures |items| % 2 == 0 ==> BulkPairs.ReadPairs(data[..], pointer.addr) == Some(BulkPairs.PairUp(items))
      {
        BulkRuns.EncodesReads(data[..], p, items);
      }
      forall p, recs | BulkRecnos.Encodes(data[..], p, recs)
        ensures BulkRecnos.ReadRecords(data[..], pointer.addr) == Some(BulkRecnos.UntilZero(recs))
      {
        BulkRecnos.EncodesReads(data[..], p, recs);
      }
    }

    /** `DB_MULTIPLE_NEXT`; at the end of the list it does not assign the length. */
    method Next(pointer: Ptr, retlen: Word) returns (next: Ptr, retdata: Ptr, retlen': Word)
      requires pointer.At? && ReadPointer(data[..], pointer.addr, 2, END)
      ensures match BulkMacros.Next(data[..], pointer.addr)
        case NoItem => next == Null && retdata == Null && retlen' == retlen
        case Item(d, len, q) => next == At(q) && retdata == d && retlen' == len
    {
      hide Load;
      var p := pointer.addr;
      var w := LoadWord(p);
      if w == END {
        return Null, Null, retlen;
      }
      retdata := At(w);
      retlen' := LoadWord(p - 4);
      next := At(p - 8);
      if retlen' == 0 && retdata == At(0) {
        retdata := Null;
      }
    }

    // -------------------------------------------------- key/data pairs

    method KeyReserveNext(pointer: Ptr, klen: nat, dlen: nat) returns (next: Ptr, keyDest: Ptr, dataDest: Ptr)
      requires pointer.At? && WritePointer(data[..], pointer.addr)
      modifies data
      ensures match BulkMacros.KeyReserveNext(old(data[..]), pointer.addr, klen, dlen)
        case NoKeySlot => data[..] == old(data[..]) && next == pointer && keyDest == Null && dataDest == Null
        case KeySlot(b, q, k, d) => data[..] == b && next == At(q) && keyDest == At(k) && dataDest == At(d)
    {
      hide Store, Load;
      ghost var s := data[..];
      var p := pointer.addr;
      var off := Offset(p);
      if off + klen + dlen > p - 16 {
        next, keyDest, dataDest := pointer, Null, Null;
      } else {
        keyDest := At(off);
        StoreWord(p, off);
        StoreWord(p - 4, Truncate(klen));
        ghost var off0 := off;
        off := AddWords(off, Truncate(klen));
        dataDest := At(off);
        StoreWord(p - 8, off);
        StoreWord(p - 12, Truncate(dlen));
        StoreWord(p - 16, END);
        next := At(p - 16);
        Stored5(s, p, off0, Truncate(klen), off, Truncate(dlen), END);
      }
    }

    method KeyWriteNext(pointer: Ptr, key: seq<Byte>, src: seq<Byte>) returns (next: Ptr)
      requires pointer.At? && WritePointer(data[..], pointer.addr) && data.Length < 0x1_0000_0000
      modifies data
      ensures Cursor(data[..], next) == BulkMacros.KeyWriteNext(old(data[..]), pointer.addr, key, src)
    {
      hide StoreDown, Load;
      var keyDest, dataDest;
      next, keyDest, dataDest := KeyReserveNext(pointer, |key|, |src|);
      if keyDest == Null {
        next := Null;
      } else {
        CopyBytes(keyDest.addr, key);
        if dataDest != Null {
          CopyBytes(dataDest.addr, src);
        }
      }
    }

    /** `DB_MULTIPLE_KEY_NEXT`; at the end of the list it does not assign the lengths. */
    method KeyNext(pointer: Ptr, klen: Word, dlen: Word)
      returns (next: Ptr, retkey: Ptr, klen': Word, retdata: Ptr, dlen': Word)
      requires pointer.At? && ReadPointer(data[..], pointer.addr, 4, END)
      ensures match BulkMacros.KeyNext(data[..], pointer.addr)
        case NoKeyItem => next == retkey == retdata == Null && klen' == klen && dlen' == dlen
        case KeyItem(k, kl, d, dl, q) =>
          next == At(q) && retkey == k && klen' == kl && retdata == d && dlen' == dl
    {
      hide Load;
      var p := pointer.addr;
      var w := LoadWord(p);
      if w == END {
        return Null, Null, klen, Null, dlen;
      }
      retkey := At(w);
      klen' := LoadWord(p - 4);
      var off := LoadWord(p - 8);
      retdata := At(off);
      dlen' := LoadWord(p - 12);
      next := At(p - 16);
    }

    // -------------------------------------------------- record numbers

    method RecnoReserveNext(pointer: Ptr, recno: Word, len: nat) returns (next: Ptr, dest: Ptr)
      requires pointer.At? && WritePointer(data[..], pointer.addr)
      modifies data
      ensures match BulkMacros.RecnoReserveNext(old(data[..]), pointer.addr, recno, len)
        case NoSlot => data[..] == old(data[..]) && next == pointer && dest == Null
        case Slot(b, q, d) => data[..] == b && next == At(q) && dest == At(d)
    {
      hide Store, Load;
      ghost var s := data[..];
      var p := pointer.addr;
      var off := Offset(p);
      if off + len > p - 12 {
        next, dest := pointer, Null;
      } else {
        dest := At(off);
        StoreWord(p, recno);
        StoreWord(p - 4, off);
        StoreWord(p - 8, Truncate(len));
        StoreWord(p - 12, 0);
        next := At(p - 12);
        Stored4(s, p, recno, off, Truncate(len), RECNO_END);
      }
    }

    method RecnoWriteNext(pointer: Ptr, recno: Word, src: seq<Byte>) returns (next: Ptr)
      requires pointer.At? && WritePointer(data[..], pointer.addr)
      modifies data
      ensures Cursor(data[..], next) == BulkMacros.RecnoWriteNext(old(data[..]), pointer.addr, recno, src)
    {
      hide StoreDown, Load;
      var dest;
      next, dest := RecnoReserveNext(pointer, recno, |src|);
      if dest == Null {
        next := Null;
      } else if |src| != 0 {
        CopyBytes(dest.addr, src);
      }
    }

    /** `DB_MULTIPLE_RECNO_NEXT`; at the end of the list it does not assign the length. */
    method RecnoNext(pointer: Ptr, retlen: Word) returns (next: Ptr, recno: Word, retdata: Ptr, retlen': Word)
      requires pointer.At? && ReadPointer(data[..], pointer.addr, 3, RECNO_END)
      ensures match BulkMacros.RecnoNext(data[..], pointer.addr)
        case NoRecnoItem => next == Null && recno == 0 && retdata == Null && retlen' == retlen
        case RecnoItem(r, d, len, q) => next == At(q) && recno == r && retdata == d && retlen' == len
    {
      hide Load;
      var p := pointer.addr;
      recno := LoadWord(p);
      if recno == 0 {
        return Null, 0, Null, retlen;
      }
      var off := LoadWord(p - 4);
      retdata := At(off);
      retlen' := LoadWord(p - 8);
      next := At(p - 12);
    }
  }

  // -------------------------------------------------- stores one after the other

  lemma Stored3(s: seq<Byte>, p: int, a: Word, b: Word, c: Word)
    requires 8 <= p <= |s| - 4
    ensures StoreDown(s, p, [a, b, c]) == Store(Store(Store(s, p, a), p - 4, b), p - 8, c)
  {
    hide Store;
    StoreDownSnoc(s, p, [], a);
    StoreDownSnoc(s, p, [a], b);
    StoreDownSnoc(s, p, [a, b], c);
    assert [] + [a] == [a] && [a] + [b] == [a, b] && [a, b] + [c] == [a, b, c];
  }

  lemma Stored4(s: seq<Byte>, p: int, a: Word, b: Word, c: Word, d: Word)
    requires 12 <= p <= |s| - 4
    ensures StoreDown(s, p, [a, b, c, d]) == Store(Store(Store(Store(s, p, a), p - 4, b), p - 8, c), p - 12, d)
  {
    hide Store;
    Stored3(s, p, a, b, c);
    StoreDownSnoc(s, p, [a, b, c], d);
    assert [a, b, c] + [d] == [a, b, c, d];
  }

  lemma Stored5(s: seq<Byte>, p: int, a: Word, b: Word, c: Word, d: Word, e: Word)
    requires 16 <= p <= |s| - 4
    ensures StoreDown(s, p, [a, b, c, d, e])
         == Store(Store(Store(Store(Store(s, p, a), p - 4, b), p - 8, c), p - 12, d), p - 16, e)
  {
    hide Store;
    Stored4(s, p, a, b, c, d);
    StoreDownSnoc(s, p, [a, b, c, d], e);
    assert [a, b, c, d] + [e] == [a, b, c, d, e];
  }
}
