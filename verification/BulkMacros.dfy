/** What each bulk macro of db.h does to a buffer, as a function on the bytes of
    `dbt->data`. A pointer is a byte offset from `dbt->data`; `|buf|` is `dbt->ulen`. */
module BulkMacros {
  import opened Words

  /** `(u_int32_t)-1`, the terminator of plain and key/data lists. */
  const END: Word := 0xFFFF_FFFF

  /** The terminator of record-number lists. */
  const RECNO_END: Word := 0

  datatype Ptr = Null | At(addr: int)

  /** A buffer together with the caller's `pointer` variable. */
  datatype Cursor = Cursor(buf: seq<Byte>, pointer: Ptr)

  /** The address both inits give to `pointer`: `data + ulen - sizeof(u_int32_t)`. */
  function Top(buf: seq<Byte>): int {
    |buf| - 4
  }

  /** `ulen` is a `u_int32_t` and leaves room for the terminator. */
  predicate Sized(buf: seq<Byte>) {
    4 <= |buf| < 0x1_0000_0000
  }

  /** The writers dereference `__p[1]` and `__p[2]` unless the pointer is at the top. */
  predicate WritePointer(buf: seq<Byte>, p: int) {
    4 <= |buf| && 0 <= p && (p == Top(buf) || p <= |buf| - 12)
  }

  /** `__off`: where the next record goes, computed in 32 bits. */
  function NextOffset(buf: seq<Byte>, p: int): Word
    requires WritePointer(buf, p)
  {
    if p == Top(buf) then 0 else AddWords(Load(buf, p + 4), Load(buf, p + 8))
  }

  // ---------------------------------------------------------------- writers

  function WriteInit(buf: seq<Byte>, terminator: Word): (c: Cursor)
    requires 4 <= |buf|
    ensures |c.buf| == |buf| && c.pointer.At? && WritePointer(c.buf, c.pointer.addr)
  {
    Cursor(Store(buf, Top(buf), terminator), At(Top(buf)))
  }

  /** The inits store the terminator, -1 or 0, in the last word, and change no other byte. */
  lemma InitWrites(buf: seq<Byte>)
    requires 4 <= |buf|
    ensures WriteInit(buf, END).pointer == WriteInit(buf, RECNO_END).pointer == At(|buf| - 4)
    ensures Wrote(buf, |buf| - 4, [0xFFFF_FFFF], WriteInit(buf, END).buf)
    ensures Wrote(buf, |buf| - 4, [0], WriteInit(buf, RECNO_END).buf)
  {
    hide Load, Store;
    StoreLoads(buf, |buf| - 4, END);
    StoreLoads(buf, |buf| - 4, RECNO_END);
  }

  datatype Slot = NoSlot | Slot(buf: seq<Byte>, pointer: int, dest: Word)

  function ReserveNext(buf: seq<Byte>, p: int, len: nat): (r: Slot)
    requires WritePointer(buf, p)
    ensures r.Slot? ==> |r.buf| == |buf| && WritePointer(r.buf, r.pointer)
    ensures r.Slot? ==> r.dest + len <= r.pointer == p - 8
  {
    var off := NextOffset(buf, p);
    if off + len > p - 8 then
      NoSlot
    else
      Slot(StoreDown(buf, p, [off, Truncate(len), END]), p - 8, off)
  }

  /** In a buffer whose size fits in 32 bits the length word is never truncated. */
  lemma ReserveStores(buf: seq<Byte>, p: int, len: nat, off: Word)
    requires WritePointer(buf, p) && |buf| < 0x1_0000_0000 && NextOffset(buf, p) == off
    ensures off + len > p - 8 ==> ReserveNext(buf, p, len) == NoSlot
    ensures off + len <= p - 8 ==>
      len < 0x1_0000_0000 && ReserveNext(buf, p, len) == Slot(StoreDown(buf, p, [off, len, END]), p - 8, off)
  {
    if off + len <= p - 8 {
      assert Truncate(len) == len;
    }
  }

  function WriteNext(buf: seq<Byte>, p: int, src: seq<Byte>): (c: Cursor)
    requires WritePointer(buf, p)
    ensures |c.buf| == |buf|
    ensures c.pointer.At? ==> WritePointer(c.buf, c.pointer.addr)
  {
    match ReserveNext(buf, p, |src|)
    case NoSlot => Cursor(buf, Null)
    case Slot(b, q, dest) => Cursor(CopyIn(b, dest, src), At(q))
  }

  datatype KeySlot = NoKeySlot | KeySlot(buf: seq<Byte>, pointer: int, keyDest: Word, dataDest: Word)

  function KeyReserveNext(buf: seq<Byte>, p: int, klen: nat, dlen: nat): (r: KeySlot)
    requires WritePointer(buf, p)
    ensures r.KeySlot? ==> |r.buf| == |buf| && WritePointer(r.buf, r.pointer)
    ensures r.KeySlot? ==> r.keyDest + klen + dlen <= r.pointer == p - 16
    ensures r.KeySlot? && |buf| < 0x1_0000_0000 ==> r.dataDest == r.keyDest + klen
  {
    var off := NextOffset(buf, p);
    if off + klen + dlen > p - 16 then
      NoKeySlot
    else
      var off' := AddWords(off, Truncate(klen));
      KeySlot(StoreDown(buf, p, [off, Truncate(klen), off', Truncate(dlen), END]), p - 16, off, off')
  }

  lemma KeyReserveStores(buf: seq<Byte>, p: int, klen: nat, dlen: nat, off: Word)
    requires WritePointer(buf, p) && |buf| < 0x1_0000_0000 && NextOffset(buf, p) == off
    ensures off + klen + dlen > p - 16 ==> KeyReserveNext(buf, p, klen, dlen) == NoKeySlot
    ensures off + klen + dlen <= p - 16 ==>
      && off + klen + dlen < 0x1_0000_0000
      && KeyReserveNext(buf, p, klen, dlen)
         == KeySlot(StoreDown(buf, p, [off, klen, off + klen, dlen, END]), p - 16, off, off + klen)
  {
    if off + klen + dlen <= p - 16 {
      assert Truncate(klen) == klen && Truncate(dlen) == dlen && AddWords(off, klen) == off + klen;
    }
  }

  function KeyWriteNext(buf: seq<Byte>, p: int, key: seq<Byte>, src: seq<Byte>): (c: Cursor)
    requires WritePointer(buf, p) && |buf| < 0x1_0000_0000
    ensures |c.buf| == |buf|
    ensures c.pointer.At? ==> WritePointer(c.buf, c.pointer.addr)
  {
    match KeyReserveNext(buf, p, |key|, |src|)
    case NoKeySlot => Cursor(buf, Null)
    case KeySlot(b, q, keyDest, dataDest) =>
      Cursor(CopyIn(CopyIn(b, keyDest, key), dataDest, src), At(q))
  }

  function RecnoReserveNext(buf: seq<Byte>, p: int, recno: Word, len: nat): (r: Slot)
    requires WritePointer(buf, p)
    ensures r.Slot? ==> |r.buf| == |buf| && WritePointer(r.buf, r.pointer)
    ensures r.Slot? ==> r.dest + len <= r.pointer == p - 12
  {
    var off := NextOffset(buf, p);
    if off + len > p - 12 then
      NoSlot
    else
      Slot(StoreDown(buf, p, [recno, off, Truncate(len), RECNO_END]), p - 12, off)
  }

  function RecnoWriteNext(buf: seq<Byte>, p: int, recno: Word, src: seq<Byte>): (c: Cursor)
    requires WritePointer(buf, p)
    ensures |c.buf| == |buf|
    ensures c.pointer.At? ==> WritePointer(c.buf, c.pointer.addr)
  {
    match RecnoReserveNext(buf, p, recno, |src|)
    case NoSlot => Cursor(buf, Null)
    case Slot(b, q, dest) => Cursor(if |src| != 0 then CopyIn(b, dest, src) else b, At(q))
  }

  // ---------------------------------------------------------------- readers

  /** The first `n` header words at and below `p` lie inside the buffer, or the
      word at `p` is the terminator and is the only one a reader looks at. */
  predicate ReadPointer(buf: seq<Byte>, p: int, n: nat, terminator: Word) {
    && 0 <= p <= |buf| - 4
    && (Load(buf, p) != terminator ==> 4 * (n - 1) <= p)
  }

  datatype Item = NoItem | Item(data: Ptr, len: Word, pointer: int)

  function Next(buf: seq<Byte>, p: int): Item
    requires ReadPointer(buf, p, 2, END)
  {
    var off := Load(buf, p);
    if off == END then
      NoItem
    else
      var len := Load(buf, p - 4);
      Item(if len == 0 && off == 0 then Null else At(off), len, p - 8)
  }

  datatype KeyItem = NoKeyItem | KeyItem(key: Ptr, klen: Word, data: Ptr, dlen: Word, pointer: int)

  function KeyNext(buf: seq<Byte>, p: int): KeyItem
    requires ReadPointer(buf, p, 4, END)
  {
    if Load(buf, p) == END then
      NoKeyItem
    else
      KeyItem(At(Load(buf, p)), Load(buf, p - 4), At(Load(buf, p - 8)), Load(buf, p - 12), p - 16)
  }

  datatype RecnoItem = NoRecnoItem | RecnoItem(recno: Word, data: Ptr, len: Word, pointer: int)

  function RecnoNext(buf: seq<Byte>, p: int): RecnoItem
    requires ReadPointer(buf, p, 3, RECNO_END)
  {
    if Load(buf, p) == RECNO_END then
      NoRecnoItem
    else
      RecnoItem(Load(buf, p), At(Load(buf, p - 4)), Load(buf, p - 8), p - 12)
  }

  // -------------------------------------------------- what a returned pointer denotes

  /** A returned pointer is NULL with length 0, or points at `len` bytes of the buffer. */
  predicate InBuffer(buf: seq<Byte>, data: Ptr, len: Word) {
    match data
    case Null => len == 0
    case At(a) => 0 <= a < |buf| && a + len <= |buf|
  }

  /** The bytes a caller sees through a returned pointer and length: a NULL
      pointer comes with length 0 and reads as the empty string. */
  function Bytes(buf: seq<Byte>, data: Ptr, len: Word): seq<Byte>
    requires InBuffer(buf, data, len)
  {
    match data
    case Null => []
    case At(a) => buf[a..a + len]
  }
}
