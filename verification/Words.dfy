/** Bytes, and the 32-bit words that the bulk macros load and store through
    `u_int32_t` pointers into a byte buffer. Addresses are byte offsets from
    the start of the buffer. */
module Words {

  type Byte = b: int | 0 <= b < 0x100

  type Word = w: int | 0 <= w < 0x1_0000_0000

  /** The cast `(u_int32_t)n`. */
  function Truncate(n: nat): Word {
    if n < 0x1_0000_0000 then n else n % 0x1_0000_0000
  }

  /** Unsigned 32-bit addition, which wraps around. */
  function AddWords(v: Word, w: Word): Word {
    if v + w < 0x1_0000_0000 then v + w else v + w - 0x1_0000_0000
  }

  /** Both are arithmetic modulo 2^32. */
  lemma WordsWrap(n: nat, v: Word, w: Word)
    ensures Truncate(n) == n % 0x1_0000_0000
    ensures AddWords(v, w) == (v + w) % 0x1_0000_0000
  {
  }

  /** `memcpy(s + at, src, |src|)`. */
  function CopyIn(s: seq<Byte>, at: int, src: seq<Byte>): (r: seq<Byte>)
    requires 0 <= at && at + |src| <= |s|
    ensures |r| == |s|
  {
    s[..at] + src + s[at + |src|..]
  }

  lemma CopyInBytes(s: seq<Byte>, at: int, src: seq<Byte>)
    requires 0 <= at && at + |src| <= |s|
    ensures CopyIn(s, at, src)[at..at + |src|] == src
    ensures forall i | 0 <= i < |s| && !(at <= i < at + |src|) :: CopyIn(s, at, src)[i] == s[i]
  {
  }

  // ---------------------------------------------------------------- one word in memory

  /** The number in the bytes `lo .. hi`, least significant first. */
  function LoadBytes(s: seq<Byte>, lo: int, hi: int): nat
    requires 0 <= lo <= hi <= |s|
    decreases hi - lo
  {
    if lo == hi then 0 else s[lo] + 0x100 * LoadBytes(s, lo + 1, hi)
  }

  function StoreBytes(s: seq<Byte>, lo: int, hi: int, w: nat): (r: seq<Byte>)
    requires 0 <= lo <= hi <= |s|
    ensures |r| == |s|
    decreases hi - lo
  {
    if lo == hi then s else StoreBytes(s[lo := w % 0x100], lo + 1, hi, w / 0x100)
  }

  function Power256(n: nat): nat {
    if n == 0 then 1 else 0x100 * Power256(n - 1)
  }

  lemma {:induction false} LoadBound(s: seq<Byte>, lo: int, hi: int)
    requires 0 <= lo <= hi <= |s|
    ensures LoadBytes(s, lo, hi) < Power256(hi - lo)
    decreases hi - lo
  {
    if lo == hi {
    } else {
      LoadBound(s, lo + 1, hi);
    }
  }

  lemma Power256Of4()
    ensures Power256(4) == 0x1_0000_0000
  {
    assert Power256(1) == 0x100 && Power256(2) == 0x1_0000 && Power256(3) == 0x100_0000;
  }

  lemma {:induction false} LoadBytesFrame(s: seq<Byte>, t: seq<Byte>, lo: int, hi: int)
    requires |s| == |t| && 0 <= lo <= hi <= |s|
    requires forall i | lo <= i < hi :: s[i] == t[i]
    ensures LoadBytes(s, lo, hi) == LoadBytes(t, lo, hi)
    decreases hi - lo
  {
    if lo == hi {
    } else {
      LoadBytesFrame(s, t, lo + 1, hi);
    }
  }

  lemma {:induction false} StoreBytesLoads(s: seq<Byte>, lo: int, hi: int, w: nat)
    requires 0 <= lo <= hi <= |s| && w < Power256(hi - lo)
    ensures LoadBytes(StoreBytes(s, lo, hi, w), lo, hi) == w
    ensures forall i | 0 <= i < |s| && !(lo <= i < hi) :: StoreBytes(s, lo, hi, w)[i] == s[i]
    decreases hi - lo
  {
    if lo == hi {
    } else {
      StoreBytesLoads(s[lo := w % 0x100], lo + 1, hi, w / 0x100);
    }
  }

  /** A number in memory determines its bytes. */
  lemma {:induction false} LoadInjective(s: seq<Byte>, t: seq<Byte>, lo: int, hi: int)
    requires |s| == |t| && 0 <= lo <= hi <= |s|
    requires LoadBytes(s, lo, hi) == LoadBytes(t, lo, hi)
    ensures forall i | lo <= i < hi :: s[i] == t[i]
    decreases hi - lo
  {
    if lo == hi {
    } else {
      DigitsUnique(s[lo], LoadBytes(s, lo + 1, hi), t[lo], LoadBytes(t, lo + 1, hi));
      LoadInjective(s, t, lo + 1, hi);
    }
  }

  lemma DigitsUnique(d: Byte, n: int, d': Byte, n': int)
    requires d + 0x100 * n == d' + 0x100 * n'
    ensures d == d' && n == n'
  {
  }

  function Load(s: seq<Byte>, at: int): Word
    requires 0 <= at <= |s| - 4
  {
    LoadBound(s, at, at + 4);
    Power256Of4();
    LoadBytes(s, at, at + 4)
  }

  function Store(s: seq<Byte>, at: int, w: Word): (r: seq<Byte>)
    requires 0 <= at <= |s| - 4
    ensures |r| == |s|
  {
    StoreBytes(s, at, at + 4, w)
  }

  lemma StoreLoads(s: seq<Byte>, at: int, w: Word)
    requires 0 <= at <= |s| - 4
    ensures Load(Store(s, at, w), at) == w
    ensures forall i | 0 <= i < |s| && !(at <= i < at + 4) :: Store(s, at, w)[i] == s[i]
  {
    Power256Of4();
    StoreBytesLoads(s, at, at + 4, w);
  }

  /** `r` is `s` with the words `ws` written one below the other, `ws[0]` at `at`. */
  ghost predicate Wrote(s: seq<Byte>, at: int, ws: seq<Word>, r: seq<Byte>)
    requires 4 * |ws| - 4 <= at <= |s| - 4
  {
    && |r| == |s|
    && (forall j | 0 <= j < |ws| :: Load(r, at - 4 * j) == ws[j])
    && (forall i | 0 <= i < |s| && !(at + 4 - 4 * |ws| <= i < at + 4) :: r[i] == s[i])
  }

  /** `__p[0] = ws[0]; __p[-1] = ws[1]; __p[-2] = ws[2]; ..` with `__p` at `at`. */
  function StoreDown(s: seq<Byte>, at: int, ws: seq<Word>): (r: seq<Byte>)
    requires 4 * |ws| - 4 <= at <= |s| - 4
    ensures |r| == |s|
    decreases |ws|
  {
    if ws == [] then s else StoreDown(Store(s, at, ws[0]), at - 4, ws[1..])
  }

  lemma {:induction false} StoreDownWrote(s: seq<Byte>, at: int, ws: seq<Word>)
    requires 4 * |ws| - 4 <= at <= |s| - 4
    ensures Wrote(s, at, ws, StoreDown(s, at, ws))
    decreases |ws|
  {
    if ws == [] {
    } else {
      var t, r := Store(s, at, ws[0]), StoreDown(s, at, ws);
      StoreLoads(s, at, ws[0]);
      StoreDownWrote(t, at - 4, ws[1..]);
      LoadFrame(r, t, at);
      forall j | 1 <= j < |ws| ensures Load(r, at - 4 * j) == ws[j] {
        assert Load(r, at - 4 - 4 * (j - 1)) == ws[1..][j - 1];
      }
    }
  }

  lemma LoadFrame(s: seq<Byte>, t: seq<Byte>, at: int)
    requires |s| == |t| && 0 <= at <= |s| - 4
    requires forall i | at <= i < at + 4 :: s[i] == t[i]
    ensures Load(s, at) == Load(t, at)
  {
    LoadBytesFrame(s, t, at, at + 4);
  }

  /** Store one more word below the others. */
  lemma {:induction false} StoreDownSnoc(s: seq<Byte>, at: int, ws: seq<Word>, w: Word)
    requires 4 * |ws| <= at <= |s| - 4
    ensures StoreDown(s, at, ws + [w]) == Store(StoreDown(s, at, ws), at - 4 * |ws|, w)
    decreases |ws|
  {
    hide Store;
    if ws == [] {
      assert ws + [w] == [w];
      assert StoreDown(Store(s, at, w), at - 4, []) == Store(s, at, w);
    } else {
      assert (ws + [w])[1..] == ws[1..] + [w];
      StoreDownSnoc(Store(s, at, ws[0]), at - 4, ws[1..], w);
    }
  }

  lemma BelowWrote(s: seq<Byte>, at: int, ws: seq<Word>, r: seq<Byte>, lo: nat, hi: nat)
    requires 4 * |ws| - 4 <= at <= |s| - 4 && Wrote(s, at, ws, r)
    requires lo <= hi <= at + 4 - 4 * |ws|
    ensures r[lo..hi] == s[lo..hi]
  {
  }

  /** Writing words has one result only. */
  lemma WroteDetermines(s: seq<Byte>, at: int, ws: seq<Word>, r: seq<Byte>, t: seq<Byte>)
    requires 4 * |ws| - 4 <= at <= |s| - 4
    requires Wrote(s, at, ws, r) && Wrote(s, at, ws, t)
    ensures r == t
  {
    forall i | 0 <= i < |r| ensures r[i] == t[i] {
      if at + 4 - 4 * |ws| <= i < at + 4 {
        var j := (at + 3 - i) / 4;
        assert Load(r, at - 4 * j) == ws[j] == Load(t, at - 4 * j);
        LoadInjective(r, t, at - 4 * j, at - 4 * j + 4);
      }
    }
  }

  /** Going on from the last written word overwrites it and nothing else. */
  lemma WroteOn(s: seq<Byte>, at: int, ws: seq<Word>, last: Word, t: seq<Byte>, more: seq<Word>, r: seq<Byte>)
    requires more != [] && 4 * (|ws| + |more|) - 4 <= at <= |s| - 4
    requires Wrote(s, at, ws + [last], t) && Wrote(t, at - 4 * |ws|, more, r)
    ensures Wrote(s, at, ws + more, r)
  {
    forall j | 0 <= j < |ws + more| ensures Load(r, at - 4 * j) == (ws + more)[j] {
      if j < |ws| {
        assert Load(t, at - 4 * j) == (ws + [last])[j];
        LoadFrame(t, r, at - 4 * j);
      } else {
        assert Load(r, at - 4 * |ws| - 4 * (j - |ws|)) == more[j - |ws|];
      }
    }
  }

  /** A copy strictly below a word does not change what the word loads. */
  lemma CopyBelow(s: seq<Byte>, at: int, src: seq<Byte>, at': int)
    requires 0 <= at && at + |src| <= at' <= |s| - 4
    ensures Load(CopyIn(s, at, src), at') == Load(s, at')
  {
    CopyInBytes(s, at, src);
    LoadFrame(CopyIn(s, at, src), s, at');
  }

  /** Writing words and then copying bytes to somewhere below them, or the other
      way round: the same buffer. */
  lemma CopyWroteCommute(s: seq<Byte>, at: int, src: seq<Byte>, at': int, ws: seq<Word>, r: seq<Byte>)
    requires 0 <= at && at + |src| <= at' + 4 - 4 * |ws| <= at' + 4 <= |s|
    requires Wrote(s, at', ws, r)
    ensures Wrote(CopyIn(s, at, src), at', ws, CopyIn(r, at, src))
  {
    CopyInBytes(s, at, src);
    CopyInBytes(r, at, src);
    forall j | 0 <= j < |ws| ensures Load(CopyIn(r, at, src), at' - 4 * j) == ws[j] {
      CopyBelow(r, at, src, at' - 4 * j);
    }
  }
}
