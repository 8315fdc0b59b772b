/** The two-ended layout of a bulk buffer: record bytes packed from offset 0 upward,
    header words from the last four bytes downward, and a gap between the two. */
module BulkLayout {
  import opened Words
  import opened BulkMacros

  ghost predicate Layout(buf: seq<Byte>, payload: seq<Byte>, header: seq<int>) {
    && |payload| + 4 * |header| <= |buf|
    && buf[..|payload|] == payload
    && (forall j | 0 <= j < |header| :: Load(buf, Top(buf) - 4 * j) == header[j])
  }

  /** An append: the terminator becomes the first of the `more` header words, and
      `src` is copied behind the payload. Both regions grow towards each other. */
  lemma LayoutGrows(buf: seq<Byte>, payload: seq<Byte>, header: seq<int>, terminator: int,
                    more: seq<Word>, r: seq<Byte>, src: seq<Byte>)
    requires Layout(buf, payload, header + [terminator]) && more != []
    requires |payload| + |src| + 4 * (|header| + |more|) <= |buf|
    requires Wrote(buf, Top(buf) - 4 * |header|, more, r)
    ensures Layout(CopyIn(r, |payload|, src), payload + src, header + more)
  {
    var t := CopyIn(r, |payload|, src);
    forall j | 0 <= j < |header + more| ensures Load(t, Top(buf) - 4 * j) == (header + more)[j] {
      HeaderGrows(buf, header, terminator, more, r, j);
      CopyBelow(r, |payload|, src, Top(buf) - 4 * j);
    }
    CopyInBytes(r, |payload|, src);
    assert t[..|payload + src|] == t[..|payload|] + t[|payload|..|payload| + |src|];
    assert t[..|payload|] == buf[..|payload|];
  }

  lemma HeaderGrows(buf: seq<Byte>, header: seq<int>, terminator: int, more: seq<Word>, r: seq<Byte>, j: nat)
    requires more != [] && 4 * (|header| + |more|) <= |buf|
    requires forall i | 0 <= i < |header + [terminator]| :: Load(buf, Top(buf) - 4 * i) == (header + [terminator])[i]
    requires Wrote(buf, Top(buf) - 4 * |header|, more, r)
    requires j < |header + more|
    ensures Load(r, Top(buf) - 4 * j) == (header + more)[j]
  {
    if j < |header| {
      assert Load(buf, Top(buf) - 4 * j) == (header + [terminator])[j];
      LoadFrame(buf, r, Top(buf) - 4 * j);
    } else {
      assert Load(r, Top(buf) - 4 * |header| - 4 * (j - |header|)) == more[j - |header|];
    }
  }

  /** Overwriting part of the payload in place. */
  lemma LayoutOverwritten(buf: seq<Byte>, payload: seq<Byte>, header: seq<int>, at: nat, src: seq<Byte>)
    requires Layout(buf, payload, header) && at + |src| <= |payload|
    ensures Layout(CopyIn(buf, at, src), CopyIn(payload, at, src), header)
  {
    hide Load;
    var t := CopyIn(buf, at, src);
    forall j | 0 <= j < |header| ensures Load(t, Top(buf) - 4 * j) == header[j] {
      CopyBelow(buf, at, src, Top(buf) - 4 * j);
    }
    CopyPrefix(buf, |payload|, at, src);
  }

  lemma PayloadFits(buf: seq<Byte>, payload: seq<Byte>, header: seq<int>)
    requires Layout(buf, payload, header)
    ensures |payload| + 4 * |header| <= |buf|
  {
  }

  lemma KeepBytes(s: seq<Byte>, at: nat, len: nat, b: seq<Byte>)
    requires at + len <= |s| && b == s[at..at + len]
    ensures CopyIn(s, at, b) == s
  {
  }

  lemma CopyPrefix(s: seq<Byte>, n: nat, at: nat, src: seq<Byte>)
    requires at + |src| <= n <= |s|
    ensures CopyIn(s, at, src)[..n] == CopyIn(s[..n], at, src)
  {
  }

  lemma CopyOfAppend(s: seq<Byte>, t: seq<Byte>, at: nat, src: seq<Byte>)
    requires at + |src| <= |s|
    ensures CopyIn(s + t, at, src) == CopyIn(s, at, src) + t
  {
  }

  lemma CopyOfLast(s: seq<Byte>, t: seq<Byte>, src: seq<Byte>)
    requires |src| == |t|
    ensures CopyIn(s + t, |s|, src) == s + src
  {
  }

  /** All record bytes, in order. */
  function Concat(items: seq<seq<Byte>>): seq<Byte> {
    if items == [] then [] else Concat(items[..|items| - 1]) + items[|items| - 1]
  }

  lemma SliceOfPrefix(s: seq<Byte>, n: nat, lo: nat, hi: nat)
    requires lo <= hi <= n <= |s|
    ensures s[..n][lo..hi] == s[lo..hi]
  {
  }

  lemma ConcatAppend(items: seq<seq<Byte>>, b: seq<Byte>)
    ensures Concat(items + [b]) == Concat(items) + b
  {
    assert (items + [b])[..|items|] == items;
  }

  /** Item `k` lies at the offset that is the sum of the earlier lengths. */
  lemma {:induction false} ItemAt(items: seq<seq<Byte>>, k: nat)
    requires k < |items|
    ensures var off := |Concat(items[..k])|;
      off + |items[k]| <= |Concat(items)| && Concat(items)[off..off + |items[k]|] == items[k]
  {
    var n := |items| - 1;
    if k < n {
      ItemAt(items[..n], k);
      assert items[..n][..k] == items[..k];
      var off := |Concat(items[..k])|;
      assert Concat(items)[off..off + |items[k]|] == Concat(items[..n])[off..off + |items[k]|];
    } else {
      assert items[..k] == items[..n];
    }
  }

  lemma {:induction false} ConcatReplaced(items: seq<seq<Byte>>, k: nat, src: seq<Byte>)
    requires k < |items| && |src| == |items[k]|
    ensures |Concat(items[..k])| + |src| <= |Concat(items)|
    ensures Concat(items[k := src]) == CopyIn(Concat(items), |Concat(items[..k])|, src)
  {
    var n := |items| - 1;
    if k == n {
      assert items[k := src][..n] == items[..n];
      CopyOfLast(Concat(items[..n]), items[n], src);
    } else {
      assert items[k := src][..n] == items[..n][k := src] && items[..n][..k] == items[..k];
      ConcatReplaced(items[..n], k, src);
      CopyOfAppend(Concat(items[..n]), items[n], |Concat(items[..k])|, src);
    }
  }
}
