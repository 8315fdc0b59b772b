/** Walking a block of NUL-terminated entries with `argz_next`. */
module Argz {
  import opened Options
  import T = Tokenizer

  const NUL := T.NUL

  /** `argz_len` is 0, or the block's last byte is NUL. */
  predicate Terminated(block: seq<char>) {
    block == [] || block[|block| - 1] == NUL
  }

  /** `strchr(entry, '\\0')` within the block. */
  function FirstNul(block: seq<char>, entry: nat): (at: nat)
    requires Terminated(block) && entry < |block|
    ensures entry <= at < |block| && block[at] == NUL && NUL !in block[entry..at]
    decreases |block| - entry
  {
    if block[entry] == NUL then entry else
      var at := FirstNul(block, entry + 1);
      assert block[entry..at] == [block[entry]] + block[entry + 1..at];
      at
  }

  /** `__argz_next`, with entries as offsets into the block and `None` for NULL. */
  function ArgzNext(block: seq<char>, entry: Option<nat>): (next: Option<nat>)
    requires Terminated(block)
    ensures next.Some? ==> next.value < |block| && (entry.Some? ==> entry.value < next.value)
  {
    match entry
    case Some(e) =>
      var e' := if e < |block| then FirstNul(block, e) + 1 else e;
      if e' >= |block| then None else Some(e')
    case None =>
      if |block| > 0 then Some(0) else None
  }

  /** The documented loop `while ((entry = argz_next (argz, argz_len, entry)))`: the
      entries it visits, starting after `entry`. */
  function Walk(block: seq<char>, entry: Option<nat>): seq<nat>
    requires Terminated(block)
    decreases match entry case None => |block| + 1 case Some(e) => if e < |block| then |block| - e else 0
  {
    match ArgzNext(block, entry)
    case None => []
    case Some(n) => [n] + Walk(block, Some(n))
  }

  // ---------------------------------------------------------------- every entry once

  /** An entry starts at offset 0 and behind every NUL that has a byte behind it. */
  predicate IsStart(block: seq<char>, at: int) {
    0 <= at < |block| && (at == 0 || block[at - 1] == NUL)
  }

  ghost predicate Increasing(starts: seq<nat>) {
    forall j, k | 0 <= j < k < |starts| :: starts[j] < starts[k]
  }

  lemma WalkStep(block: seq<char>, e: nat)
    requires Terminated(block) && e < |block|
    ensures var z := FirstNul(block, e);
      Walk(block, Some(e)) == if z + 1 < |block| then [z + 1] + Walk(block, Some(z + 1)) else []
  {
  }

  lemma IncreasingCons(e: nat, rest: seq<nat>)
    requires Increasing(rest) && (rest != [] ==> e < rest[0])
    ensures Increasing([e] + rest)
  {
    forall k | 0 <= k < |rest| ensures e < rest[k] {
      assert rest[0] <= rest[k];
    }
    assert forall k | 0 < k < |[e] + rest| :: ([e] + rest)[k] == rest[k - 1];
  }

  /** No entry starts between `e` and its NUL, and the next one starts behind it. */
  lemma NextStart(block: seq<char>, e: nat, z: nat, at: int)
    requires e <= z < |block| && block[z] == NUL && NUL !in block[e..z]
    ensures e < at && IsStart(block, at)
      <==> z + 1 < |block| && (at == z + 1 || (z + 1 < at && IsStart(block, at)))
  {
    if e < at <= z {
      assert block[at - 1] == block[e..z][at - 1 - e];
    }
  }

  lemma {:induction false} WalkFrom(block: seq<char>, e: nat)
    requires Terminated(block) && e < |block|
    ensures Increasing([e] + Walk(block, Some(e)))
    ensures forall at :: at in Walk(block, Some(e)) <==> e < at && IsStart(block, at)
    decreases |block| - e
  {
    hide Walk, ArgzNext, FirstNul, Increasing, IsStart;
    WalkStep(block, e);
    var z := FirstNul(block, e);
    if z + 1 == |block| {
    } else {
      WalkFrom(block, z + 1);
    }
    IncreasingCons(e, Walk(block, Some(e)));
    forall at ensures at in Walk(block, Some(e)) <==> e < at && IsStart(block, at) {
      NextStart(block, e, z, at);
    }
  }

  /** The loop visits the start of every entry, empty entries included, once each and
      in order, and nothing else. */
  lemma WalkVisitsStarts(block: seq<char>)
    requires Terminated(block)
    ensures Increasing(Walk(block, None))
    ensures forall at :: at in Walk(block, None) <==> IsStart(block, at)
  {
    if block != [] {
      WalkFrom(block, 0);
      assert Walk(block, None) == [0] + Walk(block, Some(0));
    }
  }

  /** The other documented loop, `for (entry = argz; entry; entry = argz_next (argz,
      argz_len, entry))`, from a given `entry` on. */
  function ForWalk(block: seq<char>, entry: Option<nat>): seq<nat>
    requires Terminated(block)
    decreases match entry case None => 0 case Some(e) => if e < |block| then |block| - e + 1 else 1
  {
    match entry
    case None => []
    case Some(e) => [e] + ForWalk(block, ArgzNext(block, entry))
  }

  lemma {:induction false} ForWalkFrom(block: seq<char>, e: nat)
    requires Terminated(block)
    ensures ForWalk(block, Some(e)) == [e] + Walk(block, Some(e))
    decreases if e < |block| then |block| - e else 0
  {
    match ArgzNext(block, Some(e))
    case None =>
    case Some(n) => ForWalkFrom(block, n);
  }

  /** The two loops visit the same entries if and only if the block is not empty or `argz`
      is NULL: on an empty block with an address the `for` loop visits one that is not there. */
  lemma ForIsWhileIff(block: seq<char>, argz: Option<nat>)
    requires Terminated(block) && (argz == None ==> block == []) && (argz.Some? ==> argz.value == 0)
    ensures ForWalk(block, argz) == Walk(block, None) <==> block != [] || argz == None
  {
    if argz.Some? {
      ForWalkFrom(block, 0);
    }
  }

  /** Each visited entry with its NUL. */
  function Entries(block: seq<char>, starts: seq<nat>): seq<char> {
    if starts == [] then [] else T.CString(block, starts[0]) + [NUL] + Entries(block, starts[1..])
  }

  lemma EntriesCons(block: seq<char>, e: nat, rest: seq<nat>, z: nat)
    requires e <= z < |block| && block[z] == NUL && NUL !in block[e..z]
    ensures Entries(block, [e] + rest) == block[e..z + 1] + Entries(block, rest)
  {
    T.CStringIs(block, e, z);
    assert ([e] + rest)[1..] == rest;
    assert block[e..z] + [NUL] == block[e..z + 1];
  }

  lemma {:induction false} EntriesFrom(block: seq<char>, e: nat)
    requires Terminated(block) && e < |block|
    ensures Entries(block, [e] + Walk(block, Some(e))) == block[e..]
    decreases |block| - e
  {
    hide Entries, Walk, ArgzNext, FirstNul;
    WalkStep(block, e);
    var z := FirstNul(block, e);
    EntriesCons(block, e, Walk(block, Some(e)), z);
    if z + 1 < |block| {
      EntriesFrom(block, z + 1);
    } else {
      EntriesNil(block);
    }
    SliceJoin(block, e, z + 1);
  }

  lemma SliceJoin(block: seq<char>, e: nat, m: nat)
    requires e <= m <= |block|
    ensures block[e..m] + block[m..] == block[e..]
    ensures m == |block| ==> block[e..m] + [] == block[e..]
  {
  }

  lemma EntriesNil(block: seq<char>)
    ensures Entries(block, []) == []
  {
  }

  /** The visited entries rebuild the block. */
  lemma WalkRebuilds(block: seq<char>)
    requires Terminated(block)
    ensures Entries(block, Walk(block, None)) == block
  {
    if block != [] {
      EntriesFrom(block, 0);
      assert Walk(block, None) == [0] + Walk(block, Some(0));
      assert block[0..] == block;
    }
  }

  // ---------------------------------------------------------------- the divided command line

  lemma {:induction false} StartsBehindSpaces(s: string, at: int)
    ensures at in T.Starts(s) <==> 0 <= at <= |s| && (at == 0 || s[at - 1] == ' ')
  {
    if s == [] {
    } else {
      StartsBehindSpaces(s[..|s| - 1], at);
    }
  }

  lemma {:induction false} SameElements(s: seq<nat>, t: seq<nat>)
    requires Increasing(s) && Increasing(t) && forall x :: x in s <==> x in t
    ensures s == t
  {
    assert (s == [] || s[0] in s) && (t == [] || t[0] in t);
    if s == [] {
    } else {
      var m, n := |s| - 1, |t| - 1;
      assert s[m] in t && t[n] in s;
      assert s[m] == t[n];
      forall x ensures x in s[..m] <==> x in t[..n] {
        assert x in s <==> x in s[..m] || x == s[m];
        assert x in t <==> x in t[..n] || x == t[n];
        assert x in s[..m] ==> x < s[m];
        assert x in t[..n] ==> x < t[n];
      }
      SameElements(s[..m], t[..n]);
      assert s == s[..m] + [s[m]] && t == t[..n] + [t[n]];
    }
  }

  /** On a divided command line with its terminator the walk visits exactly the
      offsets that the divider recorded in `argv`. */
  lemma WalkIsArgv(s: string)
    requires NUL !in s
    ensures var block := T.Cut(s) + [NUL]; Terminated(block) && Walk(block, None) == T.Starts(s)
  {
    var block := T.Cut(s) + [NUL];
    WalkVisitsStarts(block);
    T.StartsRange(s);
    forall at: nat ensures at in Walk(block, None) <==> at in T.Starts(s) {
      StartsBehindSpaces(s, at);
      if 0 < at <= |s| {
        assert block[at - 1] == T.Cut(s)[at - 1];
      }
    }
    SameElements(Walk(block, None), T.Starts(s));
  }
}
