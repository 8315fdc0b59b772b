/** The argument divider: a command line is cut in place at its spaces. */
module Tokenizer {
  const MAX_RET_BUFF_SIZE := 1024
  const NUL := '\0'

  // ---------------------------------------------------------------- what one pass computes

  function Spaces(s: seq<char>): nat {
    if s == [] then 0 else
      Spaces(s[..|s| - 1]) + if s[|s| - 1] == ' ' then 1 else 0
  }

  /** Offset 0, and the offset behind every space. */
  function Starts(s: seq<char>): (starts: seq<nat>)
    ensures |starts| == 1 + Spaces(s)
  {
    if s == [] then [0] else
      Starts(s[..|s| - 1]) + if s[|s| - 1] == ' ' then [|s|] else []
  }

  function Cut(s: seq<char>): (t: seq<char>)
    ensures |t| == |s|
    ensures forall i | 0 <= i < |s| :: t[i] == if s[i] == ' ' then NUL else s[i]
  {
    if s == [] then [] else
      Cut(s[..|s| - 1]) + [if s[|s| - 1] == ' ' then NUL else s[|s| - 1]]
  }

  lemma Empty()
    ensures Spaces([]) == 0 && Starts([]) == [0] && Cut([]) == []
  {
  }

  lemma Snoc(s: seq<char>, c: char)
    ensures Spaces(s + [c]) == Spaces(s) + if c == ' ' then 1 else 0
    ensures Starts(s + [c]) == Starts(s) + if c == ' ' then [|s| + 1] else []
    ensures Cut(s + [c]) == Cut(s) + [if c == ' ' then NUL else c]
  {
    assert (s + [c])[..|s|] == s;
  }

  lemma {:induction false} SpacesOfPrefix(done: seq<char>, s: seq<char>)
    requires done <= s
    ensures Spaces(done) <= Spaces(s)
    decreases |s|
  {
    if |done| < |s| {
      SpacesOfPrefix(done, s[..|s| - 1]);
    } else {
      assert done == s;
    }
  }

  // ---------------------------------------------------------------- the pass

  /** The loop over the copied line `line`, with `base` at the start of `buff`. */
  method Divide(line: seq<char>, buff: array<char>, argv: array<nat>) returns (argc: nat)
    requires |line| <= buff.Length && 1 + Spaces(line) <= argv.Length
    modifies buff, argv
    ensures argc == 1 + Spaces(line)
    ensures forall k | 0 <= k < argc :: argv[k] == Starts(line)[k]
    ensures forall k | argc <= k < argv.Length :: argv[k] == old(argv[k])
    ensures forall j | 0 <= j < |line| :: buff[j] == Cut(line)[j]
    ensures forall j | |line| <= j < buff.Length :: buff[j] == old(buff[j])
  {
    Empty();
    hide Spaces, Starts, Cut;
    var base := 0;
    argc := 0;
    argv[argc] := base;
    argc := argc + 1;
    ghost var done := [];
    for i := 0 to |line|
      invariant base == i == |done| && done <= line
      invariant argc == 1 + Spaces(done) <= argv.Length
      invariant forall k | 0 <= k < argc :: argv[k] == Starts(done)[k]
      invariant forall k | argc <= k < argv.Length :: argv[k] == old(argv[k])
      invariant forall j | 0 <= j < i :: buff[j] == Cut(done)[j]
      invariant forall j | i <= j < buff.Length :: buff[j] == old(buff[j])
    {
      Snoc(done, line[i]);
      done := done + [line[i]];
      SpacesOfPrefix(done, line);
      if line[i] == ' ' {
        buff[base] := NUL;
        argv[argc] := base + 1;
        argc := argc + 1;
      } else {
        buff[base] := line[i];
      }
      base := base + 1;
    }
    assert done == line;
  }

  /** `_devide_argument`. `argv` entries are offsets into `buff`. The function relies on
      `buff` being as large as its own copy buffer and on `argv` having room. */
  method DivideArgument(buff: array<char>, buffLen: nat, argv: array<nat>) returns (argc: nat)
    requires buffLen <= MAX_RET_BUFF_SIZE <= buff.Length
    requires 1 + Spaces(buff[..buffLen]) <= argv.Length
    modifies buff, argv
    ensures argc == 1 + Spaces(old(buff[..buffLen]))
    ensures argv[..argc] == Starts(old(buff[..buffLen]))
    ensures buff[..buffLen] == Cut(old(buff[..buffLen]))
    ensures forall i | buffLen <= i < MAX_RET_BUFF_SIZE :: buff[i] == NUL
    ensures forall i | MAX_RET_BUFF_SIZE <= i < buff.Length :: buff[i] == old(buff[i])
    ensures forall k | argc <= k < argv.Length :: argv[k] == old(argv[k])
  {
    hide Spaces, Starts, Cut;
    var retBuff := buff[..buffLen];
    forall i | 0 <= i < MAX_RET_BUFF_SIZE {
      buff[i] := NUL;
    }
    argc := Divide(retBuff, buff, argv);
  }

  // ---------------------------------------------------------------- what the tokens are

  /** The C string at offset `at`: the characters up to the next NUL. */
  function CString(block: seq<char>, at: nat): string
    decreases |block| - at
  {
    if at >= |block| || block[at] == NUL then "" else [block[at]] + CString(block, at + 1)
  }

  /** The fields of `s` between its spaces, empty ones included. */
  function Split(s: string): (tokens: seq<string>)
    ensures |tokens| == 1 + Spaces(s)
  {
    if s == "" then [""] else Extend(Split(s[..|s| - 1]), s[|s| - 1])
  }

  function Join(tokens: seq<string>): string
    requires tokens != []
  {
    if |tokens| == 1 then tokens[0] else
      Join(tokens[..|tokens| - 1]) + " " + tokens[|tokens| - 1]
  }

  ghost predicate SpaceFree(tokens: seq<string>) {
    forall k | 0 <= k < |tokens| :: ' ' !in tokens[k]
  }

  /** The tokens after one more character: a space opens an empty one. */
  function Extend(tokens: seq<string>, c: char): (tokens': seq<string>)
    requires tokens != []
    ensures |tokens'| == |tokens| + if c == ' ' then 1 else 0
  {
    var n := |tokens| - 1;
    if c == ' ' then tokens + [""] else tokens[n := tokens[n] + [c]]
  }

  lemma JoinExtend(tokens: seq<string>, c: char)
    requires tokens != []
    ensures Join(Extend(tokens, c)) == Join(tokens) + [c]
    ensures SpaceFree(tokens) ==> SpaceFree(Extend(tokens, c))
  {
    var n := |tokens| - 1;
    assert Extend(tokens, c)[..n] == tokens[..n];
    if c == ' ' {
      assert Extend(tokens, c)[..|tokens|] == tokens;
      assert Join(tokens) + " " + "" == Join(tokens) + [c];
    } else if n > 0 {
      assert Join(tokens[..n]) + " " + (tokens[n] + [c]) == Join(tokens) + [c];
    }
  }

  lemma {:induction false} JoinSplit(s: string)
    ensures Join(Split(s)) == s && SpaceFree(Split(s))
  {
    hide Spaces, Join, SpaceFree;
    if s == "" {
      JoinNothing();
    } else {
      var front, c := s[..|s| - 1], s[|s| - 1];
      JoinSplit(front);
      JoinExtend(Split(front), c);
      assert front + [c] == s;
    }
  }

  lemma JoinNothing()
    ensures Join([""]) == "" && SpaceFree([""])
  {
  }

  /** The tokens before the last character: a closing empty token loses its space. */
  function Shorten(tokens: seq<string>): (tokens': seq<string>)
    requires tokens != [] && tokens != [""]
    ensures tokens' != []
  {
    var n := |tokens| - 1;
    var last := tokens[n];
    if last != "" then tokens[n := last[..|last| - 1]] else if n > 0 then tokens[..n] else assert false; [""]
  }

  lemma ExtendShorten(tokens: seq<string>, c: char)
    requires tokens != [] && tokens != [""] && SpaceFree(tokens)
    requires var last := tokens[|tokens| - 1]; c == if last == "" then ' ' else last[|last| - 1]
    ensures Extend(Shorten(tokens), c) == tokens && SpaceFree(Shorten(tokens))
  {
    var n := |tokens| - 1;
    var last := tokens[n];
    if last != "" {
      var m := |last| - 1;
      assert last == last[..m] + [last[m]] && last[m] in tokens[n];
      assert Shorten(tokens)[n := last] == tokens;
    } else {
      assert n > 0 || tokens == [""];
      assert tokens == tokens[..n] + [""];
    }
  }

  /** Nothing but `Split(s)` joins to `s` without spaces inside the tokens. */
  lemma {:induction false} SplitJoin(tokens: seq<string>)
    requires tokens != [] && SpaceFree(tokens)
    ensures Split(Join(tokens)) == tokens
    decreases |Join(tokens)|
  {
    hide Spaces, Join, SpaceFree, Shorten, Extend;
    if tokens == [""] {
      JoinNothing();
    } else {
      var last := tokens[|tokens| - 1];
      var shorter, c := Shorten(tokens), if last == "" then ' ' else last[|last| - 1];
      ExtendShorten(tokens, c);
      JoinExtend(shorter, c);
      SplitJoin(shorter);
      SplitSnoc(Join(shorter), c);
    }
  }

  /** A buffer filled by formatting `s` into zeroed memory. */
  ghost predicate Padded(input: seq<char>, s: string) {
    && |s| < |input| && s <= input && NUL !in s
    && (forall i | |s| <= i < |input| :: input[i] == NUL)
  }

  lemma {:induction false} PaddingAddsNothing(input: seq<char>, s: string)
    requires |s| <= |input| && s <= input
    requires forall i | |s| <= i < |input| :: input[i] == NUL
    ensures Spaces(input) == Spaces(s) && Starts(input) == Starts(s)
    decreases |input|
  {
    if |input| == |s| {
      assert input == s;
    } else {
      PaddingAddsNothing(input[..|input| - 1], s);
    }
  }

  lemma {:induction false} StartsRange(s: seq<char>)
    ensures forall k | 0 <= k < |Starts(s)| :: 0 <= Starts(s)[k] <= |s|
    ensures forall j, k | 0 <= j < k < |Starts(s)| :: Starts(s)[j] < Starts(s)[k]
    ensures Starts(s)[0] == 0
  {
    if s == [] {
    } else {
      StartsRange(s[..|s| - 1]);
    }
  }

  /** Where token `k` ends: at the next space, or at the end of `s`. */
  function End(s: string, k: nat): int
    requires k <= Spaces(s)
  {
    if k < Spaces(s) then Starts(s)[k + 1] - 1 else |s|
  }

  lemma SplitSnoc(s: string, c: char)
    ensures Split(s + [c]) == Extend(Split(s), c)
  {
    assert (s + [c])[..|s|] == s;
  }

  /** What token `k` is: the stretch between two spaces. */
  ghost predicate TokenSlice(s: string, k: nat)
    requires k <= Spaces(s)
  {
    var b, e := Starts(s)[k], End(s, k);
    && b <= e <= |s| && Split(s)[k] == s[b..e] && ' ' !in Split(s)[k]
    && (if k < Spaces(s) then e < |s| && s[e] == ' ' else e == |s|)
  }

  lemma {:induction false} TokenIsSlice(s: string, k: nat)
    requires k <= Spaces(s)
    ensures TokenSlice(s, k)
  {
    if s == "" {
    } else {
      var front, c := s[..|s| - 1], s[|s| - 1];
      assert s == front + [c];
      Snoc(front, c);
      if k <= Spaces(front) {
        TokenIsSlice(front, k);
      }
      SliceSnoc(front, c, k);
    }
  }

  lemma SliceSnoc(front: string, c: char, k: nat)
    requires k <= Spaces(front + [c]) && (k <= Spaces(front) ==> TokenSlice(front, k))
    ensures TokenSlice(front + [c], k)
  {
    hide Starts, Split, Spaces;
    Snoc(front, c);
    SplitSnoc(front, c);
    if k <= Spaces(front) {
      StretchInLonger(front, c, Starts(front)[k], End(front, k));
    } else {
      EmptyStretch(front + [c]);
    }
  }

  lemma StretchInLonger(s: string, c: char, b: nat, e: nat)
    requires b <= e <= |s|
    ensures (s + [c])[b..e] == s[b..e]
    ensures e == |s| ==> (s + [c])[b..e + 1] == s[b..e] + [c]
  {
  }

  lemma EmptyStretch(s: string)
    ensures s[|s|..|s|] == ""
  {
  }

  lemma {:induction false} CStringIs(block: seq<char>, at: nat, e: nat)
    requires at <= e < |block| && block[e] == NUL && NUL !in block[at..e]
    ensures CString(block, at) == block[at..e]
    decreases e - at
  {
    if at == e {
    } else {
      assert block[at..e] == [block[at]] + block[at + 1..e];
      CStringIs(block, at + 1, e);
    }
  }

  lemma {:induction false} TokenAt(block: seq<char>, s: string, k: nat)
    requires NUL !in s && |s| < |block| && block[|s|] == NUL && Cut(s) <= block
    requires k <= Spaces(s)
    ensures CString(block, Starts(s)[k]) == Split(s)[k]
  {
    hide Starts, Split, Spaces, CString;
    TokenIsSlice(s, k);
    var b, e := Starts(s)[k], End(s, k);
    forall i | b <= i < e ensures block[i] == s[i] && s[i] != NUL {
      assert s[i] == s[b..e][i - b] && block[i] == Cut(s)[i];
    }
    assert block[b..e] == s[b..e];
    assert NUL !in block[b..e];
    if e < |s| {
      assert block[e] == Cut(s)[e];
    }
    CStringIs(block, b, e);
  }

  function Tokens(block: seq<char>, argv: seq<nat>): (tokens: seq<string>)
    ensures |tokens| == |argv|
  {
    seq(|argv|, k requires 0 <= k < |argv| => CString(block, argv[k]))
  }

  /** Cutting a formatted command line gives one token more than it has spaces. The
      token starts increase and stay in the buffer, no token has a space in it, and
      joined with single spaces the tokens are the command line again. */
  lemma {:induction false} DivideRoundTrip(input: seq<char>, s: string)
    requires Padded(input, s)
    ensures var tokens := Tokens(Cut(input), Starts(input));
      && |tokens| == 1 + Spaces(s) && tokens == Split(s)
      && Join(tokens) == s && SpaceFree(tokens)
    ensures forall j, k | 0 <= j < k < |Starts(input)| :: Starts(input)[j] < Starts(input)[k] < |input|
  {
    PaddingAddsNothing(input, s);
    StartsRange(s);
    JoinSplit(s);
    var block := Cut(input);
    assert Cut(s) <= block;
    forall k | 0 <= k <= Spaces(s) ensures CString(block, Starts(s)[k]) == Split(s)[k] {
      TokenAt(block, s, k);
    }
    assert Tokens(block, Starts(input)) == Split(s);
  }
}
