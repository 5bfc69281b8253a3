// The start-up code's command line splitter, which cuts the line into arguments in place.
module CommandLine {
  import opened Bytes

  const ARGV_LEN := 64

  /** An entry of the argument vector: a null pointer, a pointer into the line, or the fallback name. */
  datatype Arg = Null | At(offset: nat) | ProgramName

  function SkipSpaces(s: CStr): (r: CStr)
    ensures |r| <= |s|
  {
    if s == [] || s[0] != SPACE then s else SkipSpaces(s[1..])
  }

  /** The arguments of a line: up to the next space each, with the spaces behind it skipped. */
  function Tokens(s: CStr): (ts: seq<CStr>)
    decreases |s|
  {
    if s == [] then []
    else
      var n := Find(s, SPACE, 0);
      [s[..n]] + if n == |s| then [] else Tokens(SkipSpaces(s[n + 1..]))
  }

  /** The nonempty pieces between spaces. */
  function Words(s: CStr): seq<seq<byte>> {
    NonEmpty(Pieces(s, SPACE))
  }

  lemma WordsLast(s: CStr)
    requires Find(s, SPACE, 0) == |s|
    ensures Words(s) == if s == [] then [] else [s]
  {
    hide Find;
    assert Pieces(s, SPACE) == [s];
    assert [s][1..] == [] && NonEmpty([s][1..]) == [];
  }

  lemma WordsMore(s: CStr)
    requires Find(s, SPACE, 0) < |s|
    ensures var n := Find(s, SPACE, 0);
            Words(s) == (if n == 0 then [] else [s[..n]]) + Words(s[n + 1..])
  {
    hide Find;
    var n := Find(s, SPACE, 0);
    var rest := Pieces(s[n + 1..], SPACE);
    assert Pieces(s, SPACE) == [s[..n]] + rest;
    assert ([s[..n]] + rest)[1..] == rest;
  }

  lemma {:induction false} WordsSkip(s: CStr)
    ensures Words(SkipSpaces(s)) == Words(s)
  {
    if s != [] && s[0] == SPACE {
      WordsMore(s);
      WordsSkip(s[1..]);
      hide Words;
      assert Words(s) == [] + Words(s[1..]);
    }
  }

  lemma SpaceFirst(s: CStr)
    ensures s != [] ==> (s[0] == SPACE <==> Find(s, SPACE, 0) == 0)
    ensures SkipSpaces(s) != [] ==> SkipSpaces(s)[0] != SPACE
  {
  }

  lemma TokensLast(s: CStr)
    requires Find(s, SPACE, 0) == |s|
    ensures Tokens(s) == if s == [] then [] else [s]
  {
    hide Find, SkipSpaces;
    assert s[..|s|] == s;
  }

  lemma TokensMore(s: CStr)
    requires Find(s, SPACE, 0) < |s|
    ensures var n := Find(s, SPACE, 0);
            Tokens(s) == [s[..n]] + Tokens(SkipSpaces(s[n + 1..]))
  {
    hide Find, SkipSpaces;
  }

  /** The arguments are the words of the line, after one empty argument when it begins with a space. */
  lemma TokensAreWords(s: CStr)
    ensures Tokens(s) == (if s != [] && s[0] == 32 then [[]] else []) + NonEmpty(Pieces(s, 32))
  {
    hide Tokens, Pieces, NonEmpty;
    TokensWords(s);
  }

  lemma {:induction false} TokensWords(s: CStr)
    ensures Tokens(s) == (if s != [] && s[0] == SPACE then [[]] else []) + Words(s)
    decreases |s|
  {
    hide Words, Find, Tokens, SkipSpaces;
    SpaceFirst(s);
    var n := Find(s, SPACE, 0);
    if n == |s| {
      WordsLast(s);
      TokensLast(s);
    } else {
      var rest := SkipSpaces(s[n + 1..]);
      SpaceFirst(s[n + 1..]);
      TokensWords(rest);
      WordsSkip(s[n + 1..]);
      WordsMore(s);
      TokensMore(s);
      assert Tokens(rest) == Words(rest) == Words(s[n + 1..]);
    }
  }

  /** `t` stands at offset `o` of the memory, terminated. */
  predicate Holds(mem: seq<byte>, o: nat, t: CStr) {
    o + |t| < |mem| && mem[o..o + |t|] == t && mem[o + |t|] == NUL
  }

  lemma HeldString(mem: seq<byte>, o: nat, t: CStr)
    requires Holds(mem, o, t)
    ensures CStringAt(mem, o) == t
  {
    assert forall k :: o <= k < o + |t| ==> mem[k] == t[k - o];
  }

  lemma HeldByte(mem: seq<byte>, c: nat, text: CStr, i: nat)
    requires Holds(mem, c, text) && i <= |text|
    ensures c + |text| < |mem| && mem[c + i] == CharAt(text, i)
    ensures Holds(mem, c + i, text[i..])
  {
    assert mem[c + i..c + |text|] == mem[c..c + |text|][i..];
    if i < |text| {
      assert mem[c..c + |text|][i] == mem[c + i];
    }
  }

  lemma FoundAt(s: CStr, n: nat)
    requires n <= |s| && (forall k :: 0 <= k < n ==> s[k] != SPACE) && (n < |s| ==> s[n] == SPACE)
    ensures Find(s, SPACE, 0) == n
  {
  }

  /** The first inner loop: to the end of the argument. */
  method EndOfArgument(line: array<byte>, c: nat, ghost text: CStr) returns (e: nat)
    requires Holds(line[..], c, text)
    ensures e == c + Find(text, SPACE, 0)
    ensures e <= c + |text| && Holds(line[..], e, text[e - c..])
  {
    hide Find, Holds;
    e := c;
    HeldByte(line[..], c, text, 0);
    while line[e] != NUL && line[e] != SPACE
      invariant c <= e <= c + |text| && line[e] == CharAt(text, e - c)
      invariant forall k :: 0 <= k < e - c ==> text[k] != SPACE
      decreases c + |text| - e
    {
      e := e + 1;
      HeldByte(line[..], c, text, e - c);
    }
    HeldByte(line[..], c, text, e - c);
    FoundAt(text, e - c);
  }

  lemma SkipStep(text: CStr, i: nat)
    requires i <= |text|
    ensures SkipSpaces(text[i..]) ==
            if i < |text| && text[i] == SPACE then SkipSpaces(text[i + 1..]) else text[i..]
  {
    if i < |text| {
      assert text[i..][1..] == text[i + 1..];
    }
  }

  /** The second inner loop: over the spaces behind it. */
  method SkipBlanks(line: array<byte>, c: nat, ghost text: CStr) returns (e: nat)
    requires Holds(line[..], c, text)
    ensures c <= e <= c + |text| && SkipSpaces(text) == text[e - c..] && Holds(line[..], e, text[e - c..])
  {
    hide SkipSpaces, Holds;
    e := c;
    ghost var i: nat := 0;
    assert text[0..] == text;
    HeldByte(line[..], c, text, i);
    while line[e] == SPACE
      invariant e == c + i && i <= |text| && line[e] == CharAt(text, i)
      invariant SkipSpaces(text) == SkipSpaces(text[i..])
      decreases |text| - i
    {
      SkipStep(text, i);
      e, i := e + 1, i + 1;
      HeldByte(line[..], c, text, i);
    }
    SkipStep(text, i);
    HeldByte(line[..], c, text, i);
  }

  /** Bytes written at or after `from` leave a string that ends before it alone. */
  lemma StillHolds(mem: seq<byte>, mem': seq<byte>, from: nat, o: nat, t: CStr)
    requires Holds(mem, o, t) && o + |t| < from <= |mem| && |mem'| == |mem| && mem'[..from] == mem[..from]
    ensures Holds(mem', o, t)
  {
    assert mem'[o..o + |t|] == mem'[..from][o..o + |t|] == mem[..from][o..o + |t|] == mem[o..o + |t|];
    assert mem'[o + |t|] == mem'[..from][o + |t|] == mem[..from][o + |t|];
  }

  lemma TokensNone()
    ensures Tokens([]) == []
  {
  }

  /** A terminator written over byte `n` of a string leaves two strings. */
  lemma CutString(mem: seq<byte>, mem': seq<byte>, c: nat, text: CStr, n: nat)
    requires Holds(mem, c, text) && n < |text| && c + n < |mem| && mem' == mem[c + n := NUL]
    ensures Holds(mem', c, text[..n]) && Holds(mem', c + n + 1, text[n + 1..])
  {
    var t := text[n + 1..];
    assert mem'[c..c + n] == mem[c..c + |text|][..n];
    assert mem'[c + n + 1..c + |text|] == mem[c..c + |text|][n + 1..];
  }

  /** The arguments recorded so far: pointers to strings that end before `done`. */
  ghost predicate Recorded(line: array<byte>, argv: array<Arg>, argc: nat, tokens: seq<CStr>, done: nat)
    reads line, argv
  {
    && argc <= |tokens| && argc <= argv.Length
    && forall k :: 0 <= k < argc ==>
         argv[k].At? && Holds(line[..], argv[k].offset, tokens[k]) && argv[k].offset + |tokens[k]| < done
  }

  lemma RecordedLater(line: array<byte>, argv: array<Arg>, argc: nat, tokens: seq<CStr>, done: nat, later: nat)
    requires Recorded(line, argv, argc, tokens, done) && done <= later
    ensures Recorded(line, argv, argc, tokens, later)
  {
  }

  /** Writes the terminator at byte `e`: one more argument is recorded, and the rest of the line is still there. */
  method Terminate(line: array<byte>, argv: array<Arg>, argc: nat, c: nat, e: nat,
                   ghost rest: CStr, ghost tokens: seq<CStr>)
    requires argc < argv.Length && Holds(line[..], c, rest) && argv[argc] == At(c)
    requires c <= e < c + |rest|
    requires argc < |tokens| && tokens[argc] == rest[..e - c]
    requires Recorded(line, argv, argc, tokens, c)
    modifies line
    ensures Holds(line[..], e + 1, rest[e - c + 1..])
    ensures Recorded(line, argv, argc + 1, tokens, e + 1)
  {
    hide Holds;
    EndOfText(line[..], c, rest);
    ghost var before := line[..];
    line[e] := NUL;
    CutString(before, line[..], c, rest, e - c);
    forall k | 0 <= k < argc
      ensures Holds(line[..], argv[k].offset, tokens[k])
    {
      StillHolds(before, line[..], c, argv[k].offset, tokens[k]);
    }
  }

  /** Cuts the next argument off at byte `e` and steps over the spaces behind it. */
  method CutArgument(line: array<byte>, argv: array<Arg>, argc: nat, c: nat, e: nat,
                     ghost rest: CStr, ghost tokens: seq<CStr>) returns (c': nat)
    requires argc < argv.Length && Holds(line[..], c, rest) && argv[argc] == At(c)
    requires e == c + Find(rest, SPACE, 0) < c + |rest|
    requires argc < |tokens| && tokens[argc] == rest[..e - c]
    requires Recorded(line, argv, argc, tokens, c)
    modifies line
    ensures e < c' <= c + |rest| && Holds(line[..], c', SkipSpaces(rest[e - c + 1..]))
    ensures Recorded(line, argv, argc + 1, tokens, c')
  {
    hide Find, SkipSpaces, Holds, Recorded;
    Terminate(line, argv, argc, c, e, rest, tokens);
    c' := SkipBlanks(line, e + 1, rest[e - c + 1..]);
    RecordedLater(line, argv, argc + 1, tokens, e + 1, c');
  }

  lemma EndOfText(mem: seq<byte>, c: nat, text: CStr)
    requires Holds(mem, c, text)
    ensures c + |text| < |mem| && (mem[c] == NUL <==> text == [])
  {
    if text != [] {
      assert mem[c..c + |text|][0] == text[0];
    }
  }

  method RecordStart(line: array<byte>, argv: array<Arg>, argc: nat, c: nat, ghost tokens: seq<CStr>)
    requires argc < argv.Length && Recorded(line, argv, argc, tokens, c)
    modifies argv
    ensures argv[argc] == At(c) && Recorded(line, argv, argc, tokens, c)
  {
    argv[argc] := At(c);
  }

  lemma RecordLast(line: array<byte>, argv: array<Arg>, argc: nat, c: nat, rest: CStr, tokens: seq<CStr>)
    requires argc < argv.Length && argc < |tokens| && Recorded(line, argv, argc, tokens, c)
    requires argv[argc] == At(c) && Holds(line[..], c, rest) && tokens[argc] == rest
    ensures Recorded(line, argv, argc + 1, tokens, line.Length)
  {
  }

  lemma RecordedMore(line: array<byte>, argv: array<Arg>, argc: nat, tokens: seq<CStr>, c: nat)
    requires Recorded(line, argv, argc, tokens, c) && c <= line.Length
    ensures Recorded(line, argv, argc, tokens, line.Length) && argc <= |tokens|
  {
  }

  lemma NextToken(tokens: seq<CStr>, argc: nat, rest: CStr)
    requires argc <= |tokens| && tokens[argc..] == Tokens(rest) && rest != []
    ensures var n := Find(rest, SPACE, 0);
            && argc < |tokens| && tokens[argc] == rest[..n]
            && tokens[argc + 1..] == if n == |rest| then [] else Tokens(SkipSpaces(rest[n + 1..]))
  {
    var n := Find(rest, SPACE, 0);
    var more := if n == |rest| then [] else Tokens(SkipSpaces(rest[n + 1..]));
    assert Tokens(rest) == [rest[..n]] + more;
    assert tokens[argc + 1..] == tokens[argc..][1..] == more;
    assert tokens[argc] == tokens[argc..][0];
  }

  /** The body of the outer loop: one argument recorded, and cut off when something follows it. */
  method NextArgument(line: array<byte>, argv: array<Arg>, argc: nat, c: nat, ghost rest: CStr, ghost tokens: seq<CStr>)
    returns (ended: bool, c': nat, ghost rest': CStr)
    requires argc < argv.Length && argc <= |tokens| && tokens[argc..] == Tokens(rest) && rest != []
    requires Holds(line[..], c, rest) && Recorded(line, argv, argc, tokens, c)
    modifies line, argv
    ensures argc < |tokens|
    ensures ended ==> argc + 1 == |tokens| && Recorded(line, argv, argc + 1, tokens, line.Length)
    ensures !ended ==>
              && tokens[argc + 1..] == Tokens(rest') && |rest'| < |rest|
              && Holds(line[..], c', rest') && Recorded(line, argv, argc + 1, tokens, c')
  {
    hide Tokens, Find, SkipSpaces, Holds, Recorded;
    NextToken(tokens, argc, rest);
    RecordStart(line, argv, argc, c, tokens);
    var e := EndOfArgument(line, c, rest);
    ghost var n := e - c;
    EndOfText(line[..], e, rest[n..]);
    c', rest' := c, rest;
    if line[e] == NUL {
      assert rest[..n] == rest;
      RecordLast(line, argv, argc, c, rest, tokens);
      return true, c', rest';
    }
    rest' := SkipSpaces(rest[n + 1..]);
    c' := CutArgument(line, argv, argc, c, e, rest, tokens);
    ended := false;
  }

  /** The outer loop. */
  method Split(line: array<byte>, argv: array<Arg>, ghost text: CStr) returns (argc: nat)
    requires argv.Length == ARGV_LEN && Holds(line[..], 0, text)
    modifies line, argv
    ensures argc == if |Tokens(text)| < ARGV_LEN then |Tokens(text)| else ARGV_LEN - 1
    ensures Recorded(line, argv, argc, Tokens(text), line.Length)
  {
    ghost var tokens := Tokens(text);
    ghost var rest := text;
    argc := 0;
    var c: nat := 0;
    assert Recorded(line, argv, argc, tokens, c);
    hide Tokens, Find, SkipSpaces, Holds, Recorded;
    EndOfText(line[..], c, rest);
    while line[c] != NUL && argc < ARGV_LEN - 1
      invariant argc < ARGV_LEN && argc <= |tokens| && c + |rest| < line.Length
      invariant Holds(line[..], c, rest)
      invariant line[c] == NUL <==> rest == []
      invariant Recorded(line, argv, argc, tokens, c)
      invariant tokens[argc..] == Tokens(rest)
      decreases |rest|
    {
      var ended;
      ended, c, rest := NextArgument(line, argv, argc, c, rest, tokens);
      argc := argc + 1;
      if ended {
        return;
      }
      EndOfText(line[..], c, rest);
    }
    RecordedMore(line, argv, argc, tokens, c);
    TokensNone();
  }

  /**
   * The splitter in `__start`: every argument becomes a terminated string inside the line, at most
   * one fewer than the vector holds, and a null pointer ends the vector.
   */
  method SplitLine(line: array<byte>, argv: array<Arg>, getCmdlineRet: int, ghost text: CStr) returns (argc: nat)
    requires argv.Length == ARGV_LEN && line.Length > 0
    requires getCmdlineRet == 0 ==> Holds(line[..], 0, text)
    modifies line, argv
    ensures argc < 64 && argv[argc] == Null
    ensures getCmdlineRet != 0 || text == [] ==> argc == 1 && argv[0] == ProgramName && line[..] == old(line[..])
    ensures getCmdlineRet == 0 && text != [] ==>
              && argc == (if |Tokens(text)| < 64 then |Tokens(text)| else 63)
              && forall k :: 0 <= k < argc ==>
                   && argv[k].At? && argv[k].offset <= line.Length
                    && CStringAt(line[..], argv[k].offset) == Tokens(text)[k]
  {
    hide Tokens, Find, CStringAt;
    argc := 0;
    if getCmdlineRet == 0 {
      EndOfText(line[..], 0, text);
    }
    if getCmdlineRet == 0 && line[0] != NUL {
      argc := Split(line, argv, text);
      forall k | 0 <= k < argc
        ensures argv[k].offset <= line.Length && CStringAt(line[..], argv[k].offset) == Tokens(text)[k]
      {
        HeldString(line[..], argv[k].offset, Tokens(text)[k]);
      }
    } else {
      argv[argc] := ProgramName;
      argc := argc + 1;
    }
    argv[argc] := Null;
  }
}
