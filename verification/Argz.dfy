// The argz functions, on one growing buffer. A pointer into the buffer is its offset; NULL is None.
module ArgzLibrary {
  import opened Bytes
  import opened Memory
  import opened ArgzVector
  import opened Scanner

  datatype Error = NoError | EINVAL

  /** The pair `(*argz, *argz_len)` every function is handed. A null `*argz` is an empty buffer. */
  class Argz {
    var buf: array<byte>
    var len: nat

    ghost predicate InBounds()
      reads this
    {
      len <= buf.Length
    }

    ghost function Data(): seq<byte>
      requires InBounds()
      reads this, buf
    {
      buf[..len]
    }

    ghost predicate Valid()
      reads this, buf
    {
      InBounds() && WellFormed(Data())
    }

    ghost function Entries(): (es: seq<CStr>)
      requires Valid()
      reads this, buf
      ensures Join(es) == Data()
    {
      Split(Data())
    }

    constructor ()
      ensures Valid() && Entries() == [] && fresh(buf)
    {
      buf, len := new byte[0], 0;
    }

    method Append(raw: seq<byte>)
      requires Valid()
      modifies this
      ensures buf == old(buf) || fresh(buf)
      ensures InBounds() && Data() == old(Data()) + raw
      ensures WellFormed(raw) ==> Valid() && Entries() == old(Entries()) + Split(raw)
    {
      if |raw| != 0 {
        var last := len;
        len := len + |raw|;
        buf := Realloc(buf, len);
        Memcpy(buf, last, raw);
      }
      assert Data() == old(Data()) + raw;
      if WellFormed(raw) {
        SplitAppend(old(Data()), raw);
      }
    }

    method Add(str: Option<CStr>)
      requires Valid()
      modifies this
      ensures buf == old(buf) || fresh(buf)
      ensures Valid()
      ensures Entries() == old(Entries()) + match str case None => [] case Some(s) => [s]
    {
      if str == None {
        return;
      }
      var last := len;
      len := len + (|str.value| + 1);
      buf := Realloc(buf, len);
      Memcpy(buf, last, str.value + [NUL]);
      assert Data() == old(Data()) + (str.value + [NUL]);
      JoinOne(str.value);
      SplitJoin([str.value]);
      SplitAppend(old(Data()), Join([str.value]));
    }

    method Count() returns (count: nat)
      requires Valid()
      ensures count == |Entries()|
    {
      ghost var es := Entries();
      count := 0;
      var i := 0;
      while i < len
        invariant i <= len
        invariant count == if i < len then EntryOf(es, i) else |es|
      {
        if i + 1 < len {
          NextByte(es, i);
        } else {
          LastByte(es);
        }
        if buf[i] == NUL {
          count := count + 1;
        }
        i := i + 1;
      }
    }

    /** Builds the vector of a NULL-terminated array of strings. */
    method Create(argv: seq<CStr>)
      modifies this
      ensures fresh(buf)
      ensures Valid() && Entries() == argv
    {
      len := 0;
      if argv == [] {
        buf := new byte[0];
        return;
      }
      hide Split, Join, WellFormed;
      var argc;
      len, argc := SizeStrings(argv);
      buf := CopyStrings(argv, len, argc);
      assert Data() == buf[..] == Join(argv);
      SplitJoin(argv);
    }

    /** Splits a string at every separator: size the pieces first, then copy them. */
    method CreateSep(str: Option<CStr>, sep: int)
      modifies this
      ensures fresh(buf)
      ensures Valid()
      ensures Entries() == if str.None? || str.value == [] then [] else Pieces(str.value, ToChar(sep))
      ensures len == if str.None? || str.value == [] then 0 else |str.value| + 1
    {
      len := 0;
      if str.None? || str.value == [] {
        buf := new byte[0];
        return;
      }
      hide Pieces, Join, Split;
      var delim := ToChar(sep);
      var numStrings;
      len, numStrings := SizePieces(str.value, delim);
      buf := CopyPieces(str.value, delim, len, numStrings);
      PiecesLength(str.value, delim);
      SplitJoin(Pieces(str.value, delim));
      assert buf[..len] == buf[..];
    }

    method AddSep(str: Option<CStr>, sep: int)
      requires Valid()
      modifies this
      ensures buf == old(buf) || fresh(buf)
      ensures Valid()
      ensures Entries() == old(Entries()) +
                           if str.None? || str.value == [] then [] else Pieces(str.value, ToChar(sep))
    {
      hide Pieces;
      var split := new Argz();
      split.CreateSep(str, sep);
      Append(split.buf[..split.len]);
    }

    /** Overwrites every terminator but the last with the separator. */
    method Stringify(sep: int)
      requires Valid()
      modifies buf
      ensures old(Entries()) == [] ==> Data() == []
      ensures old(Entries()) != [] ==> Data() == Intercalate(old(Entries()), ToChar(sep)) + [NUL]
      ensures Valid()
    {
      ghost var d := Data();
      var c := ToChar(sep);
      if len > 1 {
        for i := 0 to len - 1
          invariant forall k :: 0 <= k < i ==> buf[k] == Stringified(d, c)[k]
          invariant forall k :: i <= k < len ==> buf[k] == d[k]
        {
          if buf[i] == NUL {
            buf[i] := c;
          }
        }
      }
      assert Data() == Stringified(d, c);
      if Split(d) != [] {
        StringifiedJoin(Split(d), c);
      }
    }

    /** Steps back from anywhere inside an entry to where that entry starts. */
    method StepBack(before: nat) returns (delta: nat)
      requires Valid() && before < len
      ensures delta == Offset(Entries(), EntryOf(Entries(), before)) <= before
    {
      hide Split, Join, WellFormed;
      ghost var es := Entries();
      delta := before;
      while delta != 0 && buf[delta - 1] != NUL
        invariant delta <= before
        invariant EntryOf(es, delta) == EntryOf(es, before)
      {
        NextByte(es, delta - 1);
        delta := delta - 1;
      }
      if delta != 0 {
        NextByte(es, delta - 1);
      }
    }

    /** Inserts before the entry that `before` points into, wherever in that entry it points. */
    method Insert(before: Option<int>, entry: CStr) returns (error: Error)
      requires Valid()
      modifies this
      ensures buf == old(buf) || fresh(buf)
      ensures Valid()
      ensures error == EINVAL <==> before.Some? && !(0 <= before.value < old(len))
      ensures error == EINVAL ==> Entries() == old(Entries())
      ensures before.None? ==> Entries() == old(Entries()) + [entry]
      ensures before.Some? && error == NoError ==>
                var k := EntryOf(old(Entries()), before.value);
                Entries() == old(Entries())[..k] + [entry] + old(Entries())[k..]
    {
      if before.None? {
        Add(Some(entry));
        return NoError;
      }
      if before.value < 0 || before.value >= len {
        return EINVAL;
      }
      ghost var es := Entries();
      ghost var k := EntryOf(es, before.value);
      var delta := StepBack(before.value);
      InsertAt(delta, entry + [NUL]);
      InsertJoin(es, k, entry);
      SplitJoin(es[..k] + [entry] + es[k..]);
      return NoError;
    }

    /** Grows the buffer by `n` bytes and moves everything from `delta` on up by as much. */
    method OpenGap(delta: nat, n: nat)
      requires InBounds() && delta <= len
      modifies this`buf
      ensures fresh(buf) && buf.Length == len + n
      ensures buf[..delta] == old(Data())[..delta] && buf[delta + n..] == old(Data())[delta..]
    {
      ghost var d := Data();
      buf := Realloc(buf, len + n);
      assert buf[..len] == d;
      Memmove(buf, delta + n, delta, len - delta);
      assert buf[delta + n..] == buf[delta + n..delta + n + (len - delta)];
    }

    method InsertAt(delta: nat, text: seq<byte>)
      requires InBounds() && delta <= len
      modifies this
      ensures fresh(buf)
      ensures InBounds() && Data() == old(Data())[..delta] + text + old(Data())[delta..]
    {
      OpenGap(delta, |text|);
      Memcpy(buf, delta, text);
      len := len + |text|;
      assert Data() == buf[..delta + |text|] + buf[delta + |text|..];
    }

    /** Closes the gap between `moveto` and `next` by moving the tail of the vector down. */
    method CloseGap(moveto: nat, next: nat)
      requires InBounds() && moveto <= next <= len
      modifies this`len, buf
      ensures InBounds() && Data() == old(Data())[..moveto] + old(Data())[next..]
      ensures next == old(len) ==> buf[..] == old(buf[..])
    {
      Memmove(buf, moveto, next, len - next);
      len := len - (next - moveto);
      assert Data() == buf[..moveto] + buf[moveto..len];
      if next == old(len) {
        assert buf[..] == buf[..moveto] + buf[moveto..];
      }
    }

    /**
     * Removes the text from `entry` to the end of its entry, terminator included. From the start of an
     * entry that removes the entry; from inside it, what is left of it runs into the next entry, or
     * stays without a terminator when there is none.
     */
    method Delete(entry: Option<nat>)
      requires Valid()
      requires entry.Some? ==> entry.value < len
      modifies this, buf
      ensures buf == old(buf) || fresh(buf)
      ensures entry.None? ==> Valid() && Entries() == old(Entries())
      ensures InBounds()
      ensures entry.Some? ==>
                Data() == old(Data())[..entry.value] + old(Data())[Find(old(Data()), NUL, entry.value) + 1..]
      ensures forall k :: 0 <= k < |old(Entries())| && entry == Some(Offset(old(Entries()), k)) ==>
                Valid() && Entries() == old(Entries())[..k] + old(Entries())[k + 1..]
      ensures entry.Some? ==> (Valid() <==> Deletable(old(Entries()), entry.value))
      ensures entry.Some? && Deletable(old(Entries()), entry.value) ==>
                Entries() == Deleted(old(Entries()), entry.value)
    {
      hide Split, Join, Find, Offset, WellFormed;
      if entry.Some? {
        var moveto := entry.value;
        var length := |CStringAt(buf[..len], moveto)| + 1;
        TerminatorAhead(Data(), moveto);
        CloseGap(moveto, moveto + length);
        Overwrite(buf[..len]);
        if len <= 0 {
          buf := new byte[0];
        }
        ghost var es := old(Entries());
        forall k | 0 <= k < |es| && moveto == Offset(es, k)
          ensures Valid() && Entries() == es[..k] + es[k + 1..]
        {
          RemoveEntry(es, k);
        }
        DeleteInside(es, moveto);
      }
    }

    /**
     * Fills `argv` with the entry starts, walking the buffer backwards. The walk stops short of
     * offset 0, so slot 1 is left alone when the first entry is empty and not the only one.
     */
    method Extract(argv: array<Option<nat>>)
      requires Valid()
      requires |Entries()| < argv.Length
      modifies argv
      ensures forall k :: 0 <= k < |Entries()| && (k != 1 || Entries()[0] != []) ==>
                argv[k] == Some(Offset(Entries(), k))
      ensures |Entries()| > 1 && Entries()[0] == [] ==> argv[1] == old(argv[1])
      ensures argv[|Entries()|] == None
      ensures forall k :: |Entries()| < k < argv.Length ==> argv[k] == old(argv[k])
    {
      hide Split, Join, WellFormed;
      var count := Count();
      if len > 1 {
        FillBackwards(argv, count);
      } else {
        ShortVector(Entries());
      }
      argv[0] := Some(0);
      argv[count] := None;
    }

    /** The loop of `argz_extract`: every entry start that follows a terminator at offset 1 or later. */
    method FillBackwards(argv: array<Option<nat>>, count: nat)
      requires Valid() && len > 1
      requires count == |Entries()| < argv.Length
      modifies argv
      ensures forall k :: 0 < k < count && (k != 1 || Entries()[0] != []) ==> argv[k] == Some(Offset(Entries(), k))
      ensures count > 1 && Entries()[0] == [] ==> argv[1] == old(argv[1])
      ensures forall k :: count <= k < argv.Length ==> argv[k] == old(argv[k])
    {
      hide Split, Join, WellFormed;
      ghost var es := Entries();
      ghost var d := Data();
      var j := 0;
      LastByte(es);
      var i: nat := len - 2;
      while i > 0
        invariant i < len - 1 && 0 <= j < count
        invariant EntryOf(es, i + 1) == count - j - 1
        invariant forall k :: count - j <= k < count ==> argv[k] == Some(Offset(es, k))
        invariant forall k :: 0 <= k < count - j ==> argv[k] == old(argv[k])
        invariant forall k :: count <= k < argv.Length ==> argv[k] == old(argv[k])
      {
        NextByte(es, i);
        if buf[i] == NUL {
          assert d[i] == NUL;
          j := j + 1;
          argv[count - j] := Some(i + 1);
        }
        i := i - 1;
      }
      FirstOffsets(es);
    }

    /** First pass of `argz_replace`: the number of occurrences and the size of the result. */
    method CountMatches(str: CStr, with: CStr) returns (count: nat, newLen: nat)
      requires Valid() && str != []
      ensures count == Occurrences(Data(), str)
      ensures newLen == |Replaced(Data(), str, with)|
    {
      hide Replaced, Occurrences, FirstMatch;
      ghost var d := Data();
      var diff := |with| - |str|;
      var iter: nat, rest: nat := 0, len;
      var found;
      var size: int := len;
      count := 0;
      assert d[0..] == d;
      while rest != 0
        invariant iter + rest == len
        invariant Occurrences(d, str) == count + Occurrences(d[iter..], str)
        invariant |Replaced(d, str, with)| == size - rest + |Replaced(d[iter..], str, with)|
        decreases rest
      {
        ghost var p := iter;
        found, iter, rest := BufFindStr(str, buf, iter, rest);
        if found {
          ReplacedFound(d, str, with, p, iter - |str|);
          count := count + 1;
          size := size + diff;
        } else {
          ReplacedRest(d, str, with, p);
          NothingLeft(d, str, with);
        }
      }
      NothingLeft(d, str, with);
      newLen := size;
    }

    /** Makes `contents` the whole vector. */
    method Overwrite(contents: seq<byte>)
      modifies this
      ensures fresh(buf) && InBounds() && Data() == contents
    {
      buf := Realloc(buf, |contents|);
      Memcpy(buf, 0, contents);
      len := |contents|;
    }

    /** Replaces every occurrence of `str`: count and size first, then copy into a buffer of that size. */
    method Replace(str: CStr, with: CStr) returns (count: nat)
      requires Valid()
      requires str != [] || len == 0
      modifies this
      ensures buf == old(buf) || fresh(buf)
      ensures Valid()
      ensures str == [] ==> Entries() == old(Entries()) && count == 0
      ensures str != [] ==> Entries() == ReplaceEach(old(Entries()), str, with)
      ensures str != [] ==> count == TotalOccurrences(old(Entries()), str)
    {
      if str == [] {
        return 0;
      }
      hide Replaced, Occurrences, TotalOccurrences, ReplaceEach, Split, Join;
      var newLen;
      count, newLen := CountMatches(str, with);
      ReplacedJoin(Entries(), str, with);
      SplitJoin(ReplaceEach(Entries(), str, with));
      if count != 0 {
        var copy := CopyReplaced(buf, len, str, with, newLen);
        Overwrite(copy[..]);
      } else {
        NothingReplaced(Data(), str, with);
      }
    }
  }

  /** Second pass of `argz_replace`: copy into a buffer of exactly the size the first pass computed. */
  method CopyReplaced(argz: array<byte>, len: nat, str: CStr, with: CStr, newLen: nat) returns (out: array<byte>)
    requires len <= argz.Length && WellFormed(argz[..len]) && str != []
    requires newLen == |Replaced(argz[..len], str, with)|
    ensures fresh(out) && out[..] == Replaced(argz[..len], str, with)
  {
    hide Replaced, Occurrences, FirstMatch;
    ghost var d := argz[..len];
    ghost var r := Replaced(d, str, with);
    out := new byte[newLen];
    var iter: nat, rest: nat := 0, len;
    var last: nat, at: nat := 0, 0;
    var found;
    assert d[0..] == d;
    while rest != 0
      invariant iter + rest == len
      invariant last <= iter && at <= newLen
      invariant r == out[..at] + Replaced(d[last..], str, with)
      invariant last == iter || (FirstMatch(d, str, last) == None && rest == 0)
      decreases rest
    {
      found, iter, rest := BufFindStr(str, argz, iter, rest);
      if found {
        var kept := argz[last..iter - |str|];
        ReplacedFound(d, str, with, last, iter - |str|);
        SameSlice(argz, len, last, iter - |str|);
        Regroup(out[..at], kept, with, Replaced(d[iter..], str, with));
        at := CopyTwo(out, at, kept, with);
        last := iter;
      }
    }
    if last == iter {
      NothingLeft(d, str, with);
    } else {
      ReplacedRest(d, str, with, last);
    }
    SameSlice(argz, len, last, len);
    Memcpy(out, at, argz[last..len]);
    assert out[..] == out[..newLen];
  }

  /** The sizing loop of `argz_create`. */
  method SizeStrings(argv: seq<CStr>) returns (len: nat, argc: nat)
    ensures len == |Join(argv)| && argc == |argv|
  {
    hide Join;
    argc, len := 0, 0;
    assert argv[0..] == argv;
    while argc < |argv|
      invariant argc <= |argv|
      invariant |Join(argv)| == len + |Join(argv[argc..])|
    {
      JoinDrop(argv, argc);
      len := len + (|argv[argc]| + 1);
      argc := argc + 1;
    }
    JoinNone();
    assert argv[argc..] == [];
  }

  /** The copying loop of `argz_create`. */
  method CopyStrings(argv: seq<CStr>, len: nat, argc: nat) returns (out: array<byte>)
    requires len == |Join(argv)| && argc == |argv|
    ensures fresh(out) && out[..] == Join(argv)
  {
    hide Join;
    out := new byte[len];
    var iter: nat := 0;
    assert argv[0..] == argv;
    for i := 0 to argc
      invariant iter <= len
      invariant Join(argv) == out[..iter] + Join(argv[i..])
    {
      JoinDrop(argv, i);
      var text := argv[i] + [NUL];
      CopyStep(out[..iter], text, Join(argv[i + 1..]));
      Memcpy(out, iter, text);
      iter := iter + |text|;
    }
    JoinNone();
    assert argv[argc..] == [];
    assert out[..] == out[..iter];
  }

  lemma SameSlice(a: array<byte>, n: nat, i: nat, j: nat)
    requires i <= j <= n <= a.Length
    ensures a[i..j] == a[..n][i..j]
    ensures a[i..n] == a[..n][i..]
  {
  }

  lemma JoinDrop(es: seq<CStr>, k: nat)
    requires k < |es|
    ensures Join(es[k..]) == es[k] + [NUL] + Join(es[k + 1..])
  {
    assert es[k..][1..] == es[k + 1..];
  }

  /** First pass of `argz_create_sep`: the pieces counted, each with its terminator. */
  method SizePieces(str: CStr, delim: byte) returns (len: nat, numStrings: nat)
    ensures len == |Join(Pieces(str, delim))| && numStrings == |Pieces(str, delim)|
  {
    hide Pieces, Join;
    var running := Some(str);
    len, numStrings := 0, 0;
    while running.Some?
      invariant |Pieces(str, delim)| == numStrings + |PiecesLeft(running, delim)|
      invariant |Join(Pieces(str, delim))| == len + |Join(PiecesLeft(running, delim))|
      decreases match running case None => 0 case Some(r) => |r| + 1
    {
      PiecesStep(running.value, delim);
      var (token, rest) := StrSep(running.value, delim);
      running := rest;
      len := len + (|token| + 1);
      numStrings := numStrings + 1;
    }
    JoinNone();
  }

  /** Second pass: the pieces one after another, in a buffer of that size. */
  method CopyPieces(str: CStr, delim: byte, len: nat, numStrings: nat) returns (out: array<byte>)
    requires len == |Join(Pieces(str, delim))| && numStrings == |Pieces(str, delim)|
    ensures fresh(out) && out[..] == Join(Pieces(str, delim))
  {
    hide Pieces, Join, StrSep;
    out := new byte[len];
    var running := Some(str);
    var iter: nat := 0;
    for i := 0 to numStrings
      invariant numStrings == i + |PiecesLeft(running, delim)|
      invariant iter <= len
      invariant Join(Pieces(str, delim)) == out[..iter] + Join(PiecesLeft(running, delim))
    {
      PiecesStep(running.value, delim);
      var (token, rest) := StrSep(running.value, delim);
      var text := token + [NUL];
      running := rest;
      CopyStep(out[..iter], text, Join(PiecesLeft(running, delim)));
      Memcpy(out, iter, text);
      iter := iter + |text|;
    }
    JoinNone();
    assert PiecesLeft(running, delim) == [];
    assert out[..] == out[..iter];
  }

  ghost function PiecesLeft(running: Option<CStr>, delim: byte): seq<CStr> {
    match running
    case None => []
    case Some(r) => Pieces(r, delim)
  }

  lemma JoinNone()
    ensures Join([]) == []
  {
  }

  /** Copying `text` behind what is written leaves the rest to be copied, and there is room for it. */
  lemma CopyStep(written: seq<byte>, text: seq<byte>, rest: seq<byte>)
    ensures written + (text + rest) == written + text + rest
    ensures |written| + |text| <= |written + (text + rest)|
  {
  }

  /** Copies two texts one after the other. */
  method CopyTwo(out: array<byte>, at: nat, first: seq<byte>, second: seq<byte>) returns (at': nat)
    requires at + |first| + |second| <= out.Length
    modifies out
    ensures at' == at + |first| + |second|
    ensures out[..at'] == old(out[..at]) + first + second
  {
    Memcpy(out, at, first);
    at' := at + |first|;
    Memcpy(out, at', second);
    at' := at' + |second|;
  }

  /** Which entry offset 1 falls into. */
  lemma FirstOffsets(es: seq<CStr>)
    requires |Join(es)| > 1
    ensures es != [] && EntryOf(es, 1) == if es[0] == [] then 1 else 0
  {
    OffsetWhole(es);
    EntryUnique(es, if es[0] == [] then 1 else 0, 1);
  }

  lemma Regroup(a: seq<byte>, b: seq<byte>, c: seq<byte>, d: seq<byte>)
    ensures a + (b + (c + d)) == a + b + c + d
  {
  }

  lemma NothingLeft(d: seq<byte>, str: CStr, with: CStr)
    requires str != []
    ensures d[|d|..] == [] && Replaced(d[|d|..], str, with) == [] && Occurrences(d[|d|..], str) == 0
  {
  }

  /** `strsep`: the token up to the delimiter, and what is left to split, if anything. */
  function StrSep(running: CStr, delim: byte): (r: (CStr, Option<CStr>))
  {
    var n := Find(running, delim, 0);
    (running[..n], if n == |running| then None else Some(running[n + 1..]))
  }

  lemma PiecesStep(s: CStr, c: byte)
    ensures var (token, rest) := StrSep(s, c);
            && |Pieces(s, c)| == 1 + |PiecesLeft(rest, c)|
            && Join(Pieces(s, c)) == token + [NUL] + Join(PiecesLeft(rest, c))
            && (rest.Some? ==> |rest.value| < |s|)
  {
    var (token, rest) := StrSep(s, c);
    if rest.Some? {
      assert Pieces(s, c)[1..] == Pieces(rest.value, c);
    } else {
      JoinOne(s);
      assert s[..|s|] == s;
    }
  }

  /** `argz_next`: the entry after the one `entry` points into, or the first one from null. */
  method Next(argz: array<byte>, len: nat, entry: Option<nat>) returns (r: Option<nat>)
    requires len <= argz.Length
    requires entry.Some? ==> entry.value <= argz.Length && Find(argz[..], NUL, entry.value) < argz.Length
    ensures r == NextOffset(argz[..], len, entry)
  {
    if entry.Some? {
      var e := entry.value;
      while argz[e] != NUL
        invariant entry.value <= e < argz.Length
        invariant Find(argz[..], NUL, entry.value) == Find(argz[..], NUL, e)
        decreases argz.Length - e
      {
        e := e + 1;
      }
      e := e + 1;
      return if e >= len then None else Some(e);
    } else {
      return if len > 0 then Some(0) else None;
    }
  }
}
