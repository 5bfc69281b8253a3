// The substring scanner `_buf_findstr`, and what scanning a whole vector with it amounts to.
module Scanner {
  import opened Bytes
  import opened ArgzVector

  /** `str` stands at offset `i` of `d`. The empty string is taken to stand at terminators, as the scanner does. */
  predicate MatchAt(d: seq<byte>, str: CStr, i: nat) {
    i < |d| && str <= d[i..] && (str == [] ==> d[i] == NUL)
  }

  /** The leftmost match at or after `p`. */
  function FirstMatch(d: seq<byte>, str: CStr, p: nat): (r: Option<nat>)
    requires p <= |d|
    ensures r.Some? ==> p <= r.value && MatchAt(d, str, r.value)
    decreases |d| - p
  {
    if p == |d| then None else if MatchAt(d, str, p) then Some(p) else FirstMatch(d, str, p + 1)
  }

  lemma {:induction false} FirstMatchLeast(d: seq<byte>, str: CStr, p: nat, k: nat)
    requires p <= k && MatchAt(d, str, k)
    ensures FirstMatch(d, str, p).Some? && FirstMatch(d, str, p).value <= k
    decreases k - p
  {
    if !MatchAt(d, str, p) {
      FirstMatchLeast(d, str, p + 1, k);
    }
  }

  lemma FirstMatchHere(d: seq<byte>, str: CStr, p: nat)
    requires p < |d|
    ensures FirstMatch(d, str, p) == if MatchAt(d, str, p) then Some(p) else FirstMatch(d, str, p + 1)
  {
  }

  /** What the inner loop of the scanner decides: `n` bytes agree, and then the text ends or disagrees. */
  lemma Compared(d: seq<byte>, str: CStr, i: nat, n: nat)
    requires n <= |str| && i + n < |d|
    requires forall k :: 0 <= k < n ==> str[k] == d[i + k]
    requires CharAt(str, 0) == d[i]
    requires n < |str| ==> str[n] != d[i + n]
    ensures MatchAt(d, str, i) <==> n == |str|
  {
    if n == |str| {
      assert d[i..][..n] == str;
    } else {
      assert d[i..][n] != str[n];
    }
  }

  /**
   * `_buf_findstr`: find `str` in the `bufLen` bytes at offset `buf`, and leave the buffer just past
   * the match. The inner loop has no length test; it stays inside because the buffer ends with NUL.
   */
  method BufFindStr(str: CStr, a: array<byte>, buf: nat, bufLen: nat)
    returns (found: bool, buf': nat, bufLen': nat)
    requires buf + bufLen <= a.Length
    requires bufLen > 0 ==> a[buf + bufLen - 1] == NUL
    ensures buf' + bufLen' == buf + bufLen
    ensures match FirstMatch(a[..buf + bufLen], str, buf)
      case Some(i) => found && buf' == i + |str|
      case None => !found && bufLen' == 0
  {
    hide FirstMatch, MatchAt;
    ghost var d := a[..buf + bufLen];
    var i := 0;
    while i < bufLen
      invariant i <= bufLen
      invariant FirstMatch(d, str, buf) == FirstMatch(d, str, buf + i)
    {
      FirstMatchHere(d, str, buf + i);
      if CharAt(str, 0) == a[buf + i] {
        var j := i;
        while CharAt(str, j - i) != NUL && CharAt(str, j - i) == a[buf + j]
          invariant i <= j < bufLen && j - i <= |str|
          invariant forall k :: 0 <= k < j - i ==> str[k] == d[buf + i + k]
          decreases bufLen - j
        {
          j := j + 1;
        }
        Compared(d, str, buf + i, j - i);
        if CharAt(str, j - i) == NUL {
          return true, buf + j, bufLen - j;
        }
      } else {
        FirstByteDiffers(d, str, buf + i);
      }
      i := i + 1;
    }
    NoMatchAtEnd(d, str);
    return false, buf + bufLen, 0;
  }

  lemma FirstByteDiffers(d: seq<byte>, str: CStr, i: nat)
    requires i < |d| && CharAt(str, 0) != d[i]
    ensures !MatchAt(d, str, i)
  {
    assert d[i..][0] == d[i];
  }

  lemma NoMatchAtEnd(d: seq<byte>, str: CStr)
    ensures FirstMatch(d, str, |d|) == None
  {
  }

  /** With an empty `str` the scanner stops on a terminator without consuming it, so scanning never advances again. */
  lemma EmptyStringStalls(d: seq<byte>, p: nat)
    requires WellFormed(d) && p < |d|
    ensures FirstMatch(d, [], p).Some?
    ensures FirstMatch(d, [], FirstMatch(d, [], p).value) == FirstMatch(d, [], p)
  {
    FirstMatchLeast(d, [], p, |d| - 1);
  }

  // ----- replacing every occurrence -----

  /** Every leftmost non-overlapping occurrence of `str` in `d` replaced by `with`. */
  function Replaced(d: seq<byte>, str: CStr, with: CStr): (r: seq<byte>)
    requires str != []
    ensures NulFree(d) ==> NulFree(r)
    decreases |d|
  {
    if d == [] then []
    else if str <= d then with + Replaced(d[|str|..], str, with)
    else [d[0]] + Replaced(d[1..], str, with)
  }

  /** How many occurrences `Replaced` replaces. */
  function Occurrences(d: seq<byte>, str: CStr): nat
    requires str != []
    decreases |d|
  {
    if d == [] then 0
    else if str <= d then 1 + Occurrences(d[|str|..], str)
    else Occurrences(d[1..], str)
  }

  lemma ReplacedHere(d: seq<byte>, str: CStr, with: CStr, p: nat)
    requires str != [] && p < |d|
    ensures MatchAt(d, str, p) ==>
              && Replaced(d[p..], str, with) == with + Replaced(d[p + |str|..], str, with)
              && Occurrences(d[p..], str) == 1 + Occurrences(d[p + |str|..], str)
    ensures !MatchAt(d, str, p) ==>
              && Replaced(d[p..], str, with) == [d[p]] + Replaced(d[p + 1..], str, with)
              && Occurrences(d[p..], str) == Occurrences(d[p + 1..], str)
  {
    var t := d[p..];
    assert t[1..] == d[p + 1..];
    if MatchAt(d, str, p) {
      assert t[|str|..] == d[p + |str|..];
    }
  }

  /** Scanner steps, seen from the replacement: everything before the leftmost match is copied. */
  lemma {:induction false} ReplacedSkip(d: seq<byte>, str: CStr, with: CStr, p: nat, i: nat)
    requires str != [] && p <= i <= |d|
    requires FirstMatch(d, str, p) == if i < |d| then Some(i) else None
    ensures Replaced(d[p..], str, with) == d[p..i] + Replaced(d[i..], str, with)
    ensures Occurrences(d[p..], str) == Occurrences(d[i..], str)
    decreases i - p
  {
    hide Replaced, Occurrences, MatchAt;
    if p == i {
      assert d[p..i] == [];
    } else {
      ReplacedHere(d, str, with, p);
      FirstMatchHere(d, str, p);
      calc {
        Replaced(d[p..], str, with);
        [d[p]] + Replaced(d[p + 1..], str, with);
        { ReplacedSkip(d, str, with, p + 1, i); }
        [d[p]] + (d[p + 1..i] + Replaced(d[i..], str, with));
        { assert d[p..i] == [d[p]] + d[p + 1..i]; }
        d[p..i] + Replaced(d[i..], str, with);
      }
      ReplacedSkip(d, str, with, p + 1, i);
    }
  }

  /** A scanner step that finds a match: the text before it, the replacement, and the rest. */
  lemma ReplacedFound(d: seq<byte>, str: CStr, with: CStr, p: nat, i: nat)
    requires str != [] && p <= |d| && FirstMatch(d, str, p) == Some(i)
    ensures Replaced(d[p..], str, with) == d[p..i] + (with + Replaced(d[i + |str|..], str, with))
    ensures Occurrences(d[p..], str) == 1 + Occurrences(d[i + |str|..], str)
  {
    hide Replaced, Occurrences, FirstMatch;
    ReplacedSkip(d, str, with, p, i);
    ReplacedHere(d, str, with, i);
  }

  /** The last scanner step, which finds none: the rest stays as it is. */
  lemma ReplacedRest(d: seq<byte>, str: CStr, with: CStr, p: nat)
    requires str != [] && p <= |d| && FirstMatch(d, str, p) == None
    ensures Replaced(d[p..], str, with) == d[p..]
    ensures Occurrences(d[p..], str) == 0
  {
    assert d[|d|..] == [] && d[p..|d|] == d[p..];
    ReplacedSkip(d, str, with, p, |d|);
  }

  lemma {:induction false} NothingReplaced(d: seq<byte>, str: CStr, with: CStr)
    requires str != [] && Occurrences(d, str) == 0
    ensures Replaced(d, str, with) == d
    decreases |d|
  {
    if d != [] {
      NothingReplaced(d[1..], str, with);
    }
  }

  /** A terminator bounds every match: `str` cannot begin in one entry and end in another. */
  lemma NoMatchAcross(e: CStr, str: CStr, rest: seq<byte>)
    requires str != []
    ensures str <= e + [NUL] + rest <==> str <= e
  {
    var d := e + [NUL] + rest;
    assert d[..|e|] == e && d[|e|] == NUL;
  }

  lemma ReplacedHead(d: seq<byte>, str: CStr, with: CStr)
    requires str != [] && d != []
    ensures var n := if str <= d then |str| else 1;
            && Replaced(d, str, with) == (if str <= d then with else [d[0]]) + Replaced(d[n..], str, with)
            && Occurrences(d, str) == (if str <= d then 1 else 0) + Occurrences(d[n..], str)
  {
  }

  lemma {:induction false} ReplacedEntry(e: CStr, str: CStr, with: CStr, rest: seq<byte>)
    requires str != []
    ensures Replaced(e + [NUL] + rest, str, with) == Replaced(e, str, with) + ([NUL] + Replaced(rest, str, with))
    ensures Occurrences(e + [NUL] + rest, str) == Occurrences(e, str) + Occurrences(rest, str)
    decreases |e|
  {
    var d := e + [NUL] + rest;
    NoMatchAcross(e, str, rest);
    ReplacedHead(d, str, with);
    if e == [] {
      assert d[1..] == rest;
    } else {
      hide Replaced, Occurrences;
      var n := if str <= e then |str| else 1;
      assert d[n..] == e[n..] + [NUL] + rest;
      ReplacedHead(e, str, with);
      ReplacedEntry(e[n..], str, with, rest);
      Regroup(if str <= e then with else [e[0]], Replaced(e[n..], str, with), [NUL] + Replaced(rest, str, with));
    }
  }

  lemma Regroup(a: seq<byte>, b: seq<byte>, c: seq<byte>)
    ensures a + (b + c) == a + b + c
  {
  }

  function ReplaceEach(es: seq<CStr>, str: CStr, with: CStr): (r: seq<CStr>)
    requires str != []
    ensures |r| == |es|
    ensures forall k :: 0 <= k < |es| ==> r[k] == Replaced(es[k], str, with)
  {
    if es == [] then [] else [Replaced(es[0], str, with)] + ReplaceEach(es[1..], str, with)
  }

  function TotalOccurrences(es: seq<CStr>, str: CStr): nat
    requires str != []
  {
    if es == [] then 0 else Occurrences(es[0], str) + TotalOccurrences(es[1..], str)
  }

  /** Replacing on the flat buffer is replacing entry by entry. */
  lemma {:induction false} ReplacedJoin(es: seq<CStr>, str: CStr, with: CStr)
    requires str != []
    ensures Replaced(Join(es), str, with) == Join(ReplaceEach(es, str, with))
    ensures Occurrences(Join(es), str) == TotalOccurrences(es, str)
  {
    if es != [] {
      hide Replaced, Occurrences;
      ReplacedJoin(es[1..], str, with);
      ReplacedEntry(es[0], str, with, Join(es[1..]));
      var r := ReplaceEach(es, str, with);
      assert r[0] == Replaced(es[0], str, with) && r[1..] == ReplaceEach(es[1..], str, with);
      hide ReplaceEach;
      Regroup(r[0], [NUL], Join(r[1..]));
    } else {
      assert Replaced([], str, with) == [] && Occurrences([], str) == 0;
    }
  }

  // ----- what `Replaced` means, without the scan -----

  /** `d` cut at the leftmost non-overlapping occurrences of `str`. */
  function Cut(d: seq<byte>, str: CStr): (ps: seq<seq<byte>>)
    requires str != []
    ensures |ps| >= 1
    decreases |d|
  {
    match FirstMatch(d, str, 0)
    case None => [d]
    case Some(i) => [d[..i]] + Cut(d[i + |str|..], str)
  }

  function Glue(ps: seq<seq<byte>>, sep: CStr): seq<byte>
    requires |ps| >= 1
  {
    if |ps| == 1 then ps[0] else ps[0] + (sep + Glue(ps[1..], sep))
  }

  lemma GlueCons(p: seq<byte>, ps: seq<seq<byte>>, sep: CStr)
    requires |ps| >= 1
    ensures Glue([p] + ps, sep) == p + (sep + Glue(ps, sep))
  {
    assert ([p] + ps)[1..] == ps;
  }

  /** What precedes the leftmost match holds no match. */
  lemma NoMatchBefore(d: seq<byte>, str: CStr, i: nat, j: nat)
    requires str != [] && FirstMatch(d, str, 0) == Some(i)
    ensures !MatchAt(d[..i], str, j)
  {
    if MatchAt(d[..i], str, j) {
      assert d[j..][..i - j] == d[..i][j..];
      FirstMatchLeast(d, str, 0, j);
    }
  }

  lemma CutAround(d: seq<byte>, str: CStr, i: nat)
    requires MatchAt(d, str, i)
    ensures d == d[..i] + (str + d[i + |str|..])
  {
    var t := d[i..];
    assert t == str + t[|str|..];
    assert d == d[..i] + t;
  }

  lemma CutFound(d: seq<byte>, str: CStr, i: nat)
    requires str != [] && FirstMatch(d, str, 0) == Some(i)
    ensures d == d[..i] + (str + d[i + |str|..])
    ensures Cut(d, str) == [d[..i]] + Cut(d[i + |str|..], str)
  {
    hide MatchAt;
    CutAround(d, str, i);
  }

  /** The pieces between occurrences are untouched, and only the glue changes. */
  lemma {:induction false} ReplacedIsReglued(d: seq<byte>, str: CStr, with: CStr)
    requires str != []
    ensures Glue(Cut(d, str), str) == d
    ensures Glue(Cut(d, str), with) == Replaced(d, str, with)
    ensures |Cut(d, str)| == 1 + Occurrences(d, str)
    decreases |d|
  {
    assert d[0..] == d;
    match FirstMatch(d, str, 0)
    case None =>
      ReplacedRest(d, str, with, 0);
    case Some(i) =>
      hide Replaced, Occurrences, FirstMatch, Cut, Glue;
      ReplacedFound(d, str, with, 0, i);
      CutFound(d, str, i);
      var rest := d[i + |str|..];
      ReplacedIsReglued(rest, str, with);
      GlueCons(d[..i], Cut(rest, str), str);
      GlueCons(d[..i], Cut(rest, str), with);
  }

  /** No piece of the cut holds an occurrence: nothing that could be replaced was missed. */
  lemma {:induction false} CutLeavesNoMatch(d: seq<byte>, str: CStr, k: nat, j: nat)
    requires str != [] && k < |Cut(d, str)|
    ensures !MatchAt(Cut(d, str)[k], str, j)
    decreases |d|
  {
    var first := FirstMatch(d, str, 0);
    if first == None {
      if MatchAt(d, str, j) {
        FirstMatchLeast(d, str, 0, j);
      }
    } else {
      var i := first.value;
      CutFound(d, str, i);
      var rest := d[i + |str|..];
      hide Cut, MatchAt, FirstMatch;
      if k == 0 {
        NoMatchBefore(d, str, i, j);
      } else {
        CutLeavesNoMatch(rest, str, k - 1, j);
        assert Cut(d, str)[k] == Cut(rest, str)[k - 1];
      }
    }
  }

  // ----- looking for a name -----

  function Shift(r: Option<nat>, n: nat): Option<nat> {
    match r
    case None => None
    case Some(i) => Some(i + n)
  }

  predicate EndsName(c: byte) {
    c == EQUALS || c == NUL
  }

  /**
   * The first scanned occurrence of `name` followed by '=' or by the end of its entry. An occurrence
   * that is rejected is skipped as a whole, so matches overlapping it are not considered.
   */
  function Scan(d: seq<byte>, name: CStr): (r: Option<nat>)
    requires name != []
    decreases |d|
  {
    if d == [] then None
    else if name <= d then
      if |name| == |d| || EndsName(d[|name|]) then Some(0) else Shift(Scan(d[|name|..], name), |name|)
    else Shift(Scan(d[1..], name), 1)
  }

  /** A hit is an occurrence that ends where a name may end. */
  lemma {:induction false} ScanHit(d: seq<byte>, name: CStr, i: nat)
    requires name != [] && Scan(d, name) == Some(i)
    ensures MatchAt(d, name, i)
    ensures i + |name| < |d| ==> EndsName(d[i + |name|])
    decreases |d|
  {
    if i == 0 {
      ScanAtZero(d, name);
    } else {
      var n := if name <= d then |name| else 1;
      var t := d[n..];
      assert Scan(t, name) == Some(i - n);
      hide Scan;
      ScanHit(t, name, i - n);
      assert t[i - n..] == d[i..];
      assert i + |name| < |d| ==> t[i - n + |name|] == d[i + |name|];
    }
  }

  lemma ScanAtZero(d: seq<byte>, name: CStr)
    requires name != [] && Scan(d, name) == Some(0)
    ensures MatchAt(d, name, 0)
    ensures |name| < |d| ==> EndsName(d[|name|])
  {
    assert d[0..] == d;
  }

  lemma ScanHere(d: seq<byte>, name: CStr, p: nat)
    requires name != [] && p < |d|
    ensures Scan(d[p..], name) ==
            if !MatchAt(d, name, p) then Shift(Scan(d[p + 1..], name), 1)
            else if p + |name| == |d| || EndsName(d[p + |name|]) then Some(0)
            else Shift(Scan(d[p + |name|..], name), |name|)
  {
    var t := d[p..];
    assert t[1..] == d[p + 1..];
    if MatchAt(d, name, p) {
      assert t[|name|..] == d[p + |name|..];
    }
  }

  /** Scanner steps, seen from the search for a name: nothing before the leftmost match can be a hit. */
  lemma {:induction false} ScanNothing(d: seq<byte>, name: CStr, p: nat)
    requires name != [] && p <= |d| && FirstMatch(d, name, p).None?
    ensures Scan(d[p..], name).None?
    decreases |d| - p
  {
    if p < |d| {
      ScanHere(d, name, p);
      ScanNothing(d, name, p + 1);
    }
  }

  lemma {:induction false} ScanSkip(d: seq<byte>, name: CStr, p: nat, i: nat)
    requires name != [] && p <= |d| && FirstMatch(d, name, p) == Some(i)
    ensures Scan(d[p..], name) == Shift(Scan(d[i..], name), i - p)
    decreases i - p
  {
    if p < i {
      ScanHere(d, name, p);
      ScanSkip(d, name, p + 1, i);
    }
  }

  lemma {:induction false} ScanEntry(e: CStr, name: CStr, rest: seq<byte>)
    requires name != []
    ensures Scan(e + [NUL] + rest, name) ==
            if Scan(e, name).Some? then Scan(e, name) else Shift(Scan(rest, name), |e| + 1)
    decreases |e|
  {
    var d := e + [NUL] + rest;
    NoMatchAcross(e, name, rest);
    if e == [] {
      assert d[1..] == rest;
    } else {
      var n := if name <= e then |name| else 1;
      assert d[n..] == e[n..] + [NUL] + rest;
      assert n < |e| ==> d[n] == e[n];
      assert n == |e| ==> d[n] == NUL;
      ScanEntry(e[n..], name, rest);
    }
  }

  // ----- what `Scan` means, without the scan -----

  /** A name may end in front of this text. */
  predicate NameMayEnd(t: seq<byte>) {
    t == [] || t[0] == 61 || t[0] == 0
  }

  /** Of the leftmost non-overlapping occurrences of `name`, the one in front of piece `k` ends where a name may end. */
  predicate AcceptsAt(d: seq<byte>, name: CStr, k: nat)
    requires name != []
  {
    1 <= k < |Cut(d, name)| && NameMayEnd(Glue(Cut(d, name)[k..], name))
  }

  /** Some one of the leftmost non-overlapping occurrences of `name` ends where a name may end. */
  ghost predicate Accepts(d: seq<byte>, name: CStr)
    requires name != []
  {
    exists k: nat :: AcceptsAt(d, name, k)
  }

  lemma AcceptsFirst(d: seq<byte>, rest: seq<byte>, name: CStr)
    requires name != [] && |Cut(d, name)| > 1 && Cut(d, name)[1..] == Cut(rest, name)
    ensures AcceptsAt(d, name, 1) <==> NameMayEnd(rest)
  {
    hide Cut, NameMayEnd;
    ReplacedIsReglued(rest, name, name);
  }

  lemma CutTail(d: seq<byte>, name: CStr, i: nat)
    requires name != [] && FirstMatch(d, name, 0) == Some(i)
    ensures MatchAt(d, name, i) && |Cut(d, name)| > 1 && Cut(d, name)[1..] == Cut(d[i + |name|..], name)
  {
    hide MatchAt;
    CutFound(d, name, i);
  }

  lemma AcceptsStep(d: seq<byte>, name: CStr, i: nat)
    requires name != [] && FirstMatch(d, name, 0) == Some(i)
    ensures Accepts(d, name) <==> NameMayEnd(d[i + |name|..]) || Accepts(d[i + |name|..], name)
  {
    hide Cut, Glue, NameMayEnd, FirstMatch, AcceptsAt;
    CutTail(d, name, i);
    hide MatchAt;
    var rest := d[i + |name|..];
    AcceptsFirst(d, rest, name);
    if Accepts(d, name) && !NameMayEnd(rest) {
      var k: nat :| AcceptsAt(d, name, k);
      AcceptsPositive(d, name, k);
      AcceptsLater(d, rest, name, k - 1);
    }
    if Accepts(rest, name) {
      var k: nat :| AcceptsAt(rest, name, k);
      AcceptsPositive(rest, name, k);
      AcceptsLater(d, rest, name, k);
    }
  }

  lemma AcceptsPositive(d: seq<byte>, name: CStr, k: nat)
    requires name != [] && AcceptsAt(d, name, k)
    ensures k >= 1
  {
  }

  lemma AcceptsLater(d: seq<byte>, rest: seq<byte>, name: CStr, k: nat)
    requires name != [] && k >= 1 && Cut(d, name)[1..] == Cut(rest, name)
    ensures AcceptsAt(d, name, k + 1) <==> AcceptsAt(rest, name, k)
  {
    hide Cut, Glue, NameMayEnd;
    if k < |Cut(rest, name)| {
      assert Cut(d, name)[k + 1..] == Cut(rest, name)[k..];
    }
  }

  /** The scan accepts a text exactly when one of the occurrences that cut it ends where a name may end. */
  lemma {:induction false} ScanExactly(d: seq<byte>, name: CStr)
    requires name != []
    ensures Scan(d, name).Some? <==> Accepts(d, name)
    decreases |d|
  {
    assert d[0..] == d;
    match FirstMatch(d, name, 0)
    case None =>
      ScanNothing(d, name, 0);
    case Some(i) =>
      hide Scan, Accepts, FirstMatch;
      AcceptsStep(d, name, i);
      ScanSkip(d, name, 0, i);
      ScanHere(d, name, i);
      ScanExactly(d[i + |name|..], name);
  }

  /** The occurrence in front of piece `k` is at offset `i`, and it is the first that is accepted. */
  ghost predicate FirstAccepted(d: seq<byte>, name: CStr, i: nat, k: nat)
    requires name != []
  {
    && AcceptsAt(d, name, k) && (forall j: nat :: j < k ==> !AcceptsAt(d, name, j))
    && i + |name| <= |d| && k < |Cut(d, name)| && d[i + |name|..] == Glue(Cut(d, name)[k..], name)
  }

  lemma AcceptedHere(d: seq<byte>, name: CStr, m: nat)
    requires name != [] && FirstMatch(d, name, 0) == Some(m)
    requires m + |name| <= |d| && NameMayEnd(d[m + |name|..])
    ensures FirstAccepted(d, name, m, 1)
  {
    var rest := d[m + |name|..];
    CutTail(d, name, m);
    AcceptsFirst(d, rest, name);
    ReplacedIsReglued(rest, name, name);
    NotAccepted(d, name);
    hide Cut, Glue, NameMayEnd, FirstMatch, AcceptsAt;
  }

  lemma AcceptedLater(d: seq<byte>, name: CStr, m: nat, i: nat, k: nat)
    requires name != [] && FirstMatch(d, name, 0) == Some(m)
    requires m + |name| <= |d| && !NameMayEnd(d[m + |name|..]) && FirstAccepted(d[m + |name|..], name, i, k)
    ensures FirstAccepted(d, name, m + |name| + i, k + 1)
  {
    var rest := d[m + |name|..];
    CutTail(d, name, m);
    AcceptsFirst(d, rest, name);
    NotAccepted(d, name);
    hide Cut, Glue, NameMayEnd, FirstMatch, AcceptsAt, MatchAt;
    AcceptsPositive(rest, name, k);
    AcceptsLater(d, rest, name, k);
    forall j: nat | j < k + 1
      ensures !AcceptsAt(d, name, j)
    {
      if j > 1 {
        AcceptsLater(d, rest, name, j - 1);
      }
    }
    assert Cut(d, name)[k + 1..] == Cut(d, name)[1..][k..];
    assert rest[i + |name|..] == d[m + |name| + i + |name|..];
  }

  /** The hit is at the first occurrence that is accepted. */
  lemma {:induction false} ScanPosition(d: seq<byte>, name: CStr, i: nat)
    requires name != [] && Scan(d, name) == Some(i)
    ensures exists k: nat :: FirstAccepted(d, name, i, k)
    decreases |d|
  {
    hide Scan, Cut, NameMayEnd, FirstMatch, FirstAccepted, MatchAt;
    if FirstMatch(d, name, 0) == None {
      assert d[0..] == d;
      ScanNothing(d, name, 0);
    } else {
      var m := FirstMatch(d, name, 0).value;
      ScanFrom(d, name, m);
      var rest := d[m + |name|..];
      if NameMayEnd(rest) {
        AcceptedHere(d, name, m);
      } else {
        ScanPosition(rest, name, i - m - |name|);
        var k: nat :| FirstAccepted(rest, name, i - m - |name|, k);
        AcceptedLater(d, name, m, i - m - |name|, k);
      }
    }
  }

  lemma ScanFrom(d: seq<byte>, name: CStr, m: nat)
    requires name != [] && FirstMatch(d, name, 0) == Some(m)
    ensures m + |name| <= |d|
    ensures var rest := d[m + |name|..];
            Scan(d, name) == if NameMayEnd(rest) then Some(m) else Shift(Scan(rest, name), m + |name|)
  {
    assert d[0..] == d;
    CutTail(d, name, m);
    ScanSkip(d, name, 0, m);
    ScanHere(d, name, m);
    EndsMayEnd(d, m + |name|);
    hide Scan, Cut, NameMayEnd, FirstMatch;
  }

  lemma EndsMayEnd(d: seq<byte>, p: nat)
    requires p <= |d|
    ensures NameMayEnd(d[p..]) <==> p == |d| || EndsName(d[p])
  {
  }

  lemma NotAccepted(d: seq<byte>, name: CStr)
    requires name != []
    ensures !AcceptsAt(d, name, 0)
  {
  }

  /** `name` stands at offset `i` and ends where a name may end. */
  predicate OccursAt(d: seq<byte>, name: CStr, i: nat) {
    MatchAt(d, name, i) && NameMayEnd(d[i + |name|..])
  }

  ghost predicate Occurs(d: seq<byte>, name: CStr) {
    exists i: nat :: OccursAt(d, name, i)
  }

  /** No proper part that the text begins with is also what it ends with. */
  predicate Borderless(name: CStr) {
    forall n :: 0 < n < |name| ==> name[..n] != name[|name| - n..]
  }

  /** Overlapping occurrences share a border of the name. */
  lemma OverlapIsBorder(d: seq<byte>, name: CStr, i: nat)
    requires name <= d && MatchAt(d, name, i) && 0 < i < |name|
    ensures name[..|name| - i] == name[i..]
  {
    var n := |name| - i;
    assert name[..n] == d[i..][..n] == d[i..|name|] == name[i..];
  }

  /** Behind an occurrence of a borderless name, the next one begins no earlier than that one ends. */
  lemma NoOverlap(d: seq<byte>, name: CStr, i: nat)
    requires Borderless(name) && name <= d && MatchAt(d, name, i) && i > 0
    ensures i >= |name|
  {
    if i < |name| {
      OverlapIsBorder(d, name, i);
    }
  }

  lemma {:induction false} BorderlessFound(d: seq<byte>, name: CStr, i: nat)
    requires name != [] && Borderless(name) && OccursAt(d, name, i)
    ensures Scan(d, name).Some?
    decreases |d|
  {
    var n := if name <= d then |name| else 1;
    if i == 0 {
      assert d[0..] == d;
    } else {
      if name <= d {
        NoOverlap(d, name, i);
      }
      assert d[n..][i - n..] == d[i..] && d[n..][i - n + |name|..] == d[i + |name|..];
      hide Borderless;
      if !(name <= d && NameMayEnd(d[|name|..])) && i < |d| {
        BorderlessFound(d[n..], name, i - n);
      }
    }
  }

  lemma {:induction false} ScanShort(d: seq<byte>, name: CStr)
    requires |d| < |name|
    ensures Scan(d, name) == None
  {
    if d != [] {
      ScanShort(d[1..], name);
    }
  }

  lemma OverlapShape(name: CStr, n: nat)
    requires 0 < n < |name| && name[..n] == name[|name| - n..]
    ensures var d := name + name[n..];
            && name <= d && d[|name|..] == name[n..] && d[|name|] == name[n]
            && d[|name| - n..] == name && d[|name| - n + |name|..] == []
  {
    var d := name + name[n..];
    assert d[|name| - n..] == name[|name| - n..] + name[n..] == name[..n] + name[n..];
  }

  lemma OverlapOccurs(name: CStr, n: nat)
    requires 0 < n < |name| && name[..n] == name[|name| - n..]
    ensures OccursAt(name + name[n..], name, |name| - n)
  {
    OverlapShape(name, n);
  }

  lemma OverlapRejected(name: CStr, n: nat)
    requires EQUALS !in name && 0 < n < |name| && name[..n] == name[|name| - n..]
    ensures Scan(name + name[n..], name) == None
  {
    OverlapShape(name, n);
    assert name[n] in name;
    hide MatchAt;
    ScanShort(name[n..], name);
  }

  /** An occurrence that overlaps a rejected one is passed over. */
  lemma OverlapMissed(name: CStr, n: nat)
    requires EQUALS !in name && 0 < n < |name| && name[..n] == name[|name| - n..]
    ensures Scan(name + name[n..], name) == None && OccursAt(name + name[n..], name, |name| - n)
  {
    hide Scan, OccursAt;
    OverlapOccurs(name, n);
    OverlapRejected(name, n);
  }

  /**
   * The scan accepts every text in which the name occurs and may end exactly when the name has no
   * border: otherwise occurrences can overlap.
   */
  lemma ScanOccurs(name: CStr)
    requires name != [] && EQUALS !in name
    ensures Borderless(name) <==> forall d: CStr :: Scan(d, name).Some? <==> Occurs(d, name)
  {
    if Borderless(name) {
      forall d: CStr
        ensures Scan(d, name).Some? <==> Occurs(d, name)
      {
        BorderlessOccurs(d, name);
      }
    } else {
      var n :| 0 < n < |name| && name[..n] == name[|name| - n..];
      OverlapMissed(name, n);
      var d: CStr := name + name[n..];
      assert Occurs(d, name) && Scan(d, name).None?;
    }
  }

  lemma BorderlessOccurs(d: seq<byte>, name: CStr)
    requires name != [] && Borderless(name)
    ensures Scan(d, name).Some? <==> Occurs(d, name)
  {
    hide Borderless, Scan;
    if Scan(d, name).Some? {
      ScanHit(d, name, Scan(d, name).value);
      assert OccursAt(d, name, Scan(d, name).value);
    }
    if Occurs(d, name) {
      var i: nat :| OccursAt(d, name, i);
      BorderlessFound(d, name, i);
    }
  }

  // ----- looking for a name in a vector -----

  /**
   * The first entry in which the scan accepts `name`; `|es|` when there is none. The empty name is
   * found at the first terminator, and so in the first entry.
   */
  function HitEntry(es: seq<CStr>, name: CStr): (k: nat)
    ensures k <= |es|
    ensures name != [] && k < |es| ==> Scan(es[k], name).Some?
    ensures name != [] ==> forall j :: 0 <= j < k ==> Scan(es[j], name).None?
    ensures name == [] ==> k == 0
  {
    if name == [] || es == [] || Scan(es[0], name).Some? then 0 else 1 + HitEntry(es[1..], name)
  }

  /** Scanning the flat buffer finds the first entry with a hit, at that entry's own hit. */
  lemma {:induction false} ScanJoin(es: seq<CStr>, name: CStr)
    requires name != []
    ensures var k := HitEntry(es, name);
            Scan(Join(es), name) == if k == |es| then None else Shift(Scan(es[k], name), Offset(es, k))
  {
    if es != [] {
      ScanEntry(es[0], name, Join(es[1..]));
      if Scan(es[0], name).None? {
        ScanJoin(es[1..], name);
        OffsetTail(es, HitEntry(es, name));
      }
    }
  }
}
