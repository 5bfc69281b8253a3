// The envz functions: an argz vector read as `name=value` and `name` entries.
module EnvzLibrary {
  import opened Bytes
  import opened ArgzVector
  import opened Scanner
  import opened ArgzLibrary

  /** The entries without the first that holds `name` as the scanner sees it. */
  function RemoveHit(es: seq<CStr>, name: CStr): seq<CStr> {
    var k := HitEntry(es, name);
    if k == |es| then es else es[..k] + es[k + 1..]
  }

  function KeyOf(e: CStr): CStr {
    e[..Find(e, EQUALS, 0)]
  }

  function ValueOf(e: CStr): Option<CStr> {
    var n := Find(e, EQUALS, 0);
    if n == |e| then None else Some(e[n + 1..])
  }

  function Pair(name: CStr, value: Option<CStr>): CStr {
    match value
    case None => name
    case Some(v) => name + [EQUALS] + v
  }

  lemma PairOfParts(e: CStr)
    ensures Pair(KeyOf(e), ValueOf(e)) == e
  {
  }

  /** A match of a nonempty text ends before the vector does: the last byte is a terminator. */
  lemma MatchEndsInside(d: seq<byte>, name: CStr, i: nat)
    requires WellFormed(d) && name != [] && MatchAt(d, name, i)
    ensures i + |name| < |d|
  {
    assert d[i..][|name| - 1] == name[|name| - 1];
  }

  /** Where the hit on `name` ends, inside the entry that holds it. */
  lemma HitInside(es: seq<CStr>, name: CStr, i: nat)
    requires name != [] && Scan(Join(es), name) == Some(i)
    ensures var k := HitEntry(es, name);
            && k < |es| && Scan(es[k], name).Some?
            && i == Offset(es, k) + Scan(es[k], name).value
            && Scan(es[k], name).value + |name| <= |es[k]|
            && Inside(es, k, i + |name|)
  {
    hide Scan, Join, Offset;
    ScanJoin(es, name);
    var k := HitEntry(es, name);
    ScanHit(es[k], name, Scan(es[k], name).value);
  }

  /** One step of either search: on to the next match, which is a hit when a name may end there. */
  lemma SearchStep(d: seq<byte>, name: CStr, p: nat, i: nat)
    requires WellFormed(d) && name != [] && p <= |d|
    requires Scan(d, name) == Shift(Scan(d[p..], name), p)
    requires FirstMatch(d, name, p) == Some(i)
    ensures i + |name| < |d|
    ensures EndsName(d[i + |name|]) ==> Scan(d, name) == Some(i)
    ensures !EndsName(d[i + |name|]) ==> Scan(d, name) == Shift(Scan(d[i + |name|..], name), i + |name|)
  {
    hide Scan, FirstMatch;
    MatchEndsInside(d, name, i);
    ScanSkip(d, name, p, i);
    ScanHere(d, name, i);
  }

  lemma SearchOver(d: seq<byte>, name: CStr)
    requires name != []
    ensures Scan(d[|d|..], name) == None
  {
  }

  /**
   * What a search needs: the empty name is found at the first terminator, from which the code steps
   * one byte back, out of the vector when the first entry is empty too.
   */
  predicate Searchable(es: seq<CStr>, name: CStr) {
    name != [] || es == [] || es[0] != []
  }

  /** The empty name is found at the end of the first entry. */
  lemma EmptyNameFound(d: seq<byte>)
    requires WellFormed(d) && d != []
    ensures var es := Split(d);
            && es != [] && FirstMatch(d, [], 0) == Some(|es[0]|)
            && Inside(es, 0, |es[0]|) && |es[0]| < |d| && d[|es[0]|] == NUL
            && (es[0] != [] ==> d[|es[0]| - 1] != NUL)
  {
    var es, n := Split(d), Find(d, NUL, 0);
    assert es[0] == d[..n] && n < |d|;
    hide Split, Join;
    FirstMatchLeast(d, [], 0, n);
    hide FirstMatch;
    TerminatorOf(es, 0, 0);
  }

  /** `envz_entry`: the start of the entry around the first accepted occurrence of `name`. */
  method Entry(envz: array<byte>, len: nat, name: CStr) returns (r: Option<nat>)
    requires len <= envz.Length && WellFormed(envz[..len])
    requires Searchable(Split(envz[..len]), name)
    ensures var es := Split(envz[..len]);
            var k := HitEntry(es, name);
            r == if k == |es| then None else Some(Offset(es, k))
  {
    hide Split, Join, Scan, FirstMatch, Offset, Find;
    NoEntries(envz[..len]);
    ghost var d := envz[..len];
    ghost var es := Split(d);
    var bufPtr: nat, bufLen: nat := 0, len;
    var found;
    assert d[0..] == d;
    while bufLen != 0
      invariant bufPtr + bufLen == len
      invariant name != [] ==> Scan(d, name) == Shift(Scan(d[bufPtr..], name), bufPtr)
      invariant name == [] ==> bufPtr == 0
      decreases bufLen
    {
      ghost var p := bufPtr;
      found, bufPtr, bufLen := BufFindStr(name, envz, bufPtr, bufLen);
      if name == [] {
        EmptyNameFound(d);
        r := WalkBack(envz, len, bufPtr, 0);
        return r;
      }
      if found {
        SearchStep(d, name, p, bufPtr - |name|);
        if envz[bufPtr] == EQUALS || envz[bufPtr] == NUL {
          HitInside(es, name, bufPtr - |name|);
          r := WalkBack(envz, len, bufPtr, HitEntry(es, name));
          return r;
        }
      } else {
        ScanNothing(d, name, p);
        SearchOver(d, name);
      }
    }
    if name != [] {
      SearchOver(d, name);
      ScanJoin(es, name);
    }
    return None;
  }

  /** The backward walk of `envz_entry`, from the byte before `bufPtr` to the start of its entry. */
  method WalkBack(envz: array<byte>, len: nat, bufPtr: nat, ghost k: nat) returns (r: Option<nat>)
    requires len <= envz.Length && WellFormed(envz[..len])
    requires 0 < bufPtr < len && Inside(Split(envz[..len]), k, bufPtr)
    requires envz[bufPtr - 1] != NUL
    ensures r == Some(Offset(Split(envz[..len]), k))
  {
    hide Split, Join, Offset, Inside;
    ghost var d := envz[..len];
    ghost var es := Split(d);
    var p := bufPtr - 1;
    while envz[p] != NUL && p != 0
      invariant 0 <= p < bufPtr
      invariant Inside(es, k, p + 1)
      decreases p
    {
      StepLeft(es, k, p);
      p := p - 1;
    }
    StepLeft(es, k, p);
    if envz[p] == NUL {
      p := p + 1;
    }
    return Some(p);
  }

  lemma StepLeft(es: seq<CStr>, k: nat, p: nat)
    requires Inside(es, k, p + 1)
    ensures p + 1 < |Join(es)|
    ensures Join(es)[p] == NUL ==> p + 1 == Offset(es, k)
    ensures Join(es)[p] != NUL ==> Inside(es, k, p)
    ensures Inside(es, k, 0) ==> Offset(es, k) == 0
  {
    hide Join;
    EntryUnique(es, k, p + 1);
    NextByte(es, p);
  }

  /** The position after the '=' that follows the first accepted occurrence of `name`. */
  ghost function ValueOffset(es: seq<CStr>, name: CStr): Option<nat>
    requires name != []
  {
    var k := HitEntry(es, name);
    if k == |es| then None
    else
      var h := Scan(es[k], name).value;
      if h + |name| >= |es[k]| then None else Some(Offset(es, k) + h + |name| + 1)
  }

  /** `envz_get`: the value text of the same occurrence, or null when it has none. */
  method Get(envz: array<byte>, len: nat, name: CStr) returns (r: Option<nat>)
    requires len <= envz.Length && WellFormed(envz[..len])
    ensures name == [] ==> r == None
    ensures name != [] ==> r == ValueOffset(Split(envz[..len]), name)
  {
    hide Split, Join, Scan, FirstMatch, Offset, Find;
    ghost var d := envz[..len];
    ghost var es := Split(d);
    var bufPtr: nat, bufLen: nat := 0, len;
    var found;
    assert d[0..] == d;
    while bufLen != 0
      invariant bufPtr + bufLen == len
      invariant name != [] ==> Scan(d, name) == Shift(Scan(d[bufPtr..], name), bufPtr)
      invariant name == [] ==> bufPtr == 0
      decreases bufLen
    {
      ghost var p := bufPtr;
      found, bufPtr, bufLen := BufFindStr(name, envz, bufPtr, bufLen);
      if name == [] {
        EmptyStringStalls(d, 0);
        return None;
      }
      if found {
        SearchStep(d, name, p, bufPtr - |name|);
        if envz[bufPtr] == EQUALS {
          HitInside(es, name, bufPtr - |name|);
          ByteInside(es, HitEntry(es, name), bufPtr);
          return Some(bufPtr + 1);
        } else if envz[bufPtr] == NUL {
          HitInside(es, name, bufPtr - |name|);
          ByteInside(es, HitEntry(es, name), bufPtr);
          return None;
        }
      } else {
        ScanNothing(d, name, p);
        SearchOver(d, name);
      }
    }
    if name != [] {
      SearchOver(d, name);
      ScanJoin(es, name);
    }
    return None;
  }

  /** Within an entry, only its terminator is NUL. */
  lemma ByteInside(es: seq<CStr>, k: nat, p: nat)
    requires Inside(es, k, p)
    ensures p < |Join(es)|
    ensures Join(es)[p] == NUL <==> p == Offset(es, k) + |es[k]|
  {
    Decompose(es, k);
    if p < Offset(es, k) + |es[k]| {
      assert Join(es)[p] == es[k][p - Offset(es, k)];
    }
  }

  /** `envz_remove`: the entry `envz_entry` finds is closed up, and the buffer shrunk. */
  method Remove(envz: Argz, name: CStr)
    requires envz.Valid() && Searchable(envz.Entries(), name)
    modifies envz, envz.buf
    ensures envz.buf == old(envz.buf) || fresh(envz.buf)
    ensures envz.Valid()
    ensures envz.Entries() == RemoveHit(old(envz.Entries()), name)
    ensures var es, k := old(envz.Entries()), HitEntry(old(envz.Entries()), name);
            envz.Entries() == if k == |es| then es else es[..k] + es[k + 1..]
  {
    hide Split, Join, Find, Offset, HitEntry, WellFormed;
    NoEntries(envz.Data());
    var entry := Entry(envz.buf, envz.len, name);
    if entry.Some? {
      ghost var es := envz.Entries();
      ghost var k := HitEntry(es, name);
      NextEntry(envz.Data(), envz.len, es, k);
      var length := |CStringAt(envz.buf[..envz.len], entry.value)| + 1;
      CloseEntry(envz, entry.value, length, k);
      envz.Overwrite(envz.buf[..envz.len]);
    }
  }

  lemma NoEntries(d: seq<byte>)
    requires WellFormed(d)
    ensures d == [] <==> Split(d) == []
  {
  }

  /** `envz_add`: remove what `name` finds, then append the new entry. */
  method AddPair(envz: Argz, name: CStr, value: Option<CStr>)
    requires envz.Valid() && Searchable(envz.Entries(), name)
    modifies envz, envz.buf
    ensures envz.buf == old(envz.buf) || fresh(envz.buf)
    ensures envz.Valid()
    ensures envz.Entries() == RemoveHit(old(envz.Entries()), name) + [Pair(name, value)]
  {
    hide HitEntry, RemoveHit, Split, Join, WellFormed;
    Remove(envz, name);
    if value.Some? {
      var concat := name + [EQUALS] + value.value;
      envz.Add(Some(concat));
    } else {
      envz.Add(Some(name));
    }
  }

  function MergeOne(es: seq<CStr>, e: CStr, override: bool): seq<CStr> {
    if override then RemoveHit(es, KeyOf(e)) + [e]
    else if HitEntry(es, KeyOf(e)) < |es| then es
    else es + [e]
  }

  predicate Named(es: seq<CStr>) {
    forall k :: 0 <= k < |es| ==> KeyOf(es[k]) != []
  }

  /** The entries of one environment merged into another, in order. */
  function Merged(es: seq<CStr>, es2: seq<CStr>, override: bool): seq<CStr>
    decreases |es2|
  {
    if es2 == [] then es else Merged(MergeOne(es, es2[0], override), es2[1..], override)
  }

  /** Every search that a merge makes is possible. */
  predicate Mergeable(es: seq<CStr>, es2: seq<CStr>, override: bool)
    decreases |es2|
  {
    es2 == [] || (Searchable(es, KeyOf(es2[0])) && Mergeable(MergeOne(es, es2[0], override), es2[1..], override))
  }

  /** That is so when the second environment has no empty names, and also when no entry of either is empty. */
  lemma {:induction false} MergeableWhen(es: seq<CStr>, es2: seq<CStr>, override: bool)
    requires Named(es2) || ([] !in es && [] !in es2)
    ensures Mergeable(es, es2, override)
    decreases |es2|
  {
    if es2 != [] {
      hide KeyOf;
      MergeableWhen(MergeOne(es, es2[0], override), es2[1..], override);
    }
  }

  /** `envz_merge`: every entry of `envz2` in turn, by `envz_add` or by a guarded `argz_add`. */
  method Merge(envz: Argz, envz2: array<byte>, len2: nat, override: bool)
    requires envz.Valid() && envz2 != envz.buf
    requires len2 <= envz2.Length && WellFormed(envz2[..len2])
    requires Mergeable(envz.Entries(), Split(envz2[..len2]), override)
    modifies envz, envz.buf
    ensures envz.Valid()
    ensures envz.Entries() == Merged(old(envz.Entries()), Split(envz2[..len2]), override)
  {
    hide Split, Join, Find, Offset, HitEntry, RemoveHit, Merged, Mergeable, MergeOne, NextOffset, KeyOf, ValueOf, Pair;
    ghost var es2 := Split(envz2[..len2]);
    ghost var i := 0;
    assert es2[0..] == es2;
    NextOffsetInPrefix(envz2[..], len2, None);
    assert envz2[..][..len2] == envz2[..len2];
    FirstOffset(es2);
    var entry := Next(envz2, len2, None);
    while entry.Some?
      invariant envz.Valid() && (envz.buf == old(envz.buf) || fresh(envz.buf))
      invariant envz2[..] == old(envz2[..])
      invariant i <= |es2|
      invariant entry == if i < |es2| then Some(Offset(es2, i)) else None
      invariant Mergeable(envz.Entries(), es2[i..], override)
      invariant Merged(envz.Entries(), es2[i..], override) == Merged(old(envz.Entries()), es2, override)
      decreases |es2| - i
    {
      MergedStep(envz.Entries(), es2, i, override);
      NextEntry(envz2[..], len2, es2, i);
      var text := CStringAt(envz2[..len2], entry.value);
      MergeText(envz, text, override);
      i := i + 1;
      entry := Next(envz2, len2, entry);
    }
    MergedNone(envz.Entries(), es2, override);
  }

  lemma FirstOffset(es: seq<CStr>)
    ensures NextOffset(Join(es), |Join(es)|, None) == if es == [] then None else Some(Offset(es, 0))
  {
  }

  /** Moving from the start of entry `i` to the next one, in memory that may be larger than the vector. */
  lemma NextEntry(mem: seq<byte>, n: nat, es: seq<CStr>, i: nat)
    requires n <= |mem| && mem[..n] == Join(es) && i < |es|
    ensures Offset(es, i) < n && Find(mem, NUL, Offset(es, i)) < |mem|
    ensures CStringAt(mem[..n], Offset(es, i)) == es[i]
    ensures NextOffset(mem, n, Some(Offset(es, i))) == if i + 1 < |es| then Some(Offset(es, i + 1)) else None
  {
    hide Join, Find, Offset;
    var p := Offset(es, i);
    assert Inside(es, i, p);
    TerminatorOf(es, i, p);
    NextOffsetOf(es, i, p);
    NextOffsetInPrefix(mem, n, Some(p));
    FindInPrefix(mem, n, NUL, p);
  }

  lemma MergedStep(es: seq<CStr>, es2: seq<CStr>, i: nat, override: bool)
    requires i < |es2|
    ensures Mergeable(es, es2[i..], override) ==>
              Searchable(es, KeyOf(es2[i])) && Mergeable(MergeOne(es, es2[i], override), es2[i + 1..], override)
    ensures Merged(es, es2[i..], override) == Merged(MergeOne(es, es2[i], override), es2[i + 1..], override)
  {
    assert es2[i..][1..] == es2[i + 1..];
  }

  lemma MergedNone(es: seq<CStr>, es2: seq<CStr>, override: bool)
    ensures Merged(es, es2[|es2|..], override) == es
  {
  }

  /** The loop body of `envz_merge`. */
  method MergeText(envz: Argz, text: CStr, override: bool)
    requires envz.Valid() && Searchable(envz.Entries(), KeyOf(text))
    modifies envz, envz.buf
    ensures envz.buf == old(envz.buf) || fresh(envz.buf)
    ensures envz.Valid()
    ensures envz.Entries() == MergeOne(old(envz.Entries()), text, override)
  {
    PairOfParts(text);
    NoEntries(envz.Data());
    hide Split, Join, Offset, RemoveHit;
    if !override {
      var entry := Entry(envz.buf, envz.len, KeyOf(text));
      if entry.None? {
        envz.Add(Some(text));
      }
    } else {
      AddPair(envz, KeyOf(text), ValueOf(text));
    }
  }

  /** What stripping leaves: the entry that slides into a removed one's place is stepped over unseen. */
  function Stripped(es: seq<CStr>): seq<CStr> {
    if es == [] then []
    else if EQUALS in es[0] then [es[0]] + Stripped(es[1..])
    else if |es| == 1 then []
    else [es[1]] + Stripped(es[2..])
  }

  /** `envz_strip`: deletes entries without '=' from the buffer it is iterating over. */
  method Strip(envz: Argz)
    requires envz.Valid()
    modifies envz, envz.buf
    ensures envz.Valid()
    ensures envz.Entries() == Stripped(old(envz.Entries()))
  {
    hide Split, Join, Find, Offset, Stripped, NextOffset, WellFormed;
    ghost var goal := Stripped(envz.Entries());
    ghost var i: nat := 0;
    var nullFound := false;
    NextOffsetInPrefix(envz.buf[..], envz.len, None);
    assert envz.buf[..][..envz.len] == envz.Data();
    FirstOffset(envz.Entries());
    assert envz.Entries()[0..] == envz.Entries() && envz.Entries()[..0] == [];
    var entry := Next(envz.buf, envz.len, None);
    while entry.Some?
      invariant envz.Valid() && envz.buf == old(envz.buf)
      invariant i <= |envz.Entries()|
      invariant entry == if i < |envz.Entries()| then Some(Offset(envz.Entries(), i)) else None
      invariant goal == envz.Entries()[..i] + Stripped(envz.Entries()[i..])
      decreases |envz.Entries()| - i
    {
      ghost var es := envz.Entries();
      ghost var mem := envz.buf[..];
      assert mem[..envz.len] == envz.Data();
      NextEntry(mem, envz.len, es, i);
      StrippedStep(es, i);
      var text := CStringAt(envz.buf[..envz.len], entry.value);
      if EQUALS !in text {
        nullFound := true;
        CloseEntry(envz, entry.value, |text| + 1, i);
        i := if i + 1 < |es| then i + 1 else i;
      } else {
        i := i + 1;
      }
      entry := Next(envz.buf, envz.len, entry);
    }
    StrippedNone(envz.Entries());
    if nullFound {
      envz.Overwrite(envz.buf[..envz.len]);
    }
  }

  /** Closes entry `i` up. What slid into its place is skipped by the iterator that still points there. */
  method CloseEntry(envz: Argz, entry: nat, length: nat, ghost i: nat)
    requires envz.Valid() && i < |envz.Entries()|
    requires entry == Offset(envz.Entries(), i) && length == |envz.Entries()[i]| + 1
    modifies envz`len, envz.buf
    ensures envz.Valid()
    ensures envz.Entries() == old(envz.Entries())[..i] + old(envz.Entries())[i + 1..]
    ensures entry <= envz.buf.Length && Find(envz.buf[..], NUL, entry) < envz.buf.Length
    ensures NextOffset(envz.buf[..], envz.len, Some(entry)) ==
            if i + 1 < |envz.Entries()| then Some(Offset(envz.Entries(), i + 1)) else None
  {
    hide Split, Join, Find, Offset, NextOffset;
    ghost var es := envz.Entries();
    ghost var mem := envz.buf[..];
    assert mem[..envz.len] == envz.Data();
    RemoveEntry(es, i);
    OffsetNext(es, i);
    envz.CloseGap(entry, entry + length);
    ghost var es' := envz.Entries();
    assert envz.buf[..][..envz.len] == envz.Data();
    if i + 1 < |es| {
      SameStart(es, es', i);
      NextEntry(envz.buf[..], envz.len, es', i);
    } else {
      // The removed text itself still lies past the end, and the iterator reads its terminator.
      OffsetWhole(es);
      LastRemoved(es, mem, envz.len);
    }
  }

  lemma OffsetNext(es: seq<CStr>, i: nat)
    requires i < |es|
    ensures Offset(es, i + 1) == Offset(es, i) + |es[i]| + 1
  {
  }

  lemma {:induction false} SameStart(a: seq<CStr>, b: seq<CStr>, i: nat)
    requires i <= |a| && i <= |b| && a[..i] == b[..i]
    ensures Offset(a, i) == Offset(b, i)
  {
    if i > 0 {
      assert a[i - 1] == a[..i][i - 1] == b[..i][i - 1] == b[i - 1];
      assert a[..i - 1] == a[..i][..i - 1] == b[..i][..i - 1] == b[..i - 1];
      SameStart(a, b, i - 1);
    }
  }

  lemma StrippedStep(es: seq<CStr>, i: nat)
    requires i < |es|
    ensures EQUALS in es[i] ==> es[..i] + Stripped(es[i..]) == es[..i + 1] + Stripped(es[i + 1..])
    ensures EQUALS !in es[i] ==>
              var es' := es[..i] + es[i + 1..];
              var j := if i + 1 < |es| then i + 1 else i;
              es[..i] + Stripped(es[i..]) == es'[..j] + Stripped(es'[j..])
  {
    assert es[i..][1..] == es[i + 1..];
    var es' := es[..i] + es[i + 1..];
    if i + 1 < |es| {
      assert es[i..][2..] == es[i + 2..] == es'[i + 1..];
      assert es'[..i + 1] == es[..i] + [es[i + 1]];
    }
  }

  lemma StrippedNone(es: seq<CStr>)
    ensures es[..|es|] + Stripped(es[|es|..]) == es
  {
  }

  lemma LastRemoved(es: seq<CStr>, mem: seq<byte>, n: nat)
    requires es != [] && |Join(es)| <= |mem| && mem[..|Join(es)|] == Join(es)
    requires n == Offset(es, |es| - 1)
    ensures n < |mem| && Find(mem, NUL, n) < |mem|
    ensures NextOffset(mem, n, Some(n)) == None
  {
    hide Join, Offset;
    NextEntry(mem, |Join(es)|, es, |es| - 1);
  }
}
