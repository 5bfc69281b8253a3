// What an argz vector means: NUL-terminated entries laid back to back.
module ArgzVector {
  import opened Bytes

  /** A vector is empty or ends with a terminator. */
  predicate WellFormed(d: seq<byte>) {
    d == [] || d[|d| - 1] == NUL
  }

  function Join(es: seq<CStr>): (d: seq<byte>)
    ensures WellFormed(d)
  {
    if es == [] then [] else es[0] + [NUL] + Join(es[1..])
  }

  function Split(d: seq<byte>): (es: seq<CStr>)
    requires WellFormed(d)
    ensures Join(es) == d
    decreases |d|
  {
    if d == [] then []
    else
      var n := Find(d, NUL, 0);
      assert d == d[..n] + [NUL] + d[n + 1..];
      [d[..n]] + Split(d[n + 1..])
  }

  /** Where entry `k` starts; for `k == |es|`, the length of the vector. */
  function Offset(es: seq<CStr>, k: nat): nat
    requires k <= |es|
  {
    if k == 0 then 0 else Offset(es, k - 1) + |es[k - 1]| + 1
  }

  /** Offset `p` lies in the text of entry `k` or on its terminator. */
  predicate Inside(es: seq<CStr>, k: nat, p: nat) {
    k < |es| && Offset(es, k) <= p <= Offset(es, k) + |es[k]|
  }

  /** The entry that a pointer to offset `p` falls into. */
  ghost function EntryOf(es: seq<CStr>, p: nat): (k: nat)
    requires p < |Join(es)|
    ensures Inside(es, k, p)
  {
    OffsetWhole(es);
    EntryExists(es, p, |es|);
    var k: nat :| Inside(es, k, p);
    k
  }

  lemma {:induction false} JoinAppend(a: seq<CStr>, b: seq<CStr>)
    ensures Join(a + b) == Join(a) + Join(b)
  {
    if a == [] {
      assert a + b == b;
    } else {
      assert (a + b)[1..] == a[1..] + b;
      calc {
        Join(a + b);
        a[0] + [NUL] + Join(a[1..] + b);
        { JoinAppend(a[1..], b); }
        a[0] + [NUL] + (Join(a[1..]) + Join(b));
        Join(a) + Join(b);
      }
    }
  }

  lemma JoinOne(e: CStr)
    ensures Join([e]) == e + [NUL] == e + [0]
  {
  }

  /** Entries read back from a joined vector are the entries that went in. */
  lemma {:induction false} SplitJoin(es: seq<CStr>)
    ensures Split(Join(es)) == es
  {
    if es != [] {
      var e, d := es[0], Join(es);
      assert d[..|e|] == e && d[|e|] == NUL && d[|e| + 1..] == Join(es[1..]);
      assert Find(d, NUL, 0) == |e| by {
        assert forall k :: 0 <= k < |e| ==> d[k] == e[k];
      }
      calc {
        Split(d);
        [e] + Split(Join(es[1..]));
        { SplitJoin(es[1..]); }
        [e] + es[1..];
        es;
      }
    }
  }

  lemma SplitAppend(a: seq<byte>, b: seq<byte>)
    requires WellFormed(a) && WellFormed(b)
    ensures WellFormed(a + b) && Split(a + b) == Split(a) + Split(b)
  {
    JoinAppend(Split(a), Split(b));
    SplitJoin(Split(a) + Split(b));
  }

  lemma {:induction false} OffsetIsLength(es: seq<CStr>, k: nat)
    requires k <= |es|
    ensures Offset(es, k) == |Join(es[..k])| <= |Join(es)|
  {
    if k > 0 {
      OffsetIsLength(es, k - 1);
      JoinTake(es, k - 1);
    }
    assert es == es[..k] + es[k..];
    JoinAppend(es[..k], es[k..]);
  }

  lemma OffsetWhole(es: seq<CStr>)
    ensures Offset(es, |es|) == |Join(es)|
  {
    OffsetIsLength(es, |es|);
    assert es[..|es|] == es;
  }

  lemma {:induction false} EntryExists(es: seq<CStr>, p: nat, n: nat)
    requires n <= |es| && p < Offset(es, n)
    ensures exists k: nat :: Inside(es, k, p)
  {
    if p < Offset(es, n - 1) {
      EntryExists(es, p, n - 1);
    } else {
      assert Inside(es, n - 1, p);
    }
  }

  lemma {:induction false} OffsetIncreases(es: seq<CStr>, j: nat, k: nat)
    requires j < k <= |es|
    ensures Offset(es, j) + |es[j]| < Offset(es, k)
    decreases k
  {
    if j < k - 1 {
      OffsetIncreases(es, j, k - 1);
    }
  }

  lemma {:induction false} OffsetTail(es: seq<CStr>, k: nat)
    requires 0 < k <= |es|
    ensures Offset(es, k) == |es[0]| + 1 + Offset(es[1..], k - 1)
  {
    if k > 1 {
      OffsetTail(es, k - 1);
    }
  }

  /** No offset belongs to two entries. */
  lemma EntryUnique(es: seq<CStr>, k: nat, p: nat)
    requires Inside(es, k, p)
    ensures p < |Join(es)| && EntryOf(es, p) == k
  {
    OffsetWhole(es);
    OffsetIncreases(es, k, |es|);
    var j := EntryOf(es, p);
    if j < k {
      OffsetIncreases(es, j, k);
    } else if k < j {
      OffsetIncreases(es, k, j);
    }
  }

  lemma JoinTake(es: seq<CStr>, k: nat)
    requires k < |es|
    ensures Join(es[..k + 1]) == Join(es[..k]) + (es[k] + [NUL])
  {
    assert es[..k + 1] == es[..k] + [es[k]];
    JoinAppend(es[..k], [es[k]]);
    JoinOne(es[k]);
  }

  /** A vector cut around entry `k`. */
  lemma Decompose(es: seq<CStr>, k: nat)
    requires k < |es|
    ensures Offset(es, k) + |es[k]| < |Join(es)|
    ensures Join(es)[..Offset(es, k)] == Join(es[..k])
    ensures Join(es)[Offset(es, k)..Offset(es, k) + |es[k]|] == es[k]
    ensures Join(es)[Offset(es, k) + |es[k]|] == NUL
    ensures Join(es)[Offset(es, k) + |es[k]| + 1..] == Join(es[k + 1..])
  {
    JoinTake(es, k);
    OffsetIsLength(es, k);
    assert es == es[..k + 1] + es[k + 1..];
    JoinAppend(es[..k + 1], es[k + 1..]);
    assert Join(es) == Join(es[..k]) + (es[k] + [NUL]) + Join(es[k + 1..]);
  }

  lemma InsertJoin(es: seq<CStr>, k: nat, e: CStr)
    requires k <= |es|
    ensures Offset(es, k) <= |Join(es)|
    ensures Join(es[..k] + [e] + es[k..]) == Join(es)[..Offset(es, k)] + (e + [NUL]) + Join(es)[Offset(es, k)..]
  {
    OffsetIsLength(es, k);
    assert es == es[..k] + es[k..];
    JoinAppend(es[..k], es[k..]);
    JoinAppend(es[..k] + [e], es[k..]);
    JoinAppend(es[..k], [e]);
    JoinOne(e);
  }

  /** Reading forward from anywhere inside entry `k` finds that entry's own terminator. */
  lemma TerminatorOf(es: seq<CStr>, k: nat, p: nat)
    requires Inside(es, k, p)
    ensures p <= Offset(es, k) + |es[k]| < |Join(es)|
    ensures Find(Join(es), NUL, p) == Offset(es, k) + |es[k]|
    ensures CStringAt(Join(es), p) == es[k][p - Offset(es, k)..]
  {
    Decompose(es, k);
    var d, o := Join(es), Offset(es, k);
    assert forall j :: p <= j < o + |es[k]| ==> d[j] == es[k][j - o];
  }

  /** Cutting an entry and its terminator out of the bytes removes that entry and no other. */
  lemma RemoveEntry(es: seq<CStr>, k: nat)
    requires k < |es|
    ensures Offset(es, k) < Offset(es, k + 1) <= |Join(es)|
    ensures Find(Join(es), NUL, Offset(es, k)) + 1 == Offset(es, k + 1)
    ensures var d := Join(es)[..Offset(es, k)] + Join(es)[Offset(es, k + 1)..];
            WellFormed(d) && Split(d) == es[..k] + es[k + 1..]
  {
    hide Join, Split, Find, WellFormed;
    TerminatorOf(es, k, Offset(es, k));
    Decompose(es, k);
    JoinAppend(es[..k], es[k + 1..]);
    SplitJoin(es[..k] + es[k + 1..]);
  }

  /** Deleting from offset `p` on leaves a vector: `p` starts an entry, or another entry follows its own. */
  ghost predicate Deletable(es: seq<CStr>, p: nat)
    requires p < |Join(es)|
  {
    p == Offset(es, EntryOf(es, p)) || EntryOf(es, p) + 1 < |es|
  }

  /** What that leaves: the entry is gone, or what precedes `p` in it runs into the next one. */
  ghost function Deleted(es: seq<CStr>, p: nat): seq<CStr>
    requires p < |Join(es)| && Deletable(es, p)
  {
    var k := EntryOf(es, p);
    var h := p - Offset(es, k);
    if h == 0 then es[..k] + es[k + 1..] else es[..k] + [es[k][..h] + es[k + 1]] + es[k + 2..]
  }

  /** Cutting out the bytes from offset `p` to the terminator of its entry. */
  lemma DeleteInside(es: seq<CStr>, p: nat)
    requires p < |Join(es)|
    ensures Find(Join(es), NUL, p) < |Join(es)|
    ensures var d := Join(es)[..p] + Join(es)[Find(Join(es), NUL, p) + 1..];
            && (WellFormed(d) <==> Deletable(es, p))
            && (Deletable(es, p) ==> Split(d) == Deleted(es, p))
  {
    hide Join, Split, Find, WellFormed;
    var k := EntryOf(es, p);
    var h := p - Offset(es, k);
    TerminatorOf(es, k, p);
    if h == 0 {
      RemoveEntry(es, k);
    } else {
      HeadAndTail(es, k, h);
      var d := Join(es[..k]) + es[k][..h] + Join(es[k + 1..]);
      if k + 1 < |es| {
        RunsInto(es, k, h);
        SplitJoin(es[..k] + [es[k][..h] + es[k + 1]] + es[k + 2..]);
      } else {
        assert es[k + 1..] == [];
        Unterminated(Join(es[..k]), es[k][..h]);
      }
    }
  }

  lemma HeadAndTail(es: seq<CStr>, k: nat, h: nat)
    requires k < |es| && h <= |es[k]|
    ensures Offset(es, k) + |es[k]| < |Join(es)|
    ensures Join(es)[..Offset(es, k) + h] == Join(es[..k]) + es[k][..h]
    ensures Join(es)[Offset(es, k) + |es[k]| + 1..] == Join(es[k + 1..])
  {
    hide Join, Offset;
    Decompose(es, k);
    var d, o := Join(es), Offset(es, k);
    assert d[..o + h] == d[..o] + d[o..o + |es[k]|][..h];
  }

  lemma RunsInto(es: seq<CStr>, k: nat, h: nat)
    requires k + 1 < |es| && h <= |es[k]|
    ensures Join(es[..k]) + es[k][..h] + Join(es[k + 1..]) ==
            Join(es[..k] + [es[k][..h] + es[k + 1]] + es[k + 2..])
  {
    var e: CStr, rest := es[k][..h] + es[k + 1], es[k + 2..];
    assert es[k + 1..][1..] == rest;
    assert Join(es[k + 1..]) == es[k + 1] + [NUL] + Join(rest);
    JoinOne(e);
    JoinAppend(es[..k] + [e], rest);
    JoinAppend(es[..k], [e]);
    hide Join;
    Regroup(Join(es[..k]), es[k][..h], es[k + 1], Join(rest));
  }

  lemma Regroup(a: seq<byte>, head: seq<byte>, tail: seq<byte>, rest: seq<byte>)
    ensures a + head + (tail + [NUL] + rest) == a + (head + tail + [NUL]) + rest
  {
  }

  lemma Unterminated(d: seq<byte>, text: CStr)
    requires text != []
    ensures !WellFormed(d + text + Join([]))
  {
    assert (d + text)[|d + text| - 1] == text[|text| - 1];
  }

  /** Whether a byte is a terminator says whether the next byte opens a new entry. */
  lemma NextByte(es: seq<CStr>, p: nat)
    requires p + 1 < |Join(es)|
    ensures Join(es)[p] == NUL ==>
              EntryOf(es, p + 1) == EntryOf(es, p) + 1 && Offset(es, EntryOf(es, p + 1)) == p + 1
    ensures Join(es)[p] != NUL ==> EntryOf(es, p + 1) == EntryOf(es, p)
  {
    var k := EntryOf(es, p);
    Decompose(es, k);
    if p == Offset(es, k) + |es[k]| {
      OffsetWhole(es);
      EntryUnique(es, k + 1, p + 1);
    } else {
      assert Join(es)[p] == es[k][p - Offset(es, k)];
      EntryUnique(es, k, p + 1);
    }
  }

  /** The last byte belongs to the last entry. */
  lemma LastByte(es: seq<CStr>)
    requires Join(es) != []
    ensures es != [] && EntryOf(es, |Join(es)| - 1) == |es| - 1
  {
    OffsetWhole(es);
    EntryUnique(es, |es| - 1, |Join(es)| - 1);
  }

  lemma TerminatorAhead(d: seq<byte>, p: nat)
    requires WellFormed(d) && p < |d|
    ensures Find(d, NUL, p) < |d|
  {
  }

  lemma ShortVector(es: seq<CStr>)
    requires |Join(es)| <= 1
    ensures |es| <= 1
  {
    OffsetWhole(es);
  }

  // ----- iterating -----

  /** What `argz_next` computes on the memory `d` for a vector of `n` bytes. */
  function NextOffset(d: seq<byte>, n: nat, entry: Option<nat>): (r: Option<nat>)
    requires entry.Some? ==> entry.value <= |d|
    ensures r.Some? ==> r.value < n && (entry.Some? ==> entry.value < r.value)
  {
    match entry
    case None => if n > 0 then Some(0) else None
    case Some(p) => var q := Find(d, NUL, p) + 1; if q >= n then None else Some(q)
  }

  /** Bytes beyond the vector do not matter to a search that ends inside it. */
  lemma {:induction false} FindInPrefix(d: seq<byte>, n: nat, c: byte, p: nat)
    requires p <= n <= |d| && Find(d[..n], c, p) < n
    ensures Find(d, c, p) == Find(d[..n], c, p)
    decreases n - p
  {
    if d[p] != c {
      FindInPrefix(d, n, c, p + 1);
    }
  }

  lemma NextOffsetInPrefix(d: seq<byte>, n: nat, entry: Option<nat>)
    requires n <= |d| && WellFormed(d[..n])
    requires entry.Some? ==> entry.value < n
    ensures NextOffset(d, n, entry) == NextOffset(d[..n], n, entry)
  {
    if entry.Some? {
      TerminatorAhead(d[..n], entry.value);
      FindInPrefix(d, n, NUL, entry.value);
    }
  }

  /** From anywhere inside an entry, the next one in order. */
  lemma NextOffsetOf(es: seq<CStr>, k: nat, p: nat)
    requires Inside(es, k, p)
    ensures p < |Join(es)|
    ensures NextOffset(Join(es), |Join(es)|, Some(p)) == if k + 1 < |es| then Some(Offset(es, k + 1)) else None
  {
    TerminatorOf(es, k, p);
    OffsetWhole(es);
    if k + 1 < |es| {
      OffsetIncreases(es, k + 1, |es|);
    }
  }

  /** Every offset that iterating from `entry` visits. */
  function Visited(d: seq<byte>, entry: Option<nat>): seq<nat>
    requires entry.Some? ==> entry.value <= |d|
    decreases if entry.None? then |d| + 1 else |d| - entry.value
  {
    var r := NextOffset(d, |d|, entry);
    if r.None? then [] else [r.value] + Visited(d, r)
  }

  function Starts(es: seq<CStr>): (s: seq<nat>)
    ensures |s| == |es|
  {
    seq(|es|, k requires 0 <= k < |es| => Offset(es, k))
  }

  lemma {:induction false} VisitedFrom(es: seq<CStr>, k: nat)
    requires k < |es|
    ensures Offset(es, k) <= |Join(es)|
    ensures Visited(Join(es), Some(Offset(es, k))) == Starts(es)[k + 1..]
    decreases |es| - k
  {
    NextOffsetOf(es, k, Offset(es, k));
    if k + 1 < |es| {
      VisitedFrom(es, k + 1);
    }
  }

  /** Iterating from null visits each entry's start once, in order, then stops. */
  lemma VisitedAll(es: seq<CStr>)
    ensures Visited(Join(es), None) == Starts(es)
  {
    if es != [] {
      var d := Join(es);
      VisitedFrom(es, 0);
      hide Join;
      assert Visited(d, None) == [0] + Visited(d, Some(0));
      assert Starts(es)[0] == 0;
    }
  }

  // ----- separators in place of terminators -----

  /** `d` with every terminator but the last byte overwritten by `c`. */
  function Stringified(d: seq<byte>, c: byte): (r: seq<byte>)
    ensures |r| == |d|
  {
    seq(|d|, i requires 0 <= i < |d| => if d[i] == NUL && i < |d| - 1 then c else d[i])
  }

  lemma StringifiedHead(e: CStr, rest: seq<byte>, c: byte)
    requires rest != []
    ensures Stringified(e + [NUL] + rest, c) == e + [c] + Stringified(rest, c)
  {
    var d := e + [NUL] + rest;
    forall i | 0 <= i < |d|
      ensures Stringified(d, c)[i] == (e + [c] + Stringified(rest, c))[i]
    {
      if i > |e| {
        assert d[i] == rest[i - |e| - 1];
      }
    }
  }

  lemma {:induction false} StringifiedJoin(es: seq<CStr>, c: byte)
    requires es != []
    ensures Stringified(Join(es), c) == Intercalate(es, c) + [NUL]
  {
    var e := es[0];
    if |es| == 1 {
      JoinOne(e);
      assert es == [e];
    } else {
      calc {
        Stringified(Join(es), c);
        { StringifiedHead(e, Join(es[1..]), c); }
        e + [c] + Stringified(Join(es[1..]), c);
        { StringifiedJoin(es[1..], c); }
        e + [c] + (Intercalate(es[1..], c) + [NUL]);
        Intercalate(es, c) + [NUL];
      }
    }
  }

  lemma {:induction false} PiecesLength(s: CStr, c: byte)
    ensures |Join(Pieces(s, c))| == |s| + 1
    decreases |s|
  {
    var n := Find(s, c, 0);
    if n < |s| {
      PiecesLength(s[n + 1..], c);
      assert Pieces(s, c)[1..] == Pieces(s[n + 1..], c);
    } else {
      JoinOne(s);
    }
  }
}
