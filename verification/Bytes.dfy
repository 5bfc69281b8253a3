// Bytes, C strings and the libc string functions the vectors are built from.
module Bytes {
  newtype byte = x: int | 0 <= x < 256

  const NUL: byte := 0
  const SPACE: byte := 32
  const EQUALS: byte := 61

  datatype Option<+T> = None | Some(value: T)

  predicate NulFree(s: seq<byte>) {
    NUL !in s
  }

  /** The text of a C string, without its terminator. */
  type CStr = s: seq<byte> | NulFree(s) witness []

  /** The conversion `(char)c` of an int. */
  function ToChar(c: int): byte {
    (c % 256) as byte
  }

  /** A character that fits a byte is itself, and any int counts modulo 256. */
  lemma ToCharValue(c: int, k: int)
    ensures 0 <= c < 256 ==> ToChar(c) as int == c
    ensures ToChar(c + 256 * k) == ToChar(c)
  {
  }

  /** What `s[k]` reads in C: the terminator stands just past the text. */
  function CharAt(s: CStr, k: nat): byte
    requires k <= |s|
  {
    if k < |s| then s[k] else NUL
  }

  /** First index at or after `p` holding `c`, or `|d|` when there is none. */
  function Find(d: seq<byte>, c: byte, p: nat): (n: nat)
    requires p <= |d|
    ensures p <= n <= |d|
    ensures forall k :: p <= k < n ==> d[k] != c
    ensures n < |d| ==> d[n] == c
    decreases |d| - p
  {
    if p == |d| || d[p] == c then p else Find(d, c, p + 1)
  }

  /** The C string that a pointer to offset `p` of the memory `d` denotes. */
  function CStringAt(d: seq<byte>, p: nat): (s: CStr)
    requires p <= |d|
    ensures p + |s| <= |d| && s == d[p..p + |s|]
    ensures p + |s| < |d| ==> d[p + |s|] == NUL
  {
    d[p..Find(d, NUL, p)]
  }

  /** The parts one after the other. */
  function Concat(parts: seq<seq<byte>>): seq<byte> {
    if parts == [] then [] else parts[0] + Concat(parts[1..])
  }

  /** The parts that are not empty, in order. */
  function NonEmpty(parts: seq<seq<byte>>): seq<seq<byte>> {
    if parts == [] then [] else (if parts[0] == [] then [] else [parts[0]]) + NonEmpty(parts[1..])
  }

  /** The pieces of `s` between occurrences of `c`, empty ones included (what repeated `strsep` yields). */
  function Pieces(s: CStr, c: byte): (ps: seq<CStr>)
    ensures |ps| >= 1
    decreases |s|
  {
    var n := Find(s, c, 0);
    if n == |s| then [s] else [s[..n]] + Pieces(s[n + 1..], c)
  }

  /** The strings of `ps` with one `c` between neighbours. */
  function Intercalate(ps: seq<CStr>, c: byte): seq<byte>
    requires |ps| >= 1
  {
    if |ps| == 1 then ps[0] else ps[0] + [c] + Intercalate(ps[1..], c)
  }

  /** Splitting loses nothing, and no piece contains the separator. */
  lemma {:induction false} PiecesRestore(s: CStr, c: byte)
    ensures Intercalate(Pieces(s, c), c) == s
    ensures forall k :: 0 <= k < |Pieces(s, c)| ==> c !in Pieces(s, c)[k]
    decreases |s|
  {
    var n := Find(s, c, 0);
    if n < |s| {
      PiecesRestore(s[n + 1..], c);
      var rest := Pieces(s[n + 1..], c);
      assert Pieces(s, c)[1..] == rest;
      assert s == s[..n] + [c] + s[n + 1..];
    }
  }

  /** The pieces are the only separator-free strings that join back to `s`. */
  lemma {:induction false} PiecesUnique(s: CStr, c: byte, ps: seq<CStr>)
    requires |ps| >= 1 && Intercalate(ps, c) == s
    requires forall k :: 0 <= k < |ps| ==> c !in ps[k]
    ensures Pieces(s, c) == ps
    decreases |ps|
  {
    var n := Find(s, c, 0);
    if |ps| == 1 {
      assert n == |s|;
    } else {
      assert s[|ps[0]|] == c;
      assert n == |ps[0]| by {
        assert forall k :: 0 <= k < |ps[0]| ==> s[k] == ps[0][k];
      }
      assert s[..n] == ps[0] && s[n + 1..] == Intercalate(ps[1..], c);
      assert ps == [ps[0]] + ps[1..];
      PiecesUnique(s[n + 1..], c, ps[1..]);
    }
  }
}
