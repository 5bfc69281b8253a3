// Callers of the argz functions: what two of them undo, and where two of them agree.
module ArgzRoundTrips {
  import opened Bytes
  import opened ArgzVector
  import opened ArgzLibrary

  /** Splitting a string and joining it again with the same separator restores it byte for byte. */
  method SplitThenStringify(str: CStr, sep: int) returns (z: Argz)
    requires str != []
    ensures z.Valid() && z.Data() == str + [NUL]
  {
    hide Pieces, Intercalate;
    z := new Argz();
    z.CreateSep(Some(str), sep);
    PiecesRestore(str, ToChar(sep));
    z.Stringify(sep);
  }

  /** Deleting at the place where an entry was inserted restores the vector, wherever `before` pointed. */
  method InsertThenDelete(z: Argz, before: nat, entry: CStr)
    requires z.Valid() && before < z.len
    modifies z, z.buf
    ensures z.Valid() && z.Entries() == old(z.Entries()) && z.Data() == old(z.Data())
  {
    hide Split, Join, Offset;
    ghost var es := z.Entries();
    ghost var k := EntryOf(es, before);
    var spot := z.StepBack(before);
    var error := z.Insert(Some(before), entry);
    ghost var es' := z.Entries();
    assert es'[..k] + es'[k + 1..] == es;
    SpotOfInserted(es, k, entry);
    z.Delete(Some(spot));
  }

  lemma SpotOfInserted(es: seq<CStr>, k: nat, e: CStr)
    requires k <= |es|
    ensures var es' := es[..k] + [e] + es[k..];
            k < |es'| && Offset(es', k) == Offset(es, k) < |Join(es')|
  {
    var es' := es[..k] + [e] + es[k..];
    assert es'[..k] == es[..k];
    OffsetIsLength(es, k);
    OffsetIsLength(es', k);
    EntryUnique(es', k, Offset(es', k));
  }

  /** Iterating with `argz_next` from null visits every entry start once, in order, then stops. */
  method Iterate(z: Argz) returns (visited: seq<nat>)
    requires z.Valid()
    ensures visited == Starts(z.Entries())
  {
    hide Split, Join, Offset, Find, Visited, NextOffset, Starts;
    visited := [];
    VisitedAll(z.Entries());
    assert z.buf[..][..z.len] == z.Data();
    VisitedStep(z.buf[..], z.len, None);
    var entry := Next(z.buf, z.len, None);
    while entry.Some?
      invariant entry.Some? ==> entry.value < z.len
      invariant Starts(z.Entries()) ==
                visited + match entry case None => [] case Some(p) => [p] + Visited(z.Data(), entry)
      decreases if entry.Some? then z.len - entry.value else -1
    {
      visited := visited + [entry.value];
      VisitedStep(z.buf[..], z.len, entry);
      entry := Next(z.buf, z.len, entry);
    }
  }

  /**
   * `argz_extract` fills in the starts that iterating visits, as many as `argz_count` says: all of
   * them, unless the first of several entries is empty, when slot 1 is left as it was.
   */
  method ExtractAndIterate(z: Argz, argv: array<Option<nat>>) returns (visited: seq<nat>, count: nat)
    requires z.Valid() && |z.Entries()| < argv.Length
    modifies argv
    ensures visited == Starts(z.Entries()) && count == |visited|
    ensures forall k :: 0 <= k < count && (k != 1 || z.Entries()[0] != []) ==> argv[k] == Some(visited[k])
    ensures count > 1 && z.Entries()[0] == [] ==> argv[1] == old(argv[1])
    ensures argv[count] == None
  {
    hide Split, Join, Offset;
    z.Extract(argv);
    count := z.Count();
    visited := Iterate(z);
  }

  lemma VisitedStep(mem: seq<byte>, n: nat, entry: Option<nat>)
    requires n <= |mem| && WellFormed(mem[..n]) && (entry.Some? ==> entry.value < n)
    ensures entry.Some? ==> Find(mem, NUL, entry.value) < |mem|
    ensures var r := NextOffset(mem, n, entry);
            Visited(mem[..n], entry) == if r.None? then [] else [r.value] + Visited(mem[..n], r)
  {
    NextOffsetInPrefix(mem, n, entry);
    if entry.Some? {
      TerminatorAhead(mem[..n], entry.value);
      FindInPrefix(mem, n, NUL, entry.value);
    }
  }
}
