// What the envz functions mean: an environment is a map from names to optional values.
module EnvzMeaning {
  import opened Bytes
  import opened ArgzVector
  import opened Scanner
  import opened EnvzLibrary

  /** The first entry whose name is `name`; `|es|` when there is none. */
  function FirstKey(es: seq<CStr>, name: CStr): (k: nat)
    ensures k <= |es|
    ensures k < |es| ==> KeyOf(es[k]) == name
    ensures forall j :: 0 <= j < k ==> KeyOf(es[j]) != name
  {
    if es == [] || KeyOf(es[0]) == name then 0 else 1 + FirstKey(es[1..], name)
  }

  /** The environment that a vector stands for; the first entry with a name counts. */
  function EnvMap(es: seq<CStr>): map<CStr, Option<CStr>> {
    if es == [] then map[] else EnvMap(es[1..])[KeyOf(es[0]) := ValueOf(es[0])]
  }

  /** No two entries have the same name. */
  predicate UniqueKeys(es: seq<CStr>) {
    es == [] || (KeyOf(es[0]) !in EnvMap(es[1..]) && UniqueKeys(es[1..]))
  }

  lemma {:induction false} MapLookup(es: seq<CStr>, name: CStr)
    ensures name in EnvMap(es) <==> FirstKey(es, name) < |es|
    ensures name in EnvMap(es) ==> EnvMap(es)[name] == ValueOf(es[FirstKey(es, name)])
  {
    if es != [] {
      hide ValueOf;
      MapLookup(es[1..], name);
    }
  }

  /** `name` is accepted only in entries that it names. */
  ghost predicate Isolated(es: seq<CStr>, name: CStr)
    requires name != []
  {
    forall k :: 0 <= k < |es| && Accepts(es[k], name) ==> KeyOf(es[k]) == name
  }

  /** No entry ahead of the one named `name` accepts it. */
  ghost predicate ClearAhead(es: seq<CStr>, name: CStr)
    requires name != []
  {
    forall j :: 0 <= j < FirstKey(es, name) ==> !Accepts(es[j], name)
  }

  lemma IsolatedClear(es: seq<CStr>, name: CStr)
    requires name != [] && Isolated(es, name)
    ensures ClearAhead(es, name)
  {
  }

  /** A name never contains '=', and only an entry with '=' has a value. */
  lemma PartsOfEntry(e: CStr)
    ensures Pair(KeyOf(e), ValueOf(e)) == e
    ensures EQUALS !in KeyOf(e) && (ValueOf(e).Some? <==> EQUALS in e)
  {
    PairOfParts(e);
  }

  /** A name without '=' and its value are read back from the entry made of them. */
  lemma PartsOfPair(name: CStr, value: Option<CStr>)
    requires EQUALS !in name
    ensures KeyOf(Pair(name, value)) == name && ValueOf(Pair(name, value)) == value
  {
    var e := Pair(name, value);
    var n := Find(e, EQUALS, 0);
    assert forall k :: 0 <= k < |name| ==> e[k] == name[k];
    if value.Some? {
      assert e[|name|] == EQUALS;
    }
    assert n == |name|;
  }

  // ----- looking names up -----

  lemma KeyIsHit(e: CStr)
    requires KeyOf(e) != []
    ensures Scan(e, KeyOf(e)) == Some(0)
  {
    var n := KeyOf(e);
    assert n <= e;
    assert |n| < |e| ==> e[|n|] == EQUALS;
  }

  /**
   * `envz_entry` finds the entry named `name` exactly when in no entry ahead of it one of the leftmost
   * non-overlapping occurrences of `name` ends where a name may end.
   */
  lemma LookupExact(es: seq<CStr>, name: CStr)
    requires name != []
    ensures HitEntry(es, name) == FirstKey(es, name) <==> ClearAhead(es, name)
    ensures HitEntry(es, name) <= FirstKey(es, name)
  {
    hide Scan, Accepts;
    var k := FirstKey(es, name);
    forall j | 0 <= j < k
      ensures Scan(es[j], name).Some? <==> Accepts(es[j], name)
    {
      ScanExactly(es[j], name);
    }
    if k < |es| {
      KeyIsHit(es[k]);
    }
  }

  /** For a name without borders, that is when no entry ahead contains it in front of '=' or at its end. */
  lemma LookupBorderless(es: seq<CStr>, name: CStr)
    requires name != [] && Borderless(name)
    ensures HitEntry(es, name) == FirstKey(es, name) <==>
            forall j :: 0 <= j < FirstKey(es, name) ==> !Occurs(es[j], name)
  {
    hide Scan, Accepts, Occurs, Borderless;
    var k := FirstKey(es, name);
    forall j | 0 <= j < k
      ensures Accepts(es[j], name) <==> Occurs(es[j], name)
    {
      ScanExactly(es[j], name);
      BorderlessOccurs(es[j], name);
    }
    LookupExact(es, name);
  }

  lemma OverlapHidden()
    ensures Scan([97, 97, 97, 61, 49], [97, 97]) == None
  {
    var name: CStr, t: seq<byte> := [97, 97], [97, 97, 97, 61, 49];
    assert t[0..] == t && t[2..] == [97, 61, 49] && t[3..] == [61, 49] && t[4..] == [49];
    ScanHere(t, name, 0);
    ScanHere(t, name, 2);
    ScanHere(t, name, 3);
    ScanShort([49], name);
    hide Scan;
    assert t[2..][1] == 61 && t[3..][0] == 61;
    assert !MatchAt(t, name, 2) && !MatchAt(t, name, 3) && MatchAt(t, name, 0);
  }

  /** `aa` ends in front of the '=' of `aaa=1`, yet it is found in `aa=2` behind it: the overlap hides it. */
  lemma LookupOverlap()
    ensures var es: seq<CStr> := [[97, 97, 97, 61, 49], [97, 97, 61, 50]];
            Occurs(es[0], [97, 97]) && HitEntry(es, [97, 97]) == 1 == FirstKey(es, [97, 97])
  {
    var name: CStr, a: CStr, b: CStr := [97, 97], [97, 97, 97, 61, 49], [97, 97, 61, 50];
    OverlapHidden();
    hide Scan;
    assert a[1..][..2] == name && OccursAt(a, name, 1);
    assert Find(a, EQUALS, 0) == 3 && Find(b, EQUALS, 0) == 2;
    assert KeyOf(a) == [97, 97, 97] && KeyOf(b) == name;
    KeyIsHit(b);
    var es: seq<CStr> := [a, b];
    assert es[1..] == [b];
  }

  /** In the environment `ab=1`, looking for `b` finds the entry of `ab`. */
  lemma LookupInexact()
    ensures var es: seq<CStr> := [[97, 98, 61, 49]];
            HitEntry(es, [98]) == 0 && FirstKey(es, [98]) == 1
  {
    var e: CStr := [97, 98, 61, 49];
    assert e[1..] == [98, 61, 49];
    assert Scan(e[1..], [98]) == Some(0);
    assert Scan(e, [98]) == Some(1);
    assert Find(e, EQUALS, 2) == 2;
    assert KeyOf(e) == [97, 98];
    var es: seq<CStr> := [e];
    assert es[1..] == [];
  }

  /**
   * `envz_get` points at the value the environment gives to `name`, or is null when there is none, when
   * no entry ahead of that name accepts it.
   */
  lemma GetAgrees(es: seq<CStr>, name: CStr)
    requires name != [] && ClearAhead(es, name)
    ensures match ValueOffset(es, name)
      case None => name !in EnvMap(es) || EnvMap(es)[name] == None
      case Some(p) =>
        p <= |Join(es)| && name in EnvMap(es) && EnvMap(es)[name] == Some(CStringAt(Join(es), p))
  {
    hide FirstKey, HitEntry, EnvMap, Scan, Join, ClearAhead;
    LookupExact(es, name);
    MapLookup(es, name);
    var k := HitEntry(es, name);
    if k < |es| {
      KeyIsHit(es[k]);
      if |name| < |es[k]| {
        var p := Offset(es, k) + |name| + 1;
        assert Inside(es, k, p);
        TerminatorOf(es, k, p);
      }
    }
  }

  // ----- merging -----

  lemma {:induction false} AppendMap(es: seq<CStr>, e: CStr)
    requires UniqueKeys(es) && KeyOf(e) !in EnvMap(es)
    ensures UniqueKeys(es + [e])
    ensures EnvMap(es + [e]) == EnvMap(es)[KeyOf(e) := ValueOf(e)]
  {
    hide KeyOf, ValueOf;
    if es == [] {
      assert es + [e] == [e] && [e][1..] == [];
    } else {
      AppendMap(es[1..], e);
      assert (es + [e])[1..] == es[1..] + [e];
    }
  }

  lemma {:induction false} RemoveMap(es: seq<CStr>, k: nat)
    requires UniqueKeys(es) && k < |es|
    ensures KeyOf(es[k]) in EnvMap(es)
    ensures UniqueKeys(es[..k] + es[k + 1..])
    ensures EnvMap(es[..k] + es[k + 1..]) == EnvMap(es) - {KeyOf(es[k])}
  {
    hide KeyOf, ValueOf;
    if k == 0 {
      assert es[..k] + es[k + 1..] == es[1..];
    } else {
      var t := es[1..];
      var t' := t[..k - 1] + t[k..];
      RemoveMap(t, k - 1);
      var es' := es[..k] + es[k + 1..];
      assert es'[0] == es[0] && es'[1..] == t';
      assert EnvMap(es') == EnvMap(t')[KeyOf(es[0]) := ValueOf(es[0])];
      assert EnvMap(es) == EnvMap(t)[KeyOf(es[0]) := ValueOf(es[0])];
      assert t[k - 1] == es[k];
    }
  }

  lemma ReplaceMap(es: seq<CStr>, k: nat, e: CStr)
    requires UniqueKeys(es) && k < |es| && KeyOf(es[k]) == KeyOf(e)
    ensures UniqueKeys(es[..k] + es[k + 1..] + [e])
    ensures EnvMap(es[..k] + es[k + 1..] + [e]) == EnvMap(es)[KeyOf(e) := ValueOf(e)]
  {
    hide KeyOf, ValueOf, EnvMap, UniqueKeys;
    RemoveMap(es, k);
    AppendMap(es[..k] + es[k + 1..], e);
  }

  lemma MergeOneEntries(es: seq<CStr>, e: CStr, override: bool)
    ensures forall x :: x in MergeOne(es, e, override) ==> x in es || x == e
  {
  }

  lemma {:induction false} AppendUnique(es: seq<CStr>, e: CStr)
    requires UniqueKeys(es + [e])
    ensures UniqueKeys(es) && KeyOf(e) !in EnvMap(es)
  {
    hide KeyOf, ValueOf;
    if es != [] {
      assert (es + [e])[1..] == es[1..] + [e];
      AppendUnique(es[1..], e);
      AppendMap(es[1..], e);
    }
  }

  /** What `envz_remove` takes out of the map: the right name, or that of an entry ahead which accepts it. */
  lemma RemovedKey(es: seq<CStr>, name: CStr)
    requires UniqueKeys(es) && name != []
    ensures UniqueKeys(RemoveHit(es, name))
    ensures ClearAhead(es, name) ==>
              EnvMap(RemoveHit(es, name)) == EnvMap(es) - {name} && name !in EnvMap(RemoveHit(es, name))
    ensures !ClearAhead(es, name) ==>
              var k := HitEntry(es, name);
              && k < |es| && KeyOf(es[k]) != name && KeyOf(es[k]) in EnvMap(es)
              && EnvMap(RemoveHit(es, name)) == EnvMap(es) - {KeyOf(es[k])}
  {
    LookupExact(es, name);
    MapLookup(es, name);
    var k, f := HitEntry(es, name), FirstKey(es, name);
    assert k < f ==> KeyOf(es[k]) != name;
    assert k == f < |es| ==> KeyOf(es[k]) == name;
    hide EnvMap, UniqueKeys, FirstKey, HitEntry, Scan, ValueOf, KeyOf, ClearAhead;
    if k < |es| {
      RemoveMap(es, k);
    }
  }

  /** `envz_remove` takes the name, and no other, out of the map if and only if no entry ahead of it accepts it. */
  lemma RemoveExactly(es: seq<CStr>, name: CStr)
    requires UniqueKeys(es) && name != []
    ensures UniqueKeys(RemoveHit(es, name))
    ensures EnvMap(RemoveHit(es, name)) == EnvMap(es) - {name} <==> ClearAhead(es, name)
  {
    hide EnvMap, UniqueKeys, HitEntry, KeyOf, RemoveHit, ClearAhead;
    RemovedKey(es, name);
    if !ClearAhead(es, name) {
      var other := KeyOf(es[HitEntry(es, name)]);
      assert other in EnvMap(es) - {name};
    }
  }

  /** `envz_add` sets the name in the map, and no other, under the same condition. */
  lemma AddExactly(es: seq<CStr>, name: CStr, value: Option<CStr>)
    requires UniqueKeys(es) && name != [] && EQUALS !in name
    ensures var r := RemoveHit(es, name) + [Pair(name, value)];
            UniqueKeys(r) && EnvMap(r) == EnvMap(es)[name := value] <==> ClearAhead(es, name)
  {
    PartsOfPair(name, value);
    hide EnvMap, UniqueKeys, HitEntry, KeyOf, ValueOf, Pair, RemoveHit, ClearAhead;
    RemovedKey(es, name);
    var es', e := RemoveHit(es, name), Pair(name, value);
    if ClearAhead(es, name) {
      AppendMap(es', e);
      assert (EnvMap(es) - {name})[name := value] == EnvMap(es)[name := value];
    } else if UniqueKeys(es' + [e]) {
      AppendUnique(es', e);
      AppendMap(es', e);
      assert KeyOf(es[HitEntry(es, name)]) !in EnvMap(es' + [e]);
    }
  }

  /** Adding `b` to the environment `ab=1` takes `ab` out of it. */
  lemma AddLoses(value: Option<CStr>)
    ensures var es: seq<CStr> := [[97, 98, 61, 49]];
            && [97, 98] in EnvMap(es)
            && RemoveHit(es, [98]) + [Pair([98], value)] == [Pair([98], value)]
            && [97, 98] !in EnvMap([Pair([98], value)])
  {
    LookupInexact();
    var e: CStr := [97, 98, 61, 49];
    var es: seq<CStr> := [e];
    assert Find(e, EQUALS, 2) == 2;
    assert KeyOf(e) == [97, 98];
    PartsOfPair([98], value);
    hide HitEntry, FirstKey, Scan, Pair;
    assert es[1..] == [] && [Pair([98], value)][1..] == [];
    assert es[..0] + es[1..] == [];
  }

  /**
   * One merged entry: with override its value wins, without it the value already there does. This
   * holds exactly when no entry ahead of its name accepts it, or when there is nothing to be done.
   */
  lemma MergeOneMap(es: seq<CStr>, e: CStr, override: bool)
    requires UniqueKeys(es) && KeyOf(e) != []
    ensures var m, name := MergeOne(es, e, override), KeyOf(e);
            && UniqueKeys(m)
            && EnvMap(m) == (if override || name !in EnvMap(es) then EnvMap(es)[name := ValueOf(e)] else EnvMap(es))
            <==> ClearAhead(es, name) || (!override && name in EnvMap(es))
  {
    var name := KeyOf(e);
    PartsOfEntry(e);
    hide EnvMap, UniqueKeys, FirstKey, HitEntry, Scan, ValueOf, KeyOf, Pair, ClearAhead, RemoveHit;
    LookupExact(es, name);
    MapLookup(es, name);
    if override {
      AddExactly(es, name, ValueOf(e));
    } else if HitEntry(es, name) == |es| {
      AppendMap(es, e);
    }
  }

  lemma UnionStep<K, V>(m: map<K, V>, m2: map<K, V>, k: K, v: V)
    requires k !in m2
    ensures m[k := v] + m2 == m + m2[k := v]
    ensures m2 + (if k in m then m else m[k := v]) == m2[k := v] + m
  {
  }

  /** Every entry of the pool shows the merged names only where they are names. */
  ghost predicate NoStrayNames(pool: set<CStr>, es2: seq<CStr>)
    requires Named(es2)
  {
    forall x, k :: x in pool && 0 <= k < |es2| && Accepts(x, KeyOf(es2[k])) ==> KeyOf(x) == KeyOf(es2[k])
  }

  lemma PoolIsolates(es: seq<CStr>, es2: seq<CStr>, pool: set<CStr>, k: nat)
    requires Named(es2) && NoStrayNames(pool, es2) && k < |es2|
    requires forall x :: x in es ==> x in pool
    ensures Isolated(es, KeyOf(es2[k]))
  {
  }

  /** `envz_merge` is map union, biased to the second environment with override and to the first without. */
  lemma {:induction false} MergeIsUnion(es: seq<CStr>, es2: seq<CStr>, override: bool, pool: set<CStr>)
    requires UniqueKeys(es) && UniqueKeys(es2) && Named(es2)
    requires forall x :: x in es || x in es2 ==> x in pool
    requires NoStrayNames(pool, es2)
    ensures UniqueKeys(Merged(es, es2, override))
    ensures EnvMap(Merged(es, es2, override)) ==
            if override then EnvMap(es) + EnvMap(es2) else EnvMap(es2) + EnvMap(es)
    ensures forall x :: x in Merged(es, es2, override) ==> x in pool
    decreases |es2|
  {
    if es2 != [] {
      var e, rest := es2[0], es2[1..];
      assert e in es2;
      PoolIsolates(es, es2, pool, 0);
      IsolatedClear(es, KeyOf(e));
      MergeOneMap(es, e, override);
      MergeOneEntries(es, e, override);
      assert NoStrayNames(pool, rest);
      var es' := MergeOne(es, e, override);
      assert Merged(es, es2, override) == Merged(es', rest, override);
      assert EnvMap(es2) == EnvMap(rest)[KeyOf(e) := ValueOf(e)] && KeyOf(e) !in EnvMap(rest);
      hide KeyOf, ValueOf, MergeOne, NoStrayNames, Isolated, EnvMap, Merged, UniqueKeys;
      MergeIsUnion(es', rest, override, pool);
      UnionStep(EnvMap(es), EnvMap(rest), KeyOf(e), ValueOf(e));
    }
  }

  /** The union that a merge computes. */
  function MergedMap(es: seq<CStr>, es2: seq<CStr>, override: bool): map<CStr, Option<CStr>> {
    if override then EnvMap(es) + EnvMap(es2) else EnvMap(es2) + EnvMap(es)
  }

  /** After a merge, looking up any name accepted only as a name finds its entry and value in the union. */
  lemma LookupAfterMerge(es: seq<CStr>, es2: seq<CStr>, override: bool, name: CStr)
    requires UniqueKeys(es) && UniqueKeys(es2) && Named(es2) && name != []
    requires NoStrayNames((set x | x in es) + (set x | x in es2), es2)
    requires forall x :: x in es || x in es2 ==> Accepts(x, name) ==> KeyOf(x) == name
    ensures var r, m := Merged(es, es2, override), MergedMap(es, es2, override);
            && HitEntry(r, name) == FirstKey(r, name) && (name in m <==> HitEntry(r, name) < |r|)
            && (name in m ==> ValueOf(r[HitEntry(r, name)]) == m[name])
            && match ValueOffset(r, name)
                 case None => name !in m || m[name] == None
                 case Some(p) => p <= |Join(r)| && name in m && m[name] == Some(CStringAt(Join(r), p))
  {
    hide FirstKey, HitEntry, EnvMap, UniqueKeys, Merged, KeyOf, ValueOf, ValueOffset, Scan, Join, Accepts, NoStrayNames;
    var pool := (set x | x in es) + (set x | x in es2);
    MergeIsUnion(es, es2, override, pool);
    var r := Merged(es, es2, override);
    assert Isolated(r, name) by {
      forall k | 0 <= k < |r| && Accepts(r[k], name)
        ensures KeyOf(r[k]) == name
      {
        assert r[k] in r && r[k] in pool;
      }
    }
    IsolatedClear(r, name);
    hide ClearAhead, Isolated;
    LookupExact(r, name);
    GetAgrees(r, name);
    MapLookup(r, name);
  }

  /** In particular, every name of the second environment is found with the value the merge promises. */
  lemma MergedLookups(es: seq<CStr>, es2: seq<CStr>, override: bool, k: nat)
    requires UniqueKeys(es) && UniqueKeys(es2) && Named(es2) && k < |es2|
    requires NoStrayNames((set x | x in es) + (set x | x in es2), es2)
    ensures var r := Merged(es, es2, override);
            var name := KeyOf(es2[k]);
            var expected := if override || name !in EnvMap(es) then ValueOf(es2[k]) else EnvMap(es)[name];
            && HitEntry(r, name) == FirstKey(r, name) < |r|
            && ValueOf(r[HitEntry(r, name)]) == expected
            && match ValueOffset(r, name)
                 case None => expected == None
                 case Some(p) => p <= |Join(r)| && expected == Some(CStringAt(Join(r), p))
  {
    hide FirstKey, HitEntry, EnvMap, UniqueKeys, Merged, KeyOf, ValueOf, ValueOffset, Scan, Join, Accepts;
    LookupAfterMerge(es, es2, override, KeyOf(es2[k]));
    KeyOccurs(es2, k);
  }

  // ----- the order of entries after a merge -----

  /** The entries whose names the map lacks, in order. */
  function Lacking(es: seq<CStr>, m: map<CStr, Option<CStr>>): seq<CStr> {
    if es == [] then [] else (if KeyOf(es[0]) in m then [] else [es[0]]) + Lacking(es[1..], m)
  }

  lemma {:induction false} LackingAppend(a: seq<CStr>, b: seq<CStr>, m: map<CStr, Option<CStr>>)
    ensures Lacking(a + b, m) == Lacking(a, m) + Lacking(b, m)
  {
    hide KeyOf;
    if a == [] {
      assert a + b == b;
    } else {
      assert (a + b)[1..] == a[1..] + b;
      LackingAppend(a[1..], b, m);
    }
  }

  lemma LackingOne(e: CStr, m: map<CStr, Option<CStr>>)
    ensures Lacking([e], m) == if KeyOf(e) in m then [] else [e]
  {
    hide KeyOf;
    assert [e][1..] == [];
  }

  /** A name that no entry has makes no difference. */
  lemma {:induction false} LackingSame(es: seq<CStr>, m: map<CStr, Option<CStr>>, name: CStr, v: Option<CStr>)
    requires name !in EnvMap(es)
    ensures Lacking(es, m[name := v]) == Lacking(es, m)
  {
    hide KeyOf, ValueOf;
    if es != [] {
      LackingSame(es[1..], m, name, v);
    }
  }

  /** Taking out the entry of a name leaves those lacking with it in the map. */
  lemma LackingRemoved(es: seq<CStr>, k: nat, m: map<CStr, Option<CStr>>, v: Option<CStr>)
    requires UniqueKeys(es) && k < |es|
    ensures Lacking(es[..k] + es[k + 1..], m) == Lacking(es, m[KeyOf(es[k]) := v])
  {
    hide KeyOf, ValueOf, UniqueKeys, EnvMap, Lacking;
    var name := KeyOf(es[k]);
    var m', es' := m[name := v], es[..k] + es[k + 1..];
    assert es == es[..k] + ([es[k]] + es[k + 1..]);
    LackingAppend(es[..k], [es[k]] + es[k + 1..], m');
    LackingAppend([es[k]], es[k + 1..], m');
    LackingOne(es[k], m');
    LackingAppend(es[..k], es[k + 1..], m');
    RemoveMap(es, k);
    LackingSame(es', m, name, v);
    assert [] + Lacking(es[k + 1..], m') == Lacking(es[k + 1..], m');
  }

  /**
   * The entries that a merge leaves. With override they are those of the first environment whose names
   * the second lacks, and then all of the second; without, all of the first, and then those of the
   * second whose names the first lacks.
   */
  lemma {:induction false} MergedEntries(es: seq<CStr>, es2: seq<CStr>, override: bool, pool: set<CStr>)
    requires UniqueKeys(es) && UniqueKeys(es2) && Named(es2)
    requires forall x :: x in es || x in es2 ==> x in pool
    requires NoStrayNames(pool, es2)
    ensures Merged(es, es2, override) ==
            if override then Lacking(es, EnvMap(es2)) + es2 else es + Lacking(es2, EnvMap(es))
    decreases |es2|
  {
    if es2 == [] {
      LackingNothing(es);
    } else {
      var e, rest := es2[0], es2[1..];
      MergeStep(es, es2, override, pool);
      hide KeyOf, ValueOf, NoStrayNames, Named, EnvMap, Merged, UniqueKeys, ClearAhead, MergeOne, Lacking;
      MergedEntries(MergeOne(es, e, override), rest, override, pool);
      assert es2 == [e] + rest;
      if override {
        OverriddenOne(es, e, EnvMap(rest));
        Regroup(Lacking(es, EnvMap(es2)), [e], rest);
      } else {
        AddedOne(es, e, rest);
      }
    }
  }

  /** One entry merged keeps what the next ones need. */
  lemma MergeStep(es: seq<CStr>, es2: seq<CStr>, override: bool, pool: set<CStr>)
    requires UniqueKeys(es) && UniqueKeys(es2) && Named(es2) && es2 != []
    requires forall x :: x in es || x in es2 ==> x in pool
    requires NoStrayNames(pool, es2)
    ensures var e, rest := es2[0], es2[1..];
            var es' := MergeOne(es, e, override);
            && KeyOf(e) != [] && ClearAhead(es, KeyOf(e)) && UniqueKeys(es') && UniqueKeys(rest) && Named(rest)
            && (forall x :: x in es' || x in rest ==> x in pool) && NoStrayNames(pool, rest)
            && KeyOf(e) !in EnvMap(rest) && EnvMap(es2) == EnvMap(rest)[KeyOf(e) := ValueOf(e)]
            && Merged(es, es2, override) == Merged(es', rest, override)
  {
    var e := es2[0];
    assert e in es2;
    PoolIsolates(es, es2, pool, 0);
    IsolatedClear(es, KeyOf(e));
    hide Isolated, ClearAhead, Accepts;
    MergeOneMap(es, e, override);
    MergeOneEntries(es, e, override);
    hide KeyOf, ValueOf, MergeOne;
  }

  lemma {:induction false} LackingNothing(es: seq<CStr>)
    ensures Lacking(es, map[]) == es && Lacking([], EnvMap(es)) == [] && es + [] == es
  {
    if es != [] {
      LackingNothing(es[1..]);
    }
  }

  lemma OverriddenOne(es: seq<CStr>, e: CStr, m: map<CStr, Option<CStr>>)
    requires UniqueKeys(es) && KeyOf(e) != [] && ClearAhead(es, KeyOf(e)) && KeyOf(e) !in m
    ensures Lacking(MergeOne(es, e, true), m) == Lacking(es, m[KeyOf(e) := ValueOf(e)]) + [e]
  {
    var name := KeyOf(e);
    LookupExact(es, name);
    MapLookup(es, name);
    var k := HitEntry(es, name);
    assert k < |es| ==> KeyOf(es[k]) == name;
    assert MergeOne(es, e, true) == (if k == |es| then es else es[..k] + es[k + 1..]) + [e];
    hide KeyOf, ValueOf, EnvMap, UniqueKeys, ClearAhead, MergeOne, Lacking, HitEntry, FirstKey;
    LackingAppend(if k == |es| then es else es[..k] + es[k + 1..], [e], m);
    LackingOne(e, m);
    if k < |es| {
      LackingRemoved(es, k, m, ValueOf(e));
    } else {
      LackingSame(es, m, name, ValueOf(e));
    }
  }

  lemma AddedOne(es: seq<CStr>, e: CStr, rest: seq<CStr>)
    requires UniqueKeys(es) && KeyOf(e) != [] && ClearAhead(es, KeyOf(e)) && KeyOf(e) !in EnvMap(rest)
    ensures var es' := MergeOne(es, e, false);
            es' + Lacking(rest, EnvMap(es')) == es + Lacking([e] + rest, EnvMap(es))
  {
    var name := KeyOf(e);
    LookupExact(es, name);
    MapLookup(es, name);
    assert MergeOne(es, e, false) == if name in EnvMap(es) then es else es + [e];
    hide KeyOf, ValueOf, UniqueKeys, ClearAhead, MergeOne, Lacking, HitEntry, FirstKey, EnvMap;
    LackingAppend([e], rest, EnvMap(es));
    LackingOne(e, EnvMap(es));
    if name in EnvMap(es) {
      assert [] + Lacking(rest, EnvMap(es)) == Lacking(rest, EnvMap(es));
    } else {
      AppendMap(es, e);
      LackingSame(rest, EnvMap(es), name, ValueOf(e));
      Regroup(es, [e], Lacking(rest, EnvMap(es)));
    }
  }

  lemma Regroup(a: seq<CStr>, b: seq<CStr>, c: seq<CStr>)
    ensures a + b + c == a + (b + c)
  {
  }

  /** `a` is what is left of `b` when some of its entries are dropped. */
  predicate Subsequence(a: seq<CStr>, b: seq<CStr>) {
    a == [] || (b != [] && (if a[0] == b[0] then Subsequence(a[1..], b[1..]) else Subsequence(a, b[1..])))
  }

  lemma {:induction false} SubsequenceSkip(a: seq<CStr>, e: CStr, b: seq<CStr>)
    requires Subsequence(a, b)
    ensures Subsequence(a, [e] + b)
    decreases |b|
  {
    assert ([e] + b)[1..] == b;
    if a != [] && a[0] == e {
      assert b == [b[0]] + b[1..];
      if a[0] == b[0] {
        SubsequenceSkip(a[1..], b[0], b[1..]);
      } else {
        SubsequenceTail(a, b[1..]);
        SubsequenceSkip(a[1..], b[0], b[1..]);
      }
    }
  }

  lemma {:induction false} SubsequenceTail(a: seq<CStr>, b: seq<CStr>)
    requires a != [] && Subsequence(a, b)
    ensures Subsequence(a[1..], b)
    decreases |b|
  {
    if a[0] == b[0] {
      SubsequenceSkip(a[1..], b[0], b[1..]);
      assert b == [b[0]] + b[1..];
    } else {
      SubsequenceTail(a, b[1..]);
      SubsequenceSkip(a[1..], b[0], b[1..]);
      assert b == [b[0]] + b[1..];
    }
  }

  /** Without override a merge of any environments only appends: some entries of the second, in their order. */
  lemma {:induction false} MergeAppends(es: seq<CStr>, es2: seq<CStr>)
    ensures var r := Merged(es, es2, false);
            es <= r && Subsequence(r[|es|..], es2)
    decreases |es2|
  {
    if es2 == [] {
      assert es[|es|..] == [];
    } else {
      var e, rest := es2[0], es2[1..];
      var es' := MergeOne(es, e, false);
      assert es' == es || es' == es + [e];
      assert Merged(es, es2, false) == Merged(es', rest, false);
      hide KeyOf, HitEntry, MergeOne, Merged, Subsequence;
      MergeAppends(es', rest);
      assert es2 == [e] + rest;
      var r := Merged(es', rest, false);
      if es' == es {
        SubsequenceSkip(r[|es|..], e, rest);
      } else {
        SubsequenceCons(es, e, r, rest);
      }
    }
  }

  lemma SubsequenceCons(es: seq<CStr>, e: CStr, r: seq<CStr>, rest: seq<CStr>)
    requires es + [e] <= r && Subsequence(r[|es + [e]|..], rest)
    ensures es <= r && Subsequence(r[|es|..], [e] + rest)
  {
    var t := r[|es|..];
    assert t[0] == e && t[1..] == r[|es + [e]|..] && ([e] + rest)[1..] == rest;
  }

  lemma {:induction false} KeyOccurs(es: seq<CStr>, k: nat)
    requires UniqueKeys(es) && k < |es|
    ensures KeyOf(es[k]) in EnvMap(es) && EnvMap(es)[KeyOf(es[k])] == ValueOf(es[k])
  {
    hide KeyOf, ValueOf;
    if k > 0 {
      KeyOccurs(es[1..], k - 1);
    }
  }

  // ----- stripping -----

  predicate Bare(e: CStr) {
    EQUALS !in e
  }

  function WithValues(es: seq<CStr>): seq<CStr> {
    if es == [] then [] else (if Bare(es[0]) then [] else [es[0]]) + WithValues(es[1..])
  }

  /** Stripping never drops or reorders an entry that has a value. */
  lemma {:induction false} StripKeepsValues(es: seq<CStr>)
    ensures WithValues(Stripped(es)) == WithValues(es)
    decreases |es|
  {
    if es == [] || (|es| == 1 && Bare(es[0])) {
    } else if !Bare(es[0]) {
      StripKeepsValues(es[1..]);
      assert Stripped(es)[1..] == Stripped(es[1..]);
    } else {
      StripKeepsValues(es[2..]);
      assert Stripped(es)[1..] == Stripped(es[2..]);
      assert es[1..][1..] == es[2..];
    }
  }

  /** How many entries without a value stand directly in front of entry `i`. */
  function BareBefore(es: seq<CStr>, i: nat): nat
    requires i <= |es|
  {
    if i == 0 || !Bare(es[i - 1]) then 0 else 1 + BareBefore(es, i - 1)
  }

  /** From entry `i` on: the entries with values, and every second one of each row of entries without. */
  function EverySecondBare(es: seq<CStr>, i: nat): seq<CStr>
    requires i <= |es|
    decreases |es| - i
  {
    if i == |es| then []
    else (if !Bare(es[i]) || BareBefore(es, i) % 2 == 1 then [es[i]] else []) + EverySecondBare(es, i + 1)
  }

  /** Which entries stripping leaves: of a row of entries without values the second, the fourth and so on. */
  lemma {:induction false} StrippedEntries(es: seq<CStr>, i: nat)
    requires i <= |es| && BareBefore(es, i) % 2 == 0
    ensures Stripped(es[i..]) == EverySecondBare(es, i)
    decreases |es| - i
  {
    hide Bare, Stripped, EverySecondBare, BareBefore;
    if i == |es| {
      NothingStripped(es);
    } else {
      StrippedOne(es[i..]);
      SecondBareStep(es, i);
      assert es[i..][1..] == es[i + 1..];
      if !Bare(es[i]) {
        StrippedEntries(es, i + 1);
      } else if i + 1 < |es| {
        assert es[i..][2..] == es[i + 2..];
        StrippedEntries(es, i + 2);
      }
    }
  }

  lemma NothingStripped(es: seq<CStr>)
    ensures Stripped(es[|es|..]) == EverySecondBare(es, |es|) == []
  {
  }

  lemma SecondBareStep(es: seq<CStr>, i: nat)
    requires i < |es| && BareBefore(es, i) % 2 == 0
    ensures !Bare(es[i]) ==>
              EverySecondBare(es, i) == [es[i]] + EverySecondBare(es, i + 1) && BareBefore(es, i + 1) == 0
    ensures Bare(es[i]) && i + 1 == |es| ==> EverySecondBare(es, i) == []
    ensures Bare(es[i]) && i + 1 < |es| ==>
              EverySecondBare(es, i) == [es[i + 1]] + EverySecondBare(es, i + 2) && BareBefore(es, i + 2) % 2 == 0
  {
    hide Bare;
    assert Bare(es[i]) ==> BareBefore(es, i + 1) == 1 + BareBefore(es, i);
    if Bare(es[i]) {
      assert EverySecondBare(es, i) == [] + EverySecondBare(es, i + 1) == EverySecondBare(es, i + 1);
    }
  }

  lemma StrippedOne(es: seq<CStr>)
    requires es != []
    ensures Stripped(es) == if !Bare(es[0]) then [es[0]] + Stripped(es[1..])
                            else if |es| == 1 then [] else [es[1]] + Stripped(es[2..])
  {
  }

  predicate NoTwoBareTogether(es: seq<CStr>) {
    |es| <= 1 || (!(Bare(es[0]) && Bare(es[1])) && NoTwoBareTogether(es[1..]))
  }

  lemma {:induction false} WithValuesHasNoBare(es: seq<CStr>)
    ensures forall e :: e in WithValues(es) ==> !Bare(e)
  {
    if es != [] {
      WithValuesHasNoBare(es[1..]);
    }
  }

  /** Stripping leaves exactly the entries with values if, and only if, no two neighbours lack one. */
  lemma {:induction false} StripExact(es: seq<CStr>)
    ensures Stripped(es) == WithValues(es) <==> NoTwoBareTogether(es)
    decreases |es|
  {
    if |es| <= 1 {
      assert |es| == 1 ==> es[1..] == [];
    } else if !Bare(es[0]) {
      StripExact(es[1..]);
      assert Stripped(es)[1..] == Stripped(es[1..]) && WithValues(es)[1..] == WithValues(es[1..]);
    } else if Bare(es[1]) {
      WithValuesHasNoBare(es);
      assert es[1] in Stripped(es);
    } else {
      var t := es[2..];
      StripExact(t);
      assert es[1..][1..] == t;
      assert NoTwoBareTogether(es[1..]) == NoTwoBareTogether(t);
      assert WithValues(es) == [es[1]] + WithValues(t);
      assert Stripped(es)[1..] == Stripped(t) && WithValues(es)[1..] == WithValues(t);
    }
  }
}
