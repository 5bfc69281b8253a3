// The generator of register headers: a struct of bit fields and a set of macros for the same fields.
module RegisterLayout {
  import opened Bytes
  import opened Bits

  /** A field as described: possibly an array of `count` fields, `stride` bits apart. */
  datatype FieldSpec = FieldSpec(name: string, msb: nat, lsb: nat, count: Option<nat>, stride: Option<nat>)

  /** A field of the generated header; `index` is the number behind its name. */
  datatype Field = Field(name: string, index: Option<nat>, msb: nat, lsb: nat)

  const REGISTER_WIDTH := 32

  predicate InRegister(f: Field) {
    f.lsb <= f.msb < REGISTER_WIDTH
  }

  predicate AllInRegister(fields: seq<Field>) {
    forall k :: 0 <= k < |fields| ==> InRegister(fields[k])
  }

  predicate Disjoint(f: Field, g: Field) {
    f.msb < g.lsb || g.msb < f.lsb
  }

  predicate PairwiseDisjoint(fields: seq<Field>) {
    forall j, k :: 0 <= j < k < |fields| ==> Disjoint(fields[j], fields[k])
  }

  predicate SortedByLsb(fields: seq<Field>) {
    forall j, k :: 0 <= j < k < |fields| ==> fields[j].lsb <= fields[k].lsb
  }

  function Width(f: Field): int {
    f.msb - f.lsb + 1
  }

  // ----- expanding field arrays -----

  function Copy(s: FieldSpec, stride: nat, i: nat): Field {
    Field(s.name, Some(i), s.msb + i * stride, s.lsb + i * stride)
  }

  /** The stride when none is given: the copies are packed side by side. */
  function StrideOf(s: FieldSpec): nat
    requires s.lsb <= s.msb
  {
    match s.stride
    case Some(n) => n
    case None => s.msb - s.lsb + 1
  }

  predicate Described(specs: seq<FieldSpec>) {
    forall k :: 0 <= k < |specs| ==> specs[k].lsb <= specs[k].msb
  }

  function Expand(s: FieldSpec): seq<Field>
    requires s.lsb <= s.msb
  {
    match s.count
    case None => [Field(s.name, None, s.msb, s.lsb)]
    case Some(n) => seq(n, i requires 0 <= i < n => Copy(s, StrideOf(s), i))
  }

  function ExpandAll(specs: seq<FieldSpec>): seq<Field>
    requires Described(specs)
  {
    if specs == [] then [] else Expand(specs[0]) + ExpandAll(specs[1..])
  }

  /** Stable insertion, behind fields with the same lowest bit. */
  function Insert(f: Field, sorted: seq<Field>): seq<Field> {
    if sorted == [] || f.lsb < sorted[0].lsb then [f] + sorted else [sorted[0]] + Insert(f, sorted[1..])
  }

  function Sort(fields: seq<Field>): seq<Field> {
    if fields == [] then [] else Insert(fields[|fields| - 1], Sort(fields[..|fields| - 1]))
  }

  lemma {:induction false} InsertKeeps(f: Field, sorted: seq<Field>)
    ensures multiset(Insert(f, sorted)) == multiset(sorted) + multiset{f}
  {
    if sorted != [] && f.lsb >= sorted[0].lsb {
      InsertKeeps(f, sorted[1..]);
      assert sorted == [sorted[0]] + sorted[1..];
    }
  }

  lemma {:induction false} InsertSorts(f: Field, sorted: seq<Field>)
    requires SortedByLsb(sorted)
    ensures SortedByLsb(Insert(f, sorted))
    ensures forall k :: 0 <= k < |Insert(f, sorted)| ==>
              Insert(f, sorted)[k].lsb >= if sorted == [] || f.lsb < sorted[0].lsb then f.lsb else sorted[0].lsb
  {
    if sorted != [] && f.lsb >= sorted[0].lsb {
      var t := sorted[1..];
      InsertSorts(f, t);
      assert t != [] ==> t[0] == sorted[1];
      var r := Insert(f, t);
      assert Insert(f, sorted) == [sorted[0]] + r;
      hide Insert;
      assert forall k :: 0 <= k < |r| ==> r[k].lsb >= sorted[0].lsb;
    }
  }

  lemma {:induction false} SortKeeps(fields: seq<Field>)
    ensures multiset(Sort(fields)) == multiset(fields)
    decreases |fields|
  {
    if fields != [] {
      var n := |fields| - 1;
      var sorted := Sort(fields[..n]);
      assert Sort(fields) == Insert(fields[n], sorted);
      hide Insert, Sort;
      SortKeeps(fields[..n]);
      InsertKeeps(fields[n], sorted);
      LastCounted(fields);
    }
  }

  lemma LastCounted(fields: seq<Field>)
    requires fields != []
    ensures multiset(fields) == multiset(fields[..|fields| - 1]) + multiset{fields[|fields| - 1]}
  {
    assert fields == fields[..|fields| - 1] + [fields[|fields| - 1]];
  }

  /** Sorting puts the same fields in order of their lowest bits. */
  lemma {:induction false} SortSorts(fields: seq<Field>)
    ensures SortedByLsb(Sort(fields)) && multiset(Sort(fields)) == multiset(fields)
    decreases |fields|
  {
    SortKeeps(fields);
    if fields == [] {
      assert SortedByLsb([]);
    } else {
      hide Insert, SortedByLsb;
      var n := |fields| - 1;
      SortSorts(fields[..n]);
      InsertSorts(fields[n], Sort(fields[..n]));
    }
  }

  /** The fields that begin at this bit, in order. */
  function BeginningAt(fields: seq<Field>, lsb: nat): seq<Field> {
    if fields == [] then [] else (if fields[0].lsb == lsb then [fields[0]] else []) + BeginningAt(fields[1..], lsb)
  }

  lemma {:induction false} BeginningAppend(a: seq<Field>, b: seq<Field>, lsb: nat)
    ensures BeginningAt(a + b, lsb) == BeginningAt(a, lsb) + BeginningAt(b, lsb)
  {
    if a == [] {
      assert a + b == b;
    } else {
      assert (a + b)[0] == a[0] && (a + b)[1..] == a[1..] + b;
      BeginningAppend(a[1..], b, lsb);
      var first := if a[0].lsb == lsb then [a[0]] else [];
      assert BeginningAt(a + b, lsb) == first + BeginningAt(a[1..] + b, lsb);
      assert BeginningAt(a, lsb) == first + BeginningAt(a[1..], lsb);
      hide BeginningAt;
      assert first + (BeginningAt(a[1..], lsb) + BeginningAt(b, lsb)) ==
             first + BeginningAt(a[1..], lsb) + BeginningAt(b, lsb);
    }
  }

  lemma {:induction false} NoneBegin(fields: seq<Field>, lsb: nat)
    requires forall k :: 0 <= k < |fields| ==> fields[k].lsb > lsb
    ensures BeginningAt(fields, lsb) == []
  {
    if fields != [] {
      NoneBegin(fields[1..], lsb);
    }
  }

  lemma {:induction false} InsertStable(f: Field, sorted: seq<Field>, lsb: nat)
    requires SortedByLsb(sorted)
    ensures BeginningAt(Insert(f, sorted), lsb) == BeginningAt(sorted, lsb) + if f.lsb == lsb then [f] else []
  {
    if sorted == [] || f.lsb < sorted[0].lsb {
      assert ([f] + sorted)[1..] == sorted;
      if f.lsb == lsb {
        NoneBegin(sorted, lsb);
      }
    } else {
      InsertStable(f, sorted[1..], lsb);
      assert Insert(f, sorted)[1..] == Insert(f, sorted[1..]);
    }
  }

  /** The sorting is stable: fields that begin at the same bit stay in the order of their descriptions. */
  lemma {:induction false} SortStable(fields: seq<Field>, lsb: nat)
    ensures BeginningAt(Sort(fields), lsb) == BeginningAt(fields, lsb)
    decreases |fields|
  {
    if fields != [] {
      var n := |fields| - 1;
      var sorted, last := Sort(fields[..n]), fields[n];
      assert Sort(fields) == Insert(last, sorted);
      hide Insert, Sort;
      SortSorts(fields[..n]);
      SortStable(fields[..n], lsb);
      InsertStable(last, sorted, lsb);
      assert fields == fields[..n] + [last];
      BeginningAppend(fields[..n], [last], lsb);
      assert [last][1..] == [];
    }
  }

  /** `f` is disjoint from every one of the fields. */
  predicate Apart(f: Field, fields: seq<Field>) {
    forall g :: g in fields ==> Disjoint(f, g)
  }

  lemma DisjointCons(f: Field, fields: seq<Field>)
    ensures PairwiseDisjoint([f] + fields) <==> Apart(f, fields) && PairwiseDisjoint(fields)
  {
    hide Disjoint;
    var all := [f] + fields;
    assert all[1..] == fields;
    if PairwiseDisjoint(all) {
      forall k | 0 <= k < |fields|
        ensures Disjoint(f, fields[k])
      {
        assert Disjoint(all[0], all[k + 1]);
      }
      forall j, k | 0 <= j < k < |fields|
        ensures Disjoint(fields[j], fields[k])
      {
        assert Disjoint(all[j + 1], all[k + 1]);
      }
    }
    if Apart(f, fields) && PairwiseDisjoint(fields) {
      forall j, k | 0 <= j < k < |all|
        ensures Disjoint(all[j], all[k])
      {
        assert all[k] == fields[k - 1];
        assert j > 0 ==> all[j] == fields[j - 1];
      }
    }
  }

  lemma DisjointSnoc(f: Field, fields: seq<Field>)
    ensures PairwiseDisjoint(fields + [f]) <==> Apart(f, fields) && PairwiseDisjoint(fields)
  {
    var all := fields + [f];
    if PairwiseDisjoint(all) {
      forall k | 0 <= k < |fields|
        ensures Disjoint(f, fields[k])
      {
        assert Disjoint(all[k], all[|fields|]);
      }
      forall j, k | 0 <= j < k < |fields|
        ensures Disjoint(fields[j], fields[k])
      {
        assert Disjoint(all[j], all[k]);
      }
    }
    if Apart(f, fields) && PairwiseDisjoint(fields) {
      forall j, k | 0 <= j < k < |all|
        ensures Disjoint(all[j], all[k])
      {
        assert all[j] == fields[j] && Disjoint(f, fields[j]);
      }
    }
  }

  lemma ApartInsert(g: Field, f: Field, sorted: seq<Field>)
    ensures Apart(g, Insert(f, sorted)) <==> Disjoint(g, f) && Apart(g, sorted)
  {
    InsertKeeps(f, sorted);
    hide Insert;
    assert forall x :: x in Insert(f, sorted) <==> x in multiset(Insert(f, sorted));
    assert forall x :: x in sorted <==> x in multiset(sorted);
    assert f in Insert(f, sorted);
  }

  lemma {:induction false} InsertDisjoint(f: Field, sorted: seq<Field>)
    ensures PairwiseDisjoint(Insert(f, sorted)) <==> Apart(f, sorted) && PairwiseDisjoint(sorted)
  {
    if sorted == [] || f.lsb < sorted[0].lsb {
      DisjointCons(f, sorted);
    } else {
      hide PairwiseDisjoint, Disjoint;
      var g, t := sorted[0], sorted[1..];
      assert sorted == [g] + t;
      InsertDisjoint(f, t);
      DisjointCons(g, Insert(f, t));
      DisjointCons(g, t);
      ApartInsert(g, f, t);
      ApartCons(f, g, t);
    }
  }

  lemma ApartCons(f: Field, g: Field, fields: seq<Field>)
    ensures Apart(f, [g] + fields) <==> Disjoint(g, f) && Apart(f, fields)
  {
    assert g in [g] + fields;
    assert forall x :: x in fields ==> x in [g] + fields;
  }

  lemma ApartSort(f: Field, fields: seq<Field>)
    ensures Apart(f, Sort(fields)) <==> Apart(f, fields)
  {
    SortKeeps(fields);
    hide Sort, Disjoint;
    assert forall x :: x in Sort(fields) <==> x in multiset(Sort(fields));
    assert forall x :: x in fields <==> x in multiset(fields);
  }

  /** Sorting fields does not change whether they are pairwise disjoint. */
  lemma {:induction false} SortDisjoint(fields: seq<Field>)
    ensures PairwiseDisjoint(Sort(fields)) <==> PairwiseDisjoint(fields)
    decreases |fields|
  {
    if fields != [] {
      hide Insert, PairwiseDisjoint, Apart;
      var n := |fields| - 1;
      assert fields == fields[..n] + [fields[n]];
      SortDisjoint(fields[..n]);
      InsertDisjoint(fields[n], Sort(fields[..n]));
      ApartSort(fields[n], fields[..n]);
      DisjointSnoc(fields[n], fields[..n]);
    }
  }

  /** The fields of an array: each copy as many bits above the first as strides lie between, the width by default. */
  lemma CopyPlaces(s: FieldSpec, i: nat)
    requires s.lsb <= s.msb && s.count.Some? && i < s.count.value
    ensures var stride := if s.stride.Some? then s.stride.value else s.msb + 1 - s.lsb;
            && |Expand(s)| == s.count.value
            && Expand(s)[i] == Field(s.name, Some(i), s.msb + i * stride, s.lsb + i * stride)
  {
  }

  /** A description without a count is one field, as it stands. */
  lemma SingleField(s: FieldSpec)
    requires s.lsb <= s.msb && s.count.None?
    ensures Expand(s) == [Field(s.name, None, s.msb, s.lsb)]
  {
  }

  /** The fields keep the order of their descriptions. */
  lemma {:induction false} ExpandInOrder(a: seq<FieldSpec>, b: seq<FieldSpec>)
    requires Described(a) && Described(b)
    ensures Described(a + b) && ExpandAll(a + b) == ExpandAll(a) + ExpandAll(b)
  {
    hide Expand;
    if a == [] {
      assert a + b == b;
    } else {
      assert (a + b)[1..] == a[1..] + b;
      ExpandInOrder(a[1..], b);
    }
  }

  /** Three fields of two bits each, without a stride. */
  lemma CopiesSideBySide(name: string)
    ensures Expand(FieldSpec(name, 5, 4, Some(3), None)) ==
            [Field(name, Some(0), 5, 4), Field(name, Some(1), 7, 6), Field(name, Some(2), 9, 8)]
  {
  }

  /** The inner loop of `expand_fields`, or its one field when there is no count. */
  method ExpandOne(s: FieldSpec) returns (fields: seq<Field>)
    requires s.lsb <= s.msb
    ensures fields == Expand(s)
  {
    if s.count.None? {
      return [Field(s.name, None, s.msb, s.lsb)];
    }
    var stride := StrideOf(s);
    fields := [];
    for i := 0 to s.count.value
      invariant |fields| == i
      invariant forall j :: 0 <= j < i ==> fields[j] == Copy(s, stride, j)
    {
      fields := fields + [Copy(s, stride, i)];
    }
  }

  /** `expand_fields`. */
  method ExpandFields(specs: seq<FieldSpec>) returns (fields: seq<Field>)
    requires Described(specs)
    ensures fields == Sort(ExpandAll(specs))
    ensures SortedByLsb(fields) && multiset(fields) == multiset(ExpandAll(specs))
  {
    hide Expand, Sort;
    var expanded: seq<Field> := [];
    assert specs[0..] == specs;
    for k := 0 to |specs|
      invariant ExpandAll(specs) == expanded + ExpandAll(specs[k..])
    {
      assert specs[k..][1..] == specs[k + 1..];
      var one := ExpandOne(specs[k]);
      expanded := expanded + one;
    }
    assert expanded + [] == expanded;
    SortSorts(expanded);
    return Sort(expanded);
  }

  lemma {:induction false} Multiples(i: nat, j: nat, stride: nat)
    requires i < j
    ensures i * stride + stride <= j * stride
    decreases j
  {
    if i + 1 < j {
      Multiples(i, j - 1, stride);
      assert j * stride == (j - 1) * stride + stride;
    } else {
      assert j * stride == i * stride + stride;
    }
  }

  lemma CopiesApart(s: FieldSpec, stride: nat, i: nat, j: nat)
    requires s.lsb <= s.msb && i < j && stride >= s.msb - s.lsb + 1
    ensures Copy(s, stride, i).msb < Copy(s, stride, j).lsb
  {
    Multiples(i, j, stride);
  }

  /** The copies of a field array keep apart exactly when the stride is at least the width. */
  lemma CopiesDisjoint(s: FieldSpec)
    requires s.lsb <= s.msb && s.count.Some? && s.count.value >= 2
    ensures PairwiseDisjoint(Expand(s)) <==> StrideOf(s) >= s.msb - s.lsb + 1
  {
    var fs, stride := Expand(s), StrideOf(s);
    if stride >= s.msb - s.lsb + 1 {
      forall j, k | 0 <= j < k < |fs|
        ensures Disjoint(fs[j], fs[k])
      {
        CopiesApart(s, stride, j, k);
      }
    } else {
      assert fs[0] == Field(s.name, Some(0), s.msb, s.lsb);
      assert fs[1] == Field(s.name, Some(1), s.msb + stride, s.lsb + stride);
      assert !Disjoint(fs[0], fs[1]);
    }
  }

  // ----- the struct -----

  /** A member of the struct: a field, or reserved bits. */
  datatype Member = Reserved(width: int) | Named(field: Field, width: int)

  function Members(fields: seq<Field>, lastLsb: nat): seq<Member> {
    if fields == [] then
      if lastLsb < REGISTER_WIDTH then [Reserved(REGISTER_WIDTH - lastLsb)] else []
    else
      var f := fields[0];
      (if lastLsb < f.lsb then [Reserved(f.lsb - lastLsb)] else [])
      + [Named(f, Width(f))] + Members(fields[1..], f.msb + 1)
  }

  lemma MembersEmitted(before: seq<Member>, fields: seq<Field>, k: nat, lastLsb: nat)
    requires k < |fields|
    ensures before + Members(fields[k..], lastLsb) ==
            before + (if lastLsb < fields[k].lsb then [Reserved(fields[k].lsb - lastLsb)] else [])
            + [Named(fields[k], Width(fields[k]))] + Members(fields[k + 1..], fields[k].msb + 1)
  {
    assert fields[k..][1..] == fields[k + 1..];
  }

  lemma MembersEnded(before: seq<Member>, lastLsb: nat)
    ensures before + Members([], lastLsb) ==
            if lastLsb < REGISTER_WIDTH then before + [Reserved(REGISTER_WIDTH - lastLsb)] else before
  {
    assert before + [] == before;
  }

  /** The loop that emits the struct. */
  method EmitStruct(fields: seq<Field>) returns (members: seq<Member>)
    ensures members == Members(fields, 0)
  {
    hide Members;
    members := [];
    var lastLsb: nat := 0;
    assert fields[0..] == fields;
    assert [] + Members(fields, 0) == Members(fields, 0);
    for k := 0 to |fields|
      invariant Members(fields, 0) == members + Members(fields[k..], lastLsb)
    {
      MembersEmitted(members, fields, k, lastLsb);
      var f := fields[k];
      if lastLsb < f.lsb {
        members := members + [Reserved(f.lsb - lastLsb)];
      } else {
        assert members + [] == members;
      }
      members := members + [Named(f, Width(f))];
      lastLsb := f.msb + 1;
    }
    assert fields[|fields|..] == [];
    MembersEnded(members, lastLsb);
    if lastLsb < REGISTER_WIDTH {
      members := members + [Reserved(REGISTER_WIDTH - lastLsb)];
    }
  }

  function TotalWidth(members: seq<Member>): int {
    if members == [] then 0 else members[0].width + TotalWidth(members[1..])
  }

  lemma {:induction false} TotalWidthAppend(a: seq<Member>, b: seq<Member>)
    ensures TotalWidth(a + b) == TotalWidth(a) + TotalWidth(b)
  {
    if a == [] {
      assert a + b == b;
    } else {
      TotalWidthAppend(a[1..], b);
      assert (a + b)[1..] == a[1..] + b;
    }
  }

  /** Each field starts at or behind the end of the one before. */
  predicate Follows(fields: seq<Field>, lastLsb: nat) {
    fields == [] || (lastLsb <= fields[0].lsb && Follows(fields[1..], fields[0].msb + 1))
  }

  /** In sorted order, fields are pairwise disjoint exactly when each one follows the one before. */
  lemma {:induction false} FollowsExactly(fields: seq<Field>, lastLsb: nat)
    requires SortedByLsb(fields) && AllInRegister(fields)
    requires fields != [] ==> lastLsb <= fields[0].lsb
    ensures Follows(fields, lastLsb) <==> PairwiseDisjoint(fields)
  {
    if |fields| > 1 {
      var t := fields[1..];
      if fields[0].msb < t[0].lsb {
        FollowsExactly(t, fields[0].msb + 1);
        assert PairwiseDisjoint(t) ==> PairwiseDisjoint(fields) by {
          forall j, k | PairwiseDisjoint(t) && 0 <= j < k < |fields|
            ensures Disjoint(fields[j], fields[k])
          {
            if j > 0 {
              assert Disjoint(t[j - 1], t[k - 1]);
            } else {
              assert fields[1].lsb <= fields[k].lsb;
            }
          }
        }
      } else {
        assert fields[0].lsb <= fields[1].lsb;
        assert !Disjoint(fields[0], fields[1]);
      }
    }
  }

  lemma MembersStep(fields: seq<Field>, lastLsb: nat)
    requires fields != []
    ensures var f := fields[0];
            TotalWidth(Members(fields, lastLsb)) ==
              (if lastLsb < f.lsb then f.lsb - lastLsb else 0) + Width(f) + TotalWidth(Members(fields[1..], f.msb + 1))
  {
    var f := fields[0];
    var rest := Members(fields[1..], f.msb + 1);
    var gap := if lastLsb < f.lsb then [Reserved(f.lsb - lastLsb)] else [];
    TotalWidthAppend(gap + [Named(f, Width(f))], rest);
    TotalWidthAppend(gap, [Named(f, Width(f))]);
    assert forall m: Member :: [m][1..] == [];
  }

  lemma {:induction false} WidthsFrom(fields: seq<Field>, lastLsb: nat)
    requires AllInRegister(fields) && lastLsb <= REGISTER_WIDTH
    ensures TotalWidth(Members(fields, lastLsb)) >= REGISTER_WIDTH - lastLsb
    ensures TotalWidth(Members(fields, lastLsb)) == REGISTER_WIDTH - lastLsb <==> Follows(fields, lastLsb)
    decreases |fields|
  {
    if fields != [] {
      MembersStep(fields, lastLsb);
      WidthsFrom(fields[1..], fields[0].msb + 1);
    }
  }

  /** The struct is exactly as wide as the register if, and only if, no two fields overlap. */
  lemma StructWidth(fields: seq<Field>)
    requires SortedByLsb(fields) && AllInRegister(fields)
    ensures TotalWidth(Members(fields, 0)) == REGISTER_WIDTH <==> PairwiseDisjoint(fields)
    ensures TotalWidth(Members(fields, 0)) >= REGISTER_WIDTH
  {
    WidthsFrom(fields, 0);
    FollowsExactly(fields, 0);
  }

  /** A register in use whose last two fields share bits 9 to 15: its struct takes 39 bits. */
  lemma OverlapWidens(a: Field, b: Field, c: Field, d: Field)
    requires a.msb == 1 && a.lsb == 0 && b.msb == 8 && b.lsb == 2
    requires c.msb == 15 && c.lsb == 9 && d.msb == 15 && d.lsb == 9
    ensures TotalWidth(Members([a, b, c, d], 0)) == 39
  {
    MembersStep([a, b, c, d], 0);
    assert [a, b, c, d][1..] == [b, c, d];
    MembersStep([b, c, d], 2);
    assert [b, c, d][1..] == [c, d];
    MembersStep([c, d], 9);
    assert [c, d][1..] == [d];
    MembersStep([d], 16);
    assert [d][1..] == [];
  }

  /** Where the compiler puts each named member, filling the word from bit 0 up. */
  function Positions(members: seq<Member>, at: int): seq<(Field, int)> {
    if members == [] then []
    else (if members[0].Named? then [(members[0].field, at)] else []) + Positions(members[1..], at + members[0].width)
  }

  function Shifts(fields: seq<Field>): (s: seq<(Field, int)>)
  {
    if fields == [] then [] else [(fields[0], fields[0].lsb)] + Shifts(fields[1..])
  }

  lemma MembersCons(fields: seq<Field>, lastLsb: nat)
    requires fields != []
    ensures var f := fields[0];
            var named := [Named(f, Width(f))] + Members(fields[1..], f.msb + 1);
            Members(fields, lastLsb) == if lastLsb < f.lsb then [Reserved(f.lsb - lastLsb)] + named else named
  {
  }

  lemma PositionsCons(m: Member, members: seq<Member>, at: int)
    ensures Positions([m] + members, at) ==
            (if m.Named? then [(m.field, at)] else []) + Positions(members, at + m.width)
  {
    assert ([m] + members)[1..] == members;
  }

  lemma PositionsStep(fields: seq<Field>, lastLsb: nat, at: int)
    requires fields != []
    ensures var f := fields[0];
            var start := if lastLsb < f.lsb then at + (f.lsb - lastLsb) else at;
            Positions(Members(fields, lastLsb), at) ==
            [(f, start)] + Positions(Members(fields[1..], f.msb + 1), start + Width(f))
  {
    MembersCons(fields, lastLsb);
    hide Members, Positions;
    var f := fields[0];
    var rest := Members(fields[1..], f.msb + 1);
    var named := [Named(f, Width(f))] + rest;
    if lastLsb < f.lsb {
      PositionsCons(Reserved(f.lsb - lastLsb), named, at);
      PositionsCons(Named(f, Width(f)), rest, at + (f.lsb - lastLsb));
    } else {
      PositionsCons(Named(f, Width(f)), rest, at);
    }
  }

  lemma PositionsNone(lastLsb: nat, at: int)
    ensures Positions(Members([], lastLsb), at) == []
  {
    if lastLsb < REGISTER_WIDTH {
      assert Members([], lastLsb)[1..] == [];
    }
  }

  /** Every field sits at its shift exactly when each one follows the one before. */
  lemma {:induction false} PositionsFrom(fields: seq<Field>, lastLsb: nat)
    ensures Positions(Members(fields, lastLsb), lastLsb) == Shifts(fields) <==> Follows(fields, lastLsb)
    decreases |fields|
  {
    if fields == [] {
      PositionsNone(lastLsb, lastLsb);
    } else {
      PositionsStep(fields, lastLsb, lastLsb);
      PositionsFrom(fields[1..], fields[0].msb + 1);
      hide Positions, Members;
      var placed := Positions(Members(fields, lastLsb), lastLsb);
      if lastLsb <= fields[0].lsb {
        assert placed[1..] == Positions(Members(fields[1..], fields[0].msb + 1), fields[0].msb + 1);
        assert Shifts(fields)[1..] == Shifts(fields[1..]);
      } else {
        assert placed[0] != Shifts(fields)[0];
      }
    }
  }

  /** The struct has every field once, in order, wherever it sits. */
  lemma {:induction false} PlacedFields(fields: seq<Field>, lastLsb: nat, at: nat, k: nat)
    requires forall f :: f in fields ==> f.lsb <= f.msb
    ensures var placed := Positions(Members(fields, lastLsb), at);
            |placed| == |fields| && (k < |fields| ==> placed[k].0 == fields[k] && placed[k].1 >= 0)
    decreases |fields|
  {
    hide Members, Positions;
    if fields == [] {
      PositionsNone(lastLsb, at);
    } else {
      var f := fields[0];
      var start := if lastLsb < f.lsb then at + (f.lsb - lastLsb) else at;
      PositionsStep(fields, lastLsb, at);
      PlacedFields(fields[1..], f.msb + 1, start + Width(f), if k > 0 then k - 1 else 0);
    }
  }

  // ----- the macros -----

  /** `get_bit_mask`. */
  function Mask(f: Field): nat {
    if f.msb < f.lsb then 0 else Shl(Ones(f.msb - f.lsb + 1), f.lsb)
  }

  /** The `_VALUE` macro. */
  function Value(f: Field, raw: nat): nat {
    Shr(And(raw, Mask(f)), f.lsb)
  }

  /** The `_RAW` macro. */
  function Raw(f: Field, value: nat): nat {
    Shl(value, f.lsb)
  }

  /** What reading a bit field of this width at this offset of the word yields. */
  function ReadBits(raw: nat, offset: nat, width: nat): nat {
    And(Shr(raw, offset), Ones(width))
  }

  /** The mask covers the bits of its field and no others. */
  lemma MaskBits(f: Field, i: nat)
    ensures Bit(Mask(f), i) <==> f.lsb <= i <= f.msb
  {
    if f.msb < f.lsb {
      BitZero(i);
    } else {
      BitShl(Ones(f.msb - f.lsb + 1), f.lsb, i);
      if i >= f.lsb {
        BitOnes(f.msb - f.lsb + 1, i - f.lsb);
      }
    }
  }

  lemma ValueBits(f: Field, raw: nat, i: nat)
    requires f.lsb <= f.msb
    ensures Bit(Value(f, raw), i) <==> i <= f.msb - f.lsb && Bit(raw, f.lsb + i)
  {
    BitShr(And(raw, Mask(f)), f.lsb, i);
    BitAnd(raw, Mask(f), i + f.lsb);
    MaskBits(f, i + f.lsb);
  }

  /** Reading a field's bits where its shift says is what the macro computes. */
  lemma ReadIsValue(f: Field, raw: nat)
    requires f.lsb <= f.msb
    ensures ReadBits(raw, f.lsb, f.msb - f.lsb + 1) == Value(f, raw)
  {
    var w := f.msb - f.lsb + 1;
    forall i: nat
      ensures Bit(ReadBits(raw, f.lsb, w), i) == Bit(Value(f, raw), i)
    {
      BitAnd(Shr(raw, f.lsb), Ones(w), i);
      BitShr(raw, f.lsb, i);
      BitOnes(w, i);
      ValueBits(f, raw, i);
    }
    SameBits(ReadBits(raw, f.lsb, w), Value(f, raw));
  }

  /** Where field `k` sits in the struct. */
  function PlaceOf(fields: seq<Field>, k: nat): (at: nat)
    requires AllInRegister(fields) && k < |fields|
  {
    PlacedFields(fields, 0, 0, k);
    Positions(Members(fields, 0), 0)[k].1
  }

  /** Whatever the register holds, reading a field of the struct gives the value of its macro. */
  ghost predicate SameReads(fields: seq<Field>)
    requires AllInRegister(fields)
  {
    forall k: nat, raw: nat :: k < |fields| && raw < Pow2(REGISTER_WIDTH) ==>
      ReadBits(raw, PlaceOf(fields, k), Width(fields[k])) == Value(fields[k], raw)
  }

  lemma Pow2Bit(n: nat, i: nat)
    ensures Bit(Pow2(n), i) <==> i == n
  {
    BitShl(1, n, i);
    if i > n {
      HighBits(1, 1, i - n);
    }
  }

  /** A field read elsewhere than at its shift is misread when only its lowest bit is set. */
  lemma Misread(f: Field, at: nat)
    requires InRegister(f) && at != f.lsb
    ensures Pow2(f.lsb) < Pow2(REGISTER_WIDTH)
    ensures ReadBits(Pow2(f.lsb), at, Width(f)) != Value(f, Pow2(f.lsb))
  {
    var raw := Pow2(f.lsb);
    forall i: nat | REGISTER_WIDTH <= i
      ensures !Bit(raw, i)
    {
      Pow2Bit(f.lsb, i);
    }
    LowBits(raw, REGISTER_WIDTH);
    ValueBits(f, raw, 0);
    Pow2Bit(f.lsb, f.lsb);
    BitAnd(Shr(raw, at), Ones(Width(f)), 0);
    BitShr(raw, at, 0);
    Pow2Bit(f.lsb, at);
  }

  lemma ViewsMatch(fields: seq<Field>)
    requires AllInRegister(fields)
    ensures Positions(Members(fields, 0), 0) == Shifts(fields) <==> SameReads(fields)
  {
    var placed := Positions(Members(fields, 0), 0);
    hide Positions, Members, Value, ReadBits, Shifts;
    PlacedFields(fields, 0, 0, 0);
    if placed == Shifts(fields) {
      forall k: nat, raw: nat | k < |fields| && raw < Pow2(REGISTER_WIDTH)
        ensures ReadBits(raw, PlaceOf(fields, k), Width(fields[k])) == Value(fields[k], raw)
      {
        ShiftsAt(fields, k);
        ReadIsValue(fields[k], raw);
      }
    } else {
      if fields != [] {
        ShiftsAt(fields, 0);
      } else {
        NoShifts();
      }
      var k: nat :| k < |fields| && placed[k] != Shifts(fields)[k];
      PlacedFields(fields, 0, 0, k);
      ShiftsAt(fields, k);
      Misread(fields[k], PlaceOf(fields, k));
    }
  }

  lemma NoShifts()
    ensures Shifts([]) == []
  {
  }

  /**
   * The two views of a register coincide, each field sitting in the struct at its shift and reading
   * there as its macro computes, if and only if no two fields overlap.
   */
  lemma ViewsCoincide(fields: seq<Field>)
    requires SortedByLsb(fields) && AllInRegister(fields)
    ensures Positions(Members(fields, 0), 0) == Shifts(fields) <==> PairwiseDisjoint(fields)
    ensures SameReads(fields) <==> PairwiseDisjoint(fields)
  {
    FollowsExactly(fields, 0);
    PositionsFrom(fields, 0);
    ViewsMatch(fields);
  }

  /** From the descriptions: width and views of the header are right exactly when no described fields overlap. */
  lemma GeneratedHeader(specs: seq<FieldSpec>)
    requires Described(specs) && AllInRegister(ExpandAll(specs))
    ensures var fields := Sort(ExpandAll(specs));
            && AllInRegister(fields)
            && (TotalWidth(Members(fields, 0)) == REGISTER_WIDTH <==> PairwiseDisjoint(ExpandAll(specs)))
            && (SameReads(fields) <==> PairwiseDisjoint(ExpandAll(specs)))
  {
    var all := ExpandAll(specs);
    SortSorts(all);
    SortDisjoint(all);
    hide Sort, ExpandAll, SortedByLsb, PairwiseDisjoint;
    forall k | 0 <= k < |Sort(all)|
      ensures InRegister(Sort(all)[k])
    {
      assert Sort(all)[k] in multiset(Sort(all));
    }
    StructWidth(Sort(all));
    ViewsCoincide(Sort(all));
  }

  /** In the register above, the struct has its last field at bit 16 where the macros have bit 9. */
  lemma OverlapMisplaces(a: Field, b: Field, c: Field, d: Field)
    requires a.msb == 1 && a.lsb == 0 && b.msb == 8 && b.lsb == 2
    requires c.msb == 15 && c.lsb == 9 && d.msb == 15 && d.lsb == 9
    ensures Positions(Members([a, b, c, d], 0), 0) == [(a, 0), (b, 2), (c, 9), (d, 16)]
  {
    hide Members, Positions;
    var fields := [a, b, c, d];
    PositionsStep(fields, 0, 0);
    assert fields[1..] == [b, c, d];
    PositionsStep([b, c, d], 2, 2);
    assert [b, c, d][1..] == [c, d];
    PositionsStep([c, d], 9, 9);
    assert [c, d][1..] == [d];
    PositionsStep([d], 16, 16);
    assert [d][1..] == [];
    PositionsNone(16, 23);
  }

  /** So some content of that register reads differently through the struct and through the macros. */
  lemma OverlapMisreads(a: Field, b: Field, c: Field, d: Field)
    requires a.msb == 1 && a.lsb == 0 && b.msb == 8 && b.lsb == 2
    requires c.msb == 15 && c.lsb == 9 && d.msb == 15 && d.lsb == 9
    ensures !SameReads([a, b, c, d])
  {
    hide SameReads, Members, Positions, Shifts;
    var fields := [a, b, c, d];
    assert !Disjoint(fields[2], fields[3]);
    ViewsCoincide(fields);
  }

  lemma {:induction false} ShiftsAt(fields: seq<Field>, k: nat)
    requires k < |fields|
    ensures |Shifts(fields)| == |fields| && Shifts(fields)[k] == (fields[k], fields[k].lsb)
  {
    if |fields| > 1 {
      ShiftsAt(fields[1..], if k > 0 then k - 1 else 0);
    } else {
      assert Shifts(fields[1..]) == [];
    }
  }

  /** The word built from a value for every field. */
  function Pack(fields: seq<Field>, values: seq<nat>): nat
    requires |values| == |fields|
  {
    if fields == [] then 0 else Or(Raw(fields[0], values[0]), Pack(fields[1..], values[1..]))
  }

  ghost predicate InRange(fields: seq<Field>, values: seq<nat>) {
    && |values| == |fields| && AllInRegister(fields)
    && forall k :: 0 <= k < |fields| ==> values[k] < Pow2(fields[k].msb - fields[k].lsb + 1)
  }

  lemma RawBits(f: Field, value: nat, i: nat)
    requires f.lsb <= f.msb && value < Pow2(f.msb - f.lsb + 1)
    ensures Bit(Raw(f, value), i) <==> f.lsb <= i <= f.msb && Bit(value, i - f.lsb)
  {
    BitShl(value, f.lsb, i);
    if i > f.msb {
      HighBits(value, f.msb - f.lsb + 1, i - f.lsb);
    }
  }

  lemma {:induction false} PackOutside(fields: seq<Field>, values: seq<nat>, i: nat)
    requires InRange(fields, values)
    requires forall k :: 0 <= k < |fields| ==> !(fields[k].lsb <= i <= fields[k].msb)
    ensures !Bit(Pack(fields, values), i)
    decreases |fields|
  {
    if fields == [] {
      BitZero(i);
    } else {
      PackOutside(fields[1..], values[1..], i);
      RawBits(fields[0], values[0], i);
      BitOr(Raw(fields[0], values[0]), Pack(fields[1..], values[1..]), i);
    }
  }

  lemma {:induction false} PackInside(fields: seq<Field>, values: seq<nat>, k: nat, i: nat)
    requires InRange(fields, values) && PairwiseDisjoint(fields) && k < |fields|
    requires fields[k].lsb <= i <= fields[k].msb
    ensures Bit(Pack(fields, values), i) == Bit(values[k], i - fields[k].lsb)
    decreases |fields|
  {
    hide Bit, Or, Raw, Shl;
    var f, v := fields[1..], values[1..];
    RawBits(fields[0], values[0], i);
    BitOr(Raw(fields[0], values[0]), Pack(f, v), i);
    if k == 0 {
      forall j | 0 <= j < |f|
        ensures !(f[j].lsb <= i <= f[j].msb)
      {
        assert Disjoint(fields[0], fields[j + 1]);
      }
      PackOutside(f, v, i);
    } else {
      assert Disjoint(fields[0], fields[k]);
      PackInside(f, v, k - 1, i);
    }
  }

  /** Packing a value into every field and reading each back recovers them all, in a word that fits the register. */
  lemma PackRoundTrip(fields: seq<Field>, values: seq<nat>, k: nat)
    requires InRange(fields, values) && PairwiseDisjoint(fields) && k < |fields|
    ensures Value(fields[k], Pack(fields, values)) == values[k]
    ensures Pack(fields, values) < Pow2(REGISTER_WIDTH)
  {
    hide Bit, Pack, Value, Shl;
    var f, word := fields[k], Pack(fields, values);
    forall i: nat
      ensures Bit(Value(f, word), i) == Bit(values[k], i)
    {
      ValueBits(f, word, i);
      if i <= f.msb - f.lsb {
        PackInside(fields, values, k, f.lsb + i);
      } else {
        HighBits(values[k], f.msb - f.lsb + 1, i);
      }
    }
    SameBits(Value(f, word), values[k]);
    forall i: nat | REGISTER_WIDTH <= i
      ensures !Bit(word, i)
    {
      PackOutside(fields, values, i);
    }
    LowBits(word, REGISTER_WIDTH);
  }
}
