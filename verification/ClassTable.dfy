// The Unicode class index: built by run-length compression, read by binary search.
module ClassTable {
  import opened Bytes
  import opened CaseConversion

  type Classes = bv16

  const CLASS_NONE: Classes := 0
  const CLASS_LOWER: Classes := 0x40
  const CLASS_UPPER: Classes := 0x400
  const CLASS_CASE: Classes := 0x1000
  const WEOF := -1

  /** From `code` on, up to the next row's code, characters have these classes. */
  datatype Row = Row(code: nat, category: Classes)

  predicate IndexTable(table: seq<Row>) {
    && |table| > 0 && table[0].code == 0
    && forall i, j :: 0 <= i < j < |table| ==> table[i].code < table[j].code
  }

  /** The last row whose code is at most `c`, by scanning from the end. */
  function LastAtMost(table: seq<Row>, c: nat): (i: nat)
    requires |table| > 0 && table[0].code <= c
    ensures i < |table| && table[i].code <= c
    ensures forall j :: i < j < |table| ==> c < table[j].code
  {
    var n := |table| - 1;
    if table[n].code <= c then n else LastAtMost(table[..n], c)
  }

  function CategoryAt(table: seq<Row>, c: nat): Classes
    requires |table| > 0 && table[0].code <= c
  {
    table[LastAtMost(table, c)].category
  }

  // ----- looking a character up -----

  /** The bits the conversion entry of a cased character adds. */
  function CaseBits(entry: Option<Entry>, c: nat): Classes {
    match entry
    case None => CLASS_NONE
    case Some(e) =>
      match e.mode
      case TO1 => if IsCapital(e, c) then CLASS_UPPER else if IsSmall(e, c) then CLASS_LOWER else CLASS_NONE
      case TOLO => CLASS_UPPER
      case TOUP => CLASS_LOWER
      case TOBOTH => CLASS_UPPER | CLASS_LOWER
  }

  /** A case is asked for and the character has one that the table leaves open. */
  predicate CaseWanted(category: Classes, mask: Classes) {
    mask & (CLASS_LOWER | CLASS_UPPER) != 0 && category & CLASS_CASE != 0
  }

  function Combine(category: Classes, bits: Classes, mask: Classes): Classes {
    if CaseWanted(category, mask) then (category | bits) & mask else category & mask
  }

  predicate Overlap(x: Classes, y: Classes) {
    x & y != 0
  }

  /** CLASS_case resolved to upper or lower, then cut to the classes asked for. */
  function Resolve(category: Classes, entry: Option<Entry>, c: nat, mask: Classes): Classes {
    Combine(category, CaseBits(entry, c), mask)
  }

  /** What a lookup means: the row of a linear scan, resolved. */
  function ClassOf(table: seq<Row>, conversions: seq<Entry>, ic: int, localeIsC: bool, mask: Classes): Classes
    requires IndexTable(table)
    requires ic == WEOF || ic >= 0
  {
    if ic == WEOF || Cut(ic, localeIsC) then CLASS_NONE
    else Resolve(CategoryAt(table, ic), EntryFor(conversions, ic, localeIsC), ic, mask)
  }

  /**
   * The search of `__ctype_table_lookup`. The indices are unsigned: `mid - 1` being a natural number
   * says that it never wraps.
   */
  method FindRow(table: seq<Row>, c: nat) returns (high: nat)
    requires IndexTable(table)
    ensures high == LastAtMost(table, c)
  {
    var low: nat := 0;
    high := |table| - 1;
    while low < high
      invariant low <= high < |table|
      invariant table[low].code <= c
      invariant forall j :: high < j < |table| ==> c < table[j].code
    {
      var mid := (low + high) / 2;
      if c < table[mid].code {
        high := mid - 1;
      } else if mid >= |table| || c >= table[mid + 1].code {
        low := mid + 1;
      } else {
        high := mid;
        break;
      }
    }
  }

  /** The bits the switch over the conversion entry sets. */
  method FindCaseBits(conversions: seq<Entry>, c: nat, localeIsC: bool) returns (bits: Classes)
    requires ValidTable(conversions)
    ensures bits == CaseBits(EntryFor(conversions, c, localeIsC), c)
  {
    hide EntryFor, ValidTable;
    var cce := CaseLookup(conversions, c, localeIsC);
    bits := CLASS_NONE;
    if cce.Some? {
      match cce.value.mode
      case TO1 =>
        if cce.value.delta == EVENCAP {
          bits := if c % 2 == 0 then CLASS_UPPER else CLASS_LOWER;
        } else if cce.value.delta == ODDCAP {
          bits := if c % 2 == 1 then CLASS_UPPER else CLASS_LOWER;
        }
      case TOLO => bits := CLASS_UPPER;
      case TOUP => bits := CLASS_LOWER;
      case TOBOTH => bits := CLASS_UPPER | CLASS_LOWER;
    }
  }

  /** The last part of `__ctype_table_lookup`: CLASS_case becomes lower, upper or both. */
  method AddCase(category: Classes, conversions: seq<Entry>, c: nat, localeIsC: bool, mask: Classes)
    returns (ret: Classes)
    requires ValidTable(conversions)
    ensures ret == Resolve(category, EntryFor(conversions, c, localeIsC), c, mask)
  {
    hide CaseBits, EntryFor, ValidTable, CaseWanted;
    if CaseWanted(category, mask) {
      var bits := FindCaseBits(conversions, c, localeIsC);
      return (category | bits) & mask;
    }
    return category & mask;
  }

  /** A conversion by a delta of zero is the one entry that claims a case and changes nothing. */
  predicate Idle(entry: Option<Entry>) {
    entry.Some? && entry.value.mode in {TOLO, TOUP} && entry.value.delta == 0
  }

  /**
   * The classes of a character, bit by bit: those of its row that are asked for; and of a cased
   * character, upper when `towlower_l` changes it and lower when `towupper_l` does.
   */
  predicate GivesClasses(row: Classes, conversions: seq<Entry>, c: nat, localeIsC: bool, mask: Classes, r: Classes) {
    GivesBits(row, mask, r, Idle(EntryFor(conversions, c, localeIsC)),
              ToLower(conversions, c, localeIsC) != c, ToUpper(conversions, c, localeIsC) != c)
  }

  predicate GivesBits(row: Classes, mask: Classes, r: Classes, idle: bool, lowers: bool, raises: bool) {
    && r & !mask == 0
    && r & !0x440 == row & mask & !0x440
    && (row & 0x1000 == 0 ==> r == row & mask)
    && (row & 0x1000 != 0 && !idle ==>
          && (mask & 0x400 != 0 ==> (r & 0x400 != 0 <==> row & 0x400 != 0 || lowers))
          && (mask & 0x40 != 0 ==> (r & 0x40 != 0 <==> row & 0x40 != 0 || raises)))
  }

  /** The entry of a character says upper exactly when lowering changes it, and lower when raising does. */
  lemma CaseOfEntry(conversions: seq<Entry>, c: nat, localeIsC: bool)
    requires ValidTable(conversions) && c < 0x8000_0000
    ensures var entry := EntryFor(conversions, c, localeIsC);
            !Idle(entry) ==>
              && (Overlap(CaseBits(entry, c), CLASS_UPPER) <==> ToLower(conversions, c, localeIsC) != c)
              && (Overlap(CaseBits(entry, c), CLASS_LOWER) <==> ToUpper(conversions, c, localeIsC) != c)
    ensures !Overlap(CaseBits(EntryFor(conversions, c, localeIsC), c), !(CLASS_LOWER | CLASS_UPPER))
  {
    var entry := EntryFor(conversions, c, localeIsC);
    if entry.Some? {
      FieldWidths(conversions, entry.value);
    }
    hide EntryFor, ValidTable;
  }

  lemma MaskedBits(row: Classes, bits: Classes, mask: Classes, idle: bool, lowers: bool, raises: bool)
    requires !Overlap(bits, !(CLASS_LOWER | CLASS_UPPER))
    requires !idle ==> (Overlap(bits, CLASS_UPPER) <==> lowers) && (Overlap(bits, CLASS_LOWER) <==> raises)
    ensures GivesBits(row, mask, Combine(row, bits, mask), idle, lowers, raises)
  {
  }

  lemma ResolvedClasses(row: Classes, conversions: seq<Entry>, c: nat, localeIsC: bool, mask: Classes)
    requires ValidTable(conversions) && c < 0x8000_0000
    ensures GivesClasses(row, conversions, c, localeIsC, mask,
                         Resolve(row, EntryFor(conversions, c, localeIsC), c, mask))
  {
    hide EntryFor, ValidTable, CaseBits, ToLower, ToUpper, Idle, GivesBits, Combine, Overlap;
    var entry := EntryFor(conversions, c, localeIsC);
    CaseOfEntry(conversions, c, localeIsC);
    MaskedBits(row, CaseBits(entry, c), mask, Idle(entry), ToLower(conversions, c, localeIsC) != c,
               ToUpper(conversions, c, localeIsC) != c);
  }

  /** `__ctype_table_lookup`. */
  method Lookup(table: seq<Row>, conversions: seq<Entry>, ic: int, localeIsC: bool, mask: Classes)
    returns (r: Classes)
    requires IndexTable(table) && ValidTable(conversions)
    requires ic == WEOF || 0 <= ic < 0x8000_0000
    ensures r == ClassOf(table, conversions, ic, localeIsC, mask)
    ensures ic == -1 || (ic >= 0x80 && localeIsC) ==> r == 0
    ensures ic >= 0 && !(ic >= 0x80 && localeIsC) ==>
              GivesClasses(CategoryAt(table, ic), conversions, ic, localeIsC, mask, r)
  {
    if ic >= 0 {
      ResolvedClasses(CategoryAt(table, ic), conversions, ic, localeIsC, mask);
    }
    hide Resolve, CategoryAt, EntryFor;
    if ic == WEOF {
      return CLASS_NONE;
    }
    if ic >= 0x80 && localeIsC {
      return CLASS_NONE;
    }
    var row := FindRow(table, ic);
    r := AddCase(table[row].category, conversions, ic, localeIsC, mask);
  }

  /**
   * A cased character is classed upper exactly when `towlower_l` changes it and lower exactly when
   * `towupper_l` does; this fails for idle entries and for no others.
   */
  lemma CaseMatchesConversion(conversions: seq<Entry>, c: nat, localeIsC: bool, category: Classes, mask: Classes)
    requires ValidTable(conversions) && c < 0x8000_0000
    requires category & CLASS_CASE != 0 && category & (CLASS_LOWER | CLASS_UPPER) == 0
    requires mask & CLASS_LOWER != 0 && mask & CLASS_UPPER != 0
    ensures var entry := EntryFor(conversions, c, localeIsC);
            var r := Resolve(category, entry, c, mask);
            !Idle(entry) <==>
              && (r & CLASS_UPPER != 0 <==> ToLower(conversions, c, localeIsC) != c)
              && (r & CLASS_LOWER != 0 <==> ToUpper(conversions, c, localeIsC) != c)
  {
    var entry := EntryFor(conversions, c, localeIsC);
    var bits := CaseBits(entry, c);
    ResolvedBits(category, bits, mask);
    if entry.Some? {
      assert exists i :: 0 <= i < |conversions| && conversions[i] == entry.value;
    }
  }

  /** Masks do not disturb the two case bits, and an unresolved category has neither. */
  lemma ResolvedBits(category: Classes, bits: Classes, mask: Classes)
    requires category & (CLASS_LOWER | CLASS_UPPER) == 0
    requires mask & CLASS_LOWER != 0 && mask & CLASS_UPPER != 0
    ensures mask & (CLASS_LOWER | CLASS_UPPER) != 0
    ensures ((category | bits) & mask) & CLASS_UPPER == bits & CLASS_UPPER
    ensures ((category | bits) & mask) & CLASS_LOWER == bits & CLASS_LOWER
  {
  }

  // ----- building the table -----

  const NARROW_END := 0x1_0000
  const WIDE_END := 0xE01F0

  /** The classes a character is put in, one by one: a title-case letter is counted as cased twice. */
  type Names = seq<Classes>

  /** What a row of these classes holds. */
  function Union(names: Names): Classes {
    if names == [] then CLASS_NONE else names[0] | Union(names[1..])
  }

  /** The class function as the table has to give it back. */
  function Unions(names: nat -> Names): nat -> Classes {
    (c: nat) => Union(names(c))
  }

  /** Every class is a bit of its own, so only a character without classes has the empty union. */
  ghost predicate NonzeroClasses(names: nat -> Names) {
    forall c: nat, x :: x in names(c) ==> x != CLASS_NONE
  }

  lemma UnionNone(names: Names)
    requires forall x :: x in names ==> x != CLASS_NONE
    ensures Union(names) == CLASS_NONE <==> names == []
  {
    if names != [] {
      assert names[0] in names;
      OrNone(names[0], Union(names[1..]));
    }
  }

  /** Some class of the character is among those asked for. */
  ghost predicate Meets(names: Names, m: Classes) {
    exists x :: x in names && Overlap(x, m)
  }

  /** A row holds every class of its characters, and no other. */
  lemma {:induction false} UnionMeets(names: Names, m: Classes)
    ensures Overlap(Union(names), m) <==> Meets(names, m)
  {
    hide Overlap;
    NoneMeets(m);
    if names != [] {
      UnionMeets(names[1..], m);
      OrMeets(names[0], Union(names[1..]), m);
      assert names[0] in names;
      assert forall x :: x in names <==> x == names[0] || x in names[1..];
    }
  }

  lemma NoneMeets(m: Classes)
    ensures !Overlap(CLASS_NONE, m) && !Meets([], m)
  {
  }

  lemma OrMeets(x: Classes, y: Classes, m: Classes)
    ensures Overlap(x | y, m) <==> Overlap(x, m) || Overlap(y, m)
  {
    OrAnd(x, y, m);
    OrZero(x & m, y & m);
  }

  lemma OrAnd(x: Classes, y: Classes, m: Classes)
    ensures (x | y) & m == (x & m) | (y & m)
  {
  }

  lemma OrZero(x: Classes, y: Classes)
    ensures x | y == 0 <==> x == 0 && y == 0
  {
  }

  /** These classes are met by what is asked for exactly when one of the classes named is. */
  ghost predicate Holds(classes: Classes, names: Names) {
    forall m: Classes :: Overlap(classes, m) <==> Meets(names, m)
  }

  lemma UnionHolds(names: Names)
    ensures Holds(Union(names), names)
  {
    hide Union, Meets, Overlap;
    forall m: Classes
      ensures Overlap(Union(names), m) <==> Meets(names, m)
    {
      UnionMeets(names, m);
    }
  }

  /** For every code below `end` the rows hold what the class function names. */
  ghost predicate RowsGive(table: seq<Row>, names: nat -> Names, end: nat) {
    IndexTable(table) && forall c: nat :: c < end ==> Holds(CategoryAt(table, c), names(c))
  }

  lemma TabulatedRows(table: seq<Row>, names: nat -> Names, end: nat)
    requires Tabulates(table, Unions(names), end)
    ensures RowsGive(table, names, end)
  {
    hide CategoryAt, Holds, Union;
    forall c: nat | c < end
      ensures Holds(CategoryAt(table, c), names(c))
    {
      UnionHolds(names(c));
      assert CategoryAt(table, c) == Unions(names)(c);
    }
  }

  lemma OrNone(x: Classes, y: Classes)
    requires x != CLASS_NONE
    ensures x | y != CLASS_NONE
  {
  }

  /** The table gives back the class function below `end`. */
  ghost predicate Tabulates(table: seq<Row>, classes: nat -> Classes, end: nat) {
    IndexTable(table) && forall c: nat :: c < end ==> CategoryAt(table, c) == classes(c)
  }

  /** Past the end, characters have no class. */
  ghost predicate EndsWithNone(table: seq<Row>) {
    IndexTable(table) && forall c: nat :: c >= WIDE_END ==> CategoryAt(table, c) == CLASS_NONE
  }

  /** As `Tabulates`, with room for another row at `end`. */
  ghost predicate Covers(table: seq<Row>, classes: nat -> Classes, end: nat) {
    Tabulates(table, classes, end) && table[|table| - 1].code < end
  }

  ghost predicate Constant(classes: nat -> Classes, from: nat, to: nat, v: Classes) {
    forall c: nat :: from <= c < to ==> classes(c) == v
  }

  /** A row appended with a larger code decides from its code on and changes nothing before. */
  lemma AppendedRow(table: seq<Row>, row: Row, c: nat)
    requires IndexTable(table)
    ensures CategoryAt(table + [row], c) == if row.code <= c then row.category else CategoryAt(table, c)
  {
    assert (table + [row])[..|table|] == table;
  }

  lemma Extend(table: seq<Row>, classes: nat -> Classes, from: nat, to: nat, v: Classes)
    requires Covers(table, classes, from) && from < to && Constant(classes, from, to, v)
    ensures Covers(table + [Row(from, v)], classes, to)
  {
    hide CategoryAt;
    var table' := table + [Row(from, v)];
    assert table[|table| - 1].code < from;
    forall i, j | 0 <= i < j < |table'|
      ensures table'[i].code < table'[j].code
    {
      if j == |table| {
        assert table[i].code <= table[|table| - 1].code;
      }
    }
    forall c: nat | c < to
      ensures CategoryAt(table', c) == classes(c)
    {
      AppendedRow(table, Row(from, v), c);
    }
  }

  /**
   * What the rows printed so far give back when the next run starts at `first`: everything below
   * `prevAbove`, and no character from there to `first` has a class. Without a class at code 0 the
   * rows never start at 0.
   */
  ghost predicate Ready(table: seq<Row>, prevAbove: nat, classes: nat -> Classes, first: nat) {
    && (classes(0) == CLASS_NONE ==> 1 <= prevAbove && (table != [] ==> table[0].code >= 1))
    && (classes(0) != CLASS_NONE && table == [] ==> first == 0 && prevAbove == 1)
    && (classes(0) != CLASS_NONE && table != [] ==>
          && Covers(table, classes, prevAbove) && table[|table| - 1].category != CLASS_NONE
          && prevAbove <= first && Constant(classes, prevAbove, first, CLASS_NONE))
  }

  /** A run without classes only widens the gap. */
  lemma GapWidened(table: seq<Row>, prevAbove: nat, classes: nat -> Classes, first: nat, above: nat)
    requires Ready(table, prevAbove, classes, first) && first < above
    requires Constant(classes, first, above, CLASS_NONE)
    ensures Ready(table, prevAbove, classes, above)
  {
    hide Covers;
    assert first == 0 ==> classes(0) == CLASS_NONE;
  }

  lemma FirstRow(classes: nat -> Classes, to: nat, v: Classes)
    requires 0 < to && Constant(classes, 0, to, v)
    ensures Covers([Row(0, v)], classes, to)
  {
  }

  /** The generator: the rows printed so far, and the global `prev_above`. */
  class Generator {
    var out: seq<Row>
    var prevAbove: nat

    constructor ()
      ensures out == [] && prevAbove == 1
    {
      out, prevAbove := [], 1;
    }

    /**
     * `dump_result`: after the run `code .. above` the rows give back everything below `above`, if
     * they gave back everything before the run.
     */
    method DumpResult(code: nat, above: nat, c: Names, ghost classes: nat -> Classes)
      requires code < above && Constant(classes, code, above, Union(c))
      requires c != [] ==> Union(c) != CLASS_NONE
      requires Ready(out, prevAbove, classes, code)
      modifies this
      ensures Ready(out, prevAbove, classes, above)
      ensures c == [] ==> out == old(out) && prevAbove == old(prevAbove)
      ensures c != [] ==>
                && prevAbove == above
                && out == old(out) + (if old(prevAbove) < code then [Row(old(prevAbove), CLASS_NONE)] else [])
                          + [Row(code, Union(c))]
    {
      hide Union, Ready, Constant;
      if c != [] {
        RunDumped(out, prevAbove, classes, code, above, Union(c));
        if prevAbove < code {
          out := out + [Row(prevAbove, CLASS_NONE)];
        } else {
          assert out == out + [];
        }
        out := out + [Row(code, Union(c))];
        prevAbove := above;
      } else {
        UnionNone(c);
        GapWidened(out, prevAbove, classes, code, above);
      }
    }

    /** The state between codes, after the codes below `n`: an open run `first .. n`, and the rows before it. */
    ghost predicate Between(names: nat -> Names, first: nat, n: nat)
      reads this
    {
      && first < n && Constant(Unions(names), first, n, Union(names(first)))
      && Ready(out, prevAbove, Unions(names), first)
    }

    /** The body of both scanning loops: when the classes change, dump the finished run and start another. */
    method Scan(names: nat -> Names, first: nat, prev: Option<Names>, code: nat)
      returns (first': nat, prev': Option<Names>)
      requires NonzeroClasses(names)
      requires code == 0 ==> prev == None && out == [] && prevAbove == 1
      requires code > 0 ==> Between(names, first, code) && prev == Some(names(first))
      modifies this
      ensures Between(names, first', code + 1) && prev' == Some(names(first'))
    {
      hide Union;
      first', prev' := first, prev;
      var c := names(code);
      if prev != Some(c) {
        if prev.Some? && prev.value != [] {
          UnionNone(prev.value);
          DumpResult(first, code, prev.value, Unions(names));
        } else if prev.Some? {
          UnionNone(prev.value);
          GapWidened(out, prevAbove, Unions(names), first, code);
        }
        first' := code;
        prev' := Some(c);
      }
    }

    /**
     * `dump_table`. The narrow table, for two-byte characters, stops after the first loop; the rows in
     * `out` are the table for wider ones.
     */
    method DumpTable(names: nat -> Names) returns (narrow: seq<Row>)
      requires NonzeroClasses(names) && out == []
      modifies this
      ensures Tabulates(narrow, Unions(names), 0x1_0000) <==> names(0) != [] && names(0xFFFF) == []
      ensures (Tabulates(out, Unions(names), 0xE01F0) && EndsWithNone(out)) <==>
              names(0) != [] && names(0xE01EF) != []
      ensures names(0) != [] && names(0xFFFF) == [] ==> RowsGive(narrow, names, 0x1_0000)
      ensures names(0) != [] && names(0xE01EF) != [] ==> RowsGive(out, names, 0xE01F0)
    {
      hide RowsGive, Union, Ready, Constant, Tabulates, EndsWithNone;
      prevAbove := 1;
      var prev: Option<Names> := None;
      var first: nat := 0;
      for code := 0 to NARROW_END
        invariant code == 0 ==> prev == None && out == [] && prevAbove == 1
        invariant code > 0 ==> Between(names, first, code) && prev == Some(names(first))
      {
        first, prev := Scan(names, first, prev, code);
      }
      narrow := out;
      if prevAbove < NARROW_END {
        narrow := narrow + [Row(prevAbove, CLASS_NONE)];
      }
      ghost var classes := Unions(names);
      UnionNone(names(0));
      UnionNone(names(NARROW_END - 1));
      NarrowExact(out, prevAbove, classes, first, narrow);
      if names(0) != [] && names(NARROW_END - 1) == [] {
        TabulatedRows(narrow, names, NARROW_END);
      }
      for code := NARROW_END to WIDE_END
        invariant Between(names, first, code) && prev == Some(names(first))
      {
        first, prev := Scan(names, first, prev, code);
      }
      UnionNone(names(WIDE_END - 1));
      UnionNone(prev.value);
      RunEnds(classes, first, WIDE_END);
      RowsBehind(out, prevAbove, classes, first);
      DumpResult(first, WIDE_END, prev.value, classes);
      WideExact(out, prevAbove, classes);
      out := out + [Row(WIDE_END, CLASS_NONE)];
      if names(0) != [] && names(WIDE_END - 1) != [] {
        TabulatedRows(out, names, WIDE_END);
      }
    }
  }

  lemma RunEnds(classes: nat -> Classes, first: nat, above: nat)
    requires first < above && Constant(classes, first, above, classes(first))
    ensures classes(above - 1) == classes(first)
  {
  }

  lemma RowsBehind(table: seq<Row>, prevAbove: nat, classes: nat -> Classes, first: nat)
    requires Ready(table, prevAbove, classes, first)
    ensures classes(0) != CLASS_NONE && classes(first) == CLASS_NONE ==> prevAbove <= first
  {
  }

  /** Dumping a run makes the rows right up to its end. */
  lemma RunDumped(table: seq<Row>, prevAbove: nat, classes: nat -> Classes, first: nat, above: nat, v: Classes)
    requires first < above && Constant(classes, first, above, v) && v != CLASS_NONE
    requires Ready(table, prevAbove, classes, first)
    ensures Ready(table + (if prevAbove < first then [Row(prevAbove, CLASS_NONE)] else []) + [Row(first, v)],
                  above, classes, above)
  {
    hide Covers;
    if classes(0) != CLASS_NONE {
      if table == [] {
        FirstRow(classes, above, v);
        assert [] + [] + [Row(first, v)] == [Row(0, v)];
      } else if prevAbove < first {
        Extend(table, classes, prevAbove, first, CLASS_NONE);
        Extend(table + [Row(prevAbove, CLASS_NONE)], classes, first, above, v);
      } else {
        Extend(table, classes, first, above, v);
        assert table + [] == table;
      }
    }
  }

  lemma NarrowExact(table: seq<Row>, prevAbove: nat, classes: nat -> Classes, first: nat, narrow: seq<Row>)
    requires first < NARROW_END && Constant(classes, first, NARROW_END, classes(first))
    requires Ready(table, prevAbove, classes, first)
    requires narrow == if prevAbove < NARROW_END then table + [Row(prevAbove, CLASS_NONE)] else table
    ensures Tabulates(narrow, classes, NARROW_END) <==>
            classes(0) != CLASS_NONE && classes(NARROW_END - 1) == CLASS_NONE
  {
    var last := NARROW_END - 1;
    assert classes(last) == classes(first);
    if classes(0) != CLASS_NONE && table != [] {
      if classes(last) == CLASS_NONE {
        Extend(table, classes, prevAbove, NARROW_END, CLASS_NONE);
      } else {
        AppendedRow(table, Row(prevAbove, CLASS_NONE), last);
        assert CategoryAt(narrow, last) != classes(last);
      }
    } else {
      assert narrow == [] || narrow[0].code >= 1;
    }
  }

  lemma WideExact(table: seq<Row>, prevAbove: nat, classes: nat -> Classes)
    requires Ready(table, prevAbove, classes, WIDE_END)
    requires classes(0) != CLASS_NONE ==> (prevAbove == WIDE_END <==> classes(WIDE_END - 1) != CLASS_NONE)
    ensures var wide := table + [Row(WIDE_END, CLASS_NONE)];
            Tabulates(wide, classes, WIDE_END) && EndsWithNone(wide) <==>
            classes(0) != CLASS_NONE && classes(WIDE_END - 1) != CLASS_NONE
  {
    hide CategoryAt;
    var last := WIDE_END - 1;
    var wide := table + [Row(WIDE_END, CLASS_NONE)];
    if classes(0) == CLASS_NONE {
      assert wide[0].code >= 1;
    } else if classes(last) == CLASS_NONE {
      AppendedRow(table, Row(WIDE_END, CLASS_NONE), last);
      LastRow(table, last);
    } else {
      ClosingRow(table, classes);
    }
  }

  lemma LastRow(table: seq<Row>, c: nat)
    requires IndexTable(table) && table[|table| - 1].code <= c
    ensures CategoryAt(table, c) == table[|table| - 1].category
  {
  }

  lemma ClosingRow(table: seq<Row>, classes: nat -> Classes)
    requires Covers(table, classes, WIDE_END)
    ensures var wide := table + [Row(WIDE_END, CLASS_NONE)];
            Tabulates(wide, classes, WIDE_END) && EndsWithNone(wide)
  {
    hide CategoryAt;
    var wide := table + [Row(WIDE_END, CLASS_NONE)];
    assert forall i :: 0 <= i < |table| ==> table[i].code <= table[|table| - 1].code;
    forall c: nat
      ensures CategoryAt(wide, c) == if c < WIDE_END then classes(c) else CLASS_NONE
    {
      AppendedRow(table, Row(WIDE_END, CLASS_NONE), c);
    }
  }

  /** Generated and then searched, the table classifies as the class function does, case resolved. */
  method ClassifyByTable(names: nat -> Names, conversions: seq<Entry>, c: nat, localeIsC: bool, mask: Classes)
    returns (r: Classes)
    requires NonzeroClasses(names) && ValidTable(conversions) && c < 0x8000_0000
    requires names(0) != [] && names(WIDE_END - 1) != []
    ensures r == if Cut(c, localeIsC) then CLASS_NONE
                 else Resolve(if c < WIDE_END then Union(names(c)) else CLASS_NONE,
                              EntryFor(conversions, c, localeIsC), c, mask)
    ensures mask & (CLASS_LOWER | CLASS_UPPER) == 0 && !Cut(c, localeIsC) ==>
              HoldsAsked(r, mask, if c < WIDE_END then names(c) else [])
  {
    var g := new Generator();
    var narrow := g.DumpTable(names);
    r := Lookup(g.out, conversions, c, localeIsC, mask);
    var row := CategoryAt(g.out, c);
    hide CategoryAt, Resolve, EntryFor, Union, Meets, Holds, HoldsAsked, GivesClasses, GivesBits, Tabulates, Idle;
    if mask & (CLASS_LOWER | CLASS_UPPER) == 0 && !Cut(c, localeIsC) {
      if c >= WIDE_END {
        NothingHeld();
      }
      assert Holds(row, if c < WIDE_END then names(c) else []);
      AskedFor(row, r, mask, conversions, c, localeIsC, if c < WIDE_END then names(c) else []);
    }
  }

  /** As `Holds`, for those of the classes asked for. */
  ghost predicate HoldsAsked(classes: Classes, mask: Classes, names: Names) {
    && !Overlap(classes, !mask)
    && forall m: Classes :: !Overlap(m, !mask) ==> (Overlap(classes, m) <==> Meets(names, m))
  }

  lemma NothingHeld()
    ensures Holds(CLASS_NONE, [])
  {
    forall m: Classes
      ensures !Overlap(CLASS_NONE, m) && !Meets([], m)
    {
      NoneMeets(m);
    }
  }

  lemma SameAsked(row: Classes, r: Classes, mask: Classes, m: Classes)
    requires mask & (CLASS_LOWER | CLASS_UPPER) == 0 && r & !mask == 0 && m & !mask == 0
    requires r & !0x440 == row & mask & !0x440
    ensures r & m == row & m
  {
  }

  /** Away from the two cases, what is asked for is what the row has of it. */
  lemma AskedFor(row: Classes, r: Classes, mask: Classes, conversions: seq<Entry>, c: nat, localeIsC: bool,
                 names: Names)
    requires mask & (CLASS_LOWER | CLASS_UPPER) == 0 && Holds(row, names)
    requires GivesClasses(row, conversions, c, localeIsC, mask, r)
    ensures HoldsAsked(r, mask, names)
  {
    hide EntryFor, ToLower, ToUpper, Idle, Meets;
    forall m: Classes | !Overlap(m, !mask)
      ensures Overlap(r, m) <==> Meets(names, m)
    {
      SameAsked(row, r, mask, m);
      assert Overlap(row, m) <==> Meets(names, m);
    }
  }
}
