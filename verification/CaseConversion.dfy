// Case conversion by a table of disjoint intervals, and the three functions that read its entries.
module CaseConversion {
  import opened Bytes

  datatype Mode = TO1 | TOLO | TOUP | TOBOTH

  const EVENCAP := 0
  const ODDCAP := 1

  /** The characters `first .. first + diff` and how they convert. */
  datatype Entry = Entry(first: nat, diff: nat, mode: Mode, delta: int) {
    function Last(): nat {
      first + diff
    }

    predicate Contains(c: nat) {
      first <= c <= Last()
    }
  }

  /** The field widths of the entry struct, and the sorted disjoint intervals the search relies on. */
  predicate ValidTable(table: seq<Entry>) {
    && |table| > 0
    && (forall i :: 0 <= i < |table| ==>
          table[i].first < 0x20_0000 && table[i].diff < 0x100 && -0x1_0000 <= table[i].delta < 0x1_0000)
    && (forall i, j :: 0 <= i < j < |table| ==> table[i].Last() < table[j].first)
  }

  /** In the C locale nothing outside ASCII is converted or classified. */
  predicate Cut(c: nat, localeIsC: bool) {
    c >= 0x80 && localeIsC
  }

  /** A linear search for the interval that contains `c`. */
  function IndexFrom(table: seq<Entry>, c: nat, i: nat): (r: Option<nat>)
    requires i <= |table|
    ensures r.Some? ==> i <= r.value < |table| && table[r.value].Contains(c)
    ensures r.None? ==> forall j :: i <= j < |table| ==> !table[j].Contains(c)
    decreases |table| - i
  {
    if i == |table| then None else if table[i].Contains(c) then Some(i) else IndexFrom(table, c, i + 1)
  }

  /** The entry that applies to `c`, if any. */
  function EntryFor(table: seq<Entry>, c: nat, localeIsC: bool): (r: Option<Entry>)
    ensures r.Some? ==> r.value in table && r.value.Contains(c) && !Cut(c, localeIsC)
  {
    if Cut(c, localeIsC) then None
    else match IndexFrom(table, c, 0)
      case None => None
      case Some(i) => Some(table[i])
  }

  lemma OneInterval(table: seq<Entry>, i: nat, j: nat, c: nat)
    requires ValidTable(table) && i < |table| && j < |table|
    requires table[i].Contains(c) && table[j].Contains(c)
    ensures i == j
  {
  }

  /** An entry applies exactly when its interval contains the character and the locale lets it through. */
  lemma EntryForExact(table: seq<Entry>, c: nat, localeIsC: bool, e: Entry)
    requires ValidTable(table)
    ensures EntryFor(table, c, localeIsC) == Some(e) <==>
            e in table && e.first <= c <= e.first + e.diff && !(c >= 0x80 && localeIsC)
  {
    if e in table && e.Contains(c) && !Cut(c, localeIsC) {
      var i :| 0 <= i < |table| && table[i] == e;
      OneInterval(table, IndexFrom(table, c, 0).value, i, c);
    }
  }

  lemma FieldWidths(table: seq<Entry>, e: Entry)
    requires ValidTable(table) && e in table
    ensures e.first < 0x20_0000 && e.diff < 0x100 && -0x1_0000 <= e.delta < 0x1_0000
  {
  }

  /** `__caseconv_lookup`. `max` is unsigned: that `mid - 1` is a natural number says it never wraps. */
  method CaseLookup(table: seq<Entry>, ucs: nat, localeIsC: bool) returns (r: Option<Entry>)
    requires ValidTable(table)
    ensures r == EntryFor(table, ucs, localeIsC)
  {
    var min: nat := 0;
    var max: nat := |table| - 1;
    if ucs >= 0x80 && localeIsC {
      return None;
    }
    if ucs < table[0].first || ucs > table[max].Last() {
      assert forall i :: 0 <= i < |table| ==> table[0].first <= table[i].first && table[i].Last() <= table[max].Last();
      return None;
    }
    while max >= min
      invariant min <= max + 1 && max < |table|
      invariant table[0].first <= ucs
      invariant forall i :: 0 <= i < min ==> table[i].Last() < ucs
      invariant forall i :: max < i < |table| ==> ucs < table[i].first
      decreases max + 1 - min
    {
      var mid := (min + max) / 2;
      if ucs > table[mid].Last() {
        assert forall i :: 0 <= i < mid ==> table[i].Last() < table[mid].first;
        min := mid + 1;
      } else if ucs < table[mid].first {
        assert forall i :: mid < i < |table| ==> table[mid].Last() < table[i].first;
        max := mid - 1;
      } else {
        EntryForExact(table, ucs, localeIsC, table[mid]);
        return Some(table[mid]);
      }
    }
    return None;
  }

  /** The value of an expression of type `wint_t`, which is 32 bits wide and unsigned. */
  function Wrap(c: int): nat {
    c % 0x1_0000_0000
  }

  predicate IsCapital(e: Entry, c: nat)
    requires e.mode == TO1
  {
    (e.delta == EVENCAP && c % 2 == 0) || (e.delta == ODDCAP && c % 2 == 1)
  }

  predicate IsSmall(e: Entry, c: nat)
    requires e.mode == TO1
  {
    (e.delta == EVENCAP && c % 2 == 1) || (e.delta == ODDCAP && c % 2 == 0)
  }

  /** What an entry makes of a character it contains. */
  function LowerBy(e: Entry, c: nat): nat {
    match e.mode
    case TOLO => Wrap(c + e.delta)
    case TOBOTH => Wrap(c + 1)
    case TO1 => if IsCapital(e, c) then Wrap(c + 1) else c
    case TOUP => c
  }

  function UpperBy(e: Entry, c: nat): nat {
    match e.mode
    case TOUP => Wrap(c + e.delta)
    case TOBOTH => Wrap(c - 1)
    case TO1 => if IsSmall(e, c) then Wrap(c - 1) else c
    case TOLO => c
  }

  function ToLower(table: seq<Entry>, c: nat, localeIsC: bool): nat {
    match EntryFor(table, c, localeIsC)
    case None => c
    case Some(e) => LowerBy(e, c)
  }

  function ToUpper(table: seq<Entry>, c: nat, localeIsC: bool): nat {
    match EntryFor(table, c, localeIsC)
    case None => c
    case Some(e) => UpperBy(e, c)
  }

  lemma ConvertsBy(table: seq<Entry>, e: Entry, c: nat, localeIsC: bool)
    requires ValidTable(table) && e in table && e.Contains(c) && !Cut(c, localeIsC)
    ensures ToLower(table, c, localeIsC) == LowerBy(e, c) && ToUpper(table, c, localeIsC) == UpperBy(e, c)
  {
    EntryForExact(table, c, localeIsC, e);
  }

  lemma WrapValue(c: int)
    ensures 0 <= c < 0x1_0000_0000 ==> Wrap(c) == c
    ensures -0x1_0000_0000 <= c < 0 ==> Wrap(c) == 0x1_0000_0000 + c
  {
  }

  /**
   * What the four modes and the two parities mean, as the entry struct documents it. A delta that
   * leads below 0 wraps around.
   */
  lemma DocumentedMeaning(table: seq<Entry>, e: Entry, c: nat, localeIsC: bool)
    requires ValidTable(table) && e in table && e.first <= c <= e.first + e.diff && !(c >= 0x80 && localeIsC)
    ensures var lower, upper := ToLower(table, c, localeIsC), ToUpper(table, c, localeIsC);
            match e.mode
            case TOLO => upper == c && lower == (if c + e.delta >= 0 then c + e.delta else c + e.delta + 0x1_0000_0000)
            case TOUP => lower == c && upper == (if c + e.delta >= 0 then c + e.delta else c + e.delta + 0x1_0000_0000)
            case TOBOTH => lower == c + 1 && upper == (if c > 0 then c - 1 else 0xFFFF_FFFF)
            case TO1 =>
              && (e.delta == 0 && c % 2 == 0 ==> lower == c + 1 && upper == c)
              && (e.delta == 0 && c % 2 == 1 ==> lower == c && upper == c - 1)
              && (e.delta == 1 && c % 2 == 1 ==> lower == c + 1 && upper == c)
              && (e.delta == 1 && c % 2 == 0 ==> lower == c && upper == (if c > 0 then c - 1 else 0xFFFF_FFFF))
              && (e.delta != 0 && e.delta != 1 ==> lower == c && upper == c)
  {
    FieldWidths(table, e);
    ConvertsBy(table, e, c, localeIsC);
    WrapValue(c + e.delta);
    WrapValue(c + 1);
    WrapValue(c - 1);
    hide ToLower, ToUpper, ValidTable, Wrap;
  }

  /** An alternating range that starts with a capital and ends with the small letter of the last pair. */
  predicate WholePairs(e: Entry) {
    e.mode == TO1 && IsCapital(e, e.first) && IsSmall(e, e.Last())
  }

  /** Both members of a pair are converted, each into the other. */
  lemma PairConverts(table: seq<Entry>, e: Entry, c: nat, localeIsC: bool)
    requires ValidTable(table) && e in table && e.mode == TO1
    requires IsCapital(e, c) && e.Contains(c) && e.Contains(c + 1) && !Cut(c + 1, localeIsC)
    ensures ToLower(table, c, localeIsC) == c + 1 && ToUpper(table, c + 1, localeIsC) == c
    ensures ToUpper(table, c, localeIsC) == c && ToLower(table, c + 1, localeIsC) == c + 1
  {
    FieldWidths(table, e);
    PairBy(e, c);
    hide ToLower, ToUpper, ValidTable, LowerBy, UpperBy, IsCapital;
    ConvertsBy(table, e, c, localeIsC);
    ConvertsBy(table, e, c + 1, localeIsC);
  }

  lemma PairBy(e: Entry, c: nat)
    requires e.mode == TO1 && IsCapital(e, c) && c < 0x8000_0000
    ensures LowerBy(e, c) == c + 1 && UpperBy(e, c + 1) == c
    ensures UpperBy(e, c) == c && LowerBy(e, c + 1) == c + 1
  {
  }

  lemma PairInside(e: Entry, c: nat)
    requires WholePairs(e) && e.Contains(c)
    ensures IsCapital(e, c) ==> e.Contains(c + 1)
    ensures !IsCapital(e, c) ==> c > 0 && e.Contains(c - 1) && IsCapital(e, c - 1)
  {
  }

  /** On whole pairs the two conversions undo each other, unless the locale's cut splits the range. */
  lemma PairsInvert(table: seq<Entry>, e: Entry, c: nat, localeIsC: bool)
    requires ValidTable(table) && e in table && WholePairs(e) && e.Contains(c)
    requires localeIsC ==> e.Last() < 0x80 || e.first >= 0x80
    ensures IsCapital(e, c) ==> ToUpper(table, ToLower(table, c, localeIsC), localeIsC) == c
    ensures IsSmall(e, c) ==> ToLower(table, ToUpper(table, c, localeIsC), localeIsC) == c
    ensures e.Contains(ToLower(table, c, localeIsC)) && e.Contains(ToUpper(table, c, localeIsC))
  {
    PairInside(e, c);
    var cap: nat := if IsCapital(e, c) then c else c - 1;
    if !Cut(cap + 1, localeIsC) {
      hide ToUpper, ToLower, ValidTable, WholePairs, IsCapital, IsSmall;
      PairConverts(table, e, cap, localeIsC);
    }
  }

  /** Ranges that shift by opposite deltas into each other are inverse, character by character. */
  lemma ShiftsInvert(table: seq<Entry>, capitals: Entry, smalls: Entry, c: nat, localeIsC: bool)
    requires ValidTable(table) && capitals in table && smalls in table
    requires capitals.mode == TOLO && smalls.mode == TOUP && smalls.delta == -capitals.delta
    requires smalls.first == capitals.first + capitals.delta && smalls.diff == capitals.diff
    requires capitals.Contains(c) && !Cut(c, localeIsC) && !Cut(smalls.Last(), localeIsC)
    ensures var small := ToLower(table, c, localeIsC);
            && smalls.Contains(small) && small - smalls.first == c - capitals.first
            && ToUpper(table, small, localeIsC) == c
  {
    FieldWidths(table, capitals);
    FieldWidths(table, smalls);
    ShiftBy(capitals, smalls, c, localeIsC);
    hide ToLower, ToUpper, ValidTable, LowerBy, UpperBy, Cut, Entry.Contains, Entry.Last;
    ConvertsBy(table, capitals, c, localeIsC);
    ConvertsBy(table, smalls, LowerBy(capitals, c), localeIsC);
  }

  lemma ShiftBy(capitals: Entry, smalls: Entry, c: nat, localeIsC: bool)
    requires capitals.mode == TOLO && smalls.mode == TOUP && smalls.delta == -capitals.delta
    requires smalls.first == capitals.first + capitals.delta && smalls.diff == capitals.diff
    requires capitals.first < 0x4000_0000 && capitals.diff < 0x100 && capitals.delta < 0x1_0000
    requires capitals.Contains(c) && !Cut(smalls.Last(), localeIsC)
    ensures var small := LowerBy(capitals, c);
            && smalls.Contains(small) && small - smalls.first == c - capitals.first
            && UpperBy(smalls, small) == c && !Cut(small, localeIsC)
  {
  }

  /** A title-case character between its capital and its small letter: all three have the same upper and lower case. */
  lemma TitleCase(table: seq<Entry>, capital: Entry, title: Entry, small: Entry, c: nat, x: nat)
    requires ValidTable(table) && capital in table && title in table && small in table && c > 0
    requires capital.mode == TOLO && capital.delta == 2 && capital.Contains(c - 1)
    requires title.mode == TOBOTH && title.Contains(c)
    requires small.mode == TOUP && small.delta == -2 && small.Contains(c + 1)
    requires c - 1 <= x <= c + 1
    ensures ToUpper(table, x, false) == c - 1 && ToLower(table, x, false) == c + 1
  {
    var e := if x < c then capital else if x == c then title else small;
    FieldWidths(table, small);
    TitleBy(capital, title, small, c);
    hide ToLower, ToUpper, ValidTable, LowerBy, UpperBy;
    ConvertsBy(table, e, x, false);
  }

  lemma TitleBy(capital: Entry, title: Entry, small: Entry, c: nat)
    requires 0 < c < 0x8000_0000
    requires capital.mode == TOLO && capital.delta == 2 && title.mode == TOBOTH
    requires small.mode == TOUP && small.delta == -2
    ensures UpperBy(capital, c - 1) == c - 1 && LowerBy(capital, c - 1) == c + 1
    ensures UpperBy(title, c) == c - 1 && LowerBy(title, c) == c + 1
    ensures UpperBy(small, c + 1) == c - 1 && LowerBy(small, c + 1) == c + 1
  {
  }

  /** For a range on its own, whole pairs are exactly what makes the two conversions inverse. */
  lemma PairsInvertExactly(e: Entry)
    requires ValidTable([e]) && e.mode == TO1 && e.delta in {EVENCAP, ODDCAP}
    ensures WholePairs(e) <==>
            forall c: nat :: e.Contains(c) ==>
              && (IsCapital(e, c) ==> ToUpper([e], ToLower([e], c, false), false) == c)
              && (IsSmall(e, c) ==> ToLower([e], ToUpper([e], c, false), false) == c)
  {
    var t := [e];
    assert t[0] == e;
    if WholePairs(e) {
      hide ToUpper, ToLower, ValidTable;
      forall c: nat | e.Contains(c)
        ensures IsCapital(e, c) ==> ToUpper(t, ToLower(t, c, false), false) == c
        ensures IsSmall(e, c) ==> ToLower(t, ToUpper(t, c, false), false) == c
      {
        PairsInvert(t, e, c, false);
      }
    } else {
      FieldWidths(t, e);
      if IsSmall(e, e.first) {
        BrokenStart(e);
        assert e.Contains(e.first);
      } else {
        BrokenEnd(e);
        assert e.Contains(e.Last());
      }
    }
  }

  lemma BrokenStart(e: Entry)
    requires ValidTable([e]) && e.mode == TO1 && IsSmall(e, e.first)
    ensures ToLower([e], ToUpper([e], e.first, false), false) != e.first
  {
    FieldWidths([e], e);
    EntryForExact([e], e.first, false, e);
    var below := Wrap(e.first - 1);
    assert below != e.first && !e.Contains(below);
    assert EntryFor([e], below, false) == None;
  }

  lemma BrokenEnd(e: Entry)
    requires ValidTable([e]) && e.mode == TO1 && IsCapital(e, e.Last())
    ensures ToUpper([e], ToLower([e], e.Last(), false), false) != e.Last()
  {
    FieldWidths([e], e);
    EntryForExact([e], e.Last(), false, e);
    assert EntryFor([e], e.Last() + 1, false) == None;
  }
}
