// What `iconv` makes of a text: where it loses some, and what becomes of a text handed over in two parts.
module IconvText {
  import opened Bytes
  import opened IconvLibrary
  import opened IconvRuns

  /** The conversion of everything in the input, also behind NUL characters. */
  function ConvertText(cs: Charsets, mode: Mode, inState: MbState, outState: MbState, input: seq<byte>): Whole
    requires cs.Regular()
    decreases |input|
  {
    if input == [] then Whole([], true, 0, inState, outState)
    else match cs.mbtowc(inState, input)
      case Invalid(next) => Whole([], false, 0, next, outState)
      case Incomplete(next) => Whole([], true, 0, next, outState)
      case NulChar(n, next) => TextOn(cs, mode, next, outState, 0, input[n..])
      case Char(n, wc, next) => TextOn(cs, mode, next, outState, wc, input[n..])
  }

  function TextOn(cs: Charsets, mode: Mode, inState: MbState, outState: MbState, wc: nat, rest: seq<byte>): Whole
    requires cs.Regular()
    decreases |rest| + 1, 0
  {
    var w := Write(cs, mode, outState, wc);
    if w.encoded.bytes.None? then Whole([], false, 0, inState, w.encoded.next)
    else ConvertText(cs, mode, inState, w.encoded.next, rest).After(w.encoded.bytes.value, w.inexact)
  }

  // ----- behind a NUL -----

  /** What is behind the first NUL character that is reached and written, and the decoder state there. */
  function BehindNul(cs: Charsets, mode: Mode, inState: MbState, outState: MbState, input: seq<byte>)
    : Option<(MbState, seq<byte>)>
    requires cs.Regular()
    decreases |input|
  {
    if input == [] then None
    else match cs.mbtowc(inState, input)
      case Invalid(_) => None
      case Incomplete(_) => None
      case NulChar(n, next) =>
        if Write(cs, mode, outState, 0).encoded.bytes.None? then None else Some((next, input[n..]))
      case Char(n, wc, next) =>
        var w := Write(cs, mode, outState, wc);
        if w.encoded.bytes.None? then None else BehindNul(cs, mode, next, w.encoded.next, input[n..])
  }

  /** No character begins there: the input ends, or what is left of it is no whole character. */
  predicate NothingBehindNul(cs: Charsets, mode: Mode, inState: MbState, outState: MbState, input: seq<byte>)
    requires cs.Regular()
  {
    match BehindNul(cs, mode, inState, outState, input)
    case None => true
    case Some((state, rest)) => rest == [] || cs.mbtowc(state, rest).Incomplete?
  }

  /** The input ends right there. */
  predicate NulEndsInput(cs: Charsets, mode: Mode, inState: MbState, outState: MbState, input: seq<byte>)
    requires cs.Regular()
  {
    match BehindNul(cs, mode, inState, outState, input)
    case None => true
    case Some((_, rest)) => rest == []
  }

  predicate SameOutput(a: Whole, b: Whole) {
    a.bytes == b.bytes && a.legal == b.legal && a.inexact == b.inexact
  }

  /** An encoding is never empty. */
  ghost predicate WritesBytes(cs: Charsets) {
    forall s, wc :: cs.wctomb(s, wc).bytes.Some? ==> cs.wctomb(s, wc).bytes.value != []
  }

  lemma SameAfter(a: Whole, b: Whole, bytes: seq<byte>, replaced: nat)
    ensures SameOutput(a.After(bytes, replaced), b.After(bytes, replaced)) <==> SameOutput(a, b)
  {
    assert (bytes + a.bytes)[|bytes|..] == a.bytes && (bytes + b.bytes)[|bytes|..] == b.bytes;
  }

  /** Converting yields nothing, and finds nothing wrong, exactly when no character begins. */
  lemma NothingConverted(cs: Charsets, mode: Mode, s: MbState, o: MbState, rest: seq<byte>)
    requires cs.Regular()
    ensures rest == [] || cs.mbtowc(s, rest).Incomplete? ==>
              SameOutput(ConvertText(cs, mode, s, o, rest), Whole([], true, 0, s, o))
    ensures WritesBytes(cs) && SameOutput(ConvertText(cs, mode, s, o, rest), Whole([], true, 0, s, o)) ==>
              rest == [] || cs.mbtowc(s, rest).Incomplete?
  {
    if rest != [] {
      match cs.mbtowc(s, rest)
      case Invalid(_) =>
      case Incomplete(_) =>
      case NulChar(n, next) => TextOnSomething(cs, mode, next, o, 0, rest[n..]);
      case Char(n, wc, next) => TextOnSomething(cs, mode, next, o, wc, rest[n..]);
    }
  }

  lemma TextOnSomething(cs: Charsets, mode: Mode, s: MbState, o: MbState, wc: nat, rest: seq<byte>)
    requires cs.Regular()
    ensures var w := TextOn(cs, mode, s, o, wc, rest);
            WritesBytes(cs) ==> !w.legal || w.bytes != []
  {
    hide ConvertText;
    assert WritesBytes(cs) ==> Write(cs, mode, o, wc).encoded.bytes != Some([]);
  }

  /**
   * The program converts the whole text when nothing is behind the first NUL character; and when every
   * encoding has some bytes, it does so in no other case.
   */
  lemma {:induction false} NulExactly(cs: Charsets, mode: Mode, s: MbState, o: MbState, input: seq<byte>)
    requires cs.Regular()
    ensures NothingBehindNul(cs, mode, s, o, input) ==>
              SameOutput(ConvertText(cs, mode, s, o, input), ConvertAll(cs, mode, s, o, input))
    ensures WritesBytes(cs) ==>
              (SameOutput(ConvertText(cs, mode, s, o, input), ConvertAll(cs, mode, s, o, input)) <==>
               NothingBehindNul(cs, mode, s, o, input))
    decreases |input|
  {
    if input != [] {
      match cs.mbtowc(s, input)
      case Invalid(_) =>
      case Incomplete(_) =>
      case NulChar(n, next) =>
        var w := Write(cs, mode, o, 0);
        if w.encoded.bytes.Some? {
          Unfolded(cs, mode, s, o, input);
          NothingConverted(cs, mode, next, w.encoded.next, input[n..]);
          assert ConvertAll(cs, mode, next, w.encoded.next, []) == Whole([], true, 0, next, w.encoded.next);
          SameAfter(ConvertText(cs, mode, next, w.encoded.next, input[n..]),
                    Whole([], true, 0, next, w.encoded.next), w.encoded.bytes.value, w.inexact);
        }
      case Char(n, wc, next) =>
        var w := Write(cs, mode, o, wc);
        if w.encoded.bytes.Some? {
          Unfolded(cs, mode, s, o, input);
          NulExactly(cs, mode, next, w.encoded.next, input[n..]);
          SameAfter(ConvertText(cs, mode, next, w.encoded.next, input[n..]),
                    ConvertAll(cs, mode, next, w.encoded.next, input[n..]), w.encoded.bytes.value, w.inexact);
        }
    }
  }

  /** Both conversions by one character. */
  lemma Unfolded(cs: Charsets, mode: Mode, s: MbState, o: MbState, input: seq<byte>)
    requires cs.Regular() && input != []
    requires cs.mbtowc(s, input).Char? || cs.mbtowc(s, input).NulChar?
    ensures var c := cs.mbtowc(s, input);
            var w := Write(cs, mode, o, if c.Char? then c.wc else 0);
            var rest := input[c.length..];
            && (w.encoded.bytes.Some? ==>
                  && ConvertText(cs, mode, s, o, input) ==
                     ConvertText(cs, mode, c.next, w.encoded.next, rest).After(w.encoded.bytes.value, w.inexact)
                  && ConvertAll(cs, mode, s, o, input) ==
                     ConvertAll(cs, mode, c.next, w.encoded.next, if c.Char? then rest else [])
                       .After(w.encoded.bytes.value, w.inexact)
                  && BehindNul(cs, mode, s, o, input) ==
                     if c.Char? then BehindNul(cs, mode, c.next, w.encoded.next, rest) else Some((c.next, rest)))
  {
    hide Write;
  }

  /** When the first NUL character ends the input, the shift states agree as well. */
  lemma {:induction false} NulLast(cs: Charsets, mode: Mode, s: MbState, o: MbState, input: seq<byte>)
    requires cs.Regular() && NulEndsInput(cs, mode, s, o, input)
    ensures ConvertText(cs, mode, s, o, input) == ConvertAll(cs, mode, s, o, input)
    decreases |input|
  {
    if input != [] {
      match cs.mbtowc(s, input)
      case Invalid(_) =>
      case Incomplete(_) =>
      case NulChar(n, next) =>
      case Char(n, wc, next) =>
        var w := Write(cs, mode, o, wc);
        if w.encoded.bytes.Some? {
          NulLast(cs, mode, next, w.encoded.next, input[n..]);
        }
    }
  }

  /** A finished run delivers the whole text, provided nothing is behind its first NUL character. */
  lemma RunDeliversText(cs: Charsets, mode: Mode, d: Desc, input: seq<byte>, rooms: seq<nat>)
    requires cs.Regular() && Finished(Calls(cs, mode, d, input, rooms))
    requires NothingBehindNul(cs, mode, d.inState, d.outState, input)
    ensures Calls(cs, mode, d, input, rooms).delivered ==
            d.staged + ConvertText(cs, mode, d.inState, d.outState, input).bytes
  {
    FinishedDelivers(cs, mode, d, input, rooms);
    NulExactly(cs, mode, d.inState, d.outState, input);
  }

  /** A charset of single bytes, which are their own character codes. */
  function OneByte(): Charsets {
    Charsets((s: MbState, input: seq<byte>) =>
               if input == [] then Incomplete(s)
               else if input[0] == NUL then NulChar(1, s) else Char(1, input[0] as nat, s),
             (s: MbState, wc: nat) => Encoded(if wc < 256 then Some([wc as byte]) else None, s))
  }

  /** Of the text `a`, NUL, `b` the last character is lost. */
  lemma NulDrops()
    ensures OneByte().Regular() && WritesBytes(OneByte())
    ensures ConvertAll(OneByte(), Default, 0, 0, [97, 0, 98]) == Whole([97, 0], true, 0, 0, 0)
    ensures ConvertText(OneByte(), Default, 0, 0, [97, 0, 98]) == Whole([97, 0, 98], true, 0, 0, 0)
    ensures !NothingBehindNul(OneByte(), Default, 0, 0, [97, 0, 98])
  {
    var cs, text: seq<byte> := OneByte(), [97, 0, 98];
    assert text[1..] == [0, 98] && [0 as byte, 98][1..] == [98] && [98 as byte][1..] == [];
    NoText(cs, Default, 0, 0);
    hide ConvertText, ConvertAll, BehindNul;
    Unfolded(cs, Default, 0, 0, [98]);
    Unfolded(cs, Default, 0, 0, [0, 98]);
    Unfolded(cs, Default, 0, 0, text);
  }

  lemma NoText(cs: Charsets, mode: Mode, s: MbState, o: MbState)
    requires cs.Regular()
    ensures ConvertText(cs, mode, s, o, []) == ConvertAll(cs, mode, s, o, []) == Whole([], true, 0, s, o)
  {
  }

  // ----- a text in two parts -----

  /** What is found behind `n` bytes that the decoder has already taken in. */
  function Behind(found: Decoded, n: nat): Decoded {
    match found
    case NulChar(length, next) => NulChar(n + length, next)
    case Char(length, wc, next) => Char(n + length, wc, next)
    case Invalid(_) => found
    case Incomplete(_) => found
  }

  /** More input does not change what was found, and resumes an incomplete character where it broke off. */
  ghost predicate ResumesAt(cs: Charsets, s: MbState, a: seq<byte>, b: seq<byte>) {
    a != [] && b != [] ==>
      var found := cs.mbtowc(s, a);
      cs.mbtowc(s, a + b) == if found.Incomplete? then Behind(cs.mbtowc(found.next, b), |a|) else found
  }

  ghost predicate Resumable(cs: Charsets) {
    forall s, a, b :: ResumesAt(cs, s, a, b)
  }

  /** A text converted in two parts, the second from the states the first one ends in. */
  function InTwo(cs: Charsets, mode: Mode, first: Whole, b: seq<byte>): Whole
    requires cs.Regular()
  {
    if first.legal then ConvertText(cs, mode, first.inState, first.outState, b).After(first.bytes, first.inexact)
    else first
  }

  lemma InTwoAfter(cs: Charsets, mode: Mode, first: Whole, b: seq<byte>, bytes: seq<byte>, replaced: nat)
    requires cs.Regular()
    ensures InTwo(cs, mode, first.After(bytes, replaced), b) == InTwo(cs, mode, first, b).After(bytes, replaced)
  {
    hide ConvertText;
    var second := ConvertText(cs, mode, first.inState, first.outState, b);
    assert bytes + first.bytes + second.bytes == bytes + (first.bytes + second.bytes);
  }

  /** For resumable decoders it does not matter where the text is divided, be it inside a character. */
  lemma {:induction false} TextInTwo(cs: Charsets, mode: Mode, s: MbState, o: MbState, a: seq<byte>, b: seq<byte>)
    requires cs.Regular() && Resumable(cs)
    ensures ConvertText(cs, mode, s, o, a + b) == InTwo(cs, mode, ConvertText(cs, mode, s, o, a), b)
    decreases |a|
  {
    if b == [] {
      assert a + b == a;
      NothingMore(cs, mode, ConvertText(cs, mode, s, o, a));
    } else if a == [] {
      assert a + b == b;
      NothingBefore(ConvertText(cs, mode, s, o, b));
    } else {
      assert ResumesAt(cs, s, a, b);
      match cs.mbtowc(s, a)
      case Invalid(_) =>
      case Incomplete(next) => TextResumes(cs, mode, s, o, a, b);
      case NulChar(n, next) => TextOnInTwo(cs, mode, next, o, 0, a, n, b);
      case Char(n, wc, next) => TextOnInTwo(cs, mode, next, o, wc, a, n, b);
    }
  }

  lemma NothingMore(cs: Charsets, mode: Mode, first: Whole)
    requires cs.Regular()
    ensures InTwo(cs, mode, first, []) == first
  {
    assert first.bytes + [] == first.bytes;
  }

  lemma NothingBefore(w: Whole)
    ensures w.After([], 0) == w
  {
    assert [] + w.bytes == w.bytes;
  }

  lemma TextResumes(cs: Charsets, mode: Mode, s: MbState, o: MbState, a: seq<byte>, b: seq<byte>)
    requires cs.Regular() && a != [] && b != [] && cs.mbtowc(s, a).Incomplete? && ResumesAt(cs, s, a, b)
    ensures ConvertText(cs, mode, s, o, a + b) == InTwo(cs, mode, ConvertText(cs, mode, s, o, a), b)
  {
    var found := cs.mbtowc(cs.mbtowc(s, a).next, b);
    if found.Char? || found.NulChar? {
      assert (a + b)[|a| + found.length..] == b[found.length..];
    }
    NothingBefore(ConvertText(cs, mode, cs.mbtowc(s, a).next, o, b));
    hide TextOn;
  }

  lemma {:induction false} TextOnInTwo(cs: Charsets, mode: Mode, s: MbState, o: MbState, wc: nat,
                                       a: seq<byte>, n: nat, b: seq<byte>)
    requires cs.Regular() && Resumable(cs) && 0 < n <= |a|
    ensures TextOn(cs, mode, s, o, wc, (a + b)[n..]) == InTwo(cs, mode, TextOn(cs, mode, s, o, wc, a[n..]), b)
    decreases |a| - n + 1, 0
  {
    assert (a + b)[n..] == a[n..] + b;
    var w := Write(cs, mode, o, wc);
    if w.encoded.bytes.Some? {
      hide ConvertText;
      TextInTwo(cs, mode, s, w.encoded.next, a[n..], b);
      InTwoAfter(cs, mode, ConvertText(cs, mode, s, w.encoded.next, a[n..]), b, w.encoded.bytes.value, w.inexact);
    }
  }

  /** Over a run, what is left converts to the end that the whole input converts to. */
  lemma {:induction false} RunEnds(cs: Charsets, mode: Mode, d: Desc, input: seq<byte>, rooms: seq<nat>)
    requires cs.Regular()
    ensures var r, whole := Calls(cs, mode, d, input, rooms), ConvertAll(cs, mode, d.inState, d.outState, input);
            if r.status == EILSEQ then !whole.legal
            else
              var later := ConvertAll(cs, mode, r.desc.inState, r.desc.outState, r.rest);
              later.legal == whole.legal && later.inState == whole.inState && later.outState == whole.outState
    decreases |rooms|
  {
    hide ConvertAll;
    if rooms != [] {
      EncodingsLead(cs, mode, d, input, rooms[0]);
      hide OneCall;
      var call := OneCall(cs, mode, d, input, rooms[0]);
      if call.status != EILSEQ {
        RunEnds(cs, mode, call.desc, call.rest, rooms[1..]);
      }
    }
  }

  /**
   * Two finished runs, over the two parts of a text, deliver the text as a whole, wherever it is
   * divided and whatever the rooms. The NUL characters must not hide anything in either part.
   */
  lemma TwoInputs(cs: Charsets, mode: Mode, d: Desc, a: seq<byte>, b: seq<byte>, rooms1: seq<nat>, rooms2: seq<nat>)
    requires cs.Regular() && Resumable(cs)
    requires ConvertText(cs, mode, d.inState, d.outState, a).legal && NulEndsInput(cs, mode, d.inState, d.outState, a)
    requires var r := Calls(cs, mode, d, a, rooms1);
             && Finished(r) && Finished(Calls(cs, mode, r.desc, b, rooms2))
             && NothingBehindNul(cs, mode, r.desc.inState, r.desc.outState, b)
    ensures var r := Calls(cs, mode, d, a, rooms1);
            r.delivered + Calls(cs, mode, r.desc, b, rooms2).delivered ==
            d.staged + ConvertText(cs, mode, d.inState, d.outState, a + b).bytes
  {
    hide Calls, ConvertText, NothingBehindNul, NulEndsInput, Resumable;
    var r := Calls(cs, mode, d, a, rooms1);
    NulLast(cs, mode, d.inState, d.outState, a);
    RunEnds(cs, mode, d, a, rooms1);
    FinishedDelivers(cs, mode, d, a, rooms1);
    RunDeliversText(cs, mode, r.desc, b, rooms2);
    TextInTwo(cs, mode, d.inState, d.outState, a, b);
    var first := ConvertText(cs, mode, d.inState, d.outState, a);
    var second := ConvertText(cs, mode, r.desc.inState, r.desc.outState, b);
    assert first.inState == r.desc.inState && first.outState == r.desc.outState;
    assert d.staged + first.bytes + ([] + second.bytes) == d.staged + (first.bytes + second.bytes);
  }

  /** And so they deliver what one finished run over the whole text does, if no NUL hides anything there. */
  lemma SplitDoesNotMatter(cs: Charsets, mode: Mode, d: Desc, a: seq<byte>, b: seq<byte>,
                           rooms1: seq<nat>, rooms2: seq<nat>, rooms: seq<nat>)
    requires cs.Regular() && Resumable(cs)
    requires ConvertText(cs, mode, d.inState, d.outState, a).legal && NulEndsInput(cs, mode, d.inState, d.outState, a)
    requires var r := Calls(cs, mode, d, a, rooms1);
             && Finished(r) && Finished(Calls(cs, mode, r.desc, b, rooms2))
             && NothingBehindNul(cs, mode, r.desc.inState, r.desc.outState, b)
    requires Finished(Calls(cs, mode, d, a + b, rooms)) && NothingBehindNul(cs, mode, d.inState, d.outState, a + b)
    ensures var r := Calls(cs, mode, d, a, rooms1);
            r.delivered + Calls(cs, mode, r.desc, b, rooms2).delivered == Calls(cs, mode, d, a + b, rooms).delivered
  {
    hide Calls, ConvertText, NothingBehindNul, NulEndsInput, Resumable;
    TwoInputs(cs, mode, d, a, b, rooms1, rooms2);
    RunDeliversText(cs, mode, d, a + b, rooms);
  }

  /** Decoders of single bytes are resumable: there is nothing to resume. */
  lemma OneByteResumes()
    ensures Resumable(OneByte())
  {
    var cs := OneByte();
    forall s, a, b
      ensures ResumesAt(cs, s, a, b)
    {
    }
  }
}
