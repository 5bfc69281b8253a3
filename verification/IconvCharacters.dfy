// What `iconv` makes of single characters, in terms of the conversion functions of the two charsets alone.
module IconvCharacters {
  import opened Bytes
  import opened IconvLibrary

  /** The character that was decoded; a NUL character has the code 0. */
  function CodeOf(found: Decoded): nat
    requires found.Char? || found.NulChar?
  {
    if found.Char? then found.wc else 0
  }

  /** The input behind it, of which a NUL character leaves nothing. */
  function RestOf(found: Decoded, input: seq<byte>): seq<byte>
    requires found.Char? || found.NulChar?
    requires found.Char? ==> found.length <= |input|
  {
    if found.Char? then input[found.length..] else []
  }

  /** Illegal input stays where it is, and an incomplete character is taken into the decoder's state. */
  lemma NotDecoded(cs: Charsets, mode: Mode, d: Desc, input: seq<byte>, room: nat)
    requires cs.Regular() && d.staged == [] && input != [] && room > 0
    ensures var found, call := cs.mbtowc(d.inState, input), OneCall(cs, mode, d, input, room);
            && (found.Invalid? ==> call == Call([], [], Desc([], found.next, d.outState), input, EILSEQ, 0))
            && (found.Incomplete? ==> call == Call([], [], Desc([], found.next, d.outState), [], Converted(0), 0))
  {
  }

  /** A character that the output charset has comes next, and both charsets go on behind it, in either mode. */
  lemma CharacterWritten(cs: Charsets, mode: Mode, d: Desc, input: seq<byte>, room: nat)
    requires cs.Regular() && d.staged == [] && input != [] && room > 0
    requires var found := cs.mbtowc(d.inState, input);
             (found.Char? || found.NulChar?) && cs.wctomb(d.outState, CodeOf(found)).bytes.Some?
    ensures var found := cs.mbtowc(d.inState, input);
            var e := cs.wctomb(d.outState, CodeOf(found));
            OneCall(cs, mode, d, input, room) ==
            Continued(cs, mode, found.next, e.next, RestOf(found, input), room, e.bytes.value, 0)
  {
  }

  /** Encoded bytes go out when there is room for any encoding, and are staged when there is not. */
  function Continued(cs: Charsets, mode: Mode, inState: MbState, outState: MbState, rest: seq<byte>, room: nat,
                     bytes: seq<byte>, replaced: nat): Call
    requires cs.Regular() && |bytes| <= 8
  {
    if room >= 8 then
      OneCall(cs, mode, Desc([], inState, outState), rest, room - |bytes|).After(bytes, [bytes], replaced)
    else OneCall(cs, mode, Desc(bytes, inState, outState), rest, room).After([], [bytes], replaced)
  }

  /** In default mode a character that the output charset lacks ends the call, consumed and not replaced. */
  lemma DefaultRefuses(cs: Charsets, d: Desc, input: seq<byte>, room: nat)
    requires cs.Regular() && d.staged == [] && input != [] && room > 0
    requires var found := cs.mbtowc(d.inState, input);
             (found.Char? || found.NulChar?) && cs.wctomb(d.outState, CodeOf(found)).bytes.None?
    ensures var found := cs.mbtowc(d.inState, input);
            var e := cs.wctomb(d.outState, CodeOf(found));
            OneCall(cs, Default, d, input, room) ==
            Call([], [], Desc([], found.next, e.next), RestOf(found, input), EILSEQ, 0)
  {
  }

  /** In translit mode a question mark is written in its place, and the call ends only when that fails too. */
  lemma TranslitReplaces(cs: Charsets, d: Desc, input: seq<byte>, room: nat)
    requires cs.Regular() && d.staged == [] && input != [] && room > 0
    requires var found := cs.mbtowc(d.inState, input);
             (found.Char? || found.NulChar?) && cs.wctomb(d.outState, CodeOf(found)).bytes.None?
    ensures var found := cs.mbtowc(d.inState, input);
            var mark := cs.wctomb(cs.wctomb(d.outState, CodeOf(found)).next, 63);
            OneCall(cs, Translit, d, input, room) ==
            if mark.bytes.Some? then
              Continued(cs, Translit, found.next, mark.next, RestOf(found, input), room, mark.bytes.value, 1)
            else Call([], [], Desc([], found.next, mark.next), RestOf(found, input), EILSEQ, 0)
  {
  }

  // ----- whole inputs -----

  /** The characters of the input, as far as it can be decoded; a NUL character is the last. */
  function Characters(cs: Charsets, s: MbState, input: seq<byte>): seq<nat>
    requires cs.Regular()
    decreases |input|
  {
    if input == [] then []
    else match cs.mbtowc(s, input)
      case Invalid(_) => []
      case Incomplete(_) => []
      case NulChar(_, _) => [0]
      case Char(n, wc, next) => [wc] + Characters(cs, next, input[n..])
  }

  /** Nothing illegal is met before the input ends or a NUL character ends it. */
  predicate Decodable(cs: Charsets, s: MbState, input: seq<byte>)
    requires cs.Regular()
    decreases |input|
  {
    input == [] ||
    match cs.mbtowc(s, input)
    case Invalid(_) => false
    case Incomplete(_) => true
    case NulChar(_, _) => true
    case Char(n, _, next) => Decodable(cs, next, input[n..])
  }

  /** The state of the encoder after these characters, in order and each written. */
  function StateAfter(cs: Charsets, o: MbState, wcs: seq<nat>): MbState
    decreases |wcs|
  {
    if wcs == [] then o else StateAfter(cs, cs.wctomb(o, wcs[0]).next, wcs[1..])
  }

  /** The output charset has every one of these characters. */
  predicate Encodable(cs: Charsets, o: MbState, wcs: seq<nat>)
    decreases |wcs|
  {
    wcs == [] || (cs.wctomb(o, wcs[0]).bytes.Some? && Encodable(cs, cs.wctomb(o, wcs[0]).next, wcs[1..]))
  }

  /** The encodings of these characters one after the other, up to the first that has none. */
  function Encoding(cs: Charsets, o: MbState, wcs: seq<nat>): seq<byte>
    decreases |wcs|
  {
    if wcs == [] || cs.wctomb(o, wcs[0]).bytes.None? then []
    else cs.wctomb(o, wcs[0]).bytes.value + Encoding(cs, cs.wctomb(o, wcs[0]).next, wcs[1..])
  }

  /**
   * Default mode is decoding and then encoding: it gets to the end exactly when every character can be
   * decoded and has an encoding, and its output is these encodings in order. It replaces nothing.
   */
  lemma {:induction false} DefaultConverts(cs: Charsets, s: MbState, o: MbState, input: seq<byte>)
    requires cs.Regular()
    ensures var whole, wcs := ConvertAll(cs, Default, s, o, input), Characters(cs, s, input);
            && (whole.legal <==> Decodable(cs, s, input) && Encodable(cs, o, wcs))
            && whole.bytes == Encoding(cs, o, wcs) && whole.inexact == 0
            && (whole.legal ==> whole.outState == StateAfter(cs, o, wcs))
    decreases |input|
  {
    if input != [] {
      match cs.mbtowc(s, input)
      case Invalid(_) =>
      case Incomplete(_) =>
      case NulChar(_, next) =>
        assert [0][1..] == [];
        assert ConvertAll(cs, Default, next, cs.wctomb(o, 0).next, []).bytes == [];
      case Char(n, wc, next) =>
        var wcs := Characters(cs, s, input);
        assert wcs[1..] == Characters(cs, next, input[n..]);
        if cs.wctomb(o, wc).bytes.Some? {
          DefaultConverts(cs, next, cs.wctomb(o, wc).next, input[n..]);
        }
    }
  }

  /** What translit mode writes for a character: its encoding, or a question mark in its place. */
  function Rendered(cs: Charsets, o: MbState, wc: nat): Encoded {
    var e := cs.wctomb(o, wc);
    if e.bytes.Some? then e else cs.wctomb(e.next, 63)
  }

  /** The bytes for these characters, up to the first that has none, and how many of them were replaced. */
  function Rendering(cs: Charsets, o: MbState, wcs: seq<nat>): (seq<byte>, nat)
    decreases |wcs|
  {
    if wcs == [] || Rendered(cs, o, wcs[0]).bytes.None? then ([], 0)
    else
      var (bytes, replaced) := Rendering(cs, Rendered(cs, o, wcs[0]).next, wcs[1..]);
      (Rendered(cs, o, wcs[0]).bytes.value + bytes,
       replaced + if cs.wctomb(o, wcs[0]).bytes.Some? then 0 else 1)
  }

  predicate Renderable(cs: Charsets, o: MbState, wcs: seq<nat>)
    decreases |wcs|
  {
    wcs == [] ||
    (Rendered(cs, o, wcs[0]).bytes.Some? && Renderable(cs, Rendered(cs, o, wcs[0]).next, wcs[1..]))
  }

  /** Translit mode is decoding and then writing each character or a question mark, and counting those. */
  lemma {:induction false} TranslitConverts(cs: Charsets, s: MbState, o: MbState, input: seq<byte>)
    requires cs.Regular()
    ensures var whole, wcs := ConvertAll(cs, Translit, s, o, input), Characters(cs, s, input);
            && (whole.legal <==> Decodable(cs, s, input) && Renderable(cs, o, wcs))
            && (whole.bytes, whole.inexact) == Rendering(cs, o, wcs)
    decreases |input|
  {
    if input != [] {
      match cs.mbtowc(s, input)
      case Invalid(_) =>
      case Incomplete(_) =>
      case NulChar(_, next) =>
        assert [0][1..] == [];
        assert ConvertAll(cs, Translit, next, Rendered(cs, o, 0).next, []) ==
               Whole([], true, 0, next, Rendered(cs, o, 0).next);
      case Char(n, wc, next) =>
        var wcs := Characters(cs, s, input);
        assert wcs[1..] == Characters(cs, next, input[n..]);
        if Rendered(cs, o, wc).bytes.Some? {
          TranslitConverts(cs, next, Rendered(cs, o, wc).next, input[n..]);
        }
    }
  }

  /** A charset of the bytes below 128, which are their own codes; the question mark is 63. */
  function Ascii(): Charsets {
    Charsets((s: MbState, input: seq<byte>) => if input == [] then Incomplete(s) else Char(1, input[0] as nat, s),
             (s: MbState, wc: nat) => Encoded(if wc < 128 then Some([wc as byte]) else None, s))
  }

  lemma AsciiFacts()
    ensures Ascii().Regular() && Ascii().mbtowc(0, [0xE9]) == Char(1, 0xE9, 0)
    ensures Ascii().wctomb(0, 0xE9) == Encoded(None, 0) && Ascii().wctomb(0, 63) == Encoded(Some([0x3F]), 0)
  {
  }

  /** The byte 0xE9, for which there is no character below 128, in both modes. */
  lemma NoSuchCharacter()
    ensures Ascii().Regular()
    ensures OneCall(Ascii(), Default, Desc([], 0, 0), [0xE9], 8) ==
            Call([], [], Desc([], 0, 0), [], EILSEQ, 0)
    ensures OneCall(Ascii(), Translit, Desc([], 0, 0), [0xE9], 8) ==
            Call([0x3F], [[0x3F]], Desc([], 0, 0), [], Converted(1), 1)
  {
    AsciiFacts();
    hide Ascii, OneCall, Charsets.Regular;
    var cs, d, input: seq<byte> := Ascii(), Desc([], 0, 0), [0xE9];
    assert input[1..] == [];
    DefaultRefuses(cs, d, input, 8);
    TranslitReplaces(cs, d, input, 8);
    StepIdle(cs, Translit, d, [], 7);
  }
}
