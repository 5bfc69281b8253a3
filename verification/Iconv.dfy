// `iconv`: a converter that can be stopped by a full output buffer and resumed.
module IconvLibrary {
  import opened Bytes
  import opened Memory

  /** The longest encoding of one character. */
  const MB_LEN_MAX := 8

  /** What to do with a character the output charset lacks. */
  datatype Mode = Default | Translit

  const QUESTION: nat := 63

  /** The shift state of a charset, in any encoding as a number. */
  type MbState = nat

  /**
   * What reading one character from the input finds, and the decoder state after it. The length of a
   * NUL character is what it takes up in the input; the program is told 0 in its place.
   */
  datatype Decoded =
    | NulChar(length: nat, next: MbState)
    | Invalid(next: MbState)
    | Incomplete(next: MbState)
    | Char(length: nat, wc: nat, next: MbState)

  /** What writing one character yields: its bytes, or None when the charset lacks it. */
  datatype Encoded = Encoded(bytes: Option<seq<byte>>, next: MbState)

  /** The conversion functions of the input and the output charset. */
  datatype Charsets = Charsets(mbtowc: (MbState, seq<byte>) -> Decoded, wctomb: (MbState, nat) -> Encoded) {
    /** A character takes at least one byte and no more than there are; its encoding fits the buffer. */
    ghost predicate Regular() {
      && (forall s, input :: mbtowc(s, input).Char? || mbtowc(s, input).NulChar? ==>
            0 < mbtowc(s, input).length <= |input|)
      && (forall s, wc :: wctomb(s, wc).bytes.Some? ==> |wctomb(s, wc).bytes.value| <= MB_LEN_MAX)
    }
  }

  datatype Status = Converted(inexact: nat) | E2BIG | EILSEQ

  /** A descriptor as a value: bytes staged for output, and both shift states. */
  datatype Desc = Desc(staged: seq<byte>, inState: MbState, outState: MbState)

  /** One character written, a question mark standing in for it in translit mode. */
  datatype Written = Written(encoded: Encoded, inexact: nat)

  function Write(cs: Charsets, mode: Mode, s: MbState, wc: nat): (w: Written)
    requires cs.Regular()
    ensures w.encoded.bytes.Some? ==> |w.encoded.bytes.value| <= MB_LEN_MAX
  {
    var e := cs.wctomb(s, wc);
    if e.bytes.Some? || mode == Default then Written(e, 0) else Written(cs.wctomb(e.next, QUESTION), 1)
  }

  // ----- conversion without limits -----

  /**
   * What converting `input` in one go yields, whether it got to the end, how many characters were
   * replaced, and both shift states after it.
   */
  datatype Whole = Whole(bytes: seq<byte>, legal: bool, inexact: nat, inState: MbState, outState: MbState) {
    /** The same with these bytes and replacements before it. */
    function After(before: seq<byte>, replaced: nat): Whole {
      Whole(before + bytes, legal, replaced + inexact, inState, outState)
    }
  }

  /** As the program converts: whatever is behind a NUL character in the same input is dropped. */
  function ConvertAll(cs: Charsets, mode: Mode, inState: MbState, outState: MbState, input: seq<byte>): Whole
    requires cs.Regular()
    decreases |input|
  {
    if input == [] then Whole([], true, 0, inState, outState)
    else match cs.mbtowc(inState, input)
      case Invalid(next) => Whole([], false, 0, next, outState)
      case Incomplete(next) => Whole([], true, 0, next, outState)
      case NulChar(_, next) => ConvertOn(cs, mode, next, outState, 0, [])
      case Char(n, wc, next) => ConvertOn(cs, mode, next, outState, wc, input[n..])
  }

  function ConvertOn(cs: Charsets, mode: Mode, inState: MbState, outState: MbState, wc: nat, rest: seq<byte>): Whole
    requires cs.Regular()
    decreases |rest| + 1, 0
  {
    var w := Write(cs, mode, outState, wc);
    if w.encoded.bytes.None? then Whole([], false, 0, inState, w.encoded.next)
    else ConvertAll(cs, mode, inState, w.encoded.next, rest).After(w.encoded.bytes.value, w.inexact)
  }

  // ----- one call -----

  /**
   * What one call delivers, which encodings it produced, and what it leaves for the next; `replaced`
   * counts the characters replaced, whether or not the status reports them.
   */
  datatype Call = Call(delivered: seq<byte>, encodings: seq<seq<byte>>, desc: Desc, rest: seq<byte>,
                       status: Status, replaced: nat) {
    /** The same call with these bytes delivered, encodings produced and characters replaced before it. */
    function After(bytes: seq<byte>, encs: seq<seq<byte>>, inexact: nat): Call {
      Call(bytes + delivered, encs + encodings, desc, rest,
           if status.Converted? then Converted(inexact + status.inexact) else status, inexact + replaced)
    }

    /** This call and another one after it: its status is the one the caller saw last. */
    function Then(next: Call): Call {
      Call(delivered + next.delivered, encodings + next.encodings, next.desc, next.rest, next.status,
           replaced + next.replaced)
    }
  }

  /** A call that stops at once. */
  function Stopped(d: Desc, rest: seq<byte>, status: Status): Call {
    Call([], [], d, rest, status, 0)
  }

  /** The loop of `iconv`, on a descriptor, the input left and the room left for output. */
  function OneCall(cs: Charsets, mode: Mode, d: Desc, input: seq<byte>, room: nat): Call
    requires cs.Regular()
    decreases |input|, |d.staged| + 1
  {
    if room == 0 then Stopped(d, input, Converted(0))
    else if d.staged != [] then
      if |d.staged| > room then Stopped(d, input, E2BIG)
      else OneCall(cs, mode, d.(staged := []), input, room - |d.staged|).After(d.staged, [], 0)
    else if input == [] then Stopped(d, input, Converted(0))
    else
      match cs.mbtowc(d.inState, input)
      case Invalid(next) => Stopped(d.(inState := next), input, EILSEQ)
      case Incomplete(next) => Stopped(d.(inState := next), [], Converted(0))
      case NulChar(_, next) => OneMore(cs, mode, d.(inState := next), 0, [], room)
      case Char(n, wc, next) => OneMore(cs, mode, d.(inState := next), wc, input[n..], room)
  }

  /** The second half of the loop body: a character goes straight to the output, or is staged when it might not fit. */
  function OneMore(cs: Charsets, mode: Mode, d: Desc, wc: nat, rest: seq<byte>, room: nat): Call
    requires cs.Regular()
    decreases |rest| + 1, 0
  {
    var w := Write(cs, mode, d.outState, wc);
    var d' := d.(outState := w.encoded.next);
    match w.encoded.bytes
    case None => Stopped(d', rest, EILSEQ)
    case Some(bytes) =>
      if room >= MB_LEN_MAX then OneCall(cs, mode, d', rest, room - |bytes|).After(bytes, [bytes], w.inexact)
      else OneCall(cs, mode, d'.(staged := bytes), rest, room).After([], [bytes], w.inexact)
  }

  /** `struct __iconv_t`. */
  class Descriptor {
    const charsets: Charsets
    const mode: Mode
    const buf: array<byte>
    var inState: MbState
    var outState: MbState
    var bufLen: nat
    var bufOff: nat

    ghost predicate Valid()
      reads this
    {
      charsets.Regular() && buf.Length == MB_LEN_MAX && bufOff == 0 && bufLen <= MB_LEN_MAX
    }

    ghost function Value(): Desc
      requires Valid()
      reads this, buf
    {
      Desc(buf[bufOff..bufLen], inState, outState)
    }

    constructor (charsets: Charsets, mode: Mode)
      requires charsets.Regular()
      ensures Valid() && Value() == Desc([], 0, 0) && fresh(buf)
      ensures this.charsets == charsets && this.mode == mode
    {
      this.charsets, this.mode := charsets, mode;
      buf := new byte[MB_LEN_MAX];
      inState, outState, bufLen, bufOff := 0, 0, 0, 0;
    }

    /** The call to `out_wctomb`, with the fallback of translit mode; no bytes when it fails. */
    method WriteChar(wc: nat) returns (bytes: Option<seq<byte>>, inexact: nat)
      requires Valid()
      modifies this`outState
      ensures var w := Write(charsets, mode, old(outState), wc);
              bytes == w.encoded.bytes && inexact == w.inexact && outState == w.encoded.next
    {
      var e := charsets.wctomb(outState, wc);
      outState := e.next;
      inexact := 0;
      if e.bytes.None? && mode == Translit {
        e := charsets.wctomb(outState, QUESTION);
        outState := e.next;
        inexact := 1;
      }
      bytes := e.bytes;
    }

    /** The first branch of the loop: staged bytes go out together, or not at all. */
    method Drain(outbuf: array<byte>, outp: nat, outbytes: nat) returns (outp': nat, outbytes': nat)
      requires Valid() && outbuf != buf && outp + outbytes <= outbuf.Length
      requires 0 < bufLen <= outbytes
      modifies this, outbuf
      ensures Valid() && bufLen == 0 && Value() == old(Value()).(staged := [])
      ensures outp' + outbytes' == outp + outbytes && outp' == outp + old(bufLen)
      ensures outbuf[..outp] == old(outbuf[..outp]) && outbuf[outp..outp'] == old(Value()).staged
      ensures outbuf[outp + outbytes..] == old(outbuf[outp + outbytes..])
    {
      var tocopy := bufLen - bufOff;
      Memcpy(outbuf, outp, buf[bufOff..bufOff + tocopy]);
      outp', outbytes' := outp + tocopy, outbytes - tocopy;
      assert outbuf[outp + outbytes..] == outbuf[outp'..][outbytes'..];
      bufOff := bufOff + tocopy;
      if bufOff == bufLen {
        bufOff, bufLen := 0, 0;
      }
    }

    /** A character's bytes go to the output when any encoding would fit there, and to the buffer otherwise. */
    method Put(bytes: seq<byte>, outbuf: array<byte>, outp: nat, outbytes: nat) returns (outp': nat, outbytes': nat)
      requires Valid() && outbuf != buf && outp + outbytes <= outbuf.Length
      requires bufLen == 0 && |bytes| <= MB_LEN_MAX
      modifies this`bufLen, buf, outbuf
      ensures Valid() && outp <= outp' && outp' + outbytes' == outp + outbytes
      ensures outbytes >= MB_LEN_MAX ==> outbuf[..outp'] == old(outbuf[..outp]) + bytes && Value() == old(Value())
      ensures outbytes < MB_LEN_MAX ==>
                outp' == outp && outbuf[..outp] == old(outbuf[..outp]) && Value() == old(Value()).(staged := bytes)
      ensures outbytes >= MB_LEN_MAX ==> outp' == outp + |bytes|
      ensures outbuf[outp + outbytes..] == old(outbuf[outp + outbytes..])
    {
      outp', outbytes' := outp, outbytes;
      if outbytes >= MB_LEN_MAX {
        Memcpy(outbuf, outp, bytes);
        outp', outbytes' := outp + |bytes|, outbytes - |bytes|;
        assert outbuf[outp + outbytes..] == outbuf[outp'..][outbytes'..];
      } else {
        Memcpy(buf, 0, bytes);
        bufLen := |bytes|;
      }
    }

    /** Reads one character, unless the input ends inside it or goes wrong. */
    method ReadChar(inbuf: array<byte>, inp: nat, inbytes: nat, ghost room: nat)
      returns (stop: Option<Status>, wc: nat, inp': nat, inbytes': nat)
      requires Valid() && bufLen == 0 && inbytes > 0 && room > 0
      requires inp + inbytes <= inbuf.Length
      modifies this`inState
      ensures Valid() && Value() == old(Value()).(inState := inState)
      ensures inbytes' <= inbytes && inp' + inbytes' == inp + inbytes && (stop.None? ==> inbytes' < inbytes)
      ensures stop.Some? ==>
                OneCall(charsets, mode, old(Value()), inbuf[inp..inp + inbytes], room) ==
                Stopped(Value(), inbuf[inp'..inp' + inbytes'], stop.value)
      ensures stop.None? ==>
                OneCall(charsets, mode, old(Value()), inbuf[inp..inp + inbytes], room) ==
                OneMore(charsets, mode, Value(), wc, inbuf[inp'..inp' + inbytes'], room)
    {
      hide OneMore;
      wc, inp', inbytes' := 0, inp, inbytes;
      ghost var before, input := Value(), inbuf[inp..inp + inbytes];
      var ret := charsets.mbtowc(inState, inbuf[inp..inp + inbytes]);
      inState := ret.next;
      match ret {
        case NulChar(_, _) =>
          inp', inbytes' := inp + inbytes, 0;
        case Invalid(_) =>
          return Some(EILSEQ), wc, inp', inbytes';
        case Incomplete(_) =>
          return Some(Converted(0)), wc, inp + inbytes, 0;
        case Char(n, c, _) =>
          wc := c;
          inp', inbytes' := inp + n, inbytes - n;
          assert input[n..] == inbuf[inp'..inp' + inbytes'];
      }
      stop := None;
      ghost var rest := inbuf[inp'..inp' + inbytes'];
      assert ret.NulChar? ==> rest == [];
      assert OneCall(charsets, mode, before, input, room) == OneMore(charsets, mode, Value(), wc, rest, room);
    }

    /** The second branch of the loop: one character, unless the input ends or goes wrong first. */
    method ConvertChar(inbuf: array<byte>, inp: nat, inbytes: nat, outbuf: array<byte>, outp: nat, outbytes: nat)
      returns (stop: Option<Status>, inexact: nat, ghost encs: seq<seq<byte>>,
               inp': nat, inbytes': nat, outp': nat, outbytes': nat)
      requires Valid() && bufLen == 0 && inbytes > 0 && outbytes > 0
      requires inp + inbytes <= inbuf.Length && outp + outbytes <= outbuf.Length
      requires inbuf != outbuf && inbuf != buf && outbuf != buf
      modifies this, buf, outbuf
      ensures Valid() && inbytes' <= inbytes && (stop.None? ==> inbytes' < inbytes)
      ensures inp' + inbytes' == inp + inbytes && outp' + outbytes' == outp + outbytes && outp <= outp'
      ensures outbuf[..outp] == old(outbuf[..outp])
      ensures outbuf[outp + outbytes..] == old(outbuf[outp + outbytes..])
      ensures stop.Some? ==>
                outp' == outp &&
                OneCall(charsets, mode, old(Value()), old(inbuf[inp..inp + inbytes]), outbytes) ==
                Stopped(Value(), inbuf[inp'..inp' + inbytes'], stop.value)
      ensures stop.None? ==>
                OneCall(charsets, mode, old(Value()), old(inbuf[inp..inp + inbytes]), outbytes) ==
                OneCall(charsets, mode, Value(), inbuf[inp'..inp' + inbytes'], outbytes')
                  .After(outbuf[outp..outp'], encs, inexact)
    {
      hide Write, OneCall;
      outp', outbytes', inexact, encs := outp, outbytes, 0, [];
      var wc, bytes;
      stop, wc, inp', inbytes' := ReadChar(inbuf, inp, inbytes, outbytes);
      if stop.Some? {
        return;
      }
      ghost var rest := inbuf[inp'..inp' + inbytes'];
      bytes, inexact := WriteChar(wc);
      if bytes == None {
        stop, inexact := Some(EILSEQ), 0;
        return;
      }
      outp', outbytes' := Put(bytes.value, outbuf, outp, outbytes);
      encs := [bytes.value];
      assert outbuf[outp..outp'] == if outbytes >= MB_LEN_MAX then bytes.value else [];
    }

    /** The body of the loop: staged bytes first, and a character only when there are none. */
    method Step(inbuf: array<byte>, inp: nat, inbytes: nat, outbuf: array<byte>, outp: nat, outbytes: nat)
      returns (stop: Option<Status>, inexact: nat, ghost encs: seq<seq<byte>>,
               inp': nat, inbytes': nat, outp': nat, outbytes': nat)
      requires Valid() && (bufLen > 0 || inbytes > 0) && outbytes > 0
      requires inp + inbytes <= inbuf.Length && outp + outbytes <= outbuf.Length
      requires inbuf != outbuf && inbuf != buf && outbuf != buf
      modifies this, buf, outbuf
      ensures Valid() && inbytes' <= inbytes
      ensures stop.None? ==> inbytes' < inbytes || bufLen < old(bufLen)
      ensures inp' + inbytes' == inp + inbytes && outp' + outbytes' == outp + outbytes && outp <= outp'
      ensures outbuf[..outp] == old(outbuf[..outp])
      ensures outbuf[outp + outbytes..] == old(outbuf[outp + outbytes..])
      ensures stop.Some? ==>
                outp' == outp &&
                OneCall(charsets, mode, old(Value()), old(inbuf[inp..inp + inbytes]), outbytes) ==
                Stopped(Value(), inbuf[inp'..inp' + inbytes'], stop.value)
      ensures stop.None? ==>
                OneCall(charsets, mode, old(Value()), old(inbuf[inp..inp + inbytes]), outbytes) ==
                OneCall(charsets, mode, Value(), inbuf[inp'..inp' + inbytes'], outbytes')
                  .After(outbuf[outp..outp'], encs, inexact)
    {
      hide OneMore, OneCall, Write;
      if bufLen != 0 {
        inp', inbytes', outp', outbytes', inexact, encs := inp, inbytes, outp, outbytes, 0, [];
        ghost var d, input := Value(), inbuf[inp..inp + inbytes];
        var tocopy := bufLen - bufOff;
        if tocopy > outbytes {
          StepFull(charsets, mode, d, input, outbytes);
          stop := Some(E2BIG);
          return;
        }
        StepDrain(charsets, mode, d, input, outbytes);
        outp', outbytes' := Drain(outbuf, outp, outbytes);
        stop := None;
      } else {
        stop, inexact, encs, inp', inbytes', outp', outbytes' :=
          ConvertChar(inbuf, inp, inbytes, outbuf, outp, outbytes);
      }
    }

    /**
     * `iconv`: converts from `inbytes` bytes at `inp` into `outbytes` bytes at `outp`, and returns the
     * advanced pointers and what is left of both.
     */
    method Convert(inbuf: array<byte>, inp: nat, inbytes: nat, outbuf: array<byte>, outp: nat, outbytes: nat)
      returns (status: Status, inp': nat, inbytes': nat, outp': nat, outbytes': nat)
      requires Valid()
      requires inp + inbytes <= inbuf.Length && outp + outbytes <= outbuf.Length
      requires inbuf != outbuf && inbuf != buf && outbuf != buf
      modifies this, buf, outbuf
      ensures Valid()
      ensures inp' + inbytes' == inp + inbytes && outp' + outbytes' == outp + outbytes
      ensures outp <= outp'
      ensures var call := OneCall(charsets, mode, old(Value()), old(inbuf[inp..inp + inbytes]), outbytes);
              && Value() == call.desc && status == call.status
              && inbuf[inp'..inp' + inbytes'] == call.rest && outbuf[outp..outp'] == call.delivered
      ensures outbuf[..outp] == old(outbuf[..outp]) && outbuf[outp + outbytes..] == old(outbuf[outp + outbytes..])
    {
      hide OneMore, OneCall, Write;
      inp', inbytes', outp', outbytes' := inp, inbytes, outp, outbytes;
      var inexactCount: nat := 0;
      ghost var whole := OneCall(charsets, mode, Value(), inbuf[inp..inp + inbytes], outbytes);
      ghost var encs: seq<seq<byte>> := [];
      AfterNothing(whole);
      while outbytes' != 0
        invariant Valid()
        invariant inp' + inbytes' == inp + inbytes && outp' + outbytes' == outp + outbytes && outp <= outp'
        invariant outbuf[..outp] == old(outbuf[..outp])
        invariant outbuf[outp + outbytes..] == old(outbuf[outp + outbytes..])
        invariant whole == OneCall(charsets, mode, Value(), inbuf[inp'..inp' + inbytes'], outbytes')
                             .After(outbuf[outp..outp'], encs, inexactCount)
        decreases inbytes', bufLen
      {
        if bufLen == 0 && inbytes' == 0 {
          break;
        }
        ghost var sent, p := outbuf[outp..outp'], outp';
        assert outbuf[..p][..outp] == outbuf[..outp];
        var stop, inexact;
        ghost var enc;
        stop, inexact, enc, inp', inbytes', outp', outbytes' := Step(inbuf, inp', inbytes', outbuf, outp', outbytes');
        assert outbuf[..p][outp..p] == sent && outbuf[..p][..outp] == outbuf[..outp];
        if stop.Some? {
          status := if stop.value.Converted? then Converted(inexactCount + stop.value.inexact) else stop.value;
          return;
        }
        assert outbuf[outp..outp'] == sent + outbuf[p..outp'];
        AfterTwice(OneCall(charsets, mode, Value(), inbuf[inp'..inp' + inbytes'], outbytes'),
                   sent, encs, inexactCount, outbuf[p..outp'], enc, inexact);
        inexactCount := inexactCount + inexact;
        encs := encs + enc;
      }
      StepIdle(charsets, mode, Value(), inbuf[inp'..inp' + inbytes'], outbytes');
      return Converted(inexactCount), inp', inbytes', outp', outbytes';
    }
  }

  lemma AfterNothing(c: Call)
    ensures c.After([], [], 0) == c
  {
  }

  lemma AfterTwice(c: Call, b1: seq<byte>, e1: seq<seq<byte>>, i1: nat, b2: seq<byte>, e2: seq<seq<byte>>, i2: nat)
    ensures c.After(b2, e2, i2).After(b1, e1, i1) == c.After(b1 + b2, e1 + e2, i1 + i2)
  {
    assert b1 + (b2 + c.delivered) == b1 + b2 + c.delivered;
    assert e1 + (e2 + c.encodings) == e1 + e2 + c.encodings;
  }

  lemma StepFull(cs: Charsets, mode: Mode, d: Desc, input: seq<byte>, room: nat)
    requires cs.Regular() && 0 < room < |d.staged|
    ensures OneCall(cs, mode, d, input, room) == Stopped(d, input, E2BIG)
  {
  }

  lemma StepDrain(cs: Charsets, mode: Mode, d: Desc, input: seq<byte>, room: nat)
    requires cs.Regular() && 0 < |d.staged| <= room
    ensures OneCall(cs, mode, d, input, room) ==
            OneCall(cs, mode, d.(staged := []), input, room - |d.staged|).After(d.staged, [], 0)
  {
  }

  lemma StepChar(cs: Charsets, mode: Mode, d: Desc, input: seq<byte>, room: nat)
    requires cs.Regular() && d.staged == [] && room > 0 && input != [] && cs.mbtowc(d.inState, input).Char?
    ensures var c := cs.mbtowc(d.inState, input);
            OneCall(cs, mode, d, input, room) == OneMore(cs, mode, d.(inState := c.next), c.wc, input[c.length..], room)
  {
  }

  lemma StepIdle(cs: Charsets, mode: Mode, d: Desc, input: seq<byte>, room: nat)
    requires cs.Regular() && (room == 0 || (d.staged == [] && input == []))
    ensures OneCall(cs, mode, d, input, room) == Stopped(d, input, Converted(0))
  {
  }
}
