// The serial line framing of the ROM loader protocol: byte stuffing, frames and the read loops.
module Slip {
  import opened Bytes

  const SLIP_END: byte := 0xC0
  const SLIP_ESC: byte := 0xDB
  const SLIP_ESC_END: byte := 0xDC
  const SLIP_ESC_ESC: byte := 0xDD

  // ----- byte stuffing -----

  function StuffByte(b: byte): seq<byte> {
    if b == SLIP_END then [SLIP_ESC, SLIP_ESC_END]
    else if b == SLIP_ESC then [SLIP_ESC, SLIP_ESC_ESC]
    else [b]
  }

  function Stuff(data: seq<byte>): seq<byte> {
    if data == [] then [] else StuffByte(data[0]) + Stuff(data[1..])
  }

  /** What an escape stands for; an unknown escape stands for nothing. */
  function Unescape(b: byte): seq<byte> {
    if b == SLIP_ESC_END then [SLIP_END] else if b == SLIP_ESC_ESC then [SLIP_ESC] else []
  }

  /** None when the data ends inside an escape, where the program runs off its end. */
  function Unstuff(data: seq<byte>): Option<seq<byte>>
    decreases |data|
  {
    if data == [] then Some([])
    else if data[0] != SLIP_ESC then Prepend([data[0]], Unstuff(data[1..]))
    else if |data| == 1 then None
    else Prepend(Unescape(data[1]), Unstuff(data[2..]))
  }

  function Prepend(a: seq<byte>, r: Option<seq<byte>>): Option<seq<byte>> {
    match r
    case None => None
    case Some(b) => Some(a + b)
  }

  lemma StuffStep(data: seq<byte>, i: nat, encoded: seq<byte>)
    requires i < |data|
    ensures encoded + Stuff(data[i..]) == encoded + StuffByte(data[i]) + Stuff(data[i + 1..])
  {
    assert data[i..][1..] == data[i + 1..];
  }

  method SlipEncode(data: seq<byte>) returns (encoded: seq<byte>)
    ensures encoded == Stuff(data)
  {
    encoded := [];
    assert data[0..] == data;
    for i := 0 to |data|
      invariant Stuff(data) == encoded + Stuff(data[i..])
    {
      StuffStep(data, i, encoded);
      hide Stuff;
      ghost var before := encoded;
      var b := data[i];
      if b == SLIP_END {
        encoded := encoded + [SLIP_ESC];
        encoded := encoded + [SLIP_ESC_END];
      } else if b == SLIP_ESC {
        encoded := encoded + [SLIP_ESC];
        encoded := encoded + [SLIP_ESC_ESC];
      } else {
        encoded := encoded + [b];
      }
      assert encoded == before + StuffByte(b);
    }
  }

  method SlipDecode(data: seq<byte>) returns (decoded: Option<seq<byte>>)
    ensures decoded == Unstuff(data)
  {
    var out := [];
    var i: nat := 0;
    assert data[0..] == data;
    PrependNothing(Unstuff(data));
    while i < |data|
      invariant i <= |data|
      invariant Unstuff(data) == Prepend(out, Unstuff(data[i..]))
    {
      ghost var rest := data[i..];
      if data[i] == SLIP_ESC {
        i := i + 1;
        if i >= |data| {
          return None;
        }
        assert rest[2..] == data[i + 1..];
        PrependTwice(out, Unescape(data[i]), Unstuff(data[i + 1..]));
        if data[i] == SLIP_ESC_END {
          out := out + [SLIP_END];
        } else if data[i] == SLIP_ESC_ESC {
          out := out + [SLIP_ESC];
        } else {
          assert out + [] == out;
        }
      } else {
        assert rest[1..] == data[i + 1..];
        PrependTwice(out, [data[i]], Unstuff(data[i + 1..]));
        out := out + [data[i]];
      }
      i := i + 1;
    }
    assert out + [] == out;
    return Some(out);
  }

  lemma PrependNothing(r: Option<seq<byte>>)
    ensures Prepend([], r) == r
  {
    if r.Some? {
      assert [] + r.value == r.value;
    }
  }

  lemma PrependTwice(a: seq<byte>, b: seq<byte>, r: Option<seq<byte>>)
    ensures Prepend(a, Prepend(b, r)) == Prepend(a + b, r)
  {
    if r.Some? {
      assert a + (b + r.value) == a + b + r.value;
    }
  }

  /** Decoding undoes encoding, for every byte string. */
  lemma {:induction false} UnstuffStuff(data: seq<byte>)
    ensures Unstuff(Stuff(data)) == Some(data)
  {
    if data != [] {
      var b, rest := data[0], Stuff(data[1..]);
      UnstuffStuff(data[1..]);
      var n := |StuffByte(b)|;
      assert (StuffByte(b) + rest)[n..] == rest;
      assert [b] + data[1..] == data;
    }
  }

  /** The bytes of RFC 1055, for any byte. */
  lemma StuffedByte(b: byte)
    ensures Stuff([b]) == if b == 0xC0 then [0xDB, 0xDC] else if b == 0xDB then [0xDB, 0xDD] else [b]
    ensures Unstuff([0xDB, b]) == Some(if b == 0xDC then [0xC0] else if b == 0xDD then [0xDB] else [])
    ensures Frame([]) == [0xC0, 0xC0]
  {
    assert [b][1..] == [] && [0xDB as byte, b][2..] == [];
    assert Stuff([]) == [] && Unstuff([]) == Some([]);
    if b == 0xDC || b == 0xDD {
      assert Unescape(b) + [] == Unescape(b);
    }
  }

  /** Stuffed bytes never contain the frame delimiter. */
  lemma {:induction false} StuffHasNoEnd(data: seq<byte>)
    ensures SLIP_END !in Stuff(data)
    ensures Stuff(data) == [] <==> data == []
  {
    if data != [] {
      StuffHasNoEnd(data[1..]);
    }
  }

  /** No delimiter, and every escape a known one: what a correct encoder may send. */
  predicate WellStuffed(data: seq<byte>)
    decreases |data|
  {
    if data == [] then true
    else if data[0] == SLIP_ESC then |data| >= 2 && Unescape(data[1]) != [] && WellStuffed(data[2..])
    else data[0] != SLIP_END && WellStuffed(data[1..])
  }

  lemma {:induction false} StuffIsWellStuffed(data: seq<byte>)
    ensures WellStuffed(Stuff(data))
  {
    if data != [] {
      StuffIsWellStuffed(data[1..]);
      var b, rest := data[0], Stuff(data[1..]);
      assert (StuffByte(b) + rest)[|StuffByte(b)|..] == rest;
    }
  }

  /** Encoding undoes decoding exactly on well-stuffed data. */
  lemma {:induction false} StuffUnstuff(data: seq<byte>)
    ensures WellStuffed(data) <==> Unstuff(data).Some? && Stuff(Unstuff(data).value) == data
    decreases |data|
  {
    if Unstuff(data).Some? && Stuff(Unstuff(data).value) == data {
      StuffIsWellStuffed(Unstuff(data).value);
    }
    if WellStuffed(data) && data != [] {
      var n := if data[0] == SLIP_ESC then 2 else 1;
      var b := if n == 2 then Unescape(data[1])[0] else data[0];
      StuffUnstuff(data[n..]);
      var rest := Unstuff(data[n..]).value;
      assert Unstuff(data) == Some([b] + rest);
      assert ([b] + rest)[1..] == rest;
      assert data == StuffByte(b) + data[n..];
    }
  }

  /** How many escape bytes the data ends with. */
  function TrailingEscapes(data: seq<byte>): nat {
    var n := |data| - 1;
    if data == [] || data[n] != SLIP_ESC then 0 else 1 + TrailingEscapes(data[..n])
  }

  /** The escapes at the end of `a + b` are those of `b`, and those of `a` too when `b` is nothing else. */
  lemma {:induction false} TrailingAppend(a: seq<byte>, b: seq<byte>)
    ensures TrailingEscapes(a + b) ==
            TrailingEscapes(b) + if TrailingEscapes(b) == |b| then TrailingEscapes(a) else 0
    ensures TrailingEscapes(b) <= |b|
    decreases |b|
  {
    if b == [] {
      assert a + b == a;
    } else {
      var n := |b| - 1;
      assert (a + b)[..|a| + n] == a + b[..n];
      TrailingAppend(a, b[..n]);
    }
  }

  lemma ShortTrails(a: byte, b: byte)
    ensures TrailingEscapes([a]) == if a == SLIP_ESC then 1 else 0
    ensures TrailingEscapes([SLIP_ESC, b]) == if b == SLIP_ESC then 2 else 0
  {
    assert [a][..0] == [] && [SLIP_ESC][..0] == [];
    assert TrailingEscapes([SLIP_ESC]) == 1;
    assert [SLIP_ESC, b][..1] == [SLIP_ESC];
  }

  /** Decoding fails exactly when the run of escape bytes at the end of the data has odd length. */
  lemma {:induction false} UnstuffFails(data: seq<byte>)
    ensures Unstuff(data) == None <==> TrailingEscapes(data) % 2 == 1
    decreases |data|
  {
    if data != [] {
      var n := if data[0] != SLIP_ESC || |data| == 1 then 1 else 2;
      assert data == data[..n] + data[n..];
      TrailingAppend(data[..n], data[n..]);
      UnstuffFails(data[n..]);
      assert n == 1 ==> data[..1] == [data[0]];
      assert n == 2 ==> data[..2] == [SLIP_ESC, data[1]];
      ShortTrails(data[0], if n == 2 then data[1] else NUL);
      hide TrailingEscapes;
    }
  }

  // ----- frames -----

  function Frame(packet: seq<byte>): seq<byte> {
    [SLIP_END] + Stuff(packet) + [SLIP_END]
  }

  function Frames(packets: seq<seq<byte>>): seq<byte> {
    if packets == [] then [] else Frame(packets[0]) + Frames(packets[1..])
  }

  /** The outcome of the two read loops: nothing at all, a frame cut short, or the bytes of a frame. */
  datatype RawFrame = Nothing | TimedOut | Raw(bytes: seq<byte>)

  /** The bytes after any delimiters at the front. */
  function SkipEnds(stream: seq<byte>): (r: seq<byte>)
    ensures |r| <= |stream| && (r != [] ==> r[0] != SLIP_END)
  {
    if stream == [] || stream[0] != SLIP_END then stream else SkipEnds(stream[1..])
  }

  /** The frame at the front of a stream, and what is left behind it. */
  function ReadFrame(stream: seq<byte>): (r: (RawFrame, seq<byte>))
    ensures r.0.Raw? ==> |r.1| < |stream|
  {
    var s := SkipEnds(stream);
    if s == [] then (Nothing, [])
    else
      var n := Find(s, SLIP_END, 0);
      if n == |s| then (TimedOut, []) else (Raw(s[..n]), s[n + 1..])
  }

  predicate OnlyEnds(s: seq<byte>) {
    forall k :: 0 <= k < |s| ==> s[k] == 0xC0
  }

  lemma {:induction false} EndsSkipped(stream: seq<byte>)
    ensures var n := |stream| - |SkipEnds(stream)|;
            OnlyEnds(stream[..n]) && stream[n..] == SkipEnds(stream)
  {
    if stream != [] && stream[0] == SLIP_END {
      EndsSkipped(stream[1..]);
      var n := |stream| - |SkipEnds(stream)|;
      assert stream[n..] == stream[1..][n - 1..];
      forall k | 0 <= k < n
        ensures stream[k] == 0xC0
      {
        assert k > 0 ==> stream[k] == stream[1..][..n - 1][k - 1];
      }
    }
  }

  /**
   * What the read loops make of any bytes: nothing of mere delimiters; a frame of the first bytes that
   * are none, up to the delimiter behind them; and a frame cut short when there is no such delimiter.
   */
  lemma ReadFrameMeans(stream: seq<byte>)
    ensures var (frame, rest) := ReadFrame(stream);
            && (frame == Nothing <==> OnlyEnds(stream))
            && (frame == TimedOut ==> exists n :: 0 <= n < |stream| && OnlyEnds(stream[..n]) && 0xC0 !in stream[n..])
            && (frame.Raw? ==> exists n ::
                  && 0 <= n <= |stream| && OnlyEnds(stream[..n]) && frame.bytes != [] && 0xC0 !in frame.bytes
                  && stream[n..] == frame.bytes + [0xC0] + rest)
  {
    EndsSkipped(stream);
    var s := SkipEnds(stream);
    var n := |stream| - |s|;
    if s != [] {
      assert stream[n] == s[0];
      var m := Find(s, SLIP_END, 0);
      hide Find, SkipEnds;
      if m == |s| {
        assert 0xC0 !in stream[n..];
      } else {
        assert s == s[..m] + [0xC0] + s[m + 1..];
      }
    } else {
      assert stream[..n] == stream;
    }
  }

  /**
   * What comes in: the bytes before the line next falls silent for long enough that a read times
   * out, and the bursts of bytes behind that silence and each later one.
   */
  datatype Line = Line(now: seq<byte>, later: seq<seq<byte>>)

  /** The line behind its next silence; behind the last one it stays silent. */
  function Resumed(line: Line): Line {
    if line.later == [] then Line([], []) else Line(line.later[0], line.later[1..])
  }

  /** The frame at the front of the line, and the line behind it or behind the read that timed out. */
  function TakeFrame(line: Line): (RawFrame, Line) {
    var (frame, rest) := ReadFrame(line.now);
    (frame, if frame.Raw? then Line(rest, line.later) else Resumed(line))
  }

  /** Every frame that repeated runs of the read loops take from a stream, decoded. */
  function Received(stream: seq<byte>): seq<Option<seq<byte>>>
    decreases |stream|
  {
    var (frame, rest) := ReadFrame(stream);
    if frame.Raw? then [Unstuff(frame.bytes)] + Received(rest) else []
  }

  /** The serial port: bytes that come in, and bytes written. */
  class Port {
    var incoming: Line
    var outgoing: seq<byte>

    constructor (incoming: Line)
      ensures this.incoming == incoming && outgoing == []
    {
      this.incoming, outgoing := incoming, [];
    }

    /** One byte, or None when the read times out. */
    method Read() returns (b: Option<byte>)
      modifies this`incoming
      ensures old(incoming).now == [] ==>
                && b == None
                && incoming == if old(incoming).later == [] then Line([], [])
                               else Line(old(incoming).later[0], old(incoming).later[1..])
      ensures old(incoming).now != [] ==>
                b == Some(old(incoming).now[0]) && incoming == Line(old(incoming).now[1..], old(incoming).later)
    {
      if incoming.now == [] {
        incoming := Resumed(incoming);
        return None;
      }
      b := Some(incoming.now[0]);
      incoming := Line(incoming.now[1..], incoming.later);
    }

    method Write(data: seq<byte>)
      modifies this`outgoing
      ensures outgoing == old(outgoing) + data
    {
      outgoing := outgoing + data;
    }

    /** The two loops of `recv_response`. */
    method ReadRaw() returns (frame: RawFrame)
      modifies this`incoming
      ensures (frame, incoming) == TakeFrame(old(incoming))
    {
      hide Find;
      var resp := [];
      while true
        invariant SkipEnds(incoming.now) == SkipEnds(old(incoming).now)
        invariant incoming.later == old(incoming).later
        decreases |incoming.now|
      {
        var b := Read();
        if b == None {
          return Nothing;
        }
        if b.value != SLIP_END {
          resp := [b.value];
          break;
        }
      }
      ghost var s := SkipEnds(old(incoming).now);
      assert s == resp + incoming.now;
      while true
        invariant s == resp + incoming.now && resp != []
        invariant incoming.later == old(incoming).later
        invariant SLIP_END !in resp
        decreases |incoming.now|
      {
        ghost var before := incoming.now;
        var b := Read();
        if b == None {
          FindAfter(s, resp);
          return TimedOut;
        }
        assert before == [b.value] + incoming.now;
        FindAfter(s, resp);
        if b.value == SLIP_END {
          assert s[|resp|] == SLIP_END;
          return Raw(resp);
        }
        resp := resp + [b.value];
      }
    }
  }

  lemma FindAfter(s: seq<byte>, p: seq<byte>)
    requires p <= s && SLIP_END !in p
    ensures Find(s, SLIP_END, 0) >= |p|
  {
    assert forall k :: 0 <= k < |p| ==> s[k] == p[k];
  }

  function AllSome(packets: seq<seq<byte>>): seq<Option<seq<byte>>> {
    if packets == [] then [] else [Some(packets[0])] + AllSome(packets[1..])
  }

  /** The first delimiter of a frame is skipped, and then the body is read up to the second. */
  lemma ReadBody(body: seq<byte>, rest: seq<byte>)
    requires body != [] && SLIP_END !in body
    ensures ReadFrame([SLIP_END] + (body + ([SLIP_END] + rest))) == (Raw(body), rest)
  {
    hide Find;
    var s := body + ([SLIP_END] + rest);
    assert ([SLIP_END] + s)[1..] == s && s[0] == body[0] && body[0] in body;
    assert SkipEnds([SLIP_END] + s) == SkipEnds(s) == s;
    FindAfter(s, body);
    assert s[|body|] == SLIP_END && s[..|body|] == body && s[|body| + 1..] == rest;
  }

  lemma SkipOne(stream: seq<byte>)
    ensures ReadFrame([SLIP_END] + stream) == ReadFrame(stream)
  {
    assert ([SLIP_END] + stream)[1..] == stream;
  }

  /** Reading from a frame followed by anything: an empty packet is passed over, any other one is read whole. */
  lemma ReadFrameOf(packet: seq<byte>, rest: seq<byte>)
    ensures ReadFrame(Frame(packet) + rest) == if packet == [] then ReadFrame(rest) else (Raw(Stuff(packet)), rest)
  {
    StuffHasNoEnd(packet);
    hide Stuff, Find, ReadFrame;
    var body := Stuff(packet);
    assert Frame(packet) + rest == [SLIP_END] + (body + ([SLIP_END] + rest));
    if packet == [] {
      assert body + ([SLIP_END] + rest) == [SLIP_END] + rest;
      SkipOne([SLIP_END] + rest);
      SkipOne(rest);
    } else {
      ReadBody(body, rest);
    }
  }

  /** Packets sent frame after frame are received in order, each exactly as sent; only empty ones go unseen. */
  lemma {:induction false} ReceivedFrames(packets: seq<seq<byte>>)
    ensures Received(Frames(packets)) == AllSome(NonEmpty(packets))
  {
    if packets != [] {
      var p, t := packets[0], packets[1..];
      ReceivedFrames(t);
      ReadFrameOf(p, Frames(t));
      UnstuffStuff(p);
      var stream := Frame(p) + Frames(t);
      assert Frames(packets) == stream;
      if p != [] {
        assert Received(stream) == [Some(p)] + Received(Frames(t));
        assert NonEmpty(packets) == [p] + NonEmpty(t);
        assert NonEmpty(packets)[1..] == NonEmpty(t);
      } else {
        assert Received(stream) == Received(Frames(t));
        assert NonEmpty(packets) == NonEmpty(t);
      }
    }
  }
}
