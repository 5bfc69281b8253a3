// What a call of `iconv` does, decided beforehand by what there is to send and the room for it.
module IconvRooms {
  import opened Bytes
  import opened IconvLibrary
  import opened IconvRuns

  // ----- what there is to send -----

  /** Bytes that are sent together or not at all, and how many replaced characters they add to the count. */
  datatype Chunk = Chunk(bytes: seq<byte>, inexact: nat)

  /** The encodings that converting `input` without limits produces, one for each character. */
  function Encodings(cs: Charsets, mode: Mode, inState: MbState, outState: MbState, input: seq<byte>): seq<Chunk>
    requires cs.Regular()
    decreases |input|
  {
    if input == [] then []
    else match cs.mbtowc(inState, input)
      case Invalid(_) => []
      case Incomplete(_) => []
      case NulChar(_, next) => EncodingsOn(cs, mode, next, outState, 0, [])
      case Char(n, wc, next) => EncodingsOn(cs, mode, next, outState, wc, input[n..])
  }

  function EncodingsOn(cs: Charsets, mode: Mode, inState: MbState, outState: MbState, wc: nat, rest: seq<byte>)
    : seq<Chunk>
    requires cs.Regular()
    decreases |rest| + 1, 0
  {
    var w := Write(cs, mode, outState, wc);
    match w.encoded.bytes
    case None => []
    case Some(bytes) => [Chunk(bytes, w.inexact)] + Encodings(cs, mode, inState, w.encoded.next, rest)
  }

  /** The same for a descriptor, whose staged bytes come first; they were counted before. */
  function Chunks(cs: Charsets, mode: Mode, d: Desc, input: seq<byte>): seq<Chunk>
    requires cs.Regular()
  {
    (if d.staged == [] then [] else [Chunk(d.staged, 0)]) + Encodings(cs, mode, d.inState, d.outState, input)
  }

  /** Nothing in the input is illegal, and the output charset has every character or its replacement. */
  predicate Legal(cs: Charsets, mode: Mode, d: Desc, input: seq<byte>)
    requires cs.Regular()
  {
    ConvertAll(cs, mode, d.inState, d.outState, input).legal
  }

  function BytesOf(chunks: seq<Chunk>): seq<byte> {
    if chunks == [] then [] else chunks[0].bytes + BytesOf(chunks[1..])
  }

  function ReplacedIn(chunks: seq<Chunk>): nat {
    if chunks == [] then 0 else chunks[0].inexact + ReplacedIn(chunks[1..])
  }

  lemma {:induction false} EncodingsAreWhole(cs: Charsets, mode: Mode, s: MbState, o: MbState, input: seq<byte>)
    requires cs.Regular()
    ensures BytesOf(Encodings(cs, mode, s, o, input)) == ConvertAll(cs, mode, s, o, input).bytes
    ensures ReplacedIn(Encodings(cs, mode, s, o, input)) == ConvertAll(cs, mode, s, o, input).inexact
    decreases |input|
  {
    if input != [] {
      match cs.mbtowc(s, input)
      case Invalid(_) =>
      case Incomplete(_) =>
      case NulChar(_, next) => EncodingsOnAreWhole(cs, mode, next, o, 0, []);
      case Char(n, wc, next) => EncodingsOnAreWhole(cs, mode, next, o, wc, input[n..]);
    }
  }

  lemma {:induction false} EncodingsOnAreWhole(cs: Charsets, mode: Mode, s: MbState, o: MbState, wc: nat,
                                               rest: seq<byte>)
    requires cs.Regular()
    ensures BytesOf(EncodingsOn(cs, mode, s, o, wc, rest)) == ConvertOn(cs, mode, s, o, wc, rest).bytes
    ensures ReplacedIn(EncodingsOn(cs, mode, s, o, wc, rest)) == ConvertOn(cs, mode, s, o, wc, rest).inexact
    decreases |rest| + 1, 0
  {
    var w := Write(cs, mode, o, wc);
    if w.encoded.bytes.Some? {
      EncodingsAreWhole(cs, mode, s, w.encoded.next, rest);
      assert EncodingsOn(cs, mode, s, o, wc, rest)[1..] == Encodings(cs, mode, s, w.encoded.next, rest);
    }
  }

  /** The chunks are the unlimited conversion in pieces. */
  lemma ChunksAreFuture(cs: Charsets, mode: Mode, d: Desc, input: seq<byte>)
    requires cs.Regular()
    ensures BytesOf(Chunks(cs, mode, d, input)) == Future(cs, mode, d, input)
    ensures ReplacedIn(Chunks(cs, mode, d, input)) == ConvertAll(cs, mode, d.inState, d.outState, input).inexact
  {
    EncodingsAreWhole(cs, mode, d.inState, d.outState, input);
    var encs := Encodings(cs, mode, d.inState, d.outState, input);
    hide Encodings, ConvertAll;
    assert ([Chunk(d.staged, 0)] + encs)[1..] == encs;
    assert d.staged == [] ==> Chunks(cs, mode, d, input) == encs;
  }

  // ----- what a call takes of it -----

  /** What a call does with these chunks: it sends those that fit, and stages the one that does not. */
  datatype Take = Take(status: Status, delivered: seq<byte>, replaced: nat, left: seq<Chunk>)

  function TakeRoom(chunks: seq<Chunk>, legal: bool, room: nat): Take
    decreases |chunks|
  {
    if room == 0 then Take(Converted(0), [], 0, chunks)
    else if chunks == [] then Take(if legal then Converted(0) else EILSEQ, [], 0, [])
    else
      var c := chunks[0];
      if |c.bytes| > room then Take(E2BIG, [], c.inexact, [Chunk(c.bytes, 0)] + chunks[1..])
      else
        var t := TakeRoom(chunks[1..], legal, room - |c.bytes|);
        Take(if t.status.Converted? then Converted(c.inexact + t.status.inexact) else t.status,
             c.bytes + t.delivered, c.inexact + t.replaced, t.left)
  }

  ghost predicate Takes(cs: Charsets, mode: Mode, call: Call, legal: bool, t: Take)
    requires cs.Regular()
  {
    && call.status == t.status && call.delivered == t.delivered && call.replaced == t.replaced
    && (call.status != EILSEQ ==>
          Chunks(cs, mode, call.desc, call.rest) == t.left && Legal(cs, mode, call.desc, call.rest) == legal)
  }

  lemma TakeFitting(c: Chunk, chunks: seq<Chunk>, legal: bool, room: nat)
    requires 0 < room && |c.bytes| <= room
    ensures var t := TakeRoom(chunks, legal, room - |c.bytes|);
            TakeRoom([c] + chunks, legal, room) ==
            Take(if t.status.Converted? then Converted(c.inexact + t.status.inexact) else t.status,
                 c.bytes + t.delivered, c.inexact + t.replaced, t.left)
  {
    assert ([c] + chunks)[1..] == chunks;
  }

  lemma TakesFitting(cs: Charsets, mode: Mode, next: Call, c: Chunk, encs: seq<seq<byte>>, chunks: seq<Chunk>,
                     legal: bool, room: nat)
    requires cs.Regular() && 0 < room && |c.bytes| <= room
    requires Takes(cs, mode, next, legal, TakeRoom(chunks, legal, room - |c.bytes|))
    ensures Takes(cs, mode, next.After(c.bytes, encs, c.inexact), legal, TakeRoom([c] + chunks, legal, room))
  {
    hide TakeRoom, Chunks, Legal;
    TakeFitting(c, chunks, legal, room);
  }

  /** A staged chunk is taken like one not yet counted, except for the count. */
  lemma TakeStaged(bytes: seq<byte>, inexact: nat, chunks: seq<Chunk>, legal: bool, room: nat)
    requires room > 0
    ensures var t := TakeRoom([Chunk(bytes, 0)] + chunks, legal, room);
            TakeRoom([Chunk(bytes, inexact)] + chunks, legal, room) ==
            Take(if t.status.Converted? then Converted(inexact + t.status.inexact) else t.status,
                 t.delivered, inexact + t.replaced, t.left)
  {
    hide TakeRoom;
    if |bytes| <= room {
      TakeFitting(Chunk(bytes, 0), chunks, legal, room);
      TakeFitting(Chunk(bytes, inexact), chunks, legal, room);
    } else {
      TakeOver(Chunk(bytes, 0), chunks, legal, room);
      TakeOver(Chunk(bytes, inexact), chunks, legal, room);
    }
  }

  lemma TakeOver(c: Chunk, chunks: seq<Chunk>, legal: bool, room: nat)
    requires 0 < room < |c.bytes|
    ensures TakeRoom([c] + chunks, legal, room) == Take(E2BIG, [], c.inexact, [Chunk(c.bytes, 0)] + chunks)
  {
    assert ([c] + chunks)[1..] == chunks;
  }

  lemma TakesStaged(cs: Charsets, mode: Mode, next: Call, bytes: seq<byte>, inexact: nat, chunks: seq<Chunk>,
                    legal: bool, room: nat)
    requires cs.Regular() && room > 0
    requires Takes(cs, mode, next, legal, TakeRoom([Chunk(bytes, 0)] + chunks, legal, room))
    ensures Takes(cs, mode, next.After([], [bytes], inexact), legal,
                  TakeRoom([Chunk(bytes, inexact)] + chunks, legal, room))
  {
    hide TakeRoom, Chunks, Legal;
    TakeStaged(bytes, inexact, chunks, legal, room);
    assert [] + next.delivered == next.delivered;
  }

  lemma StopTakes(cs: Charsets, mode: Mode, d: Desc, input: seq<byte>, room: nat)
    requires cs.Regular() && (room == 0 || |d.staged| > room || (d.staged == [] && input == []))
    ensures var legal := Legal(cs, mode, d, input);
            Takes(cs, mode, OneCall(cs, mode, d, input, room), legal, TakeRoom(Chunks(cs, mode, d, input), legal, room))
  {
    if 0 < room < |d.staged| {
      StepFull(cs, mode, d, input, room);
      hide OneCall;
      var chunks := Chunks(cs, mode, d, input);
      assert chunks == [chunks[0]] + chunks[1..];
    } else {
      StepIdle(cs, mode, d, input, room);
      hide OneCall;
    }
  }

  lemma DrainTakes(cs: Charsets, mode: Mode, d: Desc, input: seq<byte>, room: nat)
    requires cs.Regular() && 0 < |d.staged| <= room
    requires var d', legal, left := d.(staged := []), Legal(cs, mode, d.(staged := []), input), room - |d.staged|;
             Takes(cs, mode, OneCall(cs, mode, d', input, left), legal,
                   TakeRoom(Chunks(cs, mode, d', input), legal, left))
    ensures var legal := Legal(cs, mode, d, input);
            Takes(cs, mode, OneCall(cs, mode, d, input, room), legal, TakeRoom(Chunks(cs, mode, d, input), legal, room))
  {
    hide OneCall, TakeRoom, Takes, Encodings;
    var d' := d.(staged := []);
    StepDrain(cs, mode, d, input, room);
    NothingStaged(cs, mode, d', input);
    SomethingStaged(cs, mode, d', input, d.staged);
    hide Chunks, Legal;
    assert d'.(staged := d.staged) == d;
    TakesFitting(cs, mode, OneCall(cs, mode, d', input, room - |d.staged|), Chunk(d.staged, 0), [],
                 Chunks(cs, mode, d', input), Legal(cs, mode, d, input), room);
  }

  /** The loop of `iconv` takes its chunks one by one. */
  lemma {:induction false} CallTakes(cs: Charsets, mode: Mode, d: Desc, input: seq<byte>, room: nat)
    requires cs.Regular()
    ensures var legal := Legal(cs, mode, d, input);
            Takes(cs, mode, OneCall(cs, mode, d, input, room), legal, TakeRoom(Chunks(cs, mode, d, input), legal, room))
    decreases |input|, |d.staged| + 2
  {
    hide OneCall, TakeRoom, Takes, Encodings, Chunks, Legal;
    if room == 0 || |d.staged| > room || (d.staged == [] && input == []) {
      StopTakes(cs, mode, d, input, room);
    } else if d.staged != [] {
      CallTakes(cs, mode, d.(staged := []), input, room - |d.staged|);
      DrainTakes(cs, mode, d, input, room);
    } else {
      CharTakes(cs, mode, d, input, room);
    }
  }

  lemma {:induction false} CharTakes(cs: Charsets, mode: Mode, d: Desc, input: seq<byte>, room: nat)
    requires cs.Regular() && d.staged == [] && input != [] && room > 0
    ensures var legal := Legal(cs, mode, d, input);
            Takes(cs, mode, OneCall(cs, mode, d, input, room), legal, TakeRoom(Chunks(cs, mode, d, input), legal, room))
    decreases |input|, 1
  {
    NothingStaged(cs, mode, d, input);
    match cs.mbtowc(d.inState, input)
    case Invalid(next) =>
    case Incomplete(next) =>
    case NulChar(_, next) => OneMoreTakes(cs, mode, d.(inState := next), 0, [], room);
    case Char(n, wc, next) => OneMoreTakes(cs, mode, d.(inState := next), wc, input[n..], room);
  }

  lemma {:induction false} OneMoreTakes(cs: Charsets, mode: Mode, d: Desc, wc: nat, rest: seq<byte>, room: nat)
    requires cs.Regular() && d.staged == [] && room > 0
    ensures var legal := ConvertOn(cs, mode, d.inState, d.outState, wc, rest).legal;
            Takes(cs, mode, OneMore(cs, mode, d, wc, rest, room), legal,
                  TakeRoom(EncodingsOn(cs, mode, d.inState, d.outState, wc, rest), legal, room))
    decreases |rest| + 1, 0
  {
    hide OneCall, OneMore, TakeRoom, Takes, ConvertAll, ConvertOn, Encodings, EncodingsOn, Chunks, Legal, Write;
    var w := Write(cs, mode, d.outState, wc);
    if w.encoded.bytes.None? {
      UnwritableTakes(cs, mode, d, wc, rest, room);
    } else {
      var bytes, d' := w.encoded.bytes.value, d.(outState := w.encoded.next);
      EncodingsMore(cs, mode, d, wc, rest);
      OneMoreShape(cs, mode, d, wc, rest, room);
      if room >= MB_LEN_MAX || bytes == [] {
        assert bytes == [] ==> d'.(staged := bytes) == d';
        DirectTakes(cs, mode, d', rest, room, bytes, w.inexact);
      } else {
        StagedTakes(cs, mode, d', rest, room, bytes, w.inexact);
      }
    }
  }

  lemma UnwritableTakes(cs: Charsets, mode: Mode, d: Desc, wc: nat, rest: seq<byte>, room: nat)
    requires cs.Regular() && room > 0 && Write(cs, mode, d.outState, wc).encoded.bytes.None?
    ensures var legal := ConvertOn(cs, mode, d.inState, d.outState, wc, rest).legal;
            Takes(cs, mode, OneMore(cs, mode, d, wc, rest, room), legal,
                  TakeRoom(EncodingsOn(cs, mode, d.inState, d.outState, wc, rest), legal, room))
  {
    hide Write;
  }

  lemma {:induction false} DirectTakes(cs: Charsets, mode: Mode, d: Desc, rest: seq<byte>, room: nat,
                                       bytes: seq<byte>, inexact: nat)
    requires cs.Regular() && d.staged == [] && room > 0 && |bytes| <= room
    ensures var legal := Legal(cs, mode, d, rest);
            Takes(cs, mode, OneCall(cs, mode, d, rest, room - |bytes|).After(bytes, [bytes], inexact), legal,
                  TakeRoom([Chunk(bytes, inexact)] + Encodings(cs, mode, d.inState, d.outState, rest), legal, room))
    decreases |rest|, 3
  {
    hide OneCall, TakeRoom, Takes, Encodings, Chunks, Legal, Charsets.Regular;
    var chunks, left := Encodings(cs, mode, d.inState, d.outState, rest), room - |bytes|;
    CallTakes(cs, mode, d, rest, left);
    NothingStaged(cs, mode, d, rest);
    TakesFitting(cs, mode, OneCall(cs, mode, d, rest, left), Chunk(bytes, inexact), [bytes], chunks,
                 Legal(cs, mode, d, rest), room);
  }

  lemma {:induction false} StagedTakes(cs: Charsets, mode: Mode, d: Desc, rest: seq<byte>, room: nat,
                                       bytes: seq<byte>, inexact: nat)
    requires cs.Regular() && d.staged == [] && room > 0 && bytes != []
    ensures var legal := Legal(cs, mode, d, rest);
            Takes(cs, mode, OneCall(cs, mode, d.(staged := bytes), rest, room).After([], [bytes], inexact), legal,
                  TakeRoom([Chunk(bytes, inexact)] + Encodings(cs, mode, d.inState, d.outState, rest), legal, room))
    decreases |rest|, |bytes| + 3
  {
    var d' := d.(staged := bytes);
    SomethingStaged(cs, mode, d, rest, bytes);
    hide OneCall, TakeRoom, Takes, Encodings, Chunks, Legal;
    CallTakes(cs, mode, d', rest, room);
    TakesStaged(cs, mode, OneCall(cs, mode, d', rest, room), bytes, inexact,
                Encodings(cs, mode, d.inState, d.outState, rest), Legal(cs, mode, d, rest), room);
  }

  lemma NothingStaged(cs: Charsets, mode: Mode, d: Desc, input: seq<byte>)
    requires cs.Regular() && d.staged == []
    ensures Chunks(cs, mode, d, input) == Encodings(cs, mode, d.inState, d.outState, input)
  {
  }

  lemma SomethingStaged(cs: Charsets, mode: Mode, d: Desc, input: seq<byte>, bytes: seq<byte>)
    requires cs.Regular() && bytes != []
    ensures Chunks(cs, mode, d.(staged := bytes), input) ==
            [Chunk(bytes, 0)] + Encodings(cs, mode, d.inState, d.outState, input)
    ensures Legal(cs, mode, d.(staged := bytes), input) == Legal(cs, mode, d, input)
  {
  }

  lemma OneMoreShape(cs: Charsets, mode: Mode, d: Desc, wc: nat, rest: seq<byte>, room: nat)
    requires cs.Regular() && Write(cs, mode, d.outState, wc).encoded.bytes.Some?
    ensures var w := Write(cs, mode, d.outState, wc);
            var bytes, d' := w.encoded.bytes.value, d.(outState := w.encoded.next);
            OneMore(cs, mode, d, wc, rest, room) ==
            if room >= MB_LEN_MAX then OneCall(cs, mode, d', rest, room - |bytes|).After(bytes, [bytes], w.inexact)
            else OneCall(cs, mode, d'.(staged := bytes), rest, room).After([], [bytes], w.inexact)
  {
    hide OneCall, Write;
  }

  lemma EncodingsMore(cs: Charsets, mode: Mode, d: Desc, wc: nat, rest: seq<byte>)
    requires cs.Regular() && Write(cs, mode, d.outState, wc).encoded.bytes.Some?
    ensures var w := Write(cs, mode, d.outState, wc);
            && EncodingsOn(cs, mode, d.inState, d.outState, wc, rest) ==
               [Chunk(w.encoded.bytes.value, w.inexact)] + Encodings(cs, mode, d.inState, w.encoded.next, rest)
            && ConvertOn(cs, mode, d.inState, d.outState, wc, rest).legal ==
               Legal(cs, mode, d.(outState := w.encoded.next), rest)
  {
  }

  // ----- the same without going through the chunks -----

  predicate EndsAt(chunks: seq<Chunk>, room: nat, m: nat) {
    m <= |chunks| && |BytesOf(chunks[..m])| == room
  }

  /** The room ends exactly where one of the chunks does. */
  ghost predicate EndsChunk(chunks: seq<Chunk>, room: nat) {
    exists m: nat :: EndsAt(chunks, room, m)
  }

  /** How many chunks reach into the room or fill it. */
  function Taken(chunks: seq<Chunk>, room: nat): (m: nat)
    ensures m <= |chunks|
    decreases |chunks|
  {
    if room == 0 || chunks == [] then 0
    else if |chunks[0].bytes| >= room then 1
    else 1 + Taken(chunks[1..], room - |chunks[0].bytes|)
  }

  lemma PrefixStep(chunks: seq<Chunk>, m: nat)
    requires 0 < m <= |chunks|
    ensures BytesOf(chunks[..m]) == chunks[0].bytes + BytesOf(chunks[1..][..m - 1])
    ensures ReplacedIn(chunks[..m]) == chunks[0].inexact + ReplacedIn(chunks[1..][..m - 1])
  {
    assert chunks[..m][1..] == chunks[1..][..m - 1];
  }

  lemma EndsStep(chunks: seq<Chunk>, room: nat)
    requires chunks != []
    ensures var n := |chunks[0].bytes|;
            EndsChunk(chunks, room) <==> room == 0 || (n <= room && EndsChunk(chunks[1..], room - n))
  {
    var n := |chunks[0].bytes|;
    hide BytesOf, ReplacedIn;
    NoBytes(chunks);
    if EndsChunk(chunks, room) {
      var m: nat :| EndsAt(chunks, room, m);
      if m > 0 {
        PrefixStep(chunks, m);
        assert EndsAt(chunks[1..], room - n, m - 1);
      }
    }
    if room == 0 {
      assert EndsAt(chunks, 0, 0);
    } else if n <= room && EndsChunk(chunks[1..], room - n) {
      var m: nat :| EndsAt(chunks[1..], room - n, m);
      PrefixStep(chunks, m + 1);
      assert EndsAt(chunks, room, m + 1);
    }
  }

  lemma NoBytes(chunks: seq<Chunk>)
    ensures BytesOf(chunks[..0]) == [] && ReplacedIn(chunks[..0]) == 0
    ensures EndsChunk([], 0) && forall room: nat :: EndsChunk([], room) ==> room == 0
  {
    var none: seq<Chunk> := [];
    assert none[..0] == none;
    assert EndsAt(none, 0, 0);
  }

  /** The chunks taken are those that begin inside the room: each smaller number leaves some of it. */
  lemma {:induction false} TakenIs(chunks: seq<Chunk>, room: nat, j: nat)
    ensures Taken(chunks, room) < |chunks| ==> |BytesOf(chunks[..Taken(chunks, room)])| >= room
    ensures j < Taken(chunks, room) ==> |BytesOf(chunks[..j])| < room
    decreases |chunks|
  {
    NoBytes(chunks);
    if room > 0 && chunks != [] {
      var c, t := chunks[0], chunks[1..];
      PrefixStep(chunks, Taken(chunks, room));
      NoBytes(t);
      if 0 < j <= |chunks| {
        PrefixStep(chunks, j);
      }
      hide BytesOf, ReplacedIn, EndsChunk;
      if |c.bytes| < room {
        TakenIs(t, room - |c.bytes|, if j > 0 then j - 1 else 0);
      }
    }
  }

  /** What is left of the chunks: those not taken, behind the one taken that does not fit. */
  function Remaining(chunks: seq<Chunk>, room: nat): seq<Chunk> {
    var m := Taken(chunks, room);
    (if m > 0 && |BytesOf(chunks[..m])| > room then [Chunk(chunks[m - 1].bytes, 0)] else []) + chunks[m..]
  }

  /** A call ends in EILSEQ: everything fits, and something behind it cannot be converted. */
  ghost predicate Fails(chunks: seq<Chunk>, legal: bool, room: nat) {
    !EndsChunk(chunks, room) && |BytesOf(chunks)| < room && !legal
  }

  /** What a call returns, `replaced` being the count when it converts. */
  ghost function StatusOf(chunks: seq<Chunk>, legal: bool, room: nat, replaced: nat): Status {
    if EndsChunk(chunks, room) then Converted(replaced)
    else if |BytesOf(chunks)| > room then E2BIG
    else if legal then Converted(replaced) else EILSEQ
  }

  lemma RemainingStep(chunks: seq<Chunk>, room: nat)
    requires chunks != [] && 0 < room && |chunks[0].bytes| <= room
    ensures var n := |chunks[0].bytes|;
            && Taken(chunks, room) == 1 + Taken(chunks[1..], room - n)
            && Remaining(chunks, room) == Remaining(chunks[1..], room - n)
  {
    var t, r := chunks[1..], room - |chunks[0].bytes|;
    var m := Taken(t, r);
    assert Taken(chunks, room) == 1 + m;
    PrefixStep(chunks, m + 1);
    NoBytes(t);
    hide Taken, BytesOf, ReplacedIn;
    assert chunks[m + 1..] == t[m..];
    assert m > 0 ==> chunks[m] == t[m - 1];
  }

  /** The decision about a room, closed form and step by step. */
  ghost predicate Exact(chunks: seq<Chunk>, legal: bool, room: nat, t: Take) {
    && t.replaced == ReplacedIn(chunks[..Taken(chunks, room)])
    && t.left == Remaining(chunks, room)
    && t.status == StatusOf(chunks, legal, room, t.replaced)
  }

  lemma {:induction false} TakeRoomExact(chunks: seq<Chunk>, legal: bool, room: nat)
    ensures Exact(chunks, legal, room, TakeRoom(chunks, legal, room))
    decreases |chunks|
  {
    if room > 0 && chunks != [] {
      if |chunks[0].bytes| <= room {
        TakeRoomExact(chunks[1..], legal, room - |chunks[0].bytes|);
        ExactFitting(chunks, legal, room);
      } else {
        ExactOver(chunks, legal, room);
      }
    } else {
      NoBytes(chunks);
      assert room == 0 ==> EndsAt(chunks, 0, 0);
      assert chunks[0..] == chunks;
    }
  }

  lemma ExactFitting(chunks: seq<Chunk>, legal: bool, room: nat)
    requires chunks != [] && 0 < room && |chunks[0].bytes| <= room
    requires var left := room - |chunks[0].bytes|;
             Exact(chunks[1..], legal, left, TakeRoom(chunks[1..], legal, left))
    ensures Exact(chunks, legal, room, TakeRoom(chunks, legal, room))
  {
    hide TakeRoom, BytesOf, ReplacedIn, EndsChunk, Taken, Remaining, StatusOf;
    var c, t := chunks[0], chunks[1..];
    assert chunks == [c] + t;
    TakeFitting(c, t, legal, room);
    RemainingStep(chunks, room);
    PrefixStep(chunks, Taken(chunks, room));
    StatusStep(chunks, legal, room, TakeRoom(t, legal, room - |c.bytes|).replaced);
  }

  lemma StatusStep(chunks: seq<Chunk>, legal: bool, room: nat, replaced: nat)
    requires chunks != [] && 0 < room && |chunks[0].bytes| <= room
    ensures var c := chunks[0];
            var s := StatusOf(chunks[1..], legal, room - |c.bytes|, replaced);
            StatusOf(chunks, legal, room, c.inexact + replaced) ==
            if s.Converted? then Converted(c.inexact + s.inexact) else s
  {
    EndsStep(chunks, room);
    assert |BytesOf(chunks)| == |chunks[0].bytes| + |BytesOf(chunks[1..])|;
    hide BytesOf, EndsChunk;
  }

  lemma ExactOver(chunks: seq<Chunk>, legal: bool, room: nat)
    requires chunks != [] && 0 < room < |chunks[0].bytes|
    ensures Exact(chunks, legal, room, TakeRoom(chunks, legal, room))
  {
    EndsStep(chunks, room);
    PrefixStep(chunks, 1);
    NoBytes(chunks[1..]);
    assert |BytesOf(chunks)| >= |chunks[0].bytes|;
    hide BytesOf, ReplacedIn, EndsChunk;
  }

  /**
   * Input and room decide what a call returns. If the room ends where a chunk does, the call succeeds;
   * otherwise it succeeds or fails with the conversion when everything fits, and ends in E2BIG when not.
   * It replaces the characters whose encodings begin inside the room.
   */
  lemma CallByRoom(cs: Charsets, mode: Mode, d: Desc, input: seq<byte>, room: nat)
    requires cs.Regular()
    ensures var call := OneCall(cs, mode, d, input, room);
            var chunks, legal := Chunks(cs, mode, d, input), Legal(cs, mode, d, input);
            && call.replaced == ReplacedIn(chunks[..Taken(chunks, room)])
            && call.status == StatusOf(chunks, legal, room, call.replaced)
            && (call.status == EILSEQ <==> Fails(chunks, legal, room))
            && (call.status != EILSEQ ==>
                  && Chunks(cs, mode, call.desc, call.rest) == Remaining(chunks, room)
                  && Legal(cs, mode, call.desc, call.rest) == legal)
  {
    hide OneCall, Chunks, Legal, TakeRoom, Remaining, Taken, BytesOf, ReplacedIn, EndsChunk;
    var chunks, legal := Chunks(cs, mode, d, input), Legal(cs, mode, d, input);
    CallTakes(cs, mode, d, input, room);
    TakeRoomExact(chunks, legal, room);
    WholeEnds(chunks);
  }

  lemma WholeEnds(chunks: seq<Chunk>)
    ensures EndsChunk(chunks, |BytesOf(chunks)|)
  {
    assert chunks[..|chunks|] == chunks;
    assert EndsAt(chunks, |BytesOf(chunks)|, |chunks|);
  }

  // ----- counts over a run -----

  /** The calls of a run one by one, as the caller sees them return. */
  function Trace(cs: Charsets, mode: Mode, d: Desc, input: seq<byte>, rooms: seq<nat>): seq<Call>
    requires cs.Regular()
    decreases |rooms|
  {
    if rooms == [] then []
    else
      var call := OneCall(cs, mode, d, input, rooms[0]);
      [call] + if call.status == EILSEQ then [] else Trace(cs, mode, call.desc, call.rest, rooms[1..])
  }

  /** The sum of the counts that these calls return. */
  function Reported(calls: seq<Call>): nat {
    if calls == [] then 0
    else (if calls[0].status.Converted? then calls[0].status.inexact else 0) + Reported(calls[1..])
  }

  /**
   * Some call is handed a room in which the encoding of a replaced character begins and which it
   * leaves with an error, because the room ends inside a chunk or the input cannot be converted on.
   */
  ghost predicate CountIsLost(chunks: seq<Chunk>, legal: bool, rooms: seq<nat>)
    decreases |rooms|
  {
    rooms != [] &&
    var room := rooms[0];
    || (!EndsChunk(chunks, room) && (|BytesOf(chunks)| > room || !legal)
        && ReplacedIn(chunks[..Taken(chunks, room)]) > 0)
    || (!Fails(chunks, legal, room) && CountIsLost(Remaining(chunks, room), legal, rooms[1..]))
  }

  lemma CallErrs(chunks: seq<Chunk>, legal: bool, room: nat, replaced: nat)
    ensures StatusOf(chunks, legal, room, replaced).Converted? <==>
            EndsChunk(chunks, room) || (|BytesOf(chunks)| <= room && legal)
  {
    WholeEnds(chunks);
  }

  /**
   * What the input and the rooms say about the counts of a run: they fall short of the characters
   * replaced exactly when a count is lost.
   */
  lemma {:induction false} ReportedShort(cs: Charsets, mode: Mode, d: Desc, input: seq<byte>, rooms: seq<nat>)
    requires cs.Regular()
    ensures var calls, replaced := Trace(cs, mode, d, input, rooms), Calls(cs, mode, d, input, rooms).replaced;
            && Reported(calls) <= replaced
            && (Reported(calls) < replaced <==>
                CountIsLost(Chunks(cs, mode, d, input), Legal(cs, mode, d, input), rooms))
    decreases |rooms|
  {
    hide OneCall, ConvertAll, Chunks, Legal, Remaining, Taken, EndsChunk, BytesOf, ReplacedIn, Fails, StatusOf;
    if rooms != [] {
      var chunks, legal := Chunks(cs, mode, d, input), Legal(cs, mode, d, input);
      var call := OneCall(cs, mode, d, input, rooms[0]);
      InexactCounted(cs, mode, d, input, rooms[0]);
      CallByRoom(cs, mode, d, input, rooms[0]);
      CallErrs(chunks, legal, rooms[0], call.replaced);
      var calls := Trace(cs, mode, d, input, rooms);
      if call.status == EILSEQ {
        assert calls == [call] && calls[1..] == [];
      } else {
        ReportedShort(cs, mode, call.desc, call.rest, rooms[1..]);
        assert calls[1..] == Trace(cs, mode, call.desc, call.rest, rooms[1..]);
      }
    }
  }

  /** A charset that lacks the character 1, writes '?' in one byte and everything else in two. */
  function LacksOne(): Charsets {
    Charsets((s: MbState, input: seq<byte>) => if input == [] then Incomplete(s) else Char(1, input[0] as nat, s),
             (s: MbState, wc: nat) =>
               Encoded(if wc == 1 then None else if wc == QUESTION then Some([63]) else Some([7, 7]), s))
  }

  lemma LacksOneFacts()
    ensures LacksOne().Regular()
    ensures LacksOne().mbtowc(0, [1, 2]) == Char(1, 1, 0) && LacksOne().mbtowc(0, [2]) == Char(1, 2, 0)
    ensures Write(LacksOne(), Translit, 0, 1) == Written(Encoded(Some([63]), 0), 1)
    ensures Write(LacksOne(), Translit, 0, 2) == Written(Encoded(Some([7, 7]), 0), 0)
  {
  }

  /** With room for two bytes, a call replaces its first character, delivers the '?', and ends in E2BIG. */
  lemma CountLost()
    ensures LacksOne().Regular()
    ensures OneCall(LacksOne(), Translit, Desc([], 0, 0), [1, 2], 2) ==
            Call([63], [[63], [7, 7]], Desc([7, 7], 0, 0), [], E2BIG, 1)
  {
    LacksOneFacts();
    hide OneCall, LacksOne, Write, Charsets.Regular;
    var cs := LacksOne();
    var d, input: seq<byte> := Desc([], 0, 0), [1, 2];
    StepChar(cs, Translit, d, input, 2);
    assert input[1..] == [2];
    StepDrain(cs, Translit, Desc([63], 0, 0), [2], 2);
    StepChar(cs, Translit, d, [2], 1);
    assert [2 as byte][1..] == [];
    StepFull(cs, Translit, Desc([7, 7], 0, 0), [], 1);
  }
}
