// Whole runs of `iconv` calls: nothing is lost, repeated or reordered, however small the output buffers.
module IconvRuns {
  import opened Bytes
  import opened IconvLibrary

  lemma {:induction false} ConcatAppend(a: seq<seq<byte>>, b: seq<seq<byte>>)
    ensures Concat(a + b) == Concat(a) + Concat(b)
  {
    if a == [] {
      assert a + b == b;
    } else {
      assert (a + b)[1..] == a[1..] + b;
      calc {
        Concat(a + b);
        a[0] + Concat(a[1..] + b);
        { ConcatAppend(a[1..], b); }
        a[0] + (Concat(a[1..]) + Concat(b));
        Concat(a) + Concat(b);
      }
    }
  }

  /** What is still to come from a descriptor with this input left, with no limit on the output. */
  function Future(cs: Charsets, mode: Mode, d: Desc, input: seq<byte>): seq<byte>
    requires cs.Regular()
  {
    d.staged + ConvertAll(cs, mode, d.inState, d.outState, input).bytes
  }

  /** Starting with these bytes staged, every encoded character was delivered or is staged, once and in order. */
  ghost predicate Balanced(staged: seq<byte>, call: Call) {
    staged + Concat(call.encodings) == call.delivered + call.desc.staged
  }

  /** Balanced parts, one handing its staged bytes to the next, make a balanced whole. */
  lemma BalanceChain(staged: seq<byte>, bytes: seq<byte>, encs: seq<seq<byte>>, handed: seq<byte>,
                     next: Call, inexact: nat)
    requires staged + Concat(encs) == bytes + handed && Balanced(handed, next)
    ensures Balanced(staged, next.After(bytes, encs, inexact))
  {
    ConcatAppend(encs, next.encodings);
    hide Concat;
    calc {
      staged + Concat(encs + next.encodings);
      (staged + Concat(encs)) + Concat(next.encodings);
      bytes + (handed + Concat(next.encodings));
      bytes + next.delivered + next.desc.staged;
    }
  }

  lemma BalanceThen(staged: seq<byte>, call: Call, next: Call)
    requires Balanced(staged, call) && Balanced(call.desc.staged, next)
    ensures Balanced(staged, call.Then(next))
  {
    hide Concat;
    BalanceChain(staged, call.delivered, call.encodings, call.desc.staged, next, 0);
  }

  lemma ConcatOne(part: seq<byte>)
    ensures Concat([part]) == part && Concat([]) == []
  {
  }

  /** Every encoded character of a call is delivered or staged, once and in order. */
  lemma {:induction false} EncodingsDelivered(cs: Charsets, mode: Mode, d: Desc, input: seq<byte>, room: nat)
    requires cs.Regular()
    ensures Balanced(d.staged, OneCall(cs, mode, d, input, room))
    decreases |input|, |d.staged| + 1
  {
    if room == 0 || |d.staged| > room || (d.staged == [] && input == []) {
    } else if d.staged != [] {
      StepDrain(cs, mode, d, input, room);
      hide OneCall, Balanced;
      var next := OneCall(cs, mode, d.(staged := []), input, room - |d.staged|);
      EncodingsDelivered(cs, mode, d.(staged := []), input, room - |d.staged|);
      BalanceChain(d.staged, d.staged, [], [], next, 0);
    } else {
      match cs.mbtowc(d.inState, input)
      case Invalid(next) =>
      case Incomplete(next) =>
      case NulChar(_, next) => OneMoreDelivered(cs, mode, d.(inState := next), 0, [], room);
      case Char(n, wc, next) => OneMoreDelivered(cs, mode, d.(inState := next), wc, input[n..], room);
    }
  }

  lemma {:induction false} OneMoreDelivered(cs: Charsets, mode: Mode, d: Desc, wc: nat, rest: seq<byte>, room: nat)
    requires cs.Regular() && d.staged == []
    ensures Balanced([], OneMore(cs, mode, d, wc, rest, room))
    decreases |rest| + 1, 0
  {
    var w := Write(cs, mode, d.outState, wc);
    if w.encoded.bytes.Some? {
      hide OneCall, Balanced;
      var bytes := w.encoded.bytes.value;
      var d' := d.(outState := w.encoded.next);
      ConcatOne(bytes);
      if room >= MB_LEN_MAX {
        EncodingsDelivered(cs, mode, d', rest, room - |bytes|);
        BalanceChain([], bytes, [bytes], [], OneCall(cs, mode, d', rest, room - |bytes|), w.inexact);
      } else {
        EncodingsDelivered(cs, mode, d'.(staged := bytes), rest, room);
        BalanceChain([], [], [bytes], bytes, OneCall(cs, mode, d'.(staged := bytes), rest, room), w.inexact);
      }
    } else {
      ConcatOne([]);
    }
  }

  /**
   * The encodings and replacements of a call lead the unlimited conversion, and what it leaves converts
   * to the rest of it; a call that converts its input reports what it replaced.
   */
  ghost predicate Leads(cs: Charsets, mode: Mode, call: Call, whole: Whole)
    requires cs.Regular()
  {
    && (call.status.Converted? ==> call.status.inexact == call.replaced)
    && if call.status == EILSEQ then
         && Concat(call.encodings) == whole.bytes && !whole.legal && call.desc.staged == []
         && call.replaced == whole.inexact
       else
         whole == ConvertAll(cs, mode, call.desc.inState, call.desc.outState, call.rest)
                    .After(Concat(call.encodings), call.replaced)
  }

  lemma LeadChain(cs: Charsets, mode: Mode, bytes: seq<byte>, encs: seq<seq<byte>>, next: Call, inexact: nat,
                  tail: Whole)
    requires cs.Regular() && Leads(cs, mode, next, tail)
    ensures Leads(cs, mode, next.After(bytes, encs, inexact), tail.After(Concat(encs), inexact))
  {
    ConcatAppend(encs, next.encodings);
    hide Concat, ConvertAll;
    var later := ConvertAll(cs, mode, next.desc.inState, next.desc.outState, next.rest).bytes;
    assert Concat(encs) + (Concat(next.encodings) + later) == Concat(encs) + Concat(next.encodings) + later;
  }

  lemma {:induction false} EncodingsLead(cs: Charsets, mode: Mode, d: Desc, input: seq<byte>, room: nat)
    requires cs.Regular()
    ensures Leads(cs, mode, OneCall(cs, mode, d, input, room), ConvertAll(cs, mode, d.inState, d.outState, input))
    decreases |input|, |d.staged| + 1
  {
    ConcatOne([]);
    if room == 0 || |d.staged| > room || (d.staged == [] && input == []) {
    } else if d.staged != [] {
      StepDrain(cs, mode, d, input, room);
      hide OneCall, Leads, ConvertAll;
      EncodingsLead(cs, mode, d.(staged := []), input, room - |d.staged|);
      var next := OneCall(cs, mode, d.(staged := []), input, room - |d.staged|);
      var whole := ConvertAll(cs, mode, d.inState, d.outState, input);
      LeadChain(cs, mode, d.staged, [], next, 0, whole);
      assert whole.After([], 0) == whole;
    } else {
      match cs.mbtowc(d.inState, input)
      case Invalid(next) =>
      case Incomplete(next) =>
      case NulChar(_, next) => OneMoreLeads(cs, mode, d.(inState := next), 0, [], room);
      case Char(n, wc, next) => OneMoreLeads(cs, mode, d.(inState := next), wc, input[n..], room);
    }
  }

  lemma {:induction false} OneMoreLeads(cs: Charsets, mode: Mode, d: Desc, wc: nat, rest: seq<byte>, room: nat)
    requires cs.Regular() && d.staged == []
    ensures Leads(cs, mode, OneMore(cs, mode, d, wc, rest, room), ConvertOn(cs, mode, d.inState, d.outState, wc, rest))
    decreases |rest| + 1, 0
  {
    ConcatOne([]);
    var w := Write(cs, mode, d.outState, wc);
    if w.encoded.bytes.Some? {
      hide OneCall, Leads, ConvertAll;
      var bytes := w.encoded.bytes.value;
      var d' := d.(outState := w.encoded.next);
      var tail := ConvertAll(cs, mode, d.inState, w.encoded.next, rest);
      ConcatOne(bytes);
      if room >= MB_LEN_MAX {
        EncodingsLead(cs, mode, d', rest, room - |bytes|);
        LeadChain(cs, mode, bytes, [bytes], OneCall(cs, mode, d', rest, room - |bytes|), w.inexact, tail);
      } else {
        EncodingsLead(cs, mode, d'.(staged := bytes), rest, room);
        LeadChain(cs, mode, [], [bytes], OneCall(cs, mode, d'.(staged := bytes), rest, room), w.inexact, tail);
      }
    }
  }

  /**
   * The characters a call replaces, and those that what it leaves still has to replace, are all there
   * are. It reports them when it converts its input; a call that ends in an error reports none.
   */
  lemma InexactCounted(cs: Charsets, mode: Mode, d: Desc, input: seq<byte>, room: nat)
    requires cs.Regular()
    ensures var call := OneCall(cs, mode, d, input, room);
            && ConvertAll(cs, mode, d.inState, d.outState, input).inexact ==
               call.replaced + StillToReplace(cs, mode, call)
            && (call.status.Converted? ==> call.status.inexact == call.replaced)
    ensures mode == Default ==> ConvertAll(cs, mode, d.inState, d.outState, input).inexact == 0
  {
    EncodingsLead(cs, mode, d, input, room);
    if mode == Default {
      DefaultIsExact(cs, d.inState, d.outState, input);
    }
  }

  /** How many characters converting on replaces; after an illegal one there is no going on. */
  function StillToReplace(cs: Charsets, mode: Mode, call: Call): nat
    requires cs.Regular()
  {
    if call.status == EILSEQ then 0
    else ConvertAll(cs, mode, call.desc.inState, call.desc.outState, call.rest).inexact
  }

  lemma {:induction false} DefaultIsExact(cs: Charsets, inState: MbState, outState: MbState, input: seq<byte>)
    requires cs.Regular()
    ensures ConvertAll(cs, Default, inState, outState, input).inexact == 0
    decreases |input|
  {
    if input != [] {
      match cs.mbtowc(inState, input)
      case Invalid(_) =>
      case Incomplete(_) =>
      case NulChar(_, next) => DefaultIsExact(cs, next, Write(cs, Default, outState, 0).encoded.next, []);
      case Char(n, wc, next) => DefaultIsExact(cs, next, Write(cs, Default, outState, wc).encoded.next, input[n..]);
    }
  }

  lemma Exchange(a: seq<byte>, b: seq<byte>, c: seq<byte>, d: seq<byte>, e: seq<byte>)
    requires a + b == c + d
    ensures c + (d + e) == a + (b + e)
  {
    assert c + (d + e) == c + d + e && a + (b + e) == a + b + e;
  }

  /** One call conserves the output: what it delivers, followed by what is still to come, is what was to come. */
  lemma CallConserves(cs: Charsets, mode: Mode, d: Desc, input: seq<byte>, room: nat)
    requires cs.Regular()
    ensures var call := OneCall(cs, mode, d, input, room);
            if call.status == EILSEQ then call.delivered == Future(cs, mode, d, input) && call.desc.staged == []
            else call.delivered + Future(cs, mode, call.desc, call.rest) == Future(cs, mode, d, input)
  {
    EncodingsDelivered(cs, mode, d, input, room);
    EncodingsLead(cs, mode, d, input, room);
    hide OneCall, ConvertAll, Concat;
    var call := OneCall(cs, mode, d, input, room);
    if call.status == EILSEQ {
      assert call.delivered + [] == call.delivered;
    } else {
      Exchange(d.staged, Concat(call.encodings), call.delivered, call.desc.staged,
               ConvertAll(cs, mode, call.desc.inState, call.desc.outState, call.rest).bytes);
    }
  }

  /** A call stays within its room and its staging buffer, and leaves a suffix of its input. */
  ghost predicate Bounded(call: Call, input: seq<byte>, room: nat) {
    && |call.delivered| <= room && |call.desc.staged| <= MB_LEN_MAX
    && |call.rest| <= |input| && call.rest == input[|input| - |call.rest|..]
  }

  lemma BoundChain(next: Call, bytes: seq<byte>, encs: seq<seq<byte>>, inexact: nat,
                   input: seq<byte>, n: nat, room: nat)
    requires n <= |input| && |bytes| <= room && Bounded(next, input[n..], room - |bytes|)
    ensures Bounded(next.After(bytes, encs, inexact), input, room)
  {
    var t := input[n..];
    assert t[|t| - |next.rest|..] == input[|input| - |next.rest|..];
  }

  lemma {:induction false} CallBounds(cs: Charsets, mode: Mode, d: Desc, input: seq<byte>, room: nat)
    requires cs.Regular() && |d.staged| <= MB_LEN_MAX
    ensures Bounded(OneCall(cs, mode, d, input, room), input, room)
    decreases |input|, |d.staged| + 1
  {
    if room == 0 || |d.staged| > room || (d.staged == [] && input == []) {
    } else if d.staged != [] {
      StepDrain(cs, mode, d, input, room);
      hide OneCall, Bounded;
      CallBounds(cs, mode, d.(staged := []), input, room - |d.staged|);
      assert input[0..] == input;
      BoundChain(OneCall(cs, mode, d.(staged := []), input, room - |d.staged|), d.staged, [], 0, input, 0, room);
    } else {
      match cs.mbtowc(d.inState, input)
      case Invalid(next) =>
      case Incomplete(next) =>
      case NulChar(_, next) =>
        assert input[|input|..] == [];
        OneMoreBounds(cs, mode, d.(inState := next), 0, input, |input|, room);
      case Char(n, wc, next) => OneMoreBounds(cs, mode, d.(inState := next), wc, input, n, room);
    }
  }

  lemma {:induction false} OneMoreBounds(cs: Charsets, mode: Mode, d: Desc, wc: nat,
                                         input: seq<byte>, n: nat, room: nat)
    requires cs.Regular() && d.staged == [] && 0 < n <= |input|
    ensures Bounded(OneMore(cs, mode, d, wc, input[n..], room), input, room)
    ensures |OneMore(cs, mode, d, wc, input[n..], room).rest| <= |input| - n
    decreases |input| - n + 1, 0
  {
    var w := Write(cs, mode, d.outState, wc);
    if w.encoded.bytes.Some? {
      hide OneCall;
      var bytes := w.encoded.bytes.value;
      var d' := d.(outState := w.encoded.next);
      if room >= MB_LEN_MAX {
        CallBounds(cs, mode, d', input[n..], room - |bytes|);
        BoundChain(OneCall(cs, mode, d', input[n..], room - |bytes|), bytes, [bytes], w.inexact, input, n, room);
      } else {
        CallBounds(cs, mode, d'.(staged := bytes), input[n..], room);
        BoundChain(OneCall(cs, mode, d'.(staged := bytes), input[n..], room), [], [bytes], w.inexact, input, n, room);
      }
    }
  }

  // ----- runs -----

  /** Calls resumed one after the other with the given rooms, until the list ends or a call fails. */
  function Calls(cs: Charsets, mode: Mode, d: Desc, input: seq<byte>, rooms: seq<nat>): Call
    requires cs.Regular()
    decreases |rooms|
  {
    if rooms == [] then Stopped(d, input, Converted(0))
    else
      var call := OneCall(cs, mode, d, input, rooms[0]);
      if call.status == EILSEQ then call
      else call.Then(Calls(cs, mode, call.desc, call.rest, rooms[1..]))
  }

  /** The run is over: it failed, or nothing is left to convert or deliver. */
  predicate Finished(r: Call) {
    r.status == EILSEQ || (r.rest == [] && r.desc.staged == [])
  }

  /** Over any run, bytes delivered followed by what is still to come stay the same. */
  lemma {:induction false} RunConserves(cs: Charsets, mode: Mode, d: Desc, input: seq<byte>, rooms: seq<nat>)
    requires cs.Regular()
    ensures var r := Calls(cs, mode, d, input, rooms);
            if r.status == EILSEQ then r.delivered == Future(cs, mode, d, input) && r.desc.staged == []
            else r.delivered + Future(cs, mode, r.desc, r.rest) == Future(cs, mode, d, input)
    decreases |rooms|
  {
    if rooms != [] {
      CallConserves(cs, mode, d, input, rooms[0]);
      hide OneCall, Future;
      var call := OneCall(cs, mode, d, input, rooms[0]);
      if call.status != EILSEQ {
        RunConserves(cs, mode, call.desc, call.rest, rooms[1..]);
        var later := Calls(cs, mode, call.desc, call.rest, rooms[1..]);
        ThreeParts(call.delivered, later.delivered, Future(cs, mode, later.desc, later.rest));
      }
    }
  }

  lemma ThreeParts(a: seq<byte>, b: seq<byte>, c: seq<byte>)
    ensures a + (b + c) == a + b + c
  {
  }

  /** Over any run, bytes delivered followed by bytes staged are the encodings of the characters converted so far. */
  lemma {:induction false} RunDelivers(cs: Charsets, mode: Mode, d: Desc, input: seq<byte>, rooms: seq<nat>)
    requires cs.Regular()
    ensures Balanced(d.staged, Calls(cs, mode, d, input, rooms))
    decreases |rooms|
  {
    if rooms == [] {
      ConcatOne([]);
    } else {
      EncodingsDelivered(cs, mode, d, input, rooms[0]);
      var call := OneCall(cs, mode, d, input, rooms[0]);
      if call.status != EILSEQ {
        RunDelivers(cs, mode, call.desc, call.rest, rooms[1..]);
        BalanceThen(d.staged, call, Calls(cs, mode, call.desc, call.rest, rooms[1..]));
      }
    }
  }

  /** Over any run, the characters replaced and those still to be replaced are all there are. */
  lemma {:induction false} RunReplaces(cs: Charsets, mode: Mode, d: Desc, input: seq<byte>, rooms: seq<nat>)
    requires cs.Regular()
    ensures var r := Calls(cs, mode, d, input, rooms);
            ConvertAll(cs, mode, d.inState, d.outState, input).inexact == r.replaced + StillToReplace(cs, mode, r)
    decreases |rooms|
  {
    hide OneCall, ConvertAll;
    if rooms != [] {
      InexactCounted(cs, mode, d, input, rooms[0]);
      var call := OneCall(cs, mode, d, input, rooms[0]);
      if call.status != EILSEQ {
        RunReplaces(cs, mode, call.desc, call.rest, rooms[1..]);
      }
    }
  }

  /** Calls that are handed any input at all, each its own, whether or not the one before failed. */
  function Stream(cs: Charsets, mode: Mode, d: Desc, inputs: seq<seq<byte>>, rooms: seq<nat>): Call
    requires cs.Regular() && |inputs| == |rooms|
    decreases |inputs|
  {
    if inputs == [] then Stopped(d, [], Converted(0))
    else
      var call := OneCall(cs, mode, d, inputs[0], rooms[0]);
      call.Then(Stream(cs, mode, call.desc, inputs[1..], rooms[1..]))
  }

  /** Whatever the inputs and failures of the calls, each character converted is delivered once and in order. */
  lemma {:induction false} StreamDelivers(cs: Charsets, mode: Mode, d: Desc, inputs: seq<seq<byte>>, rooms: seq<nat>)
    requires cs.Regular() && |inputs| == |rooms| && |d.staged| <= MB_LEN_MAX
    ensures Balanced(d.staged, Stream(cs, mode, d, inputs, rooms))
    ensures |Stream(cs, mode, d, inputs, rooms).desc.staged| <= MB_LEN_MAX
    decreases |inputs|
  {
    if inputs == [] {
      ConcatOne([]);
    } else {
      EncodingsDelivered(cs, mode, d, inputs[0], rooms[0]);
      CallBounds(cs, mode, d, inputs[0], rooms[0]);
      hide OneCall;
      var call := OneCall(cs, mode, d, inputs[0], rooms[0]);
      StreamDelivers(cs, mode, call.desc, inputs[1..], rooms[1..]);
      BalanceThen(d.staged, call, Stream(cs, mode, call.desc, inputs[1..], rooms[1..]));
    }
  }

  lemma NoFuture(cs: Charsets, mode: Mode, d: Desc)
    requires cs.Regular() && d.staged == []
    ensures Future(cs, mode, d, []) == []
  {
  }

  /** A finished run delivers exactly what one conversion without limits yields. */
  lemma FinishedDelivers(cs: Charsets, mode: Mode, d: Desc, input: seq<byte>, rooms: seq<nat>)
    requires cs.Regular() && Finished(Calls(cs, mode, d, input, rooms))
    ensures Calls(cs, mode, d, input, rooms).delivered == Future(cs, mode, d, input)
  {
    hide Calls, Future;
    RunConserves(cs, mode, d, input, rooms);
    var r := Calls(cs, mode, d, input, rooms);
    if r.status != EILSEQ {
      NoFuture(cs, mode, r.desc);
    }
  }

  /** Two finished runs over the same input deliver the same bytes, whatever the sizes of their output buffers. */
  lemma RoomsDoNotMatter(cs: Charsets, mode: Mode, d: Desc, input: seq<byte>, rooms1: seq<nat>, rooms2: seq<nat>)
    requires cs.Regular()
    requires Finished(Calls(cs, mode, d, input, rooms1)) && Finished(Calls(cs, mode, d, input, rooms2))
    ensures Calls(cs, mode, d, input, rooms1).delivered == Calls(cs, mode, d, input, rooms2).delivered
    ensures Calls(cs, mode, d, input, rooms1).delivered == Future(cs, mode, d, input)
  {
    FinishedDelivers(cs, mode, d, input, rooms1);
    FinishedDelivers(cs, mode, d, input, rooms2);
  }

  /** A call with room for everything that could come finishes the conversion. */
  lemma {:induction false} EnoughRoom(cs: Charsets, mode: Mode, d: Desc, input: seq<byte>, room: nat)
    requires cs.Regular() && room >= |d.staged| + MB_LEN_MAX * |input|
    ensures Finished(OneCall(cs, mode, d, input, room))
    ensures OneCall(cs, mode, d, input, room).status != E2BIG
    decreases |input|, |d.staged| + 1
  {
    if room == 0 || (d.staged == [] && input == []) {
    } else if d.staged != [] {
      EnoughRoom(cs, mode, d.(staged := []), input, room - |d.staged|);
    } else {
      match cs.mbtowc(d.inState, input)
      case Invalid(next) =>
      case Incomplete(next) =>
      case NulChar(_, next) => OneMoreEnoughRoom(cs, mode, d.(inState := next), 0, [], room);
      case Char(n, wc, next) => OneMoreEnoughRoom(cs, mode, d.(inState := next), wc, input[n..], room);
    }
  }

  lemma {:induction false} OneMoreEnoughRoom(cs: Charsets, mode: Mode, d: Desc, wc: nat, rest: seq<byte>, room: nat)
    requires cs.Regular() && d.staged == [] && room >= MB_LEN_MAX * (|rest| + 1)
    ensures Finished(OneMore(cs, mode, d, wc, rest, room))
    ensures OneMore(cs, mode, d, wc, rest, room).status != E2BIG
    decreases |rest| + 1, 0
  {
    var w := Write(cs, mode, d.outState, wc);
    if w.encoded.bytes.Some? {
      EnoughRoom(cs, mode, d.(outState := w.encoded.next), rest, room - |w.encoded.bytes.value|);
    }
  }

  /**
   * What the status of a call says: success with room to spare means that everything was consumed and
   * delivered, and E2BIG that the staged bytes do not fit the room there still is.
   */
  ghost predicate Ends(call: Call, room: nat) {
    match call.status
    case Converted(_) => |call.delivered| == room || (call.rest == [] && call.desc.staged == [])
    case E2BIG => |call.delivered| < room < |call.delivered| + |call.desc.staged|
    case EILSEQ => |call.delivered| < room && call.desc.staged == []
  }

  lemma {:induction false} StatusMeans(cs: Charsets, mode: Mode, d: Desc, input: seq<byte>, room: nat)
    requires cs.Regular()
    ensures var call := OneCall(cs, mode, d, input, room);
            Ends(call, room) && (room > 0 && call.status.Converted? ==> call.desc.staged == [])
    decreases |input|, |d.staged| + 1
  {
    if room == 0 || |d.staged| > room || (d.staged == [] && input == []) {
    } else if d.staged != [] {
      StepDrain(cs, mode, d, input, room);
      hide OneCall;
      StatusMeans(cs, mode, d.(staged := []), input, room - |d.staged|);
      StepIdleNothing(cs, mode, d.(staged := []), input);
    } else {
      match cs.mbtowc(d.inState, input)
      case Invalid(next) =>
      case Incomplete(next) =>
      case NulChar(_, next) => OneMoreStatus(cs, mode, d.(inState := next), 0, [], room);
      case Char(n, wc, next) => OneMoreStatus(cs, mode, d.(inState := next), wc, input[n..], room);
    }
  }

  lemma StepIdleNothing(cs: Charsets, mode: Mode, d: Desc, input: seq<byte>)
    requires cs.Regular()
    ensures OneCall(cs, mode, d, input, 0).desc == d
  {
    StepIdle(cs, mode, d, input, 0);
  }

  lemma {:induction false} OneMoreStatus(cs: Charsets, mode: Mode, d: Desc, wc: nat, rest: seq<byte>, room: nat)
    requires cs.Regular() && d.staged == [] && room > 0
    ensures var call := OneMore(cs, mode, d, wc, rest, room);
            Ends(call, room) && (call.status.Converted? ==> call.desc.staged == [])
    decreases |rest| + 1, 0
  {
    var w := Write(cs, mode, d.outState, wc);
    if w.encoded.bytes.Some? {
      hide OneCall;
      var bytes := w.encoded.bytes.value;
      var d' := d.(outState := w.encoded.next);
      if room >= MB_LEN_MAX {
        StatusMeans(cs, mode, d', rest, room - |bytes|);
        StepIdleNothing(cs, mode, d', rest);
      } else {
        StatusMeans(cs, mode, d'.(staged := bytes), rest, room);
      }
    }
  }

  /** How far a run is from its end. */
  function Pending(d: Desc, input: seq<byte>): nat {
    2 * |input| + if d.staged == [] then 0 else 1
  }

  /** A call with room for one character makes progress. */
  lemma Progress(cs: Charsets, mode: Mode, d: Desc, input: seq<byte>, room: nat)
    requires cs.Regular() && |d.staged| <= MB_LEN_MAX <= room && Pending(d, input) > 0
    ensures var call := OneCall(cs, mode, d, input, room);
            call.status == EILSEQ || Pending(call.desc, call.rest) < Pending(d, input)
  {
    if d.staged != [] {
      CallBounds(cs, mode, d.(staged := []), input, room - |d.staged|);
      if room > |d.staged| && input != [] {
        Shrinks(cs, mode, d.(staged := []), input, room - |d.staged|);
      }
    } else {
      Shrinks(cs, mode, d, input, room);
    }
  }

  /** With nothing staged and any room at all, a call consumes some input or fails. */
  lemma Shrinks(cs: Charsets, mode: Mode, d: Desc, input: seq<byte>, room: nat)
    requires cs.Regular() && d.staged == [] && room > 0 && input != []
    ensures var call := OneCall(cs, mode, d, input, room);
            call.status == EILSEQ || |call.rest| < |input|
  {
    match cs.mbtowc(d.inState, input)
    case Invalid(next) =>
    case Incomplete(next) =>
    case NulChar(_, next) =>
      assert input[|input|..] == [];
      OneMoreBounds(cs, mode, d.(inState := next), 0, input, |input|, room);
    case Char(n, wc, next) => OneMoreBounds(cs, mode, d.(inState := next), wc, input, n, room);
  }

  /** A run whose calls each have room for one character finishes, within two calls for each input byte and one. */
  lemma {:induction false} RunFinishes(cs: Charsets, mode: Mode, d: Desc, input: seq<byte>, rooms: seq<nat>)
    requires cs.Regular() && |d.staged| <= MB_LEN_MAX
    requires forall i :: 0 <= i < |rooms| ==> rooms[i] >= MB_LEN_MAX
    requires |rooms| >= Pending(d, input)
    ensures Finished(Calls(cs, mode, d, input, rooms))
    ensures Calls(cs, mode, d, input, rooms).delivered == Future(cs, mode, d, input)
    decreases |rooms|
  {
    if rooms != [] {
      CallBounds(cs, mode, d, input, rooms[0]);
      if Pending(d, input) > 0 {
        Progress(cs, mode, d, input, rooms[0]);
      } else {
        StepIdle(cs, mode, d, input, rooms[0]);
      }
      hide OneCall;
      var call := OneCall(cs, mode, d, input, rooms[0]);
      if call.status != EILSEQ {
        RunFinishes(cs, mode, call.desc, call.rest, rooms[1..]);
      }
    }
    FinishedDelivers(cs, mode, d, input, rooms);
  }
}
