// Commands and responses of the ROM loader, the block checksum, and writing an image to flash.
module RomLoader {
  import opened Bytes
  import opened Bits
  import opened Slip

  const DIRECTION_REQUEST: byte := 0x00
  const DIRECTION_RESPONSE: byte := 0x01
  const COMMAND_FLASH_DATA: byte := 0x03
  const MAX_BLOCK_SIZE := 0x400
  const PAD: byte := 0xFF

  // ----- headers -----

  /** `n` in `k` little-endian bytes, as `struct.pack` lays it out. */
  function LittleEndian(n: nat, k: nat): (s: seq<byte>)
    ensures |s| == k
  {
    if k == 0 then [] else [(n % 256) as byte] + LittleEndian(n / 256, k - 1)
  }

  function FromLittleEndian(s: seq<byte>): nat {
    if s == [] then 0 else s[0] as nat + 256 * FromLittleEndian(s[1..])
  }

  /** Byte `i` of the little-endian form is the one worth 256 to the power of `i`. */
  lemma {:induction false} LittleEndianByte(n: nat, k: nat, i: nat)
    requires i < k
    ensures LittleEndian(n, k)[i] as nat == Shr(n, 8 * i) % 256
    decreases i
  {
    if i > 0 {
      LittleEndianByte(n / 256, k - 1, i - 1);
      ShrEight(n, 8 * (i - 1));
    }
  }

  lemma ShrEight(n: nat, m: nat)
    ensures Shr(n / 256, m) == Shr(n, m + 8)
  {
    PowersOfTwo();
    hide Shr, Shl;
    ShrQuotient(n, 8);
    ShrAdd(n, 8, m);
  }

  lemma {:induction false} LittleEndianInverse(s: seq<byte>)
    ensures LittleEndian(FromLittleEndian(s), |s|) == s
  {
    if s != [] {
      LittleEndianInverse(s[1..]);
      var n := FromLittleEndian(s);
      assert n % 256 == s[0] as nat && n / 256 == FromLittleEndian(s[1..]);
    }
  }

  lemma {:induction false} LittleEndianValue(n: nat, k: nat)
    requires n < Pow2(8 * k)
    ensures FromLittleEndian(LittleEndian(n, k)) == n
    decreases k
  {
    if k > 0 {
      ByteLess(n, k);
      LittleEndianValue(n / 256, k - 1);
      assert LittleEndian(n, k)[1..] == LittleEndian(n / 256, k - 1);
    }
  }

  lemma ByteLess(n: nat, k: nat)
    requires k > 0 && n < Pow2(8 * k)
    ensures n / 256 < Pow2(8 * (k - 1))
  {
    PowersOfTwo();
    ShlAdd(1, 8 * (k - 1), 8);
    ShlProduct(Pow2(8 * (k - 1)), 8);
  }

  lemma FieldValues(n: nat)
    ensures n < 0x1_0000 ==> FromLittleEndian(LittleEndian(n, 2)) == n
    ensures n < 0x1_0000_0000 ==> FromLittleEndian(LittleEndian(n, 4)) == n
  {
    hide Shl, LittleEndian, FromLittleEndian;
    PowersOfTwo();
    if n < 0x1_0000 {
      LittleEndianValue(n, 2);
    }
    if n < 0x1_0000_0000 {
      LittleEndianValue(n, 4);
    }
  }

  function Header(direction: byte, cmd: byte, size: nat, value: nat): (h: seq<byte>)
    ensures |h| == 8
  {
    [direction, cmd] + LittleEndian(size, 2) + LittleEndian(value, 4)
  }

  /** What the header fields can hold; packing anything larger is an error. */
  predicate Packable(size: nat, value: nat) {
    size < 0x1_0000 && value < 0x1_0000_0000
  }

  // ----- responses -----

  datatype Verdict = Accepted | BadLength | BadDirection | BadCommand | BadSize

  /** `check_response`. */
  function CheckResponse(packet: seq<byte>, cmd: byte): Verdict {
    if |packet| < 8 then BadLength
    else if packet[0] != DIRECTION_RESPONSE then BadDirection
    else if packet[1] != cmd then BadCommand
    else if |packet| != 8 + FromLittleEndian(packet[2..4]) then BadSize
    else Accepted
  }

  /** Which error a packet is rejected with, in the order of the tests. */
  lemma VerdictMeans(packet: seq<byte>, cmd: byte)
    ensures match CheckResponse(packet, cmd)
            case BadLength => |packet| < 8
            case BadDirection => |packet| >= 8 && packet[0] != 0x01
            case BadCommand => |packet| >= 8 && packet[0] == 0x01 && packet[1] != cmd
            case BadSize =>
              && |packet| >= 8 && packet[0] == 0x01 && packet[1] == cmd
              && packet[2] as nat + 256 * packet[3] as nat != |packet| - 8
            case Accepted =>
              && |packet| >= 8 && packet[0] == 0x01 && packet[1] == cmd
              && packet[2] as nat + 256 * packet[3] as nat == |packet| - 8
  {
    if |packet| >= 8 {
      var size := packet[2..4];
      assert size[1..] == [packet[3]] && size[1..][1..] == [];
      assert FromLittleEndian([packet[3]]) == packet[3] as nat;
    }
  }

  /** Exactly the packets that a header for their own data begins are accepted. */
  lemma AcceptedExactly(packet: seq<byte>, cmd: byte)
    ensures CheckResponse(packet, cmd) == Accepted <==>
            exists value: nat, data: seq<byte> ::
              Packable(|data|, value) && packet == Header(DIRECTION_RESPONSE, cmd, |data|, value) + data
  {
    if CheckResponse(packet, cmd) == Accepted {
      var value, data := FromLittleEndian(packet[4..8]), packet[8..];
      LittleEndianInverse(packet[2..4]);
      LittleEndianInverse(packet[4..8]);
      WordBound(packet[2..4]);
      WordBound(packet[4..8]);
      assert packet == [packet[0], packet[1]] + packet[2..4] + packet[4..8] + packet[8..];
      assert Packable(|data|, value) && packet == Header(DIRECTION_RESPONSE, cmd, |data|, value) + data;
    }
    forall value: nat, data: seq<byte> |
      Packable(|data|, value) && packet == Header(DIRECTION_RESPONSE, cmd, |data|, value) + data
      ensures CheckResponse(packet, cmd) == Accepted
    {
      FieldValues(|data|);
      assert packet[2..4] == LittleEndian(|data|, 2);
    }
  }

  lemma WordBound(s: seq<byte>)
    ensures |s| == 2 ==> FromLittleEndian(s) < 0x1_0000
    ensures |s| == 4 ==> FromLittleEndian(s) < 0x1_0000_0000
  {
    if |s| == 2 {
      assert s[1..][1..] == [];
      assert FromLittleEndian(s[1..]) == s[1] as nat;
    } else if |s| == 4 {
      var t := s[2..];
      assert s[1..][1..] == t && t[1..][1..] == [];
      assert FromLittleEndian(t[1..]) == t[1] as nat;
      assert FromLittleEndian(s[1..]) == s[1] as nat + 256 * FromLittleEndian(t);
    }
  }

  datatype Response = NoResponse | TimedOut | Undecodable | Rejected(verdict: Verdict) | Packet(bytes: seq<byte>)

  function ResponseOf(frame: RawFrame, cmd: byte): Response {
    match frame
    case Nothing => NoResponse
    case TimedOut => Response.TimedOut
    case Raw(bytes) =>
      match Unstuff(bytes)
      case None => Undecodable
      case Some(packet) =>
        var verdict := CheckResponse(packet, cmd);
        if verdict == Accepted then Packet(packet) else Rejected(verdict)
  }

  /** `recv_response`. */
  method RecvResponse(port: Port, cmd: byte) returns (r: Response)
    modifies port`incoming
    ensures r == ResponseOf(TakeFrame(old(port.incoming)).0, cmd)
    ensures port.incoming == TakeFrame(old(port.incoming)).1
  {
    var frame := port.ReadRaw();
    match frame {
      case Nothing => return NoResponse;
      case TimedOut => return Response.TimedOut;
      case Raw(bytes) =>
        var packet := SlipDecode(bytes);
        if packet == None {
          return Undecodable;
        }
        var verdict := CheckResponse(packet.value, cmd);
        return if verdict == Accepted then Packet(packet.value) else Rejected(verdict);
    }
  }

  /** A response frame at the front of the line, whatever follows it, is received as the packet it carries. */
  lemma ResponseReceived(cmd: byte, value: nat, data: seq<byte>, rest: seq<byte>, later: seq<seq<byte>>)
    requires Packable(|data|, value)
    ensures var packet := Header(DIRECTION_RESPONSE, cmd, |data|, value) + data;
            var (frame, left) := TakeFrame(Line(Frame(packet) + rest, later));
            ResponseOf(frame, cmd) == Packet(packet) && left == Line(rest, later)
  {
    var packet := Header(DIRECTION_RESPONSE, cmd, |data|, value) + data;
    AcceptedExactly(packet, cmd);
    ReadFrameOf(packet, rest);
    UnstuffStuff(packet);
  }

  /** `send_command`; false when the header fields do not hold the values. */
  method SendCommand(port: Port, cmd: byte, data: seq<byte>, checksum: nat) returns (packed: bool)
    modifies port`outgoing
    ensures packed == Packable(|data|, checksum)
    ensures port.outgoing == old(port.outgoing) +
                             if packed then Frame(Header(DIRECTION_REQUEST, cmd, |data|, checksum) + data) else []
  {
    if |data| >= 0x1_0000 || checksum >= 0x1_0000_0000 {
      assert old(port.outgoing) + [] == old(port.outgoing);
      return false;
    }
    var header := Header(DIRECTION_REQUEST, cmd, |data|, checksum);
    hide Stuff, Header;
    var packet := SlipEncode(header + data);
    port.Write([SLIP_END]);
    port.Write(packet);
    port.Write([SLIP_END]);
    Regroup(old(port.outgoing), [SLIP_END], packet, [SLIP_END]);
    return true;
  }

  lemma Regroup(a: seq<byte>, b: seq<byte>, c: seq<byte>, d: seq<byte>)
    ensures a + b + c + d == a + (b + c + d)
  {
  }

  // ----- checksum -----

  /** The exclusive or of a start value and every byte. */
  function XorAll(start: nat, data: seq<byte>): nat
    decreases |data|
  {
    if data == [] then start else XorAll(Xor(start, data[0] as nat), data[1..])
  }

  const CHECKSUM_START := 0xEF

  lemma XorByte(x: nat, y: nat)
    requires x < 256 && y < 256
    ensures Xor(x, y) < 256
  {
    assert 256 == Pow2(8);
    forall i: nat | 8 <= i
      ensures !Bit(Xor(x, y), i)
    {
      BitXor(x, y, i);
      HighBits(x, 8, i);
      HighBits(y, 8, i);
    }
    LowBits(Xor(x, y), 8);
  }

  lemma {:induction false} XorAllByte(start: nat, data: seq<byte>)
    requires start < 256
    ensures XorAll(start, data) < 256
    decreases |data|
  {
    if data != [] {
      XorByte(start, data[0] as nat);
      XorAllByte(Xor(start, data[0] as nat), data[1..]);
    }
  }

  lemma MaskByte(x: nat)
    requires x < 256
    ensures And(x, 0xFF) == x
  {
    assert 256 == Pow2(8) && 0xFF == Ones(8);
    forall i: nat
      ensures Bit(And(x, 0xFF), i) == Bit(x, i)
    {
      BitAnd(x, 0xFF, i);
      BitOnes(8, i);
      if i >= 8 {
        HighBits(x, 8, i);
      }
    }
    SameBits(And(x, 0xFF), x);
  }

  /** `calculate_checksum`: always one byte, so the final mask changes nothing. */
  method CalculateChecksum(data: seq<byte>) returns (checksum: nat)
    ensures checksum == XorAll(CHECKSUM_START, data) < 256
    ensures forall i: nat :: Bit(checksum, i) <==> (Bit(0xEF, i) != (CountSet(data, i) % 2 == 1))
  {
    var c: nat := CHECKSUM_START;
    assert data[0..] == data;
    for i := 0 to |data|
      invariant XorAll(CHECKSUM_START, data) == XorAll(c, data[i..])
    {
      assert data[i..][1..] == data[i + 1..];
      c := Xor(c, data[i] as nat);
    }
    XorAllByte(CHECKSUM_START, data);
    MaskByte(c);
    forall i: nat
      ensures Bit(c, i) <==> (Bit(0xEF, i) != (CountSet(data, i) % 2 == 1))
    {
      ChecksumParity(0xEF, data, i);
    }
    return And(c, 0xFF);
  }

  /** How many of these bytes have bit `i` set. */
  function CountSet(data: seq<byte>, i: nat): nat {
    if data == [] then 0 else (if Bit(data[0] as nat, i) then 1 else 0) + CountSet(data[1..], i)
  }

  /** Every bit of the checksum is a parity: it differs from that of 0xEF when an odd number of bytes has it set. */
  lemma {:induction false} ChecksumParity(start: nat, data: seq<byte>, i: nat)
    ensures Bit(XorAll(start, data), i) <==> (Bit(start, i) != (CountSet(data, i) % 2 == 1))
    decreases |data|
  {
    hide Bit;
    if data != [] {
      BitXor(start, data[0] as nat, i);
      ChecksumParity(Xor(start, data[0] as nat), data[1..], i);
    }
  }

  lemma XorCancel(x: nat, y: nat, z: nat)
    requires Xor(x, z) == Xor(y, z)
    ensures x == y
  {
    forall i: nat
      ensures Bit(x, i) == Bit(y, i)
    {
      BitXor(x, z, i);
      BitXor(y, z, i);
    }
    SameBits(x, y);
  }

  lemma {:induction false} XorAllInjective(x: nat, y: nat, data: seq<byte>)
    requires XorAll(x, data) == XorAll(y, data)
    ensures x == y
    decreases |data|
  {
    if data != [] {
      XorAllInjective(Xor(x, data[0] as nat), Xor(y, data[0] as nat), data[1..]);
      XorCancel(x, y, data[0] as nat);
    }
  }

  lemma {:induction false} XorAllAppend(start: nat, a: seq<byte>, b: seq<byte>)
    ensures XorAll(start, a + b) == XorAll(XorAll(start, a), b)
    decreases |a|
  {
    if a == [] {
      assert a + b == b;
    } else {
      assert (a + b)[1..] == a[1..] + b;
      XorAllAppend(Xor(start, a[0] as nat), a[1..], b);
    }
  }

  lemma XorSwap(x: nat, y: nat, s: nat)
    requires Xor(s, x) == Xor(s, y)
    ensures x == y
  {
    forall i: nat
      ensures Bit(x, i) == Bit(y, i)
    {
      BitXor(s, x, i);
      BitXor(s, y, i);
    }
    SameBits(x, y);
  }

  /** The checksum changes whenever a single byte of the block does. */
  lemma ChecksumDetects(before: seq<byte>, x: byte, y: byte, after: seq<byte>)
    ensures XorAll(CHECKSUM_START, before + [x] + after) == XorAll(CHECKSUM_START, before + [y] + after) <==> x == y
  {
    var s := XorAll(CHECKSUM_START, before);
    forall b: byte
      ensures XorAll(CHECKSUM_START, before + [b] + after) == XorAll(Xor(s, b as nat), after)
    {
      XorAllAppend(CHECKSUM_START, before + [b], after);
      XorAllAppend(CHECKSUM_START, before, [b]);
      assert [b][1..] == [];
    }
    if XorAll(CHECKSUM_START, before + [x] + after) == XorAll(CHECKSUM_START, before + [y] + after) {
      XorAllInjective(Xor(s, x as nat), Xor(s, y as nat), after);
      XorSwap(x as nat, y as nat, s);
    }
  }

  // ----- flashing -----

  function Pads(n: nat): (p: seq<byte>)
    ensures |p| == n
  {
    seq(n, _ => PAD)
  }

  function Padded(block: seq<byte>): (p: seq<byte>)
    requires |block| <= MAX_BLOCK_SIZE
    ensures |p| == MAX_BLOCK_SIZE
  {
    block + Pads(MAX_BLOCK_SIZE - |block|)
  }

  function First(image: seq<byte>): (b: seq<byte>)
    ensures |b| <= MAX_BLOCK_SIZE && b <= image
  {
    if |image| <= MAX_BLOCK_SIZE then image else image[..MAX_BLOCK_SIZE]
  }

  /** The payloads an image is sent as. */
  function Blocks(image: seq<byte>): seq<seq<byte>>
    decreases |image|
  {
    if image == [] then [] else [Padded(First(image))] + Blocks(image[|First(image)|..])
  }

  function Padding(length: nat): nat {
    (MAX_BLOCK_SIZE - length % MAX_BLOCK_SIZE) % MAX_BLOCK_SIZE
  }

  lemma BlocksStep(image: seq<byte>)
    requires image != []
    ensures var b := First(image);
            var rest := image[|b|..];
            && image == b + rest && Blocks(image) == [Padded(b)] + Blocks(rest) && |rest| < |image|
            && Concat(Blocks(image)) == Padded(b) + Concat(Blocks(rest))
            && (if |image| <= MAX_BLOCK_SIZE then rest == [] && b == image else Padded(b) == b && |b| == MAX_BLOCK_SIZE)
  {
    assert Blocks(image)[1..] == Blocks(image[|First(image)|..]);
  }

  lemma {:induction false} BlockSizes(image: seq<byte>)
    ensures |Blocks(image)| == (|image| + MAX_BLOCK_SIZE - 1) / MAX_BLOCK_SIZE
    ensures forall k :: 0 <= k < |Blocks(image)| ==> |Blocks(image)[k]| == MAX_BLOCK_SIZE
    decreases |image|
  {
    if image != [] {
      BlocksStep(image);
      BlockSizes(image[|First(image)|..]);
    }
  }

  lemma PaddingStep(n: nat)
    ensures 0 < n <= MAX_BLOCK_SIZE ==> Padding(n) == MAX_BLOCK_SIZE - n
    ensures n > MAX_BLOCK_SIZE ==> Padding(n) == Padding(n - MAX_BLOCK_SIZE)
    ensures Padding(n) < MAX_BLOCK_SIZE
  {
  }

  lemma {:induction false} BlocksConcat(image: seq<byte>)
    ensures Concat(Blocks(image)) == image + Pads(Padding(|image|))
    decreases |image|
  {
    if image != [] {
      BlocksStep(image);
      PaddingStep(|image|);
      var b, rest := First(image), image[|First(image)|..];
      BlocksConcat(rest);
      if |image| <= MAX_BLOCK_SIZE {
        assert Concat(Blocks(rest)) == [];
      } else {
        hide Blocks, First, Padded, Concat, Pads, Padding;
        assert b + (rest + Pads(Padding(|rest|))) == b + rest + Pads(Padding(|rest|));
      }
    }
  }

  /**
   * The blocks are as many as announced and all of full size, and one after the other they are the
   * image, followed only by padding shorter than a block.
   */
  lemma BlocksCarryImage(image: seq<byte>)
    ensures |Blocks(image)| == (|image| + MAX_BLOCK_SIZE - 1) / MAX_BLOCK_SIZE
    ensures forall k :: 0 <= k < |Blocks(image)| ==> |Blocks(image)[k]| == MAX_BLOCK_SIZE
    ensures Concat(Blocks(image)) == image + Pads(Padding(|image|)) && Padding(|image|) < MAX_BLOCK_SIZE
    ensures forall k :: |image| <= k < |Concat(Blocks(image))| ==> Concat(Blocks(image))[k] == 0xFF
  {
    BlockSizes(image);
    BlocksConcat(image);
  }

  /** The data of a flash-data command: block size, sequence number, two zero words, and the payload. */
  function FlashData(number: nat, payload: seq<byte>): seq<byte> {
    LittleEndian(MAX_BLOCK_SIZE, 4) + LittleEndian(number, 4) + LittleEndian(0, 4) + LittleEndian(0, 4) + payload
  }

  function FlashPacket(number: nat, payload: seq<byte>): (p: seq<byte>)
    ensures p != []
  {
    var data := FlashData(number, payload);
    Header(DIRECTION_REQUEST, COMMAND_FLASH_DATA, |data|, XorAll(CHECKSUM_START, payload)) + data
  }

  /** The packets of an image whose first block has this number. */
  function FlashPackets(number: nat, blocks: seq<seq<byte>>): seq<seq<byte>>
    decreases |blocks|
  {
    if blocks == [] then [] else [FlashPacket(number, blocks[0])] + FlashPackets(number + 1, blocks[1..])
  }

  /** `flash_data` leaves by an exception; of its other outcomes, NoResponse is False and a packet is True. */
  predicate Raises(r: Response) {
    !r.NoResponse? && !r.Packet?
  }

  /** A response to a flash-data command: a header for the data behind it, and these data. */
  ghost predicate IsResponse(packet: seq<byte>) {
    exists value: nat, data: seq<byte> ::
      Packable(|data|, value) && packet == Header(0x01, 0x03, |data|, value) + data
  }

  /**
   * The frames that end the loop: one cut short by silence, one that ends in an odd run of escapes, and
   * one that carries anything but a response. Silence itself does not.
   */
  ghost predicate EndsLoop(frame: RawFrame) {
    match frame
    case Nothing => false
    case TimedOut => true
    case Raw(bytes) =>
      TrailingEscapes(bytes) % 2 == 1 || (Unstuff(bytes).Some? && !IsResponse(Unstuff(bytes).value))
  }

  lemma RaisesExactly(frame: RawFrame)
    ensures Raises(ResponseOf(frame, COMMAND_FLASH_DATA)) <==> EndsLoop(frame)
  {
    if frame.Raw? {
      UnstuffFails(frame.bytes);
      if Unstuff(frame.bytes).Some? {
        AcceptedExactly(Unstuff(frame.bytes).value, COMMAND_FLASH_DATA);
      }
    }
  }

  /** What is made of a frame: nothing read is no response, and each kind of failure is reported as itself. */
  lemma ResponseKinds(frame: RawFrame, cmd: byte)
    ensures frame.Nothing? <==> ResponseOf(frame, cmd) == NoResponse
    ensures frame.TimedOut? <==> ResponseOf(frame, cmd) == Response.TimedOut
    ensures frame.Raw? ==>
              && (ResponseOf(frame, cmd) == Undecodable <==> TrailingEscapes(frame.bytes) % 2 == 1)
              && (forall packet :: ResponseOf(frame, cmd) == Packet(packet) <==>
                    Unstuff(frame.bytes) == Some(packet) && CheckResponse(packet, cmd) == Accepted)
  {
    if frame.Raw? {
      UnstuffFails(frame.bytes);
    }
  }

  /** `flash_data`: the packet of one block is sent, and one response is read. */
  method FlashBlock(port: Port, number: nat, payload: seq<byte>) returns (r: Response)
    requires |payload| == MAX_BLOCK_SIZE && number < 0x1_0000_0000
    modifies port
    ensures port.outgoing == old(port.outgoing) + Frame(FlashPacket(number, payload))
    ensures r == ResponseOf(TakeFrame(old(port.incoming)).0, COMMAND_FLASH_DATA)
    ensures port.incoming == TakeFrame(old(port.incoming)).1
  {
    hide ResponseOf, TakeFrame;
    var metadata := LittleEndian(MAX_BLOCK_SIZE, 4) + LittleEndian(number, 4) + LittleEndian(0, 4) + LittleEndian(0, 4);
    var checksum := CalculateChecksum(payload);
    var packed := SendCommand(port, COMMAND_FLASH_DATA, metadata + payload, checksum);
    r := RecvResponse(port, COMMAND_FLASH_DATA);
  }

  /** The line after `k` responses were read off it. */
  function LineAfter(line: Line, k: nat): Line {
    if k == 0 then line else TakeFrame(LineAfter(line, k - 1)).1
  }

  /** The response to block `k`, when all blocks before it were sent. */
  function ResponseAt(line: Line, k: nat): Response {
    ResponseOf(TakeFrame(LineAfter(line, k)).0, COMMAND_FLASH_DATA)
  }

  /** The first block from `k` on, of `n`, whose response ends the loop by an exception; `n` when there is none. */
  function Failing(line: Line, k: nat, n: nat): (f: nat)
    requires k <= n
    ensures k <= f <= n
    ensures f < n ==> Raises(ResponseAt(line, f))
    ensures forall j :: k <= j < f ==> !Raises(ResponseAt(line, j))
    decreases n - k
  {
    if k == n || Raises(ResponseAt(line, k)) then k else Failing(line, k + 1, n)
  }

  /** How many of `n` blocks are sent: the one whose response raises is the last. */
  function SentBlocks(line: Line, n: nat): (m: nat)
    ensures m <= n
  {
    var f := Failing(line, 0, n);
    if f < n then f + 1 else n
  }

  /** The input without its first `k` blocks. */
  function Unsent(image: seq<byte>, k: nat): seq<byte> {
    if k * MAX_BLOCK_SIZE <= |image| then image[k * MAX_BLOCK_SIZE..] else []
  }

  /**
   * The block loop of `esp_flash`, as far as it gets. It returns what is left of the input, and the
   * response that ended it early if one did.
   */
  method FlashBlocks(port: Port, image: seq<byte>) returns (left: seq<byte>, failure: Option<Response>)
    requires |image| < 0x1_0000_0000
    modifies port
    ensures var line, n := old(port.incoming), |Blocks(image)|;
            var f, sent := Failing(line, 0, n), SentBlocks(line, n);
            && port.outgoing == old(port.outgoing) + Frames(FlashPackets(0, Blocks(image)[..sent]))
            && port.incoming == LineAfter(line, sent)
            && left == Unsent(image, f)
            && failure == if f == n then None else Some(ResponseAt(line, f))
  {
    hide Frame, Frames, FlashPacket, FlashPackets, Blocks, TakeFrame, ResponseOf, Failing, Raises;
    left := image;
    var nrBlocks := (|image| + MAX_BLOCK_SIZE - 1) / MAX_BLOCK_SIZE;
    BlockSizes(image);
    ghost var line, blocks := port.incoming, Blocks(image);
    NothingSent(port.outgoing, blocks);
    for number := 0 to nrBlocks
      invariant left == Unsent(image, number)
      invariant port.outgoing == old(port.outgoing) + Frames(FlashPackets(0, blocks[..number]))
      invariant port.incoming == LineAfter(line, number)
      invariant Failing(line, 0, nrBlocks) == Failing(line, number, nrBlocks)
    {
      BlockAt(image, number);
      FailingStep(line, number, nrBlocks);
      var payload := if |left| <= MAX_BLOCK_SIZE then left else left[..MAX_BLOCK_SIZE];
      payload := payload + Pads(MAX_BLOCK_SIZE - |payload|);
      SentStep(old(port.outgoing), blocks, number);
      var r := FlashBlock(port, number, payload);
      if Raises(r) {
        return left, Some(r);
      }
      left := if |left| <= MAX_BLOCK_SIZE then [] else left[MAX_BLOCK_SIZE..];
    }
    FailingStep(line, nrBlocks, nrBlocks);
    return left, None;
  }

  lemma NothingSent(sent: seq<byte>, blocks: seq<seq<byte>>)
    ensures sent == sent + Frames(FlashPackets(0, blocks[..0]))
  {
  }

  lemma FailingStep(line: Line, k: nat, n: nat)
    requires k <= n
    ensures Failing(line, k, n) ==
            if k == n || Raises(ResponseAt(line, k)) then k else Failing(line, k + 1, n)
  {
  }

  lemma {:induction false} BlockAt(image: seq<byte>, k: nat)
    requires k < |Blocks(image)|
    ensures Unsent(image, k) != [] && Blocks(image)[k] == Padded(First(Unsent(image, k)))
    ensures Unsent(image, k + 1) == Unsent(image, k)[|First(Unsent(image, k))|..]
    decreases |image|
  {
    BlocksStep(image);
    UnsentStep(image, k);
    hide Blocks, Padded, Unsent;
    if k > 0 {
      BlockAt(image[|First(image)|..], k - 1);
      UnsentStep(image, k - 1);
    }
  }

  lemma UnsentStep(image: seq<byte>, k: nat)
    ensures Unsent(image, 0) == image
    ensures Unsent(image, k + 1) == Unsent(image[|First(image)|..], k)
  {
    var rest := image[|First(image)|..];
    assert rest[0..] == rest;
    if (k + 1) * MAX_BLOCK_SIZE <= |image| {
      assert image[(k + 1) * MAX_BLOCK_SIZE..] == rest[k * MAX_BLOCK_SIZE..];
    }
  }

  lemma {:induction false} PacketsAppend(number: nat, blocks: seq<seq<byte>>, block: seq<byte>)
    ensures FlashPackets(number, blocks + [block]) ==
            FlashPackets(number, blocks) + [FlashPacket(number + |blocks|, block)]
    decreases |blocks|
  {
    hide FlashPacket;
    if blocks == [] {
      assert blocks + [block] == [block] && [block][1..] == [];
    } else {
      assert (blocks + [block])[1..] == blocks[1..] + [block];
      PacketsAppend(number + 1, blocks[1..], block);
    }
  }

  lemma {:induction false} FramesAppend(a: seq<seq<byte>>, b: seq<seq<byte>>)
    ensures Frames(a + b) == Frames(a) + Frames(b)
  {
    hide Frame;
    if a == [] {
      assert a + b == b;
    } else {
      assert (a + b)[1..] == a[1..] + b;
      calc {
        Frames(a + b);
        Frame(a[0]) + Frames(a[1..] + b);
        { FramesAppend(a[1..], b); }
        Frame(a[0]) + (Frames(a[1..]) + Frames(b));
        Frames(a) + Frames(b);
      }
    }
  }

  lemma FramesOne(packet: seq<byte>)
    ensures Frames([packet]) == Frame(packet)
  {
    assert [packet][1..] == [];
  }

  lemma SentStep(sent: seq<byte>, blocks: seq<seq<byte>>, k: nat)
    requires k < |blocks|
    ensures sent + Frames(FlashPackets(0, blocks[..k])) + Frame(FlashPacket(k, blocks[k])) ==
            sent + Frames(FlashPackets(0, blocks[..k + 1]))
  {
    hide Frame, Frames, FlashPacket, FlashPackets;
    var packet := FlashPacket(k, blocks[k]);
    assert blocks[..k + 1] == blocks[..k] + [blocks[k]];
    PacketsAppend(0, blocks[..k], blocks[k]);
    FramesAppend(FlashPackets(0, blocks[..k]), [packet]);
    FramesOne(packet);
  }

  /** The frame read off the line for block `k`, when all blocks before it were sent. */
  function FrameAt(line: Line, k: nat): RawFrame {
    TakeFrame(LineAfter(line, k)).0
  }

  /** Block by block on the line itself: the first frame that ends the loop decides how far it gets. */
  lemma FailingExactly(line: Line, n: nat)
    ensures var f := Failing(line, 0, n);
            && (forall j :: 0 <= j < f ==> !EndsLoop(FrameAt(line, j)))
            && (f < n ==> EndsLoop(FrameAt(line, f)) && SentBlocks(line, n) == f + 1)
            && (f == n ==> SentBlocks(line, n) == n)
  {
    hide ResponseOf, EndsLoop, Raises, TakeFrame;
    forall j: nat
      ensures Raises(ResponseAt(line, j)) <==> EndsLoop(FrameAt(line, j))
    {
      RaisesExactly(FrameAt(line, j));
    }
  }

  predicate Silent(line: Line) {
    line.now == [] && forall k :: 0 <= k < |line.later| ==> line.later[k] == []
  }

  lemma {:induction false} StaysSilent(line: Line, k: nat)
    requires Silent(line)
    ensures Silent(LineAfter(line, k)) && FrameAt(line, k) == Nothing
    decreases k
  {
    if k > 0 {
      StaysSilent(line, k - 1);
    }
  }

  /** An answer that comes only after a read has timed out is taken for the answer to the next block. */
  lemma LateAnswer(answer: seq<byte>, rest: seq<byte>, later: seq<seq<byte>>)
    requires CheckResponse(answer, COMMAND_FLASH_DATA) == Accepted
    ensures var line := Line([], [Frame(answer) + rest] + later);
            && ResponseAt(line, 0) == NoResponse && ResponseAt(line, 1) == Packet(answer)
            && LineAfter(line, 2) == Line(rest, later)
  {
    var line := Line([], [Frame(answer) + rest] + later);
    assert line.later[1..] == later;
    assert LineAfter(line, 1) == Line(Frame(answer) + rest, later);
    assert answer != [];
    hide Frame, CheckResponse, Stuff;
    ReadFrameOf(answer, rest);
    UnstuffStuff(answer);
  }

  /** On a silent line every block is sent and nothing of the input is left. */
  lemma SilentLine(image: seq<byte>, line: Line)
    requires Silent(line)
    ensures var n := |Blocks(image)|;
            SentBlocks(line, n) == n && Failing(line, 0, n) == n && Unsent(image, n) == []
  {
    var n := |Blocks(image)|;
    hide Silent, LineAfter;
    BlockSizes(image);
    FailingExactly(line, n);
    StaysSilent(line, Failing(line, 0, n));
  }

  /**
   * Every block is sent exactly when none of the frames before the last ends the loop, and the input is
   * used up exactly when none of them does.
   */
  lemma AllBlocksSent(image: seq<byte>, line: Line)
    ensures var blocks := Blocks(image);
            var n := |blocks|;
            && (Frames(FlashPackets(0, blocks[..SentBlocks(line, n)])) == Frames(FlashPackets(0, blocks)) <==>
                forall k :: 0 <= k < n - 1 ==> !EndsLoop(FrameAt(line, k)))
            && (Unsent(image, Failing(line, 0, n)) == [] <==> forall k :: 0 <= k < n ==> !EndsLoop(FrameAt(line, k)))
  {
    var blocks := Blocks(image);
    var n := |blocks|;
    FailingExactly(line, n);
    hide ResponseAt, Raises, Blocks, FlashPackets, Frames, EndsLoop, FrameAt, Failing;
    BlockSizes(image);
    var m := SentBlocks(line, n);
    assert blocks == blocks[..m] + blocks[m..];
    if m < n {
      FewerFrames(blocks, m);
    } else {
      assert blocks[..m] == blocks;
    }
  }

  /** Sending fewer blocks puts fewer bytes on the line. */
  lemma FewerFrames(blocks: seq<seq<byte>>, m: nat)
    requires m < |blocks|
    ensures |Frames(FlashPackets(0, blocks[..m]))| < |Frames(FlashPackets(0, blocks))|
  {
    var packets := FlashPackets(0, blocks);
    PacketsPrefix(0, blocks, m);
    assert packets == packets[..m] + packets[m..];
    FramesAppend(packets[..m], packets[m..]);
  }

  lemma {:induction false} PacketsPrefix(number: nat, blocks: seq<seq<byte>>, m: nat)
    requires m <= |blocks|
    ensures |FlashPackets(number, blocks)| == |blocks|
    ensures FlashPackets(number, blocks)[..m] == FlashPackets(number, blocks[..m])
    decreases |blocks|
  {
    hide FlashPacket;
    if blocks != [] {
      PacketsPrefix(number + 1, blocks[1..], if m == 0 then 0 else m - 1);
      if m > 0 {
        assert blocks[..m][1..] == blocks[1..][..m - 1];
      }
    }
  }

  /** A response of two bytes to the first block of an image of 2000 ends the loop: the second block is never sent. */
  lemma RejectionStops(image: seq<byte>, later: seq<seq<byte>>)
    requires |image| == 2000
    ensures var line := Line([SLIP_END, DIRECTION_RESPONSE, COMMAND_FLASH_DATA, SLIP_END], later);
            && ResponseAt(line, 0) == Rejected(BadLength) && |Blocks(image)| == 2
            && SentBlocks(line, 2) == 1 && Unsent(image, Failing(line, 0, 2)) == image
  {
    BlockSizes(image);
    var data := [DIRECTION_RESPONSE, COMMAND_FLASH_DATA];
    var line := Line([SLIP_END] + data + [SLIP_END], later);
    assert line.now == [SLIP_END, DIRECTION_RESPONSE, COMMAND_FLASH_DATA, SLIP_END];
    assert data[1..] == [data[1]] && data[1..][1..] == [];
    assert Stuff(data[1..]) == [data[1]];
    assert Stuff(data) == data;
    ReadFrameOf(data, []);
    assert Frame(data) + [] == line.now;
    UnstuffStuff(data);
    assert LineAfter(line, 0) == line;
  }

  /** When every block is answered by an accepted response, all are sent, and each takes one response off the line. */
  lemma {:induction false} AnsweredBlocks(answers: seq<seq<byte>>, rest: seq<byte>, later: seq<seq<byte>>, k: nat)
    requires forall i :: 0 <= i < |answers| ==> CheckResponse(answers[i], COMMAND_FLASH_DATA) == Accepted
    requires k <= |answers|
    ensures var line := Line(Frames(answers) + rest, later);
            && LineAfter(line, k) == Line(Frames(answers[k..]) + rest, later)
            && (forall i :: 0 <= i < k ==> ResponseAt(line, i) == Packet(answers[i]))
            && Failing(line, 0, k) == k
    decreases k
  {
    hide CheckResponse, Frames, TakeFrame, ResponseOf, Failing;
    var line := Line(Frames(answers) + rest, later);
    if k == 0 {
      assert answers[0..] == answers;
    } else {
      AnsweredBlocks(answers, rest, later, k - 1);
      AnswerTaken(answers[k - 1], answers[k..], rest, later);
      assert answers[k - 1..] == [answers[k - 1]] + answers[k..];
      assert ResponseAt(line, k - 1) == Packet(answers[k - 1]);
    }
  }

  lemma AnswerTaken(answer: seq<byte>, others: seq<seq<byte>>, rest: seq<byte>, later: seq<seq<byte>>)
    requires CheckResponse(answer, COMMAND_FLASH_DATA) == Accepted
    ensures var (frame, line) := TakeFrame(Line(Frames([answer] + others) + rest, later));
            ResponseOf(frame, COMMAND_FLASH_DATA) == Packet(answer) && line == Line(Frames(others) + rest, later)
  {
    assert answer != [];
    var stream := Frames([answer] + others) + rest;
    assert ([answer] + others)[1..] == others;
    hide Frame, CheckResponse;
    assert stream == Frame(answer) + (Frames(others) + rest);
    ReadFrameOf(answer, Frames(others) + rest);
    UnstuffStuff(answer);
  }

  /** The payload of a flash-data packet, behind its header and four metadata words. */
  function PayloadOf(packet: seq<byte>): seq<byte> {
    if |packet| < 24 then [] else packet[24..]
  }

  function PayloadsOf(packets: seq<Option<seq<byte>>>): seq<seq<byte>> {
    if packets == [] then []
    else (if packets[0].Some? then [PayloadOf(packets[0].value)] else []) + PayloadsOf(packets[1..])
  }

  lemma {:induction false} PacketsNotEmpty(number: nat, blocks: seq<seq<byte>>)
    ensures NonEmpty(FlashPackets(number, blocks)) == FlashPackets(number, blocks)
    decreases |blocks|
  {
    if blocks != [] {
      PacketsNotEmpty(number + 1, blocks[1..]);
      assert FlashPackets(number, blocks)[1..] == FlashPackets(number + 1, blocks[1..]);
    }
  }

  lemma Slices(b0: byte, b1: byte, size: seq<byte>, value: seq<byte>, ws: seq<seq<byte>>, rest: seq<byte>)
    requires |size| == 2 && |value| == 4 && |ws| == 4 && forall i :: 0 <= i < 4 ==> |ws[i]| == 4
    ensures var p := [b0, b1] + size + value + (ws[0] + ws[1] + ws[2] + ws[3] + rest);
            && p[0] == b0 && p[1] == b1 && p[2..4] == size && p[4..8] == value
            && p[8..12] == ws[0] && p[12..16] == ws[1] && p[16..20] == ws[2] && p[20..24] == ws[3]
            && p[24..] == rest
  {
  }

  /** The fields of a flash-data packet, as the other side reads them. */
  lemma PacketFields(number: nat, payload: seq<byte>)
    requires |payload| == MAX_BLOCK_SIZE && number < 0x1_0000_0000
    ensures var p := FlashPacket(number, payload);
            && |p| == 1048 && PayloadOf(p) == payload && p[0] == 0x00 && p[1] == 0x03
            && FromLittleEndian(p[2..4]) == 1040
            && FromLittleEndian(p[4..8]) == XorAll(0xEF, payload)
            && FromLittleEndian(p[8..12]) == 1024 && FromLittleEndian(p[12..16]) == number
            && FromLittleEndian(p[16..20]) == 0 && FromLittleEndian(p[20..24]) == 0
  {
    hide LittleEndian, XorAll, FromLittleEndian;
    XorAllByte(CHECKSUM_START, payload);
    var sum := XorAll(CHECKSUM_START, payload);
    FieldValues(16 + MAX_BLOCK_SIZE);
    FieldValues(MAX_BLOCK_SIZE);
    FieldValues(sum);
    FieldValues(number);
    FieldValues(0);
    PayloadOfPacket(number, payload);
    hide PayloadOf;
    var ws := [LittleEndian(MAX_BLOCK_SIZE, 4), LittleEndian(number, 4), LittleEndian(0, 4), LittleEndian(0, 4)];
    assert FlashData(number, payload) == ws[0] + ws[1] + ws[2] + ws[3] + payload;
    var size := LittleEndian(16 + MAX_BLOCK_SIZE, 2);
    Slices(DIRECTION_REQUEST, COMMAND_FLASH_DATA, size, LittleEndian(sum, 4), ws, payload);
  }

  lemma {:induction false} PacketAt(number: nat, blocks: seq<seq<byte>>, k: nat)
    requires k < |blocks|
    ensures |FlashPackets(number, blocks)| == |blocks|
    ensures FlashPackets(number, blocks)[k] == FlashPacket(number + k, blocks[k])
    decreases |blocks|
  {
    hide FlashPacket;
    if blocks[1..] == [] {
      assert FlashPackets(number + 1, blocks[1..]) == [];
    } else {
      PacketAt(number + 1, blocks[1..], if k == 0 then 0 else k - 1);
    }
  }

  lemma PayloadOfPacket(number: nat, payload: seq<byte>)
    ensures PayloadOf(FlashPacket(number, payload)) == payload
  {
    hide LittleEndian, XorAll;
    assert FlashPacket(number, payload)[24..] == payload;
  }

  lemma PayloadsCons(p: seq<byte>, t: seq<seq<byte>>)
    ensures PayloadsOf(AllSome([p] + t)) == [PayloadOf(p)] + PayloadsOf(AllSome(t))
  {
    hide PayloadOf;
    assert ([p] + t)[1..] == t;
    assert AllSome([p] + t)[1..] == AllSome(t);
  }

  lemma {:induction false} PayloadsOfPackets(number: nat, blocks: seq<seq<byte>>)
    ensures PayloadsOf(AllSome(FlashPackets(number, blocks))) == blocks
    decreases |blocks|
  {
    if blocks != [] {
      hide FlashPacket, PayloadOf, PayloadsOf, AllSome;
      PayloadsOfPackets(number + 1, blocks[1..]);
      PayloadsCons(FlashPacket(number, blocks[0]), FlashPackets(number + 1, blocks[1..]));
      PayloadOfPacket(number, blocks[0]);
    }
  }

  /**
   * Flashing end to end: what the other side reads off the line after `m` blocks are the payloads of
   * these blocks in order, which for all blocks are the image and its padding.
   */
  lemma FlashDelivers(image: seq<byte>, m: nat)
    requires m <= |Blocks(image)|
    ensures var received := Received(Frames(FlashPackets(0, Blocks(image)[..m])));
            && received == AllSome(FlashPackets(0, Blocks(image)[..m]))
            && PayloadsOf(received) == Blocks(image)[..m]
            && (m == |Blocks(image)| ==> Concat(PayloadsOf(received)) == image + Pads(Padding(|image|)))
  {
    hide Frames, FlashPacket, FlashPackets, Blocks, PayloadsOf;
    var blocks := Blocks(image)[..m];
    ReceivedFrames(FlashPackets(0, blocks));
    PacketsNotEmpty(0, blocks);
    PayloadsOfPackets(0, blocks);
    BlocksConcat(image);
    assert m == |Blocks(image)| ==> blocks == Blocks(image);
  }

  /** Each packet carries its own number and the checksum of its own block. */
  lemma FlashNumbered(image: seq<byte>, k: nat)
    requires |image| < 0x1_0000_0000 && k < |Blocks(image)|
    ensures var packets := FlashPackets(0, Blocks(image));
            && |packets| == |Blocks(image)| && |packets[k]| == 1048 && PayloadOf(packets[k]) == Blocks(image)[k]
            && packets[k][0] == 0x00 && packets[k][1] == 0x03
            && FromLittleEndian(packets[k][2..4]) == 1040
            && FromLittleEndian(packets[k][4..8]) == XorAll(0xEF, Blocks(image)[k])
            && FromLittleEndian(packets[k][8..12]) == 1024 && FromLittleEndian(packets[k][12..16]) == k
            && FromLittleEndian(packets[k][16..20]) == 0 && FromLittleEndian(packets[k][20..24]) == 0
  {
    hide FlashPacket, FromLittleEndian, XorAll, Blocks, FlashPackets, PayloadOf;
    PacketAt(0, Blocks(image), k);
    BlockSizes(image);
    PacketFields(k, Blocks(image)[k]);
  }
}
