/** The fixed-size big-endian messages of the memory transfer protocol. */
module Protocol {
  import opened Base

  type U8 = n: int | 0 <= n < 0x100
  type U16 = n: int | 0 <= n < 0x1_0000
  type U32 = n: int | 0 <= n < 0x1_0000_0000

  const VERSION: U16 := 3

  // ---- big-endian numbers ----

  function Power(width: nat): (r: nat)
    ensures r > 0
  {
    if width == 0 then 1 else 256 * Power(width - 1)
  }

  function BigEndian(width: nat, n: nat): (r: seq<Byte>)
    ensures |r| == width
  {
    seq(width, i requires 0 <= i < width => (n / Power(width - 1 - i)) % 256)
  }

  function Number(bytes: seq<Byte>): nat {
    if bytes == [] then 0 else 256 * Number(bytes[..|bytes| - 1]) + bytes[|bytes| - 1]
  }

  lemma DivTwice(n: nat, p: nat)
    requires p > 0
    ensures n / (256 * p) == (n / 256) / p
  {
    var m := n / 256;
    var q, r := m / p, m % p;
    assert m == q * p + r;
    assert n == 256 * m + n % 256;
    assert n == q * (256 * p) + (256 * r + n % 256);
    DivUnique(n, 256 * p, q, 256 * r + n % 256);
  }

  /** The last byte is the remainder, and the bytes before it are the quotient. */
  lemma LastByte(width: nat, n: nat)
    requires width > 0
    ensures BigEndian(width, n) == BigEndian(width - 1, n / 256) + [n % 256]
  {
    forall i | 0 <= i < width - 1
      ensures BigEndian(width, n)[i] == BigEndian(width - 1, n / 256)[i]
    {
      assert Power(width - 1 - i) == 256 * Power(width - 2 - i);
      DivTwice(n, Power(width - 2 - i));
    }
    assert BigEndian(width, n)[width - 1] == (n / Power(0)) % 256;
  }

  lemma {:induction false} NumberOfBigEndian(width: nat, n: nat)
    requires n < Power(width)
    ensures Number(BigEndian(width, n)) == n
  {
    if width > 0 {
      NumberOfBigEndian(width - 1, n / 256);
      LastByte(width, n);
      assert BigEndian(width, n)[..width - 1] == BigEndian(width - 1, n / 256);
    }
  }

  lemma {:induction false} BigEndianOfNumber(bytes: seq<Byte>)
    ensures Number(bytes) < Power(|bytes|)
    ensures BigEndian(|bytes|, Number(bytes)) == bytes
  {
    if bytes != [] {
      var front, last := bytes[..|bytes| - 1], bytes[|bytes| - 1];
      assert bytes == front + [last];
      BigEndianOfNumber(front);
      LastByte(|bytes|, Number(bytes));
    }
  }

  lemma Widths()
    ensures Power(2) == 0x1_0000 && Power(4) == 0x1_0000_0000 && Power(8) == TWO_64
  {
    assert Power(1) == 256 && Power(2) == 0x1_0000 && Power(3) == 0x100_0000 && Power(4) == 0x1_0000_0000;
    assert Power(5) == 256 * Power(4) && Power(6) == 256 * Power(5);
    assert Power(7) == 256 * Power(6) && Power(8) == 256 * Power(7);
  }

  function Be16(n: U16): (r: seq<Byte>)
    ensures |r| == 2 && Number(r) == n
  {
    Widths();
    NumberOfBigEndian(2, n);
    BigEndian(2, n)
  }

  function Be32(n: U32): (r: seq<Byte>)
    ensures |r| == 4 && Number(r) == n
  {
    Widths();
    NumberOfBigEndian(4, n);
    BigEndian(4, n)
  }

  function Be64(n: U64): (r: seq<Byte>)
    ensures |r| == 8 && Number(r) == n
  {
    Widths();
    NumberOfBigEndian(8, n);
    BigEndian(8, n)
  }

  function U16At(bytes: seq<Byte>, at: nat): (n: U16)
    requires at + 2 <= |bytes|
    ensures Be16(n) == bytes[at..at + 2]
  {
    Widths();
    BigEndianOfNumber(bytes[at..at + 2]);
    Number(bytes[at..at + 2])
  }

  function U32At(bytes: seq<Byte>, at: nat): (n: U32)
    requires at + 4 <= |bytes|
    ensures Be32(n) == bytes[at..at + 4]
  {
    Widths();
    BigEndianOfNumber(bytes[at..at + 4]);
    Number(bytes[at..at + 4])
  }

  function U64At(bytes: seq<Byte>, at: nat): (n: U64)
    requires at + 8 <= |bytes|
    ensures Be64(n) == bytes[at..at + 8]
  {
    Widths();
    BigEndianOfNumber(bytes[at..at + 8]);
    Number(bytes[at..at + 8])
  }

  // ---- messages ----

  datatype Error =
    | InvalidMagic
    | UnsupportedVersion(v: U16)
    | UnknownDirection(d: U8)
    | InvalidHello
    | InvalidLane
    | InvalidExtent

  datatype Direction = BrowserToAgentMemory | AgentToBrowserMemory

  function DirectionByte(d: Direction): Byte {
    match d
    case BrowserToAgentMemory => 1
    case AgentToBrowserMemory => 2
  }

  function DirectionOf(b: Byte): Result<Direction, Error> {
    if b == 1 then Ok(BrowserToAgentMemory)
    else if b == 2 then Ok(AgentToBrowserMemory)
    else Err(UnknownDirection(b))
  }

  /** Lays `part` over the bytes from `at` on; what stands before it stays. */
  method Put(bytes: array<Byte>, at: nat, part: seq<Byte>)
    requires at + |part| <= bytes.Length
    modifies bytes
    ensures bytes[..at + |part|] == old(bytes[..at]) + part
    ensures bytes[at + |part|..] == old(bytes[at + |part|..])
  {
    forall i | 0 <= i < |part| {
      bytes[at + i] := part[i];
    }
  }

  function Zeros(n: nat): (r: seq<Byte>)
    ensures |r| == n && forall i | 0 <= i < n :: r[i] == 0
  {
    seq(n, _ => 0)
  }

  const HELLO_LEN: nat := 48

  /** "WRNFHEL1" */
  const HELLO_MAGIC: seq<Byte> := [0x57, 0x52, 0x4E, 0x46, 0x48, 0x45, 0x4C, 0x31]

  type Token = t: seq<Byte> | |t| == 16 witness [0, 0, 0, 0, 0, 0, 0, 0, 0, 0, 0, 0, 0, 0, 0, 0]

  datatype Hello = Hello(
    direction: Direction,
    lanes: U8,
    blockSize: U32,
    extentSize: U64,
    totalSize: U64,
    token: Token
  ) {
    predicate Valid() {
      && lanes != 0 && blockSize != 0 && extentSize != 0 && totalSize != 0
      && extentSize % blockSize == 0
    }

    /** The message on the wire. */
    function Wire(): (r: seq<Byte>)
      ensures |r| == HELLO_LEN
    {
      HELLO_MAGIC + Be16(VERSION) + [DirectionByte(direction)] + [lanes] + Be32(blockSize) + Be64(extentSize)
      + Be64(totalSize) + token
    }
  }

  function DecodeHello(bytes: seq<Byte>): Result<Hello, Error>
    requires |bytes| == HELLO_LEN
  {
    if bytes[0..8] != HELLO_MAGIC then Err(InvalidMagic)
    else if U16At(bytes, 8) != VERSION then Err(UnsupportedVersion(U16At(bytes, 8)))
    else
      var direction := DirectionOf(bytes[10]);
      if direction.Err? then Err(direction.error)
      else
        var hello :=
          Hello(direction.value, bytes[11], U32At(bytes, 12), U64At(bytes, 16), U64At(bytes, 24), bytes[32..48]);
        if hello.Valid() then Ok(hello) else Err(InvalidHello)
  }

  /** Every message is its fields, one after the other. */
  lemma CutHello(bytes: seq<Byte>)
    requires |bytes| == HELLO_LEN
    ensures bytes == bytes[0..8] + bytes[8..10] + [bytes[10]] + [bytes[11]] + bytes[12..16] + bytes[16..24]
                     + bytes[24..32] + bytes[32..48]
  {
  }

  lemma {:induction false} HelloFields(hello: Hello)
    ensures var b := hello.Wire();
            && b[0..8] == HELLO_MAGIC && b[8..10] == Be16(VERSION)
            && b[10] == DirectionByte(hello.direction) && b[11] == hello.lanes
            && b[12..16] == Be32(hello.blockSize) && b[16..24] == Be64(hello.extentSize)
            && b[24..32] == Be64(hello.totalSize) && b[32..48] == hello.token
  {
  }

  /** A hello on the wire is read back; exactly the invalid ones are refused. */
  lemma HelloRoundTrip(hello: Hello)
    ensures DecodeHello(hello.Wire()) == if hello.Valid() then Ok(hello) else Err(InvalidHello)
  {
    HelloFields(hello);
    var b := hello.Wire();
    assert U16At(b, 8) == Number(b[8..10]);
    assert U32At(b, 12) == Number(b[12..16]);
    assert U64At(b, 16) == Number(b[16..24]);
    assert U64At(b, 24) == Number(b[24..32]);
  }

  /** There is only one way to write the hello that a receiver accepts. */
  lemma HelloCanonical(bytes: seq<Byte>)
    requires |bytes| == HELLO_LEN && DecodeHello(bytes).Ok?
    ensures DecodeHello(bytes).value.Wire() == bytes && DecodeHello(bytes).value.Valid()
  {
    CutHello(bytes);
  }

  /** The number in two bytes, most significant first. */
  function Two(bytes: seq<Byte>, at: nat): nat
    requires at + 2 <= |bytes|
  {
    var high: int, low: int := bytes[at], bytes[at + 1];
    0x100 * high + low
  }

  function Four(bytes: seq<Byte>, at: nat): nat
    requires at + 4 <= |bytes|
  {
    0x1_0000 * Two(bytes, at) + Two(bytes, at + 2)
  }

  function Eight(bytes: seq<Byte>, at: nat): nat
    requires at + 8 <= |bytes|
  {
    0x1_0000_0000 * Four(bytes, at) + Four(bytes, at + 4)
  }

  lemma TwoBytes(bytes: seq<Byte>, at: nat)
    requires at + 2 <= |bytes|
    ensures U16At(bytes, at) == Two(bytes, at)
  {
    NumberStep(bytes, at, 0);
    NumberStep(bytes, at, 1);
  }

  lemma FourBytes(bytes: seq<Byte>, at: nat)
    requires at + 4 <= |bytes|
    ensures Number(bytes[at..at + 4]) == Four(bytes, at) && U32At(bytes, at) == Four(bytes, at)
  {
    NumberStep(bytes, at, 0);
    NumberStep(bytes, at, 1);
    NumberStep(bytes, at, 2);
    NumberStep(bytes, at, 3);
  }

  lemma NumberStep(bytes: seq<Byte>, at: nat, n: nat)
    requires at + n < |bytes|
    ensures Number(bytes[at..at + n + 1]) == 256 * Number(bytes[at..at + n]) + bytes[at + n]
    ensures Number(bytes[at..at]) == 0
  {
    assert bytes[at..at + n + 1][..n] == bytes[at..at + n];
  }

  lemma EightBytes(bytes: seq<Byte>, at: nat)
    requires at + 8 <= |bytes|
    ensures U64At(bytes, at) == Eight(bytes, at)
  {
    FourBytes(bytes, at);
    NumberStep(bytes, at, 4);
    NumberStep(bytes, at, 5);
    NumberStep(bytes, at, 6);
    NumberStep(bytes, at, 7);
  }

  /** Which 48 bytes are accepted, what is read from them, and which error comes first, byte by byte. */
  lemma HelloAccepted(bytes: seq<Byte>)
    requires |bytes| == 48
    ensures var r := DecodeHello(bytes);
            var magic, version := bytes[..8] == [87, 82, 78, 70, 72, 69, 76, 49], Two(bytes, 8);
            && (r == Err(InvalidMagic) <==> !magic)
            && (r.Err? && r.error.UnsupportedVersion? <==> magic && version != 3)
            && (r.Err? && r.error.UnknownDirection? <==> magic && version == 3 && bytes[10] != 1 && bytes[10] != 2)
            && (r.Ok? <==>
                  && magic && version == 3 && (bytes[10] == 1 || bytes[10] == 2) && bytes[11] != 0
                  && Four(bytes, 12) != 0 && Eight(bytes, 16) != 0 && Eight(bytes, 24) != 0
                  && Eight(bytes, 16) % Four(bytes, 12) == 0)
            && (r.Err? && r.error.UnsupportedVersion? ==> r.error.v == version)
            && (r.Err? && r.error.UnknownDirection? ==> r.error.d == bytes[10])
    ensures DecodeHello(bytes).Ok? ==>
              var hello := DecodeHello(bytes).value;
              && (hello.direction == BrowserToAgentMemory <==> bytes[10] == 1) && hello.lanes == bytes[11]
              && hello.blockSize == Four(bytes, 12) && hello.extentSize == Eight(bytes, 16)
              && hello.totalSize == Eight(bytes, 24) && hello.token == bytes[32..]
  {
    TwoBytes(bytes, 8);
    FourBytes(bytes, 12);
    EightBytes(bytes, 16);
    EightBytes(bytes, 24);
  }

  method EncodeHello(hello: Hello) returns (bytes: array<Byte>)
    ensures fresh(bytes) && bytes[..] == hello.Wire()
  {
    bytes := new Byte[HELLO_LEN](_ => 0);
    Put(bytes, 0, HELLO_MAGIC);
    assert bytes[..8] == HELLO_MAGIC;
    Put(bytes, 8, Be16(VERSION));
    Put(bytes, 10, [DirectionByte(hello.direction)]);
    Put(bytes, 11, [hello.lanes]);
    Put(bytes, 12, Be32(hello.blockSize));
    Put(bytes, 16, Be64(hello.extentSize));
    Put(bytes, 24, Be64(hello.totalSize));
    Put(bytes, 32, hello.token);
    assert bytes[..HELLO_LEN] == bytes[..];
  }

  const LANE_HEADER_LEN: nat := 32

  /** "WRNFLAN1" */
  const LANE_MAGIC: seq<Byte> := [0x57, 0x52, 0x4E, 0x46, 0x4C, 0x41, 0x4E, 0x31]

  datatype LaneHeader = LaneHeader(laneId: U16, laneCount: U16, totalSize: U64, extentSize: U64) {
    predicate Valid() {
      laneId < laneCount
    }

    function Wire(): (r: seq<Byte>)
      ensures |r| == LANE_HEADER_LEN
    {
      LANE_MAGIC + Be16(VERSION) + Be16(laneId) + Be16(laneCount) + Zeros(2) + Be64(totalSize) + Be64(extentSize)
    }
  }

  function DecodeLaneHeader(bytes: seq<Byte>): Result<LaneHeader, Error>
    requires |bytes| == LANE_HEADER_LEN
  {
    if bytes[0..8] != LANE_MAGIC then Err(InvalidMagic)
    else if U16At(bytes, 8) != VERSION then Err(UnsupportedVersion(U16At(bytes, 8)))
    else
      var header := LaneHeader(U16At(bytes, 10), U16At(bytes, 12), U64At(bytes, 16), U64At(bytes, 24));
      if header.laneCount == 0 || header.laneId >= header.laneCount then Err(InvalidLane) else Ok(header)
  }

  lemma CutLaneHeader(bytes: seq<Byte>)
    requires |bytes| == LANE_HEADER_LEN
    ensures bytes == bytes[0..8] + bytes[8..10] + bytes[10..12] + bytes[12..14] + bytes[14..16] + bytes[16..24]
                     + bytes[24..32]
  {
  }

  lemma LaneHeaderRoundTrip(header: LaneHeader)
    ensures DecodeLaneHeader(header.Wire()) == if header.Valid() then Ok(header) else Err(InvalidLane)
  {
    var b := header.Wire();
    assert b[0..8] == LANE_MAGIC;
    assert b[8..10] == Be16(VERSION) && U16At(b, 8) == Number(b[8..10]);
    assert b[10..12] == Be16(header.laneId) && U16At(b, 10) == Number(b[10..12]);
    assert b[12..14] == Be16(header.laneCount) && U16At(b, 12) == Number(b[12..14]);
    assert b[16..24] == Be64(header.totalSize) && U64At(b, 16) == Number(b[16..24]);
    assert b[24..32] == Be64(header.extentSize) && U64At(b, 24) == Number(b[24..32]);
  }

  /** Which 32 bytes are accepted as a lane header, what is read from them, and which error comes first. */
  lemma LaneHeaderAccepted(bytes: seq<Byte>)
    requires |bytes| == 32
    ensures var r := DecodeLaneHeader(bytes);
            var magic, version := bytes[..8] == [87, 82, 78, 70, 76, 65, 78, 49], Two(bytes, 8);
            && (r == Err(InvalidMagic) <==> !magic)
            && (r == Err(UnsupportedVersion(version)) <==> magic && version != 3)
            && (r == Err(InvalidLane) <==> magic && version == 3 && Two(bytes, 10) >= Two(bytes, 12))
            && (r.Ok? <==> magic && version == 3 && Two(bytes, 10) < Two(bytes, 12))
    ensures DecodeLaneHeader(bytes).Ok? ==>
              DecodeLaneHeader(bytes).value
              == LaneHeader(Two(bytes, 10), Two(bytes, 12), Eight(bytes, 16), Eight(bytes, 24))
  {
    TwoBytes(bytes, 8);
    TwoBytes(bytes, 10);
    TwoBytes(bytes, 12);
    EightBytes(bytes, 16);
    EightBytes(bytes, 24);
  }

  /**
   * Two bytes of the lane header are reserved and not looked at: writing it again gives the same bytes exactly when
   * they were zero.
   */
  lemma LaneHeaderCanonical(bytes: seq<Byte>)
    requires |bytes| == LANE_HEADER_LEN && DecodeLaneHeader(bytes).Ok?
    ensures DecodeLaneHeader(bytes).value.Valid()
    ensures DecodeLaneHeader(bytes).value.Wire() == bytes <==> bytes[14] == 0 && bytes[15] == 0
  {
    CutLaneHeader(bytes);
    var again := DecodeLaneHeader(bytes).value.Wire();
    CutLaneHeader(again);
    assert again[14..16] == Zeros(2) && again[14] == 0 && again[15] == 0;
    if bytes[14] == 0 && bytes[15] == 0 {
      assert bytes[14..16] == Zeros(2);
    }
  }

  const EXTENT_HEADER_LEN: nat := 16

  datatype ExtentHeader = ExtentHeader(offset: U64, len: U64) {
    predicate IsEnd() {
      offset == 0 && len == 0
    }

    predicate Valid() {
      IsEnd() || (len > 0 && offset + len < TWO_64)
    }

    function Wire(): (r: seq<Byte>)
      ensures |r| == EXTENT_HEADER_LEN
    {
      Be64(offset) + Be64(len)
    }
  }

  /** Both fields as they stand, the way the native file lanes read them. */
  function ReadExtentHeader(bytes: seq<Byte>): ExtentHeader
    requires |bytes| == EXTENT_HEADER_LEN
  {
    ExtentHeader(U64At(bytes, 0), U64At(bytes, 8))
  }

  function DecodeExtentHeader(bytes: seq<Byte>): Result<ExtentHeader, Error>
    requires |bytes| == EXTENT_HEADER_LEN
  {
    var header := ReadExtentHeader(bytes);
    if header == ExtentHeader(0, 0) then Ok(header)
    else if header.len == 0 || header.offset + header.len >= TWO_64 then Err(InvalidExtent)
    else Ok(header)
  }

  lemma ExtentHeaderFields(header: ExtentHeader)
    ensures ReadExtentHeader(header.Wire()) == header
  {
    var b := header.Wire();
    assert b[0..8] == Be64(header.offset) && U64At(b, 0) == Number(b[0..8]);
    assert b[8..16] == Be64(header.len) && U64At(b, 8) == Number(b[8..16]);
  }

  /** Which 16 bytes are accepted as an extent header of the memory transfer, and what is read from them. */
  lemma ExtentHeaderAccepted(bytes: seq<Byte>)
    requires |bytes| == 16
    ensures ReadExtentHeader(bytes) == ExtentHeader(Eight(bytes, 0), Eight(bytes, 8))
    ensures var offset, len := Eight(bytes, 0), Eight(bytes, 8);
            DecodeExtentHeader(bytes)
            == if (offset == 0 && len == 0) || (len > 0 && offset + len <= 0xFFFF_FFFF_FFFF_FFFF)
               then Ok(ExtentHeader(offset, len)) else Err(InvalidExtent)
  {
    EightBytes(bytes, 0);
    EightBytes(bytes, 8);
  }

  lemma ExtentHeaderWritten(bytes: seq<Byte>)
    requires |bytes| == EXTENT_HEADER_LEN
    ensures ReadExtentHeader(bytes).Wire() == bytes
  {
    assert bytes == bytes[0..8] + bytes[8..16];
  }

  lemma ExtentHeaderRoundTrip(header: ExtentHeader)
    ensures DecodeExtentHeader(header.Wire()) == if header.Valid() then Ok(header) else Err(InvalidExtent)
  {
    ExtentHeaderFields(header);
  }

  lemma ExtentHeaderCanonical(bytes: seq<Byte>)
    requires |bytes| == EXTENT_HEADER_LEN && DecodeExtentHeader(bytes).Ok?
    ensures DecodeExtentHeader(bytes).value.Wire() == bytes && DecodeExtentHeader(bytes).value.Valid()
  {
    ExtentHeaderWritten(bytes);
  }
}
