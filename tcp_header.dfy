/** The 20-byte TCP header the segment keeps in memory (`tcphdr`), as a
    value with explicit pack and unpack routines in the field order of
    section 3.1 of RFC 793 (ECE and CWR from section 6.1 of RFC 3168). */
module TcpHeader {
  import opened Wire

  type Nibble = x: int | 0 <= x < 0x10

  const FIXED_HEADER_SIZE: nat := 20
  const DEFAULT_WINDOW: uint16 := 32678

  /** The eight control bits set_flag can address. */
  datatype Flag = FIN | SYN | RST | PSH | ACK | URG | ECE | CWR

  /** The flags in the order of their bits in header byte 13, least
      significant first: FIN is 0x01 and CWR is 0x80. */
  const FlagOrder: seq<Flag> := [FIN, SYN, RST, PSH, ACK, URG, ECE, CWR]

  /** The in-memory header. Ports are numbers that are stored big-endian;
      sequence and acknowledgment numbers, window, checksum and urgent
      pointer are kept as the bytes they have on the wire, because their
      setters store the caller's value without conversion. `flags` holds the
      raised control bits. The reserved bits stay zero. */
  datatype Header = Header(
    sport: uint16,
    dport: uint16,
    seqNum: Bytes4,
    ackSeq: Bytes4,
    doff: Nibble,
    flags: set<Flag>,
    window: Bytes2,
    check: Bytes2,
    urgPtr: Bytes2)

  /** The header the constructor builds: everything zero but the ports,
      a data offset of five words and the default window in network order. */
  function DefaultHeader(dport: uint16, sport: uint16): Header
  {
    Header(sport, dport, [0, 0, 0, 0], [0, 0, 0, 0], FIXED_HEADER_SIZE / 4, {},
           BE16(DEFAULT_WINDOW), [0, 0], [0, 0])
  }

  /** The data offset write_serialization stores: the header length in
      32-bit words, truncated to the 4-bit field. */
  function DataOffset(totalOptionsSize: nat): (doff: Nibble)
    ensures totalOptionsSize % 4 == 0 && totalOptionsSize <= 40 ==> doff * 4 == FIXED_HEADER_SIZE + totalOptionsSize
  {
    ((FIXED_HEADER_SIZE + totalOptionsSize) / 4) % 0x10
  }

  /** `order` packed into bits, one bit per flag, the first flag lowest. */
  function PackFlags(fs: set<Flag>, order: seq<Flag>): nat
  {
    if order == [] then 0
    else (if order[0] in fs then 1 else 0) + 2 * PackFlags(fs, order[1..])
  }

  /** The flags of `order` whose bits are set in `b`. */
  function UnpackFlags(b: nat, order: seq<Flag>): set<Flag>
  {
    if order == [] then {}
    else (if b % 2 == 1 then {order[0]} else {}) + UnpackFlags(b / 2, order[1..])
  }

  /** Header byte 13: one bit per raised flag. */
  function FlagByte(fs: set<Flag>): byte
  {
    FlagByteFits(fs);
    PackFlags(fs, FlagOrder)
  }

  /** The flags whose bits are set in a byte. */
  function DecodeFlags(b: byte): set<Flag>
  {
    UnpackFlags(b, FlagOrder)
  }

  lemma {:induction false} PackFlagsBound(fs: set<Flag>, order: seq<Flag>)
    ensures PackFlags(fs, order) < Pow2(|order|)
    decreases |order|
  {
    if order != [] {
      PackFlagsBound(fs, order[1..]);
    }
  }

  lemma FlagByteFits(fs: set<Flag>)
    ensures PackFlags(fs, FlagOrder) < 0x100
  {
    PackFlagsBound(fs, FlagOrder);
    assert Pow2(2) == 4 && Pow2(4) == 16 && Pow2(6) == 64 && Pow2(8) == 0x100;
  }

  /** Unpacking recovers exactly the raised flags among those packed. */
  lemma {:induction false} UnpackPackFlags(fs: set<Flag>, order: seq<Flag>)
    ensures UnpackFlags(PackFlags(fs, order), order) == fs * set f | f in order
    decreases |order|
  {
    if order != [] {
      var bit := if order[0] in fs then 1 else 0;
      HalveLowBit(bit, PackFlags(fs, order[1..]));
      UnpackPackFlags(fs, order[1..]);
      assert (set f | f in order) == {order[0]} + set f | f in order[1..];
    }
  }

  /** The low bit and the rest of a number written as `bit + 2 * rest`. */
  lemma HalveLowBit(bit: nat, rest: nat)
    requires bit < 2
    ensures (bit + 2 * rest) % 2 == bit && (bit + 2 * rest) / 2 == rest
  {
  }

  /** Header byte 13 decodes back to the flags that were raised. */
  lemma FlagByteRoundTrip(fs: set<Flag>)
    ensures DecodeFlags(FlagByte(fs)) == fs
  {
    UnpackPackFlags(fs, FlagOrder);
    forall f: Flag
      ensures f in FlagOrder
    {
      match f
      case FIN => assert FlagOrder[0] == f;
      case SYN => assert FlagOrder[1] == f;
      case RST => assert FlagOrder[2] == f;
      case PSH => assert FlagOrder[3] == f;
      case ACK => assert FlagOrder[4] == f;
      case URG => assert FlagOrder[5] == f;
      case ECE => assert FlagOrder[6] == f;
      case CWR => assert FlagOrder[7] == f;
    }
  }

  /** The header's 20 bytes as memcpy copies them into the buffer. */
  function HeaderBytes(h: Header): (r: seq<byte>)
    ensures |r| == FIXED_HEADER_SIZE
  {
    BE16(h.sport) + BE16(h.dport) + h.seqNum + h.ackSeq +
    [h.doff * 0x10, FlagByte(h.flags)] + h.window + h.check + h.urgPtr
  }

  /** A reference reader for the 20 header bytes. */
  function ParseHeader(b: seq<byte>): Header
    requires |b| == FIXED_HEADER_SIZE
  {
    Header(Word(b[0], b[1]), Word(b[2], b[3]), b[4..8], b[8..12], b[12] / 0x10,
           DecodeFlags(b[13]), b[14..16], b[16..18], b[18..20])
  }

  /** Every header field survives the trip to the wire and back. */
  lemma ParseHeaderBytes(h: Header)
    ensures ParseHeader(HeaderBytes(h)) == h
  {
    var b := HeaderBytes(h);
    assert b[0..2] == BE16(h.sport);
    assert b[2..4] == BE16(h.dport);
    assert b[4..8] == h.seqNum;
    assert b[8..12] == h.ackSeq;
    assert b[12] == h.doff * 0x10;
    assert b[13] == FlagByte(h.flags);
    assert b[14..16] == h.window;
    assert b[16..18] == h.check;
    assert b[18..20] == h.urgPtr;
    FlagByteRoundTrip(h.flags);
  }
}
