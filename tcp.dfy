/** Tins::TCP: a TCP segment under construction. It keeps the in-memory
    header, the option list with its size accounting and the payload, and
    serializes them into a caller's buffer, patching in the Internet checksum
    when the enclosing packet supplies IPv4 addresses. */
module Tcp {
  import opened Wire
  import opened Checksum
  import opened TcpOptions
  import opened TcpHeader

  /** What serialization learns from the enclosing packet: its IPv4 source
      and destination addresses, as numbers, when it is an IP packet. */
  datatype IpAddresses = IpAddresses(source: uint32, dest: uint32)

  /** The header as write_serialization leaves it: the data offset recomputed
      from the padded options size and, under an IP parent, the checksum of
      the pseudo-header, the options and payload actually written (`body`)
      and the header with its checksum field zeroed. Under any other parent
      the checksum keeps the value last stored. */
  function SerializedHeader(h: Header, totalOptionsSize: nat, body: seq<byte>, segmentLength: nat,
                            parent: Option<IpAddresses>): (r: Header)
    ensures r.(doff := h.doff, check := h.check) == h
    ensures r.doff == DataOffset(totalOptionsSize)
    ensures parent == None ==> r.check == h.check
  {
    var withOffset := h.(doff := DataOffset(totalOptionsSize));
    match parent
    case None => withOffset
    case Some(ip) =>
      var zeroed := withOffset.(check := [0, 0]);
      var checksum := PseudoheaderChecksum(ip.source, ip.dest, segmentLength)
                      + Sum16(body) + Sum16(HeaderBytes(zeroed));
      zeroed.(check := BE16(Complement(Fold(checksum))))
  }

  /** The checksum field's word is added into the header's word sum: the
      field sits at the even offset 16. */
  lemma HeaderSumWithCheck(h: Header)
    ensures Sum16(HeaderBytes(h)) == Sum16(HeaderBytes(h.(check := [0, 0]))) + Word(h.check[0], h.check[1])
  {
    var z := h.(check := [0, 0]);
    var front := BE16(h.sport) + BE16(h.dport) + h.seqNum + h.ackSeq + [h.doff * 0x10, FlagByte(h.flags)] + h.window;
    assert |front| == 16;
    assert HeaderBytes(h) == front + (h.check + h.urgPtr);
    assert HeaderBytes(z) == front + ([0, 0] + h.urgPtr);
    Sum16Append(front, h.check + h.urgPtr);
    Sum16Append(front, [0, 0] + h.urgPtr);
    Sum16Append(h.check, h.urgPtr);
    Sum16Append([0, 0], h.urgPtr);
    assert Sum16(h.check) == Word(h.check[0], h.check[1]);
    assert Sum16([0, 0]) == 0;
  }

  /** Under an IP parent the stored checksum is the complement of the
      folded sum over the pseudo-header, the body and the header as it ends
      up with its checksum field zeroed. */
  lemma StampedCheck(h: Header, totalOptionsSize: nat, body: seq<byte>, segmentLength: nat, ip: IpAddresses)
    ensures var r := SerializedHeader(h, totalOptionsSize, body, segmentLength, Some(ip));
      r.check == BE16(Complement(Fold(PseudoheaderChecksum(ip.source, ip.dest, segmentLength)
                                         + Sum16(body) + Sum16(HeaderBytes(r.(check := [0, 0]))))))
  {
    var r := SerializedHeader(h, totalOptionsSize, body, segmentLength, Some(ip));
    assert r.(check := [0, 0]) == h.(doff := DataOffset(totalOptionsSize), check := [0, 0]);
  }

  /** Storing the complement of a folded total in a zeroed checksum field
      makes the header sum, added to the rest of the total, fold to 0xFFFF. */
  lemma StoredComplementVerifies(z: Header, rest: nat, body: seq<byte>, r: Header)
    requires z.check == [0, 0]
    requires r == z.(check := BE16(Complement(Fold(rest + Sum16(body) + Sum16(HeaderBytes(z))))))
    ensures Fold(rest + Sum16(HeaderBytes(r) + body)) == 0xFFFF
  {
    var total := rest + Sum16(body) + Sum16(HeaderBytes(z));
    var c := Complement(Fold(total));
    assert r.(check := [0, 0]) == z;
    assert Sum16(HeaderBytes(r)) == Sum16(HeaderBytes(z)) + c by {
      HeaderSumWithCheck(r);
    }
    assert Sum16(HeaderBytes(r) + body) == Sum16(HeaderBytes(r)) + Sum16(body) by {
      Sum16Append(HeaderBytes(r), body);
    }
    assert rest + Sum16(HeaderBytes(r) + body) == total + (0xFFFF - Fold(total));
    ComplementVerifies(total);
  }

  /** Summing the pseudo-header, the serialized header (checksum in place)
      and the written body folds to 0xFFFF. Unwritten bytes the header size
      reserves after the payload are not part of this sum. */
  lemma SerializedChecksumVerifies(h: Header, totalOptionsSize: nat, body: seq<byte>, segmentLength: nat,
                                   ip: IpAddresses)
    ensures var r := SerializedHeader(h, totalOptionsSize, body, segmentLength, Some(ip));
      Fold(PseudoheaderChecksum(ip.source, ip.dest, segmentLength) + Sum16(HeaderBytes(r) + body)) == 0xFFFF
  {
    var r := SerializedHeader(h, totalOptionsSize, body, segmentLength, Some(ip));
    var z := r.(check := [0, 0]);
    var pseudo := PseudoheaderChecksum(ip.source, ip.dest, segmentLength);
    StampedCheck(h, totalOptionsSize, body, segmentLength, ip);
    assert r == z.(check := r.check);
    StoredComplementVerifies(z, pseudo, body, r);
  }

  /** The stored checksum is the RFC 1071 Internet checksum of the RFC 793
      pseudo-header, the header with a zero checksum field and the body,
      whenever the segment length fits the pseudo-header's 16-bit field. */
  lemma SerializedChecksumIsInternetChecksum(h: Header, totalOptionsSize: nat, body: seq<byte>,
                                             segmentLength: uint16, ip: IpAddresses)
    ensures var r := SerializedHeader(h, totalOptionsSize, body, segmentLength, Some(ip));
      r.check == BE16(InternetChecksum(PseudoHeaderBytes(ip.source, ip.dest, segmentLength)
                                       + HeaderBytes(r.(check := [0, 0])) + body))
  {
    var r := SerializedHeader(h, totalOptionsSize, body, segmentLength, Some(ip));
    StampedCheck(h, totalOptionsSize, body, segmentLength, ip);
    PseudoSumSplits(ip.source, ip.dest, segmentLength, HeaderBytes(r.(check := [0, 0])), body);
  }

  /** The word sum over pseudo-header, header and body is the pseudo-header
      sum plus the sums of the other two. */
  lemma PseudoSumSplits(source: uint32, dest: uint32, segmentLength: uint16, header: seq<byte>, body: seq<byte>)
    requires |header| == FIXED_HEADER_SIZE
    ensures Sum16(PseudoHeaderBytes(source, dest, segmentLength) + header + body)
         == PseudoheaderChecksum(source, dest, segmentLength) + Sum16(body) + Sum16(header)
  {
    Sum16Concat3(PseudoHeaderBytes(source, dest, segmentLength), header, body);
  }

  /** Serializing again with nothing changed stores the same header. */
  lemma SerializationIdempotent(h: Header, totalOptionsSize: nat, body: seq<byte>, segmentLength: nat,
                                parent: Option<IpAddresses>)
    ensures var once := SerializedHeader(h, totalOptionsSize, body, segmentLength, parent);
      SerializedHeader(once, totalOptionsSize, body, segmentLength, parent) == once
  {
  }

  /** The checksum expression of write_serialization: the pseudo-header
      sum plus the word sums of the body and of the header, carries folded. */
  method SegmentChecksum(pseudo: nat, body: seq<byte>, header: Header) returns (checksum: uint16)
    ensures checksum == Fold(pseudo + Sum16(body) + Sum16(HeaderBytes(header)))
  {
    var bodySum := DoChecksum(body);
    var headerSum := DoChecksum(HeaderBytes(header));
    checksum := FoldCarries(pseudo + bodySum + headerSum);
  }

  /** The header steps of write_serialization: store the data offset and,
      under an IP parent, zero the checksum field, sum the pseudo-header,
      the written body and the header, fold the carries and store the
      complement in network order. */
  method StampHeader(h: Header, totalOptionsSize: nat, body: seq<byte>, segmentLength: nat,
                     parent: Option<IpAddresses>) returns (r: Header)
    ensures r == SerializedHeader(h, totalOptionsSize, body, segmentLength, parent)
  {
    match parent {
      case None =>
        r := h.(doff := DataOffset(totalOptionsSize));
      case Some(ip) =>
        var zeroed := h.(doff := DataOffset(totalOptionsSize), check := [0, 0]);
        var pseudo := PseudoheaderChecksum(ip.source, ip.dest, segmentLength);
        var checksum := SegmentChecksum(pseudo, body, zeroed);
        r := zeroed.(check := BE16(Complement(checksum)));
    }
  }

  /** The middle of write_serialization: the option loop, the padding
      loop and the payload copy, through a position that advances from
      offset 20. With the padded size below 256 the padding loop's 8-bit
      counter starts at or above the raw size, so it writes nothing. */
  method WriteBody(options: seq<TcpOption>, optionsSize: nat, totalOptionsSize: nat, payload: seq<byte>,
                   buffer: array<byte>) returns (pos: nat)
    requires optionsSize == RawOptionsSize(options)
    requires totalOptionsSize == AlignedOptionsSize(optionsSize)
    requires optionsSize == totalOptionsSize || totalOptionsSize < 0x100
    requires FIXED_HEADER_SIZE + totalOptionsSize + |payload| <= buffer.Length
    modifies buffer
    ensures pos == FIXED_HEADER_SIZE + |EncodeOptions(options)| + |payload|
    ensures pos <= FIXED_HEADER_SIZE + totalOptionsSize + |payload|
    ensures buffer[..] == old(buffer[..])[..FIXED_HEADER_SIZE] + (EncodeOptions(options) + payload) + old(buffer[..])[pos..]
  {
    EncodedOptionsFit(options);
    ghost var original := buffer[..];
    ghost var encoded := EncodeOptions(options);
    pos := WriteOptions(options, buffer, FIXED_HEADER_SIZE);
    ghost var afterOptions := buffer[..];
    if optionsSize < totalOptionsSize {
      PaddingNeverWritten(optionsSize);
    }
    pos := PadOptions(buffer, pos, optionsSize, totalOptionsSize);
    CopyBytes(buffer, pos, payload);
    Splice(original, FIXED_HEADER_SIZE, pos, encoded, payload, afterOptions, buffer[..]);
    pos := pos + |payload|;
  }

  /** Copying the header over the first 20 bytes of a buffer that holds
      `encoded` and `payload` from offset 20 puts the whole segment in front. */
  lemma HeaderInFront(original: seq<byte>, written: seq<byte>, after: seq<byte>, header: seq<byte>,
                      encoded: seq<byte>, payload: seq<byte>, pos: nat)
    requires |header| == FIXED_HEADER_SIZE <= |original| == |after|
    requires pos == FIXED_HEADER_SIZE + |encoded| + |payload| <= |original|
    requires written == original[..FIXED_HEADER_SIZE] + (encoded + payload) + original[pos..]
    requires forall k | 0 <= k < FIXED_HEADER_SIZE :: after[k] == header[k]
    requires forall k | FIXED_HEADER_SIZE <= k < |after| :: after[k] == written[k]
    ensures after == header + encoded + payload + original[pos..]
  {
    var expected := header + encoded + payload + original[pos..];
    forall k | 0 <= k < |after|
      ensures after[k] == expected[k]
    {
      if k >= FIXED_HEADER_SIZE {
        assert expected[k] == written[k];
      }
    }
  }

  /** write_serialization on the segment's state as values: the body is
      written from offset 20, the header is stamped over the written body
      and copied to the front. */
  method WriteSegment(h: Header, options: seq<TcpOption>, optionsSize: nat, totalOptionsSize: nat,
                      payload: seq<byte>, segmentLength: nat, parent: Option<IpAddresses>,
                      buffer: array<byte>)
    returns (header: Header)
    requires optionsSize == RawOptionsSize(options)
    requires totalOptionsSize == AlignedOptionsSize(optionsSize)
    requires optionsSize == totalOptionsSize || totalOptionsSize < 0x100
    requires FIXED_HEADER_SIZE + totalOptionsSize + |payload| <= buffer.Length
    modifies buffer
    ensures header == SerializedHeader(h, totalOptionsSize, EncodeOptions(options) + payload, segmentLength, parent)
    ensures FIXED_HEADER_SIZE + |EncodeOptions(options)| + |payload| <= FIXED_HEADER_SIZE + totalOptionsSize + |payload|
    ensures buffer[..] == HeaderBytes(header) + EncodeOptions(options) + payload
                          + old(buffer[..])[FIXED_HEADER_SIZE + |EncodeOptions(options)| + |payload|..]
  {
    ghost var original := buffer[..];
    var pos := WriteBody(options, optionsSize, totalOptionsSize, payload, buffer);
    var body := EncodeOptions(options) + payload;
    header := StampHeader(h, totalOptionsSize, body, segmentLength, parent);
    PutHeader(buffer, HeaderBytes(header), original, EncodeOptions(options), payload, pos);
  }

  /** The final memcpy of write_serialization: the header goes over the
      first 20 bytes, in front of the body already written. */
  method PutHeader(buffer: array<byte>, header: seq<byte>, ghost original: seq<byte>,
                   ghost encoded: seq<byte>, ghost payload: seq<byte>, ghost pos: nat)
    requires |header| == FIXED_HEADER_SIZE <= |original| == buffer.Length
    requires pos == FIXED_HEADER_SIZE + |encoded| + |payload| <= |original|
    requires buffer[..] == original[..FIXED_HEADER_SIZE] + (encoded + payload) + original[pos..]
    modifies buffer
    ensures buffer[..] == header + encoded + payload + original[pos..]
  {
    ghost var written := buffer[..];
    CopyBytes(buffer, 0, header);
    HeaderInFront(original, written, buffer[..], header, encoded, payload, pos);
  }

  /** The segment. Field names follow the source's members. */
  class TCP {
    var tcp: Header
    var options: seq<TcpOption>
    var optionsSize: nat
    var totalOptionsSize: nat
    var payload: seq<byte>

    /** The size accounting add_option keeps. */
    ghost predicate Valid()
      reads this`options, this`optionsSize, this`totalOptionsSize
    {
      && optionsSize == RawOptionsSize(options)
      && totalOptionsSize == AlignedOptionsSize(optionsSize)
    }

    /** header_size(): the fixed header, the payload and the padded options.
        Under the size accounting the options' region is a multiple of 4 that
        holds every encoded option byte and is less than 4 bytes above the
        raw option size. */
    function HeaderSize(): (size: nat)
      reads this`payload, this`options, this`optionsSize, this`totalOptionsSize
      ensures Valid() ==> (size - FIXED_HEADER_SIZE - |payload|) % 4 == 0
      ensures Valid() ==> FIXED_HEADER_SIZE + |EncodeOptions(options)| + |payload| <= size
      ensures Valid() ==> size < FIXED_HEADER_SIZE + optionsSize + |payload| + 4
    {
      EncodedOptionsFit(options);
      FIXED_HEADER_SIZE + |payload| + totalOptionsSize
    }

    constructor (dport: uint16, sport: uint16)
      ensures Valid()
      ensures tcp == DefaultHeader(dport, sport)
      ensures options == [] && optionsSize == 0 && totalOptionsSize == 0 && payload == []
      ensures HeaderSize() == FIXED_HEADER_SIZE
    {
      tcp := DefaultHeader(dport, sport);
      options := [];
      optionsSize := 0;
      totalOptionsSize := 0;
      payload := [];
    }

    method SetDport(newDport: uint16)
      modifies this
      ensures tcp == old(tcp).(dport := newDport)
      ensures options == old(options) && optionsSize == old(optionsSize)
      ensures totalOptionsSize == old(totalOptionsSize) && payload == old(payload)
    {
      tcp := tcp.(dport := newDport);
    }

    method SetSport(newSport: uint16)
      modifies this
      ensures tcp == old(tcp).(sport := newSport)
      ensures options == old(options) && optionsSize == old(optionsSize)
      ensures totalOptionsSize == old(totalOptionsSize) && payload == old(payload)
    {
      tcp := tcp.(sport := newSport);
    }

    /** seq(): stored as given, so the argument is its wire bytes. */
    method SetSeq(newSeq: Bytes4)
      modifies this
      ensures tcp == old(tcp).(seqNum := newSeq)
      ensures options == old(options) && optionsSize == old(optionsSize)
      ensures totalOptionsSize == old(totalOptionsSize) && payload == old(payload)
    {
      tcp := tcp.(seqNum := newSeq);
    }

    method SetAckSeq(newAckSeq: Bytes4)
      modifies this
      ensures tcp == old(tcp).(ackSeq := newAckSeq)
      ensures options == old(options) && optionsSize == old(optionsSize)
      ensures totalOptionsSize == old(totalOptionsSize) && payload == old(payload)
    {
      tcp := tcp.(ackSeq := newAckSeq);
    }

    method SetWindow(newWindow: Bytes2)
      modifies this
      ensures tcp == old(tcp).(window := newWindow)
      ensures options == old(options) && optionsSize == old(optionsSize)
      ensures totalOptionsSize == old(totalOptionsSize) && payload == old(payload)
    {
      tcp := tcp.(window := newWindow);
    }

    method SetCheck(newCheck: Bytes2)
      modifies this
      ensures tcp == old(tcp).(check := newCheck)
      ensures options == old(options) && optionsSize == old(optionsSize)
      ensures totalOptionsSize == old(totalOptionsSize) && payload == old(payload)
    {
      tcp := tcp.(check := newCheck);
    }

    method SetUrgPtr(newUrgPtr: Bytes2)
      modifies this
      ensures tcp == old(tcp).(urgPtr := newUrgPtr)
      ensures options == old(options) && optionsSize == old(optionsSize)
      ensures totalOptionsSize == old(totalOptionsSize) && payload == old(payload)
    {
      tcp := tcp.(urgPtr := newUrgPtr);
    }

    /** payload(): the bytes to carry after the options. */
    method SetPayload(newPayload: seq<byte>)
      modifies this
      ensures payload == newPayload
      ensures tcp == old(tcp) && options == old(options)
      ensures optionsSize == old(optionsSize) && totalOptionsSize == old(totalOptionsSize)
    {
      payload := newPayload;
    }

    /** set_flag: a one-bit field keeps only the low bit of the value. */
    method SetFlag(flag: Flag, value: byte)
      modifies this
      ensures tcp == old(tcp).(flags := if value % 2 == 1 then old(tcp).flags + {flag} else old(tcp).flags - {flag})
      ensures forall f :: f != flag ==> (f in tcp.flags <==> f in old(tcp).flags)
      ensures flag in tcp.flags <==> value % 2 == 1
      ensures options == old(options) && optionsSize == old(optionsSize)
      ensures totalOptionsSize == old(totalOptionsSize) && payload == old(payload)
    {
      tcp := tcp.(flags := if value % 2 == 1 then tcp.flags + {flag} else tcp.flags - {flag});
    }

    /** add_option: appends a copy of the first `length` bytes of `data` and
        counts `length + 2` bytes for it, whatever its kind. */
    method AddOption(kind: byte, length: byte, data: seq<byte>)
      requires Valid()
      requires length as int <= |data|
      modifies this
      ensures Valid()
      ensures options == old(options) + [TcpOption(kind, data[..length])]
      ensures optionsSize == old(optionsSize) + length as int + 2
      ensures tcp == old(tcp) && payload == old(payload)
    {
      var newData := data[..length];
      options := options + [TcpOption(kind, newData)];
      RawOptionsSizeAppend(old(options), [TcpOption(kind, newData)]);
      assert RawOptionsSize([TcpOption(kind, newData)]) == length as int + 2;
      optionsSize := optionsSize + length as int + 2;
      totalOptionsSize := AlignedOptionsSize(optionsSize);
    }

    /** set_mss: a maximum-segment-size option holding the value in network order. */
    method SetMss(value: uint16)
      requires Valid()
      modifies this
      ensures Valid()
      ensures options == old(options) + [TcpOption(MSS, [value / 0x100, value % 0x100])]
      ensures optionsSize == old(optionsSize) + 4
      ensures tcp == old(tcp) && payload == old(payload)
    {
      assert BE16(value)[..2] == BE16(value);
      AddOption(MSS, 2, BE16(value));
    }

    /** set_timestamp on a little-endian host: the value, then the echo
        reply, each in network order. */
    method SetTimestamp(value: uint32, reply: uint32)
      requires Valid()
      modifies this
      ensures Valid()
      ensures options == old(options) + [TcpOption(TSOPT, BE32(value) + BE32(reply))]
      ensures optionsSize == old(optionsSize) + 10
      ensures tcp == old(tcp) && payload == old(payload)
    {
      assert (BE32(value) + BE32(reply))[..8] == BE32(value) + BE32(reply);
      AddOption(TSOPT, 8, BE32(value) + BE32(reply));
    }

    /** write_serialization. Requires the buffer to hold `totalSz` bytes, at
        least header_size(). The options are written from offset 20 in
        insertion order and the payload right after the bytes they took; the
        padding loop writes nothing, so the tail of the header_size() region
        keeps what the buffer held. The header goes in last. */
    method WriteSerialization(buffer: array<byte>, totalSz: nat, parent: Option<IpAddresses>)
      requires Valid()
      requires totalSz <= buffer.Length
      requires totalSz >= HeaderSize()
      requires optionsSize == totalOptionsSize || totalOptionsSize < 0x100
      modifies this, buffer
      ensures Valid()
      ensures options == old(options) && optionsSize == old(optionsSize)
      ensures totalOptionsSize == old(totalOptionsSize) && payload == old(payload)
      ensures tcp == SerializedHeader(old(tcp), totalOptionsSize, EncodeOptions(options) + payload,
                                      HeaderSize(), parent)
      ensures FIXED_HEADER_SIZE + |EncodeOptions(options)| + |payload| <= HeaderSize()
      ensures buffer[..] == HeaderBytes(tcp) + EncodeOptions(options) + payload
                            + old(buffer[..])[FIXED_HEADER_SIZE + |EncodeOptions(options)| + |payload|..]
    {
      var header := WriteSegment(tcp, options, optionsSize, totalOptionsSize, payload, HeaderSize(), parent, buffer);
      tcp := header;
    }
  }
}
