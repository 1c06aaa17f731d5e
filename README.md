# libtins TCP segment builder in Dafny

This project models the core of libtins' `Tins::TCP` PDU (src/tcp.cpp). That class
holds a TCP header in memory, collects options and a payload, and
serializes the segment into a caller's buffer:

- the constructor and the field setters;
- `set_flag`, which writes the one-bit control fields;
- `add_option`, `set_mss` and `set_timestamp`, with the options' size
  accounting (`_options_size`, `_total_options_size`);
- `header_size`;
- `write_serialization`: the option loop with `TCPOption::write`, the
  padding loop, the payload copy, the data offset, and, under an IPv4
  parent, the checksum;
- the checksum itself: `do_checksum` word sums, `pseudoheader_checksum` and
  the carry-folding loop.

The model follows the code as written:

- A no-operation option (kind 1) is written as one byte but counted as
  `length + 2` bytes.
- The padding loop's 8-bit counter starts at the padded size, so for
  padded sizes below 256 it never writes a byte.
- The payload follows the option bytes directly. When the encoded options
  are shorter than the padded size (a no-operation option is present, or the
  raw size is not a multiple of 4), the last `totalOptionsSize -
  |EncodeOptions(options)|` bytes of the `header_size()` region, after the
  payload, are never written and keep whatever the caller's buffer held.
  The checksum covers the header and the bytes actually written, not those
  trailing bytes.

Modules:

- `Wire`: byte types, big-endian encodings of 16- and 32-bit values, and
  `Option`.
- `Checksum`: the 16-bit word sum, `do_checksum` as a loop, the fold of
  carries (a loop proved equal to a reference fold), the pseudo-header sum,
  and the Internet checksum of RFC 1071.
- `TcpOptions`: an option, its encoding by `TCPOption::write`, the size
  accounting, a reference parser, and the buffer-writing loops (options
  and padding) on an `array<byte>`.
- `TcpHeader`: the `tcphdr` value (the data offset and the flags byte)
  with its 20 wire bytes and a reference parser.
- `Tcp`: class `TCP`, whose fields are the header, the option list, the two
  size counters and the payload, updated in place by the setters and by
  `WriteSerialization`. The module also holds the specification of the
  serialized header and the checksum properties.

The parent PDU is `Option<IpAddresses>`: `Some` when it is an IPv4 packet,
holding its source and destination addresses, and `None` otherwise.

## Model

| member | source | states |
|---|---|---|
| Wire.BE16 | src/tcp.cpp:38-41 | the two bytes a 16-bit value has in memory after `net_to_host_s` on a little-endian host read back, high byte first, as that value |
| Tcp.TCP.constructor | src/tcp.cpp:35-43 | the header is zero except the ports, a data offset of 5 words and the default window 32678 in network order; no options, both size counters 0, no payload, so `header_size()` is 20 |
| Tcp.TCP.SetDport | src/tcp.cpp:50-52 | only the destination port changes; options, counters and payload are unchanged |
| Tcp.TCP.SetSport | src/tcp.cpp:54-56 | only the source port changes; everything else is unchanged |
| Tcp.TCP.SetSeq | src/tcp.cpp:58-60 | the sequence number is stored as given, with no byte-order conversion; nothing else changes |
| Tcp.TCP.SetAckSeq | src/tcp.cpp:62-64 | the acknowledgment number is stored as given; nothing else changes |
| Tcp.TCP.SetWindow | src/tcp.cpp:66-68 | the window is stored as given; nothing else changes |
| Tcp.TCP.SetCheck | src/tcp.cpp:70-72 | the checksum field is stored as given; nothing else changes |
| Tcp.TCP.SetUrgPtr | src/tcp.cpp:74-76 | the urgent pointer is stored as given; nothing else changes |
| Tcp.TCP.SetPayload | src/tcp.cpp:78-81 | the payload becomes the given bytes; header, options and counters are unchanged |
| Tcp.TCP.SetFlag | src/tcp.cpp:93-120 | the addressed flag is raised exactly when the value's low bit is 1 (a one-bit field keeps only that bit); every other flag and all other state are unchanged |
| Tcp.TCP.AddOption | src/tcp.cpp:122-129 | the option with a copy of the first `length` data bytes is appended; the raw size grows by `length + 2` whatever the kind; the padded size is the raw size rounded up to a multiple of 4; the size invariant holds again |
| Tcp.TCP.SetMss | src/tcp.cpp:83-86 | appends a kind-2 option holding the value's two bytes in network order; the raw size grows by 4 |
| Tcp.TCP.SetTimestamp | src/tcp.cpp:88-91 | appends a kind-8 option holding the value and then the echo reply, each in network order; the raw size grows by 10 |
| TcpOptions.AlignedOptionsSize | src/tcp.cpp:126-128 | the padded size is a multiple of 4, at least the raw size and less than 4 above it |
| TcpOptions.RawOptionsSizeAppend | src/tcp.cpp:125-126 | the raw size of a concatenation of option lists is the sum of their raw sizes |
| TcpOptions.EncodeOptionsAppend | src/tcp.cpp:165-166 | the encoding of a concatenation of option lists is the concatenation of their encodings |
| TcpOptions.EncodedLengthAccounting | src/tcp.cpp:126 | the encoded length plus `length + 1` for each no-operation option equals the raw size, so the encoded length never exceeds it; they are equal if and only if no option is a no-operation |
| TcpOptions.EncodedOptionsFit | src/tcp.cpp:156-158 | the option bytes the loop writes fit in the region `header_size()` reserves for options |
| Tcp.TCP.HeaderSize | src/tcp.cpp:156-158 | under the size accounting, the header size minus the fixed header and the payload is a multiple of 4, holds every encoded option byte and is less than 4 bytes above the raw option size |
| TcpOptions.ParseEncodeOptions | src/tcp.cpp:193-204 | a reference reader recovers every option list whose options are representable (a no-operation with no data, or total length below 256) from its encoding |
| TcpOptions.ParseOneOption | src/tcp.cpp:193-204 | the reader takes one representable option off the front of its encoding and continues with exactly the bytes that follow |
| TcpOptions.CopyBytes | src/tcp.cpp:176 | memcpy: the source bytes land at the position and every other byte is unchanged |
| TcpOptions.WriteOption | src/tcp.cpp:193-204 | kind 1 writes one byte and advances by 1; any other kind writes kind, `length + 2` cut to a byte and the data, and advances by `length + 2`; nothing outside the written span changes |
| TcpOptions.WriteOptions | src/tcp.cpp:165-166 | the loop leaves the concatenated encodings of all options, in insertion order, from the start position, and the returned position is just after them; bytes before and after are unchanged |
| TcpOptions.PadOptions | src/tcp.cpp:168-174 | writes the byte 1 exactly `PadLength` times from the position, where an 8-bit counter starting at the padded size cut to 8 bits runs up to the raw size; nothing else changes, and nothing at all when the count is 0 |
| TcpOptions.PaddingNeverWritten | src/tcp.cpp:168-173 | with the padded size add_option keeps and below 256, the padding step writes no bytes |
| TcpHeader.DataOffset | src/tcp.cpp:164 | when the padded options size is a multiple of 4 and at most 40, the stored data offset times 4 is the header length 20 plus that size |
| TcpHeader.UnpackPackFlags | src/tcp.cpp:93-120 | unpacking the bits packed for a flag order gives back exactly the raised flags among those in the order |
| TcpHeader.FlagByteRoundTrip | src/tcp.cpp:93-120 | header byte 13 decodes back to exactly the raised flags |
| TcpHeader.ParseHeaderBytes | src/tcp.cpp:187 | every header field can be read back from the 20 bytes copied into the buffer |
| Checksum.Sum16Append | src/tcp.cpp:181-182 | the word sum of a range split at an even offset is the sum of the two parts' word sums, so ranges can be summed separately and added |
| Checksum.DoChecksum | src/tcp.cpp:131-141 | the loop returns the sum of the range's big-endian 16-bit words, with an odd last byte counted as the high byte of a word |
| Checksum.PseudoheaderChecksum | src/tcp.cpp:143-154 | whenever the segment length fits 16 bits, the halves of the two addresses plus protocol 6 plus the length equal the word sum of the 12-byte pseudo-header of section 3.1 of RFC 793 |
| Checksum.FoldCarries | src/tcp.cpp:183-184 | the carry-folding loop ends with the reference fold of its input, a 16-bit value |
| Checksum.FoldCongruent | src/tcp.cpp:183-184 | folding preserves the value modulo 0xFFFF and maps 0, and only 0, to 0 |
| Checksum.FoldCarryStep | src/tcp.cpp:184 | one turn of the loop (low 16 bits plus the carries) does not change the fold |
| Checksum.Complement | src/tcp.cpp:185 | `~checksum` cut to 16 bits: each of the 16 bits of the result is the opposite of the same bit of the folded sum, so the two add up to 0xFFFF |
| Checksum.ComplementVerifies | src/tcp.cpp:183-185 | adding the complement of the folded sum back to the sum folds to 0xFFFF, the one's-complement negative zero |
| Checksum.InternetChecksum | src/tcp.cpp:183-185 | the RFC 1071 checksum of a byte stream, added to the stream's word sum, folds to 0xFFFF |
| Tcp.SerializedHeader | src/tcp.cpp:164-185 | serialization changes only the data offset and the checksum field; the data offset is computed from the padded size; without an IPv4 parent the checksum field is left as it was |
| Tcp.HeaderSumWithCheck | src/tcp.cpp:180-182 | the header's word sum is the sum with a zeroed checksum field plus the checksum word |
| Tcp.StampedCheck | src/tcp.cpp:180-185 | under an IPv4 parent the stored checksum is, in network order, the complement of the fold of pseudo-header sum, body sum and the sum of the final header with a zero checksum field |
| Tcp.StoredComplementVerifies | src/tcp.cpp:180-185 | storing that complement in the zeroed field makes the header's sum, added to the rest, fold to 0xFFFF |
| Tcp.SerializedChecksumVerifies | src/tcp.cpp:178-185 | the pseudo-header sum plus the word sum of the serialized header and the written body (option encodings and payload) folds to 0xFFFF; unwritten bytes after the payload are outside this sum |
| Tcp.PseudoSumSplits | src/tcp.cpp:181-182 | the word sum over pseudo-header, header and body is the pseudo-header sum plus the body's and the header's sums |
| Tcp.SerializedChecksumIsInternetChecksum | src/tcp.cpp:178-185 | for a segment length that fits 16 bits, the stored checksum is the RFC 1071 checksum of pseudo-header, zero-checksum header and body |
| Tcp.SerializationIdempotent | src/tcp.cpp:164-185 | serializing again with the same options, payload and parent stores the same header |
| Tcp.SegmentChecksum | src/tcp.cpp:181-184 | the sum of the pseudo-header sum and the two `do_checksum` results, carries folded, is the reference fold of the word sums |
| Tcp.StampHeader | src/tcp.cpp:164-186 | the data offset is set and, under an IPv4 parent, the checksum field is zeroed, summed over and replaced by the complement: the result is the specified serialized header |
| Tcp.WriteBody | src/tcp.cpp:162-177 | from offset 20 the buffer holds the option encodings and then the payload; the first 20 bytes and everything after the payload are unchanged; the end position lies within `header_size()` |
| Tcp.HeaderInFront | src/tcp.cpp:187 | copying the 20 header bytes over a buffer holding the body from offset 20 gives header, options, payload and the untouched rest |
| Tcp.PutHeader | src/tcp.cpp:187 | the final memcpy puts the header bytes in front of the body already written |
| Tcp.WriteSegment | src/tcp.cpp:160-188 | the buffer becomes the header bytes, the option encodings, the payload and then the buffer's old contents; the header returned is the specified serialized header |
| Tcp.TCP.WriteSerialization | src/tcp.cpp:160-188 | the stored header becomes the specified serialized header over options and payload, with `header_size()` as segment length; the buffer holds its bytes, the option encodings, the payload and then its old contents; options, counters and payload are unchanged and the size invariant still holds |

## Left out

- Sums are unbounded integers. The source's `uint32_t` accumulator could
  wrap for bodies of more than about 65 000 words. That wrap is not
  modelled.
- Widths of `_options_size`, `_total_options_size` and `_payload_size`: these
  are declared in tcp.h, and tcp.h is not part of this model. Sizes are
  unbounded naturals. Only the 8-bit option length and the 8-bit padding
  counter are modelled as bytes.
- The `dynamic_cast` to `IP*` and the IP class are replaced by
  `Option<IpAddresses>`. ip.h is not part of this model.
- Host byte order: the model assumes a little-endian host. `net_to_host_s`
  and `net_to_host_l` are modelled by the big-endian encodings `BE16` and
  `BE32`. `set_timestamp`'s 64-bit assembly is modelled as
  value-then-reply.
- Memory management: the destructor, the owned option copies and the
  borrowed payload pointer are left out. The payload is a byte sequence.
- The PDU base class and its chaining of inner PDUs are left out.
- `assert(total_sz >= header_size())` is a precondition of
  `WriteSerialization`.
- Tcp.TCP.WriteSerialization also requires the raw option size to equal the
  padded size, or the padded size to be below 256. Otherwise the padding
  loop's 8-bit counter starts at the padded size cut to 8 bits and may write
  up to 255 bytes. For raw sizes of 256 or more it never stops. `PadOptions`
  models that loop for any raw size below 256.
- Tcp.WriteSegment and Tcp.StampHeader: the checksum is computed over the
  option encodings and the payload as values. The source reads those bytes
  back from the buffer. `WriteBody` proves they are exactly the bytes in the
  buffer from offset 20, so the value is the same.
- Tcp.SerializedChecksumVerifies: a receiver sums all `header_size()` bytes.
  When the encoded options are shorter than the padded size, the trailing
  bytes after the payload are never written, so whether a receiver's check
  passes depends on the caller's buffer. The lemma covers only the header and
  the bytes written.
- Checksum.Fold is the reference definition of folding: repeatedly
  subtracting 0xFFFF until the value fits 16 bits. The source's
  low-bits-plus-carries loop is `FoldCarries`, proved to compute it.
- Where documentation would suggest padding the options with no-operation
  bytes, the model follows the code: no padding byte is written, and a
  no-operation option with data is counted as `length + 2` but written as
  one byte.
