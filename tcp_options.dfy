/** TCP options: the per-option wire encoding of TCPOption::write, the size
    accounting of add_option and the buffer-writing steps of the option loop. */
module TcpOptions {
  import opened Wire

  /** Option kinds the segment builder names (IANA TCP option kinds). */
  const NOP: byte := 1
  const MSS: byte := 2
  const TSOPT: byte := 8

  /** An option's data length travels in a `uint8_t`. */
  type OptionData = s: seq<byte> | |s| < 0x100

  /** One stored option: its kind and its owned copy of the data. */
  datatype TcpOption = TcpOption(kind: byte, data: OptionData)

  /** TCPOption::write as bytes: kind 1 is the single byte 1 whatever data
      it holds; any other kind is kind, total length (truncated to a byte),
      then the data. */
  function EncodeOption(o: TcpOption): seq<byte>
  {
    if o.kind == NOP then [o.kind]
    else [o.kind, (|o.data| + 2) % 0x100] + o.data
  }

  /** All options in insertion order. */
  function EncodeOptions(opts: seq<TcpOption>): seq<byte>
  {
    if opts == [] then [] else EncodeOption(opts[0]) + EncodeOptions(opts[1..])
  }

  /** `_options_size` as add_option keeps it: `length + 2` for every option,
      the no-operation kind included. */
  function RawOptionsSize(opts: seq<TcpOption>): nat
  {
    if opts == [] then 0 else |opts[0].data| + 2 + RawOptionsSize(opts[1..])
  }

  /** The bytes by which RawOptionsSize overstates the encoding: `length + 1`
      for each no-operation option. */
  function NopExcess(opts: seq<TcpOption>): nat
  {
    if opts == [] then 0
    else (if opts[0].kind == NOP then |opts[0].data| + 1 else 0) + NopExcess(opts[1..])
  }

  /** `_total_options_size`: the raw size rounded up to a multiple of 4. */
  function AlignedOptionsSize(raw: nat): (total: nat)
    ensures total % 4 == 0
    ensures raw <= total < raw + 4
  {
    var padding := raw % 4;
    if padding != 0 then raw - padding + 4 else raw
  }

  lemma {:induction false} EncodeOptionsAppend(a: seq<TcpOption>, b: seq<TcpOption>)
    ensures EncodeOptions(a + b) == EncodeOptions(a) + EncodeOptions(b)
    decreases |a|
  {
    if a == [] {
      assert a + b == b;
    } else {
      assert (a + b)[1..] == a[1..] + b;
      EncodeOptionsAppend(a[1..], b);
    }
  }

  lemma {:induction false} RawOptionsSizeAppend(a: seq<TcpOption>, b: seq<TcpOption>)
    ensures RawOptionsSize(a + b) == RawOptionsSize(a) + RawOptionsSize(b)
    decreases |a|
  {
    if a == [] {
      assert a + b == b;
    } else {
      assert (a + b)[1..] == a[1..] + b;
      RawOptionsSizeAppend(a[1..], b);
    }
  }

  /** The encoded options are exactly the accounted size less the
      no-operation excess; they match the accounted size if and only if no
      option is of the no-operation kind. */
  lemma {:induction false} EncodedLengthAccounting(opts: seq<TcpOption>)
    ensures |EncodeOptions(opts)| + NopExcess(opts) == RawOptionsSize(opts)
    ensures |EncodeOptions(opts)| <= RawOptionsSize(opts)
    ensures |EncodeOptions(opts)| == RawOptionsSize(opts) <==> forall i :: 0 <= i < |opts| ==> opts[i].kind != NOP
    decreases |opts|
  {
    if opts != [] {
      EncodedLengthAccounting(opts[1..]);
      if opts[0].kind != NOP {
        assert forall i :: 1 <= i < |opts| ==> opts[i] == opts[1..][i - 1];
      }
    }
  }

  /** The bytes the option loop writes fit in the region `header_size()`
      reserves for options. */
  lemma EncodedOptionsFit(opts: seq<TcpOption>)
    ensures |EncodeOptions(opts)| <= AlignedOptionsSize(RawOptionsSize(opts))
  {
    EncodedLengthAccounting(opts);
  }

  // ---------------------------------------------------------------------
  // A reference reader for the option encoding (the inverse of the writer
  // on the options it can represent).

  /** An option the encoding represents faithfully: a no-operation option
      with no data, or another kind whose total length fits in a byte. */
  predicate Representable(o: TcpOption)
  {
    if o.kind == NOP then o.data == [] else |o.data| + 2 < 0x100
  }

  /** Reads a sequence of options encoded as TCPOption::write lays them out. */
  function ParseOptions(b: seq<byte>): Option<seq<TcpOption>>
    decreases |b|
  {
    if b == [] then Some([])
    else if b[0] == NOP then
      match ParseOptions(b[1..])
      case None => None
      case Some(rest) => Some([TcpOption(NOP, [])] + rest)
    else if |b| < 2 || b[1] < 2 || |b| < b[1] then None
    else
      match ParseOptions(b[b[1]..])
      case None => None
      case Some(rest) => Some([TcpOption(b[0], b[2..b[1]])] + rest)
  }

  lemma {:induction false} ParseEncodeOptions(opts: seq<TcpOption>)
    requires forall i :: 0 <= i < |opts| ==> Representable(opts[i])
    ensures ParseOptions(EncodeOptions(opts)) == Some(opts)
    decreases |opts|
  {
    if opts != [] {
      ParseEncodeOptions(opts[1..]);
      ParseOneOption(opts[0], EncodeOptions(opts[1..]));
      assert [opts[0]] + opts[1..] == opts;
    }
  }

  /** The reader takes one representable option off the front of the
      encoding and goes on with what follows it. */
  lemma ParseOneOption(o: TcpOption, tail: seq<byte>)
    requires Representable(o)
    ensures ParseOptions(EncodeOption(o) + tail)
         == if ParseOptions(tail).Some? then Some([o] + ParseOptions(tail).value) else None
  {
    var e := EncodeOption(o) + tail;
    if o.kind == NOP {
      assert e[1..] == tail;
    } else {
      assert e[1] == |o.data| + 2;
      assert e[e[1]..] == tail;
      assert e[2..e[1]] == o.data;
    }
  }

  // ---------------------------------------------------------------------
  // Writing into the caller's buffer.

  /** memcpy of `src` into `buffer` at `pos`. */
  method CopyBytes(buffer: array<byte>, pos: nat, src: seq<byte>)
    requires pos + |src| <= buffer.Length
    modifies buffer
    ensures buffer[..] == old(buffer[..])[..pos] + src + old(buffer[..])[pos + |src|..]
    ensures forall k | 0 <= k < |src| :: buffer[pos + k] == src[k]
    ensures forall k | 0 <= k < buffer.Length && !(pos <= k < pos + |src|) :: buffer[k] == old(buffer[k])
  {
    forall i | 0 <= i < |src| {
      buffer[pos + i] := src[i];
    }
  }

  /** TCPOption::write: encodes one option at `pos` and returns the position
      after it; nothing outside the written span changes. */
  method WriteOption(o: TcpOption, buffer: array<byte>, pos: nat) returns (next: nat)
    requires pos + |EncodeOption(o)| <= buffer.Length
    modifies buffer
    ensures next == pos + |EncodeOption(o)|
    ensures next == pos + (if o.kind == NOP then 1 else |o.data| + 2)
    ensures buffer[..] == old(buffer[..])[..pos] + EncodeOption(o) + old(buffer[..])[next..]
  {
    ghost var original := buffer[..];
    buffer[pos] := o.kind;
    if o.kind == NOP {
      next := pos + 1;
    } else {
      var length: byte := (|o.data| + 2) % 0x100;
      buffer[pos + 1] := length;
      CopyBytes(buffer, pos + 2, o.data);
      next := pos + |o.data| + 2;
    }
    Assemble(buffer[..], original, pos, EncodeOption(o), next);
  }

  /** The option loop of write_serialization: each option written with
      TCPOption::write at the position the previous one returned. */
  method WriteOptions(opts: seq<TcpOption>, buffer: array<byte>, start: nat) returns (pos: nat)
    requires start + |EncodeOptions(opts)| <= buffer.Length
    modifies buffer
    ensures pos == start + |EncodeOptions(opts)|
    ensures buffer[..] == old(buffer[..])[..start] + EncodeOptions(opts) + old(buffer[..])[pos..]
  {
    ghost var original := buffer[..];
    ghost var done: seq<byte> := [];
    pos := start;
    var rest := opts;
    while rest != []
      invariant done + EncodeOptions(rest) == EncodeOptions(opts)
      invariant pos == start + |done|
      invariant forall k | 0 <= k < start :: buffer[k] == original[k]
      invariant forall k | 0 <= k < |done| :: buffer[start + k] == done[k]
      invariant forall k | pos <= k < buffer.Length :: buffer[k] == original[k]
      decreases |rest|
    {
      pos := WriteNextOption(rest[0], buffer, pos, original, start, done);
      done := done + EncodeOption(rest[0]);
      rest := rest[1..];
    }
    Assemble(buffer[..], original, start, done, pos);
  }

  /** A buffer that agrees with `original` before `start` and from `pos`
      on, and holds `done` in between, is that splice. */
  lemma Assemble(b: seq<byte>, original: seq<byte>, start: nat, done: seq<byte>, pos: nat)
    requires start + |done| == pos <= |original| == |b|
    requires forall k | 0 <= k < start :: b[k] == original[k]
    requires forall k | 0 <= k < |done| :: b[start + k] == done[k]
    requires forall k | pos <= k < |b| :: b[k] == original[k]
    ensures b == original[..start] + done + original[pos..]
  {
  }

  /** One turn of the option loop: the option goes right after the bytes
      the earlier turns wrote, and the bytes before and after stay. */
  method WriteNextOption(o: TcpOption, buffer: array<byte>, pos: nat,
                         ghost original: seq<byte>, ghost start: nat, ghost done: seq<byte>)
    returns (next: nat)
    requires start + |done| == pos && pos + |EncodeOption(o)| <= |original| == buffer.Length
    requires forall k | 0 <= k < start :: buffer[k] == original[k]
    requires forall k | 0 <= k < |done| :: buffer[start + k] == done[k]
    requires forall k | pos <= k < buffer.Length :: buffer[k] == original[k]
    modifies buffer
    ensures next == pos + |EncodeOption(o)|
    ensures forall k | 0 <= k < start :: buffer[k] == original[k]
    ensures forall k | 0 <= k < |done + EncodeOption(o)| :: buffer[start + k] == (done + EncodeOption(o))[k]
    ensures forall k | next <= k < buffer.Length :: buffer[k] == original[k]
  {
    ghost var before := buffer[..];
    next := WriteOption(o, buffer, pos);
    assert buffer[..] == before[..pos] + EncodeOption(o) + before[next..];
    forall k | 0 <= k < |done + EncodeOption(o)|
      ensures buffer[start + k] == (done + EncodeOption(o))[k]
    {
      if k < |done| {
        assert buffer[start + k] == before[start + k];
      } else {
        assert buffer[start + k] == EncodeOption(o)[k - |done|];
      }
    }
  }

  /** Writing `e` right after the bytes already written extends them. */
  lemma Splice(original: seq<byte>, start: nat, pos: nat, done: seq<byte>, e: seq<byte>,
               before: seq<byte>, after: seq<byte>)
    requires start + |done| == pos && pos + |e| <= |original|
    requires before == original[..start] + done + original[pos..]
    requires after == before[..pos] + e + before[pos + |e|..]
    ensures after == original[..start] + (done + e) + original[pos + |e|..]
  {
    assert before[..pos] == original[..start] + done;
    assert before[pos + |e|..] == original[pos + |e|..];
  }

  /** The number of bytes of value 1 the padding loop writes when its
      8-bit counter starts at `padding` and runs up to `optionsSize`. */
  function PaddingCount(padding: byte, optionsSize: nat): nat
  {
    if padding < optionsSize then optionsSize - padding else 0
  }

  /** The number of padding bytes write_serialization writes after the
      options: none unless the raw size is below the padded size, and then
      what the loop writes with its counter starting at the padded size cut
      to 8 bits. */
  function PadLength(optionsSize: nat, totalOptionsSize: nat): nat
  {
    if optionsSize < totalOptionsSize then PaddingCount(totalOptionsSize % 0x100, optionsSize) else 0
  }

  /** With the sizes add_option keeps and a padded size below 256, the
      padding step writes nothing: its counter starts at the padded size,
      which is never below the raw size. */
  lemma {:induction false} PaddingNeverWritten(optionsSize: nat)
    requires AlignedOptionsSize(optionsSize) < 0x100
    ensures PadLength(optionsSize, AlignedOptionsSize(optionsSize)) == 0
  {
    var total := AlignedOptionsSize(optionsSize);
    assert total % 0x100 == total;
  }

  /** The padding step of write_serialization: when the raw size is below
      the padded size, an 8-bit counter starting at the padded size cut to
      8 bits writes the byte 1 until it reaches the raw size. The counter
      never wraps while the raw size fits in a byte. */
  method PadOptions(buffer: array<byte>, pos: nat, optionsSize: nat, totalOptionsSize: nat) returns (next: nat)
    requires optionsSize < totalOptionsSize ==> optionsSize < 0x100
    requires pos + PadLength(optionsSize, totalOptionsSize) <= buffer.Length
    modifies buffer
    ensures next == pos + PadLength(optionsSize, totalOptionsSize)
    ensures buffer[..] == old(buffer[..])[..pos] + seq(next - pos, _ => 1) + old(buffer[..])[next..]
    ensures PadLength(optionsSize, totalOptionsSize) == 0 ==> buffer[..] == old(buffer[..])
  {
    ghost var original := buffer[..];
    next := pos;
    if optionsSize < totalOptionsSize {
      var padding: byte := totalOptionsSize % 0x100;
      var counter: byte := padding;
      while counter < optionsSize
        invariant padding <= counter
        invariant counter <= optionsSize || counter == padding
        invariant next == pos + counter - padding
        invariant forall k | 0 <= k < pos :: buffer[k] == original[k]
        invariant forall k | pos <= k < next :: buffer[k] == 1
        invariant forall k | next <= k < buffer.Length :: buffer[k] == original[k]
      {
        buffer[next] := 1;
        next := next + 1;
        counter := (counter + 1) % 0x100;
      }
    }
    Assemble(buffer[..], original, pos, seq(next - pos, _ => 1), next);
  }
}
