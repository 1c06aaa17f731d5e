/** Machine integers, fixed-width byte strings and big-endian encoders used
    by the TCP segment model. Host byte order is not modelled: every value
    here is either a number or the bytes it has on the wire. */
module Wire {

  type byte = x: int | 0 <= x < 0x100
  type uint16 = x: int | 0 <= x < 0x1_0000
  type uint32 = x: int | 0 <= x < 0x1_0000_0000

  /** Two bytes in wire order (a 16-bit header field stored without conversion). */
  type Bytes2 = s: seq<byte> | |s| == 2 witness [0, 0]

  /** Four bytes in wire order (a 32-bit header field stored without conversion). */
  type Bytes4 = s: seq<byte> | |s| == 4 witness [0, 0, 0, 0]

  datatype Option<+T> = None | Some(value: T)

  /** The value of a big-endian 16-bit word. */
  function Word(hi: byte, lo: byte): uint16
  {
    hi as int * 0x100 + lo as int
  }

  /** The network (big-endian) bytes of a 16-bit value. */
  function BE16(v: uint16): (r: Bytes2)
    ensures Word(r[0], r[1]) == v
  {
    [v / 0x100, v % 0x100]
  }

  /** The network (big-endian) bytes of a 32-bit value. */
  function BE32(v: uint32): (r: Bytes4)
    ensures Word(r[0], r[1]) as int * 0x1_0000 + Word(r[2], r[3]) as int == v
  {
    BE16(v / 0x1_0000) + BE16(v % 0x1_0000)
  }

  function Pow2(n: nat): (r: nat)
    ensures r > 0
  {
    if n == 0 then 1 else 2 * Pow2(n - 1)
  }

  /** Bit `i` of `x`, counting from the least significant bit. */
  function Bit(x: nat, i: nat): (b: nat)
    ensures b < 2
  {
    if i == 0 then x % 2 else Bit(x / 2, i - 1)
  }
}
