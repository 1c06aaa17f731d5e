/** The Internet checksum arithmetic of the TCP segment builder (RFC 1071),
    over the TCP pseudo-header of section 3.1 of RFC 793. */
module Checksum {
  import opened Wire

  /** Protocol number of TCP, the pseudo-header's protocol field (IPPROTO_TCP). */
  const IPPROTO_TCP: nat := 6

  /** The sum of `s` read as big-endian 16-bit words, an odd trailing byte
      counting as the high byte of a zero-padded word. No carry is folded. */
  function Sum16(s: seq<byte>): nat
    decreases |s|
  {
    if |s| == 0 then 0
    else if |s| == 1 then Word(s[0], 0)
    else Word(s[0], s[1]) + Sum16(s[2..])
  }

  /** Summing splits at any even offset, so ranges can be summed separately
      and added before a single fold. */
  lemma {:induction false} Sum16Append(a: seq<byte>, b: seq<byte>)
    requires |a| % 2 == 0
    ensures Sum16(a + b) == Sum16(a) + Sum16(b)
    decreases |a|
  {
    if |a| == 0 {
      assert a + b == b;
    } else {
      assert (a + b)[2..] == a[2..] + b;
      Sum16Append(a[2..], b);
    }
  }

  lemma Sum16Concat3(a: seq<byte>, b: seq<byte>, c: seq<byte>)
    requires |a| % 2 == 0 && |b| % 2 == 0
    ensures Sum16(a + b + c) == Sum16(a) + Sum16(b) + Sum16(c)
  {
    Sum16Append(a, b);
    Sum16Append(a + b, c);
  }

  /** do_checksum: the loop over 16-bit words of the range, then the odd
      trailing byte as a zero-padded high byte. */
  method DoChecksum(s: seq<byte>) returns (checksum: nat)
    ensures checksum == Sum16(s)
  {
    var n := |s|;
    var last: int := n;
    var padding: nat := 0;
    if n % 2 == 1 {
      last := n - 2;
      padding := Word(s[n - 1], 0);
    }
    checksum := 0;
    var ptr := 0;
    while ptr < last
      invariant 0 <= ptr <= n - n % 2
      invariant ptr % 2 == 0
      invariant checksum + Sum16(s[ptr..]) == Sum16(s)
    {
      assert s[ptr..][2..] == s[ptr + 2..];
      checksum := checksum + Word(s[ptr], s[ptr + 1]);
      ptr := ptr + 2;
    }
    assert n % 2 == 1 ==> s[ptr..] == [s[n - 1]];
    checksum := checksum + padding;
  }

  /** The 16-bit one's-complement value of a sum: `x` reduced modulo
      0xFFFF into 1..0xFFFF, and 0 only for 0. This is what adding the
      carries above bit 15 back in, until none remain, computes. */
  function Fold(x: nat): (r: nat)
    ensures r <= 0xFFFF
    decreases x
  {
    if x <= 0xFFFF then x else Fold(x - 0xFFFF)
  }

  /** The folded value stays congruent to the input modulo 0xFFFF and is
      zero only for zero. */
  lemma {:induction false} FoldCongruent(x: nat)
    ensures Fold(x) % 0xFFFF == x % 0xFFFF
    ensures Fold(x) == 0 <==> x == 0
    decreases x
  {
    if x > 0xFFFF {
      FoldCongruent(x - 0xFFFF);
      AddMultipleMod(1, x - 0xFFFF);
    }
  }

  /** Two values in 1..0xFFFF that agree modulo 0xFFFF are equal. */
  lemma FoldedUnique(a: nat, b: nat)
    requires 0 < a <= 0xFFFF && 0 < b <= 0xFFFF
    requires a % 0xFFFF == b % 0xFFFF
    ensures a == b
  {
    assert a % 0xFFFF == (if a == 0xFFFF then 0 else a);
    assert b % 0xFFFF == (if b == 0xFFFF then 0 else b);
  }

  /** One turn of the fold loop does not change the folded value. */
  lemma FoldCarryStep(x: nat)
    requires x / 0x1_0000 != 0
    ensures Fold(x % 0x1_0000 + x / 0x1_0000) == Fold(x)
  {
    var y := x % 0x1_0000 + x / 0x1_0000;
    FoldStep(x);
    FoldCongruent(x);
    FoldCongruent(y);
    FoldedUnique(Fold(x), Fold(y));
  }

  /** One carry-folding step keeps the value modulo 0xFFFF, because
      0x1_0000 is 1 modulo 0xFFFF, and leaves it positive. */
  lemma FoldStep(x: nat)
    requires x / 0x1_0000 != 0
    ensures var y := x % 0x1_0000 + x / 0x1_0000;
      0 < y && y % 0xFFFF == x % 0xFFFF
  {
    var q, r := x / 0x1_0000, x % 0x1_0000;
    assert x == q * 0xFFFF + (q + r);
    AddMultipleMod(q, q + r);
  }

  lemma {:induction false} AddMultipleMod(k: nat, y: nat)
    ensures (k * 0xFFFF + y) % 0xFFFF == y % 0xFFFF
    decreases k
  {
    if k > 0 {
      AddMultipleMod(k - 1, y);
      assert k * 0xFFFF + y == ((k - 1) * 0xFFFF + y) + 0xFFFF;
    }
  }

  /** The fold loop of the serializer: while any bit above bit 15 is set,
      add the high part back into the low 16 bits. */
  method FoldCarries(checksum0: nat) returns (checksum: uint16)
    ensures checksum == Fold(checksum0)
  {
    var sum := checksum0;
    while sum / 0x1_0000 != 0
      invariant Fold(sum) == Fold(checksum0)
      decreases sum
    {
      FoldCarryStep(sum);
      sum := sum % 0x1_0000 + sum / 0x1_0000;
    }
    checksum := sum;
  }

  /** The one's complement of a folded sum, `~checksum` cut to 16 bits:
      every one of the 16 bits is flipped. */
  function Complement(checksum: uint16): (r: uint16)
    ensures forall i :: 0 <= i < 16 ==> Bit(r, i) != Bit(checksum, i)
    ensures r as int + checksum as int == 0xFFFF
  {
    assert Pow2(4) == 16 && Pow2(8) == 0x100 && Pow2(12) == 0x1000 && Pow2(16) == 0x1_0000;
    forall i | 0 <= i < 16
      ensures Bit(0xFFFF - checksum, i) != Bit(checksum, i)
    {
      BitsDifferBelowWidth(0xFFFF - checksum, checksum, 16, i);
    }
    0xFFFF - checksum
  }

  /** Two numbers that add up to 2^n - 1 differ in each of their low n bits. */
  lemma {:induction false} BitsDifferBelowWidth(x: nat, y: nat, n: nat, i: nat)
    requires x + y + 1 == Pow2(n)
    requires i < n
    ensures Bit(x, i) != Bit(y, i)
  {
    if i > 0 {
      assert x / 2 + y / 2 + 1 == Pow2(n - 1);
      BitsDifferBelowWidth(x / 2, y / 2, n - 1, i - 1);
    }
  }

  /** The 12-byte TCP pseudo-header of section 3.1 of RFC 793: source address,
      destination address, a zero byte, the protocol and the TCP length. */
  function PseudoHeaderBytes(source: uint32, dest: uint32, len: uint16): (r: seq<byte>)
    ensures |r| == 12
  {
    BE32(source) + BE32(dest) + [0, IPPROTO_TCP] + BE16(len)
  }

  /** pseudoheader_checksum: the two 16-bit halves of each address, the
      protocol number and the segment length, added without folding. It is
      the word sum of the pseudo-header whenever the segment length fits the
      pseudo-header's 16-bit length field. */
  function PseudoheaderChecksum(source: uint32, dest: uint32, len: nat): (r: nat)
    ensures len <= 0xFFFF ==> r == Sum16(PseudoHeaderBytes(source, dest, len as uint16))
  {
    var r := source / 0x1_0000 + source % 0x1_0000 + dest / 0x1_0000 + dest % 0x1_0000 + IPPROTO_TCP + len;
    assert len <= 0xFFFF ==> r == Sum16(PseudoHeaderBytes(source, dest, len as uint16)) by {
      if len <= 0xFFFF {
        var s, d := BE32(source), BE32(dest);
        var p: Bytes2 := [0, IPPROTO_TCP];
        var l := BE16(len as uint16);
        assert PseudoHeaderBytes(source, dest, len as uint16) == s + (d + (p + l));
        Sum16Append(s, d + (p + l));
        Sum16Append(d, p + l);
        Sum16Append(p, l);
        Sum16BE32(source);
        Sum16BE32(dest);
        Sum16Word(l);
        Sum16Word(p);
      }
    }
    r
  }

  /** The sum of a 4-byte big-endian value is its two 16-bit halves. */
  lemma Sum16BE32(v: uint32)
    ensures Sum16(BE32(v)) == v / 0x1_0000 + v % 0x1_0000
  {
    var hi: seq<byte>, lo: seq<byte> := BE16(v / 0x1_0000), BE16(v % 0x1_0000);
    assert BE32(v) == hi + lo;
    Sum16Append(hi, lo);
    Sum16Word(hi);
    Sum16Word(lo);
  }

  /** Two bytes sum to the one word they form. */
  lemma Sum16Word(s: Bytes2)
    ensures Sum16(s) == Word(s[0], s[1])
  {
    assert s[2..] == [];
  }

  /** The Internet checksum of RFC 1071 over a byte stream: the complement
      of the one's-complement sum of its 16-bit words. */
  function InternetChecksum(s: seq<byte>): (r: uint16)
    ensures Fold(Sum16(s) + r) == 0xFFFF
  {
    var folded := Fold(Sum16(s));
    ComplementVerifies(Sum16(s));
    Complement(folded)
  }

  /** Adding the complement of a folded sum back into the sum folds to
      0xFFFF (negative zero): the receiver's self-check. */
  lemma ComplementVerifies(total: nat)
    ensures Fold(total + (0xFFFF - Fold(total))) == 0xFFFF
  {
    var f := Fold(total);
    var t := total + (0xFFFF - f);
    FoldCongruent(total);
    assert t % 0xFFFF == 0 by {
      var q1 := total / 0xFFFF;
      var q2 := f / 0xFFFF;
      assert total == q1 * 0xFFFF + total % 0xFFFF;
      assert f == q2 * 0xFFFF + total % 0xFFFF;
      assert t == (q1 - q2 + 1) * 0xFFFF;
    }
    assert t != 0;
    FoldCongruent(t);
    assert Fold(t) % 0xFFFF == 0 && Fold(t) != 0 && Fold(t) <= 0xFFFF;
  }
}
