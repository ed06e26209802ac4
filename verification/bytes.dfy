/** Bits, bytes and the big-endian conversions between them that the codec
    uses: numpy's unpackbits/packbits with bitorder="big", struct's ">I",
    and the byte-wise XOR of two byte strings. */
module Bytes {
  import opened Arith

  /** An unsigned 8-bit value, as numpy's uint8 and Python's bytes hold it. */
  type byte = x: int | 0 <= x < 256

  /** One bit, as numpy's unpackbits produces it. */
  type bit = b: int | 0 <= b < 2

  /** 2^32: one more than the largest value a big-endian u32 field holds. */
  const U32Limit: nat := 0x1_0000_0000

  function Pow2(n: nat): (r: nat)
    ensures r >= 1
  {
    if n == 0 then 1 else 2 * Pow2(n - 1)
  }

  /** Bit p of x, counting from the least significant bit. */
  function BitOf(x: nat, p: nat): bit
  {
    if p == 0 then x % 2 else BitOf(x / 2, p - 1)
  }

  /** The value of a bit string read most significant bit first. */
  function BitsValue(bs: seq<bit>): (v: nat)
    ensures v < Pow2(|bs|)
  {
    if |bs| == 0 then 0 else 2 * BitsValue(bs[..|bs| - 1]) + bs[|bs| - 1]
  }

  /** The n low-order bits of x, most significant first: what unpackbits
      with bitorder="big" yields for the last n bits of a value. */
  function LowBits(x: nat, n: nat): (bs: seq<bit>)
    ensures |bs| == n
    ensures BitsValue(bs) == x % Pow2(n)
  {
    if n == 0 then []
    else
      var bs := LowBits(x / 2, n - 1) + [x % 2];
      assert bs[..n - 1] == LowBits(x / 2, n - 1);
      ModDouble(x, Pow2(n - 1));
      bs
  }

  /** Bit j of LowBits(x, n) is bit n-1-j of x. */
  lemma {:induction false} LowBitsAt(x: nat, n: nat, j: nat)
    requires j < n
    ensures LowBits(x, n)[j] == BitOf(x, n - 1 - j)
  {
    if j < n - 1 {
      LowBitsAt(x / 2, n - 1, j);
    }
  }

  /** Reading a bit string as a number and writing the number back in as
      many bits gives the bit string again. */
  lemma {:induction false} LowBitsOfValue(bs: seq<bit>)
    ensures LowBits(BitsValue(bs), |bs|) == bs
  {
    if |bs| > 0 {
      var n := |bs|;
      var v := BitsValue(bs);
      assert v / 2 == BitsValue(bs[..n - 1]) && v % 2 == bs[n - 1];
      LowBitsOfValue(bs[..n - 1]);
      assert bs == bs[..n - 1] + [bs[n - 1]];
    }
  }

  /** Reading a concatenation shifts the first part left by the length of the second. */
  lemma {:induction false} BitsValueAppend(a: seq<bit>, b: seq<bit>)
    ensures BitsValue(a + b) == BitsValue(a) * Pow2(|b|) + BitsValue(b)
  {
    if |b| > 0 {
      var n := |b|;
      var pre, last := b[..n - 1], b[n - 1];
      var ab := a + b;
      assert BitsValue(ab) == 2 * BitsValue(a + pre) + last by {
        assert ab[..|ab| - 1] == a + pre;
      }
      BitsValueAppend(a, pre);
      var va, p, vb := BitsValue(a), Pow2(n - 1), BitsValue(pre);
      assert BitsValue(b) == 2 * vb + last;
      assert Pow2(n) == 2 * p;
      MulDouble(va, p);
    } else {
      assert a + b == a;
    }
  }

  /** packbits with bitorder="big" on a bit string whose length is a
      multiple of 8: eight bits at a time, most significant first. */
  function PackBytes(bits: seq<bit>): (r: seq<byte>)
    requires |bits| % 8 == 0
    ensures |r| == |bits| / 8
    decreases |bits|
  {
    if |bits| == 0 then []
    else
      assert Pow2(8) == 256;
      [BitsValue(bits[..8]) as byte] + PackBytes(bits[8..])
  }

  /** Byte m of the packed string is bits [8m, 8m+8) read as a number. */
  lemma {:induction false} PackBytesAt(bits: seq<bit>, m: nat)
    requires |bits| % 8 == 0 && m < |bits| / 8
    ensures 8 * m + 8 <= |bits| && PackBytes(bits)[m] == BitsValue(bits[8 * m .. 8 * m + 8])
    decreases |bits|
  {
    if m > 0 {
      PackBytesAt(bits[8..], m - 1);
      assert bits[8..][8 * (m - 1) .. 8 * (m - 1) + 8] == bits[8 * m .. 8 * m + 8];
    }
  }

  /** unpackbits with bitorder="big": every byte as 8 bits, most significant first. */
  function UnpackBytes(bytes: seq<byte>): (bits: seq<bit>)
    ensures |bits| == 8 * |bytes|
  {
    if |bytes| == 0 then [] else LowBits(bytes[0], 8) + UnpackBytes(bytes[1..])
  }

  lemma {:induction false} UnpackAppend(a: seq<byte>, b: seq<byte>)
    ensures UnpackBytes(a + b) == UnpackBytes(a) + UnpackBytes(b)
  {
    if |a| > 0 {
      assert (a + b)[1..] == a[1..] + b;
      UnpackAppend(a[1..], b);
    } else {
      assert a + b == b;
    }
  }

  /** Packing the bits of a byte string gives the byte string back. */
  lemma {:induction false} PackUnpack(bytes: seq<byte>)
    ensures PackBytes(UnpackBytes(bytes)) == bytes
  {
    if |bytes| > 0 {
      var bits := UnpackBytes(bytes);
      assert Pow2(8) == 256;
      assert bits == LowBits(bytes[0], 8) + UnpackBytes(bytes[1..]);
      assert bits[..8] == LowBits(bytes[0], 8);
      assert bits[8..] == UnpackBytes(bytes[1..]);
      ByteBitsValue(bytes[0]);
      PackUnpack(bytes[1..]);
      assert PackBytes(bits) == [BitsValue(bits[..8]) as byte] + PackBytes(bits[8..]);
    }
  }

  /** Unpacking packed bits gives the bit string back. */
  lemma {:induction false} UnpackPack(bits: seq<bit>)
    requires |bits| % 8 == 0
    ensures UnpackBytes(PackBytes(bits)) == bits
    decreases |bits|
  {
    if |bits| > 0 {
      var packed := PackBytes(bits);
      assert packed[0] == BitsValue(bits[..8]);
      LowBitsOfValue(bits[..8]);
      assert packed[1..] == PackBytes(bits[8..]);
      UnpackPack(bits[8..]);
      assert bits == bits[..8] + bits[8..];
    }
  }

  /** struct.unpack(">I", b): four bytes read as a big-endian unsigned integer. */
  function U32BE(b: seq<byte>): (n: nat)
    requires |b| == 4
    ensures n < U32Limit
  {
    ((b[0] as int * 256 + b[1]) * 256 + b[2]) * 256 + b[3]
  }

  /** struct.pack(">I", n): the big-endian four-byte form of n, peeled off
      one base-256 digit at a time from the low end. */
  function U32Bytes(n: nat): (b: seq<byte>)
    requires n < U32Limit
    ensures |b| == 4 && U32BE(b) == n
  {
    var q1 := n / 256;
    var q2 := q1 / 256;
    var q3 := q2 / 256;
    assert n == 256 * q1 + n % 256 && q1 == 256 * q2 + q1 % 256 && q2 == 256 * q3 + q2 % 256;
    [q3, q2 % 256, q1 % 256, n % 256]
  }

  /** Reading four bytes and writing the value back gives the same four bytes. */
  lemma U32BytesOfValue(b: seq<byte>)
    requires |b| == 4
    ensures U32Bytes(U32BE(b)) == b
  {
    var n := U32BE(b);
    var q2 := b[0] as int * 256 + b[1];
    var q1 := q2 * 256 + b[2];
    DivModUnique(n, 256, q1, b[3]);
    DivModUnique(q1, 256, q2, b[2]);
    DivModUnique(q2, 256, b[0], b[1]);
  }

  /** Packing 32 bits into four bytes and reading them with ">I" is the same
      as reading the 32 bits as one big-endian number. */
  lemma U32OfBits(bits: seq<bit>)
    requires |bits| == 32
    ensures U32BE(PackBytes(bits)) == BitsValue(bits)
  {
    var p := PackBytes(bits);
    PackBytesAt(bits, 0);
    PackBytesAt(bits, 1);
    PackBytesAt(bits, 2);
    PackBytesAt(bits, 3);
    ValueOfFourBytes(bits);
  }

  /** Thirty-two bits read as one number are their four bytes in base 256. */
  lemma ValueOfFourBytes(bits: seq<bit>)
    requires |bits| == 32
    ensures BitsValue(bits) ==
              ((BitsValue(bits[0..8]) * 256 + BitsValue(bits[8..16])) * 256 + BitsValue(bits[16..24])) * 256
              + BitsValue(bits[24..32])
  {
    var b0, b1, b2, b3 := bits[0..8], bits[8..16], bits[16..24], bits[24..32];
    var p16, p24 := bits[..16], bits[..24];
    assert p16 == b0 + b1;
    assert p24 == p16 + b2;
    assert bits == p24 + b3;
    AppendByte(b0, b1);
    AppendByte(p16, b2);
    AppendByte(p24, b3);
  }

  lemma AppendByte(a: seq<bit>, b: seq<bit>)
    requires |b| == 8
    ensures BitsValue(a + b) == BitsValue(a) * 256 + BitsValue(b)
  {
    assert Pow2(8) == 256;
    BitsValueAppend(a, b);
  }

  /** Bitwise exclusive or of two equally long bit strings. */
  function XorBitSeq(x: seq<bit>, y: seq<bit>): (r: seq<bit>)
    requires |x| == |y|
    ensures |r| == |x|
    ensures forall i :: 0 <= i < |x| ==> (r[i] == 1 <==> x[i] != y[i])
  {
    seq(|x|, i requires 0 <= i < |x| => if x[i] == y[i] then 0 else 1)
  }

  /** Python's a ^ b on two byte values: the bits of a and b, XOR-ed bit by
      bit, read back as a byte. */
  function XorByte(a: byte, b: byte): (r: byte)
    ensures LowBits(r, 8) == XorBitSeq(LowBits(a, 8), LowBits(b, 8))
  {
    assert Pow2(8) == 256;
    var x := XorBitSeq(LowBits(a, 8), LowBits(b, 8));
    LowBitsOfValue(x);
    BitsValue(x)
  }

  /** bytes(a ^ b for a, b in zip(x, y)): pairs up to the shorter of the two. */
  function XorBytes(x: seq<byte>, y: seq<byte>): (r: seq<byte>)
    ensures |r| == if |x| <= |y| then |x| else |y|
    ensures forall i :: 0 <= i < |r| ==> r[i] == XorByte(x[i], y[i])
  {
    if |x| == 0 || |y| == 0 then [] else [XorByte(x[0], y[0])] + XorBytes(x[1..], y[1..])
  }

  /** XOR with a key stream at least as long as the data is its own inverse. */
  lemma XorInvolution(data: seq<byte>, ks: seq<byte>)
    requires |data| <= |ks|
    ensures XorBytes(XorBytes(data, ks), ks) == data
  {
    var once := XorBytes(data, ks);
    var twice := XorBytes(once, ks);
    forall i | 0 <= i < |data|
      ensures twice[i] == data[i]
    {
      XorByteTwice(data[i], ks[i]);
    }
  }

  lemma XorByteTwice(a: byte, b: byte)
    ensures XorByte(XorByte(a, b), b) == a
  {
    var la, lb := LowBits(a, 8), LowBits(b, 8);
    var once := XorByte(a, b);
    var x := XorBitSeq(la, lb);
    assert LowBits(once, 8) == x;
    var twice := XorByte(once, b);
    assert LowBits(twice, 8) == XorBitSeq(x, lb);
    XorBitSeqTwice(la, lb);
    ByteOfBits(twice, a);
  }

  lemma XorBitSeqTwice(x: seq<bit>, y: seq<bit>)
    requires |x| == |y|
    ensures XorBitSeq(XorBitSeq(x, y), y) == x
  {
    var twice := XorBitSeq(XorBitSeq(x, y), y);
    forall i | 0 <= i < |x|
      ensures twice[i] == x[i]
    {
    }
  }

  /** A byte is determined by its eight bits. */
  lemma ByteOfBits(x: byte, y: byte)
    requires LowBits(x, 8) == LowBits(y, 8)
    ensures x == y
  {
    ByteBitsValue(x);
    ByteBitsValue(y);
  }

  /** The eight bits of a byte read back as that byte. */
  lemma ByteBitsValue(x: byte)
    ensures BitsValue(LowBits(x, 8)) == x
  {
    assert Pow2(8) == 256;
    DivModUnique(x, 256, 0, x);
  }

}
