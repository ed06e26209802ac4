/** The bit-plane extractor: reads the low k bits of every channel byte
    outside the reserved rectangle, in row-major, channel-minor order, and
    cuts the length-prefixed header out of the resulting bit stream. */
module BitPlane {
  import opened Bytes
  import opened Outcomes
  import opened Arith
  import Watermark

  /** The carrier is converted to RGB before decoding: three bytes per pixel. */
  const Channels: nat := 3

  /** A decoded carrier image. `pixels` is its row-major, channel-minor
      flattening: channel ch of pixel (row, col) sits at (row * width + col) * 3 + ch. */
  datatype Carrier = Carrier(height: nat, width: nat, pixels: seq<byte>) {

    predicate Valid()
    {
      |pixels| == height * width * Channels
    }

    /** Channel ch of pixel (row, col). */
    function At(row: nat, col: nat, ch: nat): byte
      requires Valid() && row < height && col < width && ch < Channels
    {
      OffsetInRange(height, width, Channels, row, col, ch);
      pixels[(row * width + col) * Channels + ch]
    }
  }

  // ---------------------------------------------------------------------------
  // Flattening the mask and selecting the included channel bytes
  // ---------------------------------------------------------------------------

  /** Each flag repeated ch times, in order (np.repeat over a new channel axis). */
  function RepeatEach(row: seq<bool>, ch: nat): (r: seq<bool>)
    ensures |r| == |row| * ch
  {
    if |row| == 0 then []
    else
      var r := RepeatEach(row[..|row| - 1], ch) + seq(ch, _ => row[|row| - 1]);
      assert |r| == (|row| - 1) * ch + ch;
      r
  }

  /** mask3d.reshape(-1): the rows in order, every pixel flag once per channel. */
  function FlatMask(m: seq<seq<bool>>, width: nat, ch: nat): (r: seq<bool>)
    requires forall i :: 0 <= i < |m| ==> |m[i]| == width
    ensures |r| == |m| * width * ch
  {
    if |m| == 0 then []
    else
      var r := FlatMask(m[..|m| - 1], width, ch) + RepeatEach(m[|m| - 1], ch);
      assert |r| == (|m| - 1) * width * ch + width * ch;
      r
  }

  /** Number of set flags. */
  function CountTrue(s: seq<bool>): nat
  {
    if |s| == 0 then 0 else CountTrue(s[..|s| - 1]) + (if s[|s| - 1] then 1 else 0)
  }

  /** The values whose flag is set, in their original order (np.flatnonzero
      followed by fancy indexing). */
  function Select<T>(vals: seq<T>, keep: seq<bool>): (r: seq<T>)
    requires |vals| == |keep|
    ensures |r| == CountTrue(keep)
  {
    if |vals| == 0 then []
    else
      var n := |vals|;
      Select(vals[..n - 1], keep[..n - 1]) + (if keep[n - 1] then [vals[n - 1]] else [])
  }

  /** The flat mask of a carrier: true at every channel byte that carries bits. */
  function CarrierMask(c: Carrier): (keep: seq<bool>)
    requires c.Valid()
    ensures |keep| == |c.pixels|
  {
    FlatMask(Watermark.Mask(c.height, c.width), c.width, Channels)
  }

  /** The channel bytes that carry payload bits, in row-major, channel-minor
      order: three per pixel outside the reserved rectangle. */
  function IncludedBytes(c: Carrier): (r: seq<byte>)
    requires c.Valid()
    ensures |r| == Channels * (c.height * c.width - Watermark.ExcludedPixels(c.height, c.width))
  {
    MaskCount(c);
    Select(c.pixels, CarrierMask(c))
  }

  // ---------------------------------------------------------------------------
  // Reading bits
  // ---------------------------------------------------------------------------

  /** The bits one channel byte contributes: the byte masked with (1 << k) - 1,
      unpacked to 8 bits and cut to its last k. These are the k low-order bits
      of the byte, most significant first. */
  function ChannelBits(x: byte, k: nat): (bs: seq<bit>)
    requires 1 <= k <= 8
    ensures |bs| == k
    ensures forall j :: 0 <= j < k ==> bs[j] == BitOf(x, k - 1 - j)
  {
    var v := x % Pow2(k);
    var bs := LowBits(v, 8)[8 - k..];
    assert forall j :: 0 <= j < k ==> bs[j] == BitOf(x, k - 1 - j) by {
      forall j | 0 <= j < k
        ensures bs[j] == BitOf(x, k - 1 - j)
      {
        LowBitsAt(v, 8, 8 - k + j);
        BitOfMod(x, k, k - 1 - j);
      }
    }
    bs
  }

  /** Masking, unpacking and keeping the last k bits reads the k low-order
      bits of the byte. */
  lemma ChannelBitsAreLowBits(x: byte, k: nat)
    requires 1 <= k <= 8
    ensures ChannelBits(x, k) == LowBits(x, k)
  {
    forall j | 0 <= j < k
      ensures LowBits(x, k)[j] == BitOf(x, k - 1 - j)
    {
      LowBitsAt(x, k, j);
    }
  }

  /** The concatenated contributions of a run of channel bytes. */
  function BitStream(vals: seq<byte>, k: nat): (bits: seq<bit>)
    requires 1 <= k <= 8
    ensures |bits| == |vals| * k
  {
    if |vals| == 0 then []
    else
      var bits := BitStream(vals[..|vals| - 1], k) + ChannelBits(vals[|vals| - 1], k);
      assert |bits| == (|vals| - 1) * k + k;
      bits
  }

  /** The whole bit stream a carrier yields at depth k: k bits for each
      channel byte outside the reserved rectangle. */
  function CarrierBits(c: Carrier, k: nat): (bits: seq<bit>)
    requires c.Valid() && 1 <= k <= 8
    ensures |bits| == k * (Channels * (c.height * c.width - Watermark.ExcludedPixels(c.height, c.width)))
  {
    BitStream(IncludedBytes(c), k)
  }

  /** The length prefix: the first 32 bits read as a big-endian number. */
  function HeaderLength(bits: seq<bit>): nat
    requires |bits| >= 32
  {
    BitsValue(bits[..32])
  }

  /** The second half of _extract_payload_with_k: read the 32-bit length
      prefix and cut that many bytes out of the bits behind it. */
  function CutHeader(bits: seq<bit>): (r: Result<seq<byte>>)
    ensures r.Err? ==> r.error == InsufficientData || r.error == LengthInvalid
    ensures r == Err(InsufficientData) <==> |bits| < 32
    ensures r == Err(LengthInvalid) <==>
              |bits| >= 32 && (HeaderLength(bits) == 0 || 32 + 8 * HeaderLength(bits) > |bits|)
    ensures r.Ok? ==>
              |bits| >= 32 && |r.value| == HeaderLength(bits)
              && UnpackBytes(r.value) == bits[32 .. 32 + 8 * |r.value|]
  {
    if |bits| < 32 then Err(InsufficientData)
    else
      var headerLen := LengthPrefix(bits);
      if headerLen <= 0 || 32 + 8 * headerLen > |bits| then Err(LengthInvalid)
      else
        var header := PackRange(bits, 32, headerLen);
        assert UnpackBytes(header) == bits[32 .. 32 + 8 * |header|];
        Ok(header)
  }

  /** struct.unpack(">I", np.packbits(bits[:32])): the length prefix. */
  function LengthPrefix(bits: seq<bit>): (n: nat)
    requires |bits| >= 32
    ensures n == HeaderLength(bits)
  {
    U32OfBits(bits[..32]);
    U32BE(PackBytes(bits[..32]))
  }

  /** np.packbits(bits[start:start + 8 * count]): count bytes, byte m being
      bits [start + 8m, start + 8m + 8) read most significant first. */
  function PackRange(bits: seq<bit>, start: nat, count: nat): (r: seq<byte>)
    requires start + 8 * count <= |bits|
    ensures |r| == count
    ensures UnpackBytes(r) == bits[start .. start + 8 * count]
  {
    var payload := bits[start .. start + 8 * count];
    EightTimes(count);
    UnpackPack(payload);
    PackBytes(payload)
  }

  /** _extract_payload_with_k: the header bytes a carrier holds at depth k.
      Too few bits for the length prefix, and a length that is zero or runs
      past the bits, are the two errors; a header it returns is non-empty and
      its length-prefixed frame opens the carrier's bit stream. */
  function ExtractPayload(c: Carrier, k: nat): (r: Result<seq<byte>>)
    requires c.Valid() && 1 <= k <= 8
    ensures r == Err(InsufficientData) <==> |CarrierBits(c, k)| < 32
    ensures r == Err(LengthInvalid) <==>
              |CarrierBits(c, k)| >= 32 && (HeaderLength(CarrierBits(c, k)) == 0
                                            || 32 + 8 * HeaderLength(CarrierBits(c, k)) > |CarrierBits(c, k)|)
    ensures r.Ok? ==> 0 < |r.value| < U32Limit && UnpackBytes(Frame(r.value)) <= CarrierBits(c, k)
  {
    var bits := CarrierBits(c, k);
    var r := CutHeader(bits);
    if r.Ok? then CutIsFramed(bits, r.value); r else r
  }

  /** A length-prefixed header as the extractor reads it: the header's length
      as a big-endian u32, then the header itself. */
  function Frame(header: seq<byte>): seq<byte>
    requires |header| < U32Limit
  {
    U32Bytes(|header|) + header
  }

  // ---------------------------------------------------------------------------
  // Properties
  // ---------------------------------------------------------------------------

  /** Byte m of a successfully cut header is bits [32 + 8m, 40 + 8m) of the
      stream, read most significant bit first. */
  lemma CutHeaderByteAt(bits: seq<bit>, m: nat)
    requires CutHeader(bits).Ok? && m < |CutHeader(bits).value|
    ensures 40 + 8 * m <= |bits|
    ensures CutHeader(bits).value[m] == BitsValue(bits[32 + 8 * m .. 40 + 8 * m])
  {
    var n := LengthPrefix(bits);
    PackRangeAt(bits, 32, n, m);
  }

  /** Byte m of a packed range is the m-th group of eight bits after start. */
  lemma PackRangeAt(bits: seq<bit>, start: nat, count: nat, m: nat)
    requires start + 8 * count <= |bits| && m < count
    ensures PackRange(bits, start, count)[m] == BitsValue(bits[start + 8 * m .. start + 8 * m + 8])
  {
    var payload := bits[start .. start + 8 * count];
    EightTimes(count);
    assert PackRange(bits, start, count) == PackBytes(payload);
    PackBytesAt(payload, m);
    SliceOfSlice(bits, start, start + 8 * count, 8 * m, 8 * m + 8);
  }

  /** Extraction returns exactly the header whose frame opens the carrier's
      bit stream: success with h means the bits begin with the frame of h, and
      a stream beginning with the frame of a non-empty h yields h. */
  lemma ExtractIffFramed(c: Carrier, k: nat, header: seq<byte>)
    requires c.Valid() && 1 <= k <= 8
    ensures ExtractPayload(c, k) == Ok(header) <==>
              0 < |header| < U32Limit && UnpackBytes(Frame(header)) <= CarrierBits(c, k)
  {
    var bits := CarrierBits(c, k);
    if 0 < |header| < U32Limit && UnpackBytes(Frame(header)) <= bits {
      CutFramed(bits, header);
    }
    if ExtractPayload(c, k) == Ok(header) {
      CutIsFramed(bits, header);
    }
  }

  /** A bit stream that begins with the frame of a non-empty header yields that header. */
  lemma CutFramed(bits: seq<bit>, header: seq<byte>)
    requires 0 < |header| < U32Limit && UnpackBytes(Frame(header)) <= bits
    ensures CutHeader(bits) == Ok(header)
  {
    var n := |header|;
    FramedParts(bits, header);
    assert LengthPrefix(bits) == n by {
      PackUnpack(U32Bytes(n));
    }
    assert PackRange(bits, 32, n) == header by {
      PackUnpack(header);
    }
  }

  /** The two parts of a frame at the front of a bit stream. */
  lemma FramedParts(bits: seq<bit>, header: seq<byte>)
    requires 0 < |header| < U32Limit && UnpackBytes(Frame(header)) <= bits
    ensures |bits| >= 32 + 8 * |header|
    ensures bits[..32] == UnpackBytes(U32Bytes(|header|))
    ensures bits[32 .. 32 + 8 * |header|] == UnpackBytes(header)
  {
    SplitFrame(bits, U32Bytes(|header|), header);
  }

  /** Four length bytes and a body at the front of a bit stream: the first 32
      bits are the length bytes' bits and the body's bits follow them. */
  lemma SplitFrame(bits: seq<bit>, lenBytes: seq<byte>, body: seq<byte>)
    requires |lenBytes| == 4 && UnpackBytes(lenBytes + body) <= bits
    ensures |bits| >= 32 + 8 * |body|
    ensures bits[..32] == UnpackBytes(lenBytes)
    ensures bits[32 .. 32 + 8 * |body|] == UnpackBytes(body)
  {
    UnpackAppend(lenBytes, body);
    PrefixParts(bits, UnpackBytes(lenBytes), UnpackBytes(body));
  }


  lemma PrefixParts<T>(s: seq<T>, a: seq<T>, b: seq<T>)
    requires a + b <= s
    ensures s[..|a|] == a && s[|a| .. |a| + |b|] == b
  {
    assert s[..|a| + |b|] == a + b;
    assert s[..|a|] == (a + b)[..|a|];
    assert s[|a| .. |a| + |b|] == (a + b)[|a|..];
  }

  lemma SlicesJoin<T>(s: seq<T>, i: nat, j: nat)
    requires i <= j <= |s|
    ensures s[..i] + s[i..j] <= s
  {
    assert s[..i] + s[i..j] == s[..j];
  }

  /** A header cut out of a bit stream had its frame at the front of the stream. */
  lemma CutIsFramed(bits: seq<bit>, header: seq<byte>)
    requires CutHeader(bits) == Ok(header)
    ensures 0 < |header| < U32Limit && UnpackBytes(Frame(header)) <= bits
  {
    LengthFieldBytes(bits, |header|);
    assert Frame(header) == U32Bytes(|header|) + header;
    FrameAtFront(bits, U32Bytes(|header|), header);
  }

  /** Four bytes whose bits open a stream, followed by a body whose bits
      come next, unpack to a prefix of the stream. */
  lemma FrameAtFront(bits: seq<bit>, lenBytes: seq<byte>, body: seq<byte>)
    requires |lenBytes| == 4 && 32 + 8 * |body| <= |bits|
    requires UnpackBytes(lenBytes) == bits[..32]
    requires UnpackBytes(body) == bits[32 .. 32 + 8 * |body|]
    ensures UnpackBytes(lenBytes + body) <= bits
  {
    UnpackAppend(lenBytes, body);
    SlicesJoin(bits, 32, 32 + 8 * |body|);
  }

  /** A length prefix n means the stream opens with the 32 bits of U32Bytes(n). */
  lemma LengthFieldBytes(bits: seq<bit>, n: nat)
    requires |bits| >= 32 && LengthPrefix(bits) == n
    ensures n < U32Limit && UnpackBytes(U32Bytes(n)) == bits[..32]
  {
    var lenField := bits[..32];
    U32BytesOfValue(PackBytes(lenField));
    UnpackPack(lenField);
  }

  lemma SliceOfSlice<T>(s: seq<T>, a: nat, b: nat, c: nat, d: nat)
    requires a <= b <= |s| && c <= d <= b - a
    ensures s[a..b][c..d] == s[a + c .. a + d]
  {
    var lhs, rhs := s[a..b][c..d], s[a + c .. a + d];
    assert |lhs| == |rhs|;
    forall i | 0 <= i < |lhs|
      ensures lhs[i] == rhs[i]
    {
      assert lhs[i] == s[a..b][c + i] == s[a + c + i];
    }
  }

  /** Bit j of the i-th included byte's k-bit group is bit k-1-j of that byte. */
  lemma {:induction false} BitStreamAt(vals: seq<byte>, k: nat, i: nat, j: nat)
    requires 1 <= k <= 8 && i < |vals| && j < k
    ensures 0 <= i * k + j < |BitStream(vals, k)| && BitStream(vals, k)[i * k + j] == BitOf(vals[i], k - 1 - j)
  {
    var n := |vals|;
    var prefix, last := BitStream(vals[..n - 1], k), ChannelBits(vals[n - 1], k);
    assert BitStream(vals, k) == prefix + last;
    if i < n - 1 {
      BitStreamAt(vals[..n - 1], k, i, j);
      MulBelow(i, n - 1, k);
      assert vals[..n - 1][i] == vals[i];
      assert (prefix + last)[i * k + j] == prefix[i * k + j];
    } else {
      assert i == n - 1;
      assert |prefix| == i * k;
      assert (prefix + last)[i * k + j] == last[j];
    }
  }

  /** The flat position of channel ch of pixel (row, col) lies inside the buffer. */
  lemma OffsetInRange(height: nat, width: nat, ch: nat, row: nat, col: nat, j: nat)
    requires row < height && col < width && j < ch
    ensures (row * width + col) * ch + j < height * width * ch
  {
    assert row * width + col < height * width by {
      assert row * width + col < (row + 1) * width;
      MulLe(row + 1, height, width, width);
    }
    assert (row * width + col) * ch + j < (row * width + col + 1) * ch;
    MulLe(row * width + col + 1, height * width, ch, ch);
  }

  /** Every flat position of the buffer is the offset of one pixel channel. */
  lemma Decompose(height: nat, width: nat, ch: nat, i: nat) returns (row: nat, col: nat, j: nat)
    requires i < height * width * ch
    ensures row < height && col < width && j < ch
    ensures i == (row * width + col) * ch + j
  {
    DivBelow(i, height * width, ch);
    j := i % ch;
    var p := i / ch;
    DivBelow(p, height, width);
    col := p % width;
    row := p / width;
  }

  lemma {:induction false} RepeatEachAt(row: seq<bool>, ch: nat, c: nat, j: nat)
    requires c < |row| && j < ch
    ensures 0 <= c * ch + j < |RepeatEach(row, ch)| && RepeatEach(row, ch)[c * ch + j] == row[c]
  {
    var n := |row|;
    var prefix := RepeatEach(row[..n - 1], ch);
    if c < n - 1 {
      RepeatEachAt(row[..n - 1], ch, c, j);
      MulLe(c + 1, n - 1, ch, ch);
      assert c * ch + j < (n - 1) * ch;
    } else {
      assert |prefix| == c * ch;
    }
  }

  /** The flag of channel ch of pixel (r, c) in the flattened mask is the pixel's flag. */
  lemma {:induction false} FlatMaskAt(m: seq<seq<bool>>, width: nat, ch: nat, r: nat, c: nat, j: nat)
    requires forall i :: 0 <= i < |m| ==> |m[i]| == width
    requires r < |m| && c < width && j < ch
    ensures 0 <= (r * width + c) * ch + j < |FlatMask(m, width, ch)|
    ensures FlatMask(m, width, ch)[(r * width + c) * ch + j] == m[r][c]
  {
    var n := |m|;
    var p := (r * width + c) * ch + j;
    OffsetInRange(n, width, ch, r, c, j);
    assert FlatMask(m, width, ch)[p] == m[r][c] by {
      var prefix, spread := FlatMask(m[..n - 1], width, ch), RepeatEach(m[n - 1], ch);
      assert FlatMask(m, width, ch) == prefix + spread;
      if r < n - 1 {
        FlatMaskAt(m[..n - 1], width, ch, r, c, j);
        assert m[..n - 1][r] == m[r];
      } else {
        RepeatEachAt(m[n - 1], ch, c, j);
        OffsetSplit(r, width, c, ch, j);
        assert |prefix| == r * width * ch;
      }
    }
  }

  /** The flat offset of (r, c, j) is r whole rows plus c whole pixels plus j. */
  lemma OffsetSplit(r: nat, width: nat, c: nat, ch: nat, j: nat)
    ensures (r * width + c) * ch + j == r * width * ch + (c * ch + j)
  {
  }

  /** A channel byte carries bits exactly when its pixel lies outside the
      reserved rectangle; all three channels of a pixel share its fate. */
  lemma ChannelIncluded(c: Carrier, row: nat, col: nat, ch: nat)
    requires c.Valid() && row < c.height && col < c.width && ch < Channels
    ensures 0 <= (row * c.width + col) * Channels + ch < |CarrierMask(c)|
    ensures (CarrierMask(c)[(row * c.width + col) * Channels + ch]
             <==> !Watermark.Excluded(c.height, c.width, row, col))
  {
    FlatMaskAt(Watermark.Mask(c.height, c.width), c.width, Channels, row, col, ch);
  }

  /** The i-th value of the selection is the value at the i-th set flag:
      a kept value at position p lands at index CountTrue(keep[..p]). */
  lemma {:induction false} SelectAt<T>(vals: seq<T>, keep: seq<bool>, p: nat)
    requires |vals| == |keep| && p < |keep| && keep[p]
    ensures CountTrue(keep[..p]) < |Select(vals, keep)|
    ensures Select(vals, keep)[CountTrue(keep[..p])] == vals[p]
  {
    var n := |vals|;
    var prefix := Select(vals[..n - 1], keep[..n - 1]);
    if p < n - 1 {
      SelectAt(vals[..n - 1], keep[..n - 1], p);
      assert keep[..n - 1][..p] == keep[..p];
    } else {
      assert keep[..n - 1] == keep[..p];
    }
  }

  /** Values whose flag is clear never reach the selection. */
  lemma {:induction false} SelectIgnoresCleared<T>(a: seq<T>, b: seq<T>, keep: seq<bool>)
    requires |a| == |keep| && |b| == |keep|
    requires forall i :: 0 <= i < |keep| && keep[i] ==> a[i] == b[i]
    ensures Select(a, keep) == Select(b, keep)
  {
    if |keep| > 0 {
      var n := |keep|;
      SelectIgnoresCleared(a[..n - 1], b[..n - 1], keep[..n - 1]);
    }
  }

  /** With every flag set the selection is the whole sequence. */
  lemma {:induction false} SelectAll<T>(vals: seq<T>, keep: seq<bool>)
    requires |vals| == |keep|
    requires forall i :: 0 <= i < |keep| ==> keep[i]
    ensures Select(vals, keep) == vals
  {
    if |keep| > 0 {
      var n := |keep|;
      SelectAll(vals[..n - 1], keep[..n - 1]);
      assert vals == vals[..n - 1] + [vals[n - 1]];
    }
  }

  /** Bit j of the k-bit group read from channel ch of an included pixel
      (row, col) is bit k-1-j of that channel byte; the group's position in
      the stream is the number of included channel bytes before it. */
  lemma CarrierBitAt(c: Carrier, k: nat, row: nat, col: nat, ch: nat, j: nat)
    requires c.Valid() && 1 <= k <= 8
    requires row < c.height && col < c.width && ch < Channels && j < k
    requires !Watermark.Excluded(c.height, c.width, row, col)
    ensures var p := (row * c.width + col) * Channels + ch;
            0 <= p < |CarrierMask(c)|
            && 0 <= CountTrue(CarrierMask(c)[..p]) * k + j < |CarrierBits(c, k)|
            && CarrierBits(c, k)[CountTrue(CarrierMask(c)[..p]) * k + j] == BitOf(c.At(row, col, ch), k - 1 - j)
  {
    var p := (row * c.width + col) * Channels + ch;
    var mask, vals := CarrierMask(c), IncludedBytes(c);
    ChannelIncluded(c, row, col, ch);
    var rank := CountTrue(mask[..p]);
    assert rank < |vals| && vals[rank] == c.At(row, col, ch) by {
      SelectAt(c.pixels, mask, p);
    }
    var bits := CarrierBits(c, k);
    assert bits == BitStream(vals, k);
    BitStreamAt(vals, k, rank, j);
    assert bits[rank * k + j] == BitOf(vals[rank], k - 1 - j);
  }

  /** Bytes inside the reserved rectangle never influence extraction: two
      carriers of one size that agree on every pixel outside it yield the
      same result at every depth. */
  lemma ReservedRegionIgnored(a: Carrier, b: Carrier, k: nat)
    requires a.Valid() && b.Valid() && a.height == b.height && a.width == b.width && 1 <= k <= 8
    requires forall row: nat, col: nat, ch: nat ::
               (row < a.height && col < a.width && ch < Channels && !Watermark.Excluded(a.height, a.width, row, col))
               ==> a.At(row, col, ch) == b.At(row, col, ch)
    ensures ExtractPayload(a, k) == ExtractPayload(b, k)
  {
    var keep := CarrierMask(a);
    assert keep == CarrierMask(b);
    forall i | 0 <= i < |keep| && keep[i]
      ensures a.pixels[i] == b.pixels[i]
    {
      var row, col, ch := Decompose(a.height, a.width, Channels, i);
      ChannelIncluded(a, row, col, ch);
      assert a.At(row, col, ch) == b.At(row, col, ch);
    }
    SelectIgnoresCleared(a.pixels, b.pixels, keep);
  }

  /** On a carrier too small to reserve anything, every channel byte carries bits. */
  lemma SmallCarrierUsesEveryByte(c: Carrier)
    requires c.Valid() && !Watermark.Reserved(c.height, c.width)
    ensures IncludedBytes(c) == c.pixels
  {
    var keep := CarrierMask(c);
    forall i | 0 <= i < |keep|
      ensures keep[i]
    {
      var row, col, ch := Decompose(c.height, c.width, Channels, i);
      ChannelIncluded(c, row, col, ch);
    }
    SelectAll(c.pixels, keep);
  }

  // Counting the included bytes

  lemma {:induction false} CountAppend(a: seq<bool>, b: seq<bool>)
    ensures CountTrue(a + b) == CountTrue(a) + CountTrue(b)
  {
    if |b| > 0 {
      assert (a + b)[..|a + b| - 1] == a + b[..|b| - 1];
      CountAppend(a, b[..|b| - 1]);
    } else {
      assert a + b == a;
    }
  }

  lemma {:induction false} CountConstant(n: nat, x: bool)
    ensures CountTrue(seq(n, _ => x)) == if x then n else 0
  {
    if n > 0 {
      assert seq(n, _ => x)[..n - 1] == seq(n - 1, _ => x);
      CountConstant(n - 1, x);
    }
  }

  lemma {:induction false} CountRepeatEach(row: seq<bool>, ch: nat)
    ensures CountTrue(RepeatEach(row, ch)) == ch * CountTrue(row)
  {
    if |row| > 0 {
      var n := |row|;
      CountRepeatEach(row[..n - 1], ch);
      CountAppend(RepeatEach(row[..n - 1], ch), seq(ch, _ => row[n - 1]));
      CountConstant(ch, row[n - 1]);
      var b := if row[n - 1] then 1 else 0;
      assert CountTrue(row) == CountTrue(row[..n - 1]) + b;
      MulAdd(ch, CountTrue(row[..n - 1]), b);
    }
  }

  /** A row whose flags are clear exactly below column t counts |s| - min(t, |s|). */
  lemma {:induction false} CountFromThreshold(s: seq<bool>, t: nat)
    requires forall i :: 0 <= i < |s| ==> (s[i] <==> i >= t)
    ensures CountTrue(s) == |s| - (if t <= |s| then t else |s|)
  {
    if |s| > 0 {
      CountFromThreshold(s[..|s| - 1], t);
    }
  }

  lemma MaskRowCount(height: nat, width: nat, r: nat)
    requires r < height
    ensures CountTrue(Watermark.Mask(height, width)[r]) ==
              width - (if Watermark.Reserved(height, width) && r < Watermark.SkipH(height)
                       then Watermark.SkipW(width) else 0)
  {
    var row := Watermark.Mask(height, width)[r];
    Watermark.RegionFits(height, width);
    if Watermark.Reserved(height, width) && r < Watermark.SkipH(height) {
      CountFromThreshold(row, Watermark.SkipW(width));
    } else {
      CountFromThreshold(row, 0);
    }
  }

  /** Pixels outside the reserved rectangle among the first n rows. */
  function OpenPixels(height: nat, width: nat, n: nat): int
  {
    n * width - (if Watermark.Reserved(height, width) then Min(n, Watermark.SkipH(height)) * Watermark.SkipW(width) else 0)
  }

  lemma OpenPixelsStep(height: nat, width: nat, n: nat)
    requires n > 0
    ensures OpenPixels(height, width, n) ==
              OpenPixels(height, width, n - 1) + width
              - (if Watermark.Reserved(height, width) && n - 1 < Watermark.SkipH(height) then Watermark.SkipW(width) else 0)
  {
    assert n * width == (n - 1) * width + width;
    if Watermark.Reserved(height, width) {
      var sh, sw := Watermark.SkipH(height), Watermark.SkipW(width);
      if n - 1 < sh {
        assert Min(n, sh) * sw == Min(n - 1, sh) * sw + sw;
      }
    }
  }

  lemma {:induction false} MaskPrefixCount(height: nat, width: nat, n: nat)
    requires n <= height
    ensures CountTrue(FlatMask(Watermark.Mask(height, width)[..n], width, Channels)) == Channels * OpenPixels(height, width, n)
  {
    if n > 0 {
      MaskPrefixCount(height, width, n - 1);
      MaskPrefixStep(height, width, n);
      OpenPixelsStep(height, width, n);
    }
  }

  /** Adding row n - 1 adds three included bytes per open pixel of that row. */
  lemma MaskPrefixStep(height: nat, width: nat, n: nat)
    requires 0 < n <= height
    ensures CountTrue(FlatMask(Watermark.Mask(height, width)[..n], width, Channels))
            == CountTrue(FlatMask(Watermark.Mask(height, width)[..n - 1], width, Channels))
               + Channels * (width - (if Watermark.Reserved(height, width) && n - 1 < Watermark.SkipH(height)
                                      then Watermark.SkipW(width) else 0))
  {
    var full := Watermark.Mask(height, width);
    var m := full[..n];
    assert m[..n - 1] == full[..n - 1];
    var prev := FlatMask(full[..n - 1], width, Channels);
    var row := m[n - 1];
    var spread := RepeatEach(row, Channels);
    assert CountTrue(FlatMask(m, width, Channels)) == CountTrue(prev) + CountTrue(spread) by {
      assert FlatMask(m, width, Channels) == prev + spread;
      CountAppend(prev, spread);
    }
    assert CountTrue(spread) == Channels * CountTrue(row) by {
      CountRepeatEach(row, Channels);
    }
    assert row == full[n - 1];
    MaskRowCount(height, width, n - 1);
  }

  function Min(a: nat, b: nat): nat
  {
    if a <= b then a else b
  }

  /** The carrier's flat mask sets three flags for every pixel outside the
      reserved rectangle. */
  lemma MaskCount(c: Carrier)
    requires c.Valid()
    ensures CountTrue(CarrierMask(c)) == Channels * (c.height * c.width - Watermark.ExcludedPixels(c.height, c.width))
  {
    var m := Watermark.Mask(c.height, c.width);
    assert m[..c.height] == m;
    MaskPrefixCount(c.height, c.width, c.height);
    Watermark.RegionFits(c.height, c.width);
    assert OpenPixels(c.height, c.width, c.height) == c.height * c.width - Watermark.ExcludedPixels(c.height, c.width);
  }


  /** Bit p of x is unaffected by reducing x modulo 2^k when p < k. */
  lemma {:induction false} BitOfMod(x: nat, k: nat, p: nat)
    requires p < k
    ensures BitOf(x % Pow2(k), p) == BitOf(x, p)
  {
    var half := Pow2(k - 1);
    var v := x % Pow2(k);
    assert v == 2 * ((x / 2) % half) + x % 2 by {
      assert Pow2(k) == 2 * half;
      ModDouble(x, half);
    }
    if p == 0 {
      assert v % 2 == x % 2;
    } else {
      assert v / 2 == (x / 2) % half;
      BitOfMod(x / 2, k - 1, p - 1);
    }
  }

}
