/** The permission bitmap codec: bytes to text of eight binary digits each, and back
    (protocol/bitmap.go). Bytes wrap around at 256, as uint8 does. */
module Bitmap {
  import opened Bytes

  // ---- one byte ----

  /** A byte shifted left `i` times. */
  function Shifted(b: byte, i: nat): byte {
    if i == 0 then b else ((Shifted(b, i - 1) as int * 2) % 256) as byte
  }

  function Bits(b: byte): (r: seq<byte>)
    ensures |r| == 8
  {
    seq(8, i requires 0 <= i < 8 => if Shifted(b, i) >= 128 then ONE else ZERO)
  }

  const WEIGHTS: seq<nat> := [128, 64, 32, 16, 8, 4, 2, 1]

  /** The sum of the weights at which up to eight digits hold a one; it never reaches 256. */
  function ChunkValue(c: seq<byte>): (n: nat)
    requires |c| <= 8
    ensures n < 256 && (c != [] ==> n + WEIGHTS[|c| - 1] <= 256)
  {
    if c == [] then 0
    else ChunkValue(c[..|c| - 1]) + if c[|c| - 1] == ONE then WEIGHTS[|c| - 1] else 0
  }

  function Digit(c: byte): byte {
    if c == ONE then ONE else ZERO
  }

  function Digits(s: seq<byte>): (r: seq<byte>)
    ensures |r| == |s|
  {
    seq(|s|, i requires 0 <= i < |s| => Digit(s[i]))
  }

  function Term(c: byte, w: nat): nat {
    if c == ONE then w else 0
  }

  lemma ChunkStep(c: seq<byte>, k: nat)
    requires k < |c| <= 8
    ensures ChunkValue(c[..k + 1]) == ChunkValue(c[..k]) + Term(c[k], WEIGHTS[k])
  {
    assert c[..k + 1][..k] == c[..k];
  }

  lemma ChunkSum(c: seq<byte>)
    requires |c| == 8
    ensures ChunkValue(c) == Term(c[0], 128) + Term(c[1], 64) + Term(c[2], 32) + Term(c[3], 16)
                           + Term(c[4], 8) + Term(c[5], 4) + Term(c[6], 2) + Term(c[7], 1)
  {
    ChunkStep(c, 0); ChunkStep(c, 1); ChunkStep(c, 2); ChunkStep(c, 3);
    ChunkStep(c, 4); ChunkStep(c, 5); ChunkStep(c, 6); ChunkStep(c, 7);
    assert c[..0] == [] && c[..8] == c;
  }

  /** A shift doubles the byte and drops the digit it had at the top. */
  lemma ShiftStep(b: byte, i: nat)
    requires i < 8
    ensures Shifted(b, i + 1) as int == 2 * Shifted(b, i) as int - Term(Bits(b)[i], 256)
  {
  }

  lemma Doublings(c: byte)
    ensures Term(c, 256) == 2 * Term(c, 128) == 4 * Term(c, 64) == 8 * Term(c, 32) == 16 * Term(c, 16)
         == 32 * Term(c, 8) == 64 * Term(c, 4) == 128 * Term(c, 2) == 256 * Term(c, 1)
  {
  }

  /** The digits of a byte add up to it. */
  lemma BitsValue(b: byte)
    ensures ChunkValue(Bits(b)) == b as int
  {
    var c := Bits(b);
    ChunkSum(c);
    ShiftStep(b, 0); ShiftStep(b, 1); ShiftStep(b, 2); ShiftStep(b, 3);
    ShiftStep(b, 4); ShiftStep(b, 5); ShiftStep(b, 6); ShiftStep(b, 7);
    Doublings(c[0]); Doublings(c[1]); Doublings(c[2]); Doublings(c[3]);
    Doublings(c[4]); Doublings(c[5]); Doublings(c[6]); Doublings(c[7]);
    DoubledEight(b as int, Shifted(b, 8) as int, ChunkValue(c));
  }

  // Eight doublings leave nothing of a byte but what was dropped on the way.
  lemma DoubledEight(b: nat, rest: nat, dropped: nat)
    requires rest < 256 && rest == 256 * b - 256 * dropped
    ensures b == dropped
  {
  }

  /** Different digits add up to different bytes. */
  lemma SumInjective(c: seq<byte>, d: seq<byte>)
    requires |c| == |d| == 8 && ChunkValue(c) == ChunkValue(d)
    ensures Digits(c) == Digits(d)
  {
    ChunkSum(c);
    ChunkSum(d);
    assert Digit(c[0]) == Digit(d[0]);
    assert Digit(c[1]) == Digit(d[1]);
    assert Digit(c[2]) == Digit(d[2]);
    assert Digit(c[3]) == Digit(d[3]);
    assert Digit(c[4]) == Digit(d[4]);
    assert Digit(c[5]) == Digit(d[5]);
    assert Digit(c[6]) == Digit(d[6]);
    assert Digit(c[7]) == Digit(d[7]);
  }

  /** The digits of a sum are the digits summed, anything but a one counting as a zero. */
  lemma ValueBits(c: seq<byte>)
    requires |c| == 8
    ensures Bits(ChunkValue(c) as byte) == Digits(c)
  {
    var b := ChunkValue(c) as byte;
    BitsValue(b);
    SumInjective(Bits(b), c);
    assert Digits(Bits(b)) == Bits(b);
  }

  // ---- whole bitmaps ----

  function Encode(bs: seq<byte>): (r: seq<byte>)
    ensures |r| == 8 * |bs|
  {
    if bs == [] then [] else Encode(bs[..|bs| - 1]) + Bits(bs[|bs| - 1])
  }

  function ByteOf(n: nat): (b: byte)
    requires n < 256
    ensures b as int == n
  {
    n as byte
  }

  // A text read from the left: the bytes completed, and the digits of the next one.
  datatype Reading = Reading(bytes: seq<byte>, digits: seq<byte>)

  function Read(s: seq<byte>): (r: Reading)
    ensures |r.digits| < 8
  {
    if s == [] then Reading([], [])
    else
      var before := Read(s[..|s| - 1]);
      var digits := before.digits + [s[|s| - 1]];
      if |digits| == 8 then Reading(before.bytes + [ByteOf(ChunkValue(digits))], []) else Reading(before.bytes, digits)
  }

  function Decode(s: seq<byte>): seq<byte> {
    Read(s).bytes
  }

  /** Zeros to the right, up to a multiple of eight. */
  function Pad(s: seq<byte>): (r: seq<byte>)
    ensures |r| % 8 == 0 && |s| <= |r| < |s| + 8
    ensures s <= r && forall i | |s| <= i < |r| :: r[i] == ZERO
  {
    if |s| % 8 == 0 then s else s + seq(8 - |s| % 8, _ => ZERO)
  }

  method AppendBinaryString(bs: seq<byte>, b0: byte) returns (r: seq<byte>)
    ensures r == bs + Bits(b0)
  {
    r := bs;
    var b := b0;
    for i := 0 to 8
      invariant b == Shifted(b0, i)
      invariant r == bs + Bits(b0)[..i]
    {
      ClearTop(b);
      var a := b;
      b := ((b as int * 2) % 256) as byte;
      b := b / 2;
      if a == b {
        r := r + [ZERO];
      } else {
        r := r + [ONE];
      }
      b := ((b as int * 2) % 256) as byte;
    }
    assert Bits(b0)[..8] == Bits(b0);
  }

  /** Shifting left and back clears the top digit, and a second shift left is the first one. */
  lemma ClearTop(b: byte)
    ensures var c := ((b as int * 2) % 256) / 2;
      && (b as int == c <==> b < 128)
      && (c * 2) % 256 == (b as int * 2) % 256
  {
  }

  method ConvertBimapByte2String(bitmaps: seq<byte>) returns (buf: seq<byte>)
    ensures buf == Encode(bitmaps)
  {
    buf := [];
    for i := 0 to |bitmaps|
      invariant buf == Encode(bitmaps[..i])
    {
      buf := AppendBinaryString(buf, bitmaps[i]);
      assert bitmaps[..i + 1][..i] == bitmaps[..i];
    }
    assert bitmaps[..|bitmaps|] == bitmaps;
  }

  // The loop's state: the bytes completed and the accumulator of the next one.
  datatype Accumulator = Accumulator(bytes: seq<byte>, n: byte)

  function AddDigit(n: byte, c: byte, m: nat): byte
    requires m < 8
  {
    AddWeight(n, c, WEIGHTS[m])
  }

  function AddWeight(n: byte, c: byte, w: nat): byte {
    if c == ONE then ((n as int + w) % 256) as byte else n
  }

  function Accumulate(s: seq<byte>): Accumulator {
    if s == [] then Accumulator([], 0)
    else
      var a, m := Accumulate(s[..|s| - 1]), Column(|s| - 1);
      var n := AddDigit(a.n, s[|s| - 1], m);
      if m == 7 then Accumulator(a.bytes + [n], 0) else Accumulator(a.bytes, n)
  }

  method ConvertBitmapString2Byte(bitmaps: seq<byte>) returns (bs: seq<byte>)
    ensures bs == Decode(Pad(bitmaps))
  {
    if |bitmaps| == 0 {
      return [];
    }
    var s := Pad(bitmaps);
    bs := [];
    var n: byte := 0;
    ghost var seen := [];
    for i := 0 to |s|
      invariant seen == s[..i] && Accumulate(seen) == Accumulator(bs, n)
    {
      var m := Column(i);
      n := AddDigit(n, s[i], m);
      if m == 7 {
        bs := bs + [n];
        n := 0;
      }
      ghost var before := seen;
      seen := seen + [s[i]];
      assert seen[..|seen| - 1] == before;
    }
    assert seen == s;
    NoOverflow(s);
  }

  /** The accumulator holds the value of the digits read since the last completed byte: no
      addition ever wraps around. */
  lemma {:induction false} NoOverflow(s: seq<byte>)
    ensures Accumulate(s).bytes == Decode(s) && Accumulate(s).n as int == ChunkValue(Read(s).digits)
  {
    if s != [] {
      var before := s[..|s| - 1];
      NoOverflow(before);
      DigitCount(before);
      AddDigitIs(Accumulate(before).n, Read(before).digits, s[|s| - 1]);
    }
  }

  /** The column of the next digit, as the loop computes it. */
  function Column(i: nat): nat {
    (i + 8) % 8
  }

  lemma {:induction false} DigitCount(s: seq<byte>)
    ensures |Read(s).digits| == Column(|s|)
  {
    if s != [] {
      DigitCount(s[..|s| - 1]);
    }
  }

  lemma AddDigitIs(n: byte, digits: seq<byte>, c: byte)
    requires |digits| < 8 && n as int == ChunkValue(digits)
    ensures AddDigit(n, c, |digits|) as int == ChunkValue(digits + [c])
  {
    AddedDigit(digits, c);
    var w := WEIGHTS[|digits|];
    WithinByte(n, w, ChunkValue(digits + [c]), c);
  }

  lemma WithinByte(n: byte, w: nat, sum: nat, c: byte)
    requires sum == n as int + Term(c, w) && sum < 256
    ensures AddWeight(n, c, w) as int == sum
  {
  }

  lemma AddedDigit(digits: seq<byte>, c: byte)
    requires |digits| < 8
    ensures ChunkValue(digits + [c]) == ChunkValue(digits) + Term(c, WEIGHTS[|digits|]) < 256
  {
    assert (digits + [c])[..|digits|] == digits;
  }

  /** Up to eight digits after a whole number of bytes. */
  lemma {:induction false} ReadDigits(s: seq<byte>, c: seq<byte>)
    requires |s| % 8 == 0 && |c| <= 8
    ensures Read(s + c) == if |c| == 8 then Reading(Decode(s) + [ByteOf(ChunkValue(c))], []) else Reading(Decode(s), c)
  {
    if c == [] {
      assert s + c == s;
      DigitCount(s);
    } else {
      var c' := c[..|c| - 1];
      ReadDigits(s, c');
      assert (s + c)[..|s + c| - 1] == s + c' && c' + [c[|c| - 1]] == c;
    }
  }

  // ---- round trips ----

  lemma DecodeOneMore(s: seq<byte>, b: byte)
    requires |s| % 8 == 0
    ensures Decode(s + Bits(b)) == Decode(s) + [b]
  {
    BitsValue(b);
    ReadDigits(s, Bits(b));
  }

  lemma WholeBytes(n: nat)
    ensures 8 * n % 8 == 0
  {
  }

  lemma {:induction false} DecodeEncode(bs: seq<byte>)
    ensures Decode(Encode(bs)) == bs
  {
    if bs != [] {
      var before, b := bs[..|bs| - 1], bs[|bs| - 1];
      DecodeEncode(before);
      WholeBytes(|before|);
      DecodeOneMore(Encode(before), b);
      assert before + [b] == bs;
    }
  }

  /** Text made from bytes gives the bytes back. */
  lemma BytesRoundTrip(bs: seq<byte>)
    ensures Decode(Pad(Encode(bs))) == bs
  {
    WholeBytes(|bs|);
    assert Pad(Encode(bs)) == Encode(bs);
    DecodeEncode(bs);
  }

  /** Bytes made from text give back its digits, padded, whatever was not a one read as zero. */
  lemma TextRoundTrip(s: seq<byte>)
    ensures Encode(Decode(Pad(s))) == Digits(Pad(s))
  {
    DecodedDigits(Pad(s));
  }

  lemma {:induction false} DecodedDigits(s: seq<byte>)
    requires |s| % 8 == 0
    ensures Encode(Decode(s)) == Digits(s)
  {
    if s != [] {
      var before, last := s[..|s| - 8], s[|s| - 8..];
      DecodedDigits(before);
      ValueBits(last);
      assert s == before + last;
      ReadDigits(before, last);
      assert Decode(s)[..|Decode(s)| - 1] == Decode(before);
      assert Digits(s) == Digits(before) + Digits(last);
    }
  }

  lemma OneDigitPadded()
    ensures Pad([ONE]) == [ONE, ZERO, ZERO, ZERO, ZERO, ZERO, ZERO, ZERO]
  {
  }

  lemma EndDigits()
    ensures ChunkValue([ONE, ZERO, ZERO, ZERO, ZERO, ZERO, ZERO, ZERO]) == 128
    ensures ChunkValue([ZERO, ZERO, ZERO, ZERO, ZERO, ZERO, ZERO, ONE]) == 1
  {
    ChunkSum([ONE, ZERO, ZERO, ZERO, ZERO, ZERO, ZERO, ZERO]);
    ChunkSum([ZERO, ZERO, ZERO, ZERO, ZERO, ZERO, ZERO, ONE]);
  }

  /** The digit written first weighs most: a single one is the byte 128. */
  lemma FirstDigitWeighsMost()
    ensures Decode(Pad([ONE])) == [128]
  {
    var digits := [ONE, ZERO, ZERO, ZERO, ZERO, ZERO, ZERO, ZERO];
    OneDigitPadded();
    EndDigits();
    ReadDigits([], digits);
    assert [] + digits == digits;
    assert Decode([]) == [];
  }

  /** And the byte 1 is seven zeros and a one. */
  lemma LastDigitWeighsLeast()
    ensures Encode([1]) == [ZERO, ZERO, ZERO, ZERO, ZERO, ZERO, ZERO, ONE]
  {
    var last := [ZERO, ZERO, ZERO, ZERO, ZERO, ZERO, ZERO, ONE];
    EndDigits();
    ValueBits(last);
    DigitsOfLast();
    assert [1][..0] == [];
    assert Encode([1]) == [] + Bits(1) == Bits(1);
  }

  lemma DigitsOfLast()
    ensures Digits([ZERO, ZERO, ZERO, ZERO, ZERO, ZERO, ZERO, ONE])
      == [ZERO, ZERO, ZERO, ZERO, ZERO, ZERO, ZERO, ONE]
  {
  }
}
