/** The 7-bit packing used by the scene dump (EncodedBytesAdapter in
    nanokontrol/datatypes.py).

    Seven natural bytes travel as eight MIDI-clean bytes: the first byte of
    every group of eight is a carrier whose bit k holds the high bit of
    natural byte k, and the seven bytes after it hold the low seven bits of
    the natural bytes in order. */
module Codec {
  import opened Bits

  /** A run of n zero bytes */
  function Zeros(n: nat): (r: seq<Byte>)
    ensures |r| == n
    ensures forall i :: 0 <= i < n ==> r[i] == 0
  {
    seq(n, _ => 0)
  }

  /** The number of groups of w that n bytes fill, the last one possibly short */
  function Groups(n: nat, w: nat): nat
    requires w > 0
    decreases n
  {
    if n == 0 then 0 else if n <= w then 1 else 1 + Groups(n - w, w)
  }

  /** Groups(n, 8) is the ceiling of n / 8 */
  lemma {:induction false} GroupsOfEight(n: nat)
    ensures Groups(n, 8) == (n + 7) / 8
    decreases n
  {
    if n > 8 {
      GroupsOfEight(n - 8);
    }
  }

  /** Groups(n, 7) is the ceiling of n / 7 */
  lemma {:induction false} GroupsOfSeven(n: nat)
    ensures Groups(n, 7) == (n + 6) / 7
    decreases n
  {
    if n > 7 {
      GroupsOfSeven(n - 7);
    }
  }

  /** How many zero bytes fill the last group of seven up to a whole group */
  function Pad(n: nat): nat {
    if n % 7 == 0 then 0 else 7 - n % 7
  }

  /** Seven more bytes need the same padding */
  lemma PadShift(n: nat)
    requires n >= 7
    ensures Pad(n - 7) == Pad(n)
  {
    assert (n - 7) % 7 == n % 7;
  }

  lemma Pow2Seven()
    ensures Pow2(7) == 0x80
  {
  }

  lemma {:induction false} Pow2Monotone(j: nat, k: nat)
    requires j <= k
    ensures Pow2(j) <= Pow2(k)
    decreases k
  {
    if j < k {
      Pow2Monotone(j, k - 1);
    }
  }

  /** `bits | (flag << 7)`: a payload byte with the carrier's bit for it put
      back as its high bit */
  function WithHighBit(bits: Byte, flag: nat): (r: Byte)
    requires flag < 2
    ensures Low7(r) == Low7(bits)
    ensures High(r) == if flag == 1 then 1 else High(bits)
  {
    var r := Or(bits, flag * 0x80);
    if flag == 0 then
      assert flag * 0x80 == 0;
      OrZero(bits);
      r
    else
      assert flag * 0x80 == 0x80;
      SetHighBit(bits);
      r
  }

  /** Or-ing in 0x80 sets the high bit and keeps the low seven */
  lemma SetHighBit(bits: Byte)
    ensures Or(bits, 0x80) == 0x80 + Low7(bits)
    ensures High(0x80 + Low7(bits)) == 1 && Low7(0x80 + Low7(bits)) == Low7(bits)
  {
    Pow2Seven();
    OrPow2(bits, 7);
    ByteSplits(bits);
    SplitByte(1, Low7(bits));
  }

  /** One group of decoding: `outset[i - 1] = bits | (((inset[0] >> (i - 1)) & 1) << 7)`
      for every payload byte present; an output byte whose payload byte is
      missing keeps its initial 0. */
  function DecodeGroup(g: seq<Byte>): (r: seq<Byte>)
    requires 1 <= |g| <= 8
    ensures |r| == 7
  {
    seq(7, k requires 0 <= k < 7 =>
      if k + 1 < |g| then WithHighBit(g[k + 1], Bit(g[0], k)) else 0)
  }

  /** Decoding walks the input in groups of eight (the last one may be
      shorter) and emits seven bytes for every group, even a short one. */
  function Decode(y: seq<Byte>): seq<Byte>
    decreases |y|
  {
    if |y| == 0 then []
    else
      var n := if |y| < 8 then |y| else 8;
      DecodeGroup(y[..n]) + Decode(y[n..])
  }

  /** The carrier of a group after its first n natural bytes:
      `outset[0] | (((bits & 0x80) >> 7) << i)` accumulated for i < n. */
  function Carrier(c: seq<Byte>, n: nat): (r: nat)
    requires n <= |c|
    ensures r < Pow2(n)
  {
    if n == 0 then 0
    else
      var prev := Carrier(c, n - 1);
      OrPow2(prev, n - 1);
      OrZero(prev);
      Or(prev, High(c[n - 1]) * Pow2(n - 1))
  }

  /** One group of encoding: carrier first, then the low seven bits of each
      natural byte; payload bytes with no natural byte stay 0. */
  function EncodeGroup(c: seq<Byte>): (r: seq<Byte>)
    requires 1 <= |c| <= 7
    ensures |r| == 8
    ensures SevenBitClean(r)
  {
    Pow2Monotone(|c|, 7);
    Pow2Seven();
    [Carrier(c, |c|) as Byte] + seq(7, k requires 0 <= k < 7 => if k < |c| then Low7(c[k]) else 0)
  }

  /** Encoding walks the input in groups of seven (the last one may be
      shorter) and emits eight MIDI-clean bytes for every group. */
  function Encode(x: seq<Byte>): seq<Byte>
    decreases |x|
  {
    if |x| == 0 then []
    else
      var n := if |x| < 7 then |x| else 7;
      EncodeGroup(x[..n]) + Encode(x[n..])
  }

  /** Bit k of the carrier is the high bit of natural byte k, and clear
      beyond the bytes accumulated so far. */
  lemma {:induction false} CarrierBits(c: seq<Byte>, n: nat, k: nat)
    requires n <= |c|
    ensures Bit(Carrier(c, n), k) == if k < n then High(c[k]) else 0
    decreases n
  {
    if n == 0 {
      BitOfZero(k);
    } else {
      var prev := Carrier(c, n - 1);
      OrPow2(prev, n - 1);
      OrZero(prev);
      assert Carrier(c, n) == prev + High(c[n - 1]) * Pow2(n - 1);
      BitOfSum(prev, High(c[n - 1]), n - 1, k);
      if k != n - 1 {
        CarrierBits(c, n - 1, k);
      }
    }
  }

  /** Decoding peels off one full group of eight */
  lemma DecodeCons(g: seq<Byte>, rest: seq<Byte>)
    requires |g| == 8
    ensures Decode(g + rest) == DecodeGroup(g) + Decode(rest)
  {
    assert (g + rest)[..8] == g;
    assert (g + rest)[8..] == rest;
  }

  /** An input of at most one group decodes as that single group */
  lemma DecodeShort(y: seq<Byte>)
    requires 1 <= |y| <= 8
    ensures Decode(y) == DecodeGroup(y)
  {
    assert y[..|y|] == y;
    assert y[|y|..] == [];
  }

  /** Encoding peels off one full group of seven */
  lemma EncodeCons(c: seq<Byte>, rest: seq<Byte>)
    requires |c| == 7
    ensures Encode(c + rest) == EncodeGroup(c) + Encode(rest)
  {
    assert (c + rest)[..7] == c;
    assert (c + rest)[7..] == rest;
  }

  /** An input of at most one group encodes as that single group */
  lemma EncodeShort(x: seq<Byte>)
    requires 1 <= |x| <= 7
    ensures Encode(x) == EncodeGroup(x)
  {
    assert x[..|x|] == x;
    assert x[|x|..] == [];
  }

  /** Decoding emits seven bytes for every group of eight, a short last
      group included. */
  lemma {:induction false} DecodeLength(y: seq<Byte>)
    ensures |Decode(y)| == 7 * Groups(|y|, 8)
    decreases |y|
  {
    if 0 < |y| <= 8 {
      DecodeShort(y);
    } else if |y| > 8 {
      assert y == y[..8] + y[8..];
      DecodeCons(y[..8], y[8..]);
      DecodeLength(y[8..]);
    }
  }

  /** Encoding emits eight bytes for every group of seven, a short last
      group included. */
  lemma {:induction false} EncodeLength(x: seq<Byte>)
    ensures |Encode(x)| == 8 * Groups(|x|, 7)
    decreases |x|
  {
    if 0 < |x| <= 7 {
      EncodeShort(x);
    } else if |x| > 7 {
      assert x == x[..7] + x[7..];
      EncodeCons(x[..7], x[7..]);
      EncodeLength(x[7..]);
    }
  }

  /** Every encoded byte is valid 7-bit MIDI data */
  lemma {:induction false} EncodeClean(x: seq<Byte>)
    ensures SevenBitClean(Encode(x))
    decreases |x|
  {
    if 0 < |x| <= 7 {
      EncodeShort(x);
    } else if |x| > 7 {
      assert x == x[..7] + x[7..];
      EncodeCons(x[..7], x[7..]);
      EncodeClean(x[7..]);
    }
  }

  /** Bit layout of decoding: decoded byte 7g+k is payload byte 8g+k+1 with
      bit k of carrier byte 8g as its high bit, or 0 when that payload byte
      is missing from a short last group. */
  lemma {:induction false} DecodeLayout(y: seq<Byte>, g: nat, k: nat)
    requires k < 7 && 8 * g < |y|
    ensures 7 * g + k < |Decode(y)|
    ensures Decode(y)[7 * g + k] ==
      if 8 * g + k + 1 < |y| then WithHighBit(y[8 * g + k + 1], Bit(y[8 * g], k)) else 0
    decreases g, 1
  {
    if |y| <= 8 {
      DecodeLayoutShort(y, k);
    } else if g == 0 {
      DecodeLayoutFirst(y, k);
    } else {
      DecodeLayoutStep(y, g, k);
    }
  }

  /** The layout of group g follows from that of group g - 1 of the rest */
  lemma {:induction false} DecodeLayoutStep(y: seq<Byte>, g: nat, k: nat)
    requires k < 7 && 0 < g && 8 * g < |y|
    ensures 7 * g + k < |Decode(y)|
    ensures Decode(y)[7 * g + k] ==
      if 8 * g + k + 1 < |y| then WithHighBit(y[8 * g + k + 1], Bit(y[8 * g], k)) else 0
    decreases g, 0
  {
    var t := y[8..];
    var i, j := 7 * (g - 1) + k, 8 * (g - 1);
    assert 7 * g + k == i + 7 && 8 * g == j + 8;
    DecodeLayout(t, g - 1, k);
    assert t[j] == y[j + 8];
    if j + k + 1 < |t| {
      assert t[j + k + 1] == y[j + k + 9];
    }
    DecodeShift(y, i);
  }

  /** Past the first group, a decoding is the decoding of the rest */
  lemma DecodeShift(y: seq<Byte>, i: nat)
    requires |y| > 8 && i < |Decode(y[8..])|
    ensures |Decode(y)| == 7 + |Decode(y[8..])|
    ensures Decode(y)[7 + i] == Decode(y[8..])[i]
  {
    assert y == y[..8] + y[8..];
    DecodeCons(y[..8], y[8..]);
  }

  lemma DecodeLayoutShort(y: seq<Byte>, k: nat)
    requires k < 7 && 0 < |y| <= 8
    ensures k < |Decode(y)|
    ensures Decode(y)[k] == if k + 1 < |y| then WithHighBit(y[k + 1], Bit(y[0], k)) else 0
  {
    DecodeShort(y);
  }

  lemma DecodeLayoutFirst(y: seq<Byte>, k: nat)
    requires k < 7 && 8 < |y|
    ensures k < |Decode(y)|
    ensures Decode(y)[k] == WithHighBit(y[k + 1], Bit(y[0], k))
  {
    var g := y[..8];
    assert y == g + y[8..];
    DecodeCons(g, y[8..]);
    assert Decode(y)[k] == DecodeGroup(g)[k];
  }

  /** Bit layout of encoding: carrier byte 8g holds in bit k the high bit of
      natural byte 7g+k, and byte 8g+k+1 holds its low seven bits; both are
      0 past the end of the input. */
  lemma {:induction false} EncodeLayout(x: seq<Byte>, g: nat, k: nat)
    requires k < 7 && 7 * g < |x|
    ensures 8 * g + k + 1 < |Encode(x)|
    ensures Bit(Encode(x)[8 * g], k) == if 7 * g + k < |x| then High(x[7 * g + k]) else 0
    ensures Encode(x)[8 * g + k + 1] == if 7 * g + k < |x| then Low7(x[7 * g + k]) else 0
    decreases g, 1
  {
    if |x| <= 7 {
      EncodeLayoutShort(x, k);
    } else if g == 0 {
      EncodeLayoutFirst(x, k);
    } else {
      EncodeLayoutStep(x, g, k);
    }
  }

  /** The layout of group g follows from that of group g - 1 of the rest */
  lemma {:induction false} EncodeLayoutStep(x: seq<Byte>, g: nat, k: nat)
    requires k < 7 && 0 < g && 7 * g < |x|
    ensures 8 * g + k + 1 < |Encode(x)|
    ensures Bit(Encode(x)[8 * g], k) == if 7 * g + k < |x| then High(x[7 * g + k]) else 0
    ensures Encode(x)[8 * g + k + 1] == if 7 * g + k < |x| then Low7(x[7 * g + k]) else 0
    decreases g, 0
  {
    var t := x[7..];
    var i, j := 8 * (g - 1), 7 * (g - 1) + k;
    assert 7 * g + k == j + 7 && 8 * g == i + 8;
    EncodeLayout(t, g - 1, k);
    EncodeShift(x, i);
    EncodeShift(x, i + k + 1);
    assert Encode(x)[8 * g] == Encode(t)[i];
    assert Encode(x)[8 * g + k + 1] == Encode(t)[i + k + 1];
    if j < |t| {
      assert t[j] == x[7 * g + k];
    } else {
      assert 7 * g + k >= |x|;
    }
  }

  /** Past the first group, an encoding is the encoding of the rest */
  lemma EncodeShift(x: seq<Byte>, i: nat)
    requires |x| > 7 && i < |Encode(x[7..])|
    ensures |Encode(x)| == 8 + |Encode(x[7..])|
    ensures Encode(x)[8 + i] == Encode(x[7..])[i]
  {
    assert x == x[..7] + x[7..];
    EncodeCons(x[..7], x[7..]);
  }

  lemma EncodeLayoutShort(x: seq<Byte>, k: nat)
    requires k < 7 && 0 < |x| <= 7
    ensures k + 1 < |Encode(x)|
    ensures Bit(Encode(x)[0], k) == if k < |x| then High(x[k]) else 0
    ensures Encode(x)[k + 1] == if k < |x| then Low7(x[k]) else 0
  {
    EncodeShort(x);
    CarrierBits(x, |x|, k);
  }

  lemma EncodeLayoutFirst(x: seq<Byte>, k: nat)
    requires k < 7 && 7 < |x|
    ensures 8 + k < |Encode(x)|
    ensures Bit(Encode(x)[0], k) == High(x[k])
    ensures Encode(x)[k + 1] == Low7(x[k])
  {
    var e := EncodeGroup(x[..7]);
    assert x == x[..7] + x[7..];
    EncodeCons(x[..7], x[7..]);
    CarrierBits(x[..7], 7, k);
    assert Encode(x)[0] == e[0];
    assert Encode(x)[k + 1] == e[k + 1];
  }

  /** Two bytes with the same high bit and the same low seven bits are
      the same byte */
  lemma ByteHalves(a: Byte, b: Byte)
    requires Low7(a) == Low7(b) && High(a) == High(b)
    ensures a == b
  {
  }

  /** Decoding an encoded group, cut anywhere after its last real payload
      byte, gives the natural bytes back followed by zeros. */
  lemma DecodeEncodeGroup(c: seq<Byte>, m: nat)
    requires 1 <= |c| <= 7 && |c| + 1 <= m <= 8
    ensures DecodeGroup(EncodeGroup(c)[..m]) == c + Zeros(7 - |c|)
  {
    var e := EncodeGroup(c)[..m];
    var z := c + Zeros(7 - |c|);
    forall k | 0 <= k < 7
      ensures DecodeGroup(e)[k] == z[k]
    {
      CarrierBits(c, |c|, k);
      assert Bit(e[0], k) == if k < |c| then High(c[k]) else 0;
      if k < |c| {
        assert e[k + 1] == Low7(c[k]);
        Reassemble(c[k]);
        assert DecodeGroup(e)[k] == c[k];
      } else if k + 1 < m {
        assert e[k + 1] == 0;
        Reassemble(0);
        assert DecodeGroup(e)[k] == 0;
      } else {
        assert DecodeGroup(e)[k] == 0;
      }
    }
  }

  /** Putting a byte's high bit back onto its low seven bits gives the byte */
  lemma Reassemble(x: Byte)
    ensures WithHighBit(Low7(x), High(x)) == x
  {
    var l, h := Low7(x), High(x);
    ByteSplits(x);
    SplitByte(0, l);
    assert High(l) == 0 && Low7(l) == l;
    var r := WithHighBit(l, h);
    assert Low7(r) == l;
    assert High(r) == h;
    ByteHalves(r, x);
  }

  /** Round trip one: decoding what was encoded gives the input back,
      followed by the zeros that filled its last group. */
  lemma {:induction false} DecodeEncode(x: seq<Byte>)
    ensures Decode(Encode(x)) == x + Zeros(Pad(|x|))
    decreases |x|, 1
  {
    if 0 < |x| < 7 {
      DecodeEncodeShort(x);
    } else if |x| >= 7 {
      DecodeEncodeCons(x);
    }
  }

  lemma DecodeEncodeShort(x: seq<Byte>)
    requires 0 < |x| < 7
    ensures Decode(Encode(x)) == x + Zeros(Pad(|x|))
  {
    var e := EncodeGroup(x);
    assert Pad(|x|) == 7 - |x|;
    calc {
      Decode(Encode(x));
      { EncodeShort(x); }
      Decode(e);
      { DecodeShort(e); }
      DecodeGroup(e);
      { assert e[..8] == e; }
      DecodeGroup(e[..8]);
      { DecodeEncodeGroup(x, 8); }
      x + Zeros(7 - |x|);
    }
  }

  /** One step of DecodeEncode: a full group in front of the rest */
  lemma {:induction false} DecodeEncodeCons(x: seq<Byte>)
    requires |x| >= 7
    ensures Decode(Encode(x)) == x + Zeros(Pad(|x|))
    decreases |x|, 0
  {
    var head, tail := x[..7], x[7..];
    var e, rest, z := EncodeGroup(head), Encode(tail), Zeros(Pad(|x|));
    DecodeEncode(tail);
    PadShift(|x|);
    calc {
      Decode(Encode(x));
      { assert x == head + tail; EncodeCons(head, tail); }
      Decode(e + rest);
      { DecodeCons(e, rest); }
      DecodeGroup(e) + Decode(rest);
      { DecodeEncodeFull(head); }
      head + (tail + z);
      { SeqAssoc(head, tail, z); }
      (head + tail) + z;
      { assert head + tail == x; }
      x + z;
    }
  }

  lemma SeqAssoc<T>(a: seq<T>, b: seq<T>, c: seq<T>)
    ensures a + (b + c) == (a + b) + c
  {
  }

  /** The round trip is exact precisely when the input fills whole groups */
  lemma DecodeEncodeExact(x: seq<Byte>)
    ensures Decode(Encode(x)) == x <==> |x| % 7 == 0
  {
    if |x| % 7 == 0 {
      DecodeEncode(x);
      PaddedIsSame(x, Pad(|x|));
    } else {
      DecodeEncodeLonger(x);
    }
  }

  lemma DecodeEncodeLonger(x: seq<Byte>)
    requires |x| % 7 != 0
    ensures |Decode(Encode(x))| > |x|
  {
    DecodeEncode(x);
  }

  lemma PaddedIsSame(x: seq<Byte>, n: nat)
    ensures x + Zeros(n) == x <==> n == 0
  {
    if n == 0 {
      assert x + Zeros(n) == x;
    } else {
      assert |x + Zeros(n)| != |x|;
    }
  }

  /** Encoding a decoded full group gives the group back when it is MIDI-clean */
  lemma EncodeDecodeGroup(g: seq<Byte>)
    requires |g| == 8 && SevenBitClean(g)
    ensures EncodeGroup(DecodeGroup(g)) == g
  {
    var d := DecodeGroup(g);
    var e := EncodeGroup(d);
    DecodedCarrier(g);
    forall i | 1 <= i < 8
      ensures e[i] == g[i]
    {
      DecodedByte(g, i - 1);
    }
  }

  /** A decoded byte of a MIDI-clean group: its high bit comes from the
      carrier and its low seven bits are the payload byte */
  lemma DecodedByte(g: seq<Byte>, k: nat)
    requires |g| == 8 && SevenBitClean(g) && k < 7
    ensures High(DecodeGroup(g)[k]) == Bit(g[0], k)
    ensures Low7(DecodeGroup(g)[k]) == g[k + 1]
  {
    var b, f := g[k + 1], Bit(g[0], k);
    assert DecodeGroup(g)[k] == WithHighBit(b, f);
    assert b < 0x80;
    assert High(b) == 0 && Low7(b) == b;
  }

  /** Re-encoding a decoded MIDI-clean group rebuilds its carrier byte */
  lemma DecodedCarrier(g: seq<Byte>)
    requires |g| == 8 && SevenBitClean(g)
    ensures Carrier(DecodeGroup(g), 7) == g[0]
  {
    var d := DecodeGroup(g);
    forall k | 0 <= k < 7
      ensures Bit(Carrier(d, 7), k) == Bit(g[0], k)
    {
      CarrierBits(d, 7, k);
      DecodedByte(g, k);
    }
    Pow2Seven();
    assert g[0] < 0x80;
    BitsDetermine(Carrier(d, 7), g[0], 7);
  }

  /** Both sides of a split of a MIDI-clean sequence are MIDI-clean */
  lemma CleanSplit(y: seq<Byte>, n: nat)
    requires n <= |y| && SevenBitClean(y)
    ensures SevenBitClean(y[..n]) && SevenBitClean(y[n..])
  {
    assert forall i :: 0 <= i < |y| - n ==> y[n..][i] == y[n + i];
  }

  /** Round trip two: a MIDI-clean input of whole groups of eight comes back
      unchanged from decoding and re-encoding. */
  lemma {:induction false} EncodeDecode(y: seq<Byte>)
    requires |y| % 8 == 0 && SevenBitClean(y)
    ensures Encode(Decode(y)) == y
    decreases |y|
  {
    if |y| > 0 {
      var g, t := y[..8], y[8..];
      var d, rest := DecodeGroup(g), Decode(t);
      CleanSplit(y, 8);
      EncodeDecode(t);
      calc {
        Encode(Decode(y));
        { assert y == g + t; }
        Encode(Decode(g + t));
        { DecodeCons(g, t); }
        Encode(d + rest);
        { EncodeCons(d, rest); }
        EncodeGroup(d) + Encode(rest);
        { EncodeDecodeGroup(g); }
        g + t;
      }
    }
  }

  /** Decoding distributes over a split at a group boundary */
  lemma {:induction false} DecodeAppend(a: seq<Byte>, b: seq<Byte>)
    requires |a| % 8 == 0
    ensures Decode(a + b) == Decode(a) + Decode(b)
    decreases |a|
  {
    if |a| > 0 {
      var g, t := a[..8], a[8..];
      assert a == g + t;
      SeqAssoc(g, t, b);
      DecodeCons(g, t + b);
      DecodeCons(g, t);
      DecodeAppend(t, b);
      SeqAssoc(DecodeGroup(g), Decode(t), Decode(b));
    } else {
      assert a + b == b;
    }
  }

  /** Groups(n, 7) groups of seven hold at least n bytes */
  lemma {:induction false} GroupsCoverSeven(n: nat)
    ensures n <= 7 * Groups(n, 7)
    decreases n
  {
    if n > 7 {
      GroupsCoverSeven(n - 7);
    }
  }

  /** The form in which the device sends packed data: the encoding with the
      unused payload bytes of the last group cut off, so a short last group
      is only its carrier and the payload bytes that carry data. */
  function WireForm(x: seq<Byte>): (r: seq<Byte>)
    ensures |r| == |x| + Groups(|x|, 7)
  {
    EncodeLength(x);
    GroupsCoverSeven(|x|);
    Encode(x)[..|x| + Groups(|x|, 7)]
  }

  /** The wire form of a short input is its one encoded group, cut */
  lemma WireFormShort(x: seq<Byte>)
    requires 1 <= |x| <= 7
    ensures WireForm(x) == EncodeGroup(x)[..|x| + 1]
  {
    EncodeShort(x);
  }

  /** The wire form peels off one full encoded group */
  lemma WireFormCons(x: seq<Byte>)
    requires |x| > 7
    ensures WireForm(x) == EncodeGroup(x[..7]) + WireForm(x[7..])
  {
    assert x == x[..7] + x[7..];
    EncodeCons(x[..7], x[7..]);
    var rest := x[7..];
    EncodeLength(rest);
    GroupsCoverSeven(|rest|);
    assert |x| + Groups(|x|, 7) == 8 + (|rest| + Groups(|rest|, 7));
  }

  /** A full group decodes back to itself */
  lemma DecodeEncodeFull(c: seq<Byte>)
    requires |c| == 7
    ensures DecodeGroup(EncodeGroup(c)) == c
  {
    var e := EncodeGroup(c);
    DecodeEncodeGroup(c, 8);
    assert e[..8] == e;
    assert c + Zeros(0) == c;
  }

  /** One step of DecodeWireForm: a full group in front of a shorter input */
  lemma {:induction false} DecodeWireFormCons(x: seq<Byte>)
    requires |x| > 7
    ensures Decode(WireForm(x)) == x + Zeros(Pad(|x|))
    decreases |x|, 0
  {
    var head, tail := x[..7], x[7..];
    var e, w, z := EncodeGroup(head), WireForm(tail), Zeros(Pad(|x|));
    DecodeWireForm(tail);
    PadShift(|x|);
    calc {
      Decode(WireForm(x));
      { WireFormCons(x); }
      Decode(e + w);
      { DecodeCons(e, w); }
      DecodeGroup(e) + Decode(w);
      { DecodeEncodeFull(head); }
      head + (tail + z);
      { SeqAssoc(head, tail, z); }
      (head + tail) + z;
      { assert head + tail == x; }
      x + z;
    }
  }

  /** Decoding the wire form gives the data back with the last group
      zero-filled: a missing payload byte decodes as 0. */
  lemma {:induction false} DecodeWireForm(x: seq<Byte>)
    ensures Decode(WireForm(x)) == x + Zeros(Pad(|x|))
    decreases |x|, 1
  {
    if 0 < |x| <= 7 {
      var e := EncodeGroup(x);
      WireFormShort(x);
      DecodeShort(e[..|x| + 1]);
      DecodeEncodeGroup(x, |x| + 1);
    } else if |x| > 7 {
      DecodeWireFormCons(x);
    } else {
      assert WireForm(x) == [];
    }
  }
}
