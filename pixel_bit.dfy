/** The parity-flip bit codec (PixelBit): one payload bit per visited pixel.
    A pixel, a packed 32-bit ARGB value, represents 1 when the low bits of its
    four bytes XOR to 1; to change the represented bit one colour channel is
    moved by one step without leaving 0..255. */
module PixelBit {
  import opened Common
  import opened Overlays

  /** The two random draws of changePixelValue: which channel to touch
      (nextInt(numOfChannels)) and the coin for +1 / -1 (nextBoolean()). */
  datatype Choice = Choice(channel: Channel, up: bool)

  /** A colour channel of a packed pixel: 0 blue, 1 green, 2 red, 3 alpha. */
  type Channel = k: nat | k < 4

  ghost predicate ChoicesFit(choices: seq<Choice>, channels: nat)
  {
    forall k :: 0 <= k < |choices| ==> choices[k].channel < channels
  }

  // ---------------------------------------------------------------------------
  // Bytes of a packed pixel
  // ---------------------------------------------------------------------------

  /** Byte k of a packed pixel, k = 0 being the least significant (blue). */
  function ByteOf(p: bv32, k: nat): bv32
    requires k < 4
  {
    if k == 0 then p & 0xFF
    else if k == 1 then (p >> 8) & 0xFF
    else if k == 2 then (p >> 16) & 0xFF
    else (p >> 24) & 0xFF
  }

  /** The bit offset channelPick = channel * 8 of channel k. */
  function ShiftOf(k: nat): (sh: bv32)
    requires k < 4
    ensures sh <= 24
  {
    if k == 0 then 0 else if k == 1 then 8 else if k == 2 then 16 else 24
  }

  /** The byte-replacing expression of changePixelValue:
      (p | (0xff << sh)) & ~((~v & 0xff) << sh). */
  function PutByte(p: bv32, sh: bv32, v: bv32): bv32
    requires sh <= 24
  {
    (p | (0xFF << sh)) & !((!v & 0xFF) << sh)
  }

  lemma PutByte0(p: bv32, v: bv32)
    requires v < 256
    ensures ByteOf(PutByte(p, 0, v), 0) == v && ByteOf(PutByte(p, 0, v), 1) == ByteOf(p, 1)
    ensures ByteOf(PutByte(p, 0, v), 2) == ByteOf(p, 2) && ByteOf(PutByte(p, 0, v), 3) == ByteOf(p, 3)
  {}

  lemma PutByte1(p: bv32, v: bv32)
    requires v < 256
    ensures ByteOf(PutByte(p, 8, v), 1) == v && ByteOf(PutByte(p, 8, v), 0) == ByteOf(p, 0)
    ensures ByteOf(PutByte(p, 8, v), 2) == ByteOf(p, 2) && ByteOf(PutByte(p, 8, v), 3) == ByteOf(p, 3)
  {}

  lemma PutByte2(p: bv32, v: bv32)
    requires v < 256
    ensures ByteOf(PutByte(p, 16, v), 2) == v && ByteOf(PutByte(p, 16, v), 0) == ByteOf(p, 0)
    ensures ByteOf(PutByte(p, 16, v), 1) == ByteOf(p, 1) && ByteOf(PutByte(p, 16, v), 3) == ByteOf(p, 3)
  {}

  lemma PutByte3(p: bv32, v: bv32)
    requires v < 256
    ensures ByteOf(PutByte(p, 24, v), 3) == v && ByteOf(PutByte(p, 24, v), 0) == ByteOf(p, 0)
    ensures ByteOf(PutByte(p, 24, v), 1) == ByteOf(p, 1) && ByteOf(PutByte(p, 24, v), 2) == ByteOf(p, 2)
  {}

  /** The masking expression replaces byte k by v and keeps the other three. */
  lemma PutByteAt(p: bv32, k: nat, v: bv32)
    requires k < 4 && v < 256
    ensures ByteOf(PutByte(p, ShiftOf(k), v), k) == v
    ensures forall i :: 0 <= i < 4 && i != k ==> ByteOf(PutByte(p, ShiftOf(k), v), i) == ByteOf(p, i)
  {
    if k == 0 {
      PutByte0(p, v);
    } else if k == 1 {
      PutByte1(p, v);
    } else if k == 2 {
      PutByte2(p, v);
    } else {
      PutByte3(p, v);
    }
  }

  // ---------------------------------------------------------------------------
  // Represented bit and the flip
  // ---------------------------------------------------------------------------

  /** pixelIsOne: the XOR of bits 0, 8, 16 and 24.  Equivalently, as the
      source's comment puts it, the sum of the four bytes is odd. */
  predicate PixelIsOne(p: bv32)
  {
    ((p & 1) ^ ((p >> 8) & 1) ^ ((p >> 16) & 1) ^ ((p >> 24) & 1)) != 0
  }

  lemma PixelIsOneIsOddSum(p: bv32)
    ensures PixelIsOne(p) <==> (ByteOf(p, 0) + ByteOf(p, 1) + ByteOf(p, 2) + ByteOf(p, 3)) & 1 == 1
  {}

  function LowBit(p: bv32, k: nat): bool
    requires k < 4
  {
    ByteOf(p, k) & 1 == 1
  }

  lemma ParityOfLowBits(p: bv32)
    ensures PixelIsOne(p) <==> ((LowBit(p, 0) != LowBit(p, 1)) != (LowBit(p, 2) != LowBit(p, 3)))
  {}

  lemma StepFlipsLowBit(x: bv32, y: bv32)
    requires (x < 0xFF && y == x + 1) || (0 < x < 256 && y == x - 1)
    ensures (x & 1 == 1) != (y & 1 == 1)
  {}

  /** Changing the low bit of exactly one byte flips the represented bit. */
  lemma ParityFlip(p: bv32, r: bv32, k: nat)
    requires k < 4
    requires forall i :: 0 <= i < 4 && i != k ==> ByteOf(r, i) == ByteOf(p, i)
    requires LowBit(r, k) != LowBit(p, k)
    ensures PixelIsOne(r) != PixelIsOne(p)
  {
    ParityOfLowBits(p);
    ParityOfLowBits(r);
    assert forall i :: 0 <= i < 4 && i != k ==> LowBit(r, i) == LowBit(p, i);
  }

  /** The move of changePixelValue on one channel value: down from 0xFF, up
      from 0, otherwise up or down as the coin says.  The result stays in
      0..255 and its low bit differs. */
  function StepChannel(v: bv32, up: bool): (w: bv32)
    requires v < 256
    ensures w < 256
    ensures (v < 0xFF && w == v + 1) || (0 < v && w == v - 1)
    ensures v == 0xFF ==> w == 0xFE
    ensures v == 0 ==> w == 1
    ensures 0 < v < 0xFF ==> w == if up then v + 1 else v - 1
  {
    var addition: int := if v & 0xFF == 0xFF then -1 else if v == 0 then 1 else if up then 1 else -1;
    if addition == 1 then v + 1 else v - 1
  }

  /** Moving channel k of p by one step changes that byte only and flips the
      represented bit. */
  lemma StepFlips(p: bv32, k: nat, x: bv32, v: bv32)
    requires k < 4 && x == ByteOf(p, k)
    requires (x < 0xFF && v == x + 1) || (0 < x < 256 && v == x - 1)
    ensures PixelIsOne(PutByte(p, ShiftOf(k), v)) != PixelIsOne(p)
    ensures ByteOf(PutByte(p, ShiftOf(k), v), k) == v
    ensures forall i :: 0 <= i < 4 && i != k ==> ByteOf(PutByte(p, ShiftOf(k), v), i) == ByteOf(p, i)
  {
    var r := PutByte(p, ShiftOf(k), v);
    PutByteAt(p, k, v);
    StepFlipsLowBit(x, v);
    assert LowBit(r, k) != LowBit(p, k);
    ParityFlip(p, r, k);
  }

  /** changePixelValue with its two random draws given as c: the chosen
      channel makes its StepChannel move, every other byte is kept, and the
      represented bit flips. */
  function ChangePixelValue(p: bv32, c: Choice): (r: bv32)
    ensures PixelIsOne(r) != PixelIsOne(p)
    ensures ByteOf(r, c.channel) == StepChannel(ByteOf(p, c.channel), c.up)
    ensures forall k :: 0 <= k < 4 && k != c.channel ==> ByteOf(r, k) == ByteOf(p, k)
  {
    var updated := StepChannel(ByteOf(p, c.channel), c.up);
    StepFlips(p, c.channel, ByteOf(p, c.channel), updated);
    PutByte(p, ShiftOf(c.channel), updated)
  }

  /** The constructor's depth check: 24 or 32 bits per pixel, giving 3 or 4
      channels; any other depth is refused. */
  function ChannelCount(pixelSize: int): (r: Option<nat>)
    ensures r.Some? <==> pixelSize == 24 || pixelSize == 32
    ensures r.Some? ==> (r.value == 3 || r.value == 4) && 8 * r.value == pixelSize
  {
    if pixelSize == 24 || pixelSize == 32 then Some(pixelSize / 8) else None
  }

  // ---------------------------------------------------------------------------
  // Bits of payload bytes
  // ---------------------------------------------------------------------------

  /** Bit i of a byte: (b & (1 << i)) > 0. */
  function Bit(x: nat, i: nat): bool
  {
    if i == 0 then x % 2 == 1 else Bit(x / 2, i - 1)
  }

  /** The low n bits of x, most significant first. */
  function MsbBits(x: nat, n: nat): (r: seq<bool>)
    ensures |r| == n
  {
    if n == 0 then [] else MsbBits(x / 2, n - 1) + [x % 2 == 1]
  }

  /** The accumulator loop of bits2Byte: result = result << 1 | bit. */
  function Pack(bits: seq<bool>): (r: nat)
    ensures r < Pow2(|bits|)
  {
    if bits == [] then 0 else 2 * Pack(bits[..|bits| - 1]) + (if bits[|bits| - 1] then 1 else 0)
  }

  lemma {:induction false} MsbBitsAt(x: nat, n: nat, t: nat)
    requires t < n
    ensures MsbBits(x, n)[t] == Bit(x, n - 1 - t)
  {
    if t < n - 1 {
      MsbBitsAt(x / 2, n - 1, t);
    }
  }

  /** Packing the low n bits of x < 2^n gives x back. */
  lemma {:induction false} PackMsbBits(x: nat, n: nat)
    requires x < Pow2(n)
    ensures Pack(MsbBits(x, n)) == x
  {
    if n > 0 {
      var s := MsbBits(x / 2, n - 1);
      assert MsbBits(x, n)[..n - 1] == s;
      PackMsbBits(x / 2, n - 1);
    }
  }

  /** Unpacking a packed bit sequence gives it back. */
  lemma {:induction false} MsbBitsOfPack(bits: seq<bool>)
    ensures MsbBits(Pack(bits), |bits|) == bits
  {
    if bits != [] {
      var n := |bits|;
      var init := bits[..n - 1];
      MsbBitsOfPack(init);
      assert Pack(bits) / 2 == Pack(init);
      assert bits == init + [bits[n - 1]];
    }
  }

  /** Eight bits pack into a byte whose bits, most significant first, they are. */
  lemma PackEight(bits: seq<bool>)
    requires |bits| == 8
    ensures Pack(bits) < 256
    ensures forall t :: 0 <= t < 8 ==> Bit(Pack(bits), 7 - t) == bits[t]
  {
    MsbBitsOfPack(bits);
    forall t | 0 <= t < 8 ensures Bit(Pack(bits), 7 - t) == bits[t] {
      MsbBitsAt(Pack(bits), 8, t);
    }
  }

  /** bits2Byte: exactly eight bits, packed most significant first; any other
      length is refused (ArrayIndexOutOfBoundsException). */
  function BitsToByte(bits: seq<bool>): (r: Result<Byte, Error>)
    ensures r.Success? <==> |bits| == 8
    ensures r.Failure? ==> r.error == IndexOutOfBounds
    ensures r.Success? ==> forall t :: 0 <= t < 8 ==> Bit(r.value, 7 - t) == bits[t]
  {
    if |bits| != 8 then Failure(IndexOutOfBounds)
    else
      PackEight(bits);
      Success(Pack(bits))
  }

  /** The eight bits of a byte, most significant first, pack back to it. */
  lemma ByteFromOwnBits(b: Byte, bits: seq<bool>)
    requires |bits| == 8
    requires forall t :: 0 <= t < 8 ==> bits[t] == Bit(b, 7 - t)
    ensures BitsToByte(bits) == Success(b)
  {
    forall t | 0 <= t < 8 ensures bits[t] == MsbBits(b, 8)[t] {
      MsbBitsAt(b, 8, t);
    }
    assert bits == MsbBits(b, 8);
    assert Pow2(8) == 256;
    PackMsbBits(b, 8);
  }

  // ---------------------------------------------------------------------------
  // Specification of encoding and decoding over the visit order
  // ---------------------------------------------------------------------------

  /** The bits encode sends for a payload: the bytes in order, each most
      significant bit first. */
  function BitsOf(bytes: seq<Byte>): (r: seq<bool>)
    ensures |r| == 8 * |bytes|
  {
    if bytes == [] then [] else MsbBits(bytes[0], 8) + BitsOf(bytes[1..])
  }

  /** Bit n = 8i + (7 - b) sent for a payload is bit b of byte i. */
  lemma {:induction false} BitsOfAt(bytes: seq<Byte>, i: nat, b: int, n: int)
    requires i < |bytes| && 0 <= b < 8 && n == 8 * i + (7 - b)
    ensures 0 <= n < 8 * |bytes| && BitsOf(bytes)[n] == Bit(bytes[i], b)
  {
    if i == 0 {
      MsbBitsAt(bytes[0], 8, n);
    } else {
      BitsOfAt(bytes[1..], i - 1, b, n - 8);
    }
  }

  /** The bits of a concatenation are the concatenation of the bits. */
  lemma {:induction false} BitsOfAppend(a: seq<Byte>, b: seq<Byte>)
    ensures BitsOf(a + b) == BitsOf(a) + BitsOf(b)
  {
    if a != [] {
      assert (a + b)[1..] == a[1..] + b;
      BitsOfAppend(a[1..], b);
    } else {
      assert a + b == b;
    }
  }

  /** What encode leaves in a pixel that should represent `bit`: the pixel
      itself when it already does, its flipped version otherwise. */
  function Target(u: bv32, bit: bool, c: Choice): (r: bv32)
    ensures PixelIsOne(r) == bit
    ensures r == u <==> PixelIsOne(u) == bit
  {
    if PixelIsOne(u) == bit then u else ChangePixelValue(u, c)
  }

  /** The units after encode wrote the first n of `bits` at visit-order
      indices start, start + 1, ...: each visited unit in turn becomes the
      Target of its bit, computed from the value it holds at that moment. */
  function WriteBits(units: seq<bv32>, order: seq<int>, start: int, bits: seq<bool>,
                     choices: seq<Choice>, n: nat): (r: seq<bv32>)
    requires InRange(order, |units|) && 0 <= start && start + n <= |order|
    requires n <= |bits| && |choices| == |bits|
    ensures |r| == |units|
  {
    if n == 0 then units
    else
      var prev := WriteBits(units, order, start, bits, choices, n - 1);
      prev[order[start + n - 1] := Target(prev[order[start + n - 1]], bits[n - 1], choices[n - 1])]
  }

  /** One more write: the step of the encode loop. */
  lemma WriteBitsStep(units: seq<bv32>, order: seq<int>, start: int, bits: seq<bool>,
                      choices: seq<Choice>, n: nat, prev: seq<bv32>, p: int, bit: bool)
    requires InRange(order, |units|) && 0 <= start && start + n < |order|
    requires n < |bits| && |choices| == |bits|
    requires prev == WriteBits(units, order, start, bits, choices, n)
    requires p == order[start + n] && bit == bits[n]
    ensures WriteBits(units, order, start, bits, choices, n + 1)
            == prev[p := Target(prev[p], bit, choices[n])]
  {}

  /** Units that are not visited keep their value. */
  lemma {:induction false} WriteBitsFrame(units: seq<bv32>, order: seq<int>, start: int, bits: seq<bool>,
                                          choices: seq<Choice>, n: nat, x: int)
    requires InRange(order, |units|) && 0 <= start && start + n <= |order|
    requires n <= |bits| && |choices| == |bits|
    requires 0 <= x < |units| && forall j :: start <= j < start + n ==> order[j] != x
    ensures WriteBits(units, order, start, bits, choices, n)[x] == units[x]
  {
    if n > 0 {
      WriteBitsFrame(units, order, start, bits, choices, n - 1, x);
    }
  }

  /** With distinct positions, every visited unit ends as the Target of its
      own bit computed from its original value: it is left alone when it
      already represents the bit and flipped exactly once otherwise. */
  lemma {:induction false} WriteBitsAt(units: seq<bv32>, order: seq<int>, start: int, bits: seq<bool>,
                                       choices: seq<Choice>, n: nat, j: int)
    requires Positions(order, |units|) && 0 <= start && start + n <= |order|
    requires n <= |bits| && |choices| == |bits|
    requires start <= j < start + n
    ensures WriteBits(units, order, start, bits, choices, n)[order[j]]
            == Target(units[order[j]], bits[j - start], choices[j - start])
  {
    if j == start + n - 1 {
      WriteBitsFrame(units, order, start, bits, choices, n - 1, order[j]);
    } else {
      WriteBitsAt(units, order, start, bits, choices, n - 1, j);
    }
  }

  /** The visited units represent the bits. */
  ghost predicate Represents(units: seq<bv32>, order: seq<int>, start: int, bits: seq<bool>)
  {
    && InRange(order, |units|)
    && 0 <= start && start + |bits| <= |order|
    && (forall j :: 0 <= j < |bits| ==> PixelIsOne(units[order[start + j]]) == bits[j])
  }

  /** After writing, the visited units represent the bits written. */
  lemma WriteBitsRepresents(units: seq<bv32>, order: seq<int>, start: int, bits: seq<bool>,
                            choices: seq<Choice>)
    requires Positions(order, |units|) && 0 <= start && start + |bits| <= |order|
    requires |choices| == |bits|
    ensures Represents(WriteBits(units, order, start, bits, choices, |bits|), order, start, bits)
  {
    forall j | 0 <= j < |bits|
      ensures PixelIsOne(WriteBits(units, order, start, bits, choices, |bits|)[order[start + j]]) == bits[j]
    {
      WriteBitsAt(units, order, start, bits, choices, |bits|, start + j);
    }
  }

  /** The first n writes depend only on the first n bits and choices. */
  lemma {:induction false} WriteBitsPrefix(units: seq<bv32>, order: seq<int>, start: int,
                                           a: seq<bool>, ca: seq<Choice>, b: seq<bool>, cb: seq<Choice>,
                                           n: nat)
    requires InRange(order, |units|) && 0 <= start && start + n <= |order| && n <= |a|
    requires |ca| == |a| && |cb| == |b|
    ensures WriteBits(units, order, start, a + b, ca + cb, n) == WriteBits(units, order, start, a, ca, n)
  {
    if n > 0 {
      WriteBitsPrefix(units, order, start, a, ca, b, cb, n - 1);
    }
  }

  /** Two writes in a row on one cursor are one write of the concatenation. */
  lemma {:induction false} WriteBitsAppend(units: seq<bv32>, order: seq<int>, start: int,
                                           a: seq<bool>, ca: seq<Choice>, b: seq<bool>, cb: seq<Choice>,
                                           m: nat)
    requires InRange(order, |units|) && 0 <= start && start + |a| + m <= |order| && m <= |b|
    requires |ca| == |a| && |cb| == |b|
    ensures WriteBits(units, order, start, a + b, ca + cb, |a| + m)
            == WriteBits(WriteBits(units, order, start, a, ca, |a|), order, start + |a|, b, cb, m)
  {
    if m == 0 {
      WriteBitsPrefix(units, order, start, a, ca, b, cb, |a|);
    } else {
      WriteBitsAppend(units, order, start, a, ca, b, cb, m - 1);
      assert (a + b)[|a| + m - 1] == b[m - 1] && (ca + cb)[|a| + m - 1] == cb[m - 1];
    }
  }

  /** The eight represented bits starting at index s of order. */
  function UnitBits(units: seq<bv32>, order: seq<int>, s: int): (r: seq<bool>)
    requires InRange(order, |units|) && 0 <= s && s + 8 <= |order|
    ensures |r| == 8
  {
    seq(8, t requires 0 <= t < 8 => PixelIsOne(units[order[s + t]]))
  }

  /** The n bytes read from index start of order, eight units per byte. */
  function Decoded(units: seq<bv32>, order: seq<int>, start: int, n: nat): (r: seq<Byte>)
    requires InRange(order, |units|) && 0 <= start && (n == 0 || start + 8 * n <= |order|)
    ensures |r| == n
  {
    if n == 0 then []
    else Decoded(units, order, start, n - 1) + [BitsToByte(UnitBits(units, order, start + 8 * (n - 1))).value]
  }

  /** decode(n) from index start: a negative n reads nothing; otherwise 8n
      units are needed and their absence is NoSuchElementException. */
  function Read(units: seq<bv32>, order: seq<int>, start: int, n: int): (r: Result<seq<Byte>, Error>)
    requires InRange(order, |units|) && 0 <= start
    ensures r.Success? <==> n <= 0 || start + 8 * n <= |order|
    ensures r.Success? ==> |r.value| == (if n < 0 then 0 else n)
    ensures r.Failure? ==> r.error == NoSuchElement
  {
    var m := if n < 0 then 0 else n;
    if m > 0 && start + 8 * m > |order| then Failure(NoSuchElement)
    else Success(Decoded(units, order, start, m))
  }

  // ---------------------------------------------------------------------------
  // Lemmas: encoding then decoding the same visit order gives the payload back
  // ---------------------------------------------------------------------------

  /** The units represent a + b exactly when they represent a and then b. */
  lemma RepresentsSplit(units: seq<bv32>, order: seq<int>, start: int, a: seq<bool>, b: seq<bool>)
    requires Represents(units, order, start, a + b)
    ensures Represents(units, order, start, a)
    ensures Represents(units, order, start + |a|, b)
  {
    forall j | 0 <= j < |a| ensures PixelIsOne(units[order[start + j]]) == a[j] {
      assert (a + b)[j] == a[j];
    }
    forall j | 0 <= j < |b| ensures PixelIsOne(units[order[start + |a| + j]]) == b[j] {
      assert (a + b)[|a| + j] == b[j];
    }
  }

  /** Eight units representing the bits of b pack back into b. */
  lemma ByteRepresented(units: seq<bv32>, order: seq<int>, s: int, b: Byte)
    requires Represents(units, order, s, BitsOf([b]))
    ensures BitsToByte(UnitBits(units, order, s)) == Success(b)
  {
    var bits := UnitBits(units, order, s);
    forall t | 0 <= t < 8 ensures bits[t] == Bit(b, 7 - t) {
      BitsOfAt([b], 0, 7 - t, t);
    }
    ByteFromOwnBits(b, bits);
  }

  /** Round trip: units representing the bits of n bytes decode to them. */
  lemma {:induction false} DecodedRepresented(units: seq<bv32>, order: seq<int>, start: int, bytes: seq<Byte>)
    requires Represents(units, order, start, BitsOf(bytes))
    ensures Decoded(units, order, start, |bytes|) == bytes
  {
    var n := |bytes|;
    if n > 0 {
      var init := bytes[..n - 1];
      assert bytes == init + [bytes[n - 1]];
      BitsOfAppend(init, [bytes[n - 1]]);
      RepresentsSplit(units, order, start, BitsOf(init), BitsOf([bytes[n - 1]]));
      DecodedRepresented(units, order, start, init);
      ByteRepresented(units, order, start + 8 * (n - 1), bytes[n - 1]);
    }
  }

  /** decode after encode on the same visit order returns the payload. */
  lemma EncodeThenRead(units: seq<bv32>, order: seq<int>, start: int, bytes: seq<Byte>,
                       choices: seq<Choice>)
    requires Positions(order, |units|) && 0 <= start && start + 8 * |bytes| <= |order|
    requires |choices| == 8 * |bytes|
    ensures Read(WriteBits(units, order, start, BitsOf(bytes), choices, 8 * |bytes|), order, start, |bytes|)
            == Success(bytes)
  {
    WriteBitsRepresents(units, order, start, BitsOf(bytes), choices);
    DecodedRepresented(WriteBits(units, order, start, BitsOf(bytes), choices, 8 * |bytes|), order, start, bytes);
  }

  /** The units after flipEveryPixel flipped the first n units from
      visit-order index start, one choice each. */
  function FlipAll(units: seq<bv32>, order: seq<int>, start: int, choices: seq<Choice>, n: nat): (r: seq<bv32>)
    requires InRange(order, |units|) && 0 <= start && (n == 0 || start + n <= |order|)
    requires n <= |choices|
    ensures |r| == |units|
  {
    if n == 0 then units
    else
      var prev := FlipAll(units, order, start, choices, n - 1);
      prev[order[start + n - 1] := ChangePixelValue(prev[order[start + n - 1]], choices[n - 1])]
  }

  /** One more flip: the step of the flipEveryPixel loop. */
  lemma FlipAllStep(units: seq<bv32>, order: seq<int>, start: int, choices: seq<Choice>, n: nat,
                    prev: seq<bv32>, p: int)
    requires InRange(order, |units|) && 0 <= start && start + n < |order|
    requires n < |choices|
    requires prev == FlipAll(units, order, start, choices, n) && p == order[start + n]
    ensures FlipAll(units, order, start, choices, n + 1) == prev[p := ChangePixelValue(prev[p], choices[n])]
  {}

  /** With distinct positions every visited unit is flipped exactly once and
      every other unit is kept. */
  lemma {:induction false} FlipAllFlips(units: seq<bv32>, order: seq<int>, start: int,
                                        choices: seq<Choice>, n: nat, x: int)
    requires Positions(order, |units|) && 0 <= start && start + n <= |order|
    requires n <= |choices|
    requires 0 <= x < |units|
    ensures forall j :: start <= j < start + n && order[j] == x ==>
              FlipAll(units, order, start, choices, n)[x] == ChangePixelValue(units[x], choices[j - start])
    ensures (forall j :: start <= j < start + n ==> order[j] != x) ==>
              FlipAll(units, order, start, choices, n)[x] == units[x]
  {
    if n > 0 {
      FlipAllFlips(units, order, start, choices, n - 1, x);
    }
  }

  /** Every visited unit represents the opposite bit afterwards. */
  lemma FlipAllParity(units: seq<bv32>, order: seq<int>, start: int, choices: seq<Choice>)
    requires Positions(order, |units|) && 0 <= start && start + |choices| <= |order|
    ensures forall j :: start <= j < start + |choices| ==>
              PixelIsOne(FlipAll(units, order, start, choices, |choices|)[order[j]]) != PixelIsOne(units[order[j]])
  {
    forall j | start <= j < start + |choices|
      ensures PixelIsOne(FlipAll(units, order, start, choices, |choices|)[order[j]]) != PixelIsOne(units[order[j]])
    {
      FlipAllFlips(units, order, start, choices, |choices|, order[j]);
    }
  }

  // ---------------------------------------------------------------------------
  // The codec object
  // ---------------------------------------------------------------------------

  function Max(a: int, b: int): int
  {
    if a < b then b else a
  }

  /** The capacity test of encode as written: payload.length * 8 is an int
      product, so it wraps around for 2^28 bytes or more. */
  predicate CapacityCheckAsWritten(length: nat, available: int)
  {
    Wrap32(length * 8) > available
  }

  /** A payload of 2^28 bytes passes the test with no unit available: its
      bit count wraps to a negative int.  Encoding then runs the overlay dry
      instead of raising the capacity exception. */
  lemma CapacityCheckOverflows()
    ensures !CapacityCheckAsWritten(0x1000_0000, 0) && 8 * 0x1000_0000 > 0
  {
    assert Wrap32(0x1000_0000 * 8) == -0x8000_0000;
  }

  /** Below 2^28 bytes the test as written is the test the model's encode
      makes, eight bits per byte against the units available. */
  lemma CapacityCheckAgrees(length: nat, available: int)
    requires length < 0x1000_0000
    ensures CapacityCheckAsWritten(length, available) <==> 8 * length > available
  {}

  class PixelBitEncoder {
    const overlay: SequenceOverlay<bv32>
    const channels: nat

    ghost predicate Valid()
      reads this, overlay
    {
      overlay.Valid() && (channels == 3 || channels == 4)
    }

    constructor (overlay: SequenceOverlay<bv32>, pixelSize: int)
      requires overlay.Valid() && ChannelCount(pixelSize).Some?
      ensures Valid()
      ensures this.overlay == overlay && channels == pixelSize / 8
    {
      this.overlay := overlay;
      channels := pixelSize / 8;
    }

    /** One turn of encode's inner loop: the next unit is left as the Target
        of `bit`, written back only when its represented bit differs. */
    method EncodeBit(bit: bool, c: Choice, ghost p: int)
      requires Valid() && overlay.Available() > 0 && c.channel < channels
      requires p == overlay.order[overlay.current + 1]
      modifies overlay, overlay.units
      ensures Valid()
      ensures overlay.current == old(overlay.current) + 1
      ensures overlay.units[..] == old(overlay.units[..])[p := Target(old(overlay.units[..])[p], bit, c)]
    {
      var pixel := overlay.Next();
      if bit != PixelIsOne(pixel.value) {
        var _ := overlay.SetUnit(ChangePixelValue(pixel.value, c));
      }
    }

    /** One turn of encode's outer loop: the bits of payload[i], most
        significant first, into the next eight units. */
    method EncodeByte(payload: seq<Byte>, choices: seq<Choice>, i: nat, n: nat, ghost before: seq<bv32>, ghost start: int)
      requires Valid() && i < |payload| && n == 8 * i && |choices| == 8 * |payload| && ChoicesFit(choices, channels)
      requires |before| == overlay.units.Length && 0 <= start && start + 8 * |payload| <= |overlay.order|
      requires overlay.current == start - 1 + n
      requires overlay.units[..] == WriteBits(before, overlay.order, start, BitsOf(payload), choices, n)
      modifies overlay, overlay.units
      ensures Valid() && overlay.current == old(overlay.current) + 8
      ensures overlay.units[..] == WriteBits(before, overlay.order, start, BitsOf(payload), choices, n + 8)
    {
      ghost var bits := BitsOf(payload);
      var m := n;
      var bitNo := 7;
      while m != n + 8
        invariant n <= m <= n + 8 && bitNo == 7 - (m - n) && Valid()
        invariant overlay.current == start - 1 + m
        invariant overlay.units[..] == WriteBits(before, overlay.order, start, bits, choices, m)
      {
        ghost var prev := overlay.units[..];
        ghost var p := overlay.order[start + m];
        var bit := Bit(payload[i], bitNo);
        BitsOfAt(payload, i, bitNo, m);
        WriteBitsStep(before, overlay.order, start, bits, choices, m, prev, p, bit);
        EncodeBit(bit, choices[m], p);
        m := m + 1;
        bitNo := bitNo - 1;
      }
    }

    /** encode: refuses, before touching anything, a payload with more bits
        than units left; otherwise writes its bits, most significant first,
        into the next 8 * |payload| units of the visit order. */
    method Encode(payload: seq<Byte>, choices: seq<Choice>) returns (r: Outcome<Error>)
      requires Valid()
      requires |choices| == 8 * |payload| && ChoicesFit(choices, channels)
      modifies overlay, overlay.units
      ensures Valid()
      ensures r.Fail? <==> 8 * |payload| > old(overlay.Available())
      ensures r.Fail? ==> r.error == CapacityExceeded
      ensures r.Fail? ==> overlay.current == old(overlay.current) && overlay.units[..] == old(overlay.units[..])
      ensures r.Pass? ==> overlay.current == old(overlay.current) + 8 * |payload|
      ensures r.Pass? ==> overlay.units[..] == WriteBits(old(overlay.units[..]), overlay.order, old(overlay.current) + 1,
                                                         BitsOf(payload), choices, 8 * |payload|)
    {
      if 8 * |payload| > overlay.Available() {
        return Fail(CapacityExceeded);
      }
      ghost var before := overlay.units[..];
      ghost var start := overlay.current + 1;
      var n := 0;
      var i := 0;
      while n != 8 * |payload|
        invariant 0 <= i <= |payload| && n == 8 * i && Valid()
        invariant overlay.current == start - 1 + n
        invariant overlay.units[..] == WriteBits(before, overlay.order, start, BitsOf(payload), choices, n)
      {
        EncodeByte(payload, choices, i, n, before, start);
        n := n + 8;
        i := i + 1;
      }
      r := Pass;
    }

    /** One turn of decode's outer loop: the next eight units packed into a
        byte; None once the units run out, the cursor having gone one step
        past the last unit. */
    method ReadByte() returns (r: Option<Byte>)
      requires Valid()
      modifies overlay
      ensures Valid()
      ensures r.Some? <==> old(overlay.current) + 9 <= |overlay.order|
      ensures r.Some? ==> overlay.current == old(overlay.current) + 8
      ensures r.Some? ==> r.value == BitsToByte(UnitBits(overlay.units[..], overlay.order, old(overlay.current) + 1)).value
      ensures r.None? ==> overlay.current == Max(old(overlay.current) + 1, |overlay.order|)
    {
      ghost var s := overlay.current + 1;
      var bits: seq<bool> := [];
      var j := 0;
      while j < 8
        invariant 0 <= j <= 8 && Valid()
        invariant overlay.current == s - 1 + j
        invariant j > 0 ==> s + j <= |overlay.order|
        invariant |bits| == j
        invariant forall t :: 0 <= t < j ==> bits[t] == PixelIsOne(overlay.units[overlay.order[s + t]])
      {
        var pixel := overlay.Next();
        if pixel.None? {
          return None;
        }
        bits := bits + [PixelIsOne(pixel.value)];
        j := j + 1;
      }
      assert bits == UnitBits(overlay.units[..], overlay.order, s);
      var b := BitsToByte(bits);
      return Some(b.value);
    }

    /** decode(n): reads 8n units and packs each eight into a byte; never
        writes.  When the units run out the call fails, the cursor having
        gone one step past the last unit. */
    method Decode(n: int) returns (r: Result<seq<Byte>, Error>)
      requires Valid()
      modifies overlay
      ensures Valid()
      ensures r == Read(overlay.units[..], overlay.order, old(overlay.current) + 1, n)
      ensures r.Success? ==> overlay.current == old(overlay.current) + 8 * |r.value|
      ensures r.Failure? ==> overlay.current == Max(old(overlay.current) + 1, |overlay.order|)
    {
      ghost var start := overlay.current + 1;
      var result: seq<Byte> := [];
      var i := 0;
      while i < n
        invariant 0 <= i && (n >= 0 ==> i <= n) && (n < 0 ==> i == 0) && Valid()
        invariant overlay.current == start - 1 + 8 * i
        invariant i > 0 ==> start + 8 * i <= |overlay.order|
        invariant result == Decoded(overlay.units[..], overlay.order, start, i)
      {
        var b := ReadByte();
        if b.None? {
          assert start + 8 * n > |overlay.order|;
          return Failure(NoSuchElement);
        }
        result := result + [b.value];
        i := i + 1;
      }
      return Success(result);
    }

    /** decodeEverything: decodes whole bytes while at least eight units are
        left; never fails and never writes. */
    method DecodeEverything() returns (r: seq<Byte>)
      requires Valid()
      modifies overlay
      ensures Valid()
      ensures old(overlay.Available()) >= 0
              ==> r == Decoded(overlay.units[..], overlay.order, old(overlay.current) + 1, old(overlay.Available()) / 8)
      ensures old(overlay.Available()) < 0 ==> r == []
      ensures overlay.current == old(overlay.current) + 8 * |r|
    {
      ghost var start := overlay.current + 1;
      ghost var a := overlay.Available();
      var result: seq<Byte> := [];
      ghost var i := 0;
      while overlay.Available() >= 8
        invariant 0 <= i && Valid()
        invariant overlay.current == start - 1 + 8 * i
        invariant a >= 0 ==> 8 * i <= a
        invariant a < 0 ==> i == 0
        invariant result == Decoded(overlay.units[..], overlay.order, start, i)
        decreases overlay.Available()
      {
        var b := ReadByte();
        result := result + [b.value];
        i := i + 1;
      }
      assert a >= 0 ==> i == a / 8;
      r := result;
    }

    /** One turn of flipEveryPixel's loop: the next unit, at position p, is
        flipped. */
    method FlipNext(c: Choice, ghost p: int)
      requires Valid() && overlay.Available() > 0 && c.channel < channels
      requires p == overlay.order[overlay.current + 1]
      modifies overlay, overlay.units
      ensures Valid()
      ensures overlay.current == old(overlay.current) + 1
      ensures overlay.units[..] == old(overlay.units[..])[p := ChangePixelValue(old(overlay.units[..])[p], c)]
    {
      var pixel := overlay.Next();
      var _ := overlay.SetUnit(ChangePixelValue(pixel.value, c));
    }

    /** flipEveryPixel: every unit left in the visit order gets its
        represented bit flipped through changePixelValue. */
    method FlipEveryPixel(choices: seq<Choice>)
      requires Valid()
      requires |choices| == Max(overlay.Available(), 0) && ChoicesFit(choices, channels)
      modifies overlay, overlay.units
      ensures Valid()
      ensures overlay.current == Max(old(overlay.current), |overlay.order| - 1)
      ensures overlay.units[..] == FlipAll(old(overlay.units[..]), overlay.order, old(overlay.current) + 1,
                                           choices, |choices|)
    {
      ghost var before := overlay.units[..];
      var start := overlay.current + 1;
      var d := 0;
      while overlay.Available() > 0
        invariant Valid() && 0 <= d <= |choices|
        invariant overlay.current == start - 1 + d
        invariant d == 0 || start + d <= |overlay.order|
        invariant overlay.units[..] == FlipAll(before, overlay.order, start, choices, d)
        decreases overlay.Available()
      {
        ghost var prev := overlay.units[..];
        ghost var p := overlay.order[start + d];
        FlipAllStep(before, overlay.order, start, choices, d, prev, p);
        FlipNext(choices[d], p);
        d := d + 1;
      }
      assert d == |choices|;
    }
  }

  /** The PixelBit constructor: only 24- and 32-bit pixels are accepted
      (IllegalArgumentException otherwise). */
  method Create(overlay: SequenceOverlay<bv32>, pixelSize: int) returns (r: Result<PixelBitEncoder, Error>)
    requires overlay.Valid()
    ensures r.Success? <==> pixelSize == 24 || pixelSize == 32
    ensures r.Failure? ==> r.error == IllegalArgument
    ensures r.Success? ==> fresh(r.value) && r.value.Valid()
    ensures r.Success? ==> r.value.overlay == overlay && r.value.channels == pixelSize / 8
  {
    if ChannelCount(pixelSize).None? {
      return Failure(IllegalArgument);
    }
    var e := new PixelBitEncoder(overlay, pixelSize);
    return Success(e);
  }
}
