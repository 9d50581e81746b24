/** The image front end (ImageSteg): the default header that frames a
    payload, the capacity it leaves, the carrier checks, and the choice of
    codec by image type.  Reading and writing image files is not modelled:
    an operation receives the PixelBit encoder that the image would have been
    wrapped in, or the facts about the carrier that the image reader reports. */
module ImageSteg {
  import opened Common
  import opened Overlays
  import opened PixelBit
  import GifTable

  const DEFAULT_SEED: int := 1732341558

  /** The first four header bytes, 0x50 0x69 0x78 0x69. */
  const HEADER_SIGNATURE: Int32 := 1349075561

  // ---------------------------------------------------------------------------
  // int2bytes and bytesToInt
  // ---------------------------------------------------------------------------

  /** int2bytes: the four bytes of a Java int, most significant first.
      (x >> k) & 0xFF is (x / 2^k) % 256, Dafny's / and % flooring for a
      positive divisor as the arithmetic shift does. */
  function IntToBytes(x: Int32): (r: seq<Byte>)
    ensures |r| == 4
  {
    [(x / 0x100_0000) % 256, (x / 0x1_0000) % 256, (x / 0x100) % 256, x % 256]
  }

  /** bytesToInt: the first four bytes ORed together, most significant first;
      the top byte's bit 7 becomes the sign bit. */
  function BytesToInt(b: seq<Byte>): (r: Int32)
    requires |b| >= 4
    ensures r < 0 <==> b[0] >= 0x80
    ensures r % 0x100 == b[3]
  {
    var u := b[0] as int * 0x100_0000 + b[1] as int * 0x1_0000 + b[2] as int * 0x100 + b[3] as int;
    if u < 0x8000_0000 then u else u - 0x1_0000_0000
  }

  lemma DivideTwice(x: int)
    ensures x / 0x1_0000 == (x / 0x100) / 0x100
    ensures x / 0x100_0000 == ((x / 0x100) / 0x100) / 0x100
  {}

  /** Every int survives int2bytes then bytesToInt. */
  lemma IntBytesRoundTrip(x: Int32)
    ensures BytesToInt(IntToBytes(x)) == x
  {
    DivideTwice(x);
    var q1 := x / 0x100;
    var q2 := q1 / 0x100;
    var q3 := q2 / 0x100;
    assert x == q1 * 0x100 + x % 0x100;
    assert q1 == q2 * 0x100 + q1 % 0x100;
    assert q2 == q3 * 0x100 + q2 % 0x100;
    assert -128 <= q3 < 128;
    var b := IntToBytes(x);
    assert b[0] as int == (if q3 < 0 then q3 + 256 else q3);
  }

  /** Every four bytes survive bytesToInt then int2bytes. */
  lemma BytesIntRoundTrip(b: seq<Byte>)
    requires |b| == 4
    ensures IntToBytes(BytesToInt(b)) == b
  {
    var x := BytesToInt(b);
    var top: int := if b[0] < 128 then b[0] as int else b[0] as int - 256;
    var q1 := top * 0x100 + b[1] as int;
    var q2 := q1 * 0x100 + b[2] as int;
    assert x == q2 * 0x100 + b[3] as int;
    QuotientRemainder(q2, b[3] as int);
    DivideTwice(x);
    QuotientRemainder(q1, b[2] as int);
    QuotientRemainder(top, b[1] as int);
  }

  /** Quotient and remainder of q * 256 + r for a byte r. */
  lemma QuotientRemainder(q: int, r: int)
    requires 0 <= r < 0x100
    ensures (q * 0x100 + r) / 0x100 == q && (q * 0x100 + r) % 0x100 == r
  {}

  /** The default header: the signature, then the payload length. */
  function Header(length: Int32): (r: seq<Byte>)
    ensures |r| == 8
  {
    IntToBytes(HEADER_SIGNATURE) + IntToBytes(length)
  }

  // ---------------------------------------------------------------------------
  // Reading a framed payload back
  // ---------------------------------------------------------------------------

  /** What decode returns for units whose visit order starts at index start:
      four bytes that must hold the signature, four bytes of length, then
      that many payload bytes (none when the length is negative). */
  function FramedRead(units: seq<bv32>, order: seq<int>, start: int): (r: Result<seq<Byte>, Error>)
    requires InRange(order, |units|) && 0 <= start
    ensures r.Failure? ==> r.error in {NoSuchElement, UnknownStegFormat}
    ensures r.Success? ==> start + 64 + 8 * |r.value| <= |order|
  {
    match Read(units, order, start, 4)
    case Failure(e) => Failure(e)
    case Success(signature) =>
      if BytesToInt(signature) != HEADER_SIGNATURE then Failure(UnknownStegFormat)
      else match Read(units, order, start + 32, 4)
        case Failure(e) => Failure(e)
        case Success(length) => Read(units, order, start + 64, BytesToInt(length))
  }

  /** What isSteganographicData answers for the same units: whether the
      first four bytes hold the signature. */
  function Detect(units: seq<bv32>, order: seq<int>, start: int): (r: Result<bool, Error>)
    requires InRange(order, |units|) && 0 <= start
    ensures r.Success? <==> start + 32 <= |order|
    ensures r.Failure? ==> r.error == NoSuchElement
  {
    match Read(units, order, start, 4)
    case Failure(e) => Failure(e)
    case Success(signature) => Success(BytesToInt(signature) == HEADER_SIGNATURE)
  }

  /** The units written for an eight-byte header and a payload read back as
      the header's two halves and the payload. */
  lemma FrameRepresented(units: seq<bv32>, order: seq<int>, start: int, header: seq<Byte>, payload: seq<Byte>,
                         choices: seq<Choice>)
    requires Positions(order, |units|) && 0 <= start && |header| == 8
    requires start + 8 * (8 + |payload|) <= |order| && |choices| == 8 * (8 + |payload|)
    ensures var written := WriteBits(units, order, start, BitsOf(header + payload), choices, 8 * (8 + |payload|));
            && Read(written, order, start, 4) == Success(header[..4])
            && Read(written, order, start + 32, 4) == Success(header[4..])
            && Read(written, order, start + 64, |payload|) == Success(payload)
  {
    var written := WriteBits(units, order, start, BitsOf(header + payload), choices, 8 * (8 + |payload|));
    WriteBitsRepresents(units, order, start, BitsOf(header + payload), choices);
    assert header + payload == header[..4] + header[4..] + payload;
    PartsDecoded(written, order, start, header[..4], header[4..], payload, start + 32, start + 64);
  }

  /** Units representing x, y and z one after the other decode to x, y and
      z. */
  lemma PartsDecoded(units: seq<bv32>, order: seq<int>, start: int, x: seq<Byte>, y: seq<Byte>, z: seq<Byte>,
                     atY: int, atZ: int)
    requires Represents(units, order, start, BitsOf(x + y + z))
    requires atY == start + 8 * |x| && atZ == atY + 8 * |y|
    ensures Decoded(units, order, start, |x|) == x
    ensures Decoded(units, order, atY, |y|) == y
    ensures Decoded(units, order, atZ, |z|) == z
  {
    BitsOfThree(x, y, z);
    RepresentsThree(units, order, start, BitsOf(x), BitsOf(y), BitsOf(z), atY, atZ);
    DecodedRepresented(units, order, start, x);
    DecodedRepresented(units, order, atY, y);
    DecodedRepresented(units, order, atZ, z);
  }

  lemma BitsOfThree(x: seq<Byte>, y: seq<Byte>, z: seq<Byte>)
    ensures BitsOf(x + y + z) == BitsOf(x) + BitsOf(y) + BitsOf(z)
  {
    BitsOfAppend(x + y, z);
    BitsOfAppend(x, y);
  }

  /** Units representing a, b and c one after the other represent each of
      them at its own offset. */
  lemma RepresentsThree(units: seq<bv32>, order: seq<int>, start: int, a: seq<bool>, b: seq<bool>, c: seq<bool>,
                        atB: int, atC: int)
    requires Represents(units, order, start, a + b + c)
    requires atB == start + |a| && atC == atB + |b|
    ensures Represents(units, order, start, a)
    ensures Represents(units, order, atB, b)
    ensures Represents(units, order, atC, c)
  {
    RepresentsSplit(units, order, start, a + b, c);
    RepresentsSplit(units, order, start, a, b);
  }

  /** Round trip: decode after encode with the default header returns the
      payload, and isSteganographicData recognises the header. */
  lemma FramedRoundTrip(units: seq<bv32>, order: seq<int>, start: int, payload: seq<Byte>,
                        choices: seq<Choice>)
    requires Positions(order, |units|) && 0 <= start && |payload| < 0x8000_0000
    requires start + 8 * (8 + |payload|) <= |order| && |choices| == 8 * (8 + |payload|)
    ensures var written := WriteBits(units, order, start, BitsOf(Header(|payload|) + payload), choices,
                                     8 * (8 + |payload|));
            && FramedRead(written, order, start) == Success(payload)
            && Detect(written, order, start) == Success(true)
  {
    FrameRepresented(units, order, start, Header(|payload|), payload, choices);
    assert Header(|payload|)[..4] == IntToBytes(HEADER_SIGNATURE) && Header(|payload|)[4..] == IntToBytes(|payload|);
    IntBytesRoundTrip(HEADER_SIGNATURE);
    IntBytesRoundTrip(|payload|);
  }

  /** Units that do not start with the signature are refused as an unknown
      format, once there are enough of them to hold a header. */
  lemma UnframedRefused(units: seq<bv32>, order: seq<int>, start: int)
    requires InRange(order, |units|) && 0 <= start && start + 32 <= |order|
    requires BytesToInt(Decoded(units, order, start, 4)) != HEADER_SIGNATURE
    ensures FramedRead(units, order, start) == Failure(UnknownStegFormat)
    ensures Detect(units, order, start) == Success(false)
  {}

  // ---------------------------------------------------------------------------
  // Capacity
  // ---------------------------------------------------------------------------

  /** getImageCapacity for an overlay with `available` units: one byte per
      eight units, less the eight header bytes when the header is used. */
  function ImageCapacity(available: nat, useDefaultHeader: bool): (r: int)
    ensures 8 * (r + (if useDefaultHeader then 8 else 0)) <= available
    ensures available < 8 * (r + (if useDefaultHeader then 8 else 0) + 1)
  {
    if useDefaultHeader then available / 8 - 8 else available / 8
  }

  /** A payload fits (encode does not fail for capacity) exactly when it is
      no longer than the capacity reported. */
  lemma CapacityIsExact(available: nat, useDefaultHeader: bool, length: nat)
    ensures length <= ImageCapacity(available, useDefaultHeader)
            <==> 8 * ((if useDefaultHeader then 8 else 0) + length) <= available
  {}

  // ---------------------------------------------------------------------------
  // The carrier checks of carrier2BufferedImage
  // ---------------------------------------------------------------------------

  const SUPPORTED_FORMATS: set<string> := {"bmp", "BMP", "gif", "GIF", "png", "PNG"}

  /** formatSupported: exact, case-sensitive membership. */
  predicate FormatSupported(formatName: string)
    ensures FormatSupported(formatName) ==>
      EqualsIgnoreCase(formatName, "bmp") || EqualsIgnoreCase(formatName, "gif") || EqualsIgnoreCase(formatName, "png")
  {
    formatName in SUPPORTED_FORMATS
  }

  function LowerAscii(c: char): char
  {
    if 'A' <= c <= 'Z' then (c as int + 32) as char else c
  }

  /** String.equalsIgnoreCase restricted to ASCII letters. */
  predicate EqualsIgnoreCase(a: string, b: string)
  {
    |a| == |b| && forall i :: 0 <= i < |a| ==> LowerAscii(a[i]) == LowerAscii(b[i])
  }

  /** What the image reader reports about a carrier it recognised. */
  datatype CarrierInfo = CarrierInfo(formatName: string, hasAlpha: bool)

  /** carrier2BufferedImage's checks: no reader is NoImageException; a format
      outside the set, or a BMP with an alpha channel, is
      UnsupportedImageTypeException. */
  function CheckCarrier(reader: Option<CarrierInfo>): (r: Outcome<Error>)
    ensures r.Fail? ==> r.error in {NoImage, UnsupportedImageType}
    ensures r.Pass? ==> reader.Some? && FormatSupported(reader.value.formatName)
  {
    if reader.None? then Fail(NoImage)
    else if !FormatSupported(reader.value.formatName) then Fail(UnsupportedImageType)
    else if EqualsIgnoreCase(reader.value.formatName, "bmp") && reader.value.hasAlpha then Fail(UnsupportedImageType)
    else Pass
  }

  /** A carrier is accepted exactly when it is a PNG or GIF named in either
      case, or a BMP without alpha. */
  lemma CarrierAccepted(reader: Option<CarrierInfo>)
    ensures CheckCarrier(reader) == Pass <==>
      reader.Some? && (reader.value.formatName in {"png", "PNG", "gif", "GIF"} ||
                       (reader.value.formatName in {"bmp", "BMP"} && !reader.value.hasAlpha))
    ensures CheckCarrier(reader) == Fail(NoImage) <==> reader.None?
  {
    if reader.Some? {
      var f := reader.value.formatName;
      if f in {"png", "PNG", "gif", "GIF"} {
        assert !EqualsIgnoreCase(f, "bmp") by {
          assert LowerAscii(f[0]) != LowerAscii("bmp"[0]);
        }
      }
      if f in {"bmp", "BMP"} {
        assert EqualsIgnoreCase(f, "bmp");
      }
    }
  }

  // ---------------------------------------------------------------------------
  // getEncoder and getOverlay
  // ---------------------------------------------------------------------------

  /** The BufferedImage types, TYPE_CUSTOM to TYPE_BYTE_INDEXED. */
  datatype ImageType =
    | TypeCustom | TypeIntRgb | TypeIntArgb | TypeIntArgbPre | TypeIntBgr | Type3ByteBgr
    | Type4ByteAbgr | Type4ByteAbgrPre | TypeUshort565Rgb | TypeUshort555Rgb | TypeByteGray
    | TypeUshortGray | TypeByteBinary | TypeByteIndexed

  /** The two pixel overlays: ShuffleOverlay visits every pixel,
      RemoveTransparentShuffleOverlay only the pixels that are not fully
      transparent; both visit them in an order shuffled from the seed. */
  datatype OverlayKind = Shuffle | RemoveTransparentShuffle

  /** The codec getEncoder builds: PixelBit over an overlay, or the palette
      codec over the colour couples of the GIF colour table. */
  datatype Codec = ParityCodec(overlay: OverlayKind) | PaletteCodec(couples: map<Int32, seq<Int32>>)

  /** A pixel whose alpha byte is zero. */
  predicate Transparent(p: bv32)
  {
    ByteOf(p, 3) == 0
  }

  /** Whether an overlay of the given kind visits a pixel. */
  predicate Visits(kind: OverlayKind, p: bv32)
  {
    kind == Shuffle || !Transparent(p)
  }

  /** The positions from i on that the overlay visits, in increasing order. */
  function EligibleFrom(kind: OverlayKind, units: seq<bv32>, i: nat): (r: seq<int>)
    requires i <= |units|
    ensures forall k :: 0 <= k < |r| ==> i <= r[k] < |units|
    ensures forall k, l :: 0 <= k < l < |r| ==> r[k] < r[l]
    ensures forall p :: p in r <==> i <= p < |units| && Visits(kind, units[p])
    decreases |units| - i
  {
    if i == |units| then []
    else (if Visits(kind, units[i]) then [i] else []) + EligibleFrom(kind, units, i + 1)
  }

  /** The positions an overlay of the given kind visits before shuffling:
      distinct positions of the image, exactly the visited pixels. */
  function Eligible(kind: OverlayKind, units: seq<bv32>): (r: seq<int>)
    ensures Positions(r, |units|)
    ensures forall p :: p in r <==> 0 <= p < |units| && Visits(kind, units[p])
  {
    EligibleFrom(kind, units, 0)
  }

  /** The order an overlay visits the pixels in: the seeded shuffle, which
      depends only on the seed and the eligible positions and is not part of
      this model, applied to the eligible positions. */
  function OverlayOrder(kind: OverlayKind, units: seq<bv32>, shuffle: seq<int> -> seq<int>): seq<int>
  {
    shuffle(Eligible(kind, units))
  }

  /** getOverlay: all pixels, or only the pixels that are not fully
      transparent. */
  function GetOverlay(useTransparent: bool): (r: OverlayKind)
    ensures forall p: bv32 :: Visits(r, p) <==> useTransparent || !Transparent(p)
  {
    if useTransparent then Shuffle else RemoveTransparentShuffle
  }

  /** The overlay isSteganographicData reads through: a ShuffleOverlay,
      whatever useTransparent says. */
  const DETECTION_OVERLAY: OverlayKind := Shuffle

  /** Two overlays of possibly different kinds over possibly different units
      that visit the same pixels from i on list the same positions. */
  lemma {:induction false} EligibleFromSame(ka: OverlayKind, a: seq<bv32>, kb: OverlayKind, b: seq<bv32>, i: nat)
    requires |a| == |b| && i <= |a|
    requires forall p :: i <= p < |a| ==> (Visits(ka, a[p]) <==> Visits(kb, b[p]))
    ensures EligibleFrom(ka, a, i) == EligibleFrom(kb, b, i)
    decreases |a| - i
  {
    if i < |a| {
      EligibleFromSame(ka, a, kb, b, i + 1);
    }
  }

  /** As written, detection disagrees with the default settings: when a
      pixel is fully transparent, the overlay of isSteganographicData visits
      it and the overlay encode uses with useTransparent false does not, so
      the two visit orders differ and detection reads other pixels than the
      ones the header was written to. */
  lemma DetectionSkipsEncodeOrder(units: seq<bv32>, p: int, shuffle: seq<int> -> seq<int>)
    requires 0 <= p < |units| && Transparent(units[p])
    requires multiset(OverlayOrder(DETECTION_OVERLAY, units, shuffle)) == multiset(Eligible(DETECTION_OVERLAY, units))
    requires multiset(OverlayOrder(GetOverlay(false), units, shuffle)) == multiset(Eligible(GetOverlay(false), units))
    ensures p in OverlayOrder(DETECTION_OVERLAY, units, shuffle)
    ensures p !in OverlayOrder(GetOverlay(false), units, shuffle)
    ensures OverlayOrder(DETECTION_OVERLAY, units, shuffle) != OverlayOrder(GetOverlay(false), units, shuffle)
  {
    assert p in multiset(Eligible(DETECTION_OVERLAY, units));
    assert p !in multiset(Eligible(GetOverlay(false), units));
  }

  /** What isSteganographicData does with the carrier as written: it builds a
      PixelBit encoder whatever the image type, so a pixel size other than 24
      or 32 bits is an illegal argument before anything is read; otherwise it
      is the signature test of Detect. */
  function DetectAsWritten(pixelSize: int, units: seq<bv32>, order: seq<int>, start: int): (r: Result<bool, Error>)
    requires InRange(order, |units|) && 0 <= start
    ensures r == Failure(IllegalArgument) <==> pixelSize != 24 && pixelSize != 32
    ensures pixelSize == 24 || pixelSize == 32 ==> r == Detect(units, order, start)
  {
    if ChannelCount(pixelSize).None? then Failure(IllegalArgument) else Detect(units, order, start)
  }

  /** As written, detection refuses every indexed carrier that encode
      accepts: an indexed image holds at most 8 bits per pixel, so the
      PixelBit depth check fails, while getEncoder gives a GIF with a global
      colour table the palette codec. */
  lemma DetectionRefusesIndexed(pixelSize: int, gif: seq<Byte>, useTransparent: bool,
                                units: seq<bv32>, order: seq<int>, start: int)
    requires InRange(order, |units|) && 0 <= start && pixelSize <= 8
    requires GifTable.GlobalTable(gif).Success? && GifTable.GlobalTable(gif).value.Some?
    ensures GetEncoder(TypeByteIndexed, useTransparent, Some(gif)).Success?
    ensures GetEncoder(TypeByteIndexed, useTransparent, Some(gif)).value.PaletteCodec?
    ensures DetectAsWritten(pixelSize, units, order, start) == Failure(IllegalArgument)
  {}

  /** Detection as evidently intended: dispatched like getEncoder.  A direct
      type reads the signature through PixelBit; an indexed image reads it
      through the palette codec, whose four decoded bytes (or its error) are
      an input, that codec not being part of this model; any other carrier
      fails as getEncoder does. */
  function DetectByType(t: ImageType, useTransparent: bool, gifBytes: Option<seq<Byte>>,
                        units: seq<bv32>, order: seq<int>, start: int,
                        paletteSignature: Result<seq<Byte>, Error>): (r: Result<bool, Error>)
    requires InRange(order, |units|) && 0 <= start
    requires paletteSignature.Success? ==> |paletteSignature.value| == 4
    ensures IsParityType(t) ==> r == Detect(units, order, start)
    ensures GetEncoder(t, useTransparent, gifBytes).Failure? ==> r == Failure(GetEncoder(t, useTransparent, gifBytes).error)
  {
    match GetEncoder(t, useTransparent, gifBytes)
    case Failure(e) => Failure(e)
    case Success(codec) =>
      if codec.ParityCodec? then Detect(units, order, start)
      else match paletteSignature
        case Failure(e) => Failure(e)
        case Success(signature) => Success(BytesToInt(signature) == HEADER_SIGNATURE)
  }

  /** Intended detection accepts every carrier encode accepts: a direct type
      with 32 units left and an indexed image whose palette codec reads four
      bytes are answered, never refused; and a header written by encode is
      recognised, through PixelBit or the palette codec alike. */
  lemma DetectByTypeAnswers(t: ImageType, useTransparent: bool, gifBytes: Option<seq<Byte>>,
                            units: seq<bv32>, order: seq<int>, start: int,
                            paletteSignature: Result<seq<Byte>, Error>)
    requires InRange(order, |units|) && 0 <= start
    requires paletteSignature.Success? ==> |paletteSignature.value| == 4
    ensures GetEncoder(t, useTransparent, gifBytes).Success? && IsParityType(t) && start + 32 <= |order| ==>
              DetectByType(t, useTransparent, gifBytes, units, order, start, paletteSignature).Success?
    ensures GetEncoder(t, useTransparent, gifBytes).Success? && t == TypeByteIndexed && paletteSignature.Success? ==>
              DetectByType(t, useTransparent, gifBytes, units, order, start, paletteSignature).Success?
    ensures GetEncoder(t, useTransparent, gifBytes).Success? && t == TypeByteIndexed
            && paletteSignature == Success(IntToBytes(HEADER_SIGNATURE)) ==>
              DetectByType(t, useTransparent, gifBytes, units, order, start, paletteSignature) == Success(true)
    ensures IsParityType(t) && start + 32 <= |order| && Decoded(units, order, start, 4) == IntToBytes(HEADER_SIGNATURE) ==>
              DetectByType(t, useTransparent, gifBytes, units, order, start, paletteSignature) == Success(true)
  {
    IntBytesRoundTrip(HEADER_SIGNATURE);
    EncoderChoice(t, useTransparent, gifBytes);
  }

  /** Detection reads in the encoder's own order when transparent pixels are
      used, or when the image has none. */
  lemma DetectionAgrees(units: seq<bv32>, useTransparent: bool, shuffle: seq<int> -> seq<int>)
    requires useTransparent || Opaque(units)
    ensures OverlayOrder(DETECTION_OVERLAY, units, shuffle) == OverlayOrder(GetOverlay(useTransparent), units, shuffle)
  {
    EligibleFromSame(DETECTION_OVERLAY, units, GetOverlay(useTransparent), units, 0);
  }

  /** Writing one bit can move a pixel into or out of the overlay that skips
      transparent pixels: stepping alpha down from 1 makes the pixel fully
      transparent, and stepping it up from 0 makes it visible. */
  lemma AlphaCanVanish()
    ensures !Transparent(0x0100_0000) && Transparent(ChangePixelValue(0x0100_0000, Choice(3, false)))
    ensures Eligible(RemoveTransparentShuffle, [0x0100_0000]) == [0]
    ensures Eligible(RemoveTransparentShuffle, [ChangePixelValue(0x0100_0000, Choice(3, false))]) == []
    ensures Transparent(0) && !Transparent(ChangePixelValue(0, Choice(3, true)))
  {
    var down := ChangePixelValue(0x0100_0000, Choice(3, false));
    assert ByteOf(0x0100_0000, 3) == 1;
    assert ByteOf(down, 3) == 0;
    assert 0 in Eligible(RemoveTransparentShuffle, [0x0100_0000]);
    assert ByteOf(ChangePixelValue(0, Choice(3, true)), 3) == 1;
  }

  /** Both sequences have the same length and the same transparent pixels. */
  predicate SameTransparency(a: seq<bv32>, b: seq<bv32>)
  {
    |a| == |b| && forall p :: 0 <= p < |a| ==> (Transparent(a[p]) <==> Transparent(b[p]))
  }

  /** No pixel is fully transparent. */
  predicate Opaque(units: seq<bv32>)
  {
    forall p :: 0 <= p < |units| ==> !Transparent(units[p])
  }

  /** Round trip through the overlays as the settings select them: the
      decoder rebuilds the visit order from the written image, and gets the
      encoder's order back when transparent pixels are used, or when writing
      moved no pixel into or out of full transparency.  Detection through
      the encoder's overlay kind answers true; detection as written reads in
      the same order, and so answers true too, when transparent pixels are
      used or the written image has none. */
  lemma SettingsRoundTrip(units: seq<bv32>, useTransparent: bool, shuffle: seq<int> -> seq<int>,
                          payload: seq<Byte>, choices: seq<Choice>, order: seq<int>, written: seq<bv32>)
    requires order == OverlayOrder(GetOverlay(useTransparent), units, shuffle) && Positions(order, |units|)
    requires |payload| < 0x8000_0000 && |choices| == 8 * (8 + |payload|) && 8 * (8 + |payload|) <= |order|
    requires written == WriteBits(units, order, 0, BitsOf(Header(|payload|) + payload), choices, 8 * (8 + |payload|))
    requires useTransparent || SameTransparency(units, written)
    ensures OverlayOrder(GetOverlay(useTransparent), written, shuffle) == order
    ensures FramedRead(written, order, 0) == Success(payload)
    ensures Detect(written, order, 0) == Success(true)
    ensures useTransparent || Opaque(written) ==> OverlayOrder(DETECTION_OVERLAY, written, shuffle) == order
  {
    EligibleFromSame(GetOverlay(useTransparent), units, GetOverlay(useTransparent), written, 0);
    FramedRoundTrip(units, order, 0, payload, choices);
    if useTransparent || Opaque(written) {
      DetectionAgrees(written, useTransparent, shuffle);
    }
  }

  predicate IsParityType(t: ImageType)
  {
    t in {Type4ByteAbgr, Type3ByteBgr, TypeIntArgb, TypeIntRgb, TypeIntBgr}
  }

  /** getEncoder.  An indexed image is written out as a GIF (gifBytes, None
      when writing failed); a failed write is caught and falls through to the
      untested types, which are refused; a file without a global colour table
      hands null to getColorCouples. */
  function GetEncoder(t: ImageType, useTransparent: bool, gifBytes: Option<seq<Byte>>): (r: Result<Codec, Error>)
    ensures r.Failure? ==> r.error in {UnsupportedImageType, NullPointer, IllegalArgument, IndexOutOfBounds}
    ensures r.Success? && r.value.ParityCodec? ==> IsParityType(t)
    ensures r.Success? && r.value.PaletteCodec? ==> t == TypeByteIndexed
  {
    if IsParityType(t) then Success(ParityCodec(GetOverlay(useTransparent)))
    else if t == TypeByteIndexed && gifBytes.Some? then
      match GifTable.GlobalTable(gifBytes.value)
      case Failure(e) => Failure(e)
      case Success(None) => Failure(NullPointer)
      case Success(Some(table)) => Success(PaletteCodec(GifTable.Couples(table)))
    else Failure(UnsupportedImageType)
  }

  /** The five direct types get PixelBit, with the overlay useTransparent
      selects; the indexed type gets the palette codec or fails; every other
      type is refused. */
  lemma EncoderChoice(t: ImageType, useTransparent: bool, gifBytes: Option<seq<Byte>>)
    ensures GetEncoder(t, useTransparent, gifBytes).Success? && GetEncoder(t, useTransparent, gifBytes).value.ParityCodec?
            <==> IsParityType(t)
    ensures IsParityType(t) ==> GetEncoder(t, useTransparent, gifBytes).value.overlay
                                 == (if useTransparent then Shuffle else RemoveTransparentShuffle)
    ensures GetEncoder(t, useTransparent, gifBytes).Success? && GetEncoder(t, useTransparent, gifBytes).value.PaletteCodec?
            <==> t == TypeByteIndexed && gifBytes.Some? && GifTable.GlobalTable(gifBytes.value).Success?
                 && GifTable.GlobalTable(gifBytes.value).value.Some?
    ensures !IsParityType(t) && t != TypeByteIndexed ==> GetEncoder(t, useTransparent, gifBytes) == Failure(UnsupportedImageType)
    ensures t == TypeByteIndexed && gifBytes.None? ==> GetEncoder(t, useTransparent, gifBytes) == Failure(UnsupportedImageType)
    ensures t == TypeByteIndexed && gifBytes.Some? && GifTable.GlobalTable(gifBytes.value) == Success(None)
            ==> GetEncoder(t, useTransparent, gifBytes) == Failure(NullPointer)
    ensures t == TypeByteIndexed && gifBytes.Some? && GifTable.GlobalTable(gifBytes.value).Failure?
            ==> GetEncoder(t, useTransparent, gifBytes) == Failure(GifTable.GlobalTable(gifBytes.value).error)
  {}

  /** The indexed branch of getEncoder: a fresh table decoder reads the colour
      table and builds the couples from it. */
  method PaletteCouples(gif: seq<Byte>) returns (r: Result<map<Int32, seq<Int32>>, Error>)
    ensures GetEncoder(TypeByteIndexed, false, Some(gif)).Success? <==> r.Success?
    ensures r.Success? ==> GetEncoder(TypeByteIndexed, false, Some(gif)) == Success(PaletteCodec(r.value))
    ensures r.Failure? ==> GetEncoder(TypeByteIndexed, false, Some(gif)) == Failure(r.error)
  {
    var tableDecoder := new GifTable.GifTableDecoder();
    var table := tableDecoder.SaveColorTable(gif);
    if table.Failure? {
      return Failure(table.error);
    }
    r := tableDecoder.GetColorCouples(table.value);
  }

  /** Writing x then y through one cursor is writing x + y: units that hold
      x written from start and then y written after it hold x + y written
      from start. */
  lemma EncodeAppend(units: seq<bv32>, order: seq<int>, start: int, x: seq<Byte>, cx: seq<Choice>,
                     y: seq<Byte>, cy: seq<Choice>, mid: seq<bv32>, at: int, last: seq<bv32>)
    requires InRange(order, |units|) && 0 <= start && start + 8 * |x| + 8 * |y| <= |order|
    requires |cx| == 8 * |x| && |cy| == 8 * |y| && at == start + 8 * |x|
    requires mid == WriteBits(units, order, start, BitsOf(x), cx, 8 * |x|)
    requires last == WriteBits(mid, order, at, BitsOf(y), cy, 8 * |y|)
    ensures last == WriteBits(units, order, start, BitsOf(x + y), cx + cy, 8 * |x + y|)
  {
    BitsOfAppend(x, y);
    WriteBitsAppend(units, order, start, BitsOf(x), cx, BitsOf(y), cy, 8 * |y|);
  }

  /** Three PixelBit encode calls in a row, each with its own capacity check
      and the choices for its own units: they fail for capacity exactly when
      the three parts together do not fit, and otherwise write x + y + z as
      one encode of it would. */
  method EncodeThree(encoder: PixelBitEncoder, x: seq<Byte>, cx: seq<Choice>, y: seq<Byte>, cy: seq<Choice>,
                     z: seq<Byte>, cz: seq<Choice>)
    returns (r: Outcome<Error>)
    requires encoder.Valid()
    requires |cx| == 8 * |x| && |cy| == 8 * |y| && |cz| == 8 * |z|
    requires ChoicesFit(cx, encoder.channels) && ChoicesFit(cy, encoder.channels) && ChoicesFit(cz, encoder.channels)
    modifies encoder.overlay, encoder.overlay.units
    ensures encoder.Valid()
    ensures r.Fail? <==> 8 * |x + y + z| > old(encoder.overlay.Available())
    ensures r.Fail? ==> r.error == CapacityExceeded
    ensures r.Fail? && 8 * |x| > old(encoder.overlay.Available()) ==>
              encoder.overlay.current == old(encoder.overlay.current)
              && encoder.overlay.units[..] == old(encoder.overlay.units[..])
    ensures r.Fail? && 8 * |x| <= old(encoder.overlay.Available()) < 8 * |x + y| ==>
              encoder.overlay.current == old(encoder.overlay.current) + 8 * |x|
              && encoder.overlay.units[..]
                 == WriteBits(old(encoder.overlay.units[..]), encoder.overlay.order, old(encoder.overlay.current) + 1,
                              BitsOf(x), cx, 8 * |x|)
    ensures r.Fail? && 8 * |x + y| <= old(encoder.overlay.Available()) ==>
              encoder.overlay.current == old(encoder.overlay.current) + 8 * |x + y|
              && encoder.overlay.units[..]
                 == WriteBits(old(encoder.overlay.units[..]), encoder.overlay.order, old(encoder.overlay.current) + 1,
                              BitsOf(x + y), cx + cy, 8 * |x + y|)
    ensures r.Pass? ==> encoder.overlay.current == old(encoder.overlay.current) + 8 * |x + y + z|
    ensures r.Pass? ==>
              encoder.overlay.units[..]
              == WriteBits(old(encoder.overlay.units[..]), encoder.overlay.order, old(encoder.overlay.current) + 1,
                           BitsOf(x + y + z), cx + cy + cz, 8 * |x + y + z|)
  {
    ghost var before := encoder.overlay.units[..];
    ghost var start := encoder.overlay.current + 1;
    ghost var order := encoder.overlay.order;
    r := encoder.Encode(x, cx);
    if r.Fail? {
      return;
    }
    ghost var first, at1 := encoder.overlay.units[..], encoder.overlay.current + 1;
    r := encoder.Encode(y, cy);
    if r.Fail? {
      return;
    }
    ghost var second, at2 := encoder.overlay.units[..], encoder.overlay.current + 1;
    EncodeAppend(before, order, start, x, cx, y, cy, first, at1, second);
    r := encoder.Encode(z, cz);
    if r.Fail? {
      return;
    }
    EncodeAppend(before, order, start, x + y, cx + cy, z, cz, second, at2, encoder.overlay.units[..]);
  }

  // ---------------------------------------------------------------------------
  // The front end
  // ---------------------------------------------------------------------------

  class ImageSteg {
    const useDefaultHeader: bool
    const useTransparent: bool

    /** ImageSteg(): the header is used and transparent pixels are not. */
    constructor Default()
      ensures useDefaultHeader && !useTransparent
    {
      useDefaultHeader := true;
      useTransparent := false;
    }

    constructor (useDefaultHeader: bool, useTransparent: bool)
      ensures this.useDefaultHeader == useDefaultHeader && this.useTransparent == useTransparent
    {
      this.useDefaultHeader := useDefaultHeader;
      this.useTransparent := useTransparent;
    }

    /** The bytes encode writes: the header and the payload, or the payload
        alone. */
    function Frame(payload: seq<Byte>): (r: seq<Byte>)
      requires |payload| < 0x8000_0000
      ensures |r| == (if useDefaultHeader then 8 else 0) + |payload|
    {
      if useDefaultHeader then Header(|payload|) + payload else payload
    }

    /** The encoding part of encode: with the header, three PixelBit encode
        calls (signature, length, payload), each with its own capacity check
        and the flip choices for its own units.  Fails for capacity exactly
        when the whole frame does not fit; otherwise the units hold the frame,
        written as one PixelBit encode of it would. */
    method Encode(encoder: PixelBitEncoder, payload: seq<Byte>, choices: seq<Choice>, ghost shuffle: seq<int> -> seq<int>)
      returns (r: Outcome<Error>)
      requires encoder.Valid() && |payload| < 0x8000_0000
      requires encoder.overlay.order == OverlayOrder(GetOverlay(useTransparent), encoder.overlay.units[..], shuffle)
      requires |choices| == 8 * |Frame(payload)| && ChoicesFit(choices, encoder.channels)
      modifies encoder.overlay, encoder.overlay.units
      ensures encoder.Valid()
      ensures r.Fail? <==> 8 * |Frame(payload)| > old(encoder.overlay.Available())
      ensures r.Fail? ==> r.error == CapacityExceeded
      ensures r.Fail? && (!useDefaultHeader || old(encoder.overlay.Available()) < 32) ==>
                encoder.overlay.current == old(encoder.overlay.current)
                && encoder.overlay.units[..] == old(encoder.overlay.units[..])
      ensures r.Fail? && useDefaultHeader && 64 <= old(encoder.overlay.Available()) ==>
                encoder.overlay.current == old(encoder.overlay.current) + 64
                && encoder.overlay.units[..]
                   == WriteBits(old(encoder.overlay.units[..]), encoder.overlay.order, old(encoder.overlay.current) + 1,
                                BitsOf(Header(|payload|)), choices[..64], 64)
      ensures r.Pass? ==> encoder.overlay.current == old(encoder.overlay.current) + 8 * |Frame(payload)|
      ensures r.Pass? ==>
                encoder.overlay.units[..]
                == WriteBits(old(encoder.overlay.units[..]), encoder.overlay.order, old(encoder.overlay.current) + 1,
                             BitsOf(Frame(payload)), choices, 8 * |Frame(payload)|)
    {
      if useDefaultHeader {
        var c1, c2, c3 := choices[..32], choices[32..64], choices[64..];
        assert choices == c1 + c2 + c3;
        assert choices[..64] == c1 + c2;
        r := EncodeThree(encoder, IntToBytes(HEADER_SIGNATURE), c1, IntToBytes(|payload|), c2, payload, c3);
      } else {
        r := encoder.Encode(payload, choices);
      }
    }

    /** decode: four bytes that must hold the signature, four bytes of
        length, then the payload; never writes. */
    method Decode(encoder: PixelBitEncoder, ghost shuffle: seq<int> -> seq<int>) returns (r: Result<seq<Byte>, Error>)
      requires encoder.Valid()
      requires encoder.overlay.order == OverlayOrder(GetOverlay(useTransparent), encoder.overlay.units[..], shuffle)
      modifies encoder.overlay
      ensures encoder.Valid()
      ensures r == FramedRead(encoder.overlay.units[..], encoder.overlay.order, old(encoder.overlay.current) + 1)
    {
      ghost var start := encoder.overlay.current + 1;
      ghost var units, order := encoder.overlay.units[..], encoder.overlay.order;
      var signature := encoder.Decode(4);
      assert encoder.overlay.units[..] == units;
      if signature.Failure? {
        return Failure(signature.error);
      }
      if BytesToInt(signature.value) != HEADER_SIGNATURE {
        return Failure(UnknownStegFormat);
      }
      assert encoder.overlay.current + 1 == start + 32;
      var length := encoder.Decode(4);
      assert encoder.overlay.units[..] == units;
      if length.Failure? {
        return Failure(length.error);
      }
      assert encoder.overlay.current + 1 == start + 64;
      r := encoder.Decode(BytesToInt(length.value));
      assert encoder.overlay.units[..] == units;
    }

    /** decodeRaw: the given number of bytes, no header. */
    method DecodeRaw(encoder: PixelBitEncoder, length: Int32, ghost shuffle: seq<int> -> seq<int>)
      returns (r: Result<seq<Byte>, Error>)
      requires encoder.Valid()
      requires encoder.overlay.order == OverlayOrder(GetOverlay(useTransparent), encoder.overlay.units[..], shuffle)
      modifies encoder.overlay
      ensures encoder.Valid()
      ensures r == Read(encoder.overlay.units[..], encoder.overlay.order, old(encoder.overlay.current) + 1, length)
    {
      r := encoder.Decode(length);
    }

    /** isSteganographicData: a PixelBit encoder is built over the detection
        overlay, whatever useTransparent says, and for the carrier's pixel
        size, which it refuses as an illegal argument unless it is 24 or 32
        bits; then whether the first four bytes hold the signature.  The
        source always starts from a fresh overlay (cursor -1); the contract
        holds for any starting cursor, reading from the unit after it. */
    method IsSteganographicData(overlay: SequenceOverlay<bv32>, pixelSize: int, ghost shuffle: seq<int> -> seq<int>)
      returns (r: Result<bool, Error>)
      requires overlay.Valid()
      requires overlay.order == OverlayOrder(DETECTION_OVERLAY, overlay.units[..], shuffle)
      modifies overlay
      ensures overlay.Valid()
      ensures r == DetectAsWritten(pixelSize, overlay.units[..], overlay.order, old(overlay.current) + 1)
      ensures r == Failure(IllegalArgument) ==> overlay.current == old(overlay.current)
    {
      var encoder := Create(overlay, pixelSize);
      if encoder.Failure? {
        return Failure(encoder.error);
      }
      var signature := encoder.value.Decode(4);
      if signature.Failure? {
        return Failure(signature.error);
      }
      r := Success(BytesToInt(signature.value) == HEADER_SIGNATURE);
    }
  }
}
